/**
 The additive 16-bit checksum. Go and the C decoder add unsigned bytes; Java, and the C encoder on
 platforms where `char` is signed, add signed ones.
 */
module Checksum {
  import opened Types

  const WORDS: nat := 0x1_0000

  /** Truncation to an unsigned 16-bit integer. */
  function Word(x: int): Word16 {
    x % WORDS
  }

  /** Narrowing to a signed 16-bit integer. */
  function ToShort(x: int): (s: int)
    ensures -0x8000 <= s < 0x8000
  {
    var w := Word(x);
    if w < 0x8000 then w else w - WORDS
  }

  lemma SmallShort(w: Word16)
    requires w < 0x8000
    ensures ToShort(w) == w
  {
  }

  function Signed(b: Byte): int {
    if b < 0x80 then b else b - 0x100
  }

  function Sum(p: seq<Byte>): nat {
    if p == [] then 0 else Sum(p[..|p| - 1]) + p[|p| - 1]
  }

  function SignedSum(p: seq<Byte>): int {
    if p == [] then 0 else SignedSum(p[..|p| - 1]) + Signed(p[|p| - 1])
  }

  /** Number of bytes outside ASCII. */
  function High(p: seq<Byte>): (n: nat)
    ensures n <= |p|
  {
    if p == [] then 0 else High(p[..|p| - 1]) + if p[|p| - 1] < 0x80 then 0 else 1
  }

  lemma {:induction false} AsciiHasNone(p: seq<Byte>)
    requires forall i :: 0 <= i < |p| ==> p[i] < 0x80
    ensures High(p) == 0
  {
    if p == [] {
    } else {
      AsciiHasNone(p[..|p| - 1]);
    }
  }

  function Of(signed: bool, p: seq<Byte>): Word16 {
    Word(if signed then SignedSum(p) else Sum(p))
  }

  // ---------- the loops ----------

  lemma Snoc(p: seq<Byte>, i: nat)
    requires i < |p|
    ensures Sum(p[..i + 1]) == Sum(p[..i]) + p[i]
    ensures SignedSum(p[..i + 1]) == SignedSum(p[..i]) + Signed(p[i])
  {
    assert p[..i + 1][..i] == p[..i];
  }

  lemma WordAdd(x: int, y: int)
    ensures Word(Word(x) + y) == Word(x + y)
    ensures ToShort(ToShort(x) + y) == ToShort(x + y)
  {
  }

  /** `get_checksum` of the C encoder; `signed` is the signedness of `char` on the platform. */
  method GetChecksum(signed: bool, data: seq<Byte>, len: Word16) returns (checksum: Word16)
    requires len <= |data|
    ensures checksum == Of(signed, data[..len])
  {
    checksum := 0;
    var i := 0;
    while i < len
      invariant i <= len && checksum == Of(signed, data[..i])
    {
      Snoc(data, i);
      var c := if signed then Signed(data[i]) else data[i];
      WordAdd(if signed then SignedSum(data[..i]) else Sum(data[..i]), c);
      checksum := Word(checksum + c);
      i := i + 1;
    }
  }

  /** The loop of `checksum_right` in C and of the two Go checks, over `len` bytes from `offset`. */
  method SumBytes(buf: array<Byte>, offset: nat, len: nat) returns (sum: Word16)
    requires offset + len <= buf.Length
    ensures sum == Of(false, buf[offset..offset + len])
  {
    sum := 0;
    ghost var data := buf[offset..offset + len];
    for i := 0 to len
      invariant sum == Of(false, data[..i])
    {
      Snoc(data, i);
      WordAdd(Sum(data[..i]), data[i]);
      sum := Word(sum + buf[offset + i]);
    }
    assert data[..len] == data;
  }

  /** Java's `getChecksumByOffset`: a short accumulator of signed bytes; a negative length adds nothing. */
  method GetChecksumByOffset(buf: array<Byte>, offset: nat, len: int) returns (sum: int)
    requires offset + len <= buf.Length
    ensures sum == if len < 0 then 0 else ToShort(SignedSum(buf[offset..offset + len]))
  {
    sum := 0;
    if len < 0 {
      return;
    }
    ghost var data := buf[offset..offset + len];
    for i := 0 to len
      invariant sum == ToShort(SignedSum(data[..i]))
    {
      Snoc(data, i);
      WordAdd(SignedSum(data[..i]), Signed(data[i]));
      sum := ToShort(sum + Signed(buf[offset + i]));
    }
    assert data[..len] == data;
  }

  // ---------- signed against unsigned ----------

  lemma {:induction false} SignedIsUnsignedLess(p: seq<Byte>)
    ensures SignedSum(p) == Sum(p) - 0x100 * High(p)
  {
    if p == [] {
    } else {
      SignedIsUnsignedLess(p[..|p| - 1]);
    }
  }

  lemma WordMultiple(x: int, q: int)
    ensures Word(x + WORDS * q) == Word(x)
  {
  }

  lemma WordShift(s: int, h: nat)
    ensures Word(s - 0x100 * h) == Word(s) <==> h % 0x100 == 0
  {
    var q, r := h / 0x100, h % 0x100;
    assert s - 0x100 * h == s - 0x100 * r - WORDS * q;
    WordMultiple(s - 0x100 * r, -q);
    assert 0x100 * r < WORDS;
  }

  /** The two checksums agree exactly when the number of non-ASCII bytes is a multiple of 256. */
  lemma SignednessMatters(p: seq<Byte>)
    ensures Of(true, p) == Of(false, p) <==> High(p) % 0x100 == 0
  {
    SignedIsUnsignedLess(p);
    WordShift(Sum(p), High(p));
  }

  // ---------- what the checksum detects ----------

  /** Number of positions at which two payloads of one length differ. */
  function Differences(p: seq<Byte>, q: seq<Byte>): nat
    requires |p| == |q|
  {
    if p == [] then 0
    else Differences(p[..|p| - 1], q[..|q| - 1]) + if p[|p| - 1] == q[|q| - 1] then 0 else 1
  }

  ghost predicate Raised(p: seq<Byte>, q: seq<Byte>) {
    |p| == |q| && forall i :: 0 <= i < |p| ==> p[i] <= q[i]
  }

  lemma {:induction false} RaisedSum(p: seq<Byte>, q: seq<Byte>)
    requires Raised(p, q)
    ensures Sum(p) + Differences(p, q) <= Sum(q) <= Sum(p) + 255 * Differences(p, q)
  {
    if p == [] {
    } else {
      RaisedSum(p[..|p| - 1], q[..|q| - 1]);
    }
  }

  lemma WordDistinct(x: int, y: int)
    requires 0 < y - x < WORDS
    ensures Word(x) != Word(y)
  {
  }

  /** Raising between 1 and 257 bytes, or lowering them, always changes the checksum. */
  lemma RaisingDetected(p: seq<Byte>, q: seq<Byte>)
    requires Raised(p, q) && 1 <= Differences(p, q) <= 257
    ensures Of(false, p) != Of(false, q)
  {
    RaisedSum(p, q);
    assert 0 < Sum(q) - Sum(p) < WORDS;
    WordDistinct(Sum(p), Sum(q));
  }

  lemma {:induction false} SumConstant(n: nat, b: Byte)
    ensures Sum(seq(n, _ => b)) == n * b
  {
    var s := seq(n, _ => b);
    if n == 0 {
    } else {
      assert s[..n - 1] == seq(n - 1, _ => b);
      SumConstant(n - 1, b);
    }
  }

  lemma {:induction false} DifferencesEverywhere(p: seq<Byte>, q: seq<Byte>)
    requires |p| == |q| && forall i :: 0 <= i < |p| ==> p[i] != q[i]
    ensures Differences(p, q) == |p|
  {
    if p == [] {
    } else {
      DifferencesEverywhere(p[..|p| - 1], q[..|q| - 1]);
    }
  }

  /** `n` positive bytes with a given sum. */
  function Fill(n: nat, total: nat): (r: seq<Byte>)
    requires n <= total <= 255 * n
    ensures |r| == n && forall i :: 0 <= i < n ==> r[i] > 0
    ensures Sum(r) == total
  {
    if n == 0 then []
    else
      var last := if total - (n - 1) < 255 then total - (n - 1) else 255;
      var r := Fill(n - 1, total - last) + [last];
      assert r[..n - 1] == Fill(n - 1, total - last);
      r
  }

  /** Some raise of `n` bytes leaves the checksum as it was. */
  ghost predicate RaiseUnnoticed(p: seq<Byte>, q: seq<Byte>, n: nat) {
    Raised(p, q) && Differences(p, q) == n && Of(false, p) == Of(false, q)
  }

  lemma UnnoticedRaise(n: nat) returns (p: seq<Byte>, q: seq<Byte>)
    requires n >= 258
    ensures |p| == n && RaiseUnnoticed(p, q, n)
  {
    var total := WORDS * ((n + WORDS - 1) / WORDS);
    p, q := seq(n, _ => 0), Fill(n, total);
    SumConstant(n, 0);
    DifferencesEverywhere(p, q);
  }

  /** The bound is sharp: raising `n` bytes, and no other change, can go unnoticed exactly from 258 bytes on. */
  lemma RaisingBoundSharp(n: nat)
    requires n > 0
    ensures (exists p, q :: RaiseUnnoticed(p, q, n)) <==> n >= 258
  {
    if n >= 258 {
      var p, q := UnnoticedRaise(n);
    } else if p, q :| RaiseUnnoticed(p, q, n) {
      RaisingDetected(p, q);
    }
  }

  /** The same order on the bytes as Java and a signed `char` read them. */
  ghost predicate SignedRaised(p: seq<Byte>, q: seq<Byte>) {
    |p| == |q| && forall i :: 0 <= i < |p| ==> Signed(p[i]) <= Signed(q[i])
  }

  lemma {:induction false} SignedRaisedSum(p: seq<Byte>, q: seq<Byte>)
    requires SignedRaised(p, q)
    ensures SignedSum(p) + Differences(p, q) <= SignedSum(q) <= SignedSum(p) + 255 * Differences(p, q)
  {
    if p == [] {
    } else {
      SignedRaisedSum(p[..|p| - 1], q[..|q| - 1]);
    }
  }

  /** The signed checksum detects the same number of raised bytes, in the signed order. */
  lemma SignedRaisingDetected(p: seq<Byte>, q: seq<Byte>)
    requires SignedRaised(p, q) && 1 <= Differences(p, q) <= 257
    ensures Of(true, p) != Of(true, q)
  {
    SignedRaisedSum(p, q);
    WordDistinct(SignedSum(p), SignedSum(q));
  }

  lemma {:induction false} HighOfRaised(p: seq<Byte>, q: seq<Byte>)
    requires Raised(p, q)
    ensures High(p) <= High(q) <= High(p) + Differences(p, q)
  {
    if p == [] {
    } else {
      HighOfRaised(p[..|p| - 1], q[..|q| - 1]);
    }
  }

  /**
   A raise of 1 to 257 bytes in the unsigned order escapes the signed checksum exactly when it adds 256 for each
   byte that it takes out of ASCII, since such a byte counts 256 less.
   */
  lemma SignedMissesIff(p: seq<Byte>, q: seq<Byte>)
    requires Raised(p, q) && 1 <= Differences(p, q) <= 257
    ensures Of(true, p) == Of(true, q) <==> Sum(q) - Sum(p) == 0x100 * (High(q) - High(p))
  {
    RaisedSum(p, q);
    HighOfRaised(p, q);
    SignedIsUnsignedLess(p);
    SignedIsUnsignedLess(q);
    if SignedSum(p) < SignedSum(q) {
      WordDistinct(SignedSum(p), SignedSum(q));
    } else if SignedSum(q) < SignedSum(p) {
      assert SignedSum(p) - SignedSum(q) < 0x100 * 257;
      if SignedSum(p) - SignedSum(q) < WORDS {
        WordDistinct(SignedSum(q), SignedSum(p));
      }
    }
  }

  /** Two raised bytes are enough: 255 counts as -1. */
  lemma SignedMissesTwo()
    ensures Raised([0, 0], [255, 1]) && Differences([0, 0], [255, 1]) == 2
    ensures Of(true, [0, 0]) == Of(true, [255, 1]) && Of(false, [0, 0]) != Of(false, [255, 1])
  {
    var p: seq<Byte>, q: seq<Byte> := [0, 0], [255, 1];
    assert p[..1] == [0] && q[..1] == [255] && p[..1][..0] == [] && q[..1][..0] == [];
    assert SignedSum([0]) == 0 && SignedSum([255]) == -1 && Sum([0]) == 0 && Sum([255]) == 255;
    assert Differences([0], [255]) == 1;
  }

  lemma {:induction false} SumConcat(a: seq<Byte>, b: seq<Byte>)
    ensures Sum(a + b) == Sum(a) + Sum(b)
  {
    if b == [] {
      assert a + b == a;
    } else {
      var n := |b| - 1;
      assert (a + b)[..|a| + n] == a + b[..n];
      SumConcat(a, b[..n]);
    }
  }

  lemma {:induction false} HighConcat(a: seq<Byte>, b: seq<Byte>)
    ensures High(a + b) == High(a) + High(b)
  {
    if b == [] {
      assert a + b == a;
    } else {
      var n := |b| - 1;
      assert (a + b)[..|a| + n] == a + b[..n];
      HighConcat(a, b[..n]);
    }
  }

  lemma Extract(q: seq<Byte>, i: nat)
    requires i < |q|
    ensures Sum(q) == Sum(q[..i] + q[i + 1..]) + q[i]
    ensures High(q) == High(q[..i] + q[i + 1..]) + if q[i] < 0x80 then 0 else 1
  {
    var a, c := q[..i + 1], q[i + 1..];
    assert q == a + c && a[..i] == q[..i];
    SumConcat(a, c);
    SumConcat(a[..i], c);
    HighConcat(a, c);
    HighConcat(a[..i], c);
  }

  lemma MultisetCancel(m: multiset<Byte>, n: multiset<Byte>, b: Byte)
    requires m + multiset{b} == n + multiset{b}
    ensures m == n
  {
    assert m == m + multiset{b} - multiset{b};
    assert n == n + multiset{b} - multiset{b};
  }

  lemma MultisetWithout(q: seq<Byte>, i: nat)
    requires i < |q|
    ensures multiset(q) == multiset(q[..i] + q[i + 1..]) + multiset{q[i]}
  {
    assert q == q[..i] + [q[i]] + q[i + 1..];
  }

  /** Reordering the payload is never noticed, by either kind of checksum. */
  lemma {:induction false} PermutationUnnoticed(p: seq<Byte>, q: seq<Byte>)
    requires multiset(p) == multiset(q)
    ensures Sum(p) == Sum(q) && High(p) == High(q) && SignedSum(p) == SignedSum(q)
    ensures Of(false, p) == Of(false, q) && Of(true, p) == Of(true, q)
    decreases |p|
  {
    if p == [] {
      assert |q| == |multiset(q)| == 0;
    } else {
      var n, b := |p| - 1, p[|p| - 1];
      assert p == p[..n] + [b];
      assert multiset(p) == multiset(p[..n]) + multiset{b};
      assert b in multiset(q);
      var i :| 0 <= i < |q| && q[i] == b;
      MultisetWithout(q, i);
      Extract(q, i);
      var rest := q[..i] + q[i + 1..];
      MultisetCancel(multiset(p[..n]), multiset(rest), b);
      PermutationUnnoticed(p[..n], rest);
    }
    SignedIsUnsignedLess(p);
    SignedIsUnsignedLess(q);
  }
}
