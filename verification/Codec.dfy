/**
 The frame: an 8-byte little-endian header and a payload in a zero-padded buffer of 1024 bytes.
 One encoder for all three implementations, and the three decoders, which find the payload's end
 by NUL (C), by the last closing brace (Go) and by the header's length (Java).
 */
module Codec {
  import opened Types
  import opened Checksum

  const INFO_HEAD: Word16 := 0xFFEE
  const HEAD_LEN: nat := 8
  const BUF_LEN: nat := 1024
  const ROOM: nat := 1016

  const REGISTER_SERVICE: Word16 := 0
  const UNREGISTER_SERVICE: Word16 := 1
  const INQUIRY: Word16 := 2
  const ACTION_SUCC: Word16 := 3
  const ACTION_FAIL: Word16 := 4

  const BRACE: Byte := 125

  type Buffer = b: seq<Byte> | |b| == BUF_LEN witness seq(BUF_LEN, _ => 0)

  datatype Head = Head(head: Word16, action: Word16, len: Word16, checksum: Word16)

  function Le(w: Word16): (r: seq<Byte>)
    ensures |r| == 2
  {
    [w % 0x100, w / 0x100]
  }

  function WordAt(buf: seq<Byte>, offset: nat): Word16
    requires offset + 1 < |buf|
  {
    (buf[offset] as int) + 0x100 * (buf[offset + 1] as int)
  }

  function HeadBytes(h: Head): (r: seq<Byte>)
    ensures |r| == HEAD_LEN
  {
    Le(h.head) + Le(h.action) + Le(h.len) + Le(h.checksum)
  }

  function HeadOf(buf: seq<Byte>): Head
    requires HEAD_LEN <= |buf|
  {
    Head(WordAt(buf, 0), WordAt(buf, 2), WordAt(buf, 4), WordAt(buf, 6))
  }

  function Zeros(n: nat): (r: seq<Byte>)
    ensures |r| == n && forall i :: 0 <= i < n ==> r[i] == 0
  {
    seq(n, _ => 0)
  }

  /** The payload area: padded with zeros, or cut off as Go's `copy` does. */
  function Fit(p: seq<Byte>): (r: seq<Byte>)
    ensures |r| == ROOM
  {
    if |p| <= ROOM then p + Zeros(ROOM - |p|) else p[..ROOM]
  }

  function Frame(h: Head, p: seq<Byte>): Buffer {
    HeadBytes(h) + Fit(p)
  }

  function Encode(signed: bool, action: Word16, p: seq<Byte>): Buffer {
    Frame(Head(INFO_HEAD, action, Word(|p|), Of(signed, p)), p)
  }

  lemma LeRoundTrip(w: Word16)
    ensures (Le(w)[0] as int) + 0x100 * (Le(w)[1] as int) == w
  {
  }

  lemma HeadRoundTrip(h: Head, rest: seq<Byte>)
    ensures HeadOf(HeadBytes(h) + rest) == h
  {
    var b := HeadBytes(h) + rest;
    LeRoundTrip(h.head); LeRoundTrip(h.action); LeRoundTrip(h.len); LeRoundTrip(h.checksum);
    assert b[0..2] == Le(h.head) && b[2..4] == Le(h.action) && b[4..6] == Le(h.len) && b[6..8] == Le(h.checksum);
    assert b[0] == b[0..2][0] && b[1] == b[0..2][1] && b[2] == b[2..4][0] && b[3] == b[2..4][1];
    assert b[4] == b[4..6][0] && b[5] == b[4..6][1] && b[6] == b[6..8][0] && b[7] == b[6..8][1];
  }

  lemma EncodeParts(signed: bool, action: Word16, p: seq<Byte>)
    ensures HeadOf(Encode(signed, action, p)) == Head(INFO_HEAD, action, Word(|p|), Of(signed, p))
    ensures Encode(signed, action, p)[HEAD_LEN..] == Fit(p)
    ensures |p| <= ROOM ==> Word(|p|) == |p| && Encode(signed, action, p)[HEAD_LEN..HEAD_LEN + |p|] == p
  {
    var h := Head(INFO_HEAD, action, Word(|p|), Of(signed, p));
    HeadRoundTrip(h, Fit(p));
    if |p| <= ROOM {
      assert Fit(p)[..|p|] == p;
      assert Encode(signed, action, p)[HEAD_LEN..HEAD_LEN + |p|] == Fit(p)[..|p|];
    }
  }

  /** An encoded frame byte by byte: magic number, action, length, checksum, the payload and zeros. */
  lemma WireFormat(signed: bool, action: Word16, p: seq<Byte>)
    ensures var f, len, sum := Encode(signed, action, p), Word(|p|), Of(signed, p);
            && f[0] == 0xEE && f[1] == 0xFF
            && f[2] == action % 0x100 && f[3] == action / 0x100
            && f[4] == len % 0x100 && f[5] == len / 0x100
            && f[6] == sum % 0x100 && f[7] == sum / 0x100
            && forall i :: 0 <= i < 1016 ==> f[8 + i] == if i < |p| then p[i] else 0
  {
  }

  // ---------- C ----------

  datatype CAction = Action(code: Word16) | Rejected | OutOfBounds

  /** `decode_action`: it looks neither at the magic number nor at the bound of the buffer. */
  function CDecode(buf: Buffer): CAction {
    var h := HeadOf(buf);
    if h.len > ROOM then OutOfBounds
    else if Of(false, buf[HEAD_LEN..HEAD_LEN + h.len]) == h.checksum then Action(h.action)
    else Rejected
  }

  function UpToNul(s: seq<Byte>): (r: seq<Byte>)
    ensures r <= s && 0 !in r
    ensures |r| < |s| ==> s[|r|] == 0
  {
    if s == [] || s[0] == 0 then [] else [s[0]] + UpToNul(s[1..])
  }

  /** The payload as a C string, if it ends inside the buffer. */
  function CText(buf: Buffer): Option<seq<Byte>> {
    var text := UpToNul(buf[HEAD_LEN..]);
    if |text| < ROOM then Some(text) else None
  }

  // ---------- Go ----------

  datatype GoHead = Accepted(action: Word16) | NilHead | Panic

  /** `CheckAndGetServiceInfoHead`: slicing past the capacity of the buffer panics. */
  function GoCheck(buf: Buffer): GoHead {
    var h := HeadOf(buf);
    if h.head != INFO_HEAD then NilHead
    else if h.len > ROOM then Panic
    else if Of(false, buf[HEAD_LEN..HEAD_LEN + h.len]) == h.checksum then Accepted(h.action)
    else NilHead
  }

  /** `getJson`: everything up to and including the last closing brace. */
  function GoJson(data: seq<Byte>): (r: seq<Byte>)
    ensures r <= data && (r == [] || r[|r| - 1] == BRACE)
    ensures forall i :: |r| <= i < |data| ==> data[i] != BRACE
  {
    if data == [] || data[|data| - 1] == BRACE then data else GoJson(data[..|data| - 1])
  }

  function GoText(buf: Buffer): seq<Byte> {
    GoJson(buf[HEAD_LEN..])
  }

  // ---------- Java ----------

  datatype JavaAction = Code(code: int) | Exception

  const JAVA_INVALID := -1

  /** `decodeAction`: the header fields are signed shorts, and a negative length sums no bytes. */
  function JavaDecode(buf: Buffer): JavaAction {
    var h := HeadOf(buf);
    var len := ToShort(h.len);
    if len > ROOM then Exception
    else if (if len < 0 then 0 else ToShort(SignedSum(buf[HEAD_LEN..HEAD_LEN + len]))) == ToShort(h.checksum)
    then Code(ToShort(h.action))
    else Code(JAVA_INVALID)
  }

  function JavaText(buf: Buffer): Option<seq<Byte>> {
    var len := ToShort(HeadOf(buf).len);
    if 0 <= len <= ROOM then Some(buf[HEAD_LEN..HEAD_LEN + len]) else None
  }

  // ---------- who accepts whose frames ----------

  lemma ShortsDistinguishWords(x: int, w: Word16)
    ensures ToShort(x) == ToShort(w) <==> Word(x) == w
  {
  }

  /** What the decoders see of a frame whose payload fits. */
  ghost predicate Carries(f: Buffer, signed: bool, action: Word16, p: seq<Byte>) {
    && |p| <= ROOM
    && HeadOf(f) == Head(INFO_HEAD, action, |p|, Of(signed, p))
    && f[HEAD_LEN..HEAD_LEN + |p|] == p
  }

  lemma UnsignedAcceptance(f: Buffer, signed: bool, action: Word16, p: seq<Byte>)
    requires Carries(f, signed, action, p)
    ensures var ok := !signed || High(p) % 0x100 == 0;
            && CDecode(f) == (if ok then Action(action) else Rejected)
            && GoCheck(f) == (if ok then Accepted(action) else NilHead)
  {
    SignednessMatters(p);
  }

  lemma SignedAcceptance(f: Buffer, signed: bool, action: Word16, p: seq<Byte>)
    requires Carries(f, signed, action, p)
    ensures JavaDecode(f) == Code(if signed || High(p) % 0x100 == 0 then ToShort(action) else JAVA_INVALID)
  {
    SignednessMatters(p);
    SmallShort(|p|);
    ShortsDistinguishWords(SignedSum(p), Of(signed, p));
  }

  /**
   A frame written with the unsigned checksum is accepted by C and Go, and by Java exactly when its number of
   non-ASCII bytes is a multiple of 256; with the signed checksum it is the other way round. In particular a
   C client on a platform with signed `char` is then rejected by the C daemon.
   */
  lemma Acceptance(signed: bool, action: Word16, p: seq<Byte>)
    requires |p| <= ROOM
    ensures var ok := High(p) % 0x100 == 0;
            var f := Encode(signed, action, p);
            && CDecode(f) == (if !signed || ok then Action(action) else Rejected)
            && GoCheck(f) == (if !signed || ok then Accepted(action) else NilHead)
            && JavaDecode(f) == Code(if signed || ok then ToShort(action) else JAVA_INVALID)
  {
    EncodeParts(signed, action, p);
    UnsignedAcceptance(Encode(signed, action, p), signed, action, p);
    SignedAcceptance(Encode(signed, action, p), signed, action, p);
  }

  /** One to 255 non-ASCII bytes are enough: a C client with signed `char` is then rejected by C and Go daemons. */
  lemma SignedClientRejected(f: Buffer, action: Word16, p: seq<Byte>)
    requires Carries(f, true, action, p) && 1 <= High(p) < 0x100
    ensures CDecode(f) == Rejected && GoCheck(f) == NilHead
  {
    UnsignedAcceptance(f, true, action, p);
  }

  /** For instance the three bytes `{`, 0xE9, `}`. */
  lemma SignedClientRejectedExample(action: Word16)
    ensures CDecode(Encode(true, action, [123, 0xE9, 125])) == Rejected
  {
    var p: seq<Byte> := [123, 0xE9, 125];
    assert p[..2] == [123, 0xE9] && p[..2][..1] == [123] && p[..2][..1][..0] == [];
    assert High([123]) == 0 && High([123, 0xE9]) == 1;
    EncodeParts(true, action, p);
    SignedClientRejected(Encode(true, action, p), action, p);
  }

  lemma OverlongHeader(f: Buffer)
    requires HeadOf(f).head == INFO_HEAD
    ensures GoCheck(f) == Panic <==> HeadOf(f).len > ROOM
    ensures CDecode(f) == OutOfBounds <==> HeadOf(f).len > ROOM
    ensures JavaText(f).None? <==> HeadOf(f).len > ROOM
  {
  }

  /** A payload that does not fit is cut off by the Go encoder; the Go decoder panics on the frame, C reads on. */
  lemma OversizePanics(p: seq<Byte>, action: Word16)
    requires |p| < WORDS
    ensures GoCheck(Encode(false, action, p)) == Panic <==> |p| > ROOM
    ensures CDecode(Encode(false, action, p)) == OutOfBounds <==> |p| > ROOM
    ensures JavaText(Encode(false, action, p)).None? <==> |p| > ROOM
  {
    EncodeParts(false, action, p);
    OverlongHeader(Encode(false, action, p));
  }

  /**
   How the three judge one and the same buffer, whatever is in it. Go accepts what C accepts, but only under the magic
   number, and panics where C reads out of bounds. Java throws on a length between the buffer and 0x8000; from 0x8000
   on it takes the length for negative, sums nothing, and finds no text.
   */
  lemma DecodersRelated(f: Buffer, a: Word16)
    ensures var h := HeadOf(f);
            && (CDecode(f) == OutOfBounds <==> h.len > ROOM)
            && (GoCheck(f) == Panic <==> h.head == INFO_HEAD && CDecode(f) == OutOfBounds)
            && (GoCheck(f) == Accepted(a) <==> h.head == INFO_HEAD && CDecode(f) == Action(a))
            && (JavaDecode(f) == Exception <==> ROOM < h.len < 0x8000)
            && (h.len >= 0x8000 ==> JavaDecode(f) == Code(if h.checksum == 0 then ToShort(h.action) else JAVA_INVALID))
            && (JavaText(f).None? <==> h.len > ROOM)
  {
  }

  /** The checksum is what decides in C, and in Java, on every buffer whose length stays inside it. */
  lemma ChecksumDecides(f: Buffer)
    requires HeadOf(f).len <= ROOM
    ensures var h := HeadOf(f);
            var p := f[HEAD_LEN..HEAD_LEN + h.len];
            && CDecode(f) == (if Of(false, p) == h.checksum then Action(h.action) else Rejected)
            && JavaDecode(f) == Code(if Of(true, p) == h.checksum then ToShort(h.action) else JAVA_INVALID)
            && JavaText(f) == Some(p)
  {
    var h := HeadOf(f);
    SmallShort(h.len);
    ShortsDistinguishWords(SignedSum(f[HEAD_LEN..HEAD_LEN + h.len]), h.checksum);
  }

  /** Only Go looks at the magic number: to C and Java, two buffers that differ in nothing else are the same. */
  lemma MagicOnlyInGo(f: Buffer, g: Buffer)
    requires f[2..] == g[2..]
    ensures CDecode(f) == CDecode(g) && CText(f) == CText(g)
    ensures JavaDecode(f) == JavaDecode(g) && JavaText(f) == JavaText(g)
    ensures HeadOf(f).head != INFO_HEAD ==> GoCheck(f) == NilHead
  {
    assert forall i :: 2 <= i < BUF_LEN ==> f[i] == f[2..][i - 2] && g[i] == g[2..][i - 2];
    var h := HeadOf(f);
    assert h.(head := HeadOf(g).head) == HeadOf(g);
    assert f[HEAD_LEN..] == g[HEAD_LEN..];
    if h.len <= ROOM {
      assert f[HEAD_LEN..HEAD_LEN + h.len] == g[HEAD_LEN..HEAD_LEN + h.len];
    }
  }

  // ---------- three ways to find the end of the payload ----------

  lemma {:induction false} UpToNulOfPadded(p: seq<Byte>, n: nat)
    ensures UpToNul(p + Zeros(n)) == UpToNul(p)
  {
    var s := p + Zeros(n);
    if p == [] {
      assert n > 0 ==> s[0] == 0;
    } else {
      assert s[0] == p[0] && s[1..] == p[1..] + Zeros(n);
      UpToNulOfPadded(p[1..], n);
    }
  }

  lemma {:induction false} UpToNulWhole(p: seq<Byte>)
    ensures UpToNul(p) == p <==> 0 !in p
  {
    if p == [] {
    } else {
      UpToNulWhole(p[1..]);
    }
  }

  lemma {:induction false} GoJsonOfPadded(p: seq<Byte>, n: nat)
    ensures GoJson(p + Zeros(n)) == GoJson(p)
  {
    if n == 0 {
      assert p + Zeros(0) == p;
    } else {
      var s := p + Zeros(n);
      assert s[|s| - 1] == 0 && s[..|s| - 1] == p + Zeros(n - 1);
      GoJsonOfPadded(p, n - 1);
    }
  }

  lemma GoJsonWhole(p: seq<Byte>)
    ensures GoJson(p) == p <==> p == [] || p[|p| - 1] == BRACE
  {
  }

  lemma CTextRecovered(signed: bool, action: Word16, p: seq<Byte>)
    requires |p| <= ROOM
    ensures CText(Encode(signed, action, p)) == Some(p) <==> 0 !in p && |p| < ROOM
    ensures CText(Encode(signed, action, p)).None? <==> 0 !in p && |p| == ROOM
  {
    EncodeParts(signed, action, p);
    UpToNulOfPadded(p, ROOM - |p|);
    UpToNulWhole(p);
  }

  lemma GoTextRecovered(signed: bool, action: Word16, p: seq<Byte>)
    requires |p| <= ROOM
    ensures GoText(Encode(signed, action, p)) == p <==> p == [] || p[|p| - 1] == BRACE
  {
    EncodeParts(signed, action, p);
    GoJsonOfPadded(p, ROOM - |p|);
    GoJsonWhole(p);
  }

  lemma JavaTextRecovered(signed: bool, action: Word16, p: seq<Byte>)
    requires |p| <= ROOM
    ensures JavaText(Encode(signed, action, p)) == Some(p)
  {
    EncodeParts(signed, action, p);
  }

  /** Each way of finding the end returns the payload exactly under its own condition. */
  lemma TextRecovered(signed: bool, action: Word16, p: seq<Byte>)
    requires |p| <= ROOM
    ensures var f := Encode(signed, action, p);
            && (CText(f) == Some(p) <==> 0 !in p && |p| < ROOM)
            && (GoText(f) == p <==> p == [] || p[|p| - 1] == BRACE)
            && JavaText(f) == Some(p)
  {
    CTextRecovered(signed, action, p);
    GoTextRecovered(signed, action, p);
    JavaTextRecovered(signed, action, p);
  }

  /** Payloads every implementation can carry to every other. */
  ghost predicate Portable(p: seq<Byte>) {
    0 < |p| < ROOM && p[|p| - 1] == BRACE && 0 !in p && High(p) % 0x100 == 0
  }

  /** Whoever writes a portable payload, whoever reads it gets the same action and the same bytes. */
  lemma RoundTrip(signed: bool, action: Word16, p: seq<Byte>)
    requires Portable(p)
    ensures var f := Encode(signed, action, p);
            && CDecode(f) == Action(action) && CText(f) == Some(p)
            && GoCheck(f) == Accepted(action) && GoText(f) == p
            && JavaDecode(f) == Code(ToShort(action)) && JavaText(f) == Some(p)
  {
    Acceptance(signed, action, p);
    TextRecovered(signed, action, p);
  }

  // ---------- corruption ----------

  /** Same header; among the summed payload bytes only raises, or only falls, and at most 257 of them. */
  ghost predicate OneSidedChange(f: Buffer, g: Buffer, n: nat)
    requires n <= ROOM
  {
    var p, q := f[HEAD_LEN..HEAD_LEN + n], g[HEAD_LEN..HEAD_LEN + n];
    (Raised(p, q) && 1 <= Differences(p, q) <= 257) || (Raised(q, p) && 1 <= Differences(q, p) <= 257)
  }

  /** An accepted frame whose payload suffers such a change is rejected by C and Go. */
  lemma CorruptionRejected(f: Buffer, g: Buffer)
    requires CDecode(f).Action? && HeadOf(g) == HeadOf(f)
    requires OneSidedChange(f, g, HeadOf(f).len)
    ensures CDecode(g) == Rejected && GoCheck(g) == NilHead
  {
    var n := HeadOf(f).len;
    var p, q := f[HEAD_LEN..HEAD_LEN + n], g[HEAD_LEN..HEAD_LEN + n];
    if Raised(p, q) && 1 <= Differences(p, q) <= 257 {
      RaisingDetected(p, q);
    } else {
      RaisingDetected(q, p);
    }
  }

  /** Java rejects such a change when it goes one way in the order of signed bytes. */
  lemma CorruptionRejectedByJava(f: Buffer, g: Buffer)
    requires 0 <= HeadOf(f).len <= ROOM && HeadOf(g) == HeadOf(f)
    requires JavaDecode(f) != Code(JAVA_INVALID)
    requires var n := HeadOf(f).len;
             var p, q := f[HEAD_LEN..HEAD_LEN + n], g[HEAD_LEN..HEAD_LEN + n];
             (SignedRaised(p, q) && 1 <= Differences(p, q) <= 257)
             || (SignedRaised(q, p) && 1 <= Differences(q, p) <= 257)
    ensures JavaDecode(g) == Code(JAVA_INVALID)
  {
    var n := HeadOf(f).len;
    var p, q := f[HEAD_LEN..HEAD_LEN + n], g[HEAD_LEN..HEAD_LEN + n];
    SmallShort(n);
    ShortsDistinguishWords(SignedSum(p), HeadOf(f).checksum);
    ShortsDistinguishWords(SignedSum(q), HeadOf(f).checksum);
    if SignedRaised(p, q) && 1 <= Differences(p, q) <= 257 {
      SignedRaisingDetected(p, q);
    } else {
      SignedRaisingDetected(q, p);
    }
  }

  /** A raise in the unsigned order, which C and Go reject, is accepted by Java exactly when its sum misses it. */
  lemma JavaMissesIff(f: Buffer, g: Buffer)
    requires HeadOf(f).len <= ROOM && HeadOf(g) == HeadOf(f) && JavaDecode(f) != Code(JAVA_INVALID)
    requires var n := HeadOf(f).len;
             var p, q := f[HEAD_LEN..HEAD_LEN + n], g[HEAD_LEN..HEAD_LEN + n];
             Raised(p, q) && 1 <= Differences(p, q) <= 257
    ensures var n := HeadOf(f).len;
            var p, q := f[HEAD_LEN..HEAD_LEN + n], g[HEAD_LEN..HEAD_LEN + n];
            JavaDecode(g) == JavaDecode(f) <==> Sum(q) - Sum(p) == 0x100 * (High(q) - High(p))
  {
    var n := HeadOf(f).len;
    var p, q := f[HEAD_LEN..HEAD_LEN + n], g[HEAD_LEN..HEAD_LEN + n];
    SmallShort(n);
    ShortsDistinguishWords(SignedSum(p), HeadOf(f).checksum);
    ShortsDistinguishWords(SignedSum(q), HeadOf(f).checksum);
    SignedMissesIff(p, q);
  }

  /** Reordering the summed bytes under the same header is accepted by everyone who accepted the original. */
  lemma ReorderingAccepted(f: Buffer, g: Buffer)
    requires HeadOf(g) == HeadOf(f) && HeadOf(f).len <= ROOM
    requires multiset(f[HEAD_LEN..HEAD_LEN + HeadOf(f).len]) == multiset(g[HEAD_LEN..HEAD_LEN + HeadOf(f).len])
    ensures CDecode(g) == CDecode(f) && GoCheck(g) == GoCheck(f) && JavaDecode(g) == JavaDecode(f)
  {
    var n := HeadOf(f).len;
    assert ToShort(n) == n;
    PermutationUnnoticed(f[HEAD_LEN..HEAD_LEN + n], g[HEAD_LEN..HEAD_LEN + n]);
  }

  // ---------- the decoders and the encoder as they run on buffers ----------

  /** `checksum_right` and `decode_action`. */
  method DecodeAction(buf: array<Byte>) returns (action: CAction)
    requires buf.Length == BUF_LEN && HeadOf(buf[..]).len <= ROOM
    ensures action == CDecode(buf[..])
  {
    var h := HeadOf(buf[..]);
    var sum := SumBytes(buf, HEAD_LEN, h.len);
    assert buf[..][HEAD_LEN..HEAD_LEN + h.len] == buf[HEAD_LEN..HEAD_LEN + h.len];
    action := if sum == h.checksum then Action(h.action) else Rejected;
  }

  /** The scan of `getJson`; the clamp to the buffer length never matters on a received frame. */
  method GetJson(data: seq<Byte>) returns (json: seq<Byte>)
    requires |data| <= BUF_LEN
    ensures json == GoJson(data)
  {
    var end := 0;
    for i := 0 to |data|
      invariant 0 <= end <= i
      invariant data[..end] == GoJson(data[..i])
    {
      assert data[..i + 1][..i] == data[..i];
      if data[i] == BRACE {
        end := i + 1;
      }
    }
    if end > BUF_LEN {
      end := BUF_LEN;
    }
    assert data[..|data|] == data;
    json := data[..end];
  }

  /** `get_pkt` and a packet builder: header and payload written into a zeroed buffer. */
  method BuildPkt(signed: bool, action: Word16, p: seq<Byte>) returns (data: array<Byte>)
    requires |p| <= ROOM
    ensures fresh(data) && data[..] == Encode(signed, action, p)
  {
    data := new Byte[BUF_LEN](_ => 0);
    var checksum := GetChecksum(signed, p, |p|);
    assert p[..|p|] == p;
    var head := HeadBytes(Head(INFO_HEAD, action, Word(|p|), checksum));
    for i := 0 to HEAD_LEN
      invariant data[..i] == head[..i]
      invariant forall j :: i <= j < BUF_LEN ==> data[j] == 0
    {
      data[i] := head[i];
    }
    for i := 0 to |p|
      invariant data[..HEAD_LEN + i] == head + p[..i]
      invariant forall j :: HEAD_LEN + i <= j < BUF_LEN ==> data[j] == 0
    {
      data[HEAD_LEN + i] := p[i];
    }
    assert data[HEAD_LEN + |p|..] == Zeros(ROOM - |p|);
    assert data[..] == data[..HEAD_LEN + |p|] + data[HEAD_LEN + |p|..];
  }
}
