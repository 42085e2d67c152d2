/**
 The Java header class, with its shifts, masks and sign extensions written out on bit-vectors:
 a Java byte is a `bv8`, a short a `bv16`, and every operator first widens its operands to an int (`bv32`).
 */
module JavaHead {
  import opened Types
  import Codec
  import Checksum

  function WidenByte(b: bv8): bv32 {
    if b & 0x80 != 0 then 0xFFFF_FF00 | (b as bv32) else b as bv32
  }

  function WidenShort(s: bv16): bv32 {
    if s & 0x8000 != 0 then 0xFFFF_0000 | (s as bv32) else s as bv32
  }

  /** Arithmetic shift right by eight. */
  function ShiftRight8(x: bv32): bv32 {
    if x & 0x8000_0000 != 0 then 0xFF00_0000 | (x >> 8) else x >> 8
  }

  function NarrowToShort(x: bv32): bv16 {
    (x & 0xFFFF) as bv16
  }

  function NarrowToByte(x: bv32): bv8 {
    (x & 0xFF) as bv8
  }

  /** `getShort`: high byte shifted up (sign and all), low byte masked. */
  function GetShort(low: bv8, high: bv8): bv16 {
    NarrowToShort((WidenByte(high) << 8) | (WidenByte(low) & 0xFF))
  }

  function LowByte(s: bv16): bv8 {
    NarrowToByte(WidenShort(s) & 0xFF)
  }

  function HighByte(s: bv16): bv8 {
    NarrowToByte(ShiftRight8(WidenShort(s)) & 0xFF)
  }

  function Unsigned(s: bv16): Word16 {
    s as int
  }

  datatype ProtocalHead = ProtocalHead(head: bv16, action: bv16, len: bv16, checksum: bv16) {
    function GetBytes(): (data: seq<bv8>)
      ensures |data| == Codec.HEAD_LEN
    {
      [LowByte(head), HighByte(head), LowByte(action), HighByte(action),
       LowByte(len), HighByte(len), LowByte(checksum), HighByte(checksum)]
    }

    /** The header as C and Go see it: four unsigned words. */
    function Words(): Codec.Head {
      Codec.Head(Unsigned(head), Unsigned(action), Unsigned(len), Unsigned(checksum))
    }
  }

  function FromBytes(data: seq<bv8>): ProtocalHead
    requires Codec.HEAD_LEN <= |data|
  {
    ProtocalHead(GetShort(data[0], data[1]), GetShort(data[2], data[3]),
                 GetShort(data[4], data[5]), GetShort(data[6], data[7]))
  }

  predicate Negative(s: bv16) {
    s & 0x8000 != 0
  }

  /** The value Java gives a short. */
  function Value(s: bv16): int {
    if Negative(s) then Unsigned(s) - 0x1_0000 else Unsigned(s)
  }

  function Bytes(data: seq<bv8>): (r: seq<Byte>)
    ensures |r| == |data|
    ensures forall i :: 0 <= i < |data| ==> r[i] == data[i] as int
  {
    seq(|data|, i requires 0 <= i < |data| => data[i] as int)
  }

  lemma GetShortIsConcat(low: bv8, high: bv8)
    ensures GetShort(low, high) == ((high as bv16) << 8) | (low as bv16)
  {
  }

  lemma LowByteIsMask(s: bv16)
    ensures LowByte(s) as bv16 == s & 0xFF
  {
  }

  lemma HighByteIsShift(s: bv16)
    ensures HighByte(s) as bv16 == s >> 8
  {
  }

  lemma ShortRoundTrip(s: bv16)
    ensures GetShort(LowByte(s), HighByte(s)) == s
  {
    GetShortIsConcat(LowByte(s), HighByte(s));
    LowByteIsMask(s);
    HighByteIsShift(s);
  }

  lemma ByteRoundTrip(low: bv8, high: bv8)
    ensures LowByte(GetShort(low, high)) == low && HighByte(GetShort(low, high)) == high
  {
  }

  /** Decoding inverts encoding for every header, negative fields included, whatever follows it. */
  lemma HeadRoundTrip(h: ProtocalHead, rest: seq<bv8>)
    ensures FromBytes(h.GetBytes() + rest) == h
  {
    ShortRoundTrip(h.head);
    ShortRoundTrip(h.action);
    ShortRoundTrip(h.len);
    ShortRoundTrip(h.checksum);
  }

  /** And encoding inverts decoding for every eight bytes. */
  lemma BytesRoundTrip(data: seq<bv8>)
    requires |data| == Codec.HEAD_LEN
    ensures FromBytes(data).GetBytes() == data
  {
    ByteRoundTrip(data[0], data[1]);
    ByteRoundTrip(data[2], data[3]);
    ByteRoundTrip(data[4], data[5]);
    ByteRoundTrip(data[6], data[7]);
  }

  lemma ConcatValue(low: bv16, high: bv16)
    requires low < 0x100 && high < 0x100
    ensures ((high << 8) | low) as int == (low as int) + 0x100 * (high as int)
  {
  }

  lemma WidenValue(b: bv8)
    ensures (b as bv16) as int == b as int && (b as bv16) < 0x100
  {
  }

  lemma ShortIsWord(low: bv8, high: bv8)
    ensures Unsigned(GetShort(low, high)) == (low as int) + 0x100 * (high as int)
  {
    GetShortIsConcat(low, high);
    WidenValue(low);
    WidenValue(high);
    ConcatValue(low as bv16, high as bv16);
  }

  lemma SignBit(s: bv16)
    ensures Negative(s) <==> 0x8000 <= Unsigned(s)
  {
  }

  lemma NarrowWord(w: Word16)
    ensures Checksum.ToShort(w) == if 0x8000 <= w then w - 0x1_0000 else w
  {
  }

  /** Java's reading of a short is the narrowing of the word the others read. */
  lemma ValueIsToShort(s: bv16)
    ensures Value(s) == Checksum.ToShort(Unsigned(s))
  {
    SignBit(s);
    NarrowWord(Unsigned(s));
  }

  /** On the same bytes, Java's four shorts are the C and Go header fields modulo 2^16. */
  lemma SameHeaderFields(data: seq<bv8>)
    requires Codec.HEAD_LEN <= |data|
    ensures FromBytes(data).Words() == Codec.HeadOf(Bytes(data))
  {
    ShortIsWord(data[0], data[1]);
    ShortIsWord(data[2], data[3]);
    ShortIsWord(data[4], data[5]);
    ShortIsWord(data[6], data[7]);
  }
}
