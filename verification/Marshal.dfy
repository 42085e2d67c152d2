/** How long the JSON text of a service gets in Go, and when its frame survives the fixed buffer. */
module Marshal {
  import opened Types
  import Checksum
  import Codec

  const INFO_MAX_LEN: nat := 100

  /** `getValidStr` */
  function Clip(s: Text): (r: Text)
    ensures |r| <= INFO_MAX_LEN && r <= s
    ensures |s| <= INFO_MAX_LEN ==> r == s
    ensures |s| > INFO_MAX_LEN ==> |r| == INFO_MAX_LEN
  {
    if |s| > INFO_MAX_LEN then s[..INFO_MAX_LEN] else s
  }

  function ClipInfo(i: ServiceInfo): (r: ServiceInfo)
    ensures |r.device| <= 100 && |r.service| <= 100 && |r.ip| <= 100 && |r.info| <= 100
    ensures r.device <= i.device && r.service <= i.service && r.ip <= i.ip && r.port == i.port && r.info <= i.info
  {
    ServiceInfo(Clip(i.device), Clip(i.service), Clip(i.ip), i.port, Clip(i.info))
  }

  /** Clipping twice is clipping once, and changes nothing exactly when every string is short enough. */
  lemma ClippedStays(i: ServiceInfo)
    ensures ClipInfo(ClipInfo(i)) == ClipInfo(i)
    ensures ClipInfo(i) == i <==> |i.device| <= 100 && |i.service| <= 100 && |i.ip| <= 100 && |i.info| <= 100
  {
  }

  /** Bytes of ASCII text other than NUL. */
  predicate Plain(s: seq<Byte>) {
    forall b :: b in s ==> 0 < b < 0x80
  }

  function Ascii(s: string): (r: seq<Byte>)
    requires forall i :: 0 <= i < |s| ==> 0 < s[i] as int < 0x80
    ensures |r| == |s| && Plain(r) && forall i :: 0 <= i < |s| ==> r[i] == s[i] as int
  {
    seq(|s|, i requires 0 <= i < |s| => s[i] as int)
  }

  function Decimal(n: nat): (r: seq<Byte>)
    ensures |r| >= 1 && Plain(r)
    ensures n < 10 ==> |r| == 1
    ensures n < 100 ==> |r| <= 2
    ensures n < 1000 ==> |r| <= 3
    ensures n < 10000 ==> |r| <= 4
    ensures n < 100000 ==> |r| <= 5
  {
    if n < 10 then [48 + n] else Decimal(n / 10) + [48 + n % 10]
  }

  /** A string with each byte replaced by its escape sequence. */
  function Escaped(s: Text, esc: Byte -> seq<Byte>): seq<Byte> {
    if s == [] then [] else Escaped(s[..|s| - 1], esc) + esc(s[|s| - 1])
  }

  // What stands before each value, the quotation mark behind the value before it included.
  const DEVICE_KEY: seq<Byte> := Ascii("{\"device_name\":\"")
  const SERVICE_KEY: seq<Byte> := Ascii("\",\"service_name\":\"")
  const IP_KEY: seq<Byte> := Ascii("\",\"ip\":\"")
  const PORT_KEY: seq<Byte> := Ascii("\",\"port\":")
  const INFO_KEY: seq<Byte> := Ascii(",\"info\":\"")
  const END: seq<Byte> := Ascii("\"}")

  /** What stands before a value, the value, and what follows it. */
  function Field(key: seq<Byte>, value: Text, esc: Byte -> seq<Byte>, rest: seq<Byte>): (r: seq<Byte>)
    ensures |r| == |key| + |Escaped(value, esc)| + |rest|
    ensures key != [] ==> r != [] && r[0] == key[0]
    ensures rest != [] ==> r != [] && r[|r| - 1] == rest[|rest| - 1]
    ensures Plain(key) && Plain(Escaped(value, esc)) && Plain(rest) ==> Plain(r)
  {
    key + Escaped(value, esc) + rest
  }

  function InfoText(i: ServiceInfo, esc: Byte -> seq<Byte>): seq<Byte> {
    Field(INFO_KEY, i.info, esc, END)
  }

  function PortText(i: ServiceInfo, esc: Byte -> seq<Byte>): seq<Byte> {
    PORT_KEY + Decimal(i.port) + InfoText(i, esc)
  }

  function IpText(i: ServiceInfo, esc: Byte -> seq<Byte>): seq<Byte> {
    Field(IP_KEY, i.ip, esc, PortText(i, esc))
  }

  function ServiceText(i: ServiceInfo, esc: Byte -> seq<Byte>): seq<Byte> {
    Field(SERVICE_KEY, i.service, esc, IpText(i, esc))
  }

  /** `json.Marshal` of a service. */
  function GoMarshal(i: ServiceInfo, esc: Byte -> seq<Byte>): (r: seq<Byte>)
    ensures |r| >= 2 && r[|r| - 1] == Codec.BRACE
  {
    Field(DEVICE_KEY, i.device, esc, ServiceText(i, esc))
  }

  /** `GetRegisterService` */
  function GoRegisterFrame(i: ServiceInfo, esc: Byte -> seq<Byte>): Codec.Buffer {
    Codec.Encode(false, Codec.REGISTER_SERVICE, GoMarshal(ClipInfo(i), esc))
  }

  lemma {:induction false} EscapedLength(s: Text, esc: Byte -> seq<Byte>, k: nat)
    requires forall b: Byte :: |esc(b)| <= k
    ensures |Escaped(s, esc)| <= k * |s|
  {
    if s == [] {
    } else {
      EscapedLength(s[..|s| - 1], esc, k);
      assert k * |s| == k * (|s| - 1) + k;
    }
  }

  lemma {:induction false} EscapedConstant(b: Byte, n: nat, esc: Byte -> seq<Byte>)
    ensures |Escaped(seq(n, _ => b), esc)| == n * |esc(b)|
  {
    if n == 0 {
    } else {
      assert seq(n, _ => b)[..n - 1] == seq(n - 1, _ => b);
      EscapedConstant(b, n - 1, esc);
      assert n * |esc(b)| == (n - 1) * |esc(b)| + |esc(b)|;
    }
  }

  lemma MarshalLength(i: ServiceInfo, esc: Byte -> seq<Byte>)
    ensures |GoMarshal(i, esc)| == 62 + |Decimal(i.port)| + |Escaped(i.device, esc)| + |Escaped(i.service, esc)|
                                      + |Escaped(i.ip, esc)| + |Escaped(i.info, esc)|
    ensures |Decimal(i.port)| <= 5
  {
  }

  lemma ClippedLength(s: Text, esc: Byte -> seq<Byte>, k: nat)
    requires forall b: Byte :: |esc(b)| <= k
    ensures |Escaped(Clip(s), esc)| <= 100 * k
  {
    EscapedLength(Clip(s), esc, k);
    assert k * |Clip(s)| <= k * 100;
  }

  lemma MarshalBound(i: ServiceInfo, esc: Byte -> seq<Byte>, k: nat)
    requires forall b: Byte :: |esc(b)| <= k
    ensures |GoMarshal(ClipInfo(i), esc)| <= 67 + 400 * k
  {
    var c := ClipInfo(i);
    MarshalLength(c, esc);
    ClippedLength(i.device, esc, k);
    ClippedLength(i.service, esc, k);
    ClippedLength(i.ip, esc, k);
    ClippedLength(i.info, esc, k);
  }

  /** With escapes of at most two bytes nothing is ever cut off and the length never wraps. */
  lemma ShortEscapesFit(i: ServiceInfo, esc: Byte -> seq<Byte>)
    requires forall b: Byte :: |esc(b)| <= 2
    ensures |GoMarshal(ClipInfo(i), esc)| <= 867
    ensures Codec.GoCheck(GoRegisterFrame(i, esc)) == Codec.Accepted(Codec.REGISTER_SERVICE)
    ensures Codec.GoText(GoRegisterFrame(i, esc)) == GoMarshal(ClipInfo(i), esc)
  {
    MarshalBound(i, esc, 2);
    Codec.Acceptance(false, Codec.REGISTER_SERVICE, GoMarshal(ClipInfo(i), esc));
    Codec.TextRecovered(false, Codec.REGISTER_SERVICE, GoMarshal(ClipInfo(i), esc));
  }

  /**
   Go escapes some bytes (`<`, `>`, `&`, control characters) to six. The register frame is then read back
   whole exactly when the text fits, and makes the Go daemon panic otherwise.
   */
  lemma FrameReadableIffFits(i: ServiceInfo, esc: Byte -> seq<Byte>)
    requires forall b: Byte :: |esc(b)| <= 6
    ensures var p, f := GoMarshal(ClipInfo(i), esc), GoRegisterFrame(i, esc);
            if |p| <= Codec.ROOM
            then Codec.GoCheck(f) == Codec.Accepted(Codec.REGISTER_SERVICE) && Codec.GoText(f) == p
            else Codec.GoCheck(f) == Codec.Panic
  {
    var p := GoMarshal(ClipInfo(i), esc);
    MarshalBound(i, esc, 6);
    Codec.OversizePanics(p, Codec.REGISTER_SERVICE);
    if |p| <= Codec.ROOM {
      Codec.Acceptance(false, Codec.REGISTER_SERVICE, p);
      Codec.TextRecovered(false, Codec.REGISTER_SERVICE, p);
    }
  }

  /** Two names of a hundred such bytes are enough. */
  lemma OverflowExample(esc: Byte -> seq<Byte>, b: Byte, port: Word16)
    requires |esc(b)| == 6
    ensures var name := seq(100, _ => b);
            Codec.GoCheck(GoRegisterFrame(ServiceInfo(name, name, [], port, []), esc)) == Codec.Panic
  {
    var name := seq(100, _ => b);
    var i := ServiceInfo(name, name, [], port, []);
    EscapedConstant(b, 100, esc);
    MarshalLength(i, esc);
    Codec.OversizePanics(GoMarshal(i, esc), Codec.REGISTER_SERVICE);
  }

  // ---------- the answer to an inquiry ----------

  /** `GetServiceData` as the daemon uses it: a stored service is marshalled again, and nothing is clipped. */
  function GoAnswerFrame(i: ServiceInfo, esc: Byte -> seq<Byte>): Codec.Buffer {
    Codec.Encode(false, Codec.ACTION_SUCC, GoMarshal(i, esc))
  }

  /**
   The answer about any stored service is read back whole exactly when its text fits. Otherwise the inquirer panics,
   unless the length wraps around to one that fits.
   */
  lemma AnswerReadableIffFits(i: ServiceInfo, esc: Byte -> seq<Byte>)
    ensures var p, f := GoMarshal(i, esc), GoAnswerFrame(i, esc);
            && (Codec.GoCheck(f) == Codec.Accepted(Codec.ACTION_SUCC) && Codec.GoText(f) == p <==> |p| <= Codec.ROOM)
            && (Codec.GoCheck(f) == Codec.Panic <==> Checksum.Word(|p|) > Codec.ROOM)
  {
    var p, f := GoMarshal(i, esc), GoAnswerFrame(i, esc);
    Codec.EncodeParts(false, Codec.ACTION_SUCC, p);
    Codec.OverlongHeader(f);
    if |p| <= Codec.ROOM {
      Codec.Acceptance(false, Codec.ACTION_SUCC, p);
      Codec.TextRecovered(false, Codec.ACTION_SUCC, p);
    } else {
      assert |Codec.GoText(f)| <= Codec.ROOM;
    }
  }

  lemma PlainMarshal(i: ServiceInfo, esc: Byte -> seq<Byte>)
    requires Plain(Escaped(i.device, esc)) && Plain(Escaped(i.service, esc))
    requires Plain(Escaped(i.ip, esc)) && Plain(Escaped(i.info, esc))
    ensures Plain(GoMarshal(i, esc))
  {
  }

  /** A JSON printer that escapes nothing leaves a byte as it is. */
  function Raw(b: Byte): (r: seq<Byte>)
    ensures r == [b]
  {
    [b]
  }

  lemma {:induction false} RawIsIdentity(s: Text)
    ensures Escaped(s, Raw) == s
  {
    if s == [] {
    } else {
      RawIsIdentity(s[..|s| - 1]);
      assert s == s[..|s| - 1] + [s[|s| - 1]];
    }
  }
}
