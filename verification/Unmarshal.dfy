/** Go's service text can be read back: escaping keeps the quotation marks that end the values apart from the rest. */
module Unmarshal {
  import opened Types
  import opened Marshal

  const QUOTE: Byte := 34
  const BACKSLASH: Byte := 92

  /** Inside a JSON string, behind a backslash in it, or past the quotation mark that ends it. */
  datatype Scan = Open | Behind | Closed

  function Next(st: Scan, b: Byte): Scan {
    match st
    case Open => if b == QUOTE then Closed else if b == BACKSLASH then Behind else Open
    case Behind => Open
    case Closed => Closed
  }

  function Over(st: Scan, s: seq<Byte>): Scan
    decreases |s|
  {
    if s == [] then st else Over(Next(st, s[0]), s[1..])
  }

  /** An escape sequence never ends the string, and is complete. */
  ghost predicate Escapes(esc: Byte -> seq<Byte>) {
    forall b: Byte :: Over(Open, esc(b)) == Open
  }

  lemma {:induction false} OverConcat(st: Scan, a: seq<Byte>, b: seq<Byte>)
    ensures Over(st, a + b) == Over(Over(st, a), b)
    decreases |a|
  {
    if a == [] {
      assert a + b == b;
    } else {
      assert (a + b)[1..] == a[1..] + b;
      OverConcat(Next(st, a[0]), a[1..], b);
    }
  }

  lemma {:induction false} EscapedOpen(s: Text, esc: Byte -> seq<Byte>)
    requires Escapes(esc)
    ensures Over(Open, Escaped(s, esc)) == Open
  {
    if s == [] {
    } else {
      EscapedOpen(s[..|s| - 1], esc);
      OverConcat(Open, Escaped(s[..|s| - 1], esc), esc(s[|s| - 1]));
    }
  }

  lemma ClosedStays(s: seq<Byte>)
    ensures Over(Closed, s) == Closed
  {
  }

  /** The value: everything up to the quotation mark that ends it. */
  function UpToQuote(st: Scan, s: seq<Byte>): (r: seq<Byte>)
    ensures r <= s
    decreases |s|
  {
    if s == [] || Next(st, s[0]) == Closed then [] else [s[0]] + UpToQuote(Next(st, s[0]), s[1..])
  }

  lemma {:induction false} ValueEnds(st: Scan, v: seq<Byte>, rest: seq<Byte>)
    requires Over(st, v) == Open && rest != [] && rest[0] == QUOTE
    ensures UpToQuote(st, v + rest) == v
    decreases |v|
  {
    if v == [] {
      assert v + rest == rest;
    } else {
      ClosedStays(v[1..]);
      assert (v + rest)[1..] == v[1..] + rest;
      ValueEnds(Next(st, v[0]), v[1..], rest);
    }
  }

  // ---------- numbers ----------

  predicate Digit(b: Byte) {
    48 <= b < 58
  }

  function Digits(s: seq<Byte>): (r: seq<Byte>)
    ensures r <= s && forall i :: 0 <= i < |r| ==> Digit(r[i])
  {
    if s == [] || !Digit(s[0]) then [] else [s[0]] + Digits(s[1..])
  }

  function Numeral(s: seq<Byte>): int {
    if s == [] then 0 else 10 * Numeral(s[..|s| - 1]) + s[|s| - 1] - 48
  }

  lemma {:induction false} DigitsEnd(d: seq<Byte>, rest: seq<Byte>)
    requires forall i :: 0 <= i < |d| ==> Digit(d[i])
    requires rest != [] && !Digit(rest[0])
    ensures Digits(d + rest) == d
  {
    if d == [] {
      assert d + rest == rest;
    } else {
      assert (d + rest)[1..] == d[1..] + rest;
      DigitsEnd(d[1..], rest);
    }
  }

  /** The decimal text of a number has digits only, and has its value. */
  lemma {:induction false} DecimalValue(n: nat)
    ensures forall i :: 0 <= i < |Decimal(n)| ==> Digit(Decimal(n)[i])
    ensures Numeral(Decimal(n)) == n
  {
    if n < 10 {
      assert [48 + n][..0] == [];
    } else {
      var d, last := Decimal(n / 10), 48 + n % 10;
      DecimalValue(n / 10);
      assert (d + [last])[..|d|] == d;
    }
  }

  // ---------- the text of a service ----------

  datatype Read = Read(value: seq<Byte>, rest: seq<Byte>) | Bad

  function ReadString(name: seq<Byte>, text: seq<Byte>): Read {
    if name <= text then
      var v := UpToQuote(Open, text[|name|..]);
      Read(v, text[|name| + |v|..])
    else Bad
  }

  function ReadNumber(name: seq<Byte>, text: seq<Byte>): Read {
    if name <= text then
      var d := Digits(text[|name|..]);
      Read(d, text[|name| + |d|..])
    else Bad
  }

  /** The values as they stand in the text, still escaped. */
  datatype Values = Values(device: seq<Byte>, service: seq<Byte>, ip: seq<Byte>, port: int, info: seq<Byte>)

  function ReadInfo(v: Values, text: seq<Byte>): Option<Values> {
    match ReadString(INFO_KEY, text)
    case Bad => None
    case Read(info, rest) => if rest == END then Some(v.(info := info)) else None
  }

  function ReadPort(v: Values, text: seq<Byte>): Option<Values> {
    match ReadNumber(PORT_KEY, text)
    case Bad => None
    case Read(digits, rest) => ReadInfo(v.(port := Numeral(digits)), rest)
  }

  function ReadIp(v: Values, text: seq<Byte>): Option<Values> {
    match ReadString(IP_KEY, text)
    case Bad => None
    case Read(ip, rest) => ReadPort(v.(ip := ip), rest)
  }

  function ReadName(v: Values, text: seq<Byte>): Option<Values> {
    match ReadString(SERVICE_KEY, text)
    case Bad => None
    case Read(service, rest) => ReadIp(v.(service := service), rest)
  }

  /** Reads the five fields under their names. */
  function ReadService(text: seq<Byte>): Option<Values> {
    match ReadString(DEVICE_KEY, text)
    case Bad => None
    case Read(device, rest) => ReadName(Values(device, [], [], 0, []), rest)
  }

  lemma StringRead(name: seq<Byte>, value: Text, esc: Byte -> seq<Byte>, rest: seq<Byte>)
    requires Escapes(esc) && rest != [] && rest[0] == QUOTE
    ensures ReadString(name, name + Escaped(value, esc) + rest) == Read(Escaped(value, esc), rest)
  {
    var v := Escaped(value, esc);
    var text := name + v + rest;
    assert text[|name|..] == v + rest;
    EscapedOpen(value, esc);
    ValueEnds(Open, v, rest);
    assert text[|name| + |v|..] == rest;
  }

  lemma NumberRead(name: seq<Byte>, n: nat, rest: seq<Byte>)
    requires rest != [] && !Digit(rest[0])
    ensures ReadNumber(name, name + Decimal(n) + rest) == Read(Decimal(n), rest)
  {
    var text := name + Decimal(n) + rest;
    assert text[|name|..] == Decimal(n) + rest;
    DecimalValue(n);
    DigitsEnd(Decimal(n), rest);
    assert text[|name| + |Decimal(n)|..] == rest;
  }

  /** In every text a value is followed by a byte that ends it. */
  lemma Follows(i: ServiceInfo, esc: Byte -> seq<Byte>)
    ensures END != [] && END[0] == QUOTE
    ensures InfoText(i, esc) != [] && !Digit(InfoText(i, esc)[0])
    ensures PortText(i, esc) != [] && PortText(i, esc)[0] == QUOTE
    ensures IpText(i, esc) != [] && IpText(i, esc)[0] == QUOTE
    ensures ServiceText(i, esc) != [] && ServiceText(i, esc)[0] == QUOTE
  {
  }

  lemma PortRead(v: Values, i: ServiceInfo, esc: Byte -> seq<Byte>)
    requires Escapes(esc)
    ensures ReadPort(v, PortText(i, esc)) == Some(v.(port := i.port, info := Escaped(i.info, esc)))
  {
    Follows(i, esc);
    NumberRead(PORT_KEY, i.port, InfoText(i, esc));
    DecimalValue(i.port);
    StringRead(INFO_KEY, i.info, esc, END);
  }

  /** Whatever is in the strings, each value is found under its own name, and the port is the number. */
  lemma ReadsBack(i: ServiceInfo, esc: Byte -> seq<Byte>)
    requires Escapes(esc)
    ensures ReadService(GoMarshal(i, esc))
         == Some(Values(Escaped(i.device, esc), Escaped(i.service, esc), Escaped(i.ip, esc), i.port,
                        Escaped(i.info, esc)))
  {
    Follows(i, esc);
    StringRead(DEVICE_KEY, i.device, esc, ServiceText(i, esc));
    StringRead(SERVICE_KEY, i.service, esc, IpText(i, esc));
    StringRead(IP_KEY, i.ip, esc, PortText(i, esc));
    PortRead(Values(Escaped(i.device, esc), Escaped(i.service, esc), Escaped(i.ip, esc), 0, []), i, esc);
  }

  /** Such as a backslash before each quotation mark and each backslash. */
  function Sample(b: Byte): seq<Byte> {
    if b == QUOTE || b == BACKSLASH then [BACKSLASH, b] else [b]
  }

  lemma SampleEscapes()
    ensures Escapes(Sample)
  {
    forall b: Byte ensures Over(Open, Sample(b)) == Open {
      assert [b][1..] == [];
      if b == QUOTE || b == BACKSLASH {
        assert Sample(b)[1..] == [b] && Over(Behind, [b]) == Open;
      }
    }
  }
}
