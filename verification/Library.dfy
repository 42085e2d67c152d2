/** The assumptions on the JSON library are consistent: a library that meets them, and what can be sent with it. */
module Library {
  import opened Types
  import opened Checksum
  import opened Codec
  import opened CDaemon

  const SEPARATOR: Byte := 17

  /** Two printable bytes for each byte, neither NUL nor the separator. */
  function Spell(s: Text): (r: Text)
    ensures |r| == 2 * |s| && forall x :: x in r ==> 0 < x < SEPARATOR
  {
    if s == [] then [] else [1 + s[0] / 16, 1 + s[0] % 16] + Spell(s[1..])
  }

  predicate Small(text: Text) {
    forall x :: x in text ==> 0 < x <= SEPARATOR
  }

  function Field(s: Text, rest: Text): (r: Text)
    ensures Small(rest) ==> Small(r)
  {
    Spell(s) + [SEPARATOR] + rest
  }

  function Render(b: Body): (r: Text)
    ensures Small(r)
  {
    match b
    case ServiceBody(i) =>
      [1] + Field(i.device, Field(i.service, Field(i.ip, Field(i.info, Spell([i.port / 0x100, i.port % 0x100])))))
    case ReasonBody(r) => [2] + Spell(r)
  }

  lemma {:induction false} SpellInjective(a: Text, b: Text)
    requires Spell(a) == Spell(b)
    ensures a == b
  {
    if a != [] && b != [] {
      var x, y := Spell(a), Spell(b);
      assert x[0] == y[0] && x[1] == y[1];
      assert x[2..] == Spell(a[1..]) && y[2..] == Spell(b[1..]);
      SpellInjective(a[1..], b[1..]);
    }
  }

  lemma SeparatorAt(s: Text, rest: Text)
    ensures var f, n := Field(s, rest), |Spell(s)|;
            f[n] == SEPARATOR && forall k :: 0 <= k < n ==> f[k] != SEPARATOR
  {
    forall k | 0 <= k < |Spell(s)| ensures Field(s, rest)[k] != SEPARATOR {
      assert Field(s, rest)[k] == Spell(s)[k] && Spell(s)[k] in Spell(s);
    }
  }

  /** The first separator ends the field. */
  lemma FieldInjective(a: Text, x: Text, b: Text, y: Text)
    requires Field(a, x) == Field(b, y)
    ensures a == b && x == y
  {
    var f, g, m, n := Field(a, x), Field(b, y), |Spell(a)|, |Spell(b)|;
    SeparatorAt(a, x);
    SeparatorAt(b, y);
    assert m == n;
    assert f[..m] == Spell(a) && g[..n] == Spell(b) && f[m + 1..] == x && g[n + 1..] == y;
    SpellInjective(a, b);
  }

  lemma ServiceInjective(i: ServiceInfo, j: ServiceInfo)
    requires Render(ServiceBody(i))[1..] == Render(ServiceBody(j))[1..]
    ensures i == j
  {
    var p, q: Text := [i.port / 0x100, i.port % 0x100], [j.port / 0x100, j.port % 0x100];
    var i4, j4 := Field(i.info, Spell(p)), Field(j.info, Spell(q));
    var i3, j3 := Field(i.ip, i4), Field(j.ip, j4);
    var i2, j2 := Field(i.service, i3), Field(j.service, j3);
    assert Render(ServiceBody(i))[1..] == Field(i.device, i2) && Render(ServiceBody(j))[1..] == Field(j.device, j2);
    FieldInjective(i.device, i2, j.device, j2);
    FieldInjective(i.service, i3, j.service, j3);
    FieldInjective(i.ip, i4, j.ip, j4);
    FieldInjective(i.info, Spell(p), j.info, Spell(q));
    SpellInjective(p, q);
    assert p[0] == q[0] && p[1] == q[1];
  }

  lemma RenderInjective(a: Body, b: Body)
    requires Render(a) == Render(b)
    ensures a == b
  {
    assert Render(a)[0] == Render(b)[0];
    assert Render(a)[1..] == Render(b)[1..];
    if a.ReasonBody? {
      assert Render(a)[1..] == Spell(a.reason) && Render(b)[1..] == Spell(b.reason);
      SpellInjective(a.reason, b.reason);
    } else {
      ServiceInjective(a.info, b.info);
    }
  }

  /** The library whose parser inverts `Render`. */
  ghost function Parse(text: Text): (r: Option<Body>)
    ensures r.Some? ==> Render(r.value) == text
    ensures r.None? ==> forall b :: Render(b) != text
  {
    if b :| Render(b) == text then Some(b) else None
  }

  lemma ParseInverts(b: Body)
    ensures Parse(Render(b)) == Some(b)
  {
    assert Parse(Render(b)).Some?;
    RenderInjective(Parse(Render(b)).value, b);
  }

  ghost function Sample(signedChar: bool): Platform {
    Platform(signedChar, Render, Parse)
  }

  lemma SampleFaithful(signedChar: bool)
    ensures Faithful(Sample(signedChar))
  {
    var pf := Sample(signedChar);
    forall b ensures 0 !in pf.render(b) && pf.parse(pf.render(b)) == Some(b) {
      ParseInverts(b);
    }
  }

  lemma RenderLength(b: Body)
    requires Copyable(b)
    ensures |Render(b)| < ROOM
  {
  }

  lemma SmallPasses(text: Text)
    requires Small(text)
    ensures High(text) == 0
  {
    assert forall k :: 0 <= k < |text| ==> text[k] in text;
    AsciiHasNone(text);
  }

  /** With either signedness of `char` the library is as assumed. */
  lemma SampleSpeaks(signedChar: bool)
    ensures Speaks(Sample(signedChar))
  {
    SampleFaithful(signedChar);
    RenderLength(ReasonBody([]));
    RenderLength(ReasonBody(SERVICE_NO_FOUND));
  }

  /** And every service of C strings under 100 bytes can be sent. */
  lemma SampleSends(signedChar: bool, e: ServiceInfo)
    requires CStrings(ServiceBody(e)) && Copyable(ServiceBody(e))
    ensures Sendable(Sample(signedChar), Register(e))
    ensures Passes(Sample(signedChar), Render(ServiceBody(e)))
  {
    RenderLength(ServiceBody(e));
    SmallPasses(Render(ServiceBody(e)));
  }
}
