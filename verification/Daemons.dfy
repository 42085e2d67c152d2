/** The Go and Java daemons from the received buffer to the replies, and what the three daemons make of one frame. */
module Daemons {
  import opened Types
  import opened Checksum
  import opened Codec
  import opened CDaemon
  import Registry
  import Lookup
  import Providers
  import Marshal

  /** Go: a panic on an overlong header, silence on a bad head, an unparsable text or an unknown action. */
  function GoRead(parse: Text -> Option<ServiceInfo>, buf: Buffer): Reading {
    match GoCheck(buf)
    case Panic => Faulty
    case NilHead => Ignored
    case Accepted(action) =>
      match parse(GoText(buf))
      case None => Ignored
      case Some(i) => if action <= INQUIRY then Asked(RequestOf(action, i)) else Ignored
  }

  /** The head is Go's own, inside the buffer, with the right checksum, and is followed by a request that parses. */
  predicate GoHears(parse: Text -> Option<ServiceInfo>, buf: Buffer) {
    && HeadOf(buf).head == INFO_HEAD
    && CDecode(buf) == Action(HeadOf(buf).action)
    && HeadOf(buf).action <= INQUIRY
    && parse(GoText(buf)).Some?
  }

  /** Only an overlong length under the magic number crashes the Go daemon as it reads; the rest it hears or ignores. */
  lemma GoReadIff(parse: Text -> Option<ServiceInfo>, buf: Buffer)
    ensures GoRead(parse, buf).Faulty? <==> HeadOf(buf).head == INFO_HEAD && HeadOf(buf).len > ROOM
    ensures GoRead(parse, buf).Asked? <==> GoHears(parse, buf)
    ensures GoHears(parse, buf) ==>
              GoRead(parse, buf) == Asked(RequestOf(HeadOf(buf).action, parse(GoText(buf)).value))
  {
    DecodersRelated(buf, HeadOf(buf).action);
  }

  datatype JavaReading = Heard(action: Word16, info: Option<ServiceInfo>) | Unheard | Thrown

  /** Java: an exception on a length outside the buffer. A text that does not parse leaves all fields null. */
  function JavaRead(parse: Text -> Option<ServiceInfo>, buf: Buffer): (r: JavaReading)
    ensures r.Heard? ==> r.action <= INQUIRY
  {
    match JavaDecode(buf)
    case Exception => Thrown
    case Code(code) =>
      if !(REGISTER_SERVICE <= code <= INQUIRY) then Unheard
      else
        match JavaText(buf)
        case None => Thrown
        case Some(text) => Heard(code, parse(text))
  }

  /** The checksum is Java's, the length stays inside the buffer, and the action is that of a request. */
  predicate JavaHears(buf: Buffer) {
    var h := HeadOf(buf);
    h.len <= ROOM && h.action <= INQUIRY && Of(true, buf[HEAD_LEN..HEAD_LEN + h.len]) == h.checksum
  }

  /**
   What Java hears it hears whether or not the text parses. It throws on a length between the buffer and 0x8000, and
   on a request with a longer one, which is negative to Java, under the checksum zero. It ignores everything else.
   */
  lemma JavaReadIff(parse: Text -> Option<ServiceInfo>, buf: Buffer)
    ensures var h := HeadOf(buf);
            && (JavaRead(parse, buf).Heard? <==> JavaHears(buf))
            && (JavaHears(buf) ==> JavaRead(parse, buf) == Heard(h.action, parse(buf[HEAD_LEN..HEAD_LEN + h.len])))
            && (JavaRead(parse, buf).Thrown? <==>
                ROOM < h.len < 0x8000 || (h.len >= 0x8000 && h.checksum == 0 && h.action <= INQUIRY))
  {
    var h := HeadOf(buf);
    DecodersRelated(buf, h.action);
    assert 0 <= ToShort(h.action) <= INQUIRY ==> ToShort(h.action) == h.action;
    if h.len <= ROOM {
      ChecksumDecides(buf);
    }
  }

  datatype Served = Done(list: Providers.JavaList, sent: seq<Reply>) | Died

  /** What the Java daemon makes of a frame it has read so: its new list and the replies, or an exception. */
  function JavaServe(l: Providers.JavaList, r: JavaReading): Served {
    match r
    case Unheard => Done(l, [])
    case Thrown => Died
    case Heard(action, info) =>
      var k := Providers.KeyOf(info);
      if action == REGISTER_SERVICE then
        (match Providers.JavaRemove(l, k)
         case Some(m) => Done(m + [info], [Succeeded])
         case None => Died)
      else if action == UNREGISTER_SERVICE then
        (match Providers.JavaRemove(l, k)
         case Some(m) => Done(m, if Providers.FrontHas(l, k) then [Succeeded] else [NotFound])
         case None => Died)
      else if Providers.HasNull(l) then Died
      else Done(l, if info.Some? then Providers.JavaReplies(Providers.Front(l), Inquiry(info.value.service))
                   else [NotFound])
  }

  /** daemon.go */
  class DaemonData {
    const provider: Providers.Provider

    constructor ()
      ensures fresh(provider) && provider.list == []
    {
      provider := new Providers.Provider();
    }

    /** Writes one frame per slot, in order, until a slot is nil. */
    static method WriteAll(res: array<Option<ServiceInfo>>) returns (sent: seq<Reply>, crashed: bool)
      ensures sent == Providers.FoundAll(Lookup.BeforeNil(res[..]))
      ensures crashed <==> None in res[..]
    {
      sent := [];
      ghost var infos := [];
      var i := 0;
      while i < res.Length
        invariant i <= res.Length && |infos| == i && sent == Providers.FoundAll(infos)
        invariant forall j :: 0 <= j < i ==> res[j] == Some(infos[j])
      {
        if res[i].None? {
          Lookup.BeforeNilUnique(res[..], infos);
          assert res[..][i] == None;
          return sent, true;
        }
        infos := infos + [res[i].value];
        sent := sent + [Found(res[i].value)];
        i := i + 1;
      }
      Lookup.BeforeNilUnique(res[..], infos);
      crashed := false;
    }

    /** The switch over the action. */
    method Dispatch(r: Request) returns (sent: seq<Reply>, crashed: bool)
      modifies provider
      ensures provider.list == Registry.GoStep(old(provider.list), r)
      ensures sent == Providers.GoReplies(old(provider.list), r)
      ensures crashed <==> r.Inquiry? && Lookup.GoCrashes(old(provider.list), r.name)
    {
      crashed := false;
      match r {
        case Register(entry) =>
          provider.AddInfo(entry);
          sent := [Succeeded];
        case Unregister(key) =>
          var removed := provider.RemoveByName(key.device, key.service);
          sent := if removed then [Succeeded] else [NotFound];
        case Inquiry(name) =>
          var c := provider.GetCount(name);
          if c > 0 {
            var res := new Option<ServiceInfo>[c](_ => None);
            provider.GetAll(name, res);
            assert res[..] == Lookup.GoSlots(provider.list, name);
            sent, crashed := WriteAll(res);
          } else {
            sent := [NotFound];
          }
      }
    }

    method ProcessData(parse: Text -> Option<ServiceInfo>, data: Buffer) returns (sent: seq<Reply>, crashed: bool)
      modifies provider
      ensures match GoRead(parse, data)
              case Asked(r) =>
                && provider.list == Registry.GoStep(old(provider.list), r)
                && sent == Providers.GoReplies(old(provider.list), r)
                && (crashed <==> r.Inquiry? && Lookup.GoCrashes(old(provider.list), r.name))
              case Ignored => provider.list == old(provider.list) && sent == [] && !crashed
              case Faulty => provider.list == old(provider.list) && sent == [] && crashed
      ensures !GoHears(parse, data) ==>
                && provider.list == old(provider.list) && sent == []
                && (crashed <==> HeadOf(data).head == INFO_HEAD && HeadOf(data).len > ROOM)
      ensures var r := GoRead(parse, data);
              r.Asked? && r.request.Inquiry? ==>
                Providers.GoAnswers(old(provider.list), r.request.name, sent, crashed)
    {
      ghost var r := GoRead(parse, data);
      GoReadIff(parse, data);
      if r.Asked? && r.request.Inquiry? {
        Providers.GoAnswersOwed(provider.list, r.request.name);
      }
      sent, crashed := [], false;
      var head := GoCheck(data);
      if head.Panic? {
        crashed := true;
      } else if head.Accepted? {
        var info := parse(GoText(data));
        if info.Some? && head.action <= INQUIRY {
          sent, crashed := Dispatch(CDaemon.RequestOf(head.action, info.value));
        }
      }
    }
  }

  /** ProviderServer.java */
  class ProviderServer {
    const provider: Providers.ServiceInfoList

    constructor ()
      ensures fresh(provider) && provider.list == []
    {
      provider := new Providers.ServiceInfoList();
    }

    /** One positional lookup for each index below `count`. */
    method Answer(name: Text, count: nat) returns (sent: seq<Reply>)
      requires !Providers.HasNull(provider.list)
      ensures sent == Providers.FoundAll(Lookup.JavaAnswerFrom(Providers.Front(provider.list), name, 0, count))
    {
      ghost var l := Providers.Front(provider.list);
      sent := [];
      ghost var infos := [];
      for i := 0 to count
        invariant sent == Providers.FoundAll(infos)
        invariant Lookup.JavaAnswerFrom(l, name, 0, count) == infos + Lookup.JavaAnswerFrom(l, name, i, count)
      {
        var out, _ := provider.Get(name, i);
        if out.Some? {
          sent := sent + [Found(out.value)];
          infos := infos + [out.value];
        }
      }
    }

    /** The switch over the action. */
    method Dispatch(action: Word16, info: Option<ServiceInfo>) returns (sent: seq<Reply>, thrown: bool)
      requires action <= INQUIRY
      modifies provider
      ensures thrown <==> JavaServe(old(provider.list), Heard(action, info)).Died?
      ensures if thrown then provider.list == old(provider.list) && sent == []
              else Done(provider.list, sent) == JavaServe(old(provider.list), Heard(action, info))
    {
      sent := [];
      if action == REGISTER_SERVICE {
        thrown := provider.Add(info);
        if !thrown {
          sent := [Succeeded];
        }
      } else if action == UNREGISTER_SERVICE {
        var ret;
        ret, thrown := provider.Remove(Providers.KeyOf(info));
        if !thrown {
          sent := if ret then [Succeeded] else [NotFound];
        }
      } else {
        var count;
        count, thrown := provider.GetCount(if info.Some? then Some(info.value.service) else None);
        if !thrown {
          if count > 0 {
            sent := Answer(info.value.service, count);
          } else {
            sent := [NotFound];
          }
        }
      }
    }

    /** One round of `loop`. */
    method Process(parse: Text -> Option<ServiceInfo>, buffer: Buffer) returns (sent: seq<Reply>, thrown: bool)
      modifies provider
      ensures thrown <==> JavaServe(old(provider.list), JavaRead(parse, buffer)).Died?
      ensures if thrown then provider.list == old(provider.list) && sent == []
              else Done(provider.list, sent) == JavaServe(old(provider.list), JavaRead(parse, buffer))
      ensures !JavaHears(buffer) ==> provider.list == old(provider.list) && sent == []
      ensures var r, l := JavaRead(parse, buffer), Providers.Front(old(provider.list));
              r.Heard? && r.action == INQUIRY && !thrown ==>
                && provider.list == old(provider.list)
                && (r.info.None? ==> sent == [NotFound])
                && (r.info.Some? ==> Providers.JavaAnswers(l, r.info.value.service, sent))
    {
      JavaReadIff(parse, buffer);
      ghost var r, l := JavaRead(parse, buffer), Providers.Front(provider.list);
      if r.Heard? && r.info.Some? {
        Providers.HeadRun(l, r.info.value.service);
        Providers.RepliesByPosition(l, r.info.value.service, |Lookup.CAnswer(l, r.info.value.service)|);
      }
      sent, thrown := [], false;
      var action := JavaDecode(buffer);
      if action.Exception? {
        thrown := true;
      } else if REGISTER_SERVICE <= action.code <= INQUIRY {
        var text := JavaText(buffer);
        if text.Some? {
          sent, thrown := Dispatch(action.code, parse(text.value));
        } else {
          thrown := true;
        }
      }
    }
  }

  // ---------- null names in the Java list ----------

  /** Without null names the Java daemon takes the registry step of the request and sends the replies it owes. */
  lemma NamedServe(l: seq<ServiceInfo>, action: Word16, i: ServiceInfo)
    requires action <= INQUIRY
    ensures JavaServe(Providers.Named(l), Heard(action, Some(i)))
         == Done(Providers.Named(Registry.Step(l, RequestOf(action, i))),
                 Providers.JavaReplies(l, RequestOf(action, i)))
  {
    var n := Providers.Named(l);
    Providers.FrontOf(l, []);
    assert n + [] == n && n[|l|..] == [];
    var m := Registry.RemoveKey(l, i.Key());
    assert Providers.Named(m) + [] == Providers.Named(m);
    assert Providers.Named(m + [i]) == Providers.Named(m) + [Some(i)];
  }

  /** A list without null names gets one from a register frame whose text does not parse, and from nothing else. */
  lemma NullIff(l: seq<ServiceInfo>, r: JavaReading)
    requires r.Heard? ==> r.action <= INQUIRY
    ensures var s := JavaServe(Providers.Named(l), r);
            && (s.Died? <==> r.Thrown?)
            && (s.Done? ==> (Providers.HasNull(s.list) <==> r == Heard(REGISTER_SERVICE, None)))
            && (r == Heard(REGISTER_SERVICE, None) ==> s == Done(Providers.Named(l) + [None], [Succeeded]))
            && (r.Heard? && r.info.None? && r.action > REGISTER_SERVICE ==> s == Done(Providers.Named(l), [NotFound]))
            && (r.Unheard? ==> s == Done(Providers.Named(l), []))
  {
    var n := Providers.Named(l);
    Providers.FrontOf(l, []);
    assert n + [] == n;
    if r.Heard? {
      if r.info.Some? {
        NamedServe(l, r.action, r.info.value);
        var m := Registry.Step(l, RequestOf(r.action, r.info.value));
        Providers.FrontOf(m, []);
        assert Providers.Named(m) + [] == Providers.Named(m);
      } else {
        Providers.FrontOf(l, [None]);
      }
    }
  }

  /** A request that a list with a null name survives: its key stands before the null name. */
  predicate Survivable(l: Providers.JavaList, r: JavaReading) {
    r.Unheard? || (r.Heard? && r.action <= UNREGISTER_SERVICE && Providers.FrontHas(l, Providers.KeyOf(r.info)))
  }

  /**
   Such a request takes one of the entries before the null name, and a registration puts its own at the end of the
   list; any other request ends the daemon.
   */
  lemma SurvivesIff(l: Providers.JavaList, r: JavaReading)
    requires Providers.HasNull(l)
    ensures JavaServe(l, r).Done? <==> Survivable(l, r)
    ensures r.Heard? && Survivable(l, r) ==>
              var f := Providers.Front(l);
              var kept := Providers.Named(Registry.RemoveKey(f, r.info.value.Key())) + l[|f|..];
              JavaServe(l, r)
              == Done(if r.action == REGISTER_SERVICE then kept + [r.info] else kept, [Succeeded])
    ensures var s := JavaServe(l, r);
            s.Done? ==> Providers.HasNull(s.list)
                        && |Providers.Front(s.list)| == |Providers.Front(l)| - if r.Heard? then 1 else 0
  {
    if r.Heard? && Survivable(l, r) {
      var f := Providers.Front(l);
      var m := Registry.RemoveKey(f, r.info.value.Key());
      var rest := l[|f|..];
      Providers.FrontOf(m, rest);
      Providers.FrontOf(m, rest + [r.info]);
      assert Providers.Named(m) + rest + [r.info] == Providers.Named(m) + (rest + [r.info]);
    }
  }

  /** The run of the daemon over what it reads. */
  function JavaRun(l: Providers.JavaList, rs: seq<JavaReading>): Served
    decreases |rs|
  {
    if rs == [] then Done(l, [])
    else
      match JavaServe(l, rs[0])
      case Died => Died
      case Done(m, sent) =>
        match JavaRun(m, rs[1..])
        case Died => Died
        case Done(t, more) => Done(t, sent + more)
  }

  function HeardIn(rs: seq<JavaReading>): nat {
    if rs == [] then 0 else HeardIn(rs[1..]) + if rs[0].Heard? then 1 else 0
  }

  predicate NoInquiry(rs: seq<JavaReading>) {
    forall r :: r in rs && r.Heard? ==> r.action <= UNREGISTER_SERVICE
  }

  lemma {:induction false} EachTakesOne(l: Providers.JavaList, rs: seq<JavaReading>)
    requires Providers.HasNull(l) && JavaRun(l, rs).Done?
    ensures Providers.HasNull(JavaRun(l, rs).list)
    ensures HeardIn(rs) + |Providers.Front(JavaRun(l, rs).list)| == |Providers.Front(l)|
    ensures NoInquiry(rs)
    decreases |rs|
  {
    if rs == [] {
    } else {
      SurvivesIff(l, rs[0]);
      EachTakesOne(JavaServe(l, rs[0]).list, rs[1..]);
    }
  }

  lemma {:induction false} Outlive(l: Providers.JavaList, n: nat) returns (rs: seq<JavaReading>)
    requires Providers.HasNull(l) && n <= |Providers.Front(l)|
    ensures JavaRun(l, rs).Done? && HeardIn(rs) == n
    decreases n
  {
    if n == 0 {
      rs := [];
    } else {
      var r := Heard(UNREGISTER_SERVICE, Some(Providers.Front(l)[0]));
      SurvivesIff(l, r);
      var more := Outlive(JavaServe(l, r).list, n - 1);
      rs := [r] + more;
      assert rs[1..] == more;
    }
  }

  /**
   Once a null name is in the list the daemon dies at the next inquiry, and it survives at most as many requests as
   there are entries before the null name: `n` requests can be served exactly if `n` is not above that number.
   */
  lemma NullEndsDaemon(l: Providers.JavaList, n: nat)
    requires Providers.HasNull(l)
    ensures (exists rs :: JavaRun(l, rs).Done? && HeardIn(rs) == n) <==> n <= |Providers.Front(l)|
    ensures forall rs :: JavaRun(l, rs).Done? ==> NoInquiry(rs)
  {
    forall rs | JavaRun(l, rs).Done?
      ensures HeardIn(rs) <= |Providers.Front(l)|
      ensures NoInquiry(rs)
    {
      EachTakesOne(l, rs);
    }
    if n <= |Providers.Front(l)| {
      var rs := Outlive(l, n);
    }
  }

  /** The three JSON libraries read the text `p` as the same service. */
  ghost predicate ReadAlike(pf: Platform, goParse: Text -> Option<ServiceInfo>, javaParse: Text -> Option<ServiceInfo>,
                            p: Text, i: ServiceInfo) {
    pf.parse(p) == Some(ServiceBody(i)) && goParse(p) == Some(i) && javaParse(p) == Some(i)
  }

  /**
   A request frame with a portable text, from any client, is the same request to all three daemons; after any
   history that left their registries corresponding, they correspond again.
   */
  lemma Interoperable(pf: Platform, goParse: Text -> Option<ServiceInfo>, javaParse: Text -> Option<ServiceInfo>,
                      signed: bool, action: Word16, p: Text, i: ServiceInfo, l: seq<ServiceInfo>)
    requires action <= INQUIRY && Portable(p) && ReadAlike(pf, goParse, javaParse, p, i)
    requires Registry.UniqueKeys(l)
    ensures var f, r := Encode(signed, action, p), RequestOf(action, i);
            && Read(pf, f) == GoRead(goParse, f) == Asked(r)
            && JavaServe(Providers.Named(l), JavaRead(javaParse, f))
            == Done(Providers.Named(Registry.Step(l, r)), Providers.JavaReplies(l, r))
            && Registry.GoStep(Registry.Reverse(l), r) == Registry.Reverse(Registry.Step(l, r))
  {
    RoundTrip(signed, action, p);
    SmallShort(action);
    NamedServe(l, action, i);
    Registry.MirrorStep(l, RequestOf(action, i));
  }

  // ---------- a service that Go can store but not report ----------

  /** A service whose two names consist of `n` bytes `<`. */
  function Angles(n: nat, port: Word16): ServiceInfo {
    var name := seq(n, _ => 60);
    ServiceInfo(name, name, [], port, [])
  }

  lemma AnglesPortable(n: nat, port: Word16)
    requires n < 100
    ensures Portable(Marshal.GoMarshal(Angles(n, port), Marshal.Raw))
  {
    var i := Angles(n, port);
    var p := Marshal.GoMarshal(i, Marshal.Raw);
    Marshal.RawIsIdentity(i.device);
    Marshal.RawIsIdentity(i.ip);
    Marshal.PlainMarshal(i, Marshal.Raw);
    forall k | 0 <= k < |p| ensures 0 < p[k] < 0x80 {
      assert p[k] in p;
    }
    AsciiHasNone(p);
    Marshal.MarshalLength(i, Marshal.Raw);
  }

  lemma AnglesOutgrow(n: nat, port: Word16, esc: Byte -> seq<Byte>)
    requires n < 100 && |esc(60)| == 6
    ensures var p := Marshal.GoMarshal(Angles(n, port), esc);
            |p| < WORDS && (|p| > ROOM <==> n >= 80)
  {
    Marshal.MarshalLength(Angles(n, port), esc);
    Marshal.EscapedConstant(60, n, esc);
  }

  lemma ReadAsRegister(parse: Text -> Option<ServiceInfo>, signed: bool, p: Text, i: ServiceInfo)
    requires Portable(p) && parse(p) == Some(i)
    ensures GoRead(parse, Encode(signed, REGISTER_SERVICE, p)) == Asked(Register(i))
  {
    RoundTrip(signed, REGISTER_SERVICE, p);
  }

  /**
   A client whose library does not escape `<` can register such a service with the Go daemon up to a length that
   Go's own library can no longer answer with: from 80 bytes on, the inquirer panics.
   */
  lemma StoredButUnanswerable(parse: Text -> Option<ServiceInfo>, esc: Byte -> seq<Byte>, signed: bool, n: nat,
                              port: Word16)
    requires n < 100 && |esc(60)| == 6
    requires parse(Marshal.GoMarshal(Angles(n, port), Marshal.Raw)) == Some(Angles(n, port))
    ensures var f := Encode(signed, REGISTER_SERVICE, Marshal.GoMarshal(Angles(n, port), Marshal.Raw));
            GoRead(parse, f) == Asked(Register(Angles(n, port)))
    ensures GoCheck(Marshal.GoAnswerFrame(Angles(n, port), esc)) == Panic <==> n >= 80
  {
    var i := Angles(n, port);
    AnglesPortable(n, port);
    ReadAsRegister(parse, signed, Marshal.GoMarshal(i, Marshal.Raw), i);
    AnglesOutgrow(n, port, esc);
    OversizePanics(Marshal.GoMarshal(i, esc), ACTION_SUCC);
  }
}
