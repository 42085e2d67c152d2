/** What the clients of the three implementations make of the replies they read. */
module Clients {
  import opened Types
  import opened Checksum
  import opened Codec
  import opened CDaemon
  import Registry
  import Lookup
  import Providers
  import CList
  import Network
  import Marshal
  import Handshake

  // ---------- C ----------

  /** A call of a C client reading frames until a read fails. */
  function ReceiveAll(pf: Platform, c: Network.Call, frames: seq<Buffer>): Option<Network.Call> {
    if frames == [] then Some(c)
    else
      match ReceiveAll(pf, c, frames[..|frames| - 1])
      case None => None
      case Some(c') => Network.Receive(pf, c', frames[|frames| - 1])
  }

  lemma {:induction false} ReceivedPrefix(pf: Platform, c: Network.Call, frames: seq<Buffer>, i: nat)
    requires i <= |frames| && ReceiveAll(pf, c, frames).Some?
    ensures ReceiveAll(pf, c, frames[..i]).Some?
  {
    if i < |frames| {
      ReceivedPrefix(pf, c, frames[..|frames| - 1], i);
      assert frames[..|frames| - 1][..i] == frames[..i];
    } else {
      assert frames[..i] == frames;
    }
  }

  lemma ReceiveSnoc(pf: Platform, c: Network.Call, frames: seq<Buffer>, i: nat)
    requires i < |frames| && ReceiveAll(pf, c, frames).Some?
    ensures ReceiveAll(pf, c, frames[..i]).Some? && ReceiveAll(pf, c, frames[..i + 1]).Some?
    ensures Network.Receive(pf, ReceiveAll(pf, c, frames[..i]).value, frames[i]) == ReceiveAll(pf, c, frames[..i + 1])
  {
    ReceivedPrefix(pf, c, frames, i + 1);
    ReceivedPrefix(pf, c, frames, i);
    assert frames[..i + 1][..i] == frames[..i];
  }

  function NewCall(op: Request): Network.Call {
    Network.Call(op, true, -1, [])
  }

  /** Some valid SUCC was read. */
  predicate COutcome(frames: seq<Buffer>) {
    exists i :: 0 <= i < |frames| && CDecode(frames[i]) == Action(ACTION_SUCC)
  }

  lemma OutcomeSnoc(frames: seq<Buffer>, i: nat)
    requires i < |frames|
    ensures COutcome(frames[..i + 1]) <==> COutcome(frames[..i]) || CDecode(frames[i]) == Action(ACTION_SUCC)
  {
    assert frames[..i + 1] == frames[..i] + [frames[i]];
    if COutcome(frames[..i]) {
      var j :| 0 <= j < i && CDecode(frames[..i][j]) == Action(ACTION_SUCC);
      assert frames[..i + 1][j] == frames[..i][j];
    }
    assert frames[..i + 1][i] == frames[i];
  }

  /** `check_result` of server.c: success if any reply is a valid SUCC, in whatever order they come. */
  method CheckResult(pf: Platform, op: Request, frames: seq<Buffer>) returns (ret: int)
    requires !op.Inquiry? && ReceiveAll(pf, NewCall(op), frames).Some?
    ensures ret == ReceiveAll(pf, NewCall(op), frames).value.ret
    ensures ret == if COutcome(frames) then 0 else -1
  {
    ret := -1;
    for i := 0 to |frames|
      invariant ReceiveAll(pf, NewCall(op), frames[..i]) == Some(Network.Call(op, true, ret, []))
      invariant ret == if COutcome(frames[..i]) then 0 else -1
    {
      OutcomeSnoc(frames, i);
      ReceiveSnoc(pf, NewCall(op), frames, i);
      var action := CDecode(frames[i]);
      if action.Action? && action.code == ACTION_SUCC {
        ret := 0;
      }
    }
    assert frames[..|frames|] == frames;
  }

  // ---------- what a C inquiry collects ----------

  function Registrations(arrivals: seq<ServiceInfo>): (h: seq<Request>)
    ensures |h| == |arrivals| && forall i :: 0 <= i < |h| ==> h[i] == Register(arrivals[i])
  {
    seq(|arrivals|, i requires 0 <= i < |arrivals| => Register(arrivals[i]))
  }

  /** The list after adding the arrivals one by one. */
  function Collect(arrivals: seq<ServiceInfo>): seq<ServiceInfo> {
    Registry.Run(Registrations(arrivals))
  }

  lemma CollectSnoc(a: seq<ServiceInfo>, e: ServiceInfo)
    ensures Collect(a + [e]) == Registry.Put(Collect(a), e)
  {
    assert Registrations(a + [e]) == Registrations(a) + [Register(e)];
    Registry.RunSnoc(Registrations(a), Register(e));
  }

  ghost predicate Deliverable(pf: Platform, e: ServiceInfo) {
    Sound(pf, e) && Passes(pf, pf.render(ServiceBody(e)))
  }

  lemma FoundReceived(pf: Platform, c: Network.Call, e: ServiceInfo)
    requires Speaks(pf) && c.op.Inquiry? && Deliverable(pf, e)
    ensures Network.Receive(pf, c, ReplyFrame(pf, Found(e))) == Some(c.(found := Registry.Put(c.found, e)))
  {
    Network.ReceiveReply(pf, c, Found(e));
  }

  lemma ReceiveStep(pf: Platform, c: Network.Call, frames: seq<Buffer>, before: Network.Call)
    requires frames != [] && ReceiveAll(pf, c, frames[..|frames| - 1]) == Some(before)
    ensures ReceiveAll(pf, c, frames) == Network.Receive(pf, before, frames[|frames| - 1])
  {
  }

  lemma FoundFramesSnoc(pf: Platform, arrivals: seq<ServiceInfo>)
    requires arrivals != []
    ensures var fs, n := ReplyFrames(pf, Providers.FoundAll(arrivals)), |arrivals| - 1;
            |fs| == n + 1 && fs[..n] == ReplyFrames(pf, Providers.FoundAll(arrivals[..n]))
            && fs[n] == ReplyFrame(pf, Found(arrivals[n]))
  {
  }

  /** A call that has collected `a`. */
  function Collected(name: Text, a: seq<ServiceInfo>): Network.Call {
    Network.Call(Inquiry(name), true, -1, Collect(a))
  }

  lemma NothingCollected(name: Text)
    ensures Collected(name, []) == NewCall(Inquiry(name))
  {
    assert Registrations([]) == [];
  }

  /** The frames of any arrivals, repeated and reordered at will, build the collected list. */
  lemma {:induction false} CollectFromFrames(pf: Platform, name: Text, arrivals: seq<ServiceInfo>)
    requires Speaks(pf) && forall i :: 0 <= i < |arrivals| ==> Deliverable(pf, arrivals[i])
    ensures ReceiveAll(pf, NewCall(Inquiry(name)), ReplyFrames(pf, Providers.FoundAll(arrivals)))
         == Some(Collected(name, arrivals))
  {
    if arrivals == [] {
      NothingCollected(name);
    } else {
      var b, e := arrivals[..|arrivals| - 1], arrivals[|arrivals| - 1];
      assert arrivals == b + [e];
      FoundFramesSnoc(pf, arrivals);
      CollectFromFrames(pf, name, b);
      ReceiveStep(pf, NewCall(Inquiry(name)), ReplyFrames(pf, Providers.FoundAll(arrivals)), Collected(name, b));
      FoundReceived(pf, Collected(name, b), e);
      CollectSnoc(b, e);
    }
  }

  /** A frame that is accepted as a success and holds a service. */
  predicate HoldsService(pf: Platform, f: Buffer) {
    CDecode(f) == Action(ACTION_SUCC) && ReadService(pf, f).Service?
  }

  /** The services among frames of any kind, in order. */
  function ServicesIn(pf: Platform, frames: seq<Buffer>): seq<ServiceInfo> {
    if frames == [] then []
    else
      var f := frames[|frames| - 1];
      ServicesIn(pf, frames[..|frames| - 1]) + if HoldsService(pf, f) then [ReadService(pf, f).info] else []
  }

  lemma ReceiveService(pf: Platform, c: Network.Call, f: Buffer)
    requires c.op.Inquiry? && Network.Receive(pf, c, f).Some?
    ensures Network.Receive(pf, c, f) ==
            Some(if HoldsService(pf, f) then c.(found := Registry.Put(c.found, ReadService(pf, f).info)) else c)
  {
  }

  /** Whatever frames an inquiry reads, the list it builds is that of the services in them. */
  lemma {:induction false} CollectsServices(pf: Platform, name: Text, frames: seq<Buffer>)
    requires ReceiveAll(pf, NewCall(Inquiry(name)), frames).Some?
    ensures ReceiveAll(pf, NewCall(Inquiry(name)), frames) == Some(Collected(name, ServicesIn(pf, frames)))
  {
    if frames == [] {
      NothingCollected(name);
    } else {
      var before, f := frames[..|frames| - 1], frames[|frames| - 1];
      ReceivedPrefix(pf, NewCall(Inquiry(name)), frames, |frames| - 1);
      CollectsServices(pf, name, before);
      var c := Collected(name, ServicesIn(pf, before));
      ReceiveStep(pf, NewCall(Inquiry(name)), frames, c);
      ReceiveService(pf, c, f);
      if HoldsService(pf, f) {
        CollectSnoc(ServicesIn(pf, before), ReadService(pf, f).info);
      } else {
        assert ServicesIn(pf, before) + [] == ServicesIn(pf, before);
      }
    }
  }

  /** `check_result` of client.c: every service read is added to a list, which drops an earlier one with its key. */
  method CheckInquiry(pf: Platform, name: Text, frames: seq<Buffer>) returns (list: CList.ServiceInfoList)
    requires ReceiveAll(pf, NewCall(Inquiry(name)), frames).Some?
    ensures list.Valid() && fresh(list.Repr)
    ensures list.contents == ReceiveAll(pf, NewCall(Inquiry(name)), frames).value.found
    ensures list.contents == Collect(ServicesIn(pf, frames)) && Registry.UniqueKeys(list.contents)
  {
    CollectsServices(pf, name, frames);
    list := new CList.ServiceInfoList();
    for i := 0 to |frames|
      invariant list.Valid() && fresh(list.Repr) && Registry.UniqueKeys(list.contents)
      invariant ReceiveAll(pf, NewCall(Inquiry(name)), frames[..i])
             == Some(Network.Call(Inquiry(name), true, -1, list.contents))
    {
      ReceiveSnoc(pf, NewCall(Inquiry(name)), frames, i);
      var action := CDecode(frames[i]);
      if action.Action? && action.code == ACTION_SUCC {
        var service := ReadService(pf, frames[i]);
        if service.Service? {
          Registry.StepKeepsUnique(list.contents, Register(service.info));
          list.Add(service.info);
        }
      }
    }
    assert frames[..|frames|] == frames;
  }

  lemma UniqueSnoc(a: seq<ServiceInfo>, e: ServiceInfo)
    requires Registry.UniqueKeys(a + [e])
    ensures Registry.UniqueKeys(a) && Registry.Put(a, e) == a + [e]
  {
    var b := a + [e];
    assert forall i :: 0 <= i < |a| ==> b[i] == a[i];
    assert b[|a|] == e;
    assert !Registry.HasKey(a, e.Key());
  }

  lemma {:induction false} CollectUnique(a: seq<ServiceInfo>)
    requires Registry.UniqueKeys(a)
    ensures Collect(a) == a
  {
    if a == [] {
      assert Registrations(a) == [];
    } else {
      var b, e := a[..|a| - 1], a[|a| - 1];
      assert a == b + [e];
      UniqueSnoc(b, e);
      CollectUnique(b);
      CollectSnoc(b, e);
    }
  }

  /** The list is the arrivals themselves exactly when no key arrives twice. */
  lemma CollectIdentity(a: seq<ServiceInfo>)
    ensures Collect(a) == a <==> Registry.UniqueKeys(a)
  {
    Registry.RunUnique(Registrations(a));
    if Registry.UniqueKeys(a) {
      CollectUnique(a);
    }
  }

  lemma {:induction false} AtMostOnce(a: seq<ServiceInfo>, e: ServiceInfo)
    requires Registry.UniqueKeys(a)
    ensures multiset(a)[e] == if e in a then 1 else 0
  {
    if a == [] {
    } else {
      var n := |a| - 1;
      assert a == a[..n] + [a[n]];
      AtMostOnce(a[..n], e);
    }
  }

  lemma UniqueMultiset(a: seq<ServiceInfo>, b: seq<ServiceInfo>)
    requires Registry.UniqueKeys(a) && Registry.UniqueKeys(b)
    requires forall e :: e in a <==> e in b
    ensures multiset(a) == multiset(b)
  {
    forall e ensures multiset(a)[e] == multiset(b)[e] {
      AtMostOnce(a, e);
      AtMostOnce(b, e);
    }
  }

  lemma SameKeySameEntry(l: seq<ServiceInfo>, a: ServiceInfo, b: ServiceInfo)
    requires Registry.UniqueKeys(l) && a in l && b in l && a.Key() == b.Key()
    ensures a == b
  {
  }

  /**
   A daemon's answer delivered in any order and with any repetitions: delivered exactly, the client's list equals
   it; if only every reply arrives at least once, the list is a permutation of it.
   */
  lemma CollectsTheAnswer(l: seq<ServiceInfo>, name: Text, arrivals: seq<ServiceInfo>)
    requires Registry.UniqueKeys(l)
    requires forall e :: e in arrivals <==> e in Lookup.CAnswer(l, name)
    ensures multiset(Collect(arrivals)) == multiset(Lookup.CAnswer(l, name))
    ensures arrivals == Lookup.CAnswer(l, name) ==> Collect(arrivals) == arrivals
    ensures Registry.OrderedByRegistration(Collect(arrivals), Registrations(arrivals))
  {
    var answer, h := Lookup.CAnswer(l, name), Registrations(arrivals);
    Registry.RunUnique(h);
    Registry.RegistryOrder(h);
    CollectIdentity(arrivals);
    forall e ensures e in Collect(arrivals) <==> e in answer {
      Registry.RegistryMembers(h, e);
      var i := Registry.LastTouch(h, e.Key());
      if e in answer {
        var j :| 0 <= j < |arrivals| && arrivals[j] == e;
        assert h[j].Touches(e.Key());
        SameKeySameEntry(answer, arrivals[i], e);
      }
    }
    UniqueMultiset(Collect(arrivals), answer);
  }

  // ---------- Java ----------

  /** What `runRegister` leaves in `succ`: the last valid SUCC or FAIL decides; without one nothing changes. */
  function JavaOutcome(before: bool, frames: seq<Buffer>): bool {
    if frames == [] then before
    else
      var action := JavaDecode(frames[|frames| - 1]);
      if action == Code(ACTION_SUCC) then true
      else if action == Code(ACTION_FAIL) then false
      else JavaOutcome(before, frames[..|frames| - 1])
  }

  /** The reason of the last FAIL read, whether or not a SUCC follows it. */
  function JavaReason(before: Option<Text>, frames: seq<Buffer>, reasonOf: Text -> Text): Option<Text> {
    if frames == [] then before
    else
      var f := frames[|frames| - 1];
      if JavaDecode(f) == Code(ACTION_FAIL) && JavaText(f).Some? then Some(reasonOf(JavaText(f).value))
      else JavaReason(before, frames[..|frames| - 1], reasonOf)
  }

  predicate JavaValid(f: Buffer) {
    JavaDecode(f) == Code(ACTION_SUCC) || JavaDecode(f) == Code(ACTION_FAIL)
  }

  /** RegisterClient.java */
  class RegisterClient {
    var succ: bool
    var failReason: Option<Text>

    constructor ()
      ensures !succ && failReason == None
    {
      succ, failReason := false, None;
    }

    method RunRegister(frames: seq<Buffer>, reasonOf: Text -> Text)
      requires forall i :: 0 <= i < |frames| ==>
                 && JavaDecode(frames[i]).Code?
                 && (JavaDecode(frames[i]) == Code(ACTION_FAIL) ==> JavaText(frames[i]).Some?)
      modifies this
      ensures succ == JavaOutcome(old(succ), frames)
      ensures failReason == JavaReason(old(failReason), frames, reasonOf)
    {
      for i := 0 to |frames|
        invariant succ == JavaOutcome(old(succ), frames[..i])
        invariant failReason == JavaReason(old(failReason), frames[..i], reasonOf)
      {
        assert frames[..i + 1][..i] == frames[..i];
        var action := JavaDecode(frames[i]);
        if action.code == ACTION_SUCC {
          succ := true;
        } else if action.code == ACTION_FAIL {
          succ := false;
          failReason := Some(reasonOf(JavaText(frames[i]).value));
        }
      }
      assert frames[..|frames|] == frames;
    }
  }

  lemma {:induction false} LastValidDecides(before: bool, frames: seq<Buffer>, i: nat)
    requires i < |frames| && JavaValid(frames[i]) && forall j :: i < j < |frames| ==> !JavaValid(frames[j])
    ensures JavaOutcome(before, frames) <==> JavaDecode(frames[i]) == Code(ACTION_SUCC)
  {
    if i < |frames| - 1 {
      LastValidDecides(before, frames[..|frames| - 1], i);
    }
  }

  /** The last FAIL gives the reason, whatever valid or invalid frames follow it; without one the reason stays. */
  lemma {:induction false} LastFailGivesReason(
      before: Option<Text>, frames: seq<Buffer>, reasonOf: Text -> Text, i: nat)
    requires i <= |frames| && forall j :: i <= j < |frames| ==> JavaDecode(frames[j]) != Code(ACTION_FAIL)
    requires i > 0 ==> JavaDecode(frames[i - 1]) == Code(ACTION_FAIL) && JavaText(frames[i - 1]).Some?
    ensures JavaReason(before, frames, reasonOf)
         == if i == 0 then before else Some(reasonOf(JavaText(frames[i - 1]).value))
  {
    if i < |frames| {
      LastFailGivesReason(before, frames[..|frames| - 1], reasonOf, i);
    }
  }

  /** A client used before agrees with a fresh one, unless it last succeeded and no valid reply arrives. */
  lemma {:induction false} StaleOutcome(before: bool, frames: seq<Buffer>)
    ensures JavaOutcome(before, frames) == JavaOutcome(false, frames)
       <==> !before || exists i :: 0 <= i < |frames| && JavaValid(frames[i])
  {
    if frames == [] {
    } else {
      var n := |frames| - 1;
      StaleOutcome(before, frames[..n]);
      if i :| 0 <= i < n && JavaValid(frames[..n][i]) {
        assert JavaValid(frames[i]);
      }
      if i :| 0 <= i < n && JavaValid(frames[i]) {
        assert frames[..n][i] == frames[i];
      }
    }
  }

  // ---------- Go ----------

  /** `GetResult` looks at the first frame only. */
  function GoOutcome(frames: seq<Buffer>): bool {
    frames != [] && GoCheck(frames[0]) == Accepted(ACTION_SUCC)
  }

  /** Success is a first frame under Go's own magic number that a C client takes for a success; no frame is none. */
  lemma GoOutcomeIff(frames: seq<Buffer>)
    ensures GoOutcome(frames) <==>
            frames != [] && HeadOf(frames[0]).head == INFO_HEAD && CDecode(frames[0]) == Action(ACTION_SUCC)
  {
    if frames != [] {
      DecodersRelated(frames[0], ACTION_SUCC);
    }
  }

  /** The services of a Go inquiry; `Panicked` on a header that overruns the buffer or a service that does not parse. */
  datatype Infos = Infos(list: seq<ServiceInfo>) | Panicked

  function GoCollect(parse: Text -> Option<ServiceInfo>, frames: seq<Buffer>): Infos {
    if frames == [] then Infos([])
    else
      match GoCheck(frames[0])
      case Panic => Panicked
      case NilHead => Infos([])
      case Accepted(action) =>
        if action != ACTION_SUCC then Infos([])
        else
          match parse(GoText(frames[0]))
          case None => Panicked
          case Some(i) =>
            match GoCollect(parse, frames[1..])
            case Panicked => Panicked
            case Infos(rest) => Infos([i] + rest)
  }

  /** The read loop of `GetInquiryResult`. */
  method GetInquiryResult(parse: Text -> Option<ServiceInfo>, frames: seq<Buffer>) returns (infos: Infos)
    ensures infos == GoCollect(parse, frames)
  {
    var list := [];
    var i := 0;
    while i < |frames|
      invariant i <= |frames|
      invariant GoCollect(parse, frames) ==
                match GoCollect(parse, frames[i..])
                case Panicked => Panicked
                case Infos(rest) => Infos(list + rest)
    {
      assert frames[i..][1..] == frames[i + 1..];
      var head := GoCheck(frames[i]);
      if head.Panic? {
        return Panicked;
      }
      if head.NilHead? || head.action != ACTION_SUCC {
        break;
      }
      var info := parse(GoText(frames[i]));
      if info.None? {
        return Panicked;
      }
      ghost var before := list;
      list := list + [info.value];
      i := i + 1;
      assert forall rest :: before + ([info.value] + rest) == list + rest;
    }
    infos := Infos(list);
  }

  /**
   Go keeps the services as they arrive, repetitions included, up to the first frame that is not a good SUCC. By
   `CollectIdentity` a C client holds the same list exactly when no key arrived twice.
   */
  lemma {:induction false} GoCollectsVerbatim(
      parse: Text -> Option<ServiceInfo>, frames: seq<Buffer>, arrivals: seq<ServiceInfo>)
    requires |arrivals| <= |frames|
    requires forall i :: 0 <= i < |arrivals| ==>
               GoCheck(frames[i]) == Accepted(ACTION_SUCC) && parse(GoText(frames[i])) == Some(arrivals[i])
    requires |arrivals| < |frames| ==>
               GoCheck(frames[|arrivals|]).NilHead?
               || (GoCheck(frames[|arrivals|]).Accepted? && GoCheck(frames[|arrivals|]).action != ACTION_SUCC)
    ensures GoCollect(parse, frames) == Infos(arrivals)
  {
    if arrivals == [] {
    } else {
      GoCollectsVerbatim(parse, frames[1..], arrivals[1..]);
      assert arrivals == [arrivals[0]] + arrivals[1..];
    }
  }

  /** A frame after which the read loop of `GetInquiryResult` goes round again. */
  predicate GoGood(parse: Text -> Option<ServiceInfo>, f: Buffer) {
    GoCheck(f) == Accepted(ACTION_SUCC) && parse(GoText(f)).Some?
  }

  /** A frame on which it panics: a length beyond the buffer, or a success whose text does not parse. */
  predicate GoFatal(parse: Text -> Option<ServiceInfo>, f: Buffer) {
    (HeadOf(f).head == INFO_HEAD && HeadOf(f).len > ROOM)
    || (GoCheck(f) == Accepted(ACTION_SUCC) && parse(GoText(f)).None?)
  }

  /** The first frame that is not good decides: the inquiry panics exactly if there is one and it is fatal. */
  lemma {:induction false} PanicsIff(parse: Text -> Option<ServiceInfo>, frames: seq<Buffer>, i: nat)
    requires i <= |frames| && forall j :: 0 <= j < i ==> GoGood(parse, frames[j])
    requires i < |frames| ==> !GoGood(parse, frames[i])
    ensures GoCollect(parse, frames).Panicked? <==> i < |frames| && GoFatal(parse, frames[i])
    ensures GoCollect(parse, frames).Infos? ==>
              var list := GoCollect(parse, frames).list;
              |list| == i && forall j :: 0 <= j < i ==> parse(GoText(frames[j])) == Some(list[j])
  {
    if i == 0 {
      if frames != [] {
        DecodersRelated(frames[0], ACTION_SUCC);
      }
    } else {
      PanicsIff(parse, frames[1..], i - 1);
    }
  }

  /** What the read loop reads from the frames that arrive: good ones, and then a bad one or a time-out. */
  function GoReads(parse: Text -> Option<ServiceInfo>, frames: seq<Buffer>): (rs: seq<Handshake.Move>)
    ensures rs != []
  {
    if frames == [] then [Handshake.TimeOut]
    else if GoGood(parse, frames[0]) then [Handshake.ReadReply(true)] + GoReads(parse, frames[1..])
    else [Handshake.ReadReply(false)]
  }

  lemma {:induction false} GoReadsWhole(parse: Text -> Option<ServiceInfo>, frames: seq<Buffer>)
    requires GoCollect(parse, frames).Infos?
    ensures var rs := GoReads(parse, frames);
            && Handshake.Whole(Handshake.Client, rs) && Handshake.RepliesIn(rs) <= |frames|
            && |GoCollect(parse, frames).list| == |rs| - 1
  {
    if frames == [] || !GoGood(parse, frames[0]) {
    } else {
      var rest := GoReads(parse, frames[1..]);
      var rs := [Handshake.ReadReply(true)] + rest;
      GoReadsWhole(parse, frames[1..]);
      assert rs[1..] == rest;
      assert rs[..|rs| - 1] == [Handshake.ReadReply(true)] + rest[..|rest| - 1];
    }
  }

  /**
   The read loop and the handshake fit together: whatever frames arrive, unless the loop panics, the handshake has a
   run of the whole call in which the reader makes exactly these reads, and it yields one service for each good one.
   */
  lemma InquiryRuns(parse: Text -> Option<ServiceInfo>, frames: seq<Buffer>, s: Handshake.State)
    returns (moves: seq<Handshake.Move>, t: Handshake.State)
    requires Handshake.Reachable(Handshake.Client, s) && s.reader.Idle? && GoCollect(parse, frames).Infos?
    ensures Handshake.CallReads(s, |frames|, moves, t, GoReads(parse, frames))
    ensures |GoCollect(parse, frames).list| == |GoReads(parse, frames)| - 1
  {
    GoReadsWhole(parse, frames);
    moves, t := Handshake.SomeCallReads(Handshake.Client, s, |frames|, GoReads(parse, frames));
  }

  /** `GetResult` of server.go, after the handshake; only the first frame is looked at. */
  method GetResult(frames: seq<Buffer>, reasonOf: Text -> Option<Text>) returns (succ: bool, failReason: Text)
    requires frames == [] || !GoCheck(frames[0]).Panic?
    ensures succ == GoOutcome(frames)
    ensures succ <==> frames != [] && HeadOf(frames[0]).head == INFO_HEAD && CDecode(frames[0]) == Action(ACTION_SUCC)
    ensures frames == [] ==> failReason == Marshal.Ascii("read nothing")
    ensures frames != [] && GoCheck(frames[0]).NilHead? ==> failReason == Marshal.Ascii("ProcessData checksum fail")
    ensures frames != [] && GoCheck(frames[0]).Accepted? && !succ ==>
              failReason == if reasonOf(GoText(frames[0])).Some? then reasonOf(GoText(frames[0])).value else []
  {
    succ, failReason := false, [];
    GoOutcomeIff(frames);
    if frames == [] {
      failReason := Marshal.Ascii("read nothing");
      return;
    }
    var head := GoCheck(frames[0]);
    if head.NilHead? {
      failReason := Marshal.Ascii("ProcessData checksum fail");
    } else if head.action == ACTION_SUCC {
      succ := true;
    } else {
      var info := reasonOf(GoText(frames[0]));
      if info.Some? {
        failReason := info.value;
      }
    }
  }

  // ---------- the three outcomes compared ----------

  /** `f` is a frame with action `a` and a portable payload, written by any of the implementations. */
  ghost predicate Says(f: Buffer, a: Word16) {
    exists signed, p :: Portable(p) && f == Encode(signed, a, p)
  }

  lemma SaysIsRead(f: Buffer, a: Word16)
    requires Says(f, a) && a <= ACTION_FAIL
    ensures CDecode(f) == Action(a) && GoCheck(f) == Accepted(a) && JavaDecode(f) == Code(a)
    ensures CText(f).Some? && JavaText(f).Some?
  {
    var signed, p :| Portable(p) && f == Encode(signed, a, p);
    RoundTrip(signed, a, p);
    SmallShort(a);
    assert CText(f) == Some(p) && JavaText(f) == Some(p);
  }

  lemma SaysOne(f: Buffer)
    requires Says(f, ACTION_SUCC) || Says(f, ACTION_FAIL)
    ensures Says(f, ACTION_FAIL) <==> !Says(f, ACTION_SUCC)
  {
    if Says(f, ACTION_SUCC) {
      SaysIsRead(f, ACTION_SUCC);
    }
    if Says(f, ACTION_FAIL) {
      SaysIsRead(f, ACTION_FAIL);
    }
  }

  /** Every frame is a valid reply, of success or of failure. */
  ghost predicate AllReplies(frames: seq<Buffer>) {
    forall i :: 0 <= i < |frames| ==> Says(frames[i], ACTION_SUCC) || Says(frames[i], ACTION_FAIL)
  }

  /** A frame inside whose buffer no client finds a reply to a register or unregister call. */
  predicate Noise(f: Buffer) {
    && HeadOf(f).len <= ROOM
    && CDecode(f) != Action(ACTION_SUCC) && CDecode(f) != Action(ACTION_FAIL)
    && !JavaValid(f)
  }

  ghost predicate RepliesAndNoise(frames: seq<Buffer>) {
    forall i :: 0 <= i < |frames| ==> Says(frames[i], ACTION_SUCC) || Says(frames[i], ACTION_FAIL) || Noise(frames[i])
  }

  /** The last reply among the frames is a success. */
  ghost predicate EndsWithSuccess(frames: seq<Buffer>) {
    exists i :: 0 <= i < |frames| && Says(frames[i], ACTION_SUCC) && forall j :: i < j < |frames| ==> Noise(frames[j])
  }

  lemma SaysSuccess(f: Buffer)
    requires Says(f, ACTION_SUCC) || Says(f, ACTION_FAIL) || Noise(f)
    ensures Says(f, ACTION_SUCC) <==> CDecode(f) == Action(ACTION_SUCC)
    ensures Says(f, ACTION_SUCC) <==> GoCheck(f) == Accepted(ACTION_SUCC)
    ensures Says(f, ACTION_SUCC) <==> JavaDecode(f) == Code(ACTION_SUCC)
    ensures Noise(f) <==> !JavaValid(f)
  {
    DecodersRelated(f, ACTION_SUCC);
    if Says(f, ACTION_SUCC) {
      SaysIsRead(f, ACTION_SUCC);
    } else if Says(f, ACTION_FAIL) {
      SaysIsRead(f, ACTION_FAIL);
    }
  }

  /** A fresh Java client that reports success read one after which nothing valid came. */
  lemma {:induction false} LastSuccess(frames: seq<Buffer>) returns (i: nat)
    requires JavaOutcome(false, frames)
    ensures i < |frames| && JavaDecode(frames[i]) == Code(ACTION_SUCC)
    ensures forall j :: i < j < |frames| ==> !JavaValid(frames[j])
  {
    var n := |frames| - 1;
    if JavaValid(frames[n]) {
      i := n;
    } else {
      i := LastSuccess(frames[..n]);
    }
  }

  lemma JavaOutcomeIs(frames: seq<Buffer>)
    requires RepliesAndNoise(frames)
    ensures JavaOutcome(false, frames) <==> EndsWithSuccess(frames)
  {
    forall i | 0 <= i < |frames|
      ensures Says(frames[i], ACTION_SUCC) <==> JavaDecode(frames[i]) == Code(ACTION_SUCC)
      ensures Noise(frames[i]) <==> !JavaValid(frames[i])
    {
      SaysSuccess(frames[i]);
    }
    if JavaOutcome(false, frames) {
      var i := LastSuccess(frames);
    }
    if i :| 0 <= i < |frames| && Says(frames[i], ACTION_SUCC) && forall j :: i < j < |frames| ==> Noise(frames[j]) {
      LastValidDecides(false, frames, i);
    }
  }

  /**
   The three outcomes on any sequence of replies and of frames nobody accepts, the empty one included: some success,
   a success in the very first frame, a success as the last reply.
   */
  lemma OutcomesOfAll(frames: seq<Buffer>)
    requires RepliesAndNoise(frames)
    ensures COutcome(frames) <==> exists i :: 0 <= i < |frames| && Says(frames[i], ACTION_SUCC)
    ensures GoOutcome(frames) <==> frames != [] && Says(frames[0], ACTION_SUCC)
    ensures JavaOutcome(false, frames) <==> EndsWithSuccess(frames)
  {
    forall i | 0 <= i < |frames|
      ensures Says(frames[i], ACTION_SUCC) <==> CDecode(frames[i]) == Action(ACTION_SUCC)
      ensures Says(frames[i], ACTION_SUCC) <==> GoCheck(frames[i]) == Accepted(ACTION_SUCC)
    {
      SaysSuccess(frames[i]);
    }
    JavaOutcomeIs(frames);
  }

  /** So they agree exactly when there is no success at all, or both the first frame and the last reply are one. */
  lemma AgreeIff(frames: seq<Buffer>)
    requires RepliesAndNoise(frames)
    ensures COutcome(frames) == GoOutcome(frames) == JavaOutcome(false, frames)
       <==> (frames != [] && Says(frames[0], ACTION_SUCC) && EndsWithSuccess(frames))
            || forall i :: 0 <= i < |frames| ==> !Says(frames[i], ACTION_SUCC)
  {
    OutcomesOfAll(frames);
  }

  /** On valid replies the three outcomes are: some success, the first one, the last one. */
  lemma OutcomesOfReplies(frames: seq<Buffer>)
    requires frames != [] && AllReplies(frames)
    ensures COutcome(frames) <==> exists i :: 0 <= i < |frames| && Says(frames[i], ACTION_SUCC)
    ensures GoOutcome(frames) <==> Says(frames[0], ACTION_SUCC)
    ensures JavaOutcome(false, frames) <==> Says(frames[|frames| - 1], ACTION_SUCC)
  {
    forall i | 0 <= i < |frames|
      ensures JavaValid(frames[i])
      ensures Says(frames[i], ACTION_SUCC) <==> CDecode(frames[i]) == Action(ACTION_SUCC)
      ensures Says(frames[i], ACTION_SUCC) <==> GoCheck(frames[i]) == Accepted(ACTION_SUCC)
      ensures Says(frames[i], ACTION_SUCC) <==> JavaDecode(frames[i]) == Code(ACTION_SUCC)
    {
      SaysIsRead(frames[i], if Says(frames[i], ACTION_SUCC) then ACTION_SUCC else ACTION_FAIL);
    }
    LastValidDecides(false, frames, |frames| - 1);
  }

  /**
   C, Go and a fresh Java client agree on valid replies exactly when the first and the last of them are successes,
   or all of them are failures.
   */
  lemma OutcomesAgreeIff(frames: seq<Buffer>)
    requires frames != [] && AllReplies(frames)
    ensures COutcome(frames) == GoOutcome(frames) == JavaOutcome(false, frames)
       <==> (Says(frames[0], ACTION_SUCC) && Says(frames[|frames| - 1], ACTION_SUCC))
            || forall i :: 0 <= i < |frames| ==> Says(frames[i], ACTION_FAIL)
  {
    OutcomesOfReplies(frames);
    forall i | 0 <= i < |frames| ensures Says(frames[i], ACTION_FAIL) <==> !Says(frames[i], ACTION_SUCC) {
      SaysOne(frames[i]);
    }
  }

  /** In particular they agree when all replies are alike. */
  lemma OutcomesAgree(frames: seq<Buffer>, a: Word16)
    requires a == ACTION_SUCC || a == ACTION_FAIL
    requires frames != [] && forall i :: 0 <= i < |frames| ==> Says(frames[i], a)
    ensures COutcome(frames) == GoOutcome(frames) == JavaOutcome(false, frames) == (a == ACTION_SUCC)
  {
    OutcomesOfReplies(frames);
    SaysOne(frames[0]);
    OutcomesAgreeIff(frames);
  }

  /** With one success and one failure, the order decides in Go and Java, in opposite ways, and not in C. */
  lemma OutcomesDiffer(yes: Buffer, no: Buffer)
    requires Says(yes, ACTION_SUCC) && Says(no, ACTION_FAIL)
    ensures COutcome([yes, no]) && GoOutcome([yes, no]) && !JavaOutcome(false, [yes, no])
    ensures COutcome([no, yes]) && !GoOutcome([no, yes]) && JavaOutcome(false, [no, yes])
  {
    SaysIsRead(yes, ACTION_SUCC);
    SaysIsRead(no, ACTION_FAIL);
    assert [yes, no][0] == yes && [no, yes][1] == yes;
  }
}
