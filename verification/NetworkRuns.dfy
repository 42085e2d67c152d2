/**
 Runs that do happen: a call whose probe and reply get through has the outcome it should, a duplicated datagram
 brings an unregistered service back, and runs that end in undefined behaviour.
 */
module NetworkRuns {
  import opened Types
  import opened Codec
  import opened CDaemon
  import opened Network
  import Registry
  import Lookup
  import Providers
  import Clients

  // ---------- undefined behaviour ----------

  /** The calls made are these. */
  ghost predicate Made(calls: seq<Call>, ops: seq<Request>) {
    |calls| == |ops| && forall c :: 0 <= c < |ops| ==> calls[c].op == ops[c]
  }

  ghost predicate AllCStrings(ops: seq<Request>) {
    forall c :: 0 <= c < |ops| ==> CStrings(ServiceBody(FieldsOf(ops[c])))
  }

  /** All the calls are begun, and nothing else has happened. */
  lemma {:induction false} AllStarted(pf: Platform, n: nat, ops: seq<Request>) returns (s: State)
    requires AllCStrings(ops)
    ensures Reachable(pf, n, s) && Made(s.calls, ops) && !s.late && |s.daemons| == n
    ensures forall c :: 0 <= c < |ops| ==> s.calls[c].running
  {
    if ops == [] {
      s := Init(n);
      assert Reaches(pf, Init(n), [], s);
    } else {
      s := AllStarted(pf, n, ops[..|ops| - 1]);
      s := Then(pf, n, s, Start(ops[|ops| - 1]));
    }
  }

  /** A call that is not harmless needs one probe that is served to leave something undefined. */
  lemma HarmfulFaults(pf: Platform, n: nat, ops: seq<Request>, c: nat) returns (u: State)
    requires Speaks(pf) && n > 0 && AllCStrings(ops) && c < |ops| && !Harmless(pf, ops[c])
    ensures Reachable(pf, n, u) && Made(u.calls, ops) && u.faulty && !u.late
  {
    u := AllStarted(pf, n, ops);
    if !u.faulty {
      ReachableInv(pf, n, u);
      assert CallOk(pf, u, c);
      RequestRead(pf, ops[c]);
      u := Then(pf, n, u, Probe(c, 0));
      u := Then(pf, n, u, Serve(ToDaemon(0, c, RequestFrame(pf, ops[c]))));
    }
  }

  /**
   Given calls can bring about undefined behaviour, without a sweep that outlasts its call, exactly when one of them
   is not harmless: it sends a string of 100 bytes or more, a text that overruns its packet, or one that is accepted
   and fills the packet to the last byte.
   */
  lemma FaultIff(pf: Platform, n: nat, ops: seq<Request>)
    requires Speaks(pf) && n > 0 && AllCStrings(ops)
    ensures (exists u :: Reachable(pf, n, u) && Made(u.calls, ops) && u.faulty && !u.late)
       <==> exists c :: 0 <= c < |ops| && !Harmless(pf, ops[c])
  {
    if c :| 0 <= c < |ops| && !Harmless(pf, ops[c]) {
      var u := HarmfulFaults(pf, n, ops, c);
    } else if u :| Reachable(pf, n, u) && Made(u.calls, ops) && u.faulty && !u.late {
      NeverFaulty(pf, n, u);
    }
  }

  lemma {:induction false} LateHasCall(pf: Platform, s: State, moves: seq<Move>, t: State)
    requires Reaches(pf, s, moves, t) && (s.late ==> s.faulty && s.calls != [])
    ensures t.late ==> t.faulty && t.calls != []
    decreases |moves|
  {
    if moves == [] {
    } else {
      LateHasCall(pf, Apply(pf, s, moves[0]), moves[1..], t);
    }
  }

  /**
   Sweeps that outlast their calls are enough: any call at all can end with its thread sending a packet that has been
   freed, because outside broadcast mode nobody waits for the thread.
   */
  lemma LateIff(pf: Platform, n: nat, ops: seq<Request>)
    requires n > 0 && AllCStrings(ops)
    ensures (exists u :: Reachable(pf, n, u) && Made(u.calls, ops) && u.faulty && u.late) <==> ops != []
  {
    if ops != [] {
      var u := AllStarted(pf, n, ops);
      u := Then(pf, n, u, Return(0));
      u := Then(pf, n, u, Probe(0, 0));
    }
    if u :| Reachable(pf, n, u) && Made(u.calls, ops) && u.faulty && u.late {
      var moves :| Reaches(pf, Init(n), moves, u);
      LateHasCall(pf, Init(n), moves, u);
    }
  }

  // ---------- a whole call ----------

  /** What a call has after reading the reply `r`. */
  function Outcome(op: Request, r: Reply): Call {
    match r
    case Succeeded => Call(op, false, 0, [])
    case NotFound => Call(op, false, -1, [])
    case Found(e) => Call(op, false, -1, [e])
  }

  lemma FirstReplyReceived(pf: Platform, op: Request, r: Reply)
    requires Speaks(pf) && Passes(pf, pf.render(ReplyBody(r))) && (r.Found? ==> Sound(pf, r.entry))
    requires if op.Inquiry? then !r.Succeeded? else !r.Found?
    ensures Network.Receive(pf, Call(op, true, -1, []), ReplyFrame(pf, r)) == Some(Outcome(op, r).(running := true))
  {
    ReceiveReply(pf, Call(op, true, -1, []), r);
    if r.Found? {
      assert Registry.Put([], r.entry) == [r.entry];
    }
  }

  /** Daemon `d` serves the request of call `c` that is in the network. */
  lemma Delivered(pf: Platform, s: State, d: nat, c: nat)
    requires Speaks(pf) && d < |s.daemons| && AllSound(pf, s.daemons[d])
    requires c < |s.calls| && Sendable(pf, s.calls[c].op) && Passes(pf, RequestText(pf, s.calls[c].op))
    ensures var g := ToDaemon(d, c, RequestFrame(pf, s.calls[c].op));
            var t := ServeDatagram(pf, s, g);
            var r := s.calls[c].op;
            var replies := Providers.CReplies(s.daemons[d], r);
            && t.daemons == s.daemons[d := Registry.Step(s.daemons[d], r)]
            && t.calls == s.calls && |t.log| == |s.log| + 1 && t.faulty == s.faulty
            && t.net == s.net + Replies(c, ReplyFrames(pf, replies), |s.log|)
  {
    RequestRead(pf, s.calls[c].op);
    ServeDefined(pf, s.daemons[d], s.calls[c].op);
  }

  /** The frames of all these replies, sent by event `j`, are on their way to socket `c`. */
  ghost predicate AllInFlight(pf: Platform, s: State, c: nat, replies: seq<Reply>, j: nat) {
    forall i :: 0 <= i < |replies| ==> ToClient(c, ReplyFrame(pf, replies[i]), j) in s.net
  }

  /** A call is started and one probe of it reaches daemon `d`. */
  lemma Asked(pf: Platform, n: nat, s: State, d: nat, op: Request) returns (t: State)
    requires Speaks(pf) && Reachable(pf, n, s) && !s.faulty
    requires d < |s.daemons| && AllSound(pf, s.daemons[d])
    requires Sendable(pf, op) && Passes(pf, RequestText(pf, op))
    ensures Reachable(pf, n, t) && !t.faulty
    ensures t.calls == s.calls + [Call(op, true, -1, [])]
    ensures t.daemons == s.daemons[d := Registry.Step(s.daemons[d], op)]
    ensures ToDaemon(d, |s.calls|, RequestFrame(pf, op)) in t.net && s.net <= t.net
    ensures AllInFlight(pf, t, |s.calls|, Providers.CReplies(s.daemons[d], op), |s.log|)
  {
    var c := |s.calls|;
    var replies := Providers.CReplies(s.daemons[d], op);
    t := Then(pf, n, s, Start(op));
    t := Then(pf, n, t, Probe(c, d));
    Delivered(pf, t, d, c);
    t := Then(pf, n, t, Serve(ToDaemon(d, c, RequestFrame(pf, op))));
    forall i | 0 <= i < |replies| ensures ToClient(c, ReplyFrame(pf, replies[i]), |s.log|) in t.net {
      assert ReplyFrames(pf, replies)[i] in ReplyFrames(pf, replies);
    }
  }

  /** The first reply comes back, and the call returns. */
  lemma Answered(pf: Platform, n: nat, s: State, c: nat, op: Request, r: Reply, j: nat) returns (t: State)
    requires Speaks(pf) && Reachable(pf, n, s)
    requires c < |s.calls| && s.calls[c] == Call(op, true, -1, [])
    requires ToClient(c, ReplyFrame(pf, r), j) in s.net && Passes(pf, pf.render(ReplyBody(r)))
    requires (r.Found? ==> Sound(pf, r.entry)) && if op.Inquiry? then !r.Succeeded? else !r.Found?
    ensures Reachable(pf, n, t)
    ensures t == s.(calls := s.calls[c := Outcome(op, r)])
  {
    FirstReplyReceived(pf, op, r);
    t := Then(pf, n, s, ReadReply(ToClient(c, ReplyFrame(pf, r), j)));
    t := Then(pf, n, t, Return(c));
  }

  /** A whole call: it is asked, answered, and has the outcome of the first reply. */
  lemma Exchange(pf: Platform, n: nat, s: State, d: nat, op: Request) returns (t: State)
    requires Speaks(pf) && Reachable(pf, n, s) && !s.faulty && d < |s.daemons|
    requires Sendable(pf, op) && Passes(pf, RequestText(pf, op))
    requires forall r :: r in Providers.CReplies(s.daemons[d], op) ==> Passes(pf, pf.render(ReplyBody(r)))
    ensures Reachable(pf, n, t) && !t.faulty
    ensures var replies := Providers.CReplies(s.daemons[d], op);
            replies != [] && t.calls == s.calls + [Outcome(op, replies[0])]
    ensures t.daemons == s.daemons[d := Registry.Step(s.daemons[d], op)]
    ensures ToDaemon(d, |s.calls|, RequestFrame(pf, op)) in t.net && s.net <= t.net
  {
    ReachableInv(pf, n, s);
    assert DaemonOk(pf, s, d);
    var replies := Providers.CReplies(s.daemons[d], op);
    var u := Asked(pf, n, s, d, op);
    SomeReply(s.daemons[d], op);
    RepliesFromRegistry(s.daemons[d], op, 0);
    t := Answered(pf, n, u, |s.calls|, op, replies[0], |s.log|);
  }

  // ---------- a whole inquiry ----------

  ghost predicate AllDeliverable(pf: Platform, l: seq<ServiceInfo>) {
    forall i :: 0 <= i < |l| ==> Clients.Deliverable(pf, l[i])
  }

  lemma NextRead(pf: Platform, name: Text, answer: seq<ServiceInfo>, i: nat)
    requires Speaks(pf) && i < |answer| && Registry.UniqueKeys(answer) && Clients.Deliverable(pf, answer[i])
    ensures Network.Receive(pf, Call(Inquiry(name), true, -1, answer[..i]), ReplyFrame(pf, Found(answer[i])))
         == Some(Call(Inquiry(name), true, -1, answer[..i + 1]))
  {
    Clients.FoundReceived(pf, Call(Inquiry(name), true, -1, answer[..i]), answer[i]);
    assert answer[..i + 1] == answer[..i] + [answer[i]];
    Clients.UniqueSnoc(answer[..i], answer[i]);
  }

  /** The client reads the replies one after the other. */
  lemma {:induction false} ReadAll(pf: Platform, n: nat, s: State, c: nat, name: Text, answer: seq<ServiceInfo>, i: nat,
                                   j: nat) returns (t: State)
    requires Speaks(pf) && Reachable(pf, n, s) && c < |s.calls| && i <= |answer|
    requires Registry.UniqueKeys(answer) && AllDeliverable(pf, answer)
    requires s.calls[c] == Call(Inquiry(name), true, -1, answer[..i])
    requires AllInFlight(pf, s, c, Providers.FoundAll(answer), j)
    ensures Reachable(pf, n, t)
    ensures t == s.(calls := s.calls[c := Call(Inquiry(name), true, -1, answer)])
    decreases |answer| - i
  {
    if i == |answer| {
      assert answer[..i] == answer;
      t := s;
    } else {
      NextRead(pf, name, answer, i);
      assert Providers.FoundAll(answer)[i] == Found(answer[i]);
      var u := Then(pf, n, s, ReadReply(ToClient(c, ReplyFrame(pf, Found(answer[i])), j)));
      t := ReadAll(pf, n, u, c, name, answer, i + 1, j);
    }
  }

  lemma AnswerDeliverable(pf: Platform, l: seq<ServiceInfo>, name: Text)
    requires AllSound(pf, l) && Registry.UniqueKeys(l) && Lookup.CAnswer(l, name) != []
    requires forall r :: r in Providers.CReplies(l, Inquiry(name)) ==> Passes(pf, pf.render(ReplyBody(r)))
    ensures Providers.CReplies(l, Inquiry(name)) == Providers.FoundAll(Lookup.CAnswer(l, name))
    ensures AllDeliverable(pf, Lookup.CAnswer(l, name)) && Registry.UniqueKeys(Lookup.CAnswer(l, name))
  {
    var a := Lookup.CAnswer(l, name);
    forall i | 0 <= i < |a| ensures Clients.Deliverable(pf, a[i]) {
      var replies := Providers.CReplies(l, Inquiry(name));
      assert a[i] == l[i] && replies[i] == Found(a[i]) && replies[i] in replies;
      assert ReplyBody(replies[i]) == ServiceBody(a[i]);
    }
  }

  lemma RegistryHere(pf: Platform, n: nat, s: State, d: nat)
    requires Speaks(pf) && Reachable(pf, n, s) && !s.faulty && d < |s.daemons|
    ensures AllSound(pf, s.daemons[d]) && Registry.UniqueKeys(s.daemons[d])
  {
    ReachableInv(pf, n, s);
    assert DaemonOk(pf, s, d);
    Registry.RunUnique(History(s.log, d));
  }

  lemma Gathered(pf: Platform, n: nat, s: State, c: nat, name: Text, answer: seq<ServiceInfo>, j: nat)
    returns (t: State)
    requires Speaks(pf) && Reachable(pf, n, s) && c < |s.calls| && s.calls[c] == Call(Inquiry(name), true, -1, [])
    requires Registry.UniqueKeys(answer) && AllDeliverable(pf, answer)
    requires AllInFlight(pf, s, c, Providers.FoundAll(answer), j)
    ensures Reachable(pf, n, t)
    ensures t == s.(calls := s.calls[c := Call(Inquiry(name), false, -1, answer)])
  {
    assert answer[..0] == [];
    var u := ReadAll(pf, n, s, c, name, answer, 0, j);
    t := Then(pf, n, u, Return(c));
  }

  /**
   From every state some run asks one daemon and reads all it sends: the inquiry reports the daemon's whole answer, the
   run of matches at the head of its registry, in order; and nothing if there is none.
   */
  lemma WholeInquiry(pf: Platform, n: nat, s: State, d: nat, name: Text) returns (t: State)
    requires Speaks(pf) && Reachable(pf, n, s) && !s.faulty && d < |s.daemons|
    requires Sendable(pf, Inquiry(name)) && Passes(pf, RequestText(pf, Inquiry(name)))
    requires forall r :: r in Providers.CReplies(s.daemons[d], Inquiry(name)) ==> Passes(pf, pf.render(ReplyBody(r)))
    ensures Reachable(pf, n, t) && !t.faulty && t.daemons == s.daemons
    ensures t.calls == s.calls + [Call(Inquiry(name), false, -1, Lookup.CAnswer(s.daemons[d], name))]
  {
    RegistryHere(pf, n, s, d);
    var answer := Lookup.CAnswer(s.daemons[d], name);
    assert s.daemons[d := s.daemons[d]] == s.daemons;
    if answer == [] {
      t := Exchange(pf, n, s, d, Inquiry(name));
    } else {
      AnswerDeliverable(pf, s.daemons[d], name);
      t := Asked(pf, n, s, d, Inquiry(name));
      t := Gathered(pf, n, t, |s.calls|, name, answer, |s.log|);
    }
  }

  /** And from every state some run loses the datagrams of a call: it fails, or finds nothing, and leaves no trace. */
  lemma Unanswered(pf: Platform, n: nat, s: State, d: nat, op: Request) returns (t: State)
    requires Speaks(pf) && Reachable(pf, n, s) && !s.faulty && d < |s.daemons|
    requires CStrings(ServiceBody(FieldsOf(op))) && Packable(pf, ServiceBody(FieldsOf(op)))
    ensures Reachable(pf, n, t)
    ensures t == s.(calls := s.calls + [Call(op, false, -1, [])])
  {
    var c, g := |s.calls|, ToDaemon(d, |s.calls|, RequestFrame(pf, op));
    ReachableInv(pf, n, s);
    forall h | h in s.net ensures h != g {
      assert DatagramOk(pf, s, h);
    }
    t := Then(pf, n, s, Start(op));
    t := Then(pf, n, t, Probe(c, d));
    t := Then(pf, n, t, Lose(g));
    t := Then(pf, n, t, Return(c));
    assert s.net + {g} - {g} == s.net;
  }

  // ---------- a service that comes back ----------

  lemma OneEntry(e: ServiceInfo)
    ensures Registry.Put([], e) == [e]
    ensures Registry.HasKey([e], e.Key()) && Registry.RemoveKey([e], e.Key()) == []
    ensures Providers.CReplies([e], Inquiry(e.service)) == [Found(e)]
  {
    assert [e][0] == e;
    assert Lookup.CAnswer([e], e.service) == [e] by {
      assert Lookup.CAnswerFrom([e], e.service, 1) == [];
    }
  }

  /** The request, and the texts of the replies to it, are accepted where they arrive. */
  ghost predicate Acceptable(pf: Platform, r: Request) {
    Sendable(pf, r) && Passes(pf, RequestText(pf, r)) && Passes(pf, pf.render(ReasonBody([])))
  }

  /** A register call and an unregister call for the same service, both successful. */
  lemma RegisteredAndRemoved(pf: Platform, e: ServiceInfo) returns (s: State)
    requires Speaks(pf) && Acceptable(pf, Register(e)) && Acceptable(pf, Unregister(e.Key()))
    ensures Reachable(pf, 1, s) && !s.faulty && s.daemons == [[]]
    ensures s.calls == [Call(Register(e), false, 0, []), Call(Unregister(e.Key()), false, 0, [])]
    ensures ToDaemon(0, 0, RequestFrame(pf, Register(e))) in s.net
  {
    OneEntry(e);
    assert Reaches(pf, Init(1), [], Init(1));
    s := Exchange(pf, 1, Init(1), 0, Register(e));
    assert s.daemons == [[e]];
    s := Exchange(pf, 1, s, 0, Unregister(e.Key()));
  }

  /** A copy of the register datagram is served after both calls have returned. */
  lemma BroughtBack(pf: Platform, e: ServiceInfo) returns (s: State)
    requires Speaks(pf) && Acceptable(pf, Register(e)) && Acceptable(pf, Unregister(e.Key()))
    ensures Reachable(pf, 1, s) && !s.faulty && s.daemons == [[e]]
    ensures s.calls == [Call(Register(e), false, 0, []), Call(Unregister(e.Key()), false, 0, [])]
  {
    s := RegisteredAndRemoved(pf, e);
    Delivered(pf, s, 0, 0);
    OneEntry(e);
    s := Then(pf, 1, s, Serve(ToDaemon(0, 0, RequestFrame(pf, Register(e)))));
  }

  /**
   A register call succeeds and returns; then an unregister call of the same service succeeds and returns; then a
   copy of the first datagram arrives. An inquiry started after all that still reports the service.
   */
  lemma Resurrection(pf: Platform, e: ServiceInfo)
    requires Speaks(pf) && Acceptable(pf, Register(e)) && Acceptable(pf, Unregister(e.Key()))
    requires Acceptable(pf, Inquiry(e.service))
    ensures exists t ::
              && Reachable(pf, 1, t)
              && t.calls == [Call(Register(e), false, 0, []), Call(Unregister(e.Key()), false, 0, []),
                             Call(Inquiry(e.service), false, -1, [e])]
  {
    var s := BroughtBack(pf, e);
    OneEntry(e);
    var t := Exchange(pf, 1, s, 0, Inquiry(e.service));
  }

  lemma {:induction false} StillStands(log: seq<Event>, d: nat, e: ServiceInfo, i: nat, j: nat)
    requires i < j <= |log| && log[i].daemon == d && log[i].request == Register(e)
    requires forall m :: i < m < j && log[m].daemon == d ==> !log[m].request.Touches(e.Key())
    ensures e in RegistryAt(log[..j], d)
  {
    assert log[..j] == log[..j - 1] + [log[j - 1]];
    StandsAfter(log[..j - 1], log[j - 1], d, e);
    if i < j - 1 {
      StillStands(log, d, e, i, j - 1);
    }
  }

  /** Event `i` served at daemon `d` a register call for key `k`, and nothing there touched the key before `j`. */
  ghost predicate RegisteredAgain(t: State, d: nat, k: ServiceKey, i: nat, j: nat)
    requires i < j <= |t.log|
  {
    var v := t.log[i];
    && v.daemon == d && v.request.Register? && v.request.Touches(k)
    && v.socket < |t.calls| && t.calls[v.socket].op == v.request
    && forall m :: i < m < j && t.log[m].daemon == d ==> !t.log[m].request.Touches(k)
  }

  /**
   After daemon `d` has served an unregister request for `k`, the key is back at a later time exactly when a
   datagram of some register call for it, new or delayed, was served there in between and nothing touched it since.
   */
  lemma BackAfterUnregister(pf: Platform, n: nat, t: State, d: nat, k: ServiceKey, u: nat, j: nat)
    requires Speaks(pf) && Reachable(pf, n, t) && !t.faulty
    requires u < j <= |t.log| && t.log[u].daemon == d && t.log[u].request == Unregister(k)
    ensures Registry.HasKey(RegistryAt(t.log[..j], d), k)
       <==> exists i :: u < i < j && RegisteredAgain(t, d, k, i, j)
  {
    ReachableInv(pf, n, t);
    var l := RegistryAt(t.log[..j], d);
    if Registry.HasKey(l, k) {
      var p :| 0 <= p < |l| && l[p].Key() == k;
      var i := Origin(t.log[..j], d, l[p]);
      assert EventOk(pf, t.log, t.calls, i);
      assert forall m :: 0 <= m < j ==> t.log[..j][m] == t.log[m];
      assert u < i && RegisteredAgain(t, d, k, i, j);
    }
    if i :| u < i < j && RegisteredAgain(t, d, k, i, j) {
      StillStands(t.log, d, t.log[i].request.entry, i, j);
      var p :| 0 <= p < |l| && l[p] == t.log[i].request.entry;
    }
  }
}
