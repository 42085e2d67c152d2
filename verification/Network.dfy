/**
 Any number of C daemons and clients over a network that loses, duplicates, delays and reorders datagrams but
 does not invent them. The datagrams carry the 1024-byte frames themselves; every call has a socket of its own.
 */
module Network {
  import opened Types
  import opened Codec
  import opened CDaemon
  import Registry
  import Providers

  /** One call of `register_service`, `unregister_service` (result in `ret`) or `inquiry_service` (in `found`). */
  datatype Call = Call(op: Request, running: bool, ret: int, found: seq<ServiceInfo>)

  /** `cause` is the event that sent a reply: a history variable, no step depends on it. */
  datatype Datagram =
    | ToDaemon(daemon: nat, socket: nat, frame: Buffer)
    | ToClient(socket: nat, frame: Buffer, cause: nat)

  /** History variable: a request a daemon served, and the replies it gave. */
  datatype Event = Event(daemon: nat, socket: nat, request: Request, replies: seq<Reply>)

  /**
   `faulty` once some process did what C leaves undefined; `late` if a sweep thread did, by sending the packet of
   a call that had returned, which has been freed by then.
   */
  datatype State = State(
    daemons: seq<seq<ServiceInfo>>, calls: seq<Call>, net: set<Datagram>, log: seq<Event>, faulty: bool, late: bool)

  function Init(n: nat): State {
    State(seq(n, _ => []), [], {}, [], false, false)
  }

  datatype Move =
    | Start(op: Request)
    | Probe(socket: nat, daemon: nat)
    | Serve(request: Datagram)
    | ReadReply(reply: Datagram)
    | Return(socket: nat)
    | Lose(datagram: Datagram)

  ghost predicate Enabled(pf: Platform, s: State, m: Move) {
    match m
    case Start(op) => CStrings(ServiceBody(FieldsOf(op)))
    case Probe(c, d) => c < |s.calls| && d < |s.daemons|
    case Serve(g) => g in s.net && g.ToDaemon? && g.daemon < |s.daemons|
    case ReadReply(g) => g in s.net && g.ToClient? && g.socket < |s.calls| && s.calls[g.socket].running
    case Return(c) => c < |s.calls|
    case Lose(g) => g in s.net
  }

  /** `check_result` of server.c and of client.c on one received frame; `None` where C leaves it undefined. */
  function Receive(pf: Platform, c: Call, buf: Buffer): Option<Call> {
    match CDecode(buf)
    case OutOfBounds => None
    case Rejected => Some(c)
    case Action(code) =>
      if code == ACTION_SUCC then
        if !c.op.Inquiry? then Some(c.(ret := 0))
        else
          match ReadService(pf, buf)
          case Broken => None
          case Unparsed => Some(c)
          case Service(i) => Some(c.(found := Registry.Put(c.found, i)))
      else if code == ACTION_FAIL && CText(buf).None? then None
      else Some(c)
  }

  function Replies(socket: nat, sent: seq<Buffer>, cause: nat): (r: set<Datagram>)
    ensures sent == [] ==> r == {}
  {
    set f | f in sent :: ToClient(socket, f, cause)
  }

  /** A daemon reads a datagram, updates its registry and sends its replies to the datagram's socket. */
  function ServeDatagram(pf: Platform, s: State, g: Datagram): State
    requires g.ToDaemon? && g.daemon < |s.daemons|
  {
    var registry := s.daemons[g.daemon];
    match Handle(pf, registry, g.frame)
    case Undefined => s.(faulty := true)
    case Handled(registry', sent) =>
      s.(daemons := s.daemons[g.daemon := registry'],
         net := s.net + Replies(g.socket, sent, |s.log|),
         log := match Read(pf, g.frame)
                case Asked(r) => s.log + [Event(g.daemon, g.socket, r, Providers.CReplies(registry, r))]
                case _ => s.log)
  }

  function Apply(pf: Platform, s: State, m: Move): State
    requires Enabled(pf, s, m)
  {
    match m
    case Start(op) =>
      s.(calls := s.calls + [Call(op, true, -1, [])],
         faulty := s.faulty || !Packable(pf, ServiceBody(FieldsOf(op))))
    case Probe(c, d) =>
      s.(net := s.net + {ToDaemon(d, c, RequestFrame(pf, s.calls[c].op))},
         faulty := s.faulty || !s.calls[c].running, late := s.late || !s.calls[c].running)
    case Serve(g) => ServeDatagram(pf, s, g)
    case ReadReply(g) =>
      (match Receive(pf, s.calls[g.socket], g.frame)
       case None => s.(faulty := true)
       case Some(c) => s.(calls := s.calls[g.socket := c]))
    case Return(c) => s.(calls := s.calls[c := s.calls[c].(running := false)])
    case Lose(g) => s.(net := s.net - {g})
  }

  /** The states that a sequence of moves goes through. */
  ghost predicate Reaches(pf: Platform, s: State, moves: seq<Move>, t: State)
    decreases |moves|
  {
    if moves == [] then s == t
    else Enabled(pf, s, moves[0]) && Reaches(pf, Apply(pf, s, moves[0]), moves[1..], t)
  }

  // ---------- the log ----------

  /** The requests daemon `d` served, in order. */
  function History(log: seq<Event>, d: nat): seq<Request> {
    if log == [] then []
    else History(log[..|log| - 1], d) + if log[|log| - 1].daemon == d then [log[|log| - 1].request] else []
  }

  function RegistryAt(log: seq<Event>, d: nat): seq<ServiceInfo> {
    Registry.Run(History(log, d))
  }

  lemma RegistryAtSnoc(log: seq<Event>, e: Event, d: nat)
    ensures RegistryAt(log + [e], d)
         == if e.daemon == d then Registry.Step(RegistryAt(log, d), e.request) else RegistryAt(log, d)
  {
    assert (log + [e])[..|log|] == log;
    if e.daemon == d {
      Registry.RunSnoc(History(log, d), e.request);
    } else {
      assert History(log, d) + [] == History(log, d);
    }
  }

  // ---------- the invariant ----------

  /** Each daemon holds what its history determines, and could print it. */
  ghost predicate DaemonOk(pf: Platform, s: State, d: nat)
    requires d < |s.daemons|
  {
    s.daemons[d] == RegistryAt(s.log, d) && AllSound(pf, s.daemons[d])
  }

  /** An event serves the request of its call, and gives the replies of the registry as it was then. */
  ghost predicate EventOk(pf: Platform, log: seq<Event>, calls: seq<Call>, j: nat)
    requires j < |log|
  {
    var e := log[j];
    && e.socket < |calls|
    && Sendable(pf, e.request)
    && e.request == calls[e.socket].op
    && e.replies == Providers.CReplies(RegistryAt(log[..j], e.daemon), e.request)
  }

  ghost predicate DatagramOk(pf: Platform, s: State, g: Datagram) {
    match g
    case ToDaemon(d, c, f) => d < |s.daemons| && c < |s.calls| && f == RequestFrame(pf, s.calls[c].op)
    case ToClient(c, f, j) =>
      j < |s.log| && s.log[j].socket == c && c < |s.calls|
      && exists i :: 0 <= i < |s.log[j].replies| && f == ReplyFrame(pf, s.log[j].replies[i])
  }

  /** Some event served call `c` and replied `r`. */
  ghost predicate Replied(log: seq<Event>, c: nat, r: Reply) {
    exists j :: 0 <= j < |log| && log[j].socket == c && r in log[j].replies
  }

  ghost predicate CallOk(pf: Platform, s: State, c: nat)
    requires c < |s.calls|
  {
    var call := s.calls[c];
    && CStrings(ServiceBody(FieldsOf(call.op))) && Packable(pf, ServiceBody(FieldsOf(call.op)))
    && (call.op.Inquiry? ==> Registry.UniqueKeys(call.found)
                             && forall e :: e in call.found ==> Replied(s.log, c, Found(e)))
    && (!call.op.Inquiry? ==> call.found == [] && (call.ret == -1 || call.ret == 0)
                              && (call.ret == 0 ==> Replied(s.log, c, Succeeded)))
  }

  ghost predicate Inv(pf: Platform, s: State) {
    && !s.faulty
    && (forall d :: 0 <= d < |s.daemons| ==> DaemonOk(pf, s, d))
    && (forall j :: 0 <= j < |s.log| ==> EventOk(pf, s.log, s.calls, j))
    && (forall g :: g in s.net ==> DatagramOk(pf, s, g))
    && (forall c :: 0 <= c < |s.calls| ==> CallOk(pf, s, c))
  }

  lemma InitInv(pf: Platform, n: nat)
    ensures Inv(pf, Init(n))
  {
  }

  // ---------- what every move keeps ----------

  /** The flags are never reset, the daemons stay, calls keep their requests, and the log only grows. */
  lemma ApplyFrame(pf: Platform, s: State, m: Move)
    requires Enabled(pf, s, m)
    ensures var t := Apply(pf, s, m);
            && (s.faulty ==> t.faulty) && (s.late ==> t.late)
            && |t.daemons| == |s.daemons| && |s.calls| <= |t.calls| && s.log <= t.log
            && forall c :: 0 <= c < |s.calls| ==> t.calls[c].op == s.calls[c].op
  {
  }

  lemma StartKeeps(pf: Platform, s: State, op: Request)
    requires Inv(pf, s) && Enabled(pf, s, Start(op)) && !Apply(pf, s, Start(op)).faulty
    ensures Inv(pf, Apply(pf, s, Start(op)))
  {
    var t := Apply(pf, s, Start(op));
    forall j | 0 <= j < |t.log| ensures EventOk(pf, t.log, t.calls, j) {
      assert EventOk(pf, s.log, s.calls, j);
    }
    forall g | g in t.net ensures DatagramOk(pf, t, g) {
      assert DatagramOk(pf, s, g);
    }
    forall c | 0 <= c < |t.calls| ensures CallOk(pf, t, c) {
      assert c < |s.calls| ==> CallOk(pf, s, c);
    }
    forall d | 0 <= d < |t.daemons| ensures DaemonOk(pf, t, d) {
      assert DaemonOk(pf, s, d);
    }
  }

  /** Changing the set of datagrams to good ones keeps everything else. */
  lemma NetKeeps(pf: Platform, s: State, net: set<Datagram>)
    requires Inv(pf, s)
    requires forall g :: g in net ==> DatagramOk(pf, s, g)
    ensures Inv(pf, s.(net := net))
  {
    var t := s.(net := net);
    forall g | g in t.net ensures DatagramOk(pf, t, g) {
      assert DatagramOk(pf, s, g);
    }
    forall c | 0 <= c < |t.calls| ensures CallOk(pf, t, c) {
      assert CallOk(pf, s, c);
    }
    forall d | 0 <= d < |t.daemons| ensures DaemonOk(pf, t, d) {
      assert DaemonOk(pf, s, d);
    }
    forall j | 0 <= j < |t.log| ensures EventOk(pf, t.log, t.calls, j) {
      assert EventOk(pf, s.log, s.calls, j);
    }
  }

  /** Replacing one call by a good one with the same request keeps everything else. */
  lemma CallKeeps(pf: Platform, s: State, c: nat, call: Call)
    requires Inv(pf, s) && c < |s.calls| && call.op == s.calls[c].op
    requires CallOk(pf, s.(calls := s.calls[c := call]), c)
    ensures Inv(pf, s.(calls := s.calls[c := call]))
  {
    var t := s.(calls := s.calls[c := call]);
    forall j | 0 <= j < |t.log| ensures EventOk(pf, t.log, t.calls, j) {
      assert EventOk(pf, s.log, s.calls, j);
    }
    forall g | g in t.net ensures DatagramOk(pf, t, g) {
      assert DatagramOk(pf, s, g);
    }
    forall i | 0 <= i < |t.calls| ensures CallOk(pf, t, i) {
      assert CallOk(pf, s, i);
    }
    forall d | 0 <= d < |t.daemons| ensures DaemonOk(pf, t, d) {
      assert DaemonOk(pf, s, d);
    }
  }

  // ---------- a daemon serves a request ----------

  lemma RepliesFromRegistry(l: seq<ServiceInfo>, r: Request, i: nat)
    requires i < |Providers.CReplies(l, r)|
    ensures var reply := Providers.CReplies(l, r)[i];
            && (r.Inquiry? ==> !reply.Succeeded?)
            && (!r.Inquiry? ==> !reply.Found?)
            && (reply.Found? ==> reply.entry in l && r.Inquiry? && reply.entry.service == r.name)
  {
  }

  lemma RepliedGrows(log: seq<Event>, e: Event, c: nat)
    ensures forall r :: Replied(log, c, r) ==> Replied(log + [e], c, r)
  {
    forall r | Replied(log, c, r) ensures Replied(log + [e], c, r) {
      var j :| 0 <= j < |log| && log[j].socket == c && r in log[j].replies;
      assert (log + [e])[j] == log[j];
    }
  }

  /** The state after daemon `d` has served the request of call `c`, before its replies are in the network. */
  function Logged(s: State, d: nat, c: nat): State
    requires d < |s.daemons| && c < |s.calls|
  {
    var r, registry := s.calls[c].op, s.daemons[d];
    s.(daemons := s.daemons[d := Registry.Step(registry, r)],
       log := s.log + [Event(d, c, r, Providers.CReplies(registry, r))])
  }

  lemma LoggedEvent(pf: Platform, s: State, d: nat, c: nat, j: nat)
    requires Inv(pf, s) && d < |s.daemons| && c < |s.calls| && Sendable(pf, s.calls[c].op) && j <= |s.log|
    ensures var t := Logged(s, d, c); EventOk(pf, t.log, t.calls, j)
  {
    var t := Logged(s, d, c);
    assert j < |s.log| ==> EventOk(pf, s.log, s.calls, j);
    assert t.log[..j] == s.log[..j];
    if j == |s.log| {
      assert s.log[..j] == s.log && DaemonOk(pf, s, d);
    }
  }

  lemma LogKeeps(pf: Platform, s: State, d: nat, c: nat)
    requires Inv(pf, s) && d < |s.daemons| && c < |s.calls| && Sendable(pf, s.calls[c].op)
    ensures Inv(pf, Logged(s, d, c))
  {
    var t := Logged(s, d, c);
    var e := t.log[|s.log|];
    forall d' | 0 <= d' < |t.daemons| ensures DaemonOk(pf, t, d') {
      assert DaemonOk(pf, s, d') && DaemonOk(pf, s, d);
      RegistryAtSnoc(s.log, e, d');
      StepKeepsSound(pf, s.daemons[d], s.calls[c].op);
    }
    forall j | 0 <= j < |t.log| ensures EventOk(pf, t.log, t.calls, j) {
      LoggedEvent(pf, s, d, c, j);
    }
    forall g | g in t.net ensures DatagramOk(pf, t, g) {
      assert DatagramOk(pf, s, g);
    }
    forall i | 0 <= i < |t.calls| ensures CallOk(pf, t, i) {
      assert CallOk(pf, s, i);
      RepliedGrows(s.log, e, i);
    }
  }

  lemma RepliesOk(pf: Platform, t: State, socket: nat, j: nat)
    requires j < |t.log| && t.log[j].socket == socket && socket < |t.calls|
    ensures forall h :: h in Replies(socket, ReplyFrames(pf, t.log[j].replies), j) ==> DatagramOk(pf, t, h)
  {
    var sent := ReplyFrames(pf, t.log[j].replies);
    forall h | h in Replies(socket, sent, j) ensures DatagramOk(pf, t, h) {
      var i :| 0 <= i < |sent| && h == ToClient(socket, sent[i], j);
      assert h.frame == ReplyFrame(pf, t.log[j].replies[i]);
    }
  }

  /** A datagram to a daemon that is not parsed beyond its buffer leaves nothing undefined. */
  lemma ServeKeeps(pf: Platform, s: State, g: Datagram)
    requires Speaks(pf) && Inv(pf, s) && g in s.net && g.ToDaemon? && g.daemon < |s.daemons|
    ensures ServeDatagram(pf, s, g).faulty <==> Read(pf, g.frame).Faulty?
    ensures !ServeDatagram(pf, s, g).faulty ==> Inv(pf, ServeDatagram(pf, s, g))
  {
    assert DatagramOk(pf, s, g) && CallOk(pf, s, g.socket);
    var op := s.calls[g.socket].op;
    RequestRead(pf, op);
    if Read(pf, g.frame).Asked? {
      assert DaemonOk(pf, s, g.daemon);
      LogKeeps(pf, s, g.daemon, g.socket);
      ServeDefined(pf, s.daemons[g.daemon], op);
      var t := Logged(s, g.daemon, g.socket);
      var sent := ReplyFrames(pf, t.log[|s.log|].replies);
      var net := s.net + Replies(g.socket, sent, |s.log|);
      RepliesOk(pf, t, g.socket, |s.log|);
      NetKeeps(pf, t, net);
      assert ServeDatagram(pf, s, g) == t.(net := net);
    } else if Read(pf, g.frame).Ignored? {
      assert s.daemons[g.daemon := s.daemons[g.daemon]] == s.daemons;
      assert s.net + Replies(g.socket, [], |s.log|) == s.net;
      assert ServeDatagram(pf, s, g) == s;
    }
  }

  /** A daemon that serves a request adds exactly the replies it owes to the network. */
  lemma RepliesInFlight(pf: Platform, s: State, g: Datagram, h: Datagram)
    requires g.ToDaemon? && g.daemon < |s.daemons| && Read(pf, g.frame).Asked?
    requires Handle(pf, s.daemons[g.daemon], g.frame).Handled?
    ensures var owed := Providers.CReplies(s.daemons[g.daemon], Read(pf, g.frame).request);
            h in ServeDatagram(pf, s, g).net <==>
            h in s.net
            || exists i :: 0 <= i < |owed| && h == ToClient(g.socket, ReplyFrame(pf, owed[i]), |s.log|)
  {
    var owed := Providers.CReplies(s.daemons[g.daemon], Read(pf, g.frame).request);
    var sent := ReplyFrames(pf, owed);
    if i :| 0 <= i < |owed| && h == ToClient(g.socket, ReplyFrame(pf, owed[i]), |s.log|) {
      assert sent[i] in sent;
    }
  }

  /** Where a client reads a frame into undefined behaviour, and what else it makes of it. */
  lemma ReceiveMeans(pf: Platform, c: Call, buf: Buffer)
    ensures Receive(pf, c, buf).None? <==>
            CDecode(buf) == OutOfBounds
            || (CDecode(buf) == Action(ACTION_FAIL) && 0 !in buf[HEAD_LEN..])
            || (CDecode(buf) == Action(ACTION_SUCC) && c.op.Inquiry?
                && (0 !in buf[HEAD_LEN..] || ReadReason(pf, buf).Some?))
    ensures Receive(pf, c, buf).Some? && CDecode(buf) != Action(ACTION_SUCC) ==> Receive(pf, c, buf) == Some(c)
  {
    var text := UpToNul(buf[HEAD_LEN..]);
    assert |text| == ROOM ==> text == buf[HEAD_LEN..];
    assert |text| < ROOM ==> buf[HEAD_LEN..][|text|] == 0;
  }

  // ---------- a client reads a reply ----------

  /** An entry stands after an event that concerns it iff the event registered it, and else iff it stood before. */
  lemma StandsAfter(log: seq<Event>, v: Event, d: nat, e: ServiceInfo)
    ensures e in RegistryAt(log + [v], d) <==>
            if v.daemon == d && v.request.Touches(e.Key()) then v.request == Register(e) else e in RegistryAt(log, d)
  {
    RegistryAtSnoc(log, v, d);
    Registry.RunUnique(History(log, d));
    if v.daemon == d {
      Registry.StepMembers(RegistryAt(log, d), v.request, e);
    }
  }

  /** The event that registered an entry still standing at the end of the log. */
  lemma {:induction false} Origin(log: seq<Event>, d: nat, e: ServiceInfo) returns (i: nat)
    requires e in RegistryAt(log, d)
    ensures i < |log| && log[i].daemon == d && log[i].request == Register(e)
    ensures forall k :: i < k < |log| && log[k].daemon == d ==> !log[k].request.Touches(e.Key())
  {
    var g, v := log[..|log| - 1], log[|log| - 1];
    assert log == g + [v];
    StandsAfter(g, v, d, e);
    if v.daemon == d && v.request.Touches(e.Key()) {
      i := |g|;
    } else {
      i := Origin(g, d, e);
    }
  }

  /** What stood in a registry at any time was registered by a request that a daemon could serve. */
  lemma StoodSound(pf: Platform, s: State, j: nat, d: nat, e: ServiceInfo)
    requires Inv(pf, s) && j <= |s.log| && e in RegistryAt(s.log[..j], d)
    ensures Sound(pf, e)
  {
    var i := Origin(s.log[..j], d, e);
    assert EventOk(pf, s.log, s.calls, i);
    assert s.log[i].request == Register(e);
  }

  /** What a call makes of the frame of a reply. */
  lemma ReceiveReply(pf: Platform, c: Call, r: Reply)
    requires Speaks(pf) && (r.Found? ==> Sound(pf, r.entry)) && (c.op.Inquiry? ==> !r.Succeeded?)
    ensures Receive(pf, c, ReplyFrame(pf, r)) == Some(
              if !Passes(pf, pf.render(ReplyBody(r))) || r.NotFound? then c
              else if !c.op.Inquiry? then c.(ret := 0)
              else c.(found := Registry.Put(c.found, r.entry)))
  {
    var text := pf.render(ReplyBody(r));
    Acceptance(pf.signedChar, ReplyAction(r), text);
    CTextRecovered(pf.signedChar, ReplyAction(r), text);
    if r.Found? {
      ServiceRead(pf, pf.signedChar, ACTION_SUCC, r.entry);
    }
  }

  /** The reply in a datagram to a client. */
  lemma ReplyIn(pf: Platform, s: State, g: Datagram) returns (r: Reply)
    requires Inv(pf, s) && g in s.net && g.ToClient?
    ensures g.socket < |s.calls| && g.frame == ReplyFrame(pf, r) && Replied(s.log, g.socket, r)
    ensures if s.calls[g.socket].op.Inquiry? then !r.Succeeded? else !r.Found?
    ensures r.Found? ==> Sound(pf, r.entry)
  {
    assert DatagramOk(pf, s, g) && EventOk(pf, s.log, s.calls, g.cause);
    var e := s.log[g.cause];
    var i :| 0 <= i < |e.replies| && g.frame == ReplyFrame(pf, e.replies[i]);
    r := e.replies[i];
    RepliesFromRegistry(RegistryAt(s.log[..g.cause], e.daemon), e.request, i);
    if r.Found? {
      StoodSound(pf, s, g.cause, e.daemon, r.entry);
    }
  }

  lemma FoundKeeps(log: seq<Event>, c: nat, found: seq<ServiceInfo>, entry: ServiceInfo)
    requires Registry.UniqueKeys(found) && Replied(log, c, Found(entry))
    requires forall e :: e in found ==> Replied(log, c, Found(e))
    ensures Registry.UniqueKeys(Registry.Put(found, entry))
    ensures forall e :: e in Registry.Put(found, entry) ==> Replied(log, c, Found(e))
  {
    Registry.StepKeepsUnique(found, Register(entry));
  }

  lemma ReadKeeps(pf: Platform, s: State, g: Datagram)
    requires Speaks(pf) && Inv(pf, s) && Enabled(pf, s, ReadReply(g))
    ensures Inv(pf, Apply(pf, s, ReadReply(g)))
  {
    var c, call := g.socket, s.calls[g.socket];
    var r := ReplyIn(pf, s, g);
    ReceiveReply(pf, call, r);
    var call' := Receive(pf, call, g.frame).value;
    assert CallOk(pf, s.(calls := s.calls[c := call']), c) by {
      assert CallOk(pf, s, c);
      if r.Found? {
        FoundKeeps(s.log, c, call.found, r.entry);
      }
    }
    CallKeeps(pf, s, c, call');
  }

  // ---------- runs ----------

  lemma ApplyKeeps(pf: Platform, s: State, m: Move)
    requires Speaks(pf) && Inv(pf, s) && Enabled(pf, s, m) && !Apply(pf, s, m).faulty
    ensures Inv(pf, Apply(pf, s, m))
  {
    match m
    case Start(op) => StartKeeps(pf, s, op);
    case Probe(c, d) =>
      assert forall g :: g in s.net ==> DatagramOk(pf, s, g);
      NetKeeps(pf, s, s.net + {ToDaemon(d, c, RequestFrame(pf, s.calls[c].op))});
      assert s.calls[c].running;
    case Serve(g) => ServeKeeps(pf, s, g);
    case ReadReply(g) => ReadKeeps(pf, s, g);
    case Return(c) =>
      assert CallOk(pf, s, c);
      CallKeeps(pf, s, c, s.calls[c].(running := false));
    case Lose(g) => NetKeeps(pf, s, s.net - {g});
  }

  lemma {:induction false} RunFrame(pf: Platform, s: State, moves: seq<Move>, t: State)
    requires Reaches(pf, s, moves, t)
    ensures (s.faulty ==> t.faulty) && (s.late ==> t.late)
    ensures |t.daemons| == |s.daemons| && |s.calls| <= |t.calls| && s.log <= t.log
    ensures forall c :: 0 <= c < |s.calls| ==> t.calls[c].op == s.calls[c].op
    decreases |moves|
  {
    if moves == [] {
    } else {
      ApplyFrame(pf, s, moves[0]);
      RunFrame(pf, Apply(pf, s, moves[0]), moves[1..], t);
    }
  }

  lemma {:induction false} RunKeeps(pf: Platform, s: State, moves: seq<Move>, t: State)
    requires Speaks(pf) && Inv(pf, s) && Reaches(pf, s, moves, t) && !t.faulty
    ensures Inv(pf, t)
    decreases |moves|
  {
    if moves == [] {
    } else {
      var u := Apply(pf, s, moves[0]);
      RunFrame(pf, u, moves[1..], t);
      ApplyKeeps(pf, s, moves[0]);
      RunKeeps(pf, u, moves[1..], t);
    }
  }

  /** The states of all runs that begin with `n` empty daemons. */
  ghost predicate Reachable(pf: Platform, n: nat, t: State) {
    exists moves :: Reaches(pf, Init(n), moves, t)
  }

  lemma ReachableInv(pf: Platform, n: nat, t: State)
    requires Speaks(pf) && Reachable(pf, n, t) && !t.faulty
    ensures Inv(pf, t) && |t.daemons| == n
  {
    var moves :| Reaches(pf, Init(n), moves, t);
    InitInv(pf, n);
    RunKeeps(pf, Init(n), moves, t);
    RunFrame(pf, Init(n), moves, t);
  }

  ghost predicate AllHarmless(pf: Platform, calls: seq<Call>) {
    forall c :: 0 <= c < |calls| ==> Harmless(pf, calls[c].op)
  }

  lemma HarmlessMove(pf: Platform, s: State, m: Move)
    requires Speaks(pf) && Inv(pf, s) && Enabled(pf, s, m)
    requires AllHarmless(pf, Apply(pf, s, m).calls) && !Apply(pf, s, m).late
    ensures !Apply(pf, s, m).faulty
  {
    match m
    case Start(op) =>
      assert Apply(pf, s, m).calls[|s.calls|].op == op;
    case Serve(g) =>
      assert DatagramOk(pf, s, g) && CallOk(pf, s, g.socket);
      ApplyFrame(pf, s, m);
      RequestRead(pf, s.calls[g.socket].op);
      ServeKeeps(pf, s, g);
    case ReadReply(g) => ReadKeeps(pf, s, g);
    case _ =>
  }

  lemma {:induction false} HarmlessRun(pf: Platform, s: State, moves: seq<Move>, t: State)
    requires Speaks(pf) && Inv(pf, s) && Reaches(pf, s, moves, t) && AllHarmless(pf, t.calls) && !t.late
    ensures !t.faulty
    decreases |moves|
  {
    if moves == [] {
    } else {
      var u := Apply(pf, s, moves[0]);
      RunFrame(pf, u, moves[1..], t);
      assert AllHarmless(pf, u.calls) by {
        assert forall c :: 0 <= c < |u.calls| ==> u.calls[c].op == t.calls[c].op;
      }
      HarmlessMove(pf, s, moves[0]);
      ApplyKeeps(pf, s, moves[0]);
      HarmlessRun(pf, u, moves[1..], t);
    }
  }

  /**
   In a run of harmless calls whose sweeps end before the calls return, no daemon or client does what C leaves
   undefined. `NetworkRuns.FaultIff` and `NetworkRuns.LateIff` show that neither condition can be spared.
   */
  lemma NeverFaulty(pf: Platform, n: nat, t: State)
    requires Speaks(pf) && Reachable(pf, n, t) && AllHarmless(pf, t.calls) && !t.late
    ensures !t.faulty
  {
    var moves :| Reaches(pf, Init(n), moves, t);
    InitInv(pf, n);
    HarmlessRun(pf, Init(n), moves, t);
  }

  /** Event `i` registered `e` at the daemon of event `j`, and nothing there touched its key in between. */
  ghost predicate CurrentAt(log: seq<Event>, i: nat, j: nat, e: ServiceInfo)
    requires i < j < |log|
  {
    && log[i].daemon == log[j].daemon
    && log[i].request == Register(e)
    && forall k :: i < k < j && log[k].daemon == log[j].daemon ==> !log[k].request.Touches(e.Key())
  }

  lemma FoundStood(pf: Platform, t: State, j: nat, e: ServiceInfo)
    requires j < |t.log| && EventOk(pf, t.log, t.calls, j) && Found(e) in t.log[j].replies
    ensures e in RegistryAt(t.log[..j], t.log[j].daemon)
    ensures t.log[j].request.Inquiry? && e.service == t.log[j].request.name
  {
    var k :| 0 <= k < |t.log[j].replies| && t.log[j].replies[k] == Found(e);
    RepliesFromRegistry(RegistryAt(t.log[..j], t.log[j].daemon), t.log[j].request, k);
  }

  /**
   Every service an inquiry reports has the name asked for, and was current at the daemon that answered, when it
   answered: a register call with the same five fields was served there before, and no later request about its
   key before the answer.
   */
  lemma ReportedWasRegistered(pf: Platform, n: nat, t: State, c: nat, e: ServiceInfo)
    requires Speaks(pf) && Reachable(pf, n, t) && !t.faulty
    requires c < |t.calls| && t.calls[c].op.Inquiry? && e in t.calls[c].found
    ensures e.service == t.calls[c].op.name
    ensures exists i, j :: 0 <= i < j < |t.log| && t.log[j].socket == c && CurrentAt(t.log, i, j, e)
              && t.log[i].socket < |t.calls| && t.calls[t.log[i].socket].op == Register(e)
  {
    ReachableInv(pf, n, t);
    assert CallOk(pf, t, c);
    var j :| 0 <= j < |t.log| && t.log[j].socket == c && Found(e) in t.log[j].replies;
    FoundStood(pf, t, j, e);
    var i := Origin(t.log[..j], t.log[j].daemon, e);
    assert EventOk(pf, t.log, t.calls, i);
    assert CurrentAt(t.log, i, j, e) by {
      assert forall k :: 0 <= k < j ==> t.log[..j][k] == t.log[k];
    }
  }

  /** What a request answered with success does to a registry. */
  ghost predicate TakesEffect(before: seq<ServiceInfo>, r: Request, after: seq<ServiceInfo>) {
    match r
    case Register(e) => e in after
    case Unregister(k) => Registry.HasKey(before, k) && !Registry.HasKey(after, k)
    case Inquiry(_) => false
  }

  ghost predicate Effective(log: seq<Event>, j: nat)
    requires j < |log|
  {
    TakesEffect(RegistryAt(log[..j], log[j].daemon), log[j].request, RegistryAt(log[..j + 1], log[j].daemon))
  }

  lemma StepTakesEffect(l: seq<ServiceInfo>, r: Request)
    requires Registry.UniqueKeys(l) && Succeeded in Providers.CReplies(l, r)
    ensures TakesEffect(l, r, Registry.Step(l, r))
  {
    match r
    case Unregister(k) => Registry.RemoveKeyKeepsUnique(l, k);
    case _ =>
  }

  lemma SuccessEffect(pf: Platform, t: State, j: nat)
    requires j < |t.log| && EventOk(pf, t.log, t.calls, j) && Succeeded in t.log[j].replies
    ensures Effective(t.log, j)
  {
    var v, g := t.log[j], t.log[..j];
    assert t.log[..j + 1] == g + [v];
    RegistryAtSnoc(g, v, v.daemon);
    Registry.RunUnique(History(g, v.daemon));
    StepTakesEffect(RegistryAt(g, v.daemon), v.request);
  }

  /**
   A register or unregister call returns 0 only if a daemon served that very call with success: the entry
   stood there afterwards, or the key was there before.
   */
  lemma SuccessWasServed(pf: Platform, n: nat, t: State, c: nat)
    requires Speaks(pf) && Reachable(pf, n, t) && !t.faulty
    requires c < |t.calls| && !t.calls[c].op.Inquiry? && t.calls[c].ret == 0
    ensures exists j :: 0 <= j < |t.log| && t.log[j].socket == c
              && t.log[j].request == t.calls[c].op && Effective(t.log, j)
  {
    ReachableInv(pf, n, t);
    assert CallOk(pf, t, c);
    var j :| 0 <= j < |t.log| && t.log[j].socket == c && Succeeded in t.log[j].replies;
    assert EventOk(pf, t.log, t.calls, j);
    SuccessEffect(pf, t, j);
  }

  // ---------- calls begun later ----------

  lemma {:induction false} ReachesSnoc(pf: Platform, s: State, moves: seq<Move>, t: State, m: Move)
    requires Reaches(pf, s, moves, t) && Enabled(pf, t, m)
    ensures Reaches(pf, s, moves + [m], Apply(pf, t, m))
    decreases |moves|
  {
    if moves == [] {
      assert [m][1..] == [];
      assert moves + [m] == [m];
    } else {
      ReachesSnoc(pf, Apply(pf, s, moves[0]), moves[1..], t, m);
      assert (moves + [m])[1..] == moves[1..] + [m];
    }
  }

  lemma Then(pf: Platform, n: nat, s: State, m: Move) returns (t: State)
    requires Reachable(pf, n, s) && Enabled(pf, s, m)
    ensures t == Apply(pf, s, m) && Reachable(pf, n, t)
  {
    var moves :| Reaches(pf, Init(n), moves, s);
    t := Apply(pf, s, m);
    ReachesSnoc(pf, Init(n), moves, s, m);
  }

  lemma {:induction false} ReachableOn(pf: Platform, n: nat, s: State, moves: seq<Move>, t: State)
    requires Reachable(pf, n, s) && Reaches(pf, s, moves, t)
    ensures Reachable(pf, n, t)
    decreases |moves|
  {
    if moves == [] {
      assert s == t;
    } else {
      var u := Then(pf, n, s, moves[0]);
      ReachableOn(pf, n, u, moves[1..], t);
    }
  }

  /** An event that serves a call begun in `s` or later is not in the log of `s`. */
  lemma ServedSince(pf: Platform, n: nat, s: State, moves: seq<Move>, t: State, j: nat)
    requires Speaks(pf) && Reachable(pf, n, s) && Reaches(pf, s, moves, t) && !t.faulty
    requires j < |t.log| && |s.calls| <= t.log[j].socket
    ensures |s.log| <= j && s.log <= t.log
  {
    RunFrame(pf, s, moves, t);
    ReachableInv(pf, n, s);
    forall k | 0 <= k < |s.log| ensures t.log[k].socket < |s.calls| {
      assert EventOk(pf, s.log, s.calls, k) && s.log[k] == t.log[k];
    }
  }

  /** Every unregister request for the key in the log of the daemon came before position `i`. */
  ghost predicate RegisteredAfter(log: seq<Event>, daemon: nat, k: ServiceKey, i: nat) {
    forall u :: 0 <= u < |log| && log[u].daemon == daemon && log[u].request == Unregister(k) ==> u < i
  }

  lemma LatestWord(g: seq<Event>, log: seq<Event>, i: nat, j: nat, e: ServiceInfo)
    requires g <= log && i < j < |log| && |g| <= j && CurrentAt(log, i, j, e)
    ensures RegisteredAfter(g, log[j].daemon, e.Key(), i)
  {
    forall u | 0 <= u < |g| && g[u].daemon == log[j].daemon && g[u].request == Unregister(e.Key())
      ensures u < i
    {
      assert log[u] == g[u] && log[i].request == Register(e);
    }
  }

  /**
   What an inquiry begun in `s` or later reports was answered after `s`; and if the daemon that answered had served
   an unregister request for the key before, a register call for it was served there after that.
   */
  lemma ReportedSince(pf: Platform, n: nat, s: State, moves: seq<Move>, t: State, c: nat, e: ServiceInfo)
    requires Speaks(pf) && Reachable(pf, n, s) && Reaches(pf, s, moves, t) && !t.faulty
    requires |s.calls| <= c < |t.calls| && t.calls[c].op.Inquiry? && e in t.calls[c].found
    ensures exists i, j :: 0 <= i < j < |t.log| && |s.log| <= j && t.log[j].socket == c && CurrentAt(t.log, i, j, e)
              && RegisteredAfter(s.log, t.log[j].daemon, e.Key(), i)
  {
    ReachableOn(pf, n, s, moves, t);
    ReportedWasRegistered(pf, n, t, c, e);
    var i, j :| 0 <= i < j < |t.log| && t.log[j].socket == c && CurrentAt(t.log, i, j, e);
    ServedSince(pf, n, s, moves, t, j);
    LatestWord(s.log, t.log, i, j, e);
  }

  /** A success of a call begun in `s` or later was served after `s`. */
  lemma SuccessSince(pf: Platform, n: nat, s: State, moves: seq<Move>, t: State, c: nat)
    requires Speaks(pf) && Reachable(pf, n, s) && Reaches(pf, s, moves, t) && !t.faulty
    requires |s.calls| <= c < |t.calls| && !t.calls[c].op.Inquiry? && t.calls[c].ret == 0
    ensures exists j :: |s.log| <= j < |t.log| && t.log[j].socket == c
              && t.log[j].request == t.calls[c].op && Effective(t.log, j)
  {
    ReachableOn(pf, n, s, moves, t);
    SuccessWasServed(pf, n, t, c);
    var j :| 0 <= j < |t.log| && t.log[j].socket == c && t.log[j].request == t.calls[c].op && Effective(t.log, j);
    ServedSince(pf, n, s, moves, t, j);
  }
}
