/**
 The Go client: a reader and the sweeper it spawns share the flag `recEnd` and a quit channel of capacity 1.
 Every step of either is one move; any interleaving of any number of successive calls is a run.
 */
module Handshake {

  const LAST_ADDR: nat := 254
  const CAPACITY: nat := 1

  /** GetInquiryResult keeps reading while replies are good; GetResult reads once. */
  datatype Kind = Client | Server

  datatype Reader =
    | Idle
    | AtClear                 // about to run recEnd = false
    | AtRead
    | AtSetEnd(again: bool)   // a read has returned; `again` when the loop will go round
    | AtWait                  // about to receive from the quit channel

  datatype Place = AtReset | AtCheck | AtPrepare | AtWrite | AtSend | Gone

  /** What was true when a sweeper saw `recEnd` set: this call had cleared it, a read of this call had returned. */
  datatype Saw = NotSeen | Seen(cleared: bool, readReturned: bool)

  /** One goroutine running UDPBroadcastData; `probed` are the last octets it has written to. */
  datatype Sweeper = Sweeper(at: Place, finish: bool, probed: seq<nat>, saw: Saw)

  datatype State = State(
    kind: Kind,
    reader: Reader,
    recEnd: bool,
    subIP: nat,
    dstAddr: nat,
    tokens: nat,              // in the channel
    sweepers: seq<Sweeper>,   // one for each call made so far
    replies: nat,             // still to arrive during the current call
    // history of the current call, and of all calls
    cleared: bool,
    readReturned: bool,
    sent: nat,
    received: nat)

  function Init(kind: Kind): State {
    State(kind, Idle, false, 1, 0, 0, [], 0, false, false, 0, 0)
  }

  /** Moves of the reader, and of sweeper `i`. `Call(n)` begins a call during which `n` replies arrive. */
  datatype Move =
    | Call(n: nat) | Clear | TimeOut | ReadReply(good: bool) | SetEnd | Receive
    | Reset(i: nat) | Check(i: nat) | Prepare(i: nat) | Write(i: nat) | Send(i: nat)

  predicate SweeperAt(s: State, i: nat, p: Place) {
    i < |s.sweepers| && s.sweepers[i].at == p
  }

  /** A receive needs a token, a send needs room; everything else is only a matter of place. */
  predicate Enabled(s: State, m: Move) {
    match m
    case Call(_) => s.reader.Idle?
    case Clear => s.reader.AtClear?
    case TimeOut => s.reader.AtRead?
    case ReadReply(_) => s.reader.AtRead? && s.replies > 0
    case SetEnd => s.reader.AtSetEnd?
    case Receive => s.reader.AtWait? && s.tokens > 0
    case Reset(i) => SweeperAt(s, i, AtReset)
    case Check(i) => SweeperAt(s, i, AtCheck)
    case Prepare(i) => SweeperAt(s, i, AtPrepare)
    case Write(i) => SweeperAt(s, i, AtWrite)
    case Send(i) => SweeperAt(s, i, AtSend) && s.tokens < CAPACITY
  }

  function WithSweeper(s: State, i: nat, w: Sweeper): State
    requires i < |s.sweepers|
  {
    s.(sweepers := s.sweepers[i := w])
  }

  function Apply(s: State, m: Move): State
    requires Enabled(s, m)
  {
    match m
    case Call(n) =>
      s.(reader := AtClear, sweepers := s.sweepers + [Sweeper(AtReset, false, [], NotSeen)],
         replies := n, cleared := false, readReturned := false)
    case Clear => s.(reader := AtRead, recEnd := false, cleared := true)
    case TimeOut => s.(reader := AtSetEnd(false), readReturned := true)
    case ReadReply(good) =>
      s.(reader := AtSetEnd(good && s.kind.Client?), readReturned := true, replies := s.replies - 1)
    case SetEnd => s.(reader := if s.reader.again then AtRead else AtWait, recEnd := true)
    case Receive => s.(reader := Idle, tokens := s.tokens - 1, received := s.received + 1)
    case Reset(i) => WithSweeper(s, i, s.sweepers[i].(at := AtCheck)).(subIP := 1)
    case Check(i) =>
      if s.recEnd
      then WithSweeper(s, i, s.sweepers[i].(at := AtSend, saw := Seen(s.cleared, s.readReturned)))
      else WithSweeper(s, i, s.sweepers[i].(at := AtPrepare))
    case Prepare(i) =>
      if s.subIP < LAST_ADDR
      then WithSweeper(s, i, s.sweepers[i].(at := AtWrite, finish := false)).(dstAddr := s.subIP, subIP := s.subIP + 1)
      else WithSweeper(s, i, s.sweepers[i].(at := AtWrite, finish := true)).(dstAddr := s.subIP)
    case Write(i) =>
      var w := s.sweepers[i];
      WithSweeper(s, i, w.(at := if w.finish then AtSend else AtCheck, probed := w.probed + [s.dstAddr]))
    case Send(i) => WithSweeper(s, i, s.sweepers[i].(at := Gone)).(tokens := s.tokens + 1, sent := s.sent + 1)
  }

  ghost predicate Reaches(s: State, moves: seq<Move>, t: State)
    decreases |moves|
  {
    if moves == [] then s == t
    else Enabled(s, moves[0]) && Reaches(Apply(s, moves[0]), moves[1..], t)
  }

  // ---------- the invariant ----------

  /** The octets 1, 2, ..., k. */
  function UpTo(k: nat): (r: seq<nat>)
    ensures |r| == k && forall i :: 0 <= i < k ==> r[i] == i + 1
  {
    seq(k, i => i + 1)
  }

  /** Why sweeper number `i` may have stopped early. */
  ghost predicate StoppedFor(w: Sweeper, i: nat) {
    w.saw.Seen? && (w.saw.readReturned || (!w.saw.cleared && i > 0 && w.probed == []))
  }

  /** A sweep that is over: a whole one, or one cut short by the flag. */
  ghost predicate Swept(w: Sweeper, i: nat) {
    && |w.probed| <= LAST_ADDR && w.probed == UpTo(|w.probed|)
    && (|w.probed| < LAST_ADDR ==> StoppedFor(w, i))
  }

  /** What holds of a sweeper at each place, given the shared address fields. */
  ghost predicate SweeperOk(w: Sweeper, i: nat, subIP: nat, dstAddr: nat) {
    var k := |w.probed|;
    && w.probed == UpTo(k)
    && (w.saw.Seen? ==> StoppedFor(w, i) && (w.at == AtSend || w.at == Gone))
    && match w.at
       case AtReset => k == 0
       case AtCheck => k < LAST_ADDR && subIP == k + 1
       case AtPrepare => k < LAST_ADDR && subIP == k + 1
       case AtWrite => k < LAST_ADDR && dstAddr == k + 1 && (w.finish <==> k + 1 == LAST_ADDR)
                       && (!w.finish ==> subIP == k + 2)
       case AtSend => Swept(w, i)
       case Gone => Swept(w, i)
  }

  ghost predicate Inv(s: State) {
    var n := |s.sweepers|;
    && (forall i :: 0 <= i < n - 1 ==> s.sweepers[i].at == Gone)
    && (forall i :: 0 <= i < n ==> SweeperOk(s.sweepers[i], i, s.subIP, s.dstAddr))
    && s.tokens == s.sent - s.received
    && s.received == (if s.reader.Idle? then n else n - 1)
    && s.sent == (if n > 0 && s.sweepers[n - 1].at != Gone then n - 1 else n)
    && (s.recEnd ==> s.readReturned || (!s.cleared && n > 1))
    && (s.cleared <==> n > 0 && !s.reader.AtClear?)
    && (s.reader.AtClear? ==> !s.readReturned)
    && (s.reader.AtSetEnd? ==> s.readReturned)
    && (s.kind.Server? ==> (s.reader.AtRead? ==> !s.readReturned) && (s.reader.AtSetEnd? ==> !s.reader.again))
    && (s.reader.AtRead? && s.readReturned ==> s.recEnd)
    && (s.reader.AtWait? ==> s.recEnd && s.readReturned)
    && (n > 0 && s.reader.Idle? ==> s.recEnd && s.readReturned)
    && (n == 0 ==> s.reader.Idle? && !s.recEnd)
    && (s.reader.AtClear? && n > 1 ==>
          s.recEnd && s.sweepers[n - 1].probed == []
          && s.sweepers[n - 1].at != AtPrepare && s.sweepers[n - 1].at != AtWrite)
  }

  lemma InitInv(kind: Kind)
    ensures Inv(Init(kind))
  {
  }

  /** Only the latest sweeper can still be at work. */
  lemma OnlyLastMoves(s: State, i: nat)
    requires Inv(s) && i < |s.sweepers| && s.sweepers[i].at != Gone
    ensures i == |s.sweepers| - 1 && !s.reader.Idle?
  {
  }

  /** A move of the sweeper at work leads from one place to the next. */
  lemma SweeperAdvances(s: State, m: Move)
    requires Inv(s) && Enabled(s, m)
    requires m.Reset? || m.Check? || m.Prepare? || m.Write? || m.Send?
    ensures var t := Apply(s, m); SweeperOk(t.sweepers[m.i], m.i, t.subIP, t.dstAddr)
  {
    var w := s.sweepers[m.i];
    OnlyLastMoves(s, m.i);
    assert SweeperOk(w, m.i, s.subIP, s.dstAddr);
    assert UpTo(|w.probed|) + [|w.probed| + 1] == UpTo(|w.probed| + 1);
  }

  lemma SweeperKeeps(s: State, m: Move)
    requires Inv(s) && Enabled(s, m)
    requires m.Reset? || m.Check? || m.Prepare? || m.Write? || m.Send?
    ensures Inv(Apply(s, m))
  {
    var i, t := m.i, Apply(s, m);
    OnlyLastMoves(s, i);
    SweeperAdvances(s, m);
    forall j | 0 <= j < |t.sweepers| ensures SweeperOk(t.sweepers[j], j, t.subIP, t.dstAddr) {
      if j != i {
        assert t.sweepers[j] == s.sweepers[j] && s.sweepers[j].at == Gone;
        assert SweeperOk(s.sweepers[j], j, s.subIP, s.dstAddr);
      }
    }
  }

  lemma ReaderKeeps(s: State, m: Move)
    requires Inv(s) && Enabled(s, m)
    requires !(m.Reset? || m.Check? || m.Prepare? || m.Write? || m.Send?)
    ensures Inv(Apply(s, m))
  {
    var t := Apply(s, m);
    forall j | 0 <= j < |t.sweepers| ensures SweeperOk(t.sweepers[j], j, t.subIP, t.dstAddr) {
      if j < |s.sweepers| {
        assert t.sweepers[j] == s.sweepers[j];
        assert SweeperOk(s.sweepers[j], j, s.subIP, s.dstAddr);
      }
    }
    forall j | 0 <= j < |t.sweepers| - 1 ensures t.sweepers[j].at == Gone {
      assert t.sweepers[j] == s.sweepers[j];
    }
  }

  lemma ApplyKeeps(s: State, m: Move)
    requires Inv(s) && Enabled(s, m)
    ensures Inv(Apply(s, m))
  {
    if m.Reset? || m.Check? || m.Prepare? || m.Write? || m.Send? {
      SweeperKeeps(s, m);
    } else {
      ReaderKeeps(s, m);
    }
  }

  lemma {:induction false} RunKeeps(s: State, moves: seq<Move>, t: State)
    requires Inv(s) && Reaches(s, moves, t)
    ensures Inv(t)
    decreases |moves|
  {
    if moves == [] {
    } else {
      ApplyKeeps(s, moves[0]);
      RunKeeps(Apply(s, moves[0]), moves[1..], t);
    }
  }

  /** The states of all runs: any interleaving of any number of calls. */
  ghost predicate Reachable(kind: Kind, t: State) {
    exists moves :: Reaches(Init(kind), moves, t)
  }

  lemma ReachableInv(kind: Kind, t: State)
    requires Reachable(kind, t)
    ensures Inv(t)
  {
    var moves :| Reaches(Init(kind), moves, t);
    InitInv(kind);
    RunKeeps(Init(kind), moves, t);
  }

  // ---------- the theorems ----------

  /**
   Between calls the channel is empty and every call made has sent and received exactly one token;
   at any time at most one token is unread, and no sweeper stands before a full channel.
   */
  lemma OneTokenPerCall(kind: Kind, t: State)
    requires Reachable(kind, t)
    ensures t.tokens <= 1
    ensures t.reader.Idle? ==> t.tokens == 0 && t.sent == t.received == |t.sweepers|
    ensures forall i {:trigger SweeperAt(t, i, AtSend)} :: SweeperAt(t, i, AtSend) ==> t.tokens == 0
    ensures forall i :: 0 <= i < |t.sweepers| - 1 ==> t.sweepers[i].at == Gone
  {
    ReachableInv(kind, t);
    forall i | SweeperAt(t, i, AtSend) ensures t.tokens == 0 {
      OnlyLastMoves(t, i);
    }
  }

  /**
   The sweep of call number `i` probes 1, 2, ..., k in order, each once. If it ended before 254, the sweeper saw
   the flag set: a read of its call had returned, or the flag was left over from the call before and had not been
   cleared yet; and in that case it probed nothing at all. The first call has no left-over flag.
   */
  lemma ProbesInOrder(kind: Kind, t: State, i: nat)
    requires Reachable(kind, t) && i < |t.sweepers|
    ensures var w := t.sweepers[i];
            && |w.probed| <= 254 && w.probed == UpTo(|w.probed|)
            && (w.at == Gone && |w.probed| < 254 ==>
                  w.saw.Seen? && (w.saw.readReturned || (!w.saw.cleared && i > 0 && w.probed == [])))
  {
    ReachableInv(kind, t);
    assert SweeperOk(t.sweepers[i], i, t.subIP, t.dstAddr);
  }

  /** The moves of sweeper `i`. */
  predicate BySweeper(m: Move, i: nat) {
    m == Reset(i) || m == Check(i) || m == Prepare(i) || m == Write(i) || m == Send(i)
  }

  lemma SweeperMove(s: State) returns (m: Move)
    requires Inv(s) && s.sweepers != [] && s.sweepers[|s.sweepers| - 1].at != Gone
    ensures Enabled(s, m) && BySweeper(m, |s.sweepers| - 1)
  {
    var i := |s.sweepers| - 1;
    m := match s.sweepers[i].at
      case AtReset => Reset(i)
      case AtCheck => Check(i)
      case AtPrepare => Prepare(i)
      case AtWrite => Write(i)
      case AtSend => Send(i);
  }

  lemma NextMove(s: State) returns (m: Move)
    requires Inv(s) && !s.reader.Idle?
    ensures Enabled(s, m) && !m.Call?
  {
    if s.reader.AtWait? && s.sweepers[|s.sweepers| - 1].at != Gone {
      m := SweeperMove(s);
    } else {
      m := match s.reader
        case AtClear => Clear
        case AtRead => TimeOut
        case AtSetEnd(_) => SetEnd
        case _ => Receive;
    }
  }

  /**
   A call in progress can always make a move of its own: there is no deadlock. A sweeper that is not done never waits
   for the reader, and the reader waits for nothing but the token.
   */
  lemma NoDeadlock(kind: Kind, t: State)
    requires Reachable(kind, t) && !t.reader.Idle?
    ensures exists m :: Enabled(t, m) && !m.Call?
    ensures t.sweepers != []
    ensures var i := |t.sweepers| - 1;
            t.sweepers[i].at != Gone ==> exists m :: Enabled(t, m) && BySweeper(m, i)
    ensures !t.reader.AtWait? || t.tokens > 0 ==>
              Enabled(t, Clear) || Enabled(t, TimeOut) || Enabled(t, SetEnd) || Enabled(t, Receive)
  {
    ReachableInv(kind, t);
    var m := NextMove(t);
    if t.sweepers[|t.sweepers| - 1].at != Gone {
      var n := SweeperMove(t);
    }
  }

  lemma {:induction false} KindKept(s: State, moves: seq<Move>, t: State)
    requires Reaches(s, moves, t)
    ensures t.kind == s.kind
    decreases |moves|
  {
    if moves == [] {
    } else {
      KindKept(Apply(s, moves[0]), moves[1..], t);
    }
  }

  /** A call on a ServerData reads once: it never stands before a read when one has returned. */
  lemma ServerReadsOnce(t: State)
    requires Reachable(Server, t) && t.reader.AtRead?
    ensures !t.readReturned
  {
    ReachableInv(Server, t);
    var moves :| Reaches(Init(Server), moves, t);
    KindKept(Init(Server), moves, t);
  }

  function ReaderLeft(s: State): nat {
    match s.reader
    case Idle => 0
    case AtWait => 1
    case AtSetEnd(again) => if again then 2 * s.replies + 4 else 2
    case AtRead => 2 * s.replies + 3
    case AtClear => 2 * s.replies + 4
  }

  function SweeperLeft(w: Sweeper): nat {
    var left := if |w.probed| < LAST_ADDR then 3 * (LAST_ADDR - |w.probed|) else 0;
    match w.at
    case AtReset => left + 2
    case AtCheck => left + 1
    case AtPrepare => left
    case AtWrite => if left == 0 then 2 else left - 1
    case AtSend => 1
    case Gone => 0
  }

  /** Moves left to the reader, and to the latest sweeper, before the call is over. */
  function Remaining(s: State): nat {
    ReaderLeft(s) + if s.sweepers == [] then 0 else SweeperLeft(s.sweepers[|s.sweepers| - 1])
  }

  lemma MoveCounts(s: State, m: Move)
    requires Inv(s) && Enabled(s, m) && !m.Call?
    ensures Remaining(Apply(s, m)) < Remaining(s)
  {
    if m.Reset? || m.Check? || m.Prepare? || m.Write? || m.Send? {
      OnlyLastMoves(s, m.i);
      assert SweeperOk(s.sweepers[m.i], m.i, s.subIP, s.dstAddr);
    }
  }

  /**
   Termination without any fairness assumption: from any reachable state, no interleaving runs for more than
   `Remaining` moves without beginning another call. With `NoDeadlock`, every call ends.
   */
  lemma {:induction false} CallsEnd(s: State, moves: seq<Move>, t: State)
    requires Inv(s) && Reaches(s, moves, t)
    requires forall i :: 0 <= i < |moves| ==> !moves[i].Call?
    ensures |moves| + Remaining(t) <= Remaining(s)
    decreases |moves|
  {
    if moves == [] {
    } else {
      MoveCounts(s, moves[0]);
      ApplyKeeps(s, moves[0]);
      CallsEnd(Apply(s, moves[0]), moves[1..], t);
    }
  }

  /** A call during which `n` replies arrive takes at most 2n + 768 moves once begun, however they interleave. */
  lemma CallBound(kind: Kind, s: State, n: nat, moves: seq<Move>, t: State)
    requires Reachable(kind, s) && s.reader.Idle?
    requires Reaches(Apply(s, Call(n)), moves, t)
    requires forall i :: 0 <= i < |moves| ==> !moves[i].Call?
    ensures |moves| <= 2 * n + 768
    ensures (forall m :: Enabled(t, m) ==> m.Call?) ==> t.reader.Idle? && t.tokens == 0
  {
    ReachableInv(kind, s);
    ApplyKeeps(s, Call(n));
    CallsEnd(Apply(s, Call(n)), moves, t);
    RunKeeps(Apply(s, Call(n)), moves, t);
    if !t.reader.Idle? {
      var m := NextMove(t);
    }
  }

  // ---------- what the reader reads ----------

  predicate IsRead(m: Move) {
    m.TimeOut? || m.ReadReply?
  }

  function ReadOf(m: Move): seq<Move> {
    if IsRead(m) then [m] else []
  }

  /** The reads of a run, in order. */
  function Reads(moves: seq<Move>): seq<Move> {
    if moves == [] then [] else ReadOf(moves[0]) + Reads(moves[1..])
  }

  predicate NoCall(moves: seq<Move>) {
    forall i :: 0 <= i < |moves| ==> !moves[i].Call?
  }

  predicate AllGood(rs: seq<Move>) {
    forall i :: 0 <= i < |rs| ==> rs[i] == ReadReply(true)
  }

  /** All the reads of one call: the server reads once, the client reads good replies until something else comes. */
  predicate Whole(kind: Kind, rs: seq<Move>) {
    rs != [] && IsRead(rs[|rs| - 1])
    && match kind
       case Server => |rs| == 1
       case Client => AllGood(rs[..|rs| - 1]) && rs[|rs| - 1] != ReadReply(true)
  }

  /** Where the reader is after the reads `rs` of its call. */
  ghost predicate ReadsOk(kind: Kind, reader: Reader, rs: seq<Move>) {
    match reader
    case AtClear => rs == []
    case AtRead => AllGood(rs) && (kind.Server? ==> rs == [])
    case AtSetEnd(again) => if again then kind.Client? && AllGood(rs) else Whole(kind, rs)
    case _ => Whole(kind, rs)
  }

  function RepliesIn(rs: seq<Move>): (n: nat)
    ensures n <= |rs|
  {
    if rs == [] then 0 else (if rs[0].ReadReply? then 1 else 0) + RepliesIn(rs[1..])
  }

  lemma ReadAppended(kind: Kind, rs: seq<Move>, m: Move)
    requires AllGood(rs) && (kind.Server? ==> rs == []) && IsRead(m)
    ensures if kind.Client? && m == ReadReply(true) then AllGood(rs + [m]) else Whole(kind, rs + [m])
  {
    assert (rs + [m])[..|rs|] == rs;
  }

  /** Where a move of its own, or of the sweeper, takes the reader. */
  function ReaderAfter(kind: Kind, reader: Reader, m: Move): Reader {
    match m
    case Clear => AtRead
    case TimeOut => AtSetEnd(false)
    case ReadReply(good) => AtSetEnd(good && kind.Client?)
    case SetEnd => if reader == AtSetEnd(true) then AtRead else AtWait
    case Receive => Idle
    case _ => reader
  }

  lemma ReaderMoves(s: State, m: Move)
    requires Enabled(s, m) && !m.Call?
    ensures Apply(s, m).reader == ReaderAfter(s.kind, s.reader, m) && Apply(s, m).kind == s.kind
    ensures m.Clear? ==> s.reader.AtClear?
    ensures IsRead(m) ==> s.reader.AtRead?
    ensures m.SetEnd? ==> s.reader.AtSetEnd?
    ensures m.Receive? ==> s.reader.AtWait?
  {
  }

  lemma ReadsStep(kind: Kind, reader: Reader, m: Move, rs: seq<Move>)
    requires ReadsOk(kind, reader, rs) && !m.Call?
    requires m.Clear? ==> reader.AtClear?
    requires IsRead(m) ==> reader.AtRead?
    requires m.SetEnd? ==> reader.AtSetEnd?
    requires m.Receive? ==> reader.AtWait?
    ensures ReadsOk(kind, ReaderAfter(kind, reader, m), if IsRead(m) then rs + [m] else rs)
  {
    if IsRead(m) {
      ReadAppended(kind, rs, m);
    }
  }

  lemma ReadsCons(rs: seq<Move>, moves: seq<Move>)
    requires moves != []
    ensures rs + Reads(moves) == (if IsRead(moves[0]) then rs + [moves[0]] else rs) + Reads(moves[1..])
  {
    if IsRead(moves[0]) {
      assert rs + ([moves[0]] + Reads(moves[1..])) == (rs + [moves[0]]) + Reads(moves[1..]);
    } else {
      assert [] + Reads(moves[1..]) == Reads(moves[1..]);
    }
  }

  lemma {:induction false} ReadsRun(s: State, moves: seq<Move>, t: State, rs: seq<Move>)
    requires Reaches(s, moves, t) && NoCall(moves) && ReadsOk(s.kind, s.reader, rs)
    ensures ReadsOk(s.kind, t.reader, rs + Reads(moves))
    decreases |moves|
  {
    if moves == [] {
      assert rs + [] == rs;
    } else {
      var m := moves[0];
      ReaderMoves(s, m);
      ReadsStep(s.kind, s.reader, m, rs);
      ReadsCons(rs, moves);
      ReadsRun(Apply(s, m), moves[1..], t, if IsRead(m) then rs + [m] else rs);
    }
  }

  lemma RepliesCons(m: Move, rest: seq<Move>)
    ensures RepliesIn(ReadOf(m) + rest) == (if m.ReadReply? then 1 else 0) + RepliesIn(rest)
  {
    if IsRead(m) {
      assert ([m] + rest)[1..] == rest;
    } else {
      assert [] + rest == rest;
    }
  }

  lemma {:induction false} RepliesLeft(s: State, moves: seq<Move>, t: State)
    requires Reaches(s, moves, t) && NoCall(moves)
    ensures t.replies + RepliesIn(Reads(moves)) == s.replies
    decreases |moves|
  {
    if moves == [] {
    } else {
      RepliesCons(moves[0], Reads(moves[1..]));
      RepliesLeft(Apply(s, moves[0]), moves[1..], t);
    }
  }

  lemma Before(s: State, m: Move, rest: seq<Move>, t: State) returns (moves: seq<Move>)
    requires Enabled(s, m) && !m.Call? && Reaches(Apply(s, m), rest, t) && NoCall(rest)
    ensures Reaches(s, moves, t) && NoCall(moves)
    ensures Reads(moves) == ReadOf(m) + Reads(rest)
  {
    moves := [m] + rest;
    assert moves[1..] == rest;
  }

  /** The call has just cleared the flag or read, and its sweeper has not begun. */
  ghost predicate SweepAhead(s: State) {
    s.tokens == 0 && s.sweepers != [] && s.sweepers[|s.sweepers| - 1].at == AtReset
  }

  /** The sweeper finds the flag set at its first check, and the reader gets its token. */
  lemma Finish(s: State) returns (moves: seq<Move>, t: State)
    requires s.reader.AtWait? && s.recEnd && SweepAhead(s)
    ensures Reaches(s, moves, t) && NoCall(moves) && t.reader.Idle? && Reads(moves) == []
  {
    var i := |s.sweepers| - 1;
    var a := Apply(s, Reset(i));
    var b := Apply(a, Check(i));
    var c := Apply(b, Send(i));
    t := Apply(c, Receive);
    moves := Before(c, Receive, [], t);
    moves := Before(b, Send(i), moves, t);
    moves := Before(a, Check(i), moves, t);
    moves := Before(s, Reset(i), moves, t);
  }

  /** A read, and the flag set after it. */
  lemma ReadOnce(s: State, r: Move) returns (u: State)
    requires s.reader.AtRead? && IsRead(r) && Enabled(s, r)
    ensures Enabled(Apply(s, r), SetEnd) && u == Apply(Apply(s, r), SetEnd)
    ensures u.kind == s.kind && u.recEnd && (SweepAhead(s) ==> SweepAhead(u))
    ensures u.replies == s.replies - if r.ReadReply? then 1 else 0
    ensures u.reader == if s.kind.Client? && r == ReadReply(true) then AtRead else AtWait
  {
    u := Apply(Apply(s, r), SetEnd);
  }

  lemma BeforeRead(s: State, r: Move, rest: seq<Move>, t: State) returns (moves: seq<Move>)
    requires s.reader.AtRead? && IsRead(r) && Enabled(s, r) && Enabled(Apply(s, r), SetEnd)
    requires Reaches(Apply(Apply(s, r), SetEnd), rest, t) && NoCall(rest)
    ensures Reaches(s, moves, t) && NoCall(moves) && Reads(moves) == [r] + Reads(rest)
  {
    moves := Before(Apply(s, r), SetEnd, rest, t);
    moves := Before(s, r, moves, t);
  }

  lemma WholeTail(kind: Kind, rs: seq<Move>)
    requires Whole(kind, rs) && |rs| > 1
    ensures kind.Client? && rs[0] == ReadReply(true) && Whole(kind, rs[1..])
    ensures RepliesIn(rs) == 1 + RepliesIn(rs[1..]) && rs == [rs[0]] + rs[1..]
  {
    assert rs[0] == rs[..|rs| - 1][0];
    forall i | 0 <= i < |rs| - 2 ensures rs[1..][i] == ReadReply(true) {
      assert rs[1..][i] == rs[..|rs| - 1][i + 1];
    }
  }

  lemma {:induction false} ReadLoop(s: State, rs: seq<Move>) returns (moves: seq<Move>, t: State)
    requires s.reader.AtRead? && Whole(s.kind, rs) && RepliesIn(rs) <= s.replies && SweepAhead(s)
    ensures Reaches(s, moves, t) && NoCall(moves) && t.reader.Idle? && Reads(moves) == rs
    decreases |rs|
  {
    if |rs| == 1 {
      var u := ReadOnce(s, rs[0]);
      moves, t := Finish(u);
      moves := BeforeRead(s, rs[0], moves, t);
    } else {
      WholeTail(s.kind, rs);
      var u := ReadOnce(s, rs[0]);
      moves, t := ReadLoop(u, rs[1..]);
      moves := BeforeRead(s, rs[0], moves, t);
    }
  }

  /** From `s`, between calls, `moves` are one whole call during which `n` replies arrive and the reads are `rs`. */
  ghost predicate CallReads(s: State, n: nat, moves: seq<Move>, t: State, rs: seq<Move>)
    requires s.reader.Idle?
  {
    Reaches(Apply(s, Call(n)), moves, t) && NoCall(moves) && t.reader.Idle? && Reads(moves) == rs
  }

  lemma SomeCallReads(kind: Kind, s: State, n: nat, rs: seq<Move>) returns (moves: seq<Move>, t: State)
    requires Reachable(kind, s) && s.reader.Idle? && Whole(kind, rs) && RepliesIn(rs) <= n
    ensures CallReads(s, n, moves, t, rs)
  {
    OneTokenPerCall(kind, s);
    var run :| Reaches(Init(kind), run, s);
    KindKept(Init(kind), run, s);
    var a := Apply(s, Call(n));
    moves, t := ReadLoop(Apply(a, Clear), rs);
    moves := Before(a, Clear, moves, t);
  }

  /**
   The reads of a call, exactly: one read, of whatever outcome, on a ServerData; on a ClientData any number of good
   replies, up to those that arrive, and then a time-out or a bad one. In particular all `n` replies can be read.
   */
  lemma ReadSequences(kind: Kind, s: State, n: nat, rs: seq<Move>)
    requires Reachable(kind, s) && s.reader.Idle?
    ensures (exists moves, t :: CallReads(s, n, moves, t, rs)) <==> Whole(kind, rs) && RepliesIn(rs) <= n
  {
    if moves, t :| CallReads(s, n, moves, t, rs) {
      ReadsRun(Apply(s, Call(n)), moves, t, []);
      RepliesLeft(Apply(s, Call(n)), moves, t);
      assert [] + Reads(moves) == Reads(moves);
      var run :| Reaches(Init(kind), run, s);
      KindKept(Init(kind), run, s);
      KindKept(Apply(s, Call(n)), moves, t);
    }
    if Whole(kind, rs) && RepliesIn(rs) <= n {
      var moves, t := SomeCallReads(kind, s, n, rs);
    }
  }

  // ---------- the flag left over from the call before ----------

  lemma {:induction false} ReachesSnoc(s: State, moves: seq<Move>, t: State, m: Move)
    requires Reaches(s, moves, t) && Enabled(t, m)
    ensures Reaches(s, moves + [m], Apply(t, m))
    decreases |moves|
  {
    if moves == [] {
      assert [m][1..] == [];
      assert moves + [m] == [m];
    } else {
      ReachesSnoc(Apply(s, moves[0]), moves[1..], t, m);
      assert (moves + [m])[1..] == moves[1..] + [m];
    }
  }

  lemma Then(s: State, moves: seq<Move>, t: State, m: Move) returns (u: State)
    requires Reaches(s, moves, t) && Enabled(t, m)
    ensures u == Apply(t, m) && Reaches(s, moves + [m], u)
  {
    u := Apply(t, m);
    ReachesSnoc(s, moves, t, m);
  }

  /**
   A sweeper about to look at the flag stops before any read of its own call has returned exactly when another call
   came before on the same object and this one has not cleared the flag yet; and then it has probed nothing. Once the
   reader has set the flag for a read of this call, the sweeper always stops.
   */
  lemma CutShortIff(kind: Kind, s: State, i: nat)
    requires Reachable(kind, s) && SweeperAt(s, i, AtCheck)
    ensures var w := Apply(s, Check(i)).sweepers[i];
            && (w.at == AtSend && !s.readReturned <==> i > 0 && s.reader.AtClear?)
            && (i > 0 && s.reader.AtClear? ==> w.probed == [] && w.saw == Seen(false, false))
            && (s.readReturned && !s.reader.AtSetEnd? ==> w.at == AtSend)
  {
    ReachableInv(kind, s);
    OnlyLastMoves(s, i);
  }

  /** Sweeper `i` stopped because of a flag left over from the call before, and had probed nothing. */
  predicate SkippedSweep(t: State, i: nat) {
    i < |t.sweepers| && t.sweepers[i].probed == [] && t.sweepers[i].saw == Seen(false, false)
  }

  /** From `s`, between calls, the moves make up one whole call, whose sweep is skipped. */
  ghost predicate SkipsNext(s: State, moves: seq<Move>, t: State) {
    && Reaches(s, moves, t) && t.reader.Idle?
    && |t.sweepers| == |s.sweepers| + 1 && SkippedSweep(t, |s.sweepers|)
  }

  /** The reader of a call whose sweep was skipped times out, and the call is over. */
  lemma SkippingRun(kind: Kind, s: State) returns (moves: seq<Move>, t: State)
    requires Reachable(kind, s) && s.reader.Idle? && s.sweepers != []
    ensures SkipsNext(s, moves, t)
  {
    var i := |s.sweepers|;
    ReachableInv(kind, s);
    t := Then(s, [], s, Call(0));
    moves := [] + [Call(0)];
    t := Then(s, moves, t, Reset(i));
    moves := moves + [Reset(i)];
    t := Then(s, moves, t, Check(i));
    moves := moves + [Check(i)];
    assert SkippedSweep(t, i) && t.sweepers[i].at == AtSend && t.tokens == 0;
    t := Then(s, moves, t, Send(i));
    moves := moves + [Send(i)];
    t := Then(s, moves, t, Clear);
    moves := moves + [Clear];
    t := Then(s, moves, t, TimeOut);
    moves := moves + [TimeOut];
    t := Then(s, moves, t, SetEnd);
    moves := moves + [SetEnd];
    t := Then(s, moves, t, Receive);
    moves := moves + [Receive];
  }

  lemma FirstSweepNotSkipped(kind: Kind, s: State, moves: seq<Move>, t: State)
    requires Reachable(kind, s) && SkipsNext(s, moves, t)
    ensures s.sweepers != []
  {
    ReachableInv(kind, s);
    RunKeeps(s, moves, t);
    assert SweeperOk(t.sweepers[|s.sweepers|], |s.sweepers|, t.subIP, t.dstAddr);
  }

  /**
   Between calls: the next call can end with its whole sweep skipped because of the left-over flag, exactly when
   some call has been completed on this object before.
   */
  lemma NextCallMayProbeNothing(kind: Kind, s: State)
    requires Reachable(kind, s) && s.reader.Idle?
    ensures (exists moves, t :: SkipsNext(s, moves, t)) <==> s.sweepers != []
  {
    if s.sweepers != [] {
      var moves, t := SkippingRun(kind, s);
    }
    if moves, t :| SkipsNext(s, moves, t) {
      FirstSweepNotSkipped(kind, s, moves, t);
    }
  }
}
