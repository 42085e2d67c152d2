/**
 The C daemon on raw buffers, and its refinement of the registry steps. What C leaves undefined (reading past the
 buffer, comparing a missing name, a text that overruns its packet, an unterminated copy of a string of 100 bytes
 or more) is the outcome `Undefined`.
 */
module CDaemon {
  import opened Types
  import opened Checksum
  import opened Codec
  import Registry
  import Lookup
  import Providers
  import Marshal
  import CList

  /** The two JSON objects of the protocol. */
  datatype Body = ServiceBody(info: ServiceInfo) | ReasonBody(reason: Text)

  /** The signedness of `char`, and the JSON library. */
  datatype Platform = Platform(signedChar: bool, render: Body -> Text, parse: Text -> Option<Body>)

  const SERVICE_NO_FOUND: Text := Marshal.Ascii("service no found")

  // ---------- what the packet builders need ----------

  /** `strncpy` into a buffer of 100 bytes leaves a terminator only behind shorter strings. */
  predicate Copyable(b: Body) {
    match b
    case ServiceBody(i) =>
      |i.device| < Marshal.INFO_MAX_LEN && |i.service| < Marshal.INFO_MAX_LEN
      && |i.ip| < Marshal.INFO_MAX_LEN && |i.info| < Marshal.INFO_MAX_LEN
    case ReasonBody(r) => |r| < Marshal.INFO_MAX_LEN
  }

  /** A packet can be built: the strings are copied whole and the text fits behind the header. */
  predicate Packable(pf: Platform, b: Body) {
    Copyable(b) && |pf.render(b)| <= ROOM
  }

  /** The strings of the object are C strings. */
  predicate CStrings(b: Body) {
    match b
    case ServiceBody(i) => 0 !in i.device && 0 !in i.service && 0 !in i.ip && 0 !in i.info
    case ReasonBody(r) => 0 !in r
  }

  /** The JSON library prints such objects without a NUL and parses what it printed. */
  ghost predicate Faithful(pf: Platform) {
    forall b :: CStrings(b) && Copyable(b) ==> 0 !in pf.render(b) && pf.parse(pf.render(b)) == Some(b)
  }

  /** A text the C encoder checksums so that the C decoder accepts it. */
  predicate Passes(pf: Platform, text: Text) {
    !pf.signedChar || High(text) % 0x100 == 0
  }

  // ---------- messages and frames ----------

  function ActionOf(r: Request): Word16 {
    match r
    case Register(_) => REGISTER_SERVICE
    case Unregister(_) => UNREGISTER_SERVICE
    case Inquiry(_) => INQUIRY
  }

  function FieldsOf(r: Request): ServiceInfo {
    match r
    case Register(e) => e
    case Unregister(k) => ServiceInfo(k.device, k.service, [], 0, [])
    case Inquiry(name) => ServiceInfo([], name, [], 0, [])
  }

  function RequestOf(action: Word16, i: ServiceInfo): Request
    requires action <= INQUIRY
  {
    if action == REGISTER_SERVICE then Register(i)
    else if action == UNREGISTER_SERVICE then Unregister(i.Key())
    else Inquiry(i.service)
  }

  function RequestText(pf: Platform, r: Request): Text {
    pf.render(ServiceBody(FieldsOf(r)))
  }

  function RequestFrame(pf: Platform, r: Request): Buffer {
    Encode(pf.signedChar, ActionOf(r), RequestText(pf, r))
  }

  function ReplyBody(r: Reply): Body {
    match r
    case Found(e) => ServiceBody(e)
    case Succeeded => ReasonBody([])
    case NotFound => ReasonBody(SERVICE_NO_FOUND)
  }

  function ReplyAction(r: Reply): Word16 {
    if r.NotFound? then ACTION_FAIL else ACTION_SUCC
  }

  function ReplyFrame(pf: Platform, r: Reply): Buffer {
    Encode(pf.signedChar, ReplyAction(r), pf.render(ReplyBody(r)))
  }

  function ReplyFrames(pf: Platform, rs: seq<Reply>): (fs: seq<Buffer>)
    ensures |fs| == |rs| && forall i :: 0 <= i < |rs| ==> fs[i] == ReplyFrame(pf, rs[i])
  {
    seq(|rs|, i requires 0 <= i < |rs| => ReplyFrame(pf, rs[i]))
  }

  /** The action numbers as they stand in a frame. */
  lemma ActionsOnTheWire(pf: Platform, r: Request, reply: Reply)
    ensures var f := RequestFrame(pf, r);
            f[3] == 0 && f[2] == match r case Register(_) => 0 case Unregister(_) => 1 case Inquiry(_) => 2
    ensures var f := ReplyFrame(pf, reply);
            f[3] == 0 && f[2] == if reply.NotFound? then 4 else 3
  {
    WireFormat(pf.signedChar, ActionOf(r), RequestText(pf, r));
    WireFormat(pf.signedChar, ReplyAction(reply), pf.render(ReplyBody(reply)));
  }

  predicate Writable(pf: Platform, rs: seq<Reply>) {
    forall i :: 0 <= i < |rs| ==> Packable(pf, ReplyBody(rs[i]))
  }

  // ---------- one received buffer ----------

  datatype Service = Service(info: ServiceInfo) | Unparsed | Broken

  /** `get_service_info`; `Broken` when the text leaves the buffer or the names come back as NULL. */
  function ReadService(pf: Platform, buf: Buffer): Service {
    match CText(buf)
    case None => Broken
    case Some(text) =>
      match pf.parse(text)
      case None => Unparsed
      case Some(ReasonBody(_)) => Broken
      case Some(ServiceBody(i)) => Service(i)
  }

  /** `get_result`: the reason, where the text is terminated and is one. */
  function ReadReason(pf: Platform, buf: Buffer): Option<Text> {
    match CText(buf)
    case None => None
    case Some(text) =>
      match pf.parse(text)
      case Some(ReasonBody(reason)) => Some(reason)
      case _ => None
  }

  datatype Reading = Asked(request: Request) | Ignored | Faulty

  /** What a received buffer means to the daemon. */
  function Read(pf: Platform, buf: Buffer): Reading {
    match CDecode(buf)
    case OutOfBounds => Faulty
    case Rejected => Ignored
    case Action(code) =>
      if code > INQUIRY then Ignored
      else
        match ReadService(pf, buf)
        case Broken => Faulty
        case Unparsed => Ignored
        case Service(i) => Asked(RequestOf(code, i))
  }

  datatype Outcome = Handled(registry: seq<ServiceInfo>, sent: seq<Buffer>) | Undefined

  function Serve(pf: Platform, registry: seq<ServiceInfo>, r: Request): Outcome {
    var replies := Providers.CReplies(registry, r);
    if Writable(pf, replies) then Handled(Registry.Step(registry, r), ReplyFrames(pf, replies)) else Undefined
  }

  /** One round of `server_loop`. */
  function Handle(pf: Platform, registry: seq<ServiceInfo>, buf: Buffer): Outcome {
    match Read(pf, buf)
    case Faulty => Undefined
    case Ignored => Handled(registry, [])
    case Asked(r) => Serve(pf, registry, r)
  }

  lemma RequestRecovered(r: Request)
    ensures RequestOf(ActionOf(r), FieldsOf(r)) == r
  {
  }

  lemma SomeReply(registry: seq<ServiceInfo>, r: Request)
    ensures Providers.CReplies(registry, r) != []
  {
  }

  /** Reading back the text of a service: it is terminated unless it fills the buffer. */
  lemma ServiceRead(pf: Platform, signed: bool, action: Word16, i: ServiceInfo)
    requires Faithful(pf) && CStrings(ServiceBody(i)) && Packable(pf, ServiceBody(i))
    ensures var text := pf.render(ServiceBody(i));
            ReadService(pf, Encode(signed, action, text)) == if |text| < ROOM then Service(i) else Broken
  {
    CTextRecovered(signed, action, pf.render(ServiceBody(i)));
  }

  /**
   The daemon reads the frame of a request as that request. Two exceptions: with signed `char`, a number of
   non-ASCII bytes that is no multiple of 256 gets the frame ignored; and a text of exactly 1016 bytes leaves
   no room for the terminator the parser relies on.
   */
  lemma RequestRead(pf: Platform, r: Request)
    requires Faithful(pf) && CStrings(ServiceBody(FieldsOf(r))) && Packable(pf, ServiceBody(FieldsOf(r)))
    ensures var text := RequestText(pf, r);
            Read(pf, RequestFrame(pf, r)) ==
            if !Passes(pf, text) then Ignored else if |text| < ROOM then Asked(r) else Faulty
  {
    Acceptance(pf.signedChar, ActionOf(r), RequestText(pf, r));
    ServiceRead(pf, pf.signedChar, ActionOf(r), FieldsOf(r));
    RequestRecovered(r);
  }

  /**
   Whatever buffer arrives: a bad checksum, an unknown action or a text that does not parse change nothing and
   send nothing; otherwise exactly the request in the buffer is served, and answered.
   */
  lemma HandleRefines(pf: Platform, registry: seq<ServiceInfo>, buf: Buffer)
    requires Handle(pf, registry, buf).Handled?
    ensures var o := Handle(pf, registry, buf);
            if CDecode(buf).Rejected? || CDecode(buf).code > INQUIRY || ReadService(pf, buf).Unparsed?
            then o == Handled(registry, [])
            else
              var r := RequestOf(CDecode(buf).code, ReadService(pf, buf).info);
              && o.registry == Registry.Step(registry, r)
              && o.sent == ReplyFrames(pf, Providers.CReplies(registry, r))
              && o.sent != []
  {
    if Read(pf, buf).Asked? {
      SomeReply(registry, Read(pf, buf).request);
    }
  }

  /**
   Where the daemon reads a buffer into undefined behaviour: the length leaves it, or the text of an accepted request
   is not terminated inside it or holds a result object, which has no names.
   */
  lemma ReadFaultyIff(pf: Platform, buf: Buffer)
    ensures Read(pf, buf).Faulty? <==>
            CDecode(buf) == OutOfBounds
            || (CDecode(buf).Action? && CDecode(buf).code <= INQUIRY
                && (0 !in buf[HEAD_LEN..]
                    || exists text, reason :: CText(buf) == Some(text) && pf.parse(text) == Some(ReasonBody(reason))))
  {
    var text := UpToNul(buf[HEAD_LEN..]);
    assert |text| == ROOM ==> text == buf[HEAD_LEN..];
    assert |text| < ROOM ==> buf[HEAD_LEN..][|text|] == 0;
  }

  // ---------- requests of well-behaved clients leave nothing undefined ----------

  /** The library is faithful, and the two result objects fit their frames with a terminator. */
  ghost predicate Speaks(pf: Platform) {
    && Faithful(pf)
    && |pf.render(ReasonBody([]))| < ROOM
    && |pf.render(ReasonBody(SERVICE_NO_FOUND))| < ROOM
  }

  /** The service can be packed, with room for a terminator. */
  ghost predicate Sound(pf: Platform, e: ServiceInfo) {
    CStrings(ServiceBody(e)) && Copyable(ServiceBody(e)) && |pf.render(ServiceBody(e))| < ROOM
  }

  ghost predicate AllSound(pf: Platform, l: seq<ServiceInfo>) {
    forall e :: e in l ==> Sound(pf, e)
  }

  ghost predicate Sendable(pf: Platform, r: Request) {
    Sound(pf, FieldsOf(r))
  }

  /**
   The request of a client that leaves nothing undefined: its packet can be built, and its text leaves room for
   the terminator or is rejected before it is parsed.
   */
  predicate Harmless(pf: Platform, r: Request) {
    && Packable(pf, ServiceBody(FieldsOf(r)))
    && (|RequestText(pf, r)| < ROOM || !Passes(pf, RequestText(pf, r)))
  }

  lemma ServeDefined(pf: Platform, l: seq<ServiceInfo>, r: Request)
    requires Speaks(pf) && AllSound(pf, l)
    ensures Serve(pf, l, r).Handled?
  {
    var replies := Providers.CReplies(l, r);
    forall i | 0 <= i < |replies| ensures Packable(pf, ReplyBody(replies[i])) {
      if replies[i].Found? {
        assert replies[i].entry in l && Sound(pf, replies[i].entry);
      }
    }
  }

  lemma StepKeepsSound(pf: Platform, l: seq<ServiceInfo>, r: Request)
    requires AllSound(pf, l) && Sendable(pf, r)
    ensures AllSound(pf, Registry.Step(l, r))
  {
  }

  lemma ResultAccepted(pf: Platform, r: Reply)
    requires Speaks(pf) && !r.Found? && Passes(pf, pf.render(ReplyBody(r)))
    ensures CDecode(ReplyFrame(pf, r)) == Action(ReplyAction(r))
    ensures CText(ReplyFrame(pf, r)) == Some(pf.render(ReplyBody(r)))
  {
    var text := pf.render(ReplyBody(r));
    Acceptance(pf.signedChar, ReplyAction(r), text);
    CTextRecovered(pf.signedChar, ReplyAction(r), text);
  }

  /** What a client reads in the frame of a result: success without a reason, or failure with this one. */
  lemma ResultRead(pf: Platform, r: Reply)
    requires Speaks(pf) && !r.Found? && Passes(pf, pf.render(ReplyBody(r)))
    ensures CDecode(ReplyFrame(pf, r)) == Action(if r.Succeeded? then ACTION_SUCC else ACTION_FAIL)
    ensures ReadReason(pf, ReplyFrame(pf, r))
         == Some(if r.Succeeded? then [] else Marshal.Ascii("service no found"))
  {
    ResultAccepted(pf, r);
  }

  /** In figures: every string under 100 bytes; and a text under 1016 bytes, or one of 1016 that is rejected. */
  lemma HarmlessMeans(pf: Platform, r: Request)
    ensures var i, n := FieldsOf(r), |RequestText(pf, r)|;
            Harmless(pf, r) <==>
            && |i.device| < 100 && |i.service| < 100 && |i.ip| < 100 && |i.info| < 100
            && (n < 1016 || (n == 1016 && pf.signedChar && High(RequestText(pf, r)) % 0x100 != 0))
  {
  }

  // ---------- a run of the daemon ----------

  function HandleAll(pf: Platform, bufs: seq<Buffer>): Outcome {
    if bufs == [] then Handled([], [])
    else
      match HandleAll(pf, bufs[..|bufs| - 1])
      case Undefined => Undefined
      case Handled(registry, sent) =>
        match Handle(pf, registry, bufs[|bufs| - 1])
        case Undefined => Undefined
        case Handled(registry', more) => Handled(registry', sent + more)
  }

  lemma {:induction false} HandledPrefix(pf: Platform, bufs: seq<Buffer>, i: nat)
    requires i <= |bufs| && HandleAll(pf, bufs).Handled?
    ensures HandleAll(pf, bufs[..i]).Handled?
  {
    if i < |bufs| {
      HandledPrefix(pf, bufs[..|bufs| - 1], i);
      assert bufs[..|bufs| - 1][..i] == bufs[..i];
    } else {
      assert bufs[..i] == bufs;
    }
  }

  lemma HandleAllExtends(pf: Platform, bufs: seq<Buffer>, before: Outcome, step: Outcome)
    requires bufs != [] && before.Handled? && step.Handled?
    requires HandleAll(pf, bufs[..|bufs| - 1]) == before
    requires Handle(pf, before.registry, bufs[|bufs| - 1]) == step
    ensures HandleAll(pf, bufs) == Handled(step.registry, before.sent + step.sent)
  {
  }

  lemma HandleAllSnoc(pf: Platform, bufs: seq<Buffer>, i: nat)
    requires i < |bufs| && HandleAll(pf, bufs[..i + 1]).Handled?
    ensures HandleAll(pf, bufs[..i]).Handled?
    ensures var before := HandleAll(pf, bufs[..i]);
            var step := Handle(pf, before.registry, bufs[i]);
            step.Handled? && HandleAll(pf, bufs[..i + 1]) == Handled(step.registry, before.sent + step.sent)
  {
    assert bufs[..i + 1][..i] == bufs[..i];
  }

  function RequestFrames(pf: Platform, h: seq<Request>): (fs: seq<Buffer>)
    ensures |fs| == |h| && forall i :: 0 <= i < |h| ==> fs[i] == RequestFrame(pf, h[i])
  {
    seq(|h|, i requires 0 <= i < |h| => RequestFrame(pf, h[i]))
  }

  function HeardAfter(pf: Platform, h: seq<Request>, r: Request): seq<Request> {
    if Passes(pf, RequestText(pf, r)) then h + [r] else h
  }

  /** The requests of a history whose frames the daemon does not reject. */
  function Heard(pf: Platform, h: seq<Request>): seq<Request> {
    if h == [] then [] else HeardAfter(pf, Heard(pf, h[..|h| - 1]), h[|h| - 1])
  }

  /** All replies owed during a history, in order: each request is answered from the registry it meets. */
  function RepliesDuring(h: seq<Request>): seq<Reply> {
    if h == [] then []
    else RepliesDuring(h[..|h| - 1]) + Providers.CReplies(Registry.Run(h[..|h| - 1]), h[|h| - 1])
  }

  lemma FramesSnoc(pf: Platform, h: seq<Request>)
    requires h != []
    ensures var n, fs := |h| - 1, RequestFrames(pf, h);
            fs[..n] == RequestFrames(pf, h[..n]) && fs[n] == RequestFrame(pf, h[n])
  {
  }

  lemma FramesConcat(pf: Platform, a: seq<Reply>, b: seq<Reply>)
    ensures ReplyFrames(pf, a + b) == ReplyFrames(pf, a) + ReplyFrames(pf, b)
  {
  }

  lemma RepliesSnoc(h: seq<Request>, r: Request)
    ensures RepliesDuring(h + [r]) == RepliesDuring(h) + Providers.CReplies(Registry.Run(h), r)
  {
    assert (h + [r])[..|h|] == h;
  }

  /** What the daemon has done after a history of heard requests. */
  function Done(pf: Platform, h: seq<Request>): Outcome {
    Handled(Registry.Run(h), ReplyFrames(pf, RepliesDuring(h)))
  }

  lemma DoneSnoc(pf: Platform, h: seq<Request>, r: Request)
    ensures var l := Registry.Run(h);
            Done(pf, h + [r]) == Handled(Registry.Step(l, r),
                                         Done(pf, h).sent + ReplyFrames(pf, Providers.CReplies(l, r)))
  {
    Registry.RunSnoc(h, r);
    RepliesSnoc(h, r);
    FramesConcat(pf, RepliesDuring(h), Providers.CReplies(Registry.Run(h), r));
  }

  lemma StepOnRequest(pf: Platform, l: seq<ServiceInfo>, r: Request)
    requires Speaks(pf) && AllSound(pf, l) && Sendable(pf, r)
    ensures Handle(pf, l, RequestFrame(pf, r)) ==
            if Passes(pf, RequestText(pf, r))
            then Handled(Registry.Step(l, r), ReplyFrames(pf, Providers.CReplies(l, r)))
            else Handled(l, [])
    ensures AllSound(pf, Registry.Step(l, r))
  {
    RequestRead(pf, r);
    ServeDefined(pf, l, r);
    StepKeepsSound(pf, l, r);
  }

  lemma DoneAfter(pf: Platform, h: seq<Request>, r: Request)
    requires Speaks(pf) && AllSound(pf, Registry.Run(h)) && Sendable(pf, r)
    ensures var o := Handle(pf, Registry.Run(h), RequestFrame(pf, r));
            o.Handled? && Handled(o.registry, Done(pf, h).sent + o.sent) == Done(pf, HeardAfter(pf, h, r))
    ensures AllSound(pf, Registry.Run(HeardAfter(pf, h, r)))
  {
    StepOnRequest(pf, Registry.Run(h), r);
    if Passes(pf, RequestText(pf, r)) {
      DoneSnoc(pf, h, r);
    } else {
      assert Done(pf, h).sent + [] == Done(pf, h).sent;
    }
  }

  /**
   After the frames of any history of sendable requests, the daemon has the registry that the heard ones determine,
   and has answered each of them, in order, from the registry it met.
   */
  lemma {:induction false} RunOnRequests(pf: Platform, h: seq<Request>)
    requires Speaks(pf) && forall i :: 0 <= i < |h| ==> Sendable(pf, h[i])
    ensures HandleAll(pf, RequestFrames(pf, h)) == Done(pf, Heard(pf, h))
    ensures AllSound(pf, Registry.Run(Heard(pf, h)))
  {
    if h == [] {
    } else {
      var g, r := h[..|h| - 1], h[|h| - 1];
      var before := Done(pf, Heard(pf, g));
      RunOnRequests(pf, g);
      DoneAfter(pf, Heard(pf, g), r);
      FramesSnoc(pf, h);
      HandleAllExtends(pf, RequestFrames(pf, h), before, Handle(pf, before.registry, RequestFrame(pf, r)));
    }
  }

  // ---------- the program ----------

  method SendReply(pf: Platform, r: Reply) returns (frame: Buffer)
    requires Writable(pf, [r])
    ensures frame == ReplyFrame(pf, r)
  {
    assert [r][0] == r;
    var pkt := BuildPkt(pf.signedChar, ReplyAction(r), pf.render(ReplyBody(r)));
    frame := pkt[..];
  }

  lemma OneReply(pf: Platform, r: Reply)
    ensures ReplyFrames(pf, [r]) == [ReplyFrame(pf, r)]
  {
  }

  method SendResult(pf: Platform, succ: bool) returns (sent: seq<Buffer>)
    requires Writable(pf, [if succ then Succeeded else NotFound])
    ensures sent == ReplyFrames(pf, [if succ then Succeeded else NotFound])
  {
    var reply := SendReply(pf, if succ then Succeeded else NotFound);
    sent := [reply];
    OneReply(pf, if succ then Succeeded else NotFound);
  }

  /** The inquiry loop: `list_get` for 0, 1, 2, ... until it fails. */
  method AnswerInquiry(pf: Platform, list: CList.ServiceInfoList, name: Text) returns (sent: seq<Buffer>)
    requires list.Valid()
    requires Writable(pf, Providers.FoundAll(Lookup.CAnswer(list.contents, name)))
    ensures sent == ReplyFrames(pf, Providers.FoundAll(Lookup.CAnswer(list.contents, name)))
  {
    sent := [];
    ghost var answer := Lookup.CAnswer(list.contents, name);
    var i := 0;
    while true
      invariant i <= |answer| && |sent| == i
      invariant forall j :: 0 <= j < i ==> sent[j] == ReplyFrame(pf, Found(answer[j]))
      decreases |answer| - i
    {
      var ret := list.Get(name, i);
      Lookup.AnswerAt(list.contents, name, i);
      if ret.None? {
        break;
      }
      assert Providers.FoundAll(answer)[i] == Found(ret.value);
      var reply := SendReply(pf, Found(ret.value));
      sent := sent + [reply];
      i := i + 1;
    }
  }

  method ServeRequest(pf: Platform, list: CList.ServiceInfoList, r: Request) returns (sent: seq<Buffer>)
    requires list.Valid() && Serve(pf, list.contents, r).Handled?
    modifies list.Repr
    ensures list.Valid() && fresh(list.Repr - old(list.Repr))
    ensures Serve(pf, old(list.contents), r) == Handled(list.contents, sent)
  {
    ghost var replies := Providers.CReplies(list.contents, r);
    match r {
      case Register(info) =>
        list.Add(info);
        sent := SendResult(pf, true);
      case Unregister(key) =>
        var i := list.Remove(key.device, key.service);
        sent := SendResult(pf, i >= 0);
      case Inquiry(name) =>
        sent := AnswerInquiry(pf, list, name);
        if sent == [] {
          sent := SendResult(pf, false);
        }
    }
    assert sent == ReplyFrames(pf, replies);
  }

  /** One buffer, on the program's heap list: ignored, or the request in it is served and answered. */
  method HandleBuffer(pf: Platform, list: CList.ServiceInfoList, buf: array<Byte>) returns (sent: seq<Buffer>)
    requires list.Valid() && buf.Length == BUF_LEN && buf !in list.Repr
    requires Handle(pf, list.contents, buf[..]).Handled?
    modifies list.Repr
    ensures list.Valid() && fresh(list.Repr - old(list.Repr))
    ensures Handle(pf, old(list.contents), buf[..]) == Handled(list.contents, sent)
    ensures if CDecode(buf[..]).Rejected? || CDecode(buf[..]).code > INQUIRY || ReadService(pf, buf[..]).Unparsed?
            then list.contents == old(list.contents) && sent == []
            else
              var r := RequestOf(CDecode(buf[..]).code, ReadService(pf, buf[..]).info);
              && list.contents == Registry.Step(old(list.contents), r)
              && sent == ReplyFrames(pf, Providers.CReplies(old(list.contents), r))
              && sent != []
  {
    HandleRefines(pf, list.contents, buf[..]);
    sent := [];
    var action := DecodeAction(buf);
    if action.Action? && action.code <= INQUIRY {
      var service := ReadService(pf, buf[..]);
      if service.Service? {
        sent := ServeRequest(pf, list, RequestOf(action.code, service.info));
      }
    }
  }

  /** A whole-frame read overwrites the reused buffer. */
  method Receive(buf: array<Byte>, frame: Buffer)
    requires buf.Length == BUF_LEN
    modifies buf
    ensures buf[..] == frame
  {
    for i := 0 to BUF_LEN
      invariant buf[..i] == frame[..i]
    {
      buf[i] := frame[i];
    }
    assert buf[..] == buf[..BUF_LEN];
  }

  /** `server_loop`: receives the buffers until a read fails, mutating the list and answering as it goes. */
  method ServerLoop(pf: Platform, received: seq<Buffer>) returns (list: CList.ServiceInfoList, sent: seq<Buffer>)
    requires HandleAll(pf, received).Handled?
    ensures list.Valid() && fresh(list.Repr)
    ensures HandleAll(pf, received) == Handled(list.contents, sent)
  {
    list := new CList.ServiceInfoList();
    var recPkt := new Byte[BUF_LEN](_ => 0);
    sent := [];
    for i := 0 to |received|
      invariant list.Valid() && fresh(list.Repr) && fresh(recPkt) && recPkt !in list.Repr
      invariant HandleAll(pf, received[..i]) == Handled(list.contents, sent)
    {
      HandledPrefix(pf, received, i + 1);
      HandleAllSnoc(pf, received, i);
      Receive(recPkt, received[i]);
      var more := HandleBuffer(pf, list, recPkt);
      sent := sent + more;
    }
    assert received[..|received|] == received;
  }
}
