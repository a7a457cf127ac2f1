/** One programmer and one target over channels that lose and repeat messages but keep their
    order, as a transition system, and the invariant every run keeps. */
module Protocol {
  import opened Bytes
  import opened Flash
  import opened Wire
  import opened Server
  import opened Client

  /** What one call of the programmer asks for. */
  datatype Op = Op(operation: byte, address: uint32, length: uint16, data: Sector)

  function RequestFor(op: Op, seq_: byte): Request {
    Request(VERSION, seq_, op.operation, STATUS_REQUEST, op.address, op.length, op.data)
  }

  /** Messages in flight. `tag` (the number of the transmission, from 1) and `id` (the number
      of the call) are history: no party looks at them. */
  datatype Packet = Packet(tag: nat, id: nat, request: Request)
  datatype Echo = Echo(tag: nat, id: nat, reply: Reply)

  /** A call whose request the target has accepted. */
  datatype Effect = Effect(id: nat, op: Op)

  /** What happened so far, kept beside the state of the parties. They read none of it, except
      that the last of `ops` is what the programmer's transmit buffer holds. */
  datatype History = History(
    flash0: seq<byte>,     // the flash at the start
    seq0: byte,            // the sequence number before the first transmission
    ops: seq<Op>,          // the calls made
    tx: seq<nat>,          // the call each transmission belongs to
    seen: nat,             // the highest tag the target has received
    lastTag: nat,          // the tag it has accepted last, 0 for none
    log: seq<Effect>)      // the calls that have taken effect, in order

  datatype World = World(
    exchange: Exchange,
    server: State,
    toServer: seq<Packet>,
    toClient: seq<Echo>,
    outcomes: seq<Outcome>, // how the finished calls ended
    h: History)

  const CLIENT: Address := Address(0, 0)

  datatype Step =
    | Start(op: Op)
    | Timeout
    | Deliver(repeat_: bool)
    | Serve(repeat_: bool)
    | LoseRequest(i: nat)
    | LoseReply(i: nat)
    | Stranger(sender: Address, request: Request)

  predicate Waiting(w: World) {
    w.exchange.result == None
  }

  predicate Enabled(w: World, step: Step) {
    match step
    case Start(op) => !Waiting(w) && Defined(|w.h.flash0|, RequestFor(op, 0))
    case Timeout => Waiting(w) && w.h.ops != []
    case Deliver(_) => Waiting(w) && w.toClient != []
    case Serve(_) => w.toServer != [] && Defined(|w.server.flash|, w.toServer[0].request)
    case LoseRequest(i) => i < |w.toServer|
    case LoseReply(i) => i < |w.toClient|
    case Stranger(sender, request) => sender != CLIENT && !OpensSession(request.operation)
  }

  function Remove<T>(s: seq<T>, i: nat): seq<T>
    requires i < |s|
  {
    s[..i] + s[i + 1..]
  }

  function OpOf(q: Request): Op {
    Op(q.operation, q.address, q.length, q.data)
  }

  /** A call that is already the last effect is not recorded twice. */
  function Record(log: seq<Effect>, e: Effect): seq<Effect> {
    if log != [] && log[|log| - 1].id == e.id then log else log + [e]
  }

  function Tagged(p: Packet, rs: seq<Reply>): seq<Echo> {
    seq(|rs|, i requires 0 <= i < |rs| => Echo(p.tag, p.id, rs[i]))
  }

  /** Puts the current call on the wire under the exchange's sequence number. */
  function Transmit(w: World, x: Exchange, ops: seq<Op>): World
    requires ops != []
  {
    var id := |ops| - 1;
    w.(exchange := x, h := w.h.(ops := ops, tx := w.h.tx + [id]),
       toServer := w.toServer + [Packet(|w.h.tx| + 1, id, RequestFor(ops[id], x.seq_))])
  }

  function Conclude(w: World, x: Exchange): World {
    w.(exchange := x, outcomes := w.outcomes + (if x.result.Some? then [x.result.value] else []))
  }

  /** The history once the target has received a packet. */
  function Noted(h: History, p: Packet, accepted: bool): History {
    h.(seen := p.tag,
       lastTag := if accepted then p.tag else h.lastTag,
       log := if accepted then Record(h.log, Effect(p.id, OpOf(p.request))) else h.log)
  }

  /** The target handles the packet at the head of its queue, which stays there. */
  function Receive(w: World): World
    requires w.toServer != [] && Defined(|w.server.flash|, w.toServer[0].request)
  {
    var p := w.toServer[0];
    w.(server := Served(w.server, p.request, CLIENT),
       toClient := w.toClient + Tagged(p, Sent(w.server, p.request, CLIENT)),
       h := Noted(w.h, p, Accepts(w.server, p.request, CLIENT)))
  }

  function DropRequest(w: World, i: nat): World
    requires i < |w.toServer|
  {
    w.(toServer := Remove(w.toServer, i))
  }

  function DropReply(w: World, i: nat): World
    requires i < |w.toClient|
  {
    w.(toClient := Remove(w.toClient, i))
  }

  /** A message that is delivered and repeated stays at the head of its queue. */
  function After(w: World, step: Step): World
    requires Enabled(w, step)
  {
    match step
    case Start(op) => Transmit(w, Begin(w.exchange.seq_, op.operation), w.h.ops + [op])
    case Timeout =>
      var x := OnEvent(w.exchange, Deadline);
      if x.result.Some? then Conclude(w, x) else Transmit(w, x, w.h.ops)
    case Deliver(repeat_) =>
      var v := Conclude(w, OnEvent(w.exchange, Frame(EncodeReply(w.toClient[0].reply))));
      if repeat_ then v else DropReply(v, 0)
    case Serve(repeat_) => if repeat_ then Receive(w) else DropRequest(Receive(w), 0)
    case LoseRequest(i) => DropRequest(w, i)
    case LoseReply(i) => DropReply(w, i)
    case Stranger(sender, request) => w.(server := Served(w.server, request, sender))
  }

  predicate Initial(w: World) {
    && !Waiting(w) && w.outcomes == [] && w.toServer == [] && w.toClient == []
    && w.server.lastSeq == 0 && w.server.owner == None && Complete(w.server.flash)
    && w.h == History(w.server.flash, w.exchange.seq_, [], [], 0, 0, [])
  }

  /** The reply at the head of the queue answers a transmission that lies a multiple of 256 back,
      so that it carries the awaited sequence number, and ends the call. */
  predicate Misleads(w: World) {
    && w.toClient != [] && w.toClient[0].tag < |w.h.tx| && (|w.h.tx| - w.toClient[0].tag) % 256 == 0
    && OnEvent(w.exchange, Frame(EncodeReply(w.toClient[0].reply))).result.Some?
  }

  /** The step ends call `id` with such a reply. */
  predicate EndsMisled(w: World, step: Step, id: nat) {
    step.Deliver? && Misleads(w) && id == |w.outcomes|
  }

  // ---------------------------------------------------------------- the atomic flash

  /** The flash after the logged calls, each applied once, in order. */
  function ApplyLog(flash: seq<byte>, log: seq<Effect>): (r: seq<byte>)
    ensures |r| == |flash|
  {
    if log == [] then flash
    else Apply(ApplyLog(flash, log[..|log| - 1]), RequestFor(log[|log| - 1].op, 0))
  }

  /** The effects up to and including call `id`. */
  function Upto(log: seq<Effect>, id: nat): seq<Effect> {
    if log == [] || log[|log| - 1].id <= id then log else Upto(log[..|log| - 1], id)
  }

  predicate Logged(log: seq<Effect>, id: nat) {
    exists k | 0 <= k < |log| :: log[k].id == id
  }

  predicate IsSlice(payload: seq<byte>, flash: seq<byte>, op: Op) {
    op.address + op.length <= |flash| && payload == flash[op.address..op.address + op.length]
  }

  function RefusalOf(h: History, op: Op): Option<byte> {
    Refusal(|h.flash0|, RequestFor(op, 0))
  }

  function Now(h: History): seq<byte> {
    ApplyLog(h.flash0, h.log)
  }

  // ---------------------------------------------------------------- the invariant

  predicate HistoryOk(h: History) {
    && Complete(h.flash0)
    && (forall i | 0 <= i < |h.ops| :: Defined(|h.flash0|, RequestFor(h.ops[i], 0)))
    && (forall i | 0 <= i < |h.tx| :: h.tx[i] < |h.ops|)
    && (forall i, j | 0 <= i < j < |h.tx| :: h.tx[i] <= h.tx[j])
    && (h.ops != [] ==> h.tx != [] && h.tx[|h.tx| - 1] == |h.ops| - 1)
  }

  predicate LogOk(h: History) {
    && h.lastTag <= h.seen <= |h.tx| && (h.lastTag == 0 <==> h.log == [])
    && (h.log != [] ==> h.log[|h.log| - 1].id == h.tx[h.lastTag - 1] && OpensSession(h.log[0].op.operation))
    && InOrder(h.log, h.ops)
  }

  /** The effects are those of calls made, each at most once, in call order. */
  predicate InOrder(log: seq<Effect>, ops: seq<Op>) {
    && (forall k | 0 <= k < |log| :: log[k].id < |ops| && log[k].op == ops[log[k].id])
    && (forall k, l | 0 <= k < l < |log| :: log[k].id < log[l].id)
  }

  predicate ClientOk(w: World) {
    && w.exchange.seq_ == Advance(w.h.seq0, |w.h.tx|)
    && |w.outcomes| == (if Waiting(w) then |w.h.ops| - 1 else |w.h.ops|)
    && (Waiting(w) ==> w.h.ops != [] && w.exchange.operation == w.h.ops[|w.h.ops| - 1].operation
                       && 1 <= w.exchange.tries <= TRIES)
  }

  predicate ServerOk(s: State, h: History) {
    && s.flash == Now(h) && s.owner == (if h.log == [] then None else Some(CLIENT))
    && (h.lastTag > 0 ==> s.lastSeq == Advance(h.seq0, h.lastTag))
  }

  predicate PacketOk(h: History, p: Packet) {
    && h.seen <= p.tag && 1 <= p.tag <= |h.tx| && p.id == h.tx[p.tag - 1] < |h.ops|
    && p.request == RequestFor(h.ops[p.id], Advance(h.seq0, p.tag))
  }

  predicate RequestsOk(toServer: seq<Packet>, h: History) {
    && (forall i | 0 <= i < |toServer| :: PacketOk(h, toServer[i]))
    && (forall i, j | 0 <= i < j < |toServer| :: toServer[i].tag <= toServer[j].tag)
  }

  /** Call `id`, refused for want of a session, has not taken effect and never will. */
  predicate Barred(h: History, id: nat) {
    && id < |h.ops| && !OpensSession(h.ops[id].operation)
    && 0 < h.seen <= |h.tx| && id <= h.tx[h.seen - 1]
    && (h.log == [] || id < h.log[0].id)
  }

  /** A reply to an accepted request; the latest READ still shows the present flash. */
  predicate Answers(h: History, a: Echo)
    requires a.id < |h.ops|
  {
    var op := h.ops[a.id];
    && a.tag <= h.lastTag && Logged(h.log, a.id)
    && match RefusalOf(h, op)
       case Some(status) => a.reply.status == status
       case None =>
         || (a.reply.status == STATUS_INPROGRESS && MayTakeTime(op.operation))
         || (a.reply.status == STATUS_OK &&
             (op.operation == OP_READ && a.tag == h.lastTag ==> IsSlice(a.reply.payload, Now(h), op)))
  }

  /** The reply belongs to a received transmission and echoes its request. */
  predicate EchoFields(h: History, a: Echo) {
    && 1 <= a.tag <= h.seen <= |h.tx| && a.id == h.tx[a.tag - 1] < |h.ops|
    && a.reply.version == VERSION && a.reply.seq_ == Advance(h.seq0, a.tag)
    && a.reply.operation == h.ops[a.id].operation
  }

  predicate EchoOk(h: History, a: Echo) {
    EchoFields(h, a) && if a.reply.status == STATUS_INV_SRC then Barred(h, a.id) else Answers(h, a)
  }

  predicate RepliesOk(toClient: seq<Echo>, h: History) {
    forall i | 0 <= i < |toClient| :: EchoOk(h, toClient[i])
  }

  /** What the end of call `id` says about the atomic flash. */
  predicate OutcomeOk(h: History, id: nat, outcome: Outcome) {
    && id < |h.ops|
    && match outcome
       case Returned(frame) =>
         && Logged(h.log, id) && RefusalOf(h, h.ops[id]) == None && |frame| >= REPLY_HEADER
         && (h.ops[id].operation == OP_READ ==>
               IsSlice(DecodeReply(frame).payload, ApplyLog(h.flash0, Upto(h.log, id)), h.ops[id]))
       case Threw(Rejected(status)) =>
         if status == STATUS_INV_SRC then Barred(h, id) else RefusalOf(h, h.ops[id]) == Some(status)
       case Threw(error) => error == NoResponse
  }

  /** The outcome of call `id`, if there is one yet, is true. */
  predicate TrueAt(w: World, id: nat) {
    id < |w.outcomes| ==> OutcomeOk(w.h, id, w.outcomes[id])
  }

  ghost predicate KeepsTruth(w: World, v: World) {
    forall id: nat | TrueAt(w, id) :: TrueAt(v, id)
  }

  /** What every step keeps, whatever is delivered and however late. */
  predicate Core(w: World) {
    && HistoryOk(w.h) && LogOk(w.h) && ClientOk(w) && ServerOk(w.server, w.h)
    && RequestsOk(w.toServer, w.h) && RepliesOk(w.toClient, w.h)
  }

  lemma InitialCore(w: World)
    requires Initial(w)
    ensures Core(w)
  {
  }

  // ---------------------------------------------------------------- preservation: sending

  predicate MayTransmit(w: World, x: Exchange, ops: seq<Op>) {
    && ops != [] && x.result == None && 1 <= x.tries <= TRIES
    && x.seq_ == Advance(w.exchange.seq_, 1) && x.operation == ops[|ops| - 1].operation
    && if Waiting(w) then ops == w.h.ops
       else |ops| == |w.h.ops| + 1 && w.h.ops <= ops && Defined(|w.h.flash0|, RequestFor(ops[|ops| - 1], 0))
  }

  lemma TransmitClient(w: World, x: Exchange, ops: seq<Op>)
    requires MayTransmit(w, x, ops) && HistoryOk(w.h) && ClientOk(w) && LogOk(w.h)
    ensures var v := Transmit(w, x, ops); HistoryOk(v.h) && ClientOk(v) && LogOk(v.h)
  {
    hide LogOk, HistoryOk, Advance, Defined, RequestFor;
    AdvanceSum(w.h.seq0, |w.h.tx|, 1);
    NewTransmission(w.h, ops);
    OldEffects(w.h, ops);
  }

  predicate Continues(h: History, ops: seq<Op>) {
    && ops != [] && h.ops <= ops
    && (ops == h.ops || (|ops| == |h.ops| + 1 && Defined(|h.flash0|, RequestFor(ops[|ops| - 1], 0))))
  }

  lemma NewTransmission(h: History, ops: seq<Op>)
    requires HistoryOk(h) && Continues(h, ops)
    ensures HistoryOk(h.(ops := ops, tx := h.tx + [|ops| - 1]))
  {
    hide Defined, Complete, RequestFor;
  }

  lemma OldEffects(h: History, ops: seq<Op>)
    requires LogOk(h) && Continues(h, ops)
    ensures LogOk(h.(ops := ops, tx := h.tx + [|ops| - 1]))
  {
    hide Defined, OpensSession, RequestFor;
  }

  lemma TransmitRequests(w: World, x: Exchange, ops: seq<Op>)
    requires MayTransmit(w, x, ops) && RequestsOk(w.toServer, w.h) && LogOk(w.h) && ClientOk(w)
    ensures var v := Transmit(w, x, ops); RequestsOk(v.toServer, v.h)
  {
    AdvanceSum(w.h.seq0, |w.h.tx|, 1);
    hide Advance, Defined, RequestFor;
    var v, n := Transmit(w, x, ops), |w.toServer|;
    assert PacketOk(v.h, v.toServer[n]);
    forall i | 0 <= i < n ensures PacketOk(v.h, v.toServer[i]) && v.toServer[i].tag <= v.toServer[n].tag {
      OldRequest(w.h, ops, w.toServer[i]);
    }
    hide PacketOk, LogOk, ClientOk;
    assert forall i | 0 <= i < n :: v.toServer[i] == w.toServer[i];
  }

  lemma OldRequest(h: History, ops: seq<Op>, p: Packet)
    requires Continues(h, ops) && PacketOk(h, p)
    ensures PacketOk(h.(ops := ops, tx := h.tx + [|ops| - 1]), p) && p.tag <= |h.tx|
  {
    hide Defined, RequestFor, Advance;
  }

  /** New calls and transmissions leave what is known of the old ones alone. */
  lemma TransmitHistory(w: World, x: Exchange, ops: seq<Op>)
    requires MayTransmit(w, x, ops) && RepliesOk(w.toClient, w.h)
    ensures var v := Transmit(w, x, ops);
            RepliesOk(v.toClient, v.h) && KeepsTruth(w, v)
  {
    hide EchoOk, OutcomeOk, Defined;
    var v := Transmit(w, x, ops);
    forall i | 0 <= i < |v.toClient| ensures EchoOk(v.h, v.toClient[i]) {
      OldReply(w.h, ops, w.toClient[i]);
    }
    forall id: nat | TrueAt(w, id) && id < |w.outcomes| ensures OutcomeOk(v.h, id, v.outcomes[id]) {
      OldOutcome(w.h, ops, id, w.outcomes[id]);
    }
  }

  lemma OldReply(h: History, ops: seq<Op>, a: Echo)
    requires Continues(h, ops) && EchoOk(h, a)
    ensures EchoOk(h.(ops := ops, tx := h.tx + [|ops| - 1]), a)
  {
    hide Defined, Refusal, Logged, IsSlice;
  }

  lemma OldOutcome(h: History, ops: seq<Op>, id: nat, outcome: Outcome)
    requires Continues(h, ops) && OutcomeOk(h, id, outcome)
    ensures OutcomeOk(h.(ops := ops, tx := h.tx + [|ops| - 1]), id, outcome)
  {
    hide Defined, Refusal, Logged, IsSlice, Upto;
  }

  lemma TransmitCore(w: World, x: Exchange, ops: seq<Op>)
    requires Core(w) && MayTransmit(w, x, ops)
    ensures var v := Transmit(w, x, ops);
            Core(v) && KeepsTruth(w, v)
  {
    TransmitClient(w, x, ops);
    TransmitRequests(w, x, ops);
    TransmitHistory(w, x, ops);
    hide HistoryOk, LogOk, ClientOk, RequestsOk, RepliesOk, KeepsTruth;
  }

  // ---------------------------------------------------------------- preservation: ending

  /** Ending a call adds its outcome and nothing else. */
  lemma ConcludeCore(w: World, x: Exchange)
    requires Core(w) && Waiting(w) && x == w.exchange.(result := x.result)
    ensures Core(Conclude(w, x))
    ensures forall id: nat | TrueAt(w, id) && id != |w.outcomes| :: TrueAt(Conclude(w, x), id)
    ensures x.result.Some? ==> OutcomeOk(w.h, |w.outcomes|, x.result.value) ==> KeepsTruth(w, Conclude(w, x))
    ensures x.result.None? ==> KeepsTruth(w, Conclude(w, x))
  {
    hide HistoryOk, LogOk, RequestsOk, RepliesOk, OutcomeOk;
  }

  lemma TimeoutCore(w: World)
    requires Core(w) && Enabled(w, Timeout)
    ensures var v := After(w, Timeout);
            Core(v) && KeepsTruth(w, v)
  {
    var x := OnEvent(w.exchange, Deadline);
    if x.result.Some? {
      ConcludeCore(w, x);
    } else {
      TransmitCore(w, x, w.h.ops);
    }
    hide HistoryOk, LogOk, ServerOk, RequestsOk, RepliesOk, KeepsTruth;
  }

  /** 8-bit sequence numbers agree exactly across a multiple of 256 transmissions. */
  lemma SequenceIdentifies(start: byte, current: nat, tag: nat)
    requires tag <= current
    ensures Advance(start, tag) == Advance(start, current) <==> (current - tag) % 256 == 0
  {
    var s: int := start;
    var a, b := (s + tag) / 256, (s + current) / 256;
    assert s + tag == 256 * a + Advance(start, tag) && s + current == 256 * b + Advance(start, current);
    assert current - tag == 256 * (b - a) + (Advance(start, current) - Advance(start, tag));
  }

  /** A frame that ends the call tells the truth about the atomic flash. */
  lemma DeliverOutcome(w: World)
    requires Core(w) && Waiting(w) && w.toClient != []
    requires !Misleads(w)
    ensures var x := OnEvent(w.exchange, Frame(EncodeReply(w.toClient[0].reply)));
            x.result.Some? ==> OutcomeOk(w.h, |w.outcomes|, x.result.value)
  {
    var a, x := w.toClient[0], OnEvent(w.exchange, Frame(EncodeReply(w.toClient[0].reply)));
    assert EchoOk(w.h, a);
    ReplyRoundTrip(a.reply, []);
    if x.result.Some? {
      SequenceIdentifies(w.h.seq0, |w.h.tx|, a.tag);
      assert a.reply.seq_ == w.exchange.seq_ && a.tag == |w.h.tx|;
      CurrentReply(w, a);
    }
  }

  /** A reply to the current transmission that ends the call tells the truth. */
  lemma CurrentReply(w: World, a: Echo)
    requires Core(w) && Waiting(w) && EchoOk(w.h, a) && a.tag == |w.h.tx|
    ensures var x := OnEvent(w.exchange, Frame(EncodeReply(a.reply)));
            x.result.Some? ==> OutcomeOk(w.h, |w.outcomes|, x.result.value)
  {
    hide ServerOk, RequestsOk, RepliesOk, Advance;
    ReplyRoundTrip(a.reply, []);
    assert a.id == |w.h.ops| - 1;
    assert Upto(w.h.log, a.id) == w.h.log;
  }

  lemma DeliverCore(w: World, repeat_: bool)
    requires Core(w) && Enabled(w, Deliver(repeat_))
    ensures var v := After(w, Deliver(repeat_));
            && Core(v) && (!Misleads(w) ==> KeepsTruth(w, v))
            && forall id: nat | TrueAt(w, id) && id != |w.outcomes| :: TrueAt(v, id)
  {
    var x := OnEvent(w.exchange, Frame(EncodeReply(w.toClient[0].reply)));
    ConcludeCore(w, x);
    if !Misleads(w) { DeliverOutcome(w); }
    if !repeat_ { DropReplyCore(Conclude(w, x), 0); }
    hide Core, OutcomeOk, Misleads;
  }

  // ---------------------------------------------------------------- preservation: loss

  lemma DropReplyCore(w: World, i: nat)
    requires Core(w) && i < |w.toClient|
    ensures Core(DropReply(w, i)) && KeepsTruth(w, DropReply(w, i))
  {
  }

  lemma DropRequestCore(w: World, i: nat)
    requires Core(w) && i < |w.toServer|
    ensures Core(DropRequest(w, i)) && KeepsTruth(w, DropRequest(w, i))
  {
    hide HistoryOk, LogOk, ServerOk, RepliesOk, PacketOk;
    var v := DropRequest(w, i);
    forall k | 0 <= k < |v.toServer| ensures PacketOk(v.h, v.toServer[k]) {
      assert PacketOk(w.h, w.toServer[if k < i then k else k + 1]);
    }
  }

  lemma StrangerCore(w: World, sender: Address, request: Request)
    requires Core(w) && Enabled(w, Stranger(sender, request))
    ensures After(w, Stranger(sender, request)) == w
  {
  }

  // ---------------------------------------------------------------- preservation: serving

  /** The request at the head of the queue, and whether the target accepts it. */
  predicate Head(s: State, h: History, p: Packet, accepted: bool) {
    && HistoryOk(h) && LogOk(h) && ServerOk(s, h) && PacketOk(h, p)
    && accepted == Accepts(s, p.request, CLIENT)
  }

  lemma ReceiveLog(s: State, h: History, p: Packet)
    requires Head(s, h, p, true)
    ensures LogOk(h) && LogOk(Noted(h, p, true))
    ensures h.log != [] ==> h.log[|h.log| - 1].id <= p.id
  {
    hide Served, Now, ApplyLog, Complete;
    var e := Effect(p.id, OpOf(p.request));
    assert h.ops[p.id] == OpOf(p.request);
    assert h.lastTag > 0 ==> h.tx[h.lastTag - 1] <= h.tx[p.tag - 1];
    assert h.log == [] ==> OpensSession(e.op.operation);
    hide Head, PacketOk, HistoryOk, OpensSession, LogOk;
    RecordLog(h, p.tag, e);
  }

  /** Recording one more effect keeps the log in order. */
  lemma RecordLog(h: History, tag: nat, e: Effect)
    requires LogOk(h) && 1 <= tag && h.seen <= tag <= |h.tx| && e.id == h.tx[tag - 1]
    requires e.id < |h.ops| && e.op == h.ops[e.id]
    requires if h.log == [] then OpensSession(e.op.operation) else h.log[|h.log| - 1].id <= e.id
    ensures LogOk(h.(seen := tag, lastTag := tag, log := Record(h.log, e)))
  {
    hide OpensSession;
    if h.log == [] || h.log[|h.log| - 1].id < e.id {
      InOrderAppend(h.log, h.ops, e);
    }
    hide InOrder;
  }

  lemma InOrderAppend(log: seq<Effect>, ops: seq<Op>, e: Effect)
    requires InOrder(log, ops) && (log == [] || log[|log| - 1].id < e.id) && e.id < |ops| && e.op == ops[e.id]
    ensures InOrder(log + [e], ops)
  {
  }

  lemma ReceiveHistory(s: State, h: History, p: Packet, accepted: bool)
    requires Head(s, h, p, accepted)
    ensures HistoryOk(Noted(h, p, accepted)) && LogOk(Noted(h, p, accepted))
  {
    hide LogOk, HistoryOk, Accepts, ServerOk, PacketOk, Noted;
    NotedHistory(h, p, accepted);
    if accepted {
      ReceiveLog(s, h, p);
    } else {
      SeenLog(h, p);
    }
  }

  lemma NotedHistory(h: History, p: Packet, accepted: bool)
    requires HistoryOk(h)
    ensures HistoryOk(Noted(h, p, accepted))
  {
    hide Defined, Complete, RequestFor, Record;
  }

  lemma SeenLog(h: History, p: Packet)
    requires LogOk(h) && PacketOk(h, p)
    ensures LogOk(Noted(h, p, false))
  {
    hide RequestFor, OpensSession, Advance;
  }

  /** A repeated execution of the same call leaves the flash as it was. */
  lemma ReceiveServer(s: State, h: History, p: Packet, accepted: bool)
    requires Head(s, h, p, accepted)
    ensures ServerOk(Served(s, p.request, CLIENT), Noted(h, p, accepted))
  {
    hide Complete, OpensSession, ApplyLog;
    if accepted {
      var e := Effect(p.id, OpOf(p.request));
      assert Apply(s.flash, p.request) == Apply(s.flash, RequestFor(e.op, 0));
      assert e.op == h.ops[p.id];
      ServeOwner(s, h, p);
      RecordFlash(h, e);
    }
  }

  lemma ServeOwner(s: State, h: History, p: Packet)
    requires Head(s, h, p, true)
    ensures Served(s, p.request, CLIENT).owner == Some(CLIENT) && p.tag > 0
    ensures Served(s, p.request, CLIENT).lastSeq == Advance(h.seq0, p.tag)
  {
    hide ServerOk, HistoryOk, LogOk, Advance, Apply;
  }

  /** Executing the last effect again, or the next one for the first time, is what the log says. */
  lemma RecordFlash(h: History, e: Effect)
    requires LogOk(h) && e.id < |h.ops| && e.op == h.ops[e.id]
    ensures Apply(Now(h), RequestFor(e.op, 0)) == ApplyLog(h.flash0, Record(h.log, e))
  {
    var log := h.log;
    if log != [] && log[|log| - 1].id == e.id {
      assert log[|log| - 1].op == e.op;
      ApplyIdempotent(ApplyLog(h.flash0, log[..|log| - 1]), RequestFor(e.op, 0));
    } else {
      assert (log + [e])[..|log|] == log;
    }
    hide Apply, RequestFor, OpensSession;
  }

  lemma ReceiveRequests(s: State, h: History, toServer: seq<Packet>, accepted: bool)
    requires toServer != [] && Head(s, h, toServer[0], accepted) && RequestsOk(toServer, h)
    ensures RequestsOk(toServer, Noted(h, toServer[0], accepted))
  {
  }

  /** What was barred stays barred: the first effect can only be a later session request. */
  lemma ReceiveBarred(s: State, h: History, p: Packet, accepted: bool, id: nat)
    requires Head(s, h, p, accepted) && Barred(h, id)
    ensures Barred(Noted(h, p, accepted), id)
  {
    hide Now, Defined, Complete;
    assert h.tx[h.seen - 1] <= h.tx[p.tag - 1];
    assert p.request.operation == h.ops[p.id].operation;
  }

  lemma LoggedRecord(log: seq<Effect>, e: Effect, id: nat)
    ensures Logged(log, id) || e.id == id ==> Logged(Record(log, e), id)
  {
    var v := Record(log, e);
    if k :| 0 <= k < |log| && log[k].id == id {
      assert v[k].id == id;
    } else if e.id == id {
      assert v[|v| - 1].id == id;
    }
  }

  lemma ReceiveOldReply(s: State, h: History, p: Packet, accepted: bool, a: Echo)
    requires Head(s, h, p, accepted) && EchoOk(h, a)
    ensures EchoOk(Noted(h, p, accepted), a)
  {
    hide Answers, Barred, HistoryOk, LogOk, ServerOk, Accepts, Defined, Record, Advance;
    assert EchoFields(Noted(h, p, accepted), a);
    hide EchoFields;
    if a.reply.status == STATUS_INV_SRC {
      ReceiveBarred(s, h, p, accepted, a.id);
    } else if accepted {
      OldAnswers(s, h, p, a);
    } else {
      SameAnswers(h, p, a);
    }
  }

  lemma SameAnswers(h: History, p: Packet, a: Echo)
    requires EchoFields(h, a) && Answers(h, a)
    ensures a.id < |Noted(h, p, false).ops| && Answers(Noted(h, p, false), a)
  {
    hide Logged, Refusal, IsSlice, ApplyLog, RequestFor;
  }

  lemma OldAnswers(s: State, h: History, p: Packet, a: Echo)
    requires Head(s, h, p, true) && EchoFields(h, a) && Answers(h, a)
    ensures Answers(Noted(h, p, true), a)
  {
    hide Now, Record, Logged, Refusal, IsSlice, Complete, Defined, RequestFor;
    LoggedRecord(h.log, Effect(p.id, OpOf(p.request)), a.id);
    if a.tag == p.tag {
      RepeatOpens(s, h, p);
    }
  }

  /** A packet accepted twice opens a session: any other one is a duplicate by then. */
  lemma RepeatOpens(s: State, h: History, p: Packet)
    requires Head(s, h, p, true) && h.lastTag == p.tag
    ensures p.id < |h.ops| && OpensSession(h.ops[p.id].operation)
  {
    hide HistoryOk, LogOk, Now, Apply;
  }

  lemma ReceiveInvSource(s: State, h: History, p: Packet)
    requires Head(s, h, p, false) && WellFormed(p.request) && s.owner != Some(CLIENT) && !OpensSession(p.request.operation)
    ensures Barred(Noted(h, p, false), p.id)
  {
  }

  /** Whether a request is refused depends on neither its sequence number nor the bytes stored. */
  lemma SameRefusal(s: State, h: History, p: Packet)
    requires Head(s, h, p, true)
    ensures p.id < |h.ops| && RefusalOf(h, h.ops[p.id]) == Refusal(|s.flash|, p.request)
  {
    assert p.request == RequestFor(h.ops[p.id], Advance(h.seq0, p.tag)) && |s.flash| == |h.flash0|;
    hide Head, ServerOk, HistoryOk, LogOk, PacketOk, ReadRefused;
  }

  /** What a reply to an accepted request says, and what it shows of the flash. */
  lemma ReplyMeans(s: State, q: Request, r: Reply)
    requires Defined(|s.flash|, q) && r in Replies(s.flash, s.devId, q)
    ensures match Refusal(|s.flash|, q)
            case Some(status) => r.status == status
            case None =>
              || (r.status == STATUS_INPROGRESS && MayTakeTime(q.operation))
              || (r.status == STATUS_OK && (q.operation == OP_READ ==>
                    IsSlice(r.payload, s.flash, OpOf(q)) && Apply(s.flash, q) == s.flash))
  {
  }

  lemma ReceiveAnswer(s: State, h: History, p: Packet, r: Reply)
    requires Head(s, h, p, true) && Defined(|s.flash|, p.request) && r in Replies(s.flash, s.devId, p.request)
    ensures Answers(Noted(h, p, true), Echo(p.tag, p.id, r))
  {
    ReceiveServer(s, h, p, true);
    LoggedRecord(h.log, Effect(p.id, OpOf(p.request)), p.id);
    SameRefusal(s, h, p);
    ReplyMeans(s, p.request, r);
    hide Replies, Refusal, Accepts, Apply, Advance;
    hide HistoryOk, LogOk, Record, Logged, ApplyLog, Complete;
  }

  /** Every reply echoes its request; only a request that is not accepted is answered INV_SRC. */
  lemma SentEchoes(s: State, q: Request, r: Reply)
    requires Defined(|s.flash|, q) && r in Sent(s, q, CLIENT)
    ensures r.version == q.version && r.seq_ == q.seq_ && r.operation == q.operation
    ensures if Accepts(s, q, CLIENT) then r.status != STATUS_INV_SRC && r in Replies(s.flash, s.devId, q)
            else r.status == STATUS_INV_SRC && WellFormed(q) && s.owner != Some(CLIENT) && !OpensSession(q.operation)
  {
  }

  /** The target's replies: a refusal, or progress and then the finished operation. */
  lemma ReceiveNewReply(s: State, h: History, p: Packet, accepted: bool, r: Reply)
    requires Head(s, h, p, accepted) && Defined(|s.flash|, p.request) && r in Sent(s, p.request, CLIENT)
    ensures EchoOk(Noted(h, p, accepted), Echo(p.tag, p.id, r))
  {
    hide EchoFields, Answers, Barred, Accepts, Sent, Replies, Defined, PacketOk;
    hide HistoryOk, LogOk, ServerOk, Noted, OpensSession;
    SentEchoes(s, p.request, r);
    NewEchoFields(s, h, p, accepted, r);
    if accepted {
      ReceiveAnswer(s, h, p, r);
    } else {
      ReceiveInvSource(s, h, p);
    }
  }

  lemma NewEchoFields(s: State, h: History, p: Packet, accepted: bool, r: Reply)
    requires Head(s, h, p, accepted)
    requires r.version == p.request.version && r.seq_ == p.request.seq_ && r.operation == p.request.operation
    ensures EchoFields(Noted(h, p, accepted), Echo(p.tag, p.id, r))
  {
    hide HistoryOk, LogOk, ServerOk, Accepts, Advance, Record;
  }

  lemma ReceiveReplies(s: State, h: History, p: Packet, accepted: bool, toClient: seq<Echo>)
    requires Head(s, h, p, accepted) && Defined(|s.flash|, p.request) && RepliesOk(toClient, h)
    ensures RepliesOk(toClient + Tagged(p, Sent(s, p.request, CLIENT)), Noted(h, p, accepted))
  {
    var h', rs := Noted(h, p, accepted), Sent(s, p.request, CLIENT);
    var old_, new_ := toClient, Tagged(p, rs);
    hide EchoOk, HistoryOk, LogOk, ServerOk, PacketOk, Sent, Accepts, Noted, Defined;
    forall i | 0 <= i < |old_| ensures EchoOk(h', old_[i]) {
      ReceiveOldReply(s, h, p, accepted, old_[i]);
    }
    forall i | 0 <= i < |new_| ensures EchoOk(h', new_[i]) {
      ReceiveNewReply(s, h, p, accepted, rs[i]);
    }
  }

  lemma UptoRecord(log: seq<Effect>, e: Effect, id: nat)
    requires forall k, l | 0 <= k < l < |log| :: log[k].id < log[l].id
    requires Logged(log, id) && (log != [] ==> log[|log| - 1].id <= e.id)
    ensures Upto(Record(log, e), id) == Upto(log, id)
  {
  }

  lemma ReceiveOutcome(s: State, h: History, p: Packet, accepted: bool, id: nat, outcome: Outcome)
    requires Head(s, h, p, accepted) && OutcomeOk(h, id, outcome)
    ensures OutcomeOk(Noted(h, p, accepted), id, outcome)
  {
    hide Head, Barred, IsSlice, Refusal, Record, Upto, ApplyLog, Logged, LogOk, DecodeReply;
    if outcome == Threw(Rejected(STATUS_INV_SRC)) {
      ReceiveBarred(s, h, p, accepted, id);
    } else if outcome.Returned? && accepted {
      ReceiveLog(s, h, p);
      LogIncreases(h);
      LoggedRecord(h.log, Effect(p.id, OpOf(p.request)), id);
      UptoRecord(h.log, Effect(p.id, OpOf(p.request)), id);
    }
  }

  lemma LogIncreases(h: History)
    requires LogOk(h)
    ensures forall k, l | 0 <= k < l < |h.log| :: h.log[k].id < h.log[l].id
  {
  }

  lemma ReceiveClient(w: World, p: Packet, accepted: bool)
    requires ClientOk(w) && Enabled(w, Serve(true)) && p == w.toServer[0] && accepted == Accepts(w.server, p.request, CLIENT)
    ensures ClientOk(Receive(w)) && Receive(w).toServer == w.toServer && Receive(w).outcomes == w.outcomes
  {
  }

  lemma ReceiveCore(w: World)
    requires Core(w) && Enabled(w, Serve(true))
    ensures var v := Receive(w);
            Core(v) && v.toServer == w.toServer && KeepsTruth(w, v)
  {
    var p := w.toServer[0];
    var accepted := Accepts(w.server, p.request, CLIENT);
    assert PacketOk(w.h, p);
    var v := Receive(w);
    assert v.h == Noted(w.h, p, accepted) && v.server == Served(w.server, p.request, CLIENT);
    assert v.toClient == w.toClient + Tagged(p, Sent(w.server, p.request, CLIENT));
    ReceiveClient(w, p, accepted);
    hide HistoryOk, LogOk, ServerOk, RequestsOk, RepliesOk, OutcomeOk, ClientOk, PacketOk;
    hide Accepts, Sent, Served, Tagged, Defined, Noted, Receive;
    ReceiveHistory(w.server, w.h, p, accepted);
    ReceiveServer(w.server, w.h, p, accepted);
    ReceiveRequests(w.server, w.h, w.toServer, accepted);
    ReceiveReplies(w.server, w.h, p, accepted, w.toClient);
    forall id: nat | TrueAt(w, id) && id < |w.outcomes| ensures OutcomeOk(v.h, id, v.outcomes[id]) {
      ReceiveOutcome(w.server, w.h, p, accepted, id, w.outcomes[id]);
    }
  }

  /** The target can always handle the packet at the head of its queue. */
  lemma ServeEnabled(w: World, repeat_: bool)
    requires Core(w) && w.toServer != []
    ensures Enabled(w, Serve(repeat_))
  {
  }

  lemma StartCore(w: World, op: Op)
    requires Core(w) && Enabled(w, Start(op))
    ensures var v := After(w, Start(op)); Core(v) && KeepsTruth(w, v)
  {
    TransmitCore(w, Begin(w.exchange.seq_, op.operation), w.h.ops + [op]);
    hide Core, TrueAt;
  }

  lemma ServeCore(w: World, repeat_: bool)
    requires Core(w) && Enabled(w, Serve(repeat_))
    ensures var v := After(w, Serve(repeat_)); Core(v) && KeepsTruth(w, v)
  {
    hide Core, TrueAt, Receive;
    ReceiveCore(w);
    if !repeat_ { DropRequestCore(Receive(w), 0); }
  }

  /** Every step keeps the core invariant and the truth of each outcome; the one it adds is true
      unless a misleading reply is delivered. */
  lemma StepCore(w: World, step: Step)
    requires Core(w) && Enabled(w, step)
    ensures Core(After(w, step))
    ensures forall id: nat | TrueAt(w, id) && !EndsMisled(w, step, id) :: TrueAt(After(w, step), id)
  {
    hide Core, TrueAt, Misleads, Receive, Transmit, Conclude, OnEvent;
    match step
    case Start(op) => StartCore(w, op);
    case Timeout => TimeoutCore(w);
    case Deliver(repeat_) => DeliverCore(w, repeat_);
    case Serve(repeat_) => ServeCore(w, repeat_);
    case LoseRequest(i) => DropRequestCore(w, i);
    case LoseReply(i) => DropReplyCore(w, i);
    case Stranger(sender, request) => StrangerCore(w, sender, request);
  }
}
