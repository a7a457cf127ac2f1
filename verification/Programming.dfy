/** The scheduled actions sent through the protocol, from the bytes on the wire to the flash. */
module Programming {
  import opened Bytes
  import opened Flash
  import opened Canonical
  import opened Landing
  import P = Protocol
  import R = Runs
  import S = Server
  import W = Wire
  import C = Client
  import T = Target

  function OpFor(act: Action): P.Op
    requires act.address < TWO_32
  {
    match act
    case Erase(address) => P.Op(W.OP_ERASE, address, 0, seq(WRITE_SIZE, _ => 0))
    case Write(address, data) => P.Op(W.OP_WRITE, address, 0, data)
  }

  /** `ops` asks for the actions of `t`, one for one. */
  predicate Asks(ops: seq<P.Op>, t: seq<Action>) {
    |ops| == |t| && forall k | 0 <= k < |t| :: t[k].address < TWO_32 && ops[k] == OpFor(t[k])
  }

  lemma AsksAppend(ops: seq<P.Op>, t: seq<Action>, op: P.Op, act: Action)
    requires Asks(ops, t) && act.address < TWO_32 && op == OpFor(act)
    ensures Asks(ops + [op], t + [act])
  {
    hide OpFor;
  }

  /** Requests determine the actions they ask for. */
  lemma AsksOnce(ops: seq<P.Op>, t: seq<Action>, t': seq<Action>)
    requires Asks(ops, t) && Asks(ops, t')
    ensures t == t'
  {
    forall k | 0 <= k < |t| ensures t[k] == t'[k] {
      assert ops[k] == OpFor(t[k]) == OpFor(t'[k]);
    }
  }

  // ---------------------------------------------------------------- messages and requests

  /** The bytes of a selected operation mean to the target what the protocol's request says. */
  lemma PacketMeansRequest(tx: seq<byte>, op: P.Op, rest: seq<byte>, pad: nat, s: S.State, sender: S.Address)
    requires C.Prepared(tx) && |rest| == W.FRAME_SIZE - W.REQUEST_HEADER && pad <= 2
    requires op.operation != W.OP_WRITE && S.Defined(|s.flash|, P.RequestFor(op, tx[1]))
    ensures var q := W.DecodeRequest(C.Select(tx, op.operation, op.address, op.length)[..W.REQUEST_HEADER] + rest, pad);
            && S.Defined(|s.flash|, q)
            && S.Served(s, q, sender) == S.Served(s, P.RequestFor(op, tx[1]), sender)
            && S.Sent(s, q, sender) == S.Sent(s, P.RequestFor(op, tx[1]), sender)
  {
    C.SelectArrives(tx, op.operation, op.address, op.length, rest, pad);
  }

  /** A WRITE message is a request of the protocol too: one for the address the last selected
      operation left in the header, with the data shifted by the padding. */
  lemma WriteMeansRequest(tx: seq<byte>, address: uint32, data: Sector, rest: seq<byte>, pad: nat)
    requires C.Prepared(tx) && |rest| == W.FRAME_SIZE - C.WRITE_MESSAGE && pad <= 2
    ensures W.DecodeRequest(C.PrepareWrite(tx, address, data)[..C.WRITE_MESSAGE] + rest, pad) ==
            P.RequestFor(P.Op(W.OP_WRITE, C.HeaderAddress(tx), FromBe16(tx[8..10]), Shifted(data, rest[..pad])), tx[1])
  {
    C.WriteArrives(tx, address, data, rest, pad);
    var raw := C.PrepareWrite(tx, address, data)[..C.WRITE_MESSAGE] + rest;
    assert raw[8..10] == tx[8..10];
  }

  /** What the request in the target's frame buffer asks for, blank in the fields its operation
      does not use. */
  function Asked(frame: seq<byte>, pad: nat): P.Op
    requires |frame| == W.FRAME_SIZE && pad <= 2
  {
    var q := W.DecodeRequest(frame, pad);
    P.Op(q.operation, q.address, if q.operation == W.OP_READ then q.length else 0,
         if q.operation == W.OP_WRITE then q.data else seq(WRITE_SIZE, _ => 0))
  }

  /** Nothing the target does or sends depends on the blank fields. */
  lemma AskedMeansRequest(frame: seq<byte>, pad: nat, s: S.State, sender: S.Address)
    requires |frame| == W.FRAME_SIZE && pad <= 2 && S.WellFormed(W.DecodeRequest(frame, pad))
    ensures var q, q' := W.DecodeRequest(frame, pad), P.RequestFor(Asked(frame, pad), frame[1]);
            && S.Served(s, q, sender) == S.Served(s, q', sender)
            && S.Defined(|s.flash|, q) == S.Defined(|s.flash|, q')
            && (S.Defined(|s.flash|, q) ==> S.Sent(s, q, sender) == S.Sent(s, q', sender))
  {
  }

  // ---------------------------------------------------------------- the client's calls

  /** A call of `erase` or `write`, the sequence number its exchange ends under, and what the
      target's frame buffer held before its message arrived. */
  datatype Call = Call(act: Action, seq_: byte, buf: seq<byte>)

  predicate CallOk(c: Call) {
    c.act.address < TWO_32 && |c.buf| == W.FRAME_SIZE
  }

  function Actions(calls: seq<Call>): (t: seq<Action>)
    ensures |t| == |calls|
  {
    seq(|calls|, k requires 0 <= k < |calls| => calls[k].act)
  }

  lemma ActionsStep(calls: seq<Call>)
    requires calls != []
    ensures Actions(calls) == Actions(calls[..|calls| - 1]) + [calls[|calls| - 1].act]
  {
  }

  /** The transmit buffer once `erase` or `write` has prepared its message. */
  function Prepare(tx: seq<byte>, act: Action): (r: seq<byte>)
    requires |tx| == C.TX_SIZE && act.address < TWO_32
    ensures |r| == C.TX_SIZE
  {
    match act
    case Erase(address) => C.Select(tx, W.OP_ERASE, address, 0)
    case Write(address, data) => C.PrepareWrite(tx, address, data)
  }

  function MessageSize(act: Action): nat {
    if act.Erase? then W.REQUEST_HEADER else C.WRITE_MESSAGE
  }

  /** The transmit buffer as the call leaves it. */
  function Message(tx: seq<byte>, c: Call): (r: seq<byte>)
    requires |tx| == C.TX_SIZE && CallOk(c)
    ensures |r| == C.TX_SIZE
  {
    Prepare(tx, c.act)[1 := c.seq_]
  }

  /** The frame buffer of the target once the call's message has been received. */
  function Arrived(tx: seq<byte>, c: Call): (frame: seq<byte>)
    requires |tx| == C.TX_SIZE && CallOk(c)
    ensures |frame| == W.FRAME_SIZE
  {
    T.Received(c.buf, Message(tx, c)[..MessageSize(c.act)])
  }

  function BufferAfter(tx: seq<byte>, calls: seq<Call>): (r: seq<byte>)
    requires |tx| == C.TX_SIZE && forall c | c in calls :: CallOk(c)
    ensures |r| == C.TX_SIZE
  {
    if calls == [] then tx
    else
      var n := |calls| - 1;
      assert calls[n] in calls;
      Message(BufferAfter(tx, calls[..n]), calls[n])
  }

  /** The requests the target makes out of the messages, one for each call. */
  function ClientOps(tx: seq<byte>, calls: seq<Call>, pad: nat): (ops: seq<P.Op>)
    requires |tx| == C.TX_SIZE && pad <= 2 && forall c | c in calls :: CallOk(c)
    ensures |ops| == |calls|
  {
    if calls == [] then []
    else
      var n := |calls| - 1;
      assert calls[n] in calls;
      ClientOps(tx, calls[..n], pad) + [Asked(Arrived(BufferAfter(tx, calls[..n]), calls[n]), pad)]
  }

  /** The bytes behind the message that the padding makes part of the data. */
  predicate TailIs(c: Call, pad: nat, tail: seq<byte>) {
    |c.buf| == W.FRAME_SIZE && pad <= 2 && tail == c.buf[C.WRITE_MESSAGE..C.WRITE_MESSAGE + pad]
  }

  lemma {:induction false} HeaderSelected(tx: seq<byte>, calls: seq<Call>)
    requires C.Prepared(tx) && forall c | c in calls :: CallOk(c)
    ensures C.Prepared(BufferAfter(tx, calls))
    ensures C.HeaderAddress(BufferAfter(tx, calls)) == Selected(Actions(calls), C.HeaderAddress(tx))
  {
    if calls != [] {
      var n := |calls| - 1;
      HeaderSelected(tx, calls[..n]);
      assert calls[n] in calls;
      MessageHeader(BufferAfter(tx, calls[..n]), calls[n]);
      ActionsStep(calls);
      PlacedAppend(Actions(calls[..n]), calls[n].act, C.HeaderAddress(tx), []);
      hide C.Prepared, C.HeaderAddress, Message, Selected, Placed, Actions;
    }
  }

  lemma MessageHeader(tx: seq<byte>, c: Call)
    requires C.Prepared(tx) && CallOk(c)
    ensures C.Prepared(Message(tx, c))
    ensures C.HeaderAddress(Message(tx, c)) == if c.act.Erase? then c.act.address else C.HeaderAddress(tx)
  {
    assert c.act.Write? ==> Message(tx, c)[4..8] == tx[4..8];
    assert c.act.Erase? ==> Message(tx, c)[4..8] == Be32(c.act.address);
    if c.act.Erase? { BigEndianRoundTrip(c.act.address, 0, []); }
  }

  /** One call, as the target understands it. */
  lemma CallPlaced(tx: seq<byte>, c: Call, pad: nat, tail: seq<byte>)
    requires C.Prepared(tx) && CallOk(c) && TailIs(c, pad, tail)
    ensures Place(c.act, C.HeaderAddress(tx), tail).address < TWO_32
    ensures Asked(Arrived(tx, c), pad) == OpFor(Place(c.act, C.HeaderAddress(tx), tail))
    ensures S.WellFormed(W.DecodeRequest(Arrived(tx, c), pad)) && Arrived(tx, c)[1] == c.seq_
  {
    hide Message, Arrived, OpFor, C.HeaderAddress, W.DecodeRequest;
    match c.act {
      case Erase(address) => ErasePlaced(tx, c, pad);
      case Write(address, data) => WritePlaced(tx, c, pad, tail);
    }
  }

  lemma ErasePlaced(tx: seq<byte>, c: Call, pad: nat)
    requires C.Prepared(tx) && CallOk(c) && c.act.Erase? && pad <= 2
    ensures Asked(Arrived(tx, c), pad) == OpFor(c.act)
    ensures S.WellFormed(W.DecodeRequest(Arrived(tx, c), pad)) && Arrived(tx, c)[1] == c.seq_
  {
    var numbered := tx[1 := c.seq_];
    assert Message(tx, c) == C.Select(numbered, W.OP_ERASE, c.act.address, 0);
    C.SelectArrives(numbered, W.OP_ERASE, c.act.address, 0, c.buf[W.REQUEST_HEADER..], pad);
    hide C.Select, W.DecodeRequest, Message;
  }

  lemma WritePlaced(tx: seq<byte>, c: Call, pad: nat, tail: seq<byte>)
    requires C.Prepared(tx) && CallOk(c) && c.act.Write? && TailIs(c, pad, tail)
    ensures Asked(Arrived(tx, c), pad) == OpFor(Write(C.HeaderAddress(tx), Shifted(c.act.data, tail)))
    ensures S.WellFormed(W.DecodeRequest(Arrived(tx, c), pad)) && Arrived(tx, c)[1] == c.seq_
  {
    var numbered, rest := tx[1 := c.seq_], c.buf[C.WRITE_MESSAGE..];
    assert numbered[4..8] == tx[4..8] && rest[..pad] == tail;
    assert Message(tx, c) == C.PrepareWrite(numbered, c.act.address, c.act.data);
    C.WriteArrives(numbered, c.act.address, c.act.data, rest, pad);
    hide C.PrepareWrite, W.DecodeRequest, Message;
  }

  /** Each of the up to three frames a call puts on the wire asks for the same, under its own
      sequence number. */
  lemma TransmissionPlaced(tx: seq<byte>, act: Action, n: nat, i: nat, buf: seq<byte>, pad: nat, tail: seq<byte>)
    requires C.Prepared(tx) && act.address < TWO_32 && i < n && TailIs(Call(act, 0, buf), pad, tail)
    ensures var seq_ := C.Advance(tx[1], i + 1);
            var frame := T.Received(buf, C.Transmissions(Prepare(tx, act), MessageSize(act), n)[i]);
            && frame == Arrived(tx, Call(act, seq_, buf)) && frame[1] == seq_
            && Place(act, C.HeaderAddress(tx), tail).address < TWO_32
            && Asked(frame, pad) == OpFor(Place(act, C.HeaderAddress(tx), tail))
  {
    CallPlaced(tx, Call(act, C.Advance(tx[1], i + 1), buf), pad, tail);
    assert Prepare(tx, act)[1] == tx[1];
    hide Asked, C.PrepareWrite, C.Select, Prepare, OpFor;
  }

  /** The requests of the client's calls are those of the placed actions. */
  lemma {:induction false} ClientOpsPlaced(tx: seq<byte>, calls: seq<Call>, pad: nat, tail: seq<byte>)
    requires C.Prepared(tx) && pad <= 2 && forall c | c in calls :: CallOk(c) && TailIs(c, pad, tail)
    requires |tail| == pad
    ensures Asks(ClientOps(tx, calls, pad), Placed(Actions(calls), C.HeaderAddress(tx), tail))
  {
    if calls != [] {
      ClientOpsPlaced(tx, calls[..|calls| - 1], pad, tail);
      ClientOpsStep(tx, calls, pad, tail);
      hide *;
    }
  }

  lemma ClientOpsStep(tx: seq<byte>, calls: seq<Call>, pad: nat, tail: seq<byte>)
    requires C.Prepared(tx) && pad <= 2 && forall c | c in calls :: CallOk(c) && TailIs(c, pad, tail)
    requires |tail| == pad && calls != []
    requires var before := calls[..|calls| - 1];
             Asks(ClientOps(tx, before, pad), Placed(Actions(before), C.HeaderAddress(tx), tail))
    ensures Asks(ClientOps(tx, calls, pad), Placed(Actions(calls), C.HeaderAddress(tx), tail))
  {
    assert |tx| == C.TX_SIZE;
    hide C.Prepared, C.HeaderAddress, Message, Selected, Placed, Place, Asked, Arrived, OpFor, TailIs, Asks, CallOk, Actions;
    var n, header := |calls| - 1, C.HeaderAddress(tx);
    var before, t := BufferAfter(tx, calls[..n]), Actions(calls[..n]);
    assert calls[n] in calls;
    HeaderSelected(tx, calls[..n]);
    CallPlaced(before, calls[n], pad, tail);
    ActionsStep(calls);
    PlacedAppend(t, calls[n].act, header, tail);
    AsksAppend(ClientOps(tx, calls[..n], pad), Placed(t, header, tail),
      Asked(Arrived(before, calls[n]), pad), Place(calls[n].act, Selected(t, header), tail));
  }

  /** The calls of a canonical trace ask for exactly the scheduled actions if and only if every
      touched sector is the first of its page and the padding shifts no other byte into it. */
  lemma RequestsScheduledExactly(m: Memory, tx: seq<byte>, calls: seq<Call>, pad: nat, tail: seq<byte>)
    requires C.Prepared(tx) && pad <= 2 && forall c | c in calls :: CallOk(c) && TailIs(c, pad, tail)
    requires |tail| == pad && Within(m, ADDRESS_SPACE) && Actions(calls) == CanonicalTrace(m)
    ensures Asks(ClientOps(tx, calls, pad), CanonicalTrace(m)) <==>
            forall s: nat | Touched(m, s) :: Faithful(m, s, tail)
  {
    var ops, t, placed := ClientOps(tx, calls, pad), CanonicalTrace(m), Placed(CanonicalTrace(m), C.HeaderAddress(tx), tail);
    ClientOpsPlaced(tx, calls, pad, tail);
    ScheduledExactly(m, C.HeaderAddress(tx), tail);
    if Asks(ops, t) {
      AsksOnce(ops, t, placed);
    }
    hide *;
  }

  // ---------------------------------------------------------------- runs

  /** The device accepts exactly the acceptable actions and does to its flash what they ask for. */
  lemma ApplyAction(flash: seq<byte>, act: Action)
    requires S.Complete(flash) && act.address < TWO_32
    ensures S.Refusal(|flash|, P.RequestFor(OpFor(act), 0)) == S.None <==> Acceptable(act, |flash|)
    ensures Acceptable(act, |flash|) ==> S.Apply(flash, P.RequestFor(OpFor(act), 0)) == Perform(Overwriting, flash, act)
  {
    var unit := if act.Erase? then ERASE_SIZE else WRITE_SIZE;
    if act.address % unit == 0 && act.address < |flash| {
      T.UnitFits(act.address, |flash|, unit);
    }
  }

  /** A log of consecutive calls, the first a session request and the rest the actions of a
      trace, none of them refused, leaves what the trace leaves. */
  lemma {:induction false} ApplyTrace(flash: seq<byte>, log: seq<P.Effect>, ops: seq<P.Op>, trace: seq<Action>)
    requires |log| == |ops| + 1 && S.Complete(flash) && Asks(ops, trace)
    requires W.OpensSession(log[0].op.operation) && forall k | 0 <= k < |ops| :: log[k + 1].op == ops[k]
    requires forall k | 0 <= k < |ops| :: S.Refusal(|flash|, P.RequestFor(ops[k], 0)) == S.None
    ensures P.ApplyLog(flash, log) == Run(Overwriting, flash, trace)
    ensures forall k | 0 <= k < |trace| :: Acceptable(trace[k], |flash|)
  {
    var n := |trace|;
    if n == 0 {
      assert log[..0] == [];
    } else {
      hide S.Refusal, S.Apply, Perform, OpFor, Acceptable;
      ApplyTrace(flash, log[..n], ops[..n - 1], trace[..n - 1]);
      ApplyAction(Run(Overwriting, flash, trace[..n - 1]), trace[n - 1]);
    }
  }

  /** Strictly increasing numbers below `n` that include them all are exactly 0, 1, ..., n - 1. */
  lemma {:induction false} AllLogged(log: seq<P.Effect>, n: nat)
    requires forall k, l | 0 <= k < l < |log| :: log[k].id < log[l].id
    requires forall k | 0 <= k < |log| :: log[k].id < n
    requires forall id | 0 <= id < n :: P.Logged(log, id)
    ensures |log| == n && forall k | 0 <= k < n :: log[k].id == k
  {
    if log != [] {
      assert log[0].id < n;
    }
    if n > 0 {
      assert P.Logged(log, n - 1);
      var k :| 0 <= k < |log| && log[k].id == n - 1;
      assert log[|log| - 1].id < n;
      assert k == |log| - 1;
      forall id | 0 <= id < n - 1 ensures P.Logged(log[..k], id) {
        assert P.Logged(log, id);
        var l :| 0 <= l < |log| && log[l].id == id;
        assert log[..k][l].id == id;
      }
      AllLogged(log[..k], n - 1);
    }
  }

  /** The run makes a session request and then the client's calls, and every one returns. */
  ghost predicate AllReturned(w: P.World, ops: seq<P.Op>) {
    && |w.outcomes| == |w.h.ops| == |ops| + 1 && W.OpensSession(w.h.ops[0].operation)
    && (forall k | 0 <= k < |ops| :: w.h.ops[k + 1] == ops[k])
    && (forall id | 0 <= id < |w.outcomes| :: w.outcomes[id].Returned?)
  }

  /** A programmer that opens a session and makes any calls of `erase` and `write`, every one of
      which returns, leaves the flash as the placed actions leave it, all of them acceptable. This
      holds in every run in which none of them is misled, whatever was lost, repeated or retried. */
  lemma CallsOverNetwork(w0: P.World, steps: seq<P.Step>, tx: seq<byte>, calls: seq<Call>, pad: nat, tail: seq<byte>)
    requires R.IsRun(w0, steps) && R.NoneMisled(w0, steps) && C.Prepared(tx) && pad == |tail| <= 2
    requires forall c | c in calls :: CallOk(c) && TailIs(c, pad, tail)
    requires AllReturned(R.Reach(w0, steps), ClientOps(tx, calls, pad))
    ensures var placed := Placed(Actions(calls), C.HeaderAddress(tx), tail);
            && R.Reach(w0, steps).server.flash == Run(Overwriting, w0.server.flash, placed)
            && forall k | 0 <= k < |placed| :: Acceptable(placed[k], |w0.server.flash|)
  {
    hide R.Feasible, R.Reach, P.Initial, P.ApplyLog, ClientOps, Placed, Run, Asks;
    hide CallOk, TailIs, Acceptable, AllReturned, C.HeaderAddress;
    var ops, t, flash := ClientOps(tx, calls, pad), Actions(calls), w0.server.flash;
    RunStarts(w0, steps);
    ClientOpsPlaced(tx, calls, pad, tail);
    var log := EffectsOfCalls(w0, steps, ops);
    ApplyTrace(flash, log, ops, Placed(t, C.HeaderAddress(tx), tail));
  }

  lemma RunStarts(w0: P.World, steps: seq<P.Step>)
    requires R.IsRun(w0, steps)
    ensures S.Complete(w0.server.flash)
  {
  }

  lemma FlashAtStart(w0: P.World, steps: seq<P.Step>)
    requires R.IsRun(w0, steps)
    ensures R.Reach(w0, steps).h.flash0 == w0.server.flash
  {
    R.ReachGrows(w0, steps);
  }

  /** When every call has returned, the effects are exactly the calls. */
  lemma EffectsOfCalls(w0: P.World, steps: seq<P.Step>, ops: seq<P.Op>) returns (log: seq<P.Effect>)
    requires R.IsRun(w0, steps) && R.NoneMisled(w0, steps) && AllReturned(R.Reach(w0, steps), ops)
    ensures R.Reach(w0, steps).server.flash == P.ApplyLog(w0.server.flash, log)
    ensures |log| == |ops| + 1 && W.OpensSession(log[0].op.operation)
    ensures forall k | 0 <= k < |ops| ::
              log[k + 1].op == ops[k] && S.Refusal(|w0.server.flash|, P.RequestFor(ops[k], 0)) == S.None
  {
    var w := R.Reach(w0, steps);
    log := w.h.log;
    hide R.Reach, R.Feasible, P.Initial, P.ApplyLog;
    R.AtomicFlash(w0, steps);
    FlashAtStart(w0, steps);
    forall id | 0 <= id < |w.h.ops|
      ensures P.Logged(log, id) && S.Refusal(|w0.server.flash|, P.RequestFor(w.h.ops[id], 0)) == S.None
    {
      R.ReturnedCall(w0, steps, id);
    }
    AllLogged(log, |w.h.ops|);
  }

  /** What the device holds when the schedule of an image has been sent: each page's first
      sector is that of its last write, the rest of the page is erased. That is the image exactly
      when every image byte is kept; and the whole flash is as programming asks when every write
      arrives faithfully. */
  lemma ProgrammedOverNetwork(w0: P.World, steps: seq<P.Step>, m: Memory, tx: seq<byte>, calls: seq<Call>,
                              pad: nat, tail: seq<byte>)
    requires R.IsRun(w0, steps) && R.NoneMisled(w0, steps) && C.Prepared(tx) && pad == |tail| <= 2
    requires Within(m, |w0.server.flash|)
    requires Actions(calls) == CanonicalTrace(m) && forall c | c in calls :: CallOk(c) && TailIs(c, pad, tail)
    requires AllReturned(R.Reach(w0, steps), ClientOps(tx, calls, pad))
    ensures var flash, after := w0.server.flash, R.Reach(w0, steps).server.flash;
            && after == Run(Overwriting, flash, Placed(CanonicalTrace(m), C.HeaderAddress(tx), tail))
            && (Holds(m, after) <==> forall a | a in m :: Kept(m, a, tail))
            && ((forall s: nat | Touched(m, s) :: Faithful(m, s, tail)) ==>
                 after == Run(Overwriting, flash, CanonicalTrace(m)))
  {
    hide R.Reach, R.Feasible, P.Initial, ClientOps, Placed, CanonicalTrace, Faithful, Kept, Touched, Holds;
    RunStarts(w0, steps);
    CallsOverNetwork(w0, steps, tx, calls, pad, tail);
    ScheduledExactly(m, C.HeaderAddress(tx), tail);
    HeldExactly(m, C.HeaderAddress(tx), tail, w0.server.flash);
  }
}
