/** On channels that lose nothing a call returns after one transmission, so the guarantees of
    `Runs` are about runs that exist: every image can be programmed. */
module Progress {
  import opened Bytes
  import opened Flash
  import opened Canonical
  import opened Landing
  import opened Wire
  import opened Server
  import opened Client
  import opened Protocol
  import opened Runs
  import G = Programming

  ghost predicate RunsTo(w0: World, v: World) {
    exists steps :: IsRun(w0, steps) && NoneMisled(w0, steps) && Reach(w0, steps) == v
  }

  lemma {:induction false} ExtendSteps(w: World, steps: seq<Step>, step: Step)
    requires Feasible(w, steps) && Enabled(Reach(w, steps), step)
    ensures Feasible(w, steps + [step]) && Reach(w, steps + [step]) == After(Reach(w, steps), step)
    ensures !Misleads(Reach(w, steps)) ==>
              forall id: nat | NotMisled(w, steps, id) :: NotMisled(w, steps + [step], id)
    decreases |steps|
  {
    hide Enabled, After, Misleads;
    if steps == [] {
      assert [step][1..] == [] && steps + [step] == [step];
    } else {
      ExtendSteps(After(w, steps[0]), steps[1..], step);
      assert (steps + [step])[0] == steps[0] && (steps + [step])[1..] == steps[1..] + [step];
    }
  }

  lemma ExtendRun(w0: World, v: World, step: Step)
    requires RunsTo(w0, v) && Enabled(v, step) && !Misleads(v)
    ensures RunsTo(w0, After(v, step))
  {
    hide Enabled, After, Misleads, Initial;
    var steps :| IsRun(w0, steps) && NoneMisled(w0, steps) && Reach(w0, steps) == v;
    ExtendSteps(w0, steps, step);
    assert IsRun(w0, steps + [step]);
  }

  /** Between calls, with nothing in flight and the last transmission accepted. */
  predicate Quiet(w: World) {
    && !Waiting(w) && w.toServer == [] && w.toClient == [] && w.h.lastTag == |w.h.tx|
    && w.exchange.seq_ == Advance(w.h.seq0, |w.h.tx|) && Complete(w.server.flash) && |w.server.flash| == |w.h.flash0|
    && (w.h.log != [] ==> w.server.owner == Some(CLIENT) && w.server.lastSeq == w.exchange.seq_)
  }

  /** Any call the target does not refuse returns when its messages are delivered. */
  lemma PromptCall(w0: World, w: World, op: Op) returns (v: World)
    requires RunsTo(w0, w) && Quiet(w) && Defined(|w.h.flash0|, RequestFor(op, 0)) && RefusalOf(w.h, op) == None
    requires OpensSession(op.operation) || w.h.log != []
    ensures RunsTo(w0, v) && Quiet(v) && v.h.ops == w.h.ops + [op] && v.h.log != [] && v.h.flash0 == w.h.flash0
    ensures |v.outcomes| == |w.outcomes| + 1 && w.outcomes <= v.outcomes && v.outcomes[|w.outcomes|].Returned?
    ensures v.server.flash == Apply(w.server.flash, RequestFor(op, 0))
  {
    hide RunsTo;
    v := PromptServe(w0, w, op);
    if !OpensSession(op.operation) {
      v := PromptReply(w0, v);
    }
    v := PromptReply(w0, v);
  }

  lemma PromptServe(w0: World, w: World, op: Op) returns (v: World)
    requires RunsTo(w0, w) && Quiet(w) && Defined(|w.h.flash0|, RequestFor(op, 0)) && RefusalOf(w.h, op) == None
    requires OpensSession(op.operation) || w.h.log != []
    ensures RunsTo(w0, v) && Waiting(v) && v.toServer == [] && v.outcomes == w.outcomes
    ensures v.h.ops == w.h.ops + [op] && v.h.log != [] && v.h.flash0 == w.h.flash0 && v.h.seq0 == w.h.seq0
    ensures v.exchange == Begin(w.exchange.seq_, op.operation) && v.exchange.seq_ == Advance(v.h.seq0, |v.h.tx|)
    ensures v.h.lastTag == |v.h.tx| == |w.h.tx| + 1
    ensures v.server == w.server.(flash := Apply(w.server.flash, RequestFor(op, 0)),
                                  lastSeq := v.exchange.seq_, owner := Some(CLIENT))
    ensures |v.toClient| == (if OpensSession(op.operation) then 1 else 2)
    ensures AllAwaited(v)
    ensures OpensSession(op.operation) || MayTakeTime(op.operation)
  {
    v := PromptStart(w0, w, op);
    hide RunsTo, Advance, Quiet, Sent, Served, Replies, Apply, DiscoverReply, Defined, Complete, Misleads;
    var q := v.toServer[0].request;
    PromptReplies(v.server, op, q.seq_);
    assert !Misleads(v) by { NothingMisleads(v); }
    ExtendRun(w0, v, Serve(false));
    v := After(v, Serve(false));
  }

  /** What the target does with a request it accepts and does not refuse. */
  lemma PromptReplies(s: State, op: Op, seq_: byte)
    requires var q := RequestFor(op, seq_);
             Accepts(s, q, CLIENT) && Defined(|s.flash|, q) && Refusal(|s.flash|, RequestFor(op, 0)) == None
    ensures var q := RequestFor(op, seq_);
            && Served(s, q, CLIENT) == s.(flash := Apply(s.flash, RequestFor(op, 0)), lastSeq := seq_, owner := Some(CLIENT))
            && |Sent(s, q, CLIENT)| == (if OpensSession(op.operation) then 1 else 2)
            && (forall i | 0 <= i < |Sent(s, q, CLIENT)| ::
                  var r := Sent(s, q, CLIENT)[i];
                  && r.version == VERSION && r.seq_ == seq_ && r.operation == op.operation
                  && r.status == if i == |Sent(s, q, CLIENT)| - 1 then STATUS_OK else STATUS_INPROGRESS)
            && (OpensSession(op.operation) || MayTakeTime(op.operation))
  {
    hide DiscoverReply, EraseAt, WriteAt;
  }

  lemma PromptStart(w0: World, w: World, op: Op) returns (v: World)
    requires RunsTo(w0, w) && Quiet(w) && Defined(|w.h.flash0|, RequestFor(op, 0))
    ensures RunsTo(w0, v) && Waiting(v) && v.toClient == [] && v.outcomes == w.outcomes && v.server == w.server
    ensures v.h == w.h.(ops := w.h.ops + [op], tx := w.h.tx + [|w.h.ops|])
    ensures v.exchange == Begin(w.exchange.seq_, op.operation) && v.exchange.seq_ == Advance(v.h.seq0, |v.h.tx|)
    ensures v.toServer == [Packet(|v.h.tx|, |w.h.ops|, RequestFor(op, v.exchange.seq_))]
    ensures Defined(|v.server.flash|, v.toServer[0].request)
    ensures w.h.log != [] ==> v.server.owner == Some(CLIENT) && v.server.lastSeq != v.exchange.seq_
  {
    hide RunsTo, Complete, Misleads;
    AdvanceSum(w.h.seq0, |w.h.tx|, 1);
    assert !Misleads(w) by { NothingMisleads(w); }
    ExtendRun(w0, w, Start(op));
    v := After(w, Start(op));
  }

  lemma NothingMisleads(w: World)
    requires w.toClient == []
    ensures !Misleads(w)
  {
  }

  /** Reply `i` in the queue answers the current transmission; the last one says OK. */
  predicate Awaited(w: World, i: nat)
    requires i < |w.toClient|
  {
    && w.toClient[i].tag == |w.h.tx|
    && var r := w.toClient[i].reply;
       && r.version == VERSION && r.seq_ == w.exchange.seq_ && r.operation == w.exchange.operation
       && r.status == if i == |w.toClient| - 1 then STATUS_OK else STATUS_INPROGRESS
  }

  predicate AllAwaited(w: World) {
    forall i | 0 <= i < |w.toClient| :: Awaited(w, i)
  }

  lemma PromptReply(w0: World, w: World) returns (v: World)
    requires RunsTo(w0, w) && Waiting(w) && w.toClient != []
    requires AllAwaited(w)
    requires |w.toClient| > 1 ==> MayTakeTime(w.exchange.operation)
    ensures RunsTo(w0, v) && v.server == w.server && v.h == w.h && v.toServer == w.toServer && v.toClient == w.toClient[1..]
    ensures |w.toClient| > 1 ==> v.exchange == w.exchange && v.outcomes == w.outcomes
    ensures |w.toClient| == 1 ==> v.outcomes == w.outcomes + [Returned(EncodeReply(w.toClient[0].reply))]
    ensures |w.toClient| == 1 ==> v.exchange == w.exchange.(result := Some(Returned(EncodeReply(w.toClient[0].reply))))
    ensures |w.toClient| > 1 ==> AllAwaited(v)
  {
    hide RunsTo;
    assert Awaited(w, 0);
    ReplyRoundTrip(w.toClient[0].reply, []);
    ExtendRun(w0, w, Deliver(false));
    v := After(w, Deliver(false));
    forall i | 0 <= i < |v.toClient| && |w.toClient| > 1 ensures Awaited(v, i) {
      assert Awaited(w, i + 1);
    }
  }

  /** Any call the target refuses ends with the target's status, after one transmission, and
      leaves the flash alone. */
  lemma PromptRefused(w0: World, w: World, op: Op, status: byte) returns (v: World)
    requires RunsTo(w0, w) && Quiet(w) && Defined(|w.h.flash0|, RequestFor(op, 0)) && w.h.log != []
    requires RefusalOf(w.h, op) == Some(status)
    ensures RunsTo(w0, v) && Quiet(v) && v.h.ops == w.h.ops + [op] && |v.h.tx| == |w.h.tx| + 1
    ensures v.outcomes == w.outcomes + [Threw(Rejected(status))] && v.server.flash == w.server.flash
    ensures v.h.log != [] && v.h.flash0 == w.h.flash0
  {
    v := PromptStart(w0, w, op);
    hide RunsTo, Advance, Sent, Served, Defined, Complete, Misleads;
    RefusedReply(v.server, op, v.exchange.seq_, status);
    assert !Misleads(v) by { NothingMisleads(v); }
    ExtendRun(w0, v, Serve(false));
    v := After(v, Serve(false));
    ReplyRoundTrip(v.toClient[0].reply, []);
    assert !Misleads(v) by { CurrentNotMisleading(v); }
    ExtendRun(w0, v, Deliver(false));
    v := After(v, Deliver(false));
  }

  lemma CurrentNotMisleading(w: World)
    requires w.toClient != [] && w.toClient[0].tag == |w.h.tx|
    ensures !Misleads(w)
  {
  }

  lemma RefusedReply(s: State, op: Op, seq_: byte, status: byte)
    requires var q := RequestFor(op, seq_);
             Accepts(s, q, CLIENT) && Defined(|s.flash|, q) && Refusal(|s.flash|, RequestFor(op, 0)) == Some(status)
    ensures var q := RequestFor(op, seq_);
            && Served(s, q, CLIENT) == s.(lastSeq := seq_, owner := Some(CLIENT))
            && Sent(s, q, CLIENT) == [Reply(VERSION, seq_, op.operation, status, [])]
            && status !in {1, 2}
  {
  }

  /** From every start there is a run that opens a session and makes the given requests, each
      of which returns, if they ask for actions the device accepts. */
  lemma {:induction false} PromptTrace(w0: World, ops: seq<Op>, t: seq<Action>) returns (v: World)
    requires Initial(w0) && G.Asks(ops, t) && forall k | 0 <= k < |t| :: Acceptable(t[k], |w0.server.flash|)
    ensures RunsTo(w0, v) && Quiet(v) && v.h.log != [] && v.h.flash0 == w0.server.flash && G.AllReturned(v, ops)
  {
    hide RunsTo;
    if t == [] {
      InitialRun(w0);
      v := PromptCall(w0, w0, DISCOVER);
    } else {
      var n := |t| - 1;
      v := PromptTrace(w0, ops[..n], t[..n]);
      G.ApplyAction(v.server.flash, t[n]);
      v := PromptCall(w0, v, ops[n]);
    }
  }

  lemma InitialRun(w0: World)
    requires Initial(w0)
    ensures RunsTo(w0, w0)
  {
    assert IsRun(w0, []) && NoneMisled(w0, []) && Reach(w0, []) == w0;
  }

  /** For every image that fits the device there is a run that opens a session and makes the
      programmer's own calls for it, each of which returns. It leaves the image in the device
      exactly when every image byte is kept. */
  lemma ImageCanBeProgrammed(w0: World, m: Memory, tx: seq<byte>, calls: seq<G.Call>, pad: nat, tail: seq<byte>)
    returns (v: World)
    requires Initial(w0) && Within(m, |w0.server.flash|) && Prepared(tx) && pad == |tail| <= 2
    requires G.Actions(calls) == CanonicalTrace(m) && forall c | c in calls :: G.CallOk(c) && G.TailIs(c, pad, tail)
    ensures RunsTo(w0, v) && G.AllReturned(v, G.ClientOps(tx, calls, pad))
    ensures v.server.flash == Flash.Run(Overwriting, w0.server.flash, Placed(CanonicalTrace(m), HeaderAddress(tx), tail))
    ensures Holds(m, v.server.flash) <==> forall a | a in m :: Kept(m, a, tail)
  {
    var t := CanonicalTrace(m);
    AnyHeader(m, SECTOR_COUNT, 0, HeaderAddress(tx), tail);
    hide CanonicalTrace, Placed, G.ClientOps, Holds, Kept, Reach, Feasible, G.AllReturned, G.TailIs, Initial;
    InitialFlash(w0);
    CanonicalAcceptable(m, |w0.server.flash|);
    PlacedAcceptable(t, tail, |w0.server.flash|);
    G.ClientOpsPlaced(tx, calls, pad, tail);
    v := PromptTrace(w0, G.ClientOps(tx, calls, pad), Placed(t, HeaderAddress(tx), tail));
    var steps :| IsRun(w0, steps) && NoneMisled(w0, steps) && Reach(w0, steps) == v;
    G.ProgrammedOverNetwork(w0, steps, m, tx, calls, pad, tail);
  }

  lemma InitialFlash(w0: World)
    requires Initial(w0)
    ensures Complete(w0.server.flash)
  {
  }

  /** Two bytes in the first two sectors of a page: every call returns, and yet the second byte is
      missing and the first overwritten, for every padding of the record. */
  lemma TwoSectorsLost(w0: World, tx: seq<byte>, calls: seq<G.Call>, pad: nat, tail: seq<byte>) returns (v: World)
    requires Initial(w0) && |w0.server.flash| > 0 && Prepared(tx) && pad == |tail| <= 2
    requires G.Actions(calls) == CanonicalTrace(TWO_SECTORS)
    requires forall c | c in calls :: G.CallOk(c) && G.TailIs(c, pad, tail)
    ensures RunsTo(w0, v) && G.AllReturned(v, G.ClientOps(tx, calls, pad))
    ensures |v.server.flash| > 64 && v.server.flash[64] == ERASED && v.server.flash[0] == if pad == 0 then 0x34 else ERASED
  {
    hide CanonicalTrace, Placed, G.ClientOps, RunsTo, Flash.Run, G.AllReturned, Initial, Kept, Holds;
    InitialFlash(w0);
    v := ImageCanBeProgrammed(w0, TWO_SECTORS, tx, calls, pad, tail);
    TwoSectorsLanded(HeaderAddress(tx), tail, w0.server.flash);
  }

  /** With padding already an image of one byte at the start of a page is lost in such a run. */
  lemma OneByteLost(w0: World, tx: seq<byte>, calls: seq<G.Call>, pad: nat, tail: seq<byte>) returns (v: World)
    requires Initial(w0) && |w0.server.flash| > 0 && Prepared(tx) && 0 < pad == |tail| <= 2
    requires G.Actions(calls) == CanonicalTrace(ONE_BYTE)
    requires forall c | c in calls :: G.CallOk(c) && G.TailIs(c, pad, tail)
    ensures RunsTo(w0, v) && G.AllReturned(v, G.ClientOps(tx, calls, pad))
    ensures |v.server.flash| > 0 && v.server.flash[0] == ERASED
  {
    hide CanonicalTrace, Placed, G.ClientOps, RunsTo, Flash.Run, G.AllReturned, Initial, Kept, Holds;
    InitialFlash(w0);
    v := ImageCanBeProgrammed(w0, ONE_BYTE, tx, calls, pad, tail);
    OneByteLanded(HeaderAddress(tx), tail, w0.server.flash);
  }
}
