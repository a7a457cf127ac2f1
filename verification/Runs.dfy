/** What every run of the protocol guarantees, and what a reply delayed too long can do. */
module Runs {
  import opened Bytes
  import opened Flash
  import opened Wire
  import opened Server
  import opened Client
  import opened Protocol

  /** The steps can be taken one after the other, starting from `w`. */
  predicate Feasible(w: World, steps: seq<Step>)
    decreases |steps|
  {
    steps == [] || (Enabled(w, steps[0]) && Feasible(After(w, steps[0]), steps[1..]))
  }

  function Reach(w: World, steps: seq<Step>): World
    requires Feasible(w, steps)
    decreases |steps|
  {
    if steps == [] then w else Reach(After(w, steps[0]), steps[1..])
  }

  predicate IsRun(w0: World, steps: seq<Step>) {
    Initial(w0) && Feasible(w0, steps)
  }

  /** Call `id` is not ended by a misleading reply. */
  predicate NotMisled(w: World, steps: seq<Step>, id: nat)
    requires Feasible(w, steps)
    decreases |steps|
  {
    steps == [] || (!EndsMisled(w, steps[0], id) && NotMisled(After(w, steps[0]), steps[1..], id))
  }

  /** No call is. */
  ghost predicate NoneMisled(w: World, steps: seq<Step>)
    requires Feasible(w, steps)
  {
    forall id: nat :: NotMisled(w, steps, id)
  }

  lemma {:induction false} ReachCore(w: World, steps: seq<Step>)
    requires Core(w) && Feasible(w, steps)
    ensures Core(Reach(w, steps))
    ensures forall id: nat | TrueAt(w, id) && NotMisled(w, steps, id) :: TrueAt(Reach(w, steps), id)
    decreases |steps|
  {
    hide Enabled, After, Core, TrueAt, EndsMisled;
    if steps != [] {
      StepCore(w, steps[0]);
      ReachCore(After(w, steps[0]), steps[1..]);
    }
  }

  /** What every run keeps, and what it says of a call that was not misled. */
  lemma RunCore(w0: World, steps: seq<Step>)
    requires IsRun(w0, steps)
    ensures Core(Reach(w0, steps))
    ensures forall id: nat | NotMisled(w0, steps, id) :: TrueAt(Reach(w0, steps), id)
  {
    InitialCore(w0);
    ReachCore(w0, steps);
    assert forall id: nat :: TrueAt(w0, id);
    hide Core, Reach, Feasible, NotMisled;
  }

  lemma StepGrows(w: World, step: Step)
    requires Enabled(w, step)
    ensures var v := After(w, step);
            w.h.log <= v.h.log && w.h.ops <= v.h.ops && w.outcomes <= v.outcomes && v.h.flash0 == w.h.flash0
  {
  }

  /** History is never rewritten. */
  lemma {:induction false} ReachGrows(w: World, steps: seq<Step>)
    requires Feasible(w, steps)
    ensures var v := Reach(w, steps);
            w.h.log <= v.h.log && w.h.ops <= v.h.ops && w.outcomes <= v.outcomes && v.h.flash0 == w.h.flash0
    decreases |steps|
  {
    hide Enabled, After;
    if steps != [] {
      StepGrows(w, steps[0]);
      ReachGrows(After(w, steps[0]), steps[1..]);
    }
  }

  // ---------------------------------------------------------------- refinement

  /** In every run, however late replies are, the target's flash is what an atomic flash holds
      after the effective calls: each call counts at most once, in call order, however often its
      request was executed. */
  lemma AtomicFlash(w0: World, steps: seq<Step>)
    requires IsRun(w0, steps)
    ensures var w := Reach(w0, steps);
            && w.server.flash == ApplyLog(w0.server.flash, w.h.log)
            && (forall k | 0 <= k < |w.h.log| :: w.h.log[k].id < |w.h.ops| && w.h.log[k].op == w.h.ops[w.h.log[k].id])
            && (forall k, l | 0 <= k < l < |w.h.log| :: w.h.log[k].id < w.h.log[l].id)
  {
    RunCore(w0, steps);
    ReachGrows(w0, steps);
  }

  /** A call that returned has taken effect, was not refused, and, if it was a READ, returned
      the atomic flash as the calls up to it left it. */
  lemma ReturnedCall(w0: World, steps: seq<Step>, id: nat)
    requires IsRun(w0, steps) && NotMisled(w0, steps, id)
    requires id < |Reach(w0, steps).outcomes| && Reach(w0, steps).outcomes[id].Returned?
    ensures var w := Reach(w0, steps);
            && id < |w.h.ops| && Logged(w.h.log, id) && RefusalOf(w.h, w.h.ops[id]) == None
            && |w.outcomes[id].frame| >= REPLY_HEADER
            && (w.h.ops[id].operation == OP_READ ==>
                  IsSlice(DecodeReply(w.outcomes[id].frame).payload,
                          ApplyLog(w0.server.flash, Upto(w.h.log, id)), w.h.ops[id]))
  {
    RunCore(w0, steps);
    ReachGrows(w0, steps);
    var w := Reach(w0, steps);
    assert TrueAt(w, id);
  }

  /** A READ sees every call that returned before it. */
  lemma {:induction false} ReadSeesEarlier(log: seq<Effect>, id: nat, earlier: nat)
    requires forall k, l | 0 <= k < l < |log| :: log[k].id < log[l].id
    requires earlier <= id
    ensures Logged(log, earlier) <==> Logged(Upto(log, id), earlier)
  {
    if log != [] && log[|log| - 1].id > id {
      var n := |log| - 1;
      ReadSeesEarlier(log[..n], id, earlier);
      if k :| 0 <= k < |log| && log[k].id == earlier {
        assert k < n && log[..n][k].id == earlier;
      }
      if k :| 0 <= k < n && log[..n][k].id == earlier {
        assert log[k].id == earlier;
      }
    }
  }

  /** At the moment a READ returns, its payload is the target's present flash. */
  lemma ReadReturnsPresent(w0: World, steps: seq<Step>)
    requires IsRun(w0, steps) && !Misleads(Reach(w0, steps))
    requires var w := Reach(w0, steps);
             && Enabled(w, Deliver(false)) && w.exchange.operation == OP_READ
             && Judge(w.exchange.seq_, w.exchange.operation, EncodeReply(w.toClient[0].reply)) == Done
    ensures var w := Reach(w0, steps);
            w.h.ops != [] && IsSlice(w.toClient[0].reply.payload, w.server.flash, w.h.ops[|w.h.ops| - 1])
  {
    RunCore(w0, steps);
    var w := Reach(w0, steps);
    var a := w.toClient[0];
    assert EchoOk(w.h, a) && ClientOk(w) && HistoryOk(w.h) && LogOk(w.h) && ServerOk(w.server, w.h);
    hide Core, RequestsOk, RepliesOk, Feasible, Reach;
    ReplyRoundTrip(a.reply, []);
    SequenceIdentifies(w.h.seq0, |w.h.tx|, a.tag);
  }

  /** A call that failed either timed out or was refused. One refused for its parameters or its
      code changes no flash at all; one refused for want of a session has not taken effect. */
  lemma FailedCall(w0: World, steps: seq<Step>, id: nat, flash: seq<byte>)
    requires IsRun(w0, steps) && NotMisled(w0, steps, id)
    requires id < |Reach(w0, steps).outcomes| && Reach(w0, steps).outcomes[id].Threw?
    requires |flash| == |w0.server.flash|
    ensures var w := Reach(w0, steps);
            var error := w.outcomes[id].error;
            && id < |w.h.ops| && (error == NoResponse || error.Rejected?)
            && (error == Rejected(STATUS_INV_SRC) ==> !Logged(w.h.log, id))
            && (error.Rejected? && error.status != STATUS_INV_SRC ==> Apply(flash, RequestFor(w.h.ops[id], 0)) == flash)
  {
    RunCore(w0, steps);
    ReachGrows(w0, steps);
    var w := Reach(w0, steps);
    assert TrueAt(w, id);
    if Barred(w.h, id) {
      forall k | 0 <= k < |w.h.log| ensures w.h.log[k].id != id {
        assert w.h.log[0].id <= w.h.log[k].id;
      }
    }
  }

  /** Once a later call has taken effect it is settled for good whether an earlier one did: no
      copy still in flight can take effect afterwards. */
  lemma Settled(w0: World, before: seq<Step>, after: seq<Step>, id: nat, later: nat)
    requires IsRun(w0, before) && Feasible(Reach(w0, before), after)
    requires id < later && Logged(Reach(w0, before).h.log, later)
    ensures var w := Reach(w0, before);
            Logged(Reach(w, after).h.log, id) <==> Logged(w.h.log, id)
  {
    RunCore(w0, before);
    var w := Reach(w0, before);
    ReachCore(w, after);
    ReachGrows(w, after);
    var v := Reach(w, after);
    assert LogOk(v.h);
    PrefixSettles(w.h.log, v.h.log, id, later);
    hide *;
  }

  lemma PrefixSettles(log: seq<Effect>, log': seq<Effect>, id: nat, later: nat)
    requires log <= log' && forall k, l | 0 <= k < l < |log'| :: log'[k].id < log'[l].id
    requires id < later && Logged(log, later)
    ensures Logged(log', id) <==> Logged(log, id)
  {
  }

  /** With a session open, a request other than a session request is taken for a duplicate
      exactly when a multiple of 256 transmissions separates it from the last accepted one. */
  lemma DuplicateExactly(w0: World, steps: seq<Step>)
    requires IsRun(w0, steps)
    requires var w := Reach(w0, steps);
             w.toServer != [] && w.h.log != [] && !OpensSession(w.toServer[0].request.operation)
    ensures var w := Reach(w0, steps);
            && w.h.lastTag <= w.toServer[0].tag
            && (!Accepts(w.server, w.toServer[0].request, CLIENT) <==> (w.toServer[0].tag - w.h.lastTag) % 256 == 0)
  {
    RunCore(w0, steps);
    var w := Reach(w0, steps);
    assert PacketOk(w.h, w.toServer[0]) && LogOk(w.h) && ServerOk(w.server, w.h);
    hide Core, HistoryOk, ClientOk, RequestsOk, RepliesOk, Feasible, Reach;
    SequenceIdentifies(w.h.seq0, w.toServer[0].tag, w.h.lastTag);
  }

  /** In every run the reply at the head of the queue carries the
      awaited sequence number exactly when a multiple of 256 transmissions separates it from the
      current one. */
  lemma ReplyMatchesExactly(w0: World, steps: seq<Step>)
    requires IsRun(w0, steps) && Waiting(Reach(w0, steps)) && Reach(w0, steps).toClient != []
    ensures var w := Reach(w0, steps);
            var a := w.toClient[0];
            && a.tag <= |w.h.tx|
            && (Judge(w.exchange.seq_, w.exchange.operation, EncodeReply(a.reply)) != Ignore <==>
                (|w.h.tx| - a.tag) % 256 == 0)
  {
    RunCore(w0, steps);
    var w := Reach(w0, steps);
    assert EchoOk(w.h, w.toClient[0]) && ClientOk(w) && HistoryOk(w.h);
    hide Core, LogOk, ServerOk, RequestsOk, RepliesOk, Feasible, Reach;
    ReplyRoundTrip(w.toClient[0].reply, []);
    SequenceIdentifies(w.h.seq0, |w.h.tx|, w.toClient[0].tag);
  }

  /** In every run a reply to the current transmission ends the call, an OK one with its frame,
      any other one but progress with its status. */
  lemma ReplyEndsCall(w0: World, steps: seq<Step>)
    requires IsRun(w0, steps) && Waiting(Reach(w0, steps))
    requires var w := Reach(w0, steps); w.toClient != [] && w.toClient[0].tag == |w.h.tx|
    ensures var w, v := Reach(w0, steps), After(Reach(w0, steps), Deliver(false));
            var r := w.toClient[0].reply;
            && v.toClient == w.toClient[1..] && After(w, Deliver(true)) == v.(toClient := w.toClient)
            && v.outcomes == if r.status == 2 then w.outcomes
                          else if r.status == 1 then w.outcomes + [Returned(EncodeReply(r))]
                          else w.outcomes + [Threw(Rejected(r.status))]
  {
    RunCore(w0, steps);
    var w := Reach(w0, steps);
    assert EchoOk(w.h, w.toClient[0]) && ClientOk(w) && HistoryOk(w.h);
    hide Core, LogOk, ServerOk, RequestsOk, RepliesOk, Feasible, Reach, EchoOk, ClientOk, HistoryOk, Enabled, After;
    CurrentEnds(w);
  }

  lemma CurrentEnds(w: World)
    requires Waiting(w) && w.toClient != [] && w.toClient[0].tag == |w.h.tx| && EchoOk(w.h, w.toClient[0])
    requires ClientOk(w) && HistoryOk(w.h)
    ensures var v, r := After(w, Deliver(false)), w.toClient[0].reply;
            && v.toClient == w.toClient[1..] && After(w, Deliver(true)) == v.(toClient := w.toClient)
            && v.outcomes == if r.status == 2 then w.outcomes
                             else if r.status == 1 then w.outcomes + [Returned(EncodeReply(r))]
                             else w.outcomes + [Threw(Rejected(r.status))]
  {
    hide Barred, Refusal, IsSlice, Logged, Defined, Complete, Advance;
    ReplyRoundTrip(w.toClient[0].reply, []);
    CurrentVerdict(w, w.toClient[0]);
  }

  lemma CurrentVerdict(w: World, a: Echo)
    requires Waiting(w) && a.tag == |w.h.tx| && EchoOk(w.h, a) && ClientOk(w) && HistoryOk(w.h)
    ensures a.reply.version == VERSION && a.reply.seq_ == w.exchange.seq_ && a.reply.operation == w.exchange.operation
    ensures a.reply.status == 2 ==> MayTakeTime(w.exchange.operation)
  {
    hide Barred, IsSlice, Logged, Defined, Complete, Advance;
  }

  /** In every run an accepted request that the channel delivers again is ignored, unless it opens
      a session: it changes nothing at the target and is not answered. */
  lemma RepeatIgnored(w0: World, steps: seq<Step>)
    requires IsRun(w0, steps)
    requires var w := Reach(w0, steps);
             && w.toServer != [] && !OpensSession(w.toServer[0].request.operation)
             && Accepts(w.server, w.toServer[0].request, CLIENT)
    ensures var w := Reach(w0, steps);
            && Enabled(w, Serve(true))
            && var v := After(w, Serve(true));
               && Enabled(v, Serve(false)) && v.toServer == w.toServer
               && var u := After(v, Serve(false));
                  u.toServer == w.toServer[1..] && u.server == v.server && u.toClient == v.toClient && u.h == v.h
  {
    RunCore(w0, steps);
    var w := Reach(w0, steps);
    ServeEnabled(w, true);
    assert After(w, Serve(true)) == Receive(w);
    SecondReceive(w);
    hide Core, Reach, Feasible, Receive, Accepts, Served, Sent;
  }

  lemma SecondReceive(w: World)
    requires Enabled(w, Serve(true)) && !OpensSession(w.toServer[0].request.operation)
    requires Accepts(w.server, w.toServer[0].request, CLIENT)
    ensures var v := Receive(w);
            && v.toServer == w.toServer && Enabled(v, Serve(false))
            && After(v, Serve(false)) == v.(toServer := w.toServer[1..])
  {
    hide Replies, Apply, Record;
    var v := Receive(w);
    assert Sent(v.server, w.toServer[0].request, CLIENT) == [];
    assert Tagged(w.toServer[0], []) == [] && v.toClient + [] == v.toClient;
  }

  /** What the programmer hears when a step is taken: a frame, a passed deadline, or nothing. */
  function HeardAt(w: World, step: Step): seq<Client.Event>
    requires Enabled(w, step)
  {
    match step
    case Deliver(_) => [Frame(EncodeReply(w.toClient[0].reply))]
    case Timeout => [Deadline]
    case _ => []
  }

  function Heard(w: World, steps: seq<Step>): seq<Client.Event>
    requires Feasible(w, steps)
    decreases |steps|
  {
    if steps == [] then [] else HeardAt(w, steps[0]) + Heard(After(w, steps[0]), steps[1..])
  }

  /** Within a call the programmer of a run is in the exchange that what it heard leads to. */
  lemma {:induction false} CallIsExchange(w: World, steps: seq<Step>, rest: seq<Client.Event>)
    requires Feasible(w, steps) && w.exchange.tries <= TRIES && forall step | step in steps :: !step.Start?
    ensures Reach(w, steps).exchange.tries <= TRIES
    ensures Converse(w.exchange, Heard(w, steps) + rest) == Converse(Reach(w, steps).exchange, rest)
    decreases |steps|
  {
    hide Enabled, After, HeardAt, Converse;
    if steps == [] {
      assert [] + rest == rest;
    } else {
      assert steps[0] in steps;
      var v := After(w, steps[0]);
      HearStep(w, steps[0], Heard(v, steps[1..]) + rest);
      CallIsExchange(v, steps[1..], rest);
      assert HeardAt(w, steps[0]) + Heard(v, steps[1..]) + rest == HeardAt(w, steps[0]) + (Heard(v, steps[1..]) + rest);
    }
  }

  lemma HearStep(w: World, step: Step, events: seq<Client.Event>)
    requires Enabled(w, step) && w.exchange.tries <= TRIES && !step.Start?
    ensures After(w, step).exchange.tries <= TRIES
    ensures Converse(w.exchange, HeardAt(w, step) + events) == Converse(After(w, step).exchange, events)
  {
    var heard := HeardAt(w, step);
    assert if heard == [] then heard + events == events
           else (heard + events)[0] == heard[0] && (heard + events)[1..] == events;
  }

  // ---------------------------------------------------------------- a call that is misled

  ghost predicate Reachable(w: World, v: World) {
    exists steps :: Feasible(w, steps) && Reach(w, steps) == v
  }

  lemma {:induction false} Chain(w: World, a: seq<Step>, b: seq<Step>)
    requires Feasible(w, a) && Feasible(Reach(w, a), b)
    ensures Feasible(w, a + b) && Reach(w, a + b) == Reach(Reach(w, a), b)
    decreases |a|
  {
    hide Enabled, After;
    if a == [] {
      assert a + b == b;
    } else {
      Chain(After(w, a[0]), a[1..], b);
      assert (a + b)[0] == a[0] && (a + b)[1..] == a[1..] + b;
    }
  }

  /** One more step. */
  lemma Extend(w: World, v: World, step: Step)
    requires Reachable(w, v) && Enabled(v, step)
    ensures Reachable(w, After(v, step))
  {
    hide Enabled, After;
    var steps :| Feasible(w, steps) && Reach(w, steps) == v;
    assert Feasible(After(v, step), []);
    assert [step][1..] == [];
    assert Feasible(v, [step]) && Reach(v, [step]) == After(v, step);
    Chain(w, steps, [step]);
  }

  /** A waiting exchange whose request is lost passes its deadline. */
  lemma LostTry(w0: World, w: World) returns (v: World)
    requires Reachable(w0, w) && Waiting(w) && |w.toServer| == 1 && w.h.ops != []
    ensures Reachable(w0, v) && v.server == w.server && v.toClient == w.toClient && v.h.log == w.h.log && v.h.ops == w.h.ops
    ensures if w.exchange.tries < TRIES
            then Waiting(v) && |v.toServer| == 1 && v.outcomes == w.outcomes && v.h.flash0 == w.h.flash0
                 && v.exchange == w.exchange.(seq_ := Advance(w.exchange.seq_, 1), tries := w.exchange.tries + 1)
                 && |v.h.tx| == |w.h.tx| + 1
            else !Waiting(v) && v.toServer == [] && |v.outcomes| == |w.outcomes| + 1 && v.h == w.h
                 && v.exchange.seq_ == w.exchange.seq_
  {
    hide Reachable;
    Extend(w0, w, LoseRequest(0));
    v := After(w, LoseRequest(0));
    hide Enabled, After;
    v := PassDeadline(w0, v);
  }

  lemma PassDeadline(w0: World, w: World) returns (v: World)
    requires Reachable(w0, w) && Waiting(w) && w.toServer == [] && w.h.ops != []
    ensures Reachable(w0, v) && v.server == w.server && v.toClient == w.toClient && v.h.log == w.h.log && v.h.ops == w.h.ops
    ensures if w.exchange.tries < TRIES
            then Waiting(v) && |v.toServer| == 1 && v.outcomes == w.outcomes && v.h.flash0 == w.h.flash0
                 && v.exchange == w.exchange.(seq_ := Advance(w.exchange.seq_, 1), tries := w.exchange.tries + 1)
                 && v.h == w.h.(tx := w.h.tx + [|w.h.ops| - 1])
                 && v.toServer == [Packet(|v.h.tx|, |w.h.ops| - 1, RequestFor(w.h.ops[|w.h.ops| - 1], v.exchange.seq_))]
            else !Waiting(v) && v.toServer == [] && |v.outcomes| == |w.outcomes| + 1 && v.h == w.h
                 && v.exchange.seq_ == w.exchange.seq_
  {
    hide Reachable;
    Extend(w0, w, Timeout);
    v := After(w, Timeout);
  }

  lemma StartCall(w0: World, w: World, op: Op) returns (v: World)
    requires Reachable(w0, w) && !Waiting(w) && w.toServer == [] && Defined(|w.h.flash0|, RequestFor(op, 0))
    ensures Reachable(w0, v) && Waiting(v) && |v.toServer| == 1 && v.server == w.server && v.toClient == w.toClient
    ensures v.h.log == w.h.log && v.h.ops == w.h.ops + [op] && v.outcomes == w.outcomes && v.h.flash0 == w.h.flash0
    ensures v.exchange == Begin(w.exchange.seq_, op.operation) && |v.h.tx| == |w.h.tx| + 1
  {
    hide Reachable, Defined;
    Extend(w0, w, Start(op));
    v := After(w, Start(op));
  }

  /** A call all of whose requests are lost: three more transmissions, nothing else. */
  lemma LostCall(w0: World, w: World, op: Op) returns (v: World)
    requires Reachable(w0, w) && !Waiting(w) && w.toServer == [] && Defined(|w.h.flash0|, RequestFor(op, 0))
    ensures Reachable(w0, v) && !Waiting(v) && v.toServer == [] && v.server == w.server && v.toClient == w.toClient
    ensures v.h.log == w.h.log && v.h.ops == w.h.ops + [op] && |v.outcomes| == |w.outcomes| + 1 && v.h.flash0 == w.h.flash0
    ensures v.exchange.seq_ == Advance(w.exchange.seq_, 3) && |v.h.tx| == |w.h.tx| + 3
  {
    AdvanceSum(w.exchange.seq_, 1, 1);
    AdvanceSum(w.exchange.seq_, 2, 1);
    hide Reachable, Defined, Advance, Enabled, After;
    v := StartCall(w0, w, op);
    v := LostTry(w0, v);
    v := LostTry(w0, v);
    v := LostTry(w0, v);
  }

  lemma {:induction false} LostCalls(w0: World, w: World, op: Op, n: nat) returns (v: World)
    requires Reachable(w0, w) && !Waiting(w) && w.toServer == [] && Defined(|w.h.flash0|, RequestFor(op, 0))
    ensures Reachable(w0, v) && !Waiting(v) && v.toServer == [] && v.server == w.server && v.toClient == w.toClient
    ensures v.h.log == w.h.log && |v.h.ops| == |w.h.ops| + n && |v.outcomes| == |w.outcomes| + n && v.h.flash0 == w.h.flash0
    ensures v.exchange.seq_ == Advance(w.exchange.seq_, 3 * n) && |v.h.tx| == |w.h.tx| + 3 * n
  {
    hide Reachable, Defined;
    AdvanceSum(w.exchange.seq_, if n == 0 then 0 else 3 * n - 3, 3);
    hide Advance, Enabled, After;
    if n == 0 {
      v := w;
    } else {
      v := LostCalls(w0, w, op, n - 1);
      v := LostCall(w0, v, op);
    }
  }

  const DISCOVER: Op := Op(OP_DISCOVER, 0, 0, seq(WRITE_SIZE, _ => 0))

  function EraseOp(address: uint32): Op {
    Op(OP_ERASE, address, 0, seq(WRITE_SIZE, _ => 0))
  }

  /** A session is opened and page 0 erased, but both replies to the erase stay under way. */
  lemma DelayedReplies(w0: World) returns (v: World)
    requires Initial(w0) && |w0.server.flash| >= 2048
    ensures Reachable(w0, v) && !Waiting(v) && v.toServer == [] && v.h.flash0 == w0.server.flash
    ensures v.server.flash == EraseAt(w0.server.flash, 0)
    ensures v.h.log == [Effect(0, DISCOVER), Effect(1, EraseOp(0))] && |v.h.ops| == |v.outcomes| == 2
    ensures v.exchange.seq_ == Advance(w0.exchange.seq_, 4) && |v.h.tx| == 4
    ensures var s := Advance(w0.exchange.seq_, 2);
            v.toClient == [Echo(2, 1, Reply(VERSION, s, OP_ERASE, STATUS_INPROGRESS, [])),
                           Echo(2, 1, Reply(VERSION, s, OP_ERASE, STATUS_OK, []))]
  {
    assert Feasible(w0, []) && Reach(w0, []) == w0;
    AdvanceSum(w0.exchange.seq_, 1, 1);
    AdvanceSum(w0.exchange.seq_, 2, 2);
    hide Reachable, Advance, EraseAt, Enabled, After, Feasible, Reach;
    v := OpenSession(w0);
    v := ServedErase(w0, v);
    v := GiveUp(w0, v);
  }

  lemma OpenSession(w0: World) returns (v: World)
    requires Initial(w0) && |w0.server.flash| >= 2048 && Reachable(w0, w0)
    ensures Reachable(w0, v) && !Waiting(v) && v.toServer == [] && v.toClient == []
    ensures v.server == w0.server.(lastSeq := Advance(w0.exchange.seq_, 1), owner := Some(CLIENT))
    ensures v.h.log == [Effect(0, DISCOVER)] && |v.h.ops| == |v.outcomes| == 1 && v.h.flash0 == w0.server.flash
    ensures v.exchange.seq_ == Advance(w0.exchange.seq_, 1) && |v.h.tx| == 1
  {
    v := SessionServed(w0);
    v := SessionAnswered(w0, v);
    hide *;
  }

  lemma SessionServed(w0: World) returns (v: World)
    requires Initial(w0) && |w0.server.flash| >= 2048 && Reachable(w0, w0)
    ensures Reachable(w0, v) && Waiting(v) && v.toServer == [] && v.outcomes == []
    ensures v.server == w0.server.(lastSeq := Advance(w0.exchange.seq_, 1), owner := Some(CLIENT))
    ensures v.h.log == [Effect(0, DISCOVER)] && |v.h.ops| == 1 && v.h.flash0 == w0.server.flash
    ensures v.exchange == Begin(w0.exchange.seq_, OP_DISCOVER) && |v.h.tx| == 1
    ensures var payload := DiscoverReply(w0.server.devId);
            v.toClient == [Echo(1, 0, Reply(VERSION, v.exchange.seq_, OP_DISCOVER, STATUS_OK, payload))]
  {
    hide Reachable, Advance, DiscoverReply;
    Extend(w0, w0, Start(DISCOVER));
    v := After(w0, Start(DISCOVER));
    Extend(w0, v, Serve(false));
    v := After(v, Serve(false));
  }

  lemma SessionAnswered(w0: World, w: World) returns (v: World)
    requires Reachable(w0, w) && Waiting(w) && |w.toClient| == 1 && w.outcomes == [] && w.exchange.operation == OP_DISCOVER
    requires var r := w.toClient[0].reply;
             r.version == VERSION && r.seq_ == w.exchange.seq_ && r.operation == OP_DISCOVER && r.status == STATUS_OK
    ensures Reachable(w0, v) && !Waiting(v) && v.toServer == w.toServer && v.toClient == []
    ensures v.server == w.server && v.h == w.h && |v.outcomes| == 1 && v.exchange.seq_ == w.exchange.seq_
  {
    hide Reachable;
    ReplyRoundTrip(w.toClient[0].reply, []);
    Extend(w0, w, Deliver(false));
    v := After(w, Deliver(false));
  }

  lemma ServedErase(w0: World, w: World) returns (v: World)
    requires Reachable(w0, w) && !Waiting(w) && w.toServer == [] && w.toClient == [] && |w.h.ops| == |w.h.tx| == 1
    requires w.server.owner == Some(CLIENT) && w.server.lastSeq == w.exchange.seq_
    requires |w.server.flash| == |w.h.flash0| >= 2048 && w.h.log != [] && w.h.log[|w.h.log| - 1].id == 0
    ensures Reachable(w0, v) && Waiting(v) && v.toServer == [] && v.outcomes == w.outcomes && v.h.flash0 == w.h.flash0
    ensures v.server.flash == EraseAt(w.server.flash, 0) && v.h.log == w.h.log + [Effect(1, EraseOp(0))]
    ensures |v.h.ops| == 2 && v.h.ops[1] == EraseOp(0) && |v.h.tx| == 2 && v.exchange == Begin(w.exchange.seq_, OP_ERASE)
    ensures v.server.owner == Some(CLIENT) && v.server.lastSeq == v.exchange.seq_
    ensures var s := Advance(w.exchange.seq_, 1);
            v.toClient == [Echo(2, 1, Reply(VERSION, s, OP_ERASE, STATUS_INPROGRESS, [])),
                           Echo(2, 1, Reply(VERSION, s, OP_ERASE, STATUS_OK, []))]
  {
    hide Reachable;
    Extend(w0, w, Start(EraseOp(0)));
    v := After(w, Start(EraseOp(0)));
    Extend(w0, v, Serve(false));
    v := After(v, Serve(false));
  }

  /** A call can be executed three times, once for each transmission, and still counts once: all
      its requests arrive, none of the replies has been delivered yet. */
  lemma ExecutedThrice(w0: World) returns (v: World)
    requires Initial(w0) && |w0.server.flash| >= 2048
    ensures Reachable(w0, v) && Waiting(v) && |v.h.ops| == 2 && |v.h.tx| == 4 && |v.toClient| == 6
    ensures forall i | 0 <= i < 6 :: v.toClient[i].id == 1 && v.toClient[i].tag == 2 + i / 2
                                     && v.toClient[i].reply.status == if i % 2 == 0 then STATUS_INPROGRESS else STATUS_OK
    ensures v.h.log == [Effect(0, DISCOVER), Effect(1, EraseOp(0))]
    ensures v.server.flash == EraseAt(w0.server.flash, 0)
  {
    assert Feasible(w0, []) && Reach(w0, []) == w0;
    hide Reachable, Advance, EraseAt, Enabled, After, Feasible, Reach;
    v := OpenSession(w0);
    v := ServedErase(w0, v);
    hide Initial;
    v := ServedAgain(w0, v);
    v := ServedAgain(w0, v);
    EraseThrice(w0.server.flash);
  }

  lemma EraseThrice(flash: seq<byte>)
    ensures EraseAt(EraseAt(flash, 0), 0) == EraseAt(flash, 0)
  {
  }

  /** The erase times out and its next transmission is served. */
  lemma ServedAgain(w0: World, w: World) returns (v: World)
    requires Reachable(w0, w) && Waiting(w) && w.toServer == [] && w.exchange.tries < TRIES && |w.h.ops| == 2
    requires w.h.ops[1] == EraseOp(0) && w.h.log != [] && w.h.log[|w.h.log| - 1].id == 1 && |w.server.flash| >= 2048
    requires w.server.owner == Some(CLIENT) && w.server.lastSeq == w.exchange.seq_
    ensures Reachable(w0, v) && Waiting(v) && v.toServer == [] && v.h.ops == w.h.ops && v.h.log == w.h.log
    ensures v.exchange.tries == w.exchange.tries + 1 && |v.h.tx| == |w.h.tx| + 1
    ensures v.server.owner == Some(CLIENT) && v.server.lastSeq == v.exchange.seq_
    ensures v.server.flash == EraseAt(w.server.flash, 0)
    ensures var s := v.exchange.seq_;
            v.toClient == w.toClient + [Echo(|v.h.tx|, 1, Reply(VERSION, s, OP_ERASE, STATUS_INPROGRESS, [])),
                                        Echo(|v.h.tx|, 1, Reply(VERSION, s, OP_ERASE, STATUS_OK, []))]
  {
    hide Reachable;
    v := PassDeadline(w0, w);
    Extend(w0, v, Serve(false));
    v := After(v, Serve(false));
    hide EraseAt;
  }

  /** Two more lost tries and the exchange ends. */
  lemma GiveUp(w0: World, w: World) returns (v: World)
    requires Reachable(w0, w) && Waiting(w) && w.toServer == [] && w.exchange.tries == 1 && w.h.ops != []
    ensures Reachable(w0, v) && !Waiting(v) && v.toServer == [] && v.server == w.server && v.toClient == w.toClient
    ensures v.h.log == w.h.log && v.h.ops == w.h.ops && |v.outcomes| == |w.outcomes| + 1 && v.h.flash0 == w.h.flash0
    ensures v.exchange.seq_ == Advance(w.exchange.seq_, 2) && |v.h.tx| == |w.h.tx| + 2
  {
    AdvanceSum(w.exchange.seq_, 1, 1);
    hide Reachable, Enabled, After, Advance;
    v := PassDeadline(w0, w);
    v := LostTry(w0, v);
    v := LostTry(w0, v);
  }

  /** Such a reply can lie: from any start there is a run in which a reply delayed by 256
      transmissions ends another call, so that an erase is reported done that never happened. */
  lemma StaleReplyAccepted(w0: World) returns (v: World)
    requires Initial(w0) && |w0.server.flash| >= 2048
    ensures Reachable(w0, v) && v.outcomes != [] && |v.h.ops| == |v.outcomes|
    ensures v.h.ops[|v.h.ops| - 1] == EraseOp(1024) && v.outcomes[|v.outcomes| - 1].Returned?
    ensures !Logged(v.h.log, |v.outcomes| - 1)
    ensures v.server.flash == EraseAt(w0.server.flash, 0)
  {
    hide Reachable, Advance, EraseAt, Enabled, After, Defined, Begin, Feasible, Reach, Complete, Initial;
    v := WaitingAgain(w0);
    v := TakeReply(w0, v);
    v := TakeReply(w0, v);
  }

  /** 85 calls later the second erase waits under the sequence number of the first, whose two
      replies are next. */
  lemma WaitingAgain(w0: World) returns (v: World)
    requires Initial(w0) && |w0.server.flash| >= 2048
    ensures Reachable(w0, v) && Waiting(v) && |v.h.ops| == |v.outcomes| + 1 && v.h.ops[|v.h.ops| - 1] == EraseOp(1024)
    ensures v.h.log == [Effect(0, DISCOVER), Effect(1, EraseOp(0))] && |v.outcomes| > 2
    ensures v.server.flash == EraseAt(w0.server.flash, 0) && v.exchange.operation == OP_ERASE
    ensures var s := v.exchange.seq_;
            v.toClient == [Echo(2, 1, Reply(VERSION, s, OP_ERASE, STATUS_INPROGRESS, [])),
                           Echo(2, 1, Reply(VERSION, s, OP_ERASE, STATUS_OK, []))]
  {
    SequenceComesRound(w0.exchange.seq_);
    hide Reachable, Advance, EraseAt, Enabled, After, Feasible, Reach, Complete;
    v := DelayedReplies(w0);
    v := LostCalls(w0, v, EraseOp(1024), 84);
    v := StartCall(w0, v, EraseOp(1024));
    hide Defined, Initial;
    v := LostTry(w0, v);
  }

  lemma SequenceComesRound(s: byte)
    ensures Advance(Advance(Advance(Advance(s, 4), 252), 1), 1) == Advance(s, 2)
  {
    SequenceWraps(s);
    hide Advance;
    AdvanceSum(s, 4, 252);
    AdvanceSum(s, 256, 1);
    AdvanceSum(s, 257, 1);
  }

  lemma SequenceWraps(s: byte)
    ensures Advance(s, 258) == Advance(s, 2)
  {
  }

  lemma TakeReply(w0: World, w: World) returns (v: World)
    requires Reachable(w0, w) && Waiting(w) && w.toClient != []
    ensures Reachable(w0, v) && v.toClient == w.toClient[1..] && v.server == w.server && v.h == w.h
    ensures var r := w.toClient[0].reply;
            r.version == VERSION && r.seq_ == w.exchange.seq_ && r.operation == w.exchange.operation == OP_ERASE ==>
              && (r.status == STATUS_INPROGRESS ==> v.exchange == w.exchange && v.outcomes == w.outcomes)
              && (r.status == STATUS_OK ==> v.outcomes == w.outcomes + [Returned(EncodeReply(r))])
  {
    hide Reachable;
    ReplyRoundTrip(w.toClient[0].reply, []);
    Extend(w0, w, Deliver(false));
    v := After(w, Deliver(false));
  }
}
