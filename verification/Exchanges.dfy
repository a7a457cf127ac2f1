/** One `communicate` over the bytes it receives: which frame ends it, and how. */
module Exchanges {
  import opened Bytes
  import S = Server
  import opened Client

  /** The frame leaves the exchange waiting: it is another transmission's, or it reports progress
      of an operation that may take time. */
  predicate Passes(number: byte, operation: byte, bytes: seq<byte>) {
    && |bytes| >= 4 && bytes[0] == 1
    && (bytes[1] != number || (bytes[2] == operation && bytes[3] == 2 && operation in {2, 3, 4, 6, 7, 8}))
  }

  /** The sequence number under which the message last went out before event `k`. */
  function NumberAt(start: byte, events: seq<Event>, k: nat): byte
    requires k <= |events|
  {
    (start + 1 + multiset(events[..k])[Deadline]) % 256
  }

  predicate PassAt(start: byte, operation: byte, events: seq<Event>, i: nat)
    requires i < |events|
  {
    events[i].Frame? ==> Passes(NumberAt(start, events, i), operation, events[i].bytes)
  }

  lemma DeadlinesStep(events: seq<Event>, k: nat)
    requires k < |events|
    ensures multiset(events[..k + 1])[Deadline] == multiset(events[..k])[Deadline] + (if events[k] == Deadline then 1 else 0)
  {
    assert events[..k + 1] == events[..k] + [events[k]];
  }

  /** One event of the `n`th try. */
  lemma OneEvent(start: byte, operation: byte, n: nat, e: Event)
    requires 1 <= n <= 3
    requires if e.Frame? then Passes(Advance(start, n), operation, e.bytes) else n < 3
    ensures OnEvent(Try(start, operation, n), e) == Try(start, operation, if e.Frame? then n else n + 1)
  {
    AdvanceSum(start, n, 1);
    hide Advance;
  }

  /** What a frame that does not pass makes of the exchange. */
  lemma LastFrame(x: Exchange, f: seq<byte>)
    requires x.result == S.None && !Passes(x.seq_, x.operation, f)
    ensures var r := OnEvent(x, Frame(f)).result;
            && (|f| < 4 ==> r == S.Some(Threw(Truncated)))
            && (|f| >= 4 && f[0] != 1 ==> r == S.Some(Threw(BadVersion)))
            && (|f| >= 4 && f[0] == 1 && f[2] != x.operation ==> r == S.Some(Threw(WrongOperation)))
            && (|f| >= 4 && f[0] == 1 && f[2] == x.operation && f[3] == 1 ==> r == S.Some(Returned(f)))
            && (|f| >= 4 && f[0] == 1 && f[2] == x.operation && f[3] == 2 ==> r == S.Some(Threw(UnexpectedStatus)))
            && (|f| >= 4 && f[0] == 1 && f[2] == x.operation && f[3] !in {1, 2} ==> r == S.Some(Threw(Rejected(f[3]))))
            && r.Some? && r != S.Some(Threw(NoResponse)) && OnEvent(x, Frame(f)).tries == x.tries
  {
  }

  /** As long as every frame passes, the exchange is in the try after the last deadline. */
  lemma {:induction false} StillWaiting(start: byte, operation: byte, events: seq<Event>, k: nat)
    requires k <= |events| && multiset(events[..k])[Deadline] <= 2
    requires forall i | 0 <= i < k :: PassAt(start, operation, events, i)
    ensures var n := multiset(events[..k])[Deadline] + 1;
            Converse(Begin(start, operation), events) == Converse(Try(start, operation, n), events[k..])
  {
    hide OnEvent, Passes;
    if k == 0 {
      assert events[..0] == [] && events[0..] == events;
    } else {
      DeadlinesStep(events, k - 1);
      StillWaiting(start, operation, events, k - 1);
      var n := multiset(events[..k - 1])[Deadline] + 1;
      assert events[k - 1..][0] == events[k - 1] && events[k - 1..][1..] == events[k..];
      assert PassAt(start, operation, events, k - 1);
      OneEvent(start, operation, n, events[k - 1]);
    }
  }

  /** The first frame that does not pass ends the exchange, in the try it belongs to: an OK reply
      returns it, every other one is an error of its own. */
  lemma FrameEnds(start: byte, operation: byte, events: seq<Event>, k: nat)
    requires k < |events| && events[k].Frame? && multiset(events[..k])[Deadline] <= 2
    requires forall i | 0 <= i < k && events[i].Frame? ::
               var f, number := events[i].bytes, (start + 1 + multiset(events[..i])[Deadline]) % 256;
               && |f| >= 4 && f[0] == 1
               && (f[1] != number || (f[2] == operation && f[3] == 2 && operation in {2, 3, 4, 6, 7, 8}))
    ensures var x, f := Converse(Begin(start, operation), events), events[k].bytes;
            var tries := multiset(events[..k])[Deadline] + 1;
            var number := (start + tries) % 256;
            && (|f| < 4 ==> x.result == S.Some(Threw(Truncated)))
            && (|f| >= 4 && f[0] != 1 ==> x.result == S.Some(Threw(BadVersion)))
            && (|f| >= 4 && f[..2] == [1, number] && f[2] != operation ==> x.result == S.Some(Threw(WrongOperation)))
            && (|f| >= 4 && f[..4] == [1, number, operation, 1] ==> x.result == S.Some(Returned(f)))
            && (|f| >= 4 && f[..4] == [1, number, operation, 2] && operation !in {2, 3, 4, 6, 7, 8} ==>
                  x.result == S.Some(Threw(UnexpectedStatus)))
            && (|f| >= 4 && f[..3] == [1, number, operation] && f[3] !in {1, 2} ==>
                  x.result == S.Some(Threw(Rejected(f[3]))))
            && (x.tries == tries || (|f| >= 4 && f[0] == 1 && (f[1] != number ||
                  (f[2..4] == [operation, 2] && operation in {2, 3, 4, 6, 7, 8}))))
  {
    forall i | 0 <= i < k ensures PassAt(start, operation, events, i) {
    }
    StillWaiting(start, operation, events, k);
    assert events[k..][0] == events[k];
    var x, f := Try(start, operation, multiset(events[..k])[Deadline] + 1), events[k].bytes;
    if |f| >= 4 {
      assert f[..4] == [f[0], f[1], f[2], f[3]] && f[..3] == [f[0], f[1], f[2]] && f[..2] == [f[0], f[1]];
      assert f[2..4] == [f[2], f[3]];
    }
    hide OnEvent;
    if !Passes(x.seq_, operation, f) {
      LastFrame(x, f);
    }
  }

  /** Otherwise nothing ends the exchange but the third deadline, and the message went out three
      times. */
  lemma NoResponseExactly(start: byte, operation: byte, events: seq<Event>)
    ensures var x := Converse(Begin(start, operation), events);
            && (x.result == S.Some(Threw(NoResponse)) <==>
                  forall k | 0 <= k < |events| && events[k].Frame? && multiset(events[..k])[Deadline] <= 2 ::
                    var f, number := events[k].bytes, (start + 1 + multiset(events[..k])[Deadline]) % 256;
                    && |f| >= 4 && f[0] == 1
                    && (f[1] != number || (f[2] == operation && f[3] == 2 && operation in {2, 3, 4, 6, 7, 8})))
            && (x.result == S.Some(Threw(NoResponse)) ==> x.tries == 3)
  {
    var x := Converse(Begin(start, operation), events);
    if k :| 0 <= k < |events| && multiset(events[..k])[Deadline] <= 2 && !PassAt(start, operation, events, k) {
      var first := FirstEnding(start, operation, events, k);
      NotPassing(start, operation, events, first);
    } else {
      var k := ThirdDeadline(events);
      forall i | 0 <= i < k ensures PassAt(start, operation, events, i) {
      }
      StillWaiting(start, operation, events, k);
      RunsOut(start, operation, multiset(events[..k])[Deadline] + 1, events[k..]);
    }
    assert forall k | 0 <= k < |events| :: PassAt(start, operation, events, k) <==>
      (events[k].Frame? ==> Passes(NumberAt(start, events, k), operation, events[k].bytes));
  }

  /** A frame that does not pass ends the exchange otherwise. */
  lemma NotPassing(start: byte, operation: byte, events: seq<Event>, k: nat)
    requires k < |events| && multiset(events[..k])[Deadline] <= 2 && !PassAt(start, operation, events, k)
    requires forall i | 0 <= i < k :: PassAt(start, operation, events, i)
    ensures Converse(Begin(start, operation), events).result.value != Threw(NoResponse)
  {
    hide OnEvent, Passes;
    StillWaiting(start, operation, events, k);
    assert events[k..][0] == events[k];
    LastFrame(Try(start, operation, multiset(events[..k])[Deadline] + 1), events[k].bytes);
  }

  lemma {:induction false} FirstEnding(start: byte, operation: byte, events: seq<Event>, k: nat) returns (first: nat)
    requires k < |events| && multiset(events[..k])[Deadline] <= 2 && !PassAt(start, operation, events, k)
    ensures first <= k && multiset(events[..first])[Deadline] <= 2 && !PassAt(start, operation, events, first)
    ensures forall i | 0 <= i < first :: PassAt(start, operation, events, i)
  {
    first := k;
    if i :| 0 <= i < k && !PassAt(start, operation, events, i) {
      assert events[..k] == events[..i] + events[i..k];
      first := FirstEnding(start, operation, events, i);
    }
  }

  /** Where the third deadline is, or the end. */
  lemma {:induction false} ThirdDeadline(events: seq<Event>) returns (k: nat)
    ensures k <= |events| && multiset(events[..k])[Deadline] <= 2
    ensures k < |events| ==> multiset(events[..k])[Deadline] == 2 && events[k] == Deadline
    ensures forall i | 0 <= i < k :: multiset(events[..i])[Deadline] <= 2
  {
    k := 0;
    if events != [] {
      var n := |events| - 1;
      k := ThirdDeadline(events[..n]);
      assert forall i | 0 <= i <= n :: events[..n][..i] == events[..i];
      if k == n && !(multiset(events[..n])[Deadline] == 2 && events[n] == Deadline) {
        DeadlinesStep(events, n);
        k := n + 1;
      }
    }
  }

  lemma RunsOut(start: byte, operation: byte, n: nat, events: seq<Event>)
    requires 1 <= n <= 3 && (events == [] || (n == 3 && events[0] == Deadline))
    ensures var x := Converse(Try(start, operation, n), events); x.result == S.Some(Threw(NoResponse)) && x.tries == 3
  {
    if events == [] {
      TryAgain(start, operation, 1, []);
      TryAgain(start, operation, 2, []);
      TryAgain(start, operation, 3, []);
    }
  }
}
