/** Which pool calls leave the order of a stream to the times at which it is polled. */
module PoolPolling {
  import opened Wrappers
  import opened PoolOrder
  import opened TransactionPool
  import opened PoolProtocol
  import opened PoolFifo
  import opened PoolTiming

  predicate PollOf(step: Step, i: nat) {
    step == Take(i) || step == Receive(i) || step == Pop(i)
  }

  /** What happens beside the polling of stream `i`. */
  function Others(steps: seq<Step>, i: nat): (r: seq<Step>) {
    if steps == [] then []
    else
      var before, step := steps[..|steps| - 1], steps[|steps| - 1];
      Others(before, i) + if PollOf(step, i) then [] else [step]
  }

  lemma OthersSnoc(steps: seq<Step>, step: Step, i: nat)
    ensures Others(steps + [step], i) == Others(steps, i) + if PollOf(step, i) then [] else [step]
  {
    assert (steps + [step])[..|steps|] == steps;
  }

  lemma RunSnoc(ordering: Ordering, steps: seq<Step>, step: Step)
    requires Run(ordering, steps).Some? && Enabled(Run(ordering, steps).value, step)
    ensures Run(ordering, steps + [step]) == Some(After(Run(ordering, steps).value, step))
  {
    assert (steps + [step])[..|steps|] == steps;
  }

  // ----- what polling leaves alone -----

  function Occurred(at: Option<nat>): (r: Option<nat>) {
    if at.Some? then Some(0) else None
  }

  /** The call without its times. */
  function Untimed(c: Call): (r: Call) {
    Call(c.tx, c.stage, 0, 0, Occurred(c.removedAt))
  }

  /** The stream without its times and, if `unpolled`, without what polling changes. */
  function Outline(st: Stream, unpolled: bool): (r: Stream) {
    var t := st.(subscribedAt := 0, snapshotAt := Occurred(st.snapshotAt), closedAt := Occurred(st.closedAt),
                 receivedAt := [], poppedAt := []);
    if unpolled then t.(taken := 0, channel := [], buffer := [], draining := false, received := []) else t
  }

  /** Nothing differs but times, and what the polling of stream `i` changes. */
  ghost predicate Alike(s: State, t: State, i: nat) {
    && s.ordering == t.ordering && s.pool == t.pool && s.subscribers == t.subscribers
    && |s.calls| == |t.calls| && (forall k :: 0 <= k < |s.calls| ==> Untimed(s.calls[k]) == Untimed(t.calls[k]))
    && |s.streams| == |t.streams|
    && (forall j :: 0 <= j < |s.streams| ==> Outline(s.streams[j], j == i) == Outline(t.streams[j], j == i))
  }

  lemma PollIsAlone(s: State, step: Step, i: nat)
    requires Enabled(s, step) && PollOf(step, i)
    ensures Alike(After(s, step), s, i)
  {
  }

  lemma AlikeStep(s: State, t: State, step: Step, i: nat)
    requires Alike(s, t, i) && Enabled(s, step) && !PollOf(step, i)
    ensures Enabled(t, step) && Alike(After(s, step), After(t, step), i)
  {
    AlikeEnabled(s, t, step, i);
    var a, b := After(s, step), After(t, step);
    forall k | 0 <= k < |a.calls| ensures Untimed(a.calls[k]) == Untimed(b.calls[k]) {
      if k < |s.calls| {
        assert Untimed(s.calls[k]) == Untimed(t.calls[k]);
      }
    }
    forall j | 0 <= j < |a.streams| ensures Outline(a.streams[j], j == i) == Outline(b.streams[j], j == i) {
      if j < |s.streams| {
        AlikeStream(s, t, step, i, j);
      }
    }
    if step.Notify? {
      forall j | j in s.subscribers ensures Open(s, j) <==> Open(t, j) {
        if j < |s.streams| {
          assert Outline(s.streams[j], j == i) == Outline(t.streams[j], j == i);
        }
      }
    }
  }

  lemma AlikeEnabled(s: State, t: State, step: Step, i: nat)
    requires Alike(s, t, i) && Enabled(s, step) && !PollOf(step, i)
    ensures Enabled(t, step)
  {
    match step
    case InsertCall(c) => assert Untimed(s.calls[c]) == Untimed(t.calls[c]);
    case Notify(c) => assert Untimed(s.calls[c]) == Untimed(t.calls[c]);
    case Snapshot(j) => assert Outline(s.streams[j], j == i) == Outline(t.streams[j], j == i);
    case Take(j) => assert Outline(s.streams[j], false) == Outline(t.streams[j], false);
    case Receive(j) => assert Outline(s.streams[j], false) == Outline(t.streams[j], false);
    case Pop(j) => assert Outline(s.streams[j], false) == Outline(t.streams[j], false);
    case Close(j) => assert Outline(s.streams[j], j == i) == Outline(t.streams[j], j == i);
    case _ =>
  }

  lemma AlikePolled(st: Stream, st': Stream, now: nat, now': nat)
    requires Outline(st, false) == Outline(st', false)
    ensures st.channel != [] ==> Outline(Received(st, now), false) == Outline(Received(st', now'), false)
    ensures st.buffer != [] ==> Outline(Popped(st, now), false) == Outline(Popped(st', now'), false)
  {
  }

  lemma AlikeDelivered(st: Stream, st': Stream, x: PendingTx, unpolled: bool)
    requires Outline(st, unpolled) == Outline(st', unpolled)
    ensures Outline(Deliver(st, x), unpolled) == Outline(Deliver(st', x), unpolled)
  {
  }

  lemma AlikeMarked(st: Stream, st': Stream, pool: seq<PendingTx>, now: nat, now': nat, unpolled: bool)
    requires Outline(st, unpolled) == Outline(st', unpolled)
    ensures Outline(st.(snapshotAt := Some(now), snapshot := pool), unpolled)
         == Outline(st'.(snapshotAt := Some(now'), snapshot := pool), unpolled)
    ensures Outline(st.(closedAt := Some(now)), unpolled) == Outline(st'.(closedAt := Some(now')), unpolled)
  {
  }

  lemma AlikeNotified(s: State, t: State, c: nat, i: nat, j: nat)
    requires Alike(s, t, i) && Enabled(s, Notify(c)) && Enabled(t, Notify(c)) && j < |s.streams|
    ensures Outline(After(s, Notify(c)).streams[j], j == i) == Outline(After(t, Notify(c)).streams[j], j == i)
  {
    assert Outline(s.streams[j], j == i) == Outline(t.streams[j], j == i);
    assert Untimed(s.calls[c]) == Untimed(t.calls[c]);
    AlikeDelivered(s.streams[j], t.streams[j], s.calls[c].tx, j == i);
  }

  lemma AlikeStream(s: State, t: State, step: Step, i: nat, j: nat)
    requires Alike(s, t, i) && Enabled(s, step) && Enabled(t, step) && !PollOf(step, i) && j < |s.streams|
    ensures Outline(After(s, step).streams[j], j == i) == Outline(After(t, step).streams[j], j == i)
  {
    assert Outline(s.streams[j], j == i) == Outline(t.streams[j], j == i);
    if step.Notify? {
      AlikeNotified(s, t, step.call, i, j);
    } else if Mover(step) == Some(j) {
      AlikeMover(s, t, step, i, j);
    }
  }

  lemma AlikeMover(s: State, t: State, step: Step, i: nat, j: nat)
    requires Alike(s, t, i) && Enabled(s, step) && Enabled(t, step) && !PollOf(step, i) && Mover(step) == Some(j)
    ensures j < |s.streams|
    ensures Outline(After(s, step).streams[j], j == i) == Outline(After(t, step).streams[j], j == i)
  {
    var st, st' := s.streams[j], t.streams[j];
    assert Outline(st, j == i) == Outline(st', j == i);
    match step
    case Snapshot(_) => AlikeMarked(st, st', s.pool, s.now, t.now, j == i);
    case Close(_) => AlikeMarked(st, st', [], s.now, t.now, j == i);
    case Receive(_) => AlikePolled(st, st', s.now, t.now);
    case Pop(_) => AlikePolled(st, st', s.now, t.now);
    case _ =>
  }

  lemma AlikeTransitive(s: State, t: State, u: State, i: nat)
    requires Alike(s, t, i) && Alike(t, u, i)
    ensures Alike(s, u, i) && Alike(t, s, i)
  {
    forall k | 0 <= k < |s.calls| ensures Untimed(s.calls[k]) == Untimed(u.calls[k]) {
      assert Untimed(s.calls[k]) == Untimed(t.calls[k]) && Untimed(t.calls[k]) == Untimed(u.calls[k]);
    }
    forall j | 0 <= j < |s.streams| ensures Outline(s.streams[j], j == i) == Outline(u.streams[j], j == i) {
      assert Outline(s.streams[j], j == i) == Outline(t.streams[j], j == i);
      assert Outline(t.streams[j], j == i) == Outline(u.streams[j], j == i);
    }
  }

  /** Runs with the same other steps end alike. */
  lemma {:induction false} RunsAreAlike(ordering: Ordering, a: seq<Step>, b: seq<Step>, i: nat)
    requires Run(ordering, a).Some? && Run(ordering, b).Some? && Others(a, i) == Others(b, i)
    ensures Alike(Run(ordering, a).value, Run(ordering, b).value, i)
    decreases |a| + |b|
  {
    var s, t := Run(ordering, a).value, Run(ordering, b).value;
    if a != [] && PollOf(a[|a| - 1], i) {
      var before := Run(ordering, a[..|a| - 1]).value;
      RunsAreAlike(ordering, a[..|a| - 1], b, i);
      PollIsAlone(before, a[|a| - 1], i);
      AlikeTransitive(s, before, t, i);
    } else if b != [] && PollOf(b[|b| - 1], i) {
      var before := Run(ordering, b[..|b| - 1]).value;
      RunsAreAlike(ordering, a, b[..|b| - 1], i);
      PollIsAlone(before, b[|b| - 1], i);
      AlikeTransitive(t, before, before, i);
      AlikeTransitive(s, before, t, i);
    } else if a != [] {
      LastIsSame(a, b, i);
      RunsAreAlike(ordering, a[..|a| - 1], b[..|b| - 1], i);
      AlikeStep(Run(ordering, a[..|a| - 1]).value, Run(ordering, b[..|b| - 1]).value, a[|a| - 1], i);
    }
  }

  lemma LastIsSame(a: seq<Step>, b: seq<Step>, i: nat)
    requires a != [] && Others(a, i) == Others(b, i) && !PollOf(a[|a| - 1], i)
    requires b != [] ==> !PollOf(b[|b| - 1], i)
    ensures b != [] && b[|b| - 1] == a[|a| - 1] && Others(a[..|a| - 1], i) == Others(b[..|b| - 1], i)
  {
    var x, y := Others(a[..|a| - 1], i), Others(b, i);
    assert y == x + [a[|a| - 1]] && y[..|y| - 1] == x;
    if b != [] {
      var z := Others(b[..|b| - 1], i);
      assert y == z + [b[|b| - 1]] && y[..|y| - 1] == z;
    }
  }

  // ----- polling after every step -----

  /** The stream has yielded all there is in the order it was sent, or has yet to begin. */
  ghost predicate CaughtUp(st: Stream) {
    if st.snapshotAt.Some? then UsedUp(st) && st.taken == |st.snapshot| && st.received == st.sent
    else st.taken == 0 && st.buffer == [] && st.received == [] && st.channel == st.sent
  }

  ghost predicate CaughtUpAt(s: State, i: nat) {
    i < |s.streams| ==> CaughtUp(s.streams[i])
  }

  /** What is not yielded yet is still queued. */
  ghost predicate Lagging(st: Stream) {
    st.buffer == [] && st.received + st.channel == st.sent
  }

  lemma ReceiveThenPop(s: State, i: nat)
    requires Open(s, i) && PastSnapshot(s.streams[i]) && s.streams[i].channel != [] && Lagging(s.streams[i])
    ensures Enabled(s, Receive(i)) && Enabled(After(s, Receive(i)), Pop(i))
    ensures var st, r := s.streams[i], After(After(s, Receive(i)), Pop(i));
            && Open(r, i) && Lagging(r.streams[i])
            && r.streams[i].snapshotAt == st.snapshotAt && r.streams[i].snapshot == st.snapshot
            && r.streams[i].taken == st.taken && |r.streams[i].channel| < |st.channel|
  {
    var st := s.streams[i];
    assert Insert(st.channel[0], []) == [st.channel[0]];
    assert st.received + st.channel == st.received + [st.channel[0]] + st.channel[1..];
  }

  /** The stream is polled until it has nothing left, one message at a time. */
  lemma {:induction false} CatchUp(ordering: Ordering, steps: seq<Step>, i: nat) returns (more: seq<Step>)
    requires Run(ordering, steps).Some? && Open(Run(ordering, steps).value, i)
    requires var st := Run(ordering, steps).value.streams[i];
             st.snapshotAt.Some? && st.taken <= |st.snapshot| && Lagging(st)
    ensures Run(ordering, more).Some? && Others(more, i) == Others(steps, i)
    ensures CaughtUpAt(Run(ordering, more).value, i)
    decreases var st := Run(ordering, steps).value.streams[i]; |st.snapshot| - st.taken + |st.channel|
  {
    var s := Run(ordering, steps).value;
    var st := s.streams[i];
    if st.taken < |st.snapshot| {
      RunSnoc(ordering, steps, Take(i));
      OthersSnoc(steps, Take(i), i);
      more := CatchUp(ordering, steps + [Take(i)], i);
    } else if st.channel != [] {
      ReceiveThenPop(s, i);
      RunSnoc(ordering, steps, Receive(i));
      OthersSnoc(steps, Receive(i), i);
      RunSnoc(ordering, steps + [Receive(i)], Pop(i));
      OthersSnoc(steps + [Receive(i)], Pop(i), i);
      more := CatchUp(ordering, steps + [Receive(i)] + [Pop(i)], i);
    } else {
      more := steps;
      assert st.received + [] == st.received;
    }
  }

  /** After a step that is not a poll, a stream that had caught up has, or what is new is still queued. */
  lemma StepFromCaughtUp(s: State, step: Step, i: nat)
    requires CaughtUpAt(s, i) && Enabled(s, step) && !PollOf(step, i) && i < |After(s, step).streams|
    ensures var r := After(s, step).streams[i];
            CaughtUp(r) || (r.closedAt.None? && r.snapshotAt.Some? && r.taken <= |r.snapshot| && Lagging(r))
  {
    if i < |s.streams| {
      var st := s.streams[i];
      assert st.received + [] == st.received && [] + st.channel == st.channel;
      if step.Notify? {
        assert [] + [s.calls[step.call].tx] == [s.calls[step.call].tx];
      }
    }
  }

  /** For every run there is one that differs only in the polls of a stream, and yields as it is sent. */
  lemma {:induction false} EagerRun(ordering: Ordering, steps: seq<Step>, i: nat) returns (eager: seq<Step>)
    requires Run(ordering, steps).Some?
    ensures Run(ordering, eager).Some? && Others(eager, i) == Others(steps, i)
    ensures CaughtUpAt(Run(ordering, eager).value, i)
  {
    if steps == [] {
      eager := [];
    } else {
      var before, step := steps[..|steps| - 1], steps[|steps| - 1];
      eager := EagerRun(ordering, before, i);
      if !PollOf(step, i) {
        var t := Run(ordering, eager).value;
        RunsAreAlike(ordering, before, eager, i);
        AlikeStep(Run(ordering, before).value, t, step, i);
        RunSnoc(ordering, eager, step);
        OthersSnoc(eager, step, i);
        eager := eager + [step];
        if !CaughtUpAt(After(t, step), i) {
          StepFromCaughtUp(t, step, i);
          eager := CatchUp(ordering, eager, i);
        }
      }
    }
  }

  // ----- when no polling breaks the order -----

  /** The stream yields in order of submission if it has yielded all it got. */
  ghost predicate YieldsInOrder(st: Stream) {
    st.taken <= |st.snapshot| && (UsedUp(st) ==> Ascending(Yielded(st)))
  }

  /** However the stream is polled, among the same other steps, it yields in order of submission. */
  ghost predicate OrderedHoweverPolled(steps: seq<Step>, i: nat) {
    forall others :: Others(others, i) == Others(steps, i) && Run(FiFo(0), others).Some? ==>
      && i < |Run(FiFo(0), others).value.streams|
      && YieldsInOrder(Run(FiFo(0), others).value.streams[i])
  }

  lemma OrderedWhenSentInOrder(steps: seq<Step>, i: nat, others: seq<Step>)
    requires Run(FiFo(0), steps).Some? && i < |Run(FiFo(0), steps).value.streams|
    requires Run(FiFo(0), others).Some? && Others(others, i) == Others(steps, i)
    requires var st := Run(FiFo(0), steps).value.streams[i]; AllBefore(st.snapshot, st.sent) && Ascending(st.sent)
    ensures i < |Run(FiFo(0), others).value.streams| && YieldsInOrder(Run(FiFo(0), others).value.streams[i])
  {
    var s, t := Run(FiFo(0), steps).value, Run(FiFo(0), others).value;
    RunsAreAlike(FiFo(0), steps, others, i);
    var a, b := s.streams[i], t.streams[i];
    assert Outline(a, true) == Outline(b, true);
    RunKeepsInv(FiFo(0), others);
    assert StreamOk(t.calls, b, t.now);
    if UsedUp(b) {
      SnapshotComesFirstIff(t, b);
      NotifiedInOrderIsInTime(FiFo(0), others, i);
      OrderIsKeptIff(others, i);
    }
  }

  lemma SentInOrderWhenOrdered(steps: seq<Step>, i: nat)
    requires Run(FiFo(0), steps).Some? && i < |Run(FiFo(0), steps).value.streams|
    requires Run(FiFo(0), steps).value.streams[i].snapshotAt.Some? && OrderedHoweverPolled(steps, i)
    ensures var st := Run(FiFo(0), steps).value.streams[i]; AllBefore(st.snapshot, st.sent) && Ascending(st.sent)
  {
    var eager := EagerRun(FiFo(0), steps, i);
    var s, t := Run(FiFo(0), steps).value, Run(FiFo(0), eager).value;
    RunsAreAlike(FiFo(0), steps, eager, i);
    var a, b := s.streams[i], t.streams[i];
    assert Outline(a, true) == Outline(b, true);
    assert YieldsInOrder(b) && b.snapshot[..b.taken] == b.snapshot;
    AscendingParts(b.snapshot, b.sent);
  }

  /**
   * In a first-in-first-out pool, whatever overlaps: a stream yields in order of submission however it is polled,
   * if and only if what its snapshot took was submitted before what it was sent, and the notifications came in
   * order of submission.
   */
  lemma OrderedHoweverPolledIff(steps: seq<Step>, i: nat)
    requires Run(FiFo(0), steps).Some? && i < |Run(FiFo(0), steps).value.streams|
    requires Run(FiFo(0), steps).value.streams[i].snapshotAt.Some?
    ensures var s := Run(FiFo(0), steps).value;
            OrderedHoweverPolled(steps, i) <==>
            SnapshotComesFirst(s.calls, s.streams[i]) && Ascending(s.streams[i].sent)
  {
    var s := Run(FiFo(0), steps).value;
    RunKeepsInv(FiFo(0), steps);
    assert StreamOk(s.calls, s.streams[i], s.now);
    SnapshotComesFirstIff(s, s.streams[i]);
    if OrderedHoweverPolled(steps, i) {
      SentInOrderWhenOrdered(steps, i);
    }
    if SnapshotComesFirst(s.calls, s.streams[i]) && Ascending(s.streams[i].sent) {
      forall others | Others(others, i) == Others(steps, i) && Run(FiFo(0), others).Some?
        ensures i < |Run(FiFo(0), others).value.streams| && YieldsInOrder(Run(FiFo(0), others).value.streams[i])
      {
        OrderedWhenSentInOrder(steps, i, others);
      }
    }
  }
}
