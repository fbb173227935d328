/** First in, first out: runs of the pool protocol under the submission counter. */
module PoolFifo {
  import opened Wrappers
  import opened Sequences
  import opened PoolOrder
  import opened TransactionPool
  import opened PoolProtocol

  /** No call is under way: every added transaction is notified, every stream has its snapshot. */
  ghost predicate Calm(s: State) {
    && (forall c <- s.calls :: c.stage == Notified)
    && (forall st <- s.streams :: st.snapshotAt.Some? || st.closedAt.Some?)
  }

  /** Pool calls do not overlap: each begins only when no other is under way. Streams may run at any time. */
  ghost predicate Sequential(ordering: Ordering, steps: seq<Step>) {
    steps == [] ||
    var before, step := steps[..|steps| - 1], steps[|steps| - 1];
    && Sequential(ordering, before) && Run(ordering, before).Some?
    && (step.TakePriority? || step.Subscribe? || step.Remove? ==> Calm(Run(ordering, before).value))
  }

  /** Everything a stream got, in the order it will have been yielded. */
  function Trail(st: Stream): (r: seq<PendingTx>) {
    st.snapshot + st.received + st.buffer + st.channel
  }

  ghost predicate Ascending(xs: seq<PendingTx>) {
    forall i, j :: 0 <= i < j < |xs| ==> xs[i].ticket < xs[j].ticket
  }

  /** Priorities are the order of the calls. */
  ghost predicate Numbered(s: State) {
    s.ordering == FiFo(|s.calls|) && forall t :: 0 <= t < |s.calls| ==> s.calls[t].tx.priority == Submission(t)
  }

  ghost predicate AllNotified(calls: seq<Call>) {
    forall t :: 0 <= t < |calls| ==> calls[t].stage == Notified
  }

  ghost predicate OneAtATime(calls: seq<Call>) {
    forall t :: 0 <= t < |calls| - 1 ==> calls[t].stage == Notified
  }

  ghost predicate AllKnownNotified(calls: seq<Call>, xs: seq<PendingTx>) {
    forall x <- xs :: Known(calls, x) && calls[x.ticket].stage == Notified
  }

  ghost predicate StreamInOrder(calls: seq<Call>, st: Stream) {
    && Ascending(Trail(st)) && AllKnownNotified(calls, Trail(st))
    && (st.snapshotAt.None? ==> Trail(st) == [])
    && (st.snapshotAt.None? && st.closedAt.None? ==> AllNotified(calls))
  }

  ghost predicate FifoInv(s: State) {
    && Numbered(s) && OneAtATime(s.calls)
    && forall i :: 0 <= i < |s.streams| ==> StreamInOrder(s.calls, s.streams[i])
  }

  lemma CallsStayNumbered(s: State, step: Step)
    requires Numbered(s) && OneAtATime(s.calls) && Enabled(s, step)
    requires step.TakePriority? ==> Calm(s)
    ensures Numbered(After(s, step)) && OneAtATime(After(s, step).calls)
  {
    if step.TakePriority? {
      assert forall t :: 0 <= t < |s.calls| ==> s.calls[t] in s.calls;
    }
  }

  /** Calls that move on do not take back a notification. */
  lemma NotifiedStaysNotified(s: State, step: Step, xs: seq<PendingTx>)
    requires Enabled(s, step) && AllKnownNotified(s.calls, xs)
    ensures AllKnownNotified(After(s, step).calls, xs)
  {
    var calls' := After(s, step).calls;
    forall x <- xs ensures Known(calls', x) && calls'[x.ticket].stage == Notified {
      assert Known(s.calls, x);
    }
  }

  /** The pool, sorted and without repetition, lists its transactions in ascending order. */
  lemma PoolAscends(s: State)
    requires Inv(s) && Numbered(s)
    ensures Ascending(s.pool)
  {
    var pool := s.pool;
    forall i, j | 0 <= i < j < |pool| ensures pool[i].ticket < pool[j].ticket {
      var x, y := pool[i], pool[j];
      assert Known(s.calls, x) && Known(s.calls, y) && NotAfter(x, y);
    }
  }

  lemma AppendAscends(calls: seq<Call>, xs: seq<PendingTx>, x: PendingTx)
    requires Ascending(xs) && AllKnownNotified(calls, xs)
    requires |calls| == x.ticket + 1 && calls[x.ticket].stage != Notified
    ensures Ascending(xs + [x])
  {
    forall y <- xs ensures y.ticket < x.ticket {
      assert Known(calls, y);
    }
  }

  lemma SnapshotInOrder(s: State, i: nat)
    requires Inv(s) && FifoInv(s) && Enabled(s, Snapshot(i))
    ensures StreamInOrder(s.calls, After(s, Snapshot(i)).streams[i])
  {
    var st, st' := s.streams[i], After(s, Snapshot(i)).streams[i];
    PoolAscends(s);
    assert StreamInOrder(s.calls, st);
    assert Trail(st') == s.pool;
    forall x <- s.pool ensures Known(s.calls, x) && s.calls[x.ticket].stage == Notified {
      assert Known(s.calls, x);
    }
  }

  lemma ReceiveInOrder(s: State, st: Stream)
    requires Numbered(s) && StreamInOrder(s.calls, st) && st.channel != []
    ensures Trail(Received(st, s.now)) == Trail(st)
  {
    var x, front := st.channel[0], st.snapshot + st.received;
    BufferedBeforeQueued(s, front, st.buffer, st.channel);
    InsertLast(x, st.buffer);
    assert st.channel == [x] + st.channel[1..];
    Shift(front, st.buffer, x, st.channel[1..]);
  }

  lemma Shift<T>(a: seq<T>, b: seq<T>, x: T, c: seq<T>)
    ensures a + (b + [x]) + c == a + b + ([x] + c)
  {
  }

  lemma BufferedBeforeQueued(s: State, front: seq<PendingTx>, buffer: seq<PendingTx>, channel: seq<PendingTx>)
    requires Numbered(s) && channel != []
    requires Ascending(front + buffer + channel) && AllKnownNotified(s.calls, front + buffer + channel)
    ensures forall y <- buffer :: NotAfter(y, channel[0])
  {
    var trail, x := front + buffer + channel, channel[0];
    assert trail[|front| + |buffer|] == x && Known(s.calls, x);
    forall k | 0 <= k < |buffer| ensures NotAfter(buffer[k], x) {
      assert trail[|front| + k] == buffer[k] && Known(s.calls, buffer[k]);
    }
  }

  lemma PopInOrder(st: Stream, now: nat)
    requires st.buffer != []
    ensures Trail(Popped(st, now)) == Trail(st)
  {
    assert st.buffer == [st.buffer[0]] + st.buffer[1..];
    assert st.snapshot + (st.received + [st.buffer[0]]) + st.buffer[1..]
        == st.snapshot + st.received + ([st.buffer[0]] + st.buffer[1..]);
  }

  lemma DeliveryInOrder(s: State, t: nat, st: Stream)
    requires Inv(s) && FifoInv(s) && Enabled(s, Notify(t)) && StreamInOrder(s.calls, st) && st.closedAt.None?
    ensures StreamInOrder(After(s, Notify(t)).calls, Deliver(st, s.calls[t].tx))
  {
    var x, st' := s.calls[t].tx, Deliver(st, s.calls[t].tx);
    assert CallOk(s.calls[t], t, s.now);
    assert t == |s.calls| - 1;
    Associate(st.snapshot + st.received + st.buffer, st.channel, [x]);
    assert Trail(st') == Trail(st) + [x];
    AppendAscends(s.calls, Trail(st), x);
    NotifiedStaysNotified(s, Notify(t), Trail(st));
    assert st.snapshotAt.Some?;
  }

  lemma SameTrail(calls: seq<Call>, st: Stream, st': Stream)
    requires StreamInOrder(calls, st) && Trail(st') == Trail(st)
    requires st'.snapshotAt == st.snapshotAt && (st'.closedAt.None? ==> st.closedAt.None?)
    ensures StreamInOrder(calls, st')
  {
  }

  lemma MoverInOrder(s: State, step: Step, i: nat)
    requires Inv(s) && FifoInv(s) && Enabled(s, step) && Mover(step) == Some(i)
    ensures i < |s.streams| && StreamInOrder(After(s, step).calls, After(s, step).streams[i])
  {
    var st := s.streams[i];
    assert StreamInOrder(s.calls, st) && StreamOk(s.calls, st, s.now);
    match step
    case Snapshot(_) => SnapshotInOrder(s, i);
    case Receive(_) =>
      ReceiveInOrder(s, st);
      SameTrail(s.calls, st, Received(st, s.now));
    case Pop(_) =>
      PopInOrder(st, s.now);
      SameTrail(s.calls, st, Popped(st, s.now));
    case Take(_) => SameTrail(s.calls, st, After(s, step).streams[i]);
    case Close(_) => SameTrail(s.calls, st, After(s, step).streams[i]);
    case _ =>
  }

  lemma BystanderInOrder(s: State, step: Step, i: nat)
    requires Inv(s) && FifoInv(s) && Enabled(s, step) && Mover(step) != Some(i) && i < |s.streams|
    requires step.TakePriority? || step.Subscribe? || step.Remove? ==> Calm(s)
    ensures StreamInOrder(After(s, step).calls, After(s, step).streams[i])
  {
    var st := s.streams[i];
    assert StreamInOrder(s.calls, st);
    if step.Notify? && st.closedAt.None? {
      assert i in s.subscribers;
      DeliveryInOrder(s, step.call, st);
    } else {
      assert st in s.streams;
      NotifiedStaysNotified(s, step, Trail(st));
    }
  }

  lemma StepKeepsOrder(s: State, step: Step)
    requires Inv(s) && FifoInv(s) && Enabled(s, step)
    requires step.TakePriority? || step.Subscribe? || step.Remove? ==> Calm(s)
    ensures FifoInv(After(s, step))
  {
    CallsStayNumbered(s, step);
    var r := After(s, step);
    forall i | 0 <= i < |r.streams| ensures StreamInOrder(r.calls, r.streams[i]) {
      if i == |s.streams| {
        NewStreamInOrder(s);
      } else if Mover(step) == Some(i) {
        MoverInOrder(s, step, i);
      } else {
        BystanderInOrder(s, step, i);
      }
    }
  }

  lemma {:induction false} SequentialRunsKeepOrder(steps: seq<Step>)
    requires Sequential(FiFo(0), steps) && Run(FiFo(0), steps).Some?
    ensures FifoInv(Run(FiFo(0), steps).value)
  {
    if steps != [] {
      var before, step := steps[..|steps| - 1], steps[|steps| - 1];
      var s := Run(FiFo(0), before).value;
      SequentialRunsKeepOrder(before);
      RunKeepsInv(FiFo(0), before);
      StepKeepsOrder(s, step);
    }
  }

  lemma NewStreamInOrder(s: State)
    requires Calm(s)
    ensures StreamInOrder(s.calls, After(s, Subscribe).streams[|s.streams|])
  {
    assert forall t :: 0 <= t < |s.calls| ==> s.calls[t] in s.calls;
  }

  lemma AscendingOnce(xs: seq<PendingTx>, x: PendingTx)
    requires Ascending(xs) && x in xs
    ensures multiset(xs)[x] == 1
  {
    var i :| 0 <= i < |xs| && xs[i] == x;
    assert xs == xs[..i] + [x] + xs[i + 1..];
    assert x !in xs[..i] && x !in xs[i + 1..];
  }

  lemma PrefixAscends(xs: seq<PendingTx>, ys: seq<PendingTx>)
    requires xs <= ys && Ascending(ys)
    ensures Ascending(xs)
  {
  }

  lemma YieldedIsPrefix(st: Stream, now: nat)
    requires FlowOk(st, now)
    ensures Yielded(st) <= Trail(st)
  {
    if st.received == [] {
      assert Yielded(st) == st.snapshot[..st.taken];
    } else {
      assert st.snapshot[..st.taken] == st.snapshot;
    }
  }

  /**
   * Where pool calls do not overlap, every stream yields transactions in strictly ascending order of
   * submission, and once everything has settled it has yielded each transaction not removed before its
   * snapshot exactly once.
   */
  lemma EndToEndFifo(steps: seq<Step>, i: nat)
    requires Sequential(FiFo(0), steps) && Run(FiFo(0), steps).Some?
    requires i < |Run(FiFo(0), steps).value.streams|
    ensures var s := Run(FiFo(0), steps).value;
            var st := s.streams[i];
            && st.taken <= |st.snapshot| && Ascending(Yielded(st))
            && (Settled(s, i) ==>
                  forall t :: 0 <= t < |s.calls| && KeptFor(s.calls[t], st) ==> Times(Yielded(st), s.calls[t]) == 1)
  {
    SequentialRunsKeepOrder(steps);
    RunKeepsInv(FiFo(0), steps);
    var s := Run(FiFo(0), steps).value;
    var st := s.streams[i];
    assert StreamOk(s.calls, st, s.now) && StreamInOrder(s.calls, st);
    YieldedIsPrefix(st, s.now);
    PrefixAscends(Yielded(st), Trail(st));
    if Settled(s, i) {
      forall t | 0 <= t < |s.calls| && KeptFor(s.calls[t], st) ensures Times(Yielded(st), s.calls[t]) == 1 {
        SettledStreamsYieldAll(FiFo(0), steps, t, i);
        AscendingOnce(Yielded(st), s.calls[t].tx);
      }
    }
  }

  /** Not removed before the stream's snapshot. */
  predicate KeptFor(c: Call, st: Stream) {
    c.removedAt.None? || (st.snapshotAt.Some? && st.snapshotAt.value < c.removedAt.value)
  }
}
