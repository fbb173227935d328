/** When a stream yields in order of submission, whatever overlaps. */
module PoolTiming {
  import opened PoolOrder
  import opened TransactionPool
  import opened PoolProtocol
  import opened PoolFifo

  // ----- receiving and popping in time -----

  ghost predicate Clock(times: seq<nat>, now: nat) {
    && (forall i :: 0 <= i < |times| ==> times[i] < now)
    && (forall i, j :: 0 <= i < j < |times| ==> times[i] < times[j])
  }

  /** Nothing is popped before it is received. */
  ghost predicate PopsReceived(st: Stream)
    requires |st.receivedAt| <= |st.sent| && |st.poppedAt| == |st.received|
  {
    forall k, m :: 0 <= k < |st.receivedAt| && 0 <= m < |st.received| && st.sent[k] == st.received[m] ==>
      st.receivedAt[k] < st.poppedAt[m]
  }

  /** The first `m + 1` transactions popped. */
  ghost function UpTo(st: Stream, m: nat): seq<PendingTx>
    requires m < |st.received|
  {
    st.received[..m + 1]
  }

  /** What is popped goes no later than anything else that was received by then and not yet popped. */
  ghost predicate PopsFirst(st: Stream)
    requires |st.receivedAt| <= |st.sent| && |st.poppedAt| == |st.received|
  {
    forall k, m :: 0 <= k < |st.receivedAt| && 0 <= m < |st.received| ==>
      (st.receivedAt[k] < st.poppedAt[m] && st.sent[k] !in UpTo(st, m) ==> NotAfter(st.received[m], st.sent[k]))
  }

  ghost predicate Timed(st: Stream, now: nat) {
    && |st.receivedAt| <= |st.sent| && st.channel == st.sent[|st.receivedAt|..]
    && |st.poppedAt| == |st.received|
    && Clock(st.receivedAt, now) && Clock(st.poppedAt, now)
    && PopsReceived(st) && PopsFirst(st)
  }

  ghost predicate AllTimed(s: State) {
    forall i :: 0 <= i < |s.streams| ==> Timed(s.streams[i], s.now)
  }

  lemma ClockTicks(times: seq<nat>, now: nat)
    requires Clock(times, now)
    ensures Clock(times, now + 1) && Clock(times + [now], now + 1)
  {
  }

  lemma SentOnce(calls: seq<Call>, st: Stream, x: PendingTx)
    requires SentOk(calls, st)
    ensures multiset(st.sent)[x] <= 1
  {
    if x in st.sent {
      assert Known(calls, x);
      assert Times(st.sent, calls[x.ticket]) <= 1;
    }
  }

  lemma DeliverTimed(st: Stream, x: PendingTx, now: nat)
    requires Timed(st, now)
    ensures Timed(Deliver(st, x), now + 1)
  {
    var st' := Deliver(st, x);
    ClockTicks(st.receivedAt, now);
    ClockTicks(st.poppedAt, now);
    assert forall k :: 0 <= k < |st.sent| ==> st'.sent[k] == st.sent[k];
  }

  /** A message still in the channel is none of those yielded. */
  lemma QueuedIsNew(calls: seq<Call>, st: Stream, now: nat)
    requires StreamOk(calls, st, now) && st.channel != []
    ensures st.channel[0] !in st.received
  {
    SentOnce(calls, st, st.channel[0]);
    assert st.channel[0] in multiset(st.channel);
  }

  lemma ReceiveTimed(calls: seq<Call>, st: Stream, now: nat)
    requires Timed(st, now) && StreamOk(calls, st, now) && st.channel != []
    ensures Timed(Received(st, now), now + 1)
  {
    var st', n := Received(st, now), |st.receivedAt|;
    QueuedIsNew(calls, st, now);
    assert st.channel[0] == st.sent[n];
    ReceiveClocks(st, st', now);
  }

  lemma ReceiveClocks(st: Stream, st': Stream, now: nat)
    requires Timed(st, now) && st.channel != [] && st.sent[|st.receivedAt|] !in st.received
    requires st'.sent == st.sent && st'.channel == st.channel[1..] && st'.received == st.received
    requires st'.receivedAt == st.receivedAt + [now] && st'.poppedAt == st.poppedAt
    ensures Timed(st', now + 1)
  {
    ClockTicks(st.receivedAt, now);
    ClockTicks(st.poppedAt, now);
    assert forall m :: 0 <= m < |st.received| ==> UpTo(st', m) == UpTo(st, m);
  }

  /** Everything received and not popped is in the buffer. */
  lemma InBuffer(st: Stream, k: nat)
    requires |st.receivedAt| <= |st.sent| && st.channel == st.sent[|st.receivedAt|..] && k < |st.receivedAt|
    requires multiset(st.sent) == multiset(st.received) + multiset(st.buffer) + multiset(st.channel)
    requires st.sent[k] !in st.received
    ensures st.sent[k] in st.buffer
  {
    var n, x := |st.receivedAt|, st.sent[k];
    assert st.sent == st.sent[..n] + st.channel;
    assert x in st.sent[..n];
    assert multiset(st.sent)[x] == multiset(st.sent[..n])[x] + multiset(st.channel)[x];
    assert multiset(st.received)[x] == 0 && multiset(st.buffer)[x] > 0;
  }

  lemma PopTimed(st: Stream, now: nat)
    requires Timed(st, now) && FlowOk(st, now) && st.buffer != []
    ensures Timed(Popped(st, now), now + 1)
  {
    var st', m := Popped(st, now), |st.received|;
    ClockTicks(st.receivedAt, now);
    ClockTicks(st.poppedAt, now);
    assert UpTo(st', m) == st'.received;
    forall k, j | 0 <= k < |st.receivedAt| && 0 <= j < |st'.received|
      ensures st.receivedAt[k] < st'.poppedAt[j] && st.sent[k] !in UpTo(st', j) ==>
                NotAfter(st'.received[j], st.sent[k])
    {
      if j < m {
        assert UpTo(st', j) == UpTo(st, j);
      } else if st.sent[k] !in st'.received {
        InBuffer(st, k);
      }
    }
  }

  /** Nothing was sent, received or popped. */
  ghost predicate SameMail(st: Stream, st': Stream) {
    && st'.sent == st.sent && st'.channel == st.channel && st'.received == st.received
    && st'.receivedAt == st.receivedAt && st'.poppedAt == st.poppedAt
  }

  lemma TimePasses(st: Stream, st': Stream, now: nat)
    requires Timed(st, now) && SameMail(st, st')
    ensures Timed(st', now + 1)
  {
    ClockTicks(st.receivedAt, now);
    ClockTicks(st.poppedAt, now);
    assert forall m :: 0 <= m < |st.received| ==> UpTo(st', m) == UpTo(st, m);
  }

  lemma OtherStepsSendNothing(s: State, step: Step, i: nat)
    requires i < |s.streams| && Enabled(s, step) && !step.Notify? && step != Receive(i) && step != Pop(i)
    ensures SameMail(s.streams[i], After(s, step).streams[i])
  {
  }

  lemma NotifySends(s: State, c: nat, i: nat)
    requires i < |s.streams| && Enabled(s, Notify(c))
    ensures var st, st' := s.streams[i], After(s, Notify(c)).streams[i];
            st' == st || st' == Deliver(st, s.calls[c].tx)
  {
  }

  /** A stream keeps its times through every step, its own or not. */
  lemma StreamKeepsTimes(s: State, step: Step, i: nat)
    requires i < |s.streams| && Timed(s.streams[i], s.now) && StreamOk(s.calls, s.streams[i], s.now) && Enabled(s, step)
    ensures Timed(After(s, step).streams[i], s.now + 1)
  {
    var st := s.streams[i];
    if step.Notify? {
      NotifySends(s, step.call, i);
      DeliverTimed(st, s.calls[step.call].tx, s.now);
      TimePasses(st, st, s.now);
    } else if step == Receive(i) {
      ReceiveTimed(s.calls, st, s.now);
    } else if step == Pop(i) {
      PopTimed(st, s.now);
    } else {
      OtherStepsSendNothing(s, step, i);
      TimePasses(st, After(s, step).streams[i], s.now);
    }
  }

  lemma StepKeepsTimes(s: State, step: Step)
    requires Inv(s) && AllTimed(s) && Enabled(s, step)
    ensures AllTimed(After(s, step))
  {
    var r := After(s, step);
    forall i | 0 <= i < |r.streams| ensures Timed(r.streams[i], r.now) {
      if i < |s.streams| {
        assert StreamOk(s.calls, s.streams[i], s.now);
        StreamKeepsTimes(s, step, i);
      }
    }
  }

  lemma {:induction false} RunKeepsTimes(ordering: Ordering, steps: seq<Step>)
    requires Run(ordering, steps).Some?
    ensures AllTimed(Run(ordering, steps).value)
  {
    if steps != [] {
      var before, step := steps[..|steps| - 1], steps[|steps| - 1];
      RunKeepsTimes(ordering, before);
      RunKeepsInv(ordering, before);
      StepKeepsTimes(Run(ordering, before).value, step);
    }
  }

  // ----- when the order is kept -----

  /** Whatever is in the snapshot was submitted before whatever is sent. */
  ghost predicate SnapshotComesFirst(calls: seq<Call>, st: Stream) {
    forall t, u :: 0 <= t < |calls| && 0 <= u < |calls| && InSnapshot(calls[t], st) && SentTo(calls[u], st) ==> t < u
  }

  /** Every earlier submission that is sent is received before a later one is popped. */
  ghost predicate ReceivedInTime(st: Stream)
    requires |st.receivedAt| <= |st.sent| && |st.poppedAt| == |st.received|
  {
    forall k, m :: 0 <= k < |st.receivedAt| && 0 <= m < |st.received| && st.sent[k].ticket < st.received[m].ticket ==>
      st.receivedAt[k] < st.poppedAt[m]
  }

  /** The stream has yielded everything it got. */
  predicate UsedUp(st: Stream) {
    PastSnapshot(st) && st.buffer == [] && st.channel == []
  }

  lemma {:induction false} FifoRunsAreNumbered(steps: seq<Step>)
    requires Run(FiFo(0), steps).Some?
    ensures Numbered(Run(FiFo(0), steps).value)
  {
    if steps != [] {
      FifoRunsAreNumbered(steps[..|steps| - 1]);
    }
  }

  /** A used-up stream has yielded exactly what it was sent, each once. */
  lemma UsedUpFacts(calls: seq<Call>, st: Stream, now: nat)
    requires StreamOk(calls, st, now) && Timed(st, now) && UsedUp(st)
    ensures |st.receivedAt| == |st.sent| && multiset(st.sent) == multiset(st.received) && Distinct(st.received)
    ensures (forall x <- st.received :: Known(calls, x) && x in st.sent) && (forall x <- st.sent :: x in st.received)
  {
    forall x ensures multiset(st.received)[x] <= 1 {
      SentOnce(calls, st, x);
    }
    CountsDistinct(st.received);
    assert multiset(st.sent) == multiset(st.received);
    forall x <- st.received ensures x in st.sent && Known(calls, x) {
      assert x in multiset(st.sent);
    }
    forall x <- st.sent ensures x in st.received {
      assert x in multiset(st.received);
    }
  }

  /** Of what has been received, what is popped goes no later than what is popped after it. */
  lemma PoppedFirst(st: Stream, now: nat, i: nat, j: nat, k: nat)
    requires Timed(st, now) && Distinct(st.received) && i < j < |st.received|
    requires k < |st.receivedAt| && st.sent[k] == st.received[j] && st.receivedAt[k] < st.poppedAt[i]
    ensures NotAfter(st.received[i], st.received[j])
  {
    assert st.received[j] !in UpTo(st, i);
  }

  /** In time, the order is kept. */
  lemma InTimeAscends(s: State, st: Stream)
    requires Numbered(s) && StreamOk(s.calls, st, s.now) && Timed(st, s.now) && UsedUp(st) && ReceivedInTime(st)
    ensures Ascending(st.received)
  {
    UsedUpFacts(s.calls, st, s.now);
    forall i, j | 0 <= i < j < |st.received| ensures st.received[i].ticket < st.received[j].ticket {
      InTimePair(s, st, i, j);
    }
  }

  lemma InTimePair(s: State, st: Stream, i: nat, j: nat)
    requires Numbered(s) && Timed(st, s.now) && ReceivedInTime(st) && Distinct(st.received) && i < j < |st.received|
    requires |st.receivedAt| == |st.sent| && forall x <- st.received :: Known(s.calls, x) && x in st.sent
    ensures st.received[i].ticket < st.received[j].ticket
  {
    var u, t := st.received[i], st.received[j];
    assert Known(s.calls, u) && Known(s.calls, t) && u != t;
    if t.ticket < u.ticket {
      var k :| 0 <= k < |st.sent| && st.sent[k] == t;
      PoppedFirst(st, s.now, i, j, k);
    }
  }

  /** Where the order is kept, everything was in time. */
  lemma AscendsInTime(calls: seq<Call>, st: Stream, now: nat)
    requires StreamOk(calls, st, now) && Timed(st, now) && UsedUp(st) && Ascending(st.received)
    ensures ReceivedInTime(st)
  {
    UsedUpFacts(calls, st, now);
    forall k, m | 0 <= k < |st.receivedAt| && 0 <= m < |st.received| && st.sent[k].ticket < st.received[m].ticket
      ensures st.receivedAt[k] < st.poppedAt[m]
    {
      AscendingPair(st, now, k, m);
    }
  }

  lemma AscendingPair(st: Stream, now: nat, k: nat, m: nat)
    requires k < |st.receivedAt| <= |st.sent| && m < |st.received| == |st.poppedAt|
    requires Clock(st.poppedAt, now) && PopsReceived(st) && Ascending(st.received)
    requires st.sent[k].ticket < st.received[m].ticket && st.sent[k] in st.received
    ensures st.receivedAt[k] < st.poppedAt[m]
  {
    var p :| 0 <= p < |st.received| && st.received[p] == st.sent[k];
    assert st.receivedAt[k] < st.poppedAt[p];
    assert p < m;
  }

  /** The snapshot of a first-in-first-out pool ascends. */
  lemma SnapshotAscends(s: State, st: Stream)
    requires Numbered(s) && StreamOk(s.calls, st, s.now)
    ensures Ascending(st.snapshot)
  {
    forall i, j | 0 <= i < j < |st.snapshot| ensures st.snapshot[i].ticket < st.snapshot[j].ticket {
      assert Known(s.calls, st.snapshot[i]) && Known(s.calls, st.snapshot[j]);
      assert NotAfter(st.snapshot[i], st.snapshot[j]);
    }
  }

  ghost predicate AllBefore(xs: seq<PendingTx>, ys: seq<PendingTx>) {
    forall x <- xs, y <- ys :: x.ticket < y.ticket
  }

  lemma AscendingParts(xs: seq<PendingTx>, ys: seq<PendingTx>)
    ensures Ascending(xs + ys) <==> Ascending(xs) && Ascending(ys) && AllBefore(xs, ys)
  {
    var all := xs + ys;
    if Ascending(all) {
      forall i, j | 0 <= i < j < |xs| ensures xs[i].ticket < xs[j].ticket {
        assert all[i] == xs[i] && all[j] == xs[j];
      }
      forall i, j | 0 <= i < j < |ys| ensures ys[i].ticket < ys[j].ticket {
        assert all[|xs| + i] == ys[i] && all[|xs| + j] == ys[j];
      }
      forall i, j | 0 <= i < |xs| && 0 <= j < |ys| ensures xs[i].ticket < ys[j].ticket {
        assert all[i] == xs[i] && all[|xs| + j] == ys[j];
      }
    }
  }

  /** The condition on the calls says the same of the lists. */
  lemma SnapshotComesFirstIff(s: State, st: Stream)
    requires StreamOk(s.calls, st, s.now) && CallsOk(s.calls, s.now)
    ensures SnapshotComesFirst(s.calls, st) <==> AllBefore(st.snapshot, st.sent)
  {
    if SnapshotComesFirst(s.calls, st) {
      forall x <- st.snapshot, y <- st.sent ensures x.ticket < y.ticket {
        assert Known(s.calls, x) && Known(s.calls, y);
        assert Times(st.snapshot, s.calls[x.ticket]) > 0 && Times(st.sent, s.calls[y.ticket]) > 0;
      }
    }
    if AllBefore(st.snapshot, st.sent) {
      forall t, u | 0 <= t < |s.calls| && 0 <= u < |s.calls| && InSnapshot(s.calls[t], st) && SentTo(s.calls[u], st)
        ensures t < u
      {
        assert Times(st.snapshot, s.calls[t]) == 1 && Times(st.sent, s.calls[u]) == 1;
        assert s.calls[t].tx in st.snapshot && s.calls[u].tx in st.sent;
        assert CallOk(s.calls[t], t, s.now) && CallOk(s.calls[u], u, s.now);
      }
    }
  }

  /**
   * In every run of a first-in-first-out pool, overlapping or not, a stream that has used up what it got has
   * yielded in strictly ascending order of submission if and only if whatever its snapshot took was submitted
   * before whatever it was sent, and every submission it was sent was received before a later one was popped.
   */
  lemma OrderIsKeptIff(steps: seq<Step>, i: nat)
    requires Run(FiFo(0), steps).Some?
    requires i < |Run(FiFo(0), steps).value.streams| && UsedUp(Run(FiFo(0), steps).value.streams[i])
    ensures var s := Run(FiFo(0), steps).value;
            var st := s.streams[i];
            && st.taken <= |st.snapshot| && |st.receivedAt| <= |st.sent| && |st.poppedAt| == |st.received|
            && (Ascending(Yielded(st)) <==> SnapshotComesFirst(s.calls, st) && ReceivedInTime(st))
  {
    RunKeepsInv(FiFo(0), steps);
    RunKeepsTimes(FiFo(0), steps);
    FifoRunsAreNumbered(steps);
    var s := Run(FiFo(0), steps).value;
    assert StreamOk(s.calls, s.streams[i], s.now) && Timed(s.streams[i], s.now);
    StreamOrderIff(s, s.streams[i]);
  }

  lemma StreamOrderIff(s: State, st: Stream)
    requires Numbered(s) && CallsOk(s.calls, s.now) && StreamOk(s.calls, st, s.now) && Timed(st, s.now) && UsedUp(st)
    ensures Ascending(Yielded(st)) <==> SnapshotComesFirst(s.calls, st) && ReceivedInTime(st)
  {
    assert Yielded(st) == st.snapshot + st.received;
    SnapshotAscends(s, st);
    AscendingParts(st.snapshot, st.received);
    SnapshotComesFirstIff(s, st);
    SentIsYielded(s.calls, st, s.now);
    if Ascending(st.received) {
      AscendsInTime(s.calls, st, s.now);
    }
    if ReceivedInTime(st) {
      InTimeAscends(s, st);
    }
  }

  lemma SentIsYielded(calls: seq<Call>, st: Stream, now: nat)
    requires StreamOk(calls, st, now) && Timed(st, now) && UsedUp(st)
    ensures AllBefore(st.snapshot, st.sent) <==> AllBefore(st.snapshot, st.received)
  {
    UsedUpFacts(calls, st, now);
  }

  /** Where notifications follow the order of submission, everything is in time, however the stream is polled. */
  lemma NotifiedInOrderIsInTime(ordering: Ordering, steps: seq<Step>, i: nat)
    requires Run(ordering, steps).Some? && i < |Run(ordering, steps).value.streams|
    requires Ascending(Run(ordering, steps).value.streams[i].sent) && UsedUp(Run(ordering, steps).value.streams[i])
    ensures var st := Run(ordering, steps).value.streams[i];
            |st.receivedAt| <= |st.sent| && |st.poppedAt| == |st.received| && ReceivedInTime(st)
  {
    RunKeepsInv(ordering, steps);
    RunKeepsTimes(ordering, steps);
    var s := Run(ordering, steps).value;
    var st := s.streams[i];
    assert StreamOk(s.calls, st, s.now) && Timed(st, s.now);
    UsedUpFacts(s.calls, st, s.now);
    forall k, m | 0 <= k < |st.receivedAt| && 0 <= m < |st.received| && st.sent[k].ticket < st.received[m].ticket
      ensures st.receivedAt[k] < st.poppedAt[m]
    {
      SentPair(st, s.now, k, m);
    }
  }

  lemma SentPair(st: Stream, now: nat, k: nat, m: nat)
    requires k < |st.receivedAt| == |st.sent| && m < |st.received| == |st.poppedAt|
    requires Clock(st.receivedAt, now) && PopsReceived(st) && Ascending(st.sent)
    requires st.sent[k].ticket < st.received[m].ticket && st.received[m] in st.sent
    ensures st.receivedAt[k] < st.poppedAt[m]
  {
    var l :| 0 <= l < |st.sent| && st.sent[l] == st.received[m];
    assert st.receivedAt[l] < st.poppedAt[m];
    assert k < l;
  }
}
