/** What overlapping pool calls can do, and what the locked steps come to when they do not overlap. */
module PoolOverlap {
  import opened Wrappers
  import opened PoolOrder
  import opened TransactionPool
  import opened PoolProtocol
  import PoolStreams

  function RunFrom(s: State, steps: seq<Step>): (r: Option<State>)
    decreases |steps|
  {
    if steps == [] then Some(s)
    else if Enabled(s, steps[0]) then RunFrom(After(s, steps[0]), steps[1..])
    else None
  }

  lemma {:induction false} RunFromStart(ordering: Ordering, before: seq<Step>, steps: seq<Step>)
    requires Run(ordering, before).Some?
    ensures RunFrom(Run(ordering, before).value, steps).Some? ==>
              Run(ordering, before + steps) == RunFrom(Run(ordering, before).value, steps)
    decreases |steps|
  {
    if steps == [] {
      assert before + steps == before;
    } else {
      var s := Run(ordering, before).value;
      var more := before + [steps[0]];
      assert more[..|more| - 1] == before;
      if Enabled(s, steps[0]) {
        RunFromStart(ordering, more, steps[1..]);
        assert more + steps[1..] == before + steps;
      }
    }
  }

  lemma RunStep(s: State, step: Step, rest: seq<Step>)
    requires Enabled(s, step)
    ensures RunFrom(s, [step] + rest) == RunFrom(After(s, step), rest)
  {
    assert ([step] + rest)[1..] == rest;
  }

  /** One poll of a stream past its snapshot is a run of receives, as many as the channel holds, and a pop. */
  function ReceiveAll(i: nat, n: nat): (r: seq<Step>) {
    if n == 0 then [] else [Receive(i)] + ReceiveAll(i, n - 1)
  }

  /** The stream is as it was, but for the buffer, the channel and their times. */
  ghost predicate Drained(st: Stream, st': Stream) {
    && st'.snapshotAt == st.snapshotAt && st'.closedAt == st.closedAt
    && st'.snapshot == st.snapshot && st'.taken == st.taken && st'.sent == st.sent && st'.received == st.received
    && st'.channel == [] && st'.buffer == InsertAll(st.channel, st.buffer)
  }

  lemma {:induction false} ReceivesDrain(s: State, i: nat)
    requires Open(s, i) && PastSnapshot(s.streams[i])
    requires s.streams[i].buffer == [] || s.streams[i].draining
    ensures var r := RunFrom(s, ReceiveAll(i, |s.streams[i].channel|));
            r.Some? && Open(r.value, i) && Drained(s.streams[i], r.value.streams[i])
    decreases |s.streams[i].channel|
  {
    var st := s.streams[i];
    if st.channel != [] {
      var next := After(s, Receive(i));
      RunStep(s, Receive(i), ReceiveAll(i, |st.channel| - 1));
      ReceivesDrain(next, i);
    }
  }

  /** The steps of one poll: pop what is buffered, or receive all there is and pop, or nothing. */
  function PollSteps(st: Stream, i: nat): (r: seq<Step>) {
    if st.buffer != [] then [Pop(i)]
    else if st.channel != [] then ReceiveAll(i, |st.channel|) + [Pop(i)]
    else []
  }

  /** Every poll of `Subscription` past the snapshot is such a run: its answer, and the buffer and channel it leaves. */
  lemma PollIsARun(s: State, i: nat)
    requires Open(s, i) && PastSnapshot(s.streams[i])
    ensures var st := s.streams[i];
            var r := RunFrom(s, PollSteps(st, i));
            var (answer, buffer, queue) := PoolStreams.PollStep(st.buffer, st.channel, true);
            && r.Some? && Open(r.value, i)
            && var st' := r.value.streams[i];
            && st'.buffer == buffer && st'.channel == queue && st'.received == st.received + PoolStreams.Unread(answer)
  {
    var st := s.streams[i];
    if st.buffer != [] {
      RunStep(s, Pop(i), []);
    } else if st.channel != [] {
      var drain := ReceiveAll(i, |st.channel|);
      ReceivesDrain(s, i);
      RunFromAppend(s, drain, [Pop(i)]);
      RunStep(RunFrom(s, drain).value, Pop(i), []);
    } else {
      assert st.received + [] == st.received;
    }
  }

  lemma {:induction false} RunFromAppend(s: State, steps: seq<Step>, more: seq<Step>)
    requires RunFrom(s, steps).Some?
    ensures RunFrom(s, steps + more) == RunFrom(RunFrom(s, steps).value, more)
    decreases |steps|
  {
    if steps == [] {
      assert steps + more == more;
    } else {
      assert (steps + more)[1..] == steps[1..] + more;
      RunFromAppend(After(s, steps[0]), steps[1..], more);
    }
  }

  /**
   * An `add_transaction` that nothing interleaves: the transaction is in the pool and at the end of every open
   * channel; subscribers whose receiver is gone are dropped and their streams stay as they were.
   */
  lemma AddIsThreeSteps(s: State, tx: Tx)
    ensures var n := |s.calls|;
            var p := PendingTx(n, TxId(tx.sender, tx.nonce), tx, PriorityOf(s.ordering, tx));
            var r := RunFrom(s, [TakePriority(tx), InsertCall(n), Notify(n)]);
            && r.Some? && r.value.pool == Insert(p, s.pool) && r.value.ordering == Advance(s.ordering)
            && r.value.subscribers == (set i | i in s.subscribers && Open(s, i))
            && |r.value.streams| == |s.streams|
            && (forall i :: 0 <= i < |s.streams| ==>
                  r.value.streams[i] == if i in r.value.subscribers then Deliver(s.streams[i], p) else s.streams[i])
  {
    var n := |s.calls|;
    var s1 := After(s, TakePriority(tx));
    RunThree(s, TakePriority(tx), InsertCall(n), Notify(n));
    assert s1.calls[n] == After(s1, InsertCall(n)).calls[n].(stage := Ranked, insertedAt := 0);
  }

  lemma RunThree(s: State, a: Step, b: Step, c: Step)
    requires Enabled(s, a) && Enabled(After(s, a), b) && Enabled(After(After(s, a), b), c)
    ensures RunFrom(s, [a, b, c]) == Some(After(After(After(s, a), b), c))
  {
    RunStep(s, a, [b, c]);
    RunStep(After(s, a), b, [c]);
    RunStep(After(After(s, a), b), c, []);
    assert [a, b, c] == [a] + [b, c] && [b, c] == [b] + [c] && [c] == [c] + [];
  }

  // ----- two overlaps -----

  /** What the only stream holds, once it has its snapshot. */
  ghost predicate Shown(s: State, snapshot: seq<PendingTx>, taken: nat, channel: seq<PendingTx>, buffer: seq<PendingTx>,
                        received: seq<PendingTx>)
  {
    && |s.streams| == 1 && 0 in s.subscribers
    && var st := s.streams[0];
    && st.closedAt.None? && st.snapshotAt.Some? && st.snapshot == snapshot && st.taken == taken
    && st.channel == channel && st.buffer == buffer && st.received == received
  }

  ghost predicate Has(s: State, t: nat, p: PendingTx, stage: Stage) {
    t < |s.calls| && s.calls[t].tx == p && s.calls[t].stage == stage
  }

  lemma ShowNotify(s: State, t: nat, p: PendingTx, sn: seq<PendingTx>, k: nat, re: seq<PendingTx>)
    requires Shown(s, sn, k, [], [], re) && Has(s, t, p, Inserted)
    ensures Enabled(s, Notify(t)) && Shown(After(s, Notify(t)), sn, k, [p], [], re)
  {
  }

  /** The stream receives the one message there is and yields it. */
  lemma ShowPoll(s: State, p: PendingTx, sn: seq<PendingTx>, re: seq<PendingTx>)
    requires Shown(s, sn, |sn|, [p], [], re)
    ensures Enabled(s, Receive(0)) && Enabled(After(s, Receive(0)), Pop(0))
    ensures After(After(s, Receive(0)), Pop(0)).calls == s.calls
    ensures Shown(After(After(s, Receive(0)), Pop(0)), sn, |sn|, [], [], re + [p])
  {
    assert Insert(p, []) == [p];
  }

  /** Inserted before the snapshot and notified after the subscription, a transaction is yielded twice. */
  lemma OverlapYieldsTwice(tx: Tx)
    ensures var steps := [TakePriority(tx), InsertCall(0), Subscribe] + [Snapshot(0), Notify(0), Take(0)]
                         + [Receive(0), Pop(0)];
            var r := Run(FiFo(0), steps);
            && r.Some? && Open(r.value, 0)
            && var st := r.value.streams[0];
            && exists p: PendingTx :: p.tx == tx && st.taken == 1 && st.snapshot == [p] && st.received == [p]
  {
    var p := PendingTx(0, TxId(tx.sender, tx.nonce), tx, Submission(0));
    var s0 := Start(FiFo(0));
    var s1 := After(After(s0, TakePriority(tx)), InsertCall(0));
    assert s1.pool == [p] && Has(s1, 0, p, Inserted);
    var s2 := After(s1, Subscribe);
    var s3 := After(s2, Snapshot(0));
    assert Shown(s3, [p], 0, [], [], []) && Has(s3, 0, p, Inserted);
    ShowNotify(s3, 0, p, [p], 0, []);
    var s5 := After(After(s3, Notify(0)), Take(0));
    ShowPoll(s5, p, [p], []);
    RunThree(s0, TakePriority(tx), InsertCall(0), Subscribe);
    RunThree(s2, Snapshot(0), Notify(0), Take(0));
    RunTwo(s5, Receive(0), Pop(0));
    var a, b := [TakePriority(tx), InsertCall(0), Subscribe], [Snapshot(0), Notify(0), Take(0)];
    var c := [Receive(0), Pop(0)];
    RunFromAppend(s0, a, b);
    RunFromAppend(s0, a + b, c);
    FromStart(a + b + c);
    assert [] + [p] == [p];
  }

  lemma RunTwo(s: State, a: Step, b: Step)
    requires Enabled(s, a) && Enabled(After(s, a), b)
    ensures RunFrom(s, [a, b]) == Some(After(After(s, a), b))
  {
    RunStep(s, a, [b]);
    RunStep(After(s, a), b, []);
    assert [a, b] == [a] + [b] && [b] == [b] + [];
  }

  lemma FromStart(steps: seq<Step>)
    requires RunFrom(Start(FiFo(0)), steps).Some?
    ensures Run(FiFo(0), steps) == RunFrom(Start(FiFo(0)), steps)
  {
    RunFromStart(FiFo(0), [], steps);
    assert [] + steps == steps;
  }

  /** The second call to take a number inserts and notifies first. */
  lemma SecondOvertakes(p: PendingTx, q: PendingTx) returns (s: State)
    requires p == PendingTx(0, TxId(p.tx.sender, p.tx.nonce), p.tx, Submission(0))
    requires q == PendingTx(1, TxId(q.tx.sender, q.tx.nonce), q.tx, Submission(1))
    ensures var steps := [Subscribe, Snapshot(0), TakePriority(p.tx)] + [TakePriority(q.tx), InsertCall(1), Notify(1)];
            RunFrom(Start(FiFo(0)), steps) == Some(s)
    ensures Shown(s, [], 0, [q], [], []) && Has(s, 0, p, Ranked)
  {
    var s0 := Start(FiFo(0));
    var s3 := After(After(After(s0, Subscribe), Snapshot(0)), TakePriority(p.tx));
    assert Shown(s3, [], 0, [], [], []) && Has(s3, 0, p, Ranked) && s3.ordering == FiFo(1) && |s3.calls| == 1;
    var s5 := After(After(s3, TakePriority(q.tx)), InsertCall(1));
    assert Shown(s5, [], 0, [], [], []) && Has(s5, 0, p, Ranked) && Has(s5, 1, q, Inserted);
    ShowNotify(s5, 1, q, [], 0, []);
    s := After(s5, Notify(1));
    RunThree(s0, Subscribe, Snapshot(0), TakePriority(p.tx));
    RunThree(s3, TakePriority(q.tx), InsertCall(1), Notify(1));
    RunFromAppend(s0, [Subscribe, Snapshot(0), TakePriority(p.tx)], [TakePriority(q.tx), InsertCall(1), Notify(1)]);
  }

  lemma FirstFollows(s: State, p: PendingTx, q: PendingTx) returns (r: State)
    requires Shown(s, [], 0, [q], [], []) && Has(s, 0, p, Ranked)
    ensures RunFrom(s, [Receive(0), Pop(0), InsertCall(0)] + [Notify(0), Receive(0), Pop(0)]) == Some(r)
    ensures Shown(r, [], 0, [], [], [q, p])
  {
    ShowPoll(s, q, [], []);
    var s3 := After(After(After(s, Receive(0)), Pop(0)), InsertCall(0));
    assert [] + [q] == [q];
    assert Shown(s3, [], 0, [], [], [q]) && Has(s3, 0, p, Inserted);
    ShowNotify(s3, 0, p, [], 0, [q]);
    ShowPoll(After(s3, Notify(0)), p, [], [q]);
    assert [q] + [p] == [q, p];
    r := After(After(After(s3, Notify(0)), Receive(0)), Pop(0));
    RunThree(s, Receive(0), Pop(0), InsertCall(0));
    RunThree(s3, Notify(0), Receive(0), Pop(0));
    RunFromAppend(s, [Receive(0), Pop(0), InsertCall(0)], [Notify(0), Receive(0), Pop(0)]);
  }

  /** Two additions that overlap can reach a stream against the order of their submission numbers. */
  lemma OverlapReorders(x: Tx, y: Tx)
    ensures exists steps ::
              var r := Run(FiFo(0), steps);
              && r.Some? && Open(r.value, 0)
              && exists p: PendingTx, q: PendingTx ::
                   && p.tx == x && q.tx == y && p.priority == Submission(0) && q.priority == Submission(1)
                   && r.value.streams[0].taken == 0 && r.value.streams[0].received == [q, p]
  {
    var p := PendingTx(0, TxId(x.sender, x.nonce), x, Submission(0));
    var q := PendingTx(1, TxId(y.sender, y.nonce), y, Submission(1));
    var s := SecondOvertakes(p, q);
    var r := FirstFollows(s, p, q);
    var before := [Subscribe, Snapshot(0), TakePriority(x)] + [TakePriority(y), InsertCall(1), Notify(1)];
    var after := [Receive(0), Pop(0), InsertCall(0)] + [Notify(0), Receive(0), Pop(0)];
    RunFromAppend(Start(FiFo(0)), before, after);
    FromStart(before + after);
    assert Run(FiFo(0), before + after) == Some(r);
  }
}
