/** What the two ways of giving out priorities come to, in every run. */
module PoolPriorities {
  import opened PoolOrder
  import opened TransactionPool
  import opened PoolProtocol
  import opened PoolFifo
  import opened PoolTiming

  /** Higher tips stand first, and equal tips in the order of their insertion. */
  ghost predicate ByDescendingTip(calls: seq<Call>, xs: seq<PendingTx>) {
    forall i, j :: 0 <= i < j < |xs| ==>
      || xs[i].tx.tip > xs[j].tx.tip
      || (xs[i].tx.tip == xs[j].tx.tip && InsertedAt(calls, xs[i]) < InsertedAt(calls, xs[j]))
  }

  /** Every call's priority is the tip of its transaction. */
  ghost predicate Tipped(s: State) {
    s.ordering.ByTip? && forall c <- s.calls :: c.tx.priority == Tip(c.tx.tx.tip)
  }

  lemma StepKeepsTipped(s: State, step: Step)
    requires Tipped(s) && Enabled(s, step)
    ensures Tipped(After(s, step))
  {
    var calls := After(s, step).calls;
    forall t | 0 <= t < |calls| ensures calls[t].tx.priority == Tip(calls[t].tx.tx.tip) {
      if t < |s.calls| {
        assert s.calls[t] in s.calls;
      }
    }
  }

  lemma {:induction false} TipRunsAreTipped(steps: seq<Step>)
    requires Run(ByTip, steps).Some?
    ensures Tipped(Run(ByTip, steps).value)
  {
    if steps != [] {
      TipRunsAreTipped(steps[..|steps| - 1]);
      StepKeepsTipped(Run(ByTip, steps[..|steps| - 1]).value, steps[|steps| - 1]);
    }
  }

  lemma TippedDescends(s: State, xs: seq<PendingTx>)
    requires Tipped(s) && InPriorityOrder(s.calls, xs) && forall x <- xs :: Known(s.calls, x)
    ensures ByDescendingTip(s.calls, xs)
  {
    forall i, j | 0 <= i < j < |xs|
      ensures xs[i].tx.tip > xs[j].tx.tip
           || (xs[i].tx.tip == xs[j].tx.tip && InsertedAt(s.calls, xs[i]) < InsertedAt(s.calls, xs[j]))
    {
      assert Known(s.calls, xs[i]) && Known(s.calls, xs[j]);
      assert s.calls[xs[i].ticket] in s.calls && s.calls[xs[j].ticket] in s.calls;
    }
  }

  /** Under tip ordering, in every run, the pool and every snapshot list higher tips first. */
  lemma HigherTipsFirst(steps: seq<Step>)
    requires Run(ByTip, steps).Some?
    ensures var s := Run(ByTip, steps).value;
            ByDescendingTip(s.calls, s.pool) && forall st <- s.streams :: ByDescendingTip(s.calls, st.snapshot)
  {
    var s := Run(ByTip, steps).value;
    TipRunsAreTipped(steps);
    RunKeepsInv(ByTip, steps);
    TiesGoByInsertion(ByTip, steps);
    TippedDescends(s, s.pool);
    forall i | 0 <= i < |s.streams| ensures ByDescendingTip(s.calls, s.streams[i].snapshot) {
      assert StreamOk(s.calls, s.streams[i], s.now) && s.streams[i] in s.streams;
      TippedDescends(s, s.streams[i].snapshot);
    }
  }

  /** A batch that a stream drains at once comes out with higher tips first. */
  lemma DrainedTipsDescend(steps: seq<Step>, batch: seq<PendingTx>, i: nat, j: nat)
    requires Run(ByTip, steps).Some? && i < j < |batch|
    requires forall x <- batch :: Known(Run(ByTip, steps).value.calls, x)
    ensures InsertAll(batch, [])[i].tx.tip >= InsertAll(batch, [])[j].tx.tip
  {
    var s, r := Run(ByTip, steps).value, InsertAll(batch, []);
    TipRunsAreTipped(steps);
    InsertAllSorts(batch);
    assert r[i] in multiset(r) && r[j] in multiset(r);
    assert Known(s.calls, r[i]) && Known(s.calls, r[j]) && NotAfter(r[i], r[j]);
    assert s.calls[r[i].ticket] in s.calls && s.calls[r[j].ticket] in s.calls;
  }

  /** Under submission ordering, in every run, the pool and every snapshot list earlier calls first. */
  lemma EarlierCallsFirst(steps: seq<Step>)
    requires Run(FiFo(0), steps).Some?
    ensures var s := Run(FiFo(0), steps).value;
            Ascending(s.pool) && forall st <- s.streams :: Ascending(st.snapshot)
  {
    var s := Run(FiFo(0), steps).value;
    RunKeepsInv(FiFo(0), steps);
    FifoRunsAreNumbered(steps);
    PoolAscends(s);
    forall i | 0 <= i < |s.streams| ensures Ascending(s.streams[i].snapshot) {
      assert StreamOk(s.calls, s.streams[i], s.now);
      SnapshotAscends(s, s.streams[i]);
    }
  }
}
