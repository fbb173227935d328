/**
 * Adding, removing and streaming transactions at the same time. Each step is one region the pool runs
 * under a lock, or one atomic operation: taking a priority, inserting, notifying; subscribing, taking the
 * snapshot; removing; and what one stream does alone.
 */
module PoolProtocol {
  import opened Wrappers
  import opened PoolOrder
  import opened TransactionPool

  datatype Stage = Ranked | Inserted | Notified

  /** One `add_transaction` call that passed validation, and when its steps happened. */
  datatype Call = Call(tx: PendingTx, stage: Stage, insertedAt: nat, notifiedAt: nat, removedAt: Option<nat>)

  /**
   * One `PendingTransactions`, with everything sent to it and everything its subscription yielded, and when: the
   * messages sent are received in order, so `receivedAt[k]` belongs to `sent[k]` and `poppedAt[k]` to `received[k]`.
   */
  datatype Stream = Stream(
    subscribedAt: nat,
    snapshotAt: Option<nat>,
    closedAt: Option<nat>,
    snapshot: seq<PendingTx>,
    taken: nat,
    sent: seq<PendingTx>,
    channel: seq<PendingTx>,
    buffer: seq<PendingTx>,
    draining: bool,
    received: seq<PendingTx>,
    receivedAt: seq<nat>,
    poppedAt: seq<nat>)

  /** The `n`th call's transaction has ticket `n`. */
  datatype State = State(
    now: nat,
    ordering: Ordering,
    calls: seq<Call>,
    pool: seq<PendingTx>,
    subscribers: set<nat>,
    streams: seq<Stream>)

  datatype Step =
    | TakePriority(tx: Tx)
    | InsertCall(call: nat)
    | Notify(call: nat)
    | Subscribe
    | Snapshot(stream: nat)
    | Remove(hashes: seq<Hash>)
    | Take(stream: nat)
    | Receive(stream: nat)
    | Pop(stream: nat)
    | Close(stream: nat)

  predicate Open(s: State, i: nat) {
    i < |s.streams| && s.streams[i].closedAt.None?
  }

  /** The snapshot is used up. */
  predicate PastSnapshot(st: Stream) {
    st.snapshotAt.Some? && st.taken >= |st.snapshot|
  }

  predicate Enabled(s: State, step: Step) {
    match step
    case TakePriority(_) => true
    case InsertCall(c) => c < |s.calls| && s.calls[c].stage == Ranked
    case Notify(c) => c < |s.calls| && s.calls[c].stage == Inserted
    case Subscribe => true
    case Snapshot(i) => Open(s, i) && s.streams[i].snapshotAt.None?
    case Remove(_) => true
    case Take(i) => Open(s, i) && s.streams[i].snapshotAt.Some? && s.streams[i].taken < |s.streams[i].snapshot|
    case Receive(i) =>
      && Open(s, i) && PastSnapshot(s.streams[i]) && s.streams[i].channel != []
      && (s.streams[i].buffer == [] || s.streams[i].draining)
    case Pop(i) => Open(s, i) && PastSnapshot(s.streams[i]) && s.streams[i].buffer != []
    case Close(i) => Open(s, i)
  }

  function Start(ordering: Ordering): (s: State) {
    State(0, ordering, [], [], {}, [])
  }

  function Deliver(st: Stream, tx: PendingTx): (r: Stream) {
    st.(sent := st.sent + [tx], channel := st.channel + [tx])
  }

  function NewStream(now: nat): (r: Stream) {
    Stream(now, None, None, [], 0, [], [], [], false, [], [], [])
  }

  /** One message moves from the channel into the ordered buffer. */
  function Received(st: Stream, now: nat): (r: Stream)
    requires st.channel != []
  {
    st.(channel := st.channel[1..], buffer := Insert(st.channel[0], st.buffer), draining := true,
    receivedAt := st.receivedAt + [now])
  }

  function Popped(st: Stream, now: nat): (r: Stream)
    requires st.buffer != []
  {
    st.(received := st.received + [st.buffer[0]], buffer := st.buffer[1..], draining := false,
    poppedAt := st.poppedAt + [now])
  }

  /** Every subscriber is sent the transaction, unless its receiver is gone. */
  function DeliverAll(streams: seq<Stream>, subscribers: set<nat>, tx: PendingTx): (r: seq<Stream>)
    ensures |r| == |streams|
  {
    seq(|streams|, i requires 0 <= i < |streams| =>
      if i in subscribers && streams[i].closedAt.None? then Deliver(streams[i], tx) else streams[i])
  }

  function MarkRemoved(calls: seq<Call>, hashes: seq<Hash>, now: nat): (r: seq<Call>)
    ensures |r| == |calls|
  {
    seq(|calls|, t requires 0 <= t < |calls| =>
      if calls[t].stage != Ranked && calls[t].removedAt.None? && calls[t].tx.tx.hash in hashes
      then calls[t].(removedAt := Some(now)) else calls[t])
  }

  function After(s: State, step: Step): (r: State)
    requires Enabled(s, step)
    ensures r.now == s.now + 1 && |r.streams| >= |s.streams| && |r.calls| >= |s.calls|
  {
    var t := s.(now := s.now + 1);
    match step
    case TakePriority(tx) =>
      var p := PendingTx(|s.calls|, TxId(tx.sender, tx.nonce), tx, PriorityOf(s.ordering, tx));
      t.(ordering := Advance(s.ordering), calls := s.calls + [Call(p, Ranked, 0, 0, None)])
    case InsertCall(c) =>
      t.(pool := Insert(s.calls[c].tx, s.pool),
      calls := s.calls[c := s.calls[c].(stage := Inserted, insertedAt := s.now)])
    case Notify(c) =>
      t.(streams := DeliverAll(s.streams, s.subscribers, s.calls[c].tx),
      subscribers := (set i | i in s.subscribers && Open(s, i)),
      calls := s.calls[c := s.calls[c].(stage := Notified, notifiedAt := s.now)])
    case Subscribe =>
      t.(streams := s.streams + [NewStream(s.now)],
      subscribers := s.subscribers + {|s.streams|})
    case Snapshot(i) =>
      t.(streams := s.streams[i := s.streams[i].(snapshotAt := Some(s.now), snapshot := s.pool)])
    case Remove(hashes) =>
      t.(pool := Without(s.pool, hashes), calls := MarkRemoved(s.calls, hashes, s.now))
    case Take(i) => t.(streams := s.streams[i := s.streams[i].(taken := s.streams[i].taken + 1)])
    case Receive(i) => t.(streams := s.streams[i := Received(s.streams[i], s.now)])
    case Pop(i) => t.(streams := s.streams[i := Popped(s.streams[i], s.now)])
    case Close(i) => t.(streams := s.streams[i := s.streams[i].(closedAt := Some(s.now))])
  }

  /** The state a run of steps leads to, if each is possible when its turn comes. */
  function Run(ordering: Ordering, steps: seq<Step>): (r: Option<State>) {
    if steps == [] then Some(Start(ordering))
    else
      match Run(ordering, steps[..|steps| - 1])
      case None => None
      case Some(s) =>
        var step := steps[|steps| - 1];
        if Enabled(s, step) then Some(After(s, step)) else None
  }

  /** What the stream has yielded: the snapshot first, then the subscription. */
  function Yielded(st: Stream): (r: seq<PendingTx>)
    requires st.taken <= |st.snapshot|
  {
    st.snapshot[..st.taken] + st.received
  }

  // ----- what every step keeps -----

  /** Inserted before the snapshot and not removed before it. */
  ghost predicate InSnapshot(c: Call, st: Stream) {
    && c.stage != Ranked && st.snapshotAt.Some? && c.insertedAt < st.snapshotAt.value
    && (c.removedAt.Some? ==> st.snapshotAt.value < c.removedAt.value)
  }

  /** Notified after the subscription and before the stream was dropped. */
  ghost predicate SentTo(c: Call, st: Stream) {
    && c.stage == Notified && st.subscribedAt < c.notifiedAt
    && (st.closedAt.Some? ==> c.notifiedAt < st.closedAt.value)
  }

  ghost predicate Known(calls: seq<Call>, x: PendingTx) {
    x.ticket < |calls| && calls[x.ticket].tx == x
  }

  /** How often the call's transaction is in the list. */
  ghost function Times(xs: seq<PendingTx>, c: Call): nat {
    multiset(xs)[c.tx]
  }

  ghost predicate CallOk(c: Call, t: nat, now: nat) {
    && c.tx.ticket == t
    && (c.stage != Ranked ==> c.insertedAt < now)
    && (c.stage == Notified ==> c.insertedAt < c.notifiedAt < now)
    && (c.removedAt.Some? ==> c.stage != Ranked && c.insertedAt < c.removedAt.value < now)
  }

  ghost predicate CallsOk(calls: seq<Call>, now: nat) {
    forall t :: 0 <= t < |calls| ==> CallOk(calls[t], t, now)
  }

  ghost predicate InPool(c: Call) {
    c.stage != Ranked && c.removedAt.None?
  }

  ghost function InsertedAt(calls: seq<Call>, x: PendingTx): nat {
    if x.ticket < |calls| then calls[x.ticket].insertedAt else 0
  }

  /** Transactions of equal priority stand in the order of their insertion. */
  ghost predicate TiesInOrder(calls: seq<Call>, xs: seq<PendingTx>) {
    forall i, j :: 0 <= i < j < |xs| && Rank(xs[i].priority) == Rank(xs[j].priority) ==>
      InsertedAt(calls, xs[i]) < InsertedAt(calls, xs[j])
  }

  /** The pool is sorted, ties by insertion, and holds each inserted and unremoved transaction once. */
  ghost predicate PoolOk(calls: seq<Call>, pool: seq<PendingTx>) {
    && Sorted(pool)
    && (forall x <- pool :: Known(calls, x)) && TiesInOrder(calls, pool)
    && (forall t :: 0 <= t < |calls| ==> Times(pool, calls[t]) == if InPool(calls[t]) then 1 else 0)
  }

  ghost predicate SnapshotOk(calls: seq<Call>, st: Stream) {
    && (forall x <- st.snapshot :: Known(calls, x)) && TiesInOrder(calls, st.snapshot)
    && (forall t :: 0 <= t < |calls| ==> Times(st.snapshot, calls[t]) == if InSnapshot(calls[t], st) then 1 else 0)
  }

  ghost predicate SentOk(calls: seq<Call>, st: Stream) {
    && (forall x <- st.sent :: Known(calls, x))
    && (forall t :: 0 <= t < |calls| ==> Times(st.sent, calls[t]) == if SentTo(calls[t], st) then 1 else 0)
  }

  /** Times are in order, both buffers are sorted, and what was sent is yielded, buffered or in the channel. */
  ghost predicate FlowOk(st: Stream, now: nat) {
    && st.subscribedAt < now
    && (st.snapshotAt.Some? ==> st.subscribedAt < st.snapshotAt.value < now)
    && (st.closedAt.Some? ==> st.closedAt.value < now)
    && (st.snapshotAt.None? ==> st.snapshot == [])
    && st.taken <= |st.snapshot|
    && Sorted(st.snapshot) && Sorted(st.buffer)
    && multiset(st.sent) == multiset(st.received) + multiset(st.buffer) + multiset(st.channel)
    && (st.received + st.buffer != [] ==> PastSnapshot(st))
  }

  ghost predicate StreamOk(calls: seq<Call>, st: Stream, now: nat) {
    FlowOk(st, now) && SnapshotOk(calls, st) && SentOk(calls, st)
  }

  ghost predicate StreamsOk(s: State) {
    && (forall i :: 0 <= i < |s.streams| ==> StreamOk(s.calls, s.streams[i], s.now))
    && (forall i :: 0 <= i < |s.streams| && s.streams[i].closedAt.None? ==> i in s.subscribers)
    && (forall i <- s.subscribers :: i < |s.streams|)
  }

  ghost predicate Inv(s: State) {
    CallsOk(s.calls, s.now) && PoolOk(s.calls, s.pool) && StreamsOk(s)
  }

  lemma CallsStayOk(s: State, step: Step)
    requires CallsOk(s.calls, s.now) && Enabled(s, step)
    ensures CallsOk(After(s, step).calls, s.now + 1)
  {
    var r := After(s, step);
    forall t | 0 <= t < |r.calls| ensures CallOk(r.calls[t], t, s.now + 1) {
      if t < |s.calls| {
        assert CallOk(s.calls[t], t, s.now);
      }
    }
  }

  // ----- the pool -----

  lemma UnknownIsAbsent(calls: seq<Call>, xs: seq<PendingTx>, x: PendingTx)
    requires (forall y <- xs :: Known(calls, y)) && x.ticket >= |calls|
    ensures multiset(xs)[x] == 0
  {
    assert x !in xs;
  }

  /** Insertion times of the listed transactions are what they were. */
  lemma SameTies(calls: seq<Call>, calls': seq<Call>, xs: seq<PendingTx>)
    requires TiesInOrder(calls, xs) && forall x <- xs :: InsertedAt(calls', x) == InsertedAt(calls, x)
    ensures TiesInOrder(calls', xs)
  {
    forall i, j | 0 <= i < j < |xs| && Rank(xs[i].priority) == Rank(xs[j].priority)
      ensures InsertedAt(calls', xs[i]) < InsertedAt(calls', xs[j])
    {
      assert xs[i] in xs && xs[j] in xs;
    }
  }

  lemma PoolAfterRank(calls: seq<Call>, c: Call, pool: seq<PendingTx>)
    requires PoolOk(calls, pool) && c.tx.ticket == |calls| && c.stage == Ranked
    ensures PoolOk(calls + [c], pool)
  {
    UnknownIsAbsent(calls, pool, c.tx);
    assert forall x <- pool :: Known(calls, x) ==> Known(calls + [c], x);
    SameTies(calls, calls + [c], pool);
  }

  /** A call changes without its transaction entering or leaving the pool. */
  lemma PoolAfterMark(calls: seq<Call>, t: nat, c: Call, pool: seq<PendingTx>)
    requires PoolOk(calls, pool) && t < |calls| && c.tx == calls[t].tx && InPool(c) == InPool(calls[t])
    requires c.insertedAt == calls[t].insertedAt
    ensures PoolOk(calls[t := c], pool)
  {
    assert forall x <- pool :: Known(calls, x) ==> Known(calls[t := c], x);
    SameTies(calls, calls[t := c], pool);
  }

  lemma OneMoreKnown(calls: seq<Call>, calls': seq<Call>, xs: seq<PendingTx>, x: PendingTx, r: seq<PendingTx>)
    requires |calls'| == |calls| && (forall t :: 0 <= t < |calls| ==> calls'[t].tx == calls[t].tx)
    requires (forall y <- xs :: Known(calls, y)) && Known(calls, x) && multiset(r) == multiset(xs) + multiset{x}
    ensures forall y <- r :: Known(calls', y)
  {
    forall y <- r ensures Known(calls', y) {
      assert y in multiset(r);
      assert y in xs ==> Known(calls, y);
    }
  }

  /** What is in the pool was inserted before now, and is none of the calls still to insert. */
  lemma PooledEarlier(calls: seq<Call>, now: nat, pool: seq<PendingTx>, x: PendingTx)
    requires CallsOk(calls, now) && PoolOk(calls, pool) && x in pool
    ensures Known(calls, x) && InPool(calls[x.ticket]) && calls[x.ticket].insertedAt < now
  {
    assert Known(calls, x);
    assert CallOk(calls[x.ticket], x.ticket, now);
    assert Times(pool, calls[x.ticket]) > 0;
  }

  /** The latest insertion goes behind its equals. */
  lemma TiesOfInserted(calls: seq<Call>, xs: seq<PendingTx>, x: PendingTx, k: nat)
    requires TiesInOrder(calls, xs) && k <= |xs| && (forall y <- xs :: InsertedAt(calls, y) < InsertedAt(calls, x))
    requires forall i :: k <= i < |xs| ==> Before(x, xs[i])
    ensures TiesInOrder(calls, xs[..k] + [x] + xs[k..])
  {
    var r := xs[..k] + [x] + xs[k..];
    forall i, j | 0 <= i < j < |r| && Rank(r[i].priority) == Rank(r[j].priority)
      ensures InsertedAt(calls, r[i]) < InsertedAt(calls, r[j])
    {
      assert j == k ==> r[i] == xs[i];
    }
  }

  lemma TiesAfterInsert(calls: seq<Call>, calls': seq<Call>, now: nat, t: nat, pool: seq<PendingTx>)
    requires CallsOk(calls, now) && PoolOk(calls, pool) && t < |calls| && calls[t].stage == Ranked
    requires calls' == calls[t := calls[t].(stage := Inserted, insertedAt := now)]
    ensures TiesInOrder(calls', Insert(calls[t].tx, pool))
  {
    var x := calls[t].tx;
    assert CallOk(calls[t], t, now);
    forall y <- pool ensures InsertedAt(calls', y) == InsertedAt(calls, y) < now {
      PooledEarlier(calls, now, pool, y);
    }
    SameTies(calls, calls', pool);
    var k := InsertIsStable(x, pool);
    TiesOfInserted(calls', pool, x, k);
  }

  lemma CountAfterInsert(calls: seq<Call>, now: nat, t: nat, c: Call, pool: seq<PendingTx>, r: seq<PendingTx>, u: nat)
    requires CallsOk(calls, now) && PoolOk(calls, pool) && t < |calls| && u < |calls|
    requires !InPool(calls[t]) && InPool(c) && c.tx == calls[t].tx && multiset(r) == multiset(pool) + multiset{c.tx}
    ensures Times(r, calls[t := c][u]) == if InPool(calls[t := c][u]) then 1 else 0
  {
    assert CallOk(calls[u], u, now) && CallOk(calls[t], t, now);
    assert Times(pool, calls[u]) == if InPool(calls[u]) then 1 else 0;
  }

  lemma PoolAfterInsert(calls: seq<Call>, now: nat, t: nat, pool: seq<PendingTx>)
    requires CallsOk(calls, now) && PoolOk(calls, pool) && t < |calls| && calls[t].stage == Ranked
    ensures PoolOk(calls[t := calls[t].(stage := Inserted, insertedAt := now)], Insert(calls[t].tx, pool))
  {
    var x, c := calls[t].tx, calls[t].(stage := Inserted, insertedAt := now);
    var calls', r := calls[t := c], Insert(x, pool);
    var _ := InsertIsStable(x, pool);
    assert CallOk(calls[t], t, now);
    OneMoreKnown(calls, calls', pool, x, r);
    forall u | 0 <= u < |calls'| ensures Times(r, calls'[u]) == if InPool(calls'[u]) then 1 else 0 {
      CountAfterInsert(calls, now, t, c, pool, r, u);
    }
    TiesAfterInsert(calls, calls', now, t, pool);
  }

  lemma TiesAfterRemove(calls: seq<Call>, pool: seq<PendingTx>, hashes: seq<Hash>)
    requires TiesInOrder(calls, pool)
    ensures TiesInOrder(calls, Without(pool, hashes))
  {
    var r := Without(pool, hashes);
    var at := WithoutKeepsOrder(pool, hashes);
    forall i, j | 0 <= i < j < |r| && Rank(r[i].priority) == Rank(r[j].priority)
      ensures InsertedAt(calls, r[i]) < InsertedAt(calls, r[j])
    {
      assert at[i] < at[j] && r[i] == pool[at[i]] && r[j] == pool[at[j]];
    }
  }

  lemma PoolAfterRemove(calls: seq<Call>, pool: seq<PendingTx>, hashes: seq<Hash>, now: nat)
    requires PoolOk(calls, pool)
    ensures PoolOk(MarkRemoved(calls, hashes, now), Without(pool, hashes))
  {
    var r, calls' := Without(pool, hashes), MarkRemoved(calls, hashes, now);
    WithoutSorted(pool, hashes);
    forall x <- r ensures Known(calls', x) {
      assert Known(calls, x);
    }
    forall t | 0 <= t < |calls'| ensures Times(r, calls'[t]) == if InPool(calls'[t]) then 1 else 0 {
      assert Times(pool, calls[t]) == if InPool(calls[t]) then 1 else 0;
      WithoutCounts(pool, hashes, calls[t].tx);
    }
    TiesAfterRemove(calls, pool, hashes);
    SameTies(calls, calls', r);
  }

  lemma PoolStaysOk(s: State, step: Step)
    requires CallsOk(s.calls, s.now) && PoolOk(s.calls, s.pool) && Enabled(s, step)
    ensures PoolOk(After(s, step).calls, After(s, step).pool)
  {
    var r := After(s, step);
    match step
    case TakePriority(tx) => PoolAfterRank(s.calls, r.calls[|s.calls|], s.pool);
    case InsertCall(c) =>
      PoolAfterInsert(s.calls, s.now, c, s.pool);
    case Notify(c) => PoolAfterMark(s.calls, c, r.calls[c], s.pool);
    case Remove(hashes) => PoolAfterRemove(s.calls, s.pool, hashes, s.now);
    case _ =>
  }

  // ----- the streams -----

  /** Seen from a stream, no call has changed: nothing that was decided for it is decided anew. */
  ghost predicate SameView(calls: seq<Call>, calls': seq<Call>, st: Stream) {
    && |calls| <= |calls'|
    && (forall t :: 0 <= t < |calls| ==>
          && calls'[t].tx == calls[t].tx && (calls[t].stage != Ranked ==> calls'[t].insertedAt == calls[t].insertedAt)
          && InSnapshot(calls'[t], st) == InSnapshot(calls[t], st) && SentTo(calls'[t], st) == SentTo(calls[t], st))
    && (forall t :: |calls| <= t < |calls'| ==> calls'[t].tx.ticket == t && calls'[t].stage == Ranked)
  }

  lemma SameViewKeeps(calls: seq<Call>, calls': seq<Call>, st: Stream, now: nat)
    requires StreamOk(calls, st, now) && SameView(calls, calls', st)
    ensures StreamOk(calls', st, now + 1)
  {
    SameListing(calls, calls', st.snapshot);
    SameListing(calls, calls', st.sent);
    SnapshotTies(calls, calls', st);
    forall t | 0 <= t < |calls'|
      ensures Times(st.snapshot, calls'[t]) == (if InSnapshot(calls'[t], st) then 1 else 0)
      ensures Times(st.sent, calls'[t]) == (if SentTo(calls'[t], st) then 1 else 0)
    {
      if t < |calls| {
        assert Times(st.snapshot, calls[t]) == (if InSnapshot(calls[t], st) then 1 else 0);
        assert Times(st.sent, calls[t]) == (if SentTo(calls[t], st) then 1 else 0);
      } else {
        UnknownIsAbsent(calls, st.snapshot, calls'[t].tx);
        UnknownIsAbsent(calls, st.sent, calls'[t].tx);
      }
    }
  }

  lemma SameListing(calls: seq<Call>, calls': seq<Call>, xs: seq<PendingTx>)
    requires |calls| <= |calls'| && (forall t :: 0 <= t < |calls| ==> calls'[t].tx == calls[t].tx)
    requires forall x <- xs :: Known(calls, x)
    ensures forall x <- xs :: Known(calls', x)
  {
  }

  /** Insertion times do not change any more for what is in a snapshot. */
  lemma SnapshotTies(calls: seq<Call>, calls': seq<Call>, st: Stream)
    requires SnapshotOk(calls, st) && (forall x <- st.snapshot :: Known(calls', x)) && |calls| <= |calls'|
    requires forall t :: 0 <= t < |calls| && calls[t].stage != Ranked ==> calls'[t].insertedAt == calls[t].insertedAt
    ensures TiesInOrder(calls', st.snapshot)
  {
    forall x <- st.snapshot ensures InsertedAt(calls', x) == InsertedAt(calls, x) {
      assert Known(calls, x);
      assert Times(st.snapshot, calls[x.ticket]) > 0;
    }
    SameTies(calls, calls', st.snapshot);
  }

  /** What calls go through at time `now` is not seen by a stream whose times are all in the past. */
  lemma CallsMoveUnseen(s: State, step: Step, st: Stream)
    requires CallsOk(s.calls, s.now) && FlowOk(st, s.now) && Enabled(s, step)
    requires step.TakePriority? || step.InsertCall? || step.Remove? || (step.Notify? && st.closedAt.Some?)
    ensures SameView(s.calls, After(s, step).calls, st)
  {
    var calls' := After(s, step).calls;
    forall t | 0 <= t < |s.calls|
      ensures calls'[t].tx == s.calls[t].tx
      ensures s.calls[t].stage != Ranked ==> calls'[t].insertedAt == s.calls[t].insertedAt
      ensures InSnapshot(calls'[t], st) == InSnapshot(s.calls[t], st) && SentTo(calls'[t], st) == SentTo(s.calls[t], st)
    {
      assert CallOk(s.calls[t], t, s.now);
    }
  }

  /** A notification reaches an open stream. */
  lemma DeliveryKeeps(calls: seq<Call>, now: nat, t: nat, st: Stream)
    requires CallsOk(calls, now) && StreamOk(calls, st, now)
    requires t < |calls| && calls[t].stage == Inserted && st.closedAt.None?
    ensures StreamOk(calls[t := calls[t].(stage := Notified, notifiedAt := now)], Deliver(st, calls[t].tx), now + 1)
  {
    var c := calls[t];
    var calls', st' := calls[t := c.(stage := Notified, notifiedAt := now)], Deliver(st, c.tx);
    SameListing(calls, calls', st.snapshot);
    assert CallOk(c, t, now);
    OneMoreKnown(calls, calls', st.sent, c.tx, st'.sent);
    SnapshotTies(calls, calls', st);
    forall u | 0 <= u < |calls'|
      ensures Times(st'.snapshot, calls'[u]) == (if InSnapshot(calls'[u], st') then 1 else 0)
      ensures Times(st'.sent, calls'[u]) == (if SentTo(calls'[u], st') then 1 else 0)
    {
      assert CallOk(calls[u], u, now) && CallOk(calls[t], t, now);
      assert Times(st.snapshot, calls[u]) == (if InSnapshot(calls[u], st) then 1 else 0);
      assert Times(st.sent, calls[u]) == (if SentTo(calls[u], st) then 1 else 0);
    }
  }

  lemma SnapshotKeeps(calls: seq<Call>, pool: seq<PendingTx>, now: nat, st: Stream)
    requires CallsOk(calls, now) && PoolOk(calls, pool) && StreamOk(calls, st, now) && st.snapshotAt.None?
    ensures StreamOk(calls, st.(snapshotAt := Some(now), snapshot := pool), now + 1)
  {
    var st' := st.(snapshotAt := Some(now), snapshot := pool);
    forall t | 0 <= t < |calls| ensures Times(pool, calls[t]) == (if InSnapshot(calls[t], st') then 1 else 0) {
      assert CallOk(calls[t], t, now);
    }
    forall t | 0 <= t < |calls| ensures Times(st.sent, calls[t]) == (if SentTo(calls[t], st') then 1 else 0) {
    }
  }

  lemma CloseKeeps(calls: seq<Call>, now: nat, st: Stream)
    requires CallsOk(calls, now) && StreamOk(calls, st, now) && st.closedAt.None?
    ensures StreamOk(calls, st.(closedAt := Some(now)), now + 1)
  {
    var st' := st.(closedAt := Some(now));
    forall t | 0 <= t < |calls|
      ensures Times(st.snapshot, calls[t]) == (if InSnapshot(calls[t], st') then 1 else 0)
      ensures Times(st.sent, calls[t]) == (if SentTo(calls[t], st') then 1 else 0)
    {
      assert CallOk(calls[t], t, now);
    }
  }

  lemma NewStreamOk(calls: seq<Call>, now: nat)
    requires CallsOk(calls, now)
    ensures StreamOk(calls, NewStream(now), now + 1)
  {
    forall t | 0 <= t < |calls| ensures !SentTo(calls[t], NewStream(now)) {
      assert CallOk(calls[t], t, now);
    }
  }

  /** Listings depend only on what was sent, the snapshot and the times. */
  lemma SameRecord(calls: seq<Call>, st: Stream, st': Stream, now: nat)
    requires StreamOk(calls, st, now) && FlowOk(st', now + 1)
    requires st'.snapshot == st.snapshot && st'.sent == st.sent && st'.subscribedAt == st.subscribedAt
    requires st'.snapshotAt == st.snapshotAt && st'.closedAt == st.closedAt
    ensures StreamOk(calls, st', now + 1)
  {
    forall t | 0 <= t < |calls|
      ensures Times(st'.snapshot, calls[t]) == (if InSnapshot(calls[t], st') then 1 else 0)
      ensures Times(st'.sent, calls[t]) == (if SentTo(calls[t], st') then 1 else 0)
    {
      assert InSnapshot(calls[t], st') == InSnapshot(calls[t], st) && SentTo(calls[t], st') == SentTo(calls[t], st);
    }
  }

  lemma ReceiveKeepsFlow(st: Stream, now: nat)
    requires FlowOk(st, now) && PastSnapshot(st) && st.channel != []
    ensures FlowOk(Received(st, now), now + 1)
  {
    assert st.channel == [st.channel[0]] + st.channel[1..];
    var _ := InsertIsStable(st.channel[0], st.buffer);
  }

  lemma PopKeepsFlow(st: Stream, now: nat)
    requires FlowOk(st, now) && PastSnapshot(st) && st.buffer != []
    ensures FlowOk(Popped(st, now), now + 1)
  {
    assert st.buffer == [st.buffer[0]] + st.buffer[1..];
  }

  /** The stream moves what it has: it takes from the snapshot, receives into the buffer, or pops. */
  lemma MoveKeeps(s: State, step: Step, i: nat)
    requires i < |s.streams| && StreamOk(s.calls, s.streams[i], s.now)
    requires step in {Take(i), Receive(i), Pop(i)} && Enabled(s, step)
    ensures StreamOk(s.calls, After(s, step).streams[i], s.now + 1)
  {
    var st := s.streams[i];
    if step.Receive? {
      ReceiveKeepsFlow(st, s.now);
    } else if step.Pop? {
      PopKeepsFlow(st, s.now);
    }
    SameRecord(s.calls, st, After(s, step).streams[i], s.now);
  }

  /** Which stream, if any, a step moves on its own. */
  function Mover(step: Step): (r: Option<nat>) {
    match step
    case Snapshot(i) => Some(i)
    case Take(i) => Some(i)
    case Receive(i) => Some(i)
    case Pop(i) => Some(i)
    case Close(i) => Some(i)
    case _ => None
  }

  lemma MoverStaysOk(s: State, step: Step, i: nat)
    requires Inv(s) && Enabled(s, step) && Mover(step) == Some(i)
    ensures i < |s.streams| && StreamOk(After(s, step).calls, After(s, step).streams[i], s.now + 1)
  {
    assert StreamOk(s.calls, s.streams[i], s.now);
    match step
    case Snapshot(_) => SnapshotKeeps(s.calls, s.pool, s.now, s.streams[i]);
    case Close(_) => CloseKeeps(s.calls, s.now, s.streams[i]);
    case _ => MoveKeeps(s, step, i);
  }

  lemma BystanderStaysOk(s: State, step: Step, i: nat)
    requires Inv(s) && Enabled(s, step) && Mover(step) != Some(i) && i < |s.streams|
    ensures StreamOk(After(s, step).calls, After(s, step).streams[i], s.now + 1)
  {
    var st := s.streams[i];
    assert StreamOk(s.calls, st, s.now);
    if step.Notify? && st.closedAt.None? {
      DeliveryKeeps(s.calls, s.now, step.call, st);
    } else {
      if step.TakePriority? || step.InsertCall? || step.Remove? || step.Notify? {
        CallsMoveUnseen(s, step, st);
      }
      SameViewKeeps(s.calls, After(s, step).calls, st, s.now);
    }
  }

  lemma SubscribersStayOk(s: State, step: Step)
    requires StreamsOk(s) && Enabled(s, step)
    ensures var r := After(s, step);
            && (forall i :: 0 <= i < |r.streams| && r.streams[i].closedAt.None? ==> i in r.subscribers)
            && (forall i <- r.subscribers :: i < |r.streams|)
  {
  }

  lemma StreamsStayOk(s: State, step: Step)
    requires Inv(s) && Enabled(s, step)
    ensures StreamsOk(After(s, step))
  {
    var r := After(s, step);
    SubscribersStayOk(s, step);
    forall i | 0 <= i < |r.streams| ensures StreamOk(r.calls, r.streams[i], r.now) {
      if i == |s.streams| {
        NewStreamOk(s.calls, s.now);
      } else if Mover(step) == Some(i) {
        MoverStaysOk(s, step, i);
      } else {
        BystanderStaysOk(s, step, i);
      }
    }
  }

  /** Every run keeps the invariant. */
  lemma {:induction false} RunKeepsInv(ordering: Ordering, steps: seq<Step>)
    requires Run(ordering, steps).Some?
    ensures Inv(Run(ordering, steps).value)
  {
    if steps != [] {
      var s, step := Run(ordering, steps[..|steps| - 1]).value, steps[|steps| - 1];
      RunKeepsInv(ordering, steps[..|steps| - 1]);
      CallsStayOk(s, step);
      PoolStaysOk(s, step);
      StreamsStayOk(s, step);
    }
  }

  // ----- what follows, over all interleavings -----

  /**
   * No transaction is lost: once inserted it is, for each open stream with a snapshot, in the snapshot,
   * removed before the snapshot, still to be notified, or sent to the stream.
   */
  lemma NoTransactionLost(ordering: Ordering, steps: seq<Step>, t: nat, i: nat)
    requires Run(ordering, steps).Some?
    requires var s := Run(ordering, steps).value;
             && t < |s.calls| && s.calls[t].stage != Ranked
             && Open(s, i) && s.streams[i].snapshotAt.Some?
    ensures var s := Run(ordering, steps).value;
            var c, st := s.calls[t], s.streams[i];
            || c.tx in st.snapshot
            || (c.removedAt.Some? && c.removedAt.value <= st.snapshotAt.value)
            || c.stage == Inserted
            || c.tx in st.sent
  {
    RunKeepsInv(ordering, steps);
    var s := Run(ordering, steps).value;
    var c, st := s.calls[t], s.streams[i];
    assert CallOk(c, t, s.now) && StreamOk(s.calls, st, s.now);
    assert Times(st.snapshot, c) == (if InSnapshot(c, st) then 1 else 0);
    assert Times(st.sent, c) == (if SentTo(c, st) then 1 else 0);
  }

  ghost predicate InPriorityOrder(calls: seq<Call>, xs: seq<PendingTx>) {
    forall i, j :: 0 <= i < j < |xs| ==>
      || Before(xs[i], xs[j])
      || (Rank(xs[i].priority) == Rank(xs[j].priority) && InsertedAt(calls, xs[i]) < InsertedAt(calls, xs[j]))
  }

  /** In every run the pool, and every snapshot, is in order of priority with ties in order of insertion. */
  lemma TiesGoByInsertion(ordering: Ordering, steps: seq<Step>)
    requires Run(ordering, steps).Some?
    ensures var s := Run(ordering, steps).value;
            InPriorityOrder(s.calls, s.pool) && forall st <- s.streams :: InPriorityOrder(s.calls, st.snapshot)
  {
    RunKeepsInv(ordering, steps);
    var s := Run(ordering, steps).value;
    forall i | 0 <= i < |s.streams| ensures InPriorityOrder(s.calls, s.streams[i].snapshot) {
      assert StreamOk(s.calls, s.streams[i], s.now);
    }
  }

  /** Whatever a stream was sent is in its hands exactly once: yielded, buffered or in the channel. */
  lemma SentIsConserved(ordering: Ordering, steps: seq<Step>, i: nat)
    requires Run(ordering, steps).Some? && i < |Run(ordering, steps).value.streams|
    ensures var st := Run(ordering, steps).value.streams[i];
            && multiset(st.sent) == multiset(st.received) + multiset(st.buffer) + multiset(st.channel)
            && Sorted(st.snapshot) && Sorted(st.buffer) && st.taken <= |st.snapshot|
            && (st.received != [] ==> st.taken == |st.snapshot|)
  {
    RunKeepsInv(ordering, steps);
    var s := Run(ordering, steps).value;
    assert StreamOk(s.calls, s.streams[i], s.now);
  }

  lemma YieldedCount(s: State, t: nat, i: nat)
    requires Inv(s) && t < |s.calls| && i < |s.streams|
    ensures var c, st := s.calls[t], s.streams[i];
            && st.taken <= |st.snapshot|
            && Times(Yielded(st), c) + Times(st.snapshot[st.taken..], c) + Times(st.buffer, c) + Times(st.channel, c)
            == (if InSnapshot(c, st) then 1 else 0) + (if SentTo(c, st) then 1 else 0)
  {
    var c, st := s.calls[t], s.streams[i];
    assert StreamOk(s.calls, st, s.now);
    assert Times(st.snapshot, c) == (if InSnapshot(c, st) then 1 else 0);
    assert Times(st.sent, c) == (if SentTo(c, st) then 1 else 0);
    assert st.snapshot == st.snapshot[..st.taken] + st.snapshot[st.taken..];
  }

  /**
   * No stream yields a transaction more than twice, and twice only if it was inserted before the snapshot and
   * notified after the subscription.
   */
  lemma YieldedAtMostTwice(ordering: Ordering, steps: seq<Step>, t: nat, i: nat)
    requires Run(ordering, steps).Some?
    requires t < |Run(ordering, steps).value.calls| && i < |Run(ordering, steps).value.streams|
    ensures var s := Run(ordering, steps).value;
            var c, st := s.calls[t], s.streams[i];
            && st.taken <= |st.snapshot|
            && Times(Yielded(st), c) <= 2
            && (Times(Yielded(st), c) == 2 ==>
                  && st.snapshotAt.Some? && c.insertedAt < st.snapshotAt.value
                  && c.stage == Notified && st.subscribedAt < c.notifiedAt)
  {
    RunKeepsInv(ordering, steps);
    YieldedCount(Run(ordering, steps).value, t, i);
  }

  /** Nothing is left to notify, and the stream has taken everything it can get. */
  predicate Settled(s: State, i: nat) {
    && Open(s, i) && PastSnapshot(s.streams[i]) && s.streams[i].buffer == [] && s.streams[i].channel == []
    && forall c <- s.calls :: c.stage == Notified
  }

  /**
   * When everything has settled, a stream has yielded each transaction not removed before its snapshot, and
   * has yielded it twice exactly when its insertion precedes the snapshot and its notification follows the
   * subscription.
   */
  lemma SettledStreamsYieldAll(ordering: Ordering, steps: seq<Step>, t: nat, i: nat)
    requires Run(ordering, steps).Some?
    requires t < |Run(ordering, steps).value.calls| && Settled(Run(ordering, steps).value, i)
    ensures var s := Run(ordering, steps).value;
            var c, st := s.calls[t], s.streams[i];
            var kept := c.removedAt.None? || st.snapshotAt.value < c.removedAt.value;
            && st.taken <= |st.snapshot|
            && (kept ==> c.tx in Yielded(st))
            && (Times(Yielded(st), c) == 2 <==>
                  kept && c.insertedAt < st.snapshotAt.value && st.subscribedAt < c.notifiedAt)
  {
    RunKeepsInv(ordering, steps);
    var s := Run(ordering, steps).value;
    YieldedCount(s, t, i);
    var c, st := s.calls[t], s.streams[i];
    assert CallOk(c, t, s.now) && StreamOk(s.calls, st, s.now) && c in s.calls;
    assert c.tx in Yielded(st) <==> Times(Yielded(st), c) > 0;
  }
}
