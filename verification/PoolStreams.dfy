/** Streams of pending transactions (crates/katana/pool/src/subscription.rs and pending.rs). */
module PoolStreams {
  import opened Wrappers
  import opened Sequences
  import opened PoolOrder

  datatype Poll<+T> = Ready(item: Option<T>) | Pending

  /** An unbounded channel with one sender and one receiver. */
  class Channel {
    var queue: seq<PendingTx>
    var senderAlive: bool
    var receiverAlive: bool

    constructor ()
      ensures queue == [] && senderAlive && receiverAlive
    {
      queue, senderAlive, receiverAlive := [], true, true;
    }

    method Send(tx: PendingTx) returns (ok: bool)
      modifies this
      ensures ok == old(receiverAlive)
      ensures queue == old(queue) + (if ok then [tx] else [])
      ensures senderAlive == old(senderAlive) && receiverAlive == old(receiverAlive)
    {
      ok := receiverAlive;
      if ok {
        queue := queue + [tx];
      }
    }

    method PollRecv() returns (r: Poll<PendingTx>)
      modifies this
      ensures old(queue) != [] ==> r == Ready(Some(old(queue)[0])) && queue == old(queue)[1..]
      ensures old(queue) == [] ==> r == (if senderAlive then Pending else Ready(None)) && queue == []
      ensures senderAlive == old(senderAlive) && receiverAlive == old(receiverAlive)
    {
      if queue != [] {
        r := Ready(Some(queue[0]));
        queue := queue[1..];
      } else {
        r := if senderAlive then Pending else Ready(None);
      }
    }
  }

  /** What one poll of a subscription answers, and the buffer and the channel it leaves. */
  function PollStep(buffer: seq<PendingTx>, queue: seq<PendingTx>, senderAlive: bool)
    : (r: (Poll<PendingTx>, seq<PendingTx>, seq<PendingTx>))
  {
    if buffer != [] then (Ready(Some(buffer[0])), buffer[1..], queue)
    else if queue != [] then
      var batch := InsertAll(queue, []);
      (Ready(Some(batch[0])), batch[1..], [])
    else (if senderAlive then Pending else Ready(None), [], [])
  }

  /**
   * What a poll is for: the first of the ordered set; or, if that is empty, the first of what the channel holds, all
   * of which is taken in and sorted; or, if both are empty, what the channel says.
   */
  ghost predicate PollAnswers(buffer: seq<PendingTx>, queue: seq<PendingTx>, senderAlive: bool, answer: Poll<PendingTx>,
                              buffer': seq<PendingTx>, queue': seq<PendingTx>)
  {
    if buffer != [] then
      answer == Ready(Some(buffer[0])) && buffer' == buffer[1..] && queue' == queue
    else if queue != [] then
      answer.Ready? && answer.item.Some? && queue' == [] && IsStableSort(queue, [answer.item.value] + buffer')
    else
      answer == (if senderAlive then Pending else Ready(None)) && buffer' == [] && queue' == []
  }

  /** Every poll, of the class or of a run, answers so. */
  lemma PollStepAnswers(buffer: seq<PendingTx>, queue: seq<PendingTx>, senderAlive: bool)
    ensures var (answer, buffer', queue') := PollStep(buffer, queue, senderAlive);
            PollAnswers(buffer, queue, senderAlive, answer, buffer', queue')
  {
    InsertAllSorts(queue);
    var batch := InsertAll(queue, []);
    assert queue != [] ==> [batch[0]] + batch[1..] == batch;
  }

  class Subscription {
    var txs: seq<PendingTx>
    const receiver: Channel

    constructor (receiver: Channel)
      ensures this.receiver == receiver && txs == []
    {
      this.receiver, txs := receiver, [];
    }

    /** The inner loop: everything else in the channel joins `first` in the ordered set. */
    method Drain(first: PendingTx)
      requires txs == []
      modifies this, receiver
      ensures txs == InsertAll([first] + old(receiver.queue), []) && receiver.queue == []
      ensures receiver.senderAlive == old(receiver.senderAlive) && receiver.receiverAlive == old(receiver.receiverAlive)
    {
      ghost var batch := [first] + receiver.queue;
      txs := Insert(first, txs);
      assert batch[1..] == receiver.queue;
      var more := receiver.PollRecv();
      while more.Ready? && more.item.Some?
        invariant receiver.senderAlive == old(receiver.senderAlive)
        invariant receiver.receiverAlive == old(receiver.receiverAlive)
        invariant InsertAll(batch, []) == InsertAll(Unread(more) + receiver.queue, txs)
        invariant Unread(more) == [] ==> receiver.queue == []
        decreases |Unread(more)| + |receiver.queue|
      {
        assert ([more.item.value] + receiver.queue)[1..] == receiver.queue;
        txs := Insert(more.item.value, txs);
        more := receiver.PollRecv();
      }
    }

    method PollNext() returns (r: Poll<PendingTx>)
      modifies this, receiver
      ensures PollAnswers(old(txs), old(receiver.queue), old(receiver.senderAlive), r, txs, receiver.queue)
      ensures (r, txs, receiver.queue) == PollStep(old(txs), old(receiver.queue), old(receiver.senderAlive))
      ensures receiver.senderAlive == old(receiver.senderAlive) && receiver.receiverAlive == old(receiver.receiverAlive)
    {
      PollStepAnswers(txs, receiver.queue, receiver.senderAlive);
      // The measure admits two iterations.
      while true
        invariant receiver.senderAlive == old(receiver.senderAlive)
        invariant receiver.receiverAlive == old(receiver.receiverAlive)
        invariant PollStep(txs, receiver.queue, receiver.senderAlive)
               == old(PollStep(txs, receiver.queue, receiver.senderAlive))
        decreases if txs == [] then 1 else 0
      {
        if txs != [] {
          r := Ready(Some(txs[0]));
          txs := txs[1..];
          return;
        }
        ghost var batch := receiver.queue;
        r := receiver.PollRecv();
        if r.Pending? || r.item.None? {
          return;
        }
        assert [batch[0]] + batch[1..] == batch;
        Drain(r.item.value);
      }
    }
  }

  function Unread(r: Poll<PendingTx>): (xs: seq<PendingTx>) {
    if r.Ready? && r.item.Some? then [r.item.value] else []
  }

  /** The snapshot taken when the stream was made, then the subscription. */
  class PendingTransactions {
    var all: seq<PendingTx>
    const subscription: Subscription

    constructor (all: seq<PendingTx>, subscription: Subscription)
      ensures this.all == all && this.subscription == subscription
    {
      this.all, this.subscription := all, subscription;
    }

    method PollNext() returns (r: Poll<PendingTx>)
      modifies this, subscription, subscription.receiver
      ensures old(all) != [] ==>
                && r == Ready(Some(old(all)[0])) && all == old(all)[1..]
                && subscription.txs == old(subscription.txs)
                && subscription.receiver.queue == old(subscription.receiver.queue)
      ensures old(all) == [] ==>
                && all == []
                && PollAnswers(old(subscription.txs), old(subscription.receiver.queue),
                               old(subscription.receiver.senderAlive), r, subscription.txs, subscription.receiver.queue)
                && (r, subscription.txs, subscription.receiver.queue)
                == old(PollStep(subscription.txs, subscription.receiver.queue, subscription.receiver.senderAlive))
    {
      if all != [] {
        r := Ready(Some(all[0]));
        all := all[1..];
      } else {
        r := subscription.PollNext();
      }
    }
  }

  // ----- whole runs of one subscription -----

  datatype Event = Sent(tx: PendingTx) | Polled

  /** A subscription with everything ever sent to it, everything it yielded, and the batches it drained. */
  datatype History = History(
    sent: seq<PendingTx>,
    queue: seq<PendingTx>,
    buffer: seq<PendingTx>,
    yielded: seq<PendingTx>,
    batches: seq<seq<PendingTx>>)

  function After(h: History, e: Event): (r: History) {
    match e
    case Sent(tx) => h.(sent := h.sent + [tx], queue := h.queue + [tx])
    case Polled =>
      var (answer, buffer, queue) := PollStep(h.buffer, h.queue, true);
      h.(buffer := buffer, queue := queue,
      yielded := h.yielded + Unread(answer),
      batches := if h.buffer == [] && h.queue != [] then h.batches + [h.queue] else h.batches)
  }

  function Run(events: seq<Event>): (h: History) {
    if events == [] then History([], [], [], [], [])
    else After(Run(events[..|events| - 1]), events[|events| - 1])
  }

  function Concat(xss: seq<seq<PendingTx>>): (r: seq<PendingTx>) {
    if xss == [] then [] else Concat(xss[..|xss| - 1]) + xss[|xss| - 1]
  }

  /** Each batch put into an empty ordered set and taken out again, one batch after another. */
  function ConcatSorted(xss: seq<seq<PendingTx>>): (r: seq<PendingTx>) {
    if xss == [] then [] else ConcatSorted(xss[..|xss| - 1]) + InsertAll(xss[|xss| - 1], [])
  }

  /** The buffer holds what is left of the last batch, and nothing else. */
  predicate BufferOfLastBatch(h: History) {
    h.buffer != [] ==>
      && h.batches != []
      && var last := InsertAll(h.batches[|h.batches| - 1], []);
      && |h.buffer| <= |last| && h.buffer == last[|last| - |h.buffer|..]
  }

  ghost predicate Batched(h: History) {
    && h.sent == Concat(h.batches) + h.queue
    && h.yielded + h.buffer == ConcatSorted(h.batches)
    && BufferOfLastBatch(h)
  }

  /**
   * What was sent is cut into batches, in order; what came out, and will come out of the buffer, is each
   * batch's stable sort before the next batch's; and the channel is read again only when the buffer is empty.
   */
  lemma {:induction false} YieldsSortedBatches(events: seq<Event>)
    ensures Batched(Run(events))
    ensures forall batch <- Run(events).batches :: batch != [] && IsStableSort(batch, InsertAll(batch, []))
  {
    if events != [] {
      var e := events[|events| - 1];
      var h := Run(events[..|events| - 1]);
      YieldsSortedBatches(events[..|events| - 1]);
      if e.Sent? {
        SendKeepsBatches(h, e.tx);
      } else if h.buffer != [] {
        PopKeepsBatches(h);
      } else if h.queue != [] {
        DrainKeepsBatches(h);
        InsertAllSorts(h.queue);
      } else {
        assert h.yielded + [] == h.yielded;
      }
    }
  }

  lemma SendKeepsBatches(h: History, tx: PendingTx)
    requires Batched(h)
    ensures Batched(After(h, Sent(tx)))
  {
    Associate(Concat(h.batches), h.queue, [tx]);
  }

  lemma PopKeepsBatches(h: History)
    requires Batched(h) && h.buffer != []
    ensures Batched(After(h, Polled))
  {
    assert [h.buffer[0]] + h.buffer[1..] == h.buffer;
    Associate(h.yielded, [h.buffer[0]], h.buffer[1..]);
  }

  lemma DrainKeepsBatches(h: History)
    requires Batched(h) && h.buffer == [] && h.queue != []
    ensures Batched(After(h, Polled))
  {
    var batch := InsertAll(h.queue, []);
    var batches := h.batches + [h.queue];
    assert batches[..|batches| - 1] == h.batches;
    assert [batch[0]] + batch[1..] == batch;
    Associate(h.yielded, [batch[0]], batch[1..]);
    assert h.yielded + [] == h.yielded;
    assert Concat(batches) + [] == Concat(batches);
  }

  /** Nothing is lost and nothing is made up: at all times sent = yielded + buffered + in the channel. */
  lemma {:induction false} SubscriptionConserves(events: seq<Event>)
    ensures var h := Run(events);
            multiset(h.sent) == multiset(h.yielded) + multiset(h.buffer) + multiset(h.queue)
  {
    var h := Run(events);
    YieldsSortedBatches(events);
    SortingConserves(h.batches);
    assert multiset(h.yielded + h.buffer) == multiset(h.yielded) + multiset(h.buffer);
  }

  lemma {:induction false} SortingConserves(xss: seq<seq<PendingTx>>)
    ensures multiset(ConcatSorted(xss)) == multiset(Concat(xss))
  {
    if xss != [] {
      SortingConserves(xss[..|xss| - 1]);
      InsertAllSorts(xss[|xss| - 1]);
    }
  }
}
