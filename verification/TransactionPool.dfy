/** The shared transaction pool (crates/katana/pool/src/pool.rs). */
module TransactionPool {
  import opened Wrappers
  import opened Sequences
  import opened PoolOrder
  import opened PoolStreams

  /** How priorities are given out: a submission counter, or the tip of the transaction. */
  datatype Ordering = FiFo(next: nat) | ByTip

  function PriorityOf(o: Ordering, tx: Tx): (p: Priority) {
    if o.FiFo? then Submission(o.next) else Tip(tx.tip)
  }

  function Advance(o: Ordering): (r: Ordering) {
    if o.FiFo? then FiFo(o.next + 1) else ByTip
  }

  /** What the validator answers. */
  datatype Verdict =
    | Valid(tx: Tx)
    | Invalid(error: InvalidTransactionError)
    | Dependent(tx: Tx, txNonce: nat, currentNonce: nat)
    | Failed(failure: string)

  /** A nonce that is not the account's, or another reason to reject the transaction. */
  datatype InvalidTransactionError =
    | InvalidNonce(address: nat, currentNonce: nat, txNonce: nat)
    | Rejected(reason: string)

  datatype PoolError =
    | InvalidTransaction(error: InvalidTransactionError)
    | Internal(failure: string)

  /** `x` joins `before`: behind all that do not go after it, before all that do. */
  ghost predicate Joins(x: PendingTx, before: seq<PendingTx>, after: seq<PendingTx>) {
    exists k: nat :: k <= |before| && JoinsAt(x, before, k, after)
  }

  ghost predicate JoinsAt(x: PendingTx, before: seq<PendingTx>, k: nat, after: seq<PendingTx>)
    requires k <= |before|
  {
    && after == before[..k] + [x] + before[k..]
    && (forall i :: 0 <= i < k ==> NotAfter(before[i], x))
    && (forall i :: k <= i < |before| ==> Before(x, before[i]))
  }

  lemma InsertJoins(x: PendingTx, xs: seq<PendingTx>)
    requires Sorted(xs)
    ensures Joins(x, xs, Insert(x, xs))
  {
    var k := InsertIsStable(x, xs);
    assert JoinsAt(x, xs, k, Insert(x, xs));
  }

  datatype Delivery = Delivered | Full | Disconnected

  /** A bounded channel of hashes and its receiver. */
  class Listener {
    var queue: seq<Hash>
    var receiverAlive: bool
    const capacity: nat

    constructor (capacity: nat)
      ensures queue == [] && receiverAlive && this.capacity == capacity
    {
      queue, receiverAlive, this.capacity := [], true, capacity;
    }

    method TrySend(hash: Hash) returns (r: Delivery)
      modifies this
      ensures r == (if !old(receiverAlive) then Disconnected else if |old(queue)| >= capacity then Full else Delivered)
      ensures queue == old(queue) + (if r.Delivered? then [hash] else [])
      ensures receiverAlive == old(receiverAlive)
    {
      if !receiverAlive {
        return Disconnected;
      }
      if |queue| >= capacity {
        return Full;
      }
      queue := queue + [hash];
      return Delivered;
    }
  }

  /** `Vec::swap_remove`: the last element takes the place of the removed one. */
  function SwapRemove<T>(xs: seq<T>, n: nat): (r: seq<T>)
    requires n < |xs|
  {
    if n == |xs| - 1 then xs[..n] else xs[..n] + [xs[|xs| - 1]] + xs[n + 1..|xs| - 1]
  }

  /** The senders still connected, in order. */
  function Connected<T(==)>(xs: seq<T>, open: set<T>): (r: seq<T>) {
    if xs == [] then []
    else if xs[0] in open then [xs[0]] + Connected(xs[1..], open)
    else Connected(xs[1..], open)
  }

  /** One round of the loop: take the sender at `n` out, try it, put it back at the end if it is connected. */
  function Round<T(==)>(ys: seq<T>, open: set<T>, n: nat): (r: seq<T>)
    requires n < |ys|
    ensures |r| >= n
  {
    if ys[n] in open then SwapRemove(ys, n) + [ys[n]] else SwapRemove(ys, n)
  }

  /** The vector once the loop has gone down to index `n`. */
  function Sweep<T(==)>(xs: seq<T>, open: set<T>, n: nat): (r: seq<T>)
    requires n <= |xs|
    ensures |r| >= n
    decreases |xs| - n
  {
    if n == |xs| then xs else Round(Sweep(xs, open, n + 1), open, n)
  }

  /** The senders tried by then, in order. */
  function Tried<T(==)>(xs: seq<T>, open: set<T>, n: nat): (r: seq<T>)
    requires n <= |xs|
    decreases |xs| - n
  {
    if n == |xs| then [] else Tried(xs, open, n + 1) + [Sweep(xs, open, n + 1)[n]]
  }

  /** Below `n` the vector is untouched; above it are exactly the connected senders. */
  lemma {:induction false} SweepRetains<T>(xs: seq<T>, open: set<T>, n: nat)
    requires n <= |xs|
    ensures Sweep(xs, open, n)[..n] == xs[..n]
    ensures multiset(Sweep(xs, open, n)[n..]) == multiset(Connected(xs[n..], open))
    decreases |xs| - n
  {
    if n == |xs| {
      assert xs[n..] == [];
    } else {
      SweepRetains(xs, open, n + 1);
      RoundRetains(xs, open, n, Sweep(xs, open, n + 1));
    }
  }

  lemma RoundRetains<T>(xs: seq<T>, open: set<T>, n: nat, ys: seq<T>)
    requires n < |xs| && n < |ys| && ys[..n + 1] == xs[..n + 1]
    requires multiset(ys[n + 1..]) == multiset(Connected(xs[n + 1..], open))
    ensures Round(ys, open, n)[..n] == xs[..n]
    ensures multiset(Round(ys, open, n)[n..]) == multiset(Connected(xs[n..], open))
  {
    var x, rest := ys[n], SwapRemove(ys, n);
    SwapRemoveParts(ys, n);
    assert x == ys[..n + 1][n] == xs[n];
    assert ys[..n] == ys[..n + 1][..n] == xs[..n];
    assert xs[n..][1..] == xs[n + 1..];
    assert (rest + [x])[..n] == rest[..n] && (rest + [x])[n..] == rest[n..] + [x];
  }

  lemma NextTried<T>(xs: seq<T>, open: set<T>, n: nat)
    requires n < |xs|
    ensures Sweep(xs, open, n + 1)[n] == xs[n]
  {
    var ys := Sweep(xs, open, n + 1);
    SweepRetains(xs, open, n + 1);
    assert ys[n] == ys[..n + 1][n] && xs[n] == xs[..n + 1][n];
  }

  /** Every sender is tried exactly once, the last first. */
  lemma {:induction false} TriesEachOnce<T>(xs: seq<T>, open: set<T>, n: nat)
    requires n <= |xs|
    ensures Tried(xs, open, n) == Reverse(xs[n..])
    decreases |xs| - n
  {
    if n < |xs| {
      TriesEachOnce(xs, open, n + 1);
      NextTried(xs, open, n);
      assert xs[n..][1..] == xs[n + 1..];
    }
  }

  lemma SwapRemoveParts<T>(ys: seq<T>, n: nat)
    requires n < |ys|
    ensures |SwapRemove(ys, n)| == |ys| - 1
    ensures SwapRemove(ys, n)[..n] == ys[..n]
    ensures multiset(SwapRemove(ys, n)[n..]) == multiset(ys[n + 1..])
  {
    var rest := SwapRemove(ys, n);
    if n < |ys| - 1 {
      var last := ys[|ys| - 1];
      assert rest[n..] == [last] + ys[n + 1..|ys| - 1];
      assert ys[n + 1..] == ys[n + 1..|ys| - 1] + [last];
    } else {
      assert rest[n..] == [] && ys[n + 1..] == [];
    }
  }

  ghost predicate Distinct<T>(xs: seq<T>) {
    forall i, j :: 0 <= i < j < |xs| ==> xs[i] != xs[j]
  }

  ghost function Elements<T>(xs: seq<T>): (r: set<T>) {
    set x | x in xs
  }

  lemma NextElement<T>(xs: seq<T>, n: nat)
    requires Distinct(xs) && n < |xs|
    ensures xs[n] !in Elements(xs[n + 1..]) && Elements(xs[n..]) == Elements(xs[n + 1..]) + {xs[n]}
  {
    assert xs[n..] == [xs[n]] + xs[n + 1..];
  }

  lemma SweepKeepsDistinct<T>(xs: seq<T>, open: set<T>)
    requires Distinct(xs)
    ensures multiset(Sweep(xs, open, 0)) == multiset(Connected(xs, open))
    ensures Distinct(Sweep(xs, open, 0))
  {
    var r := Sweep(xs, open, 0);
    SweepRetains(xs, open, 0);
    assert r[0..] == r && xs[0..] == xs;
    DistinctCounts(xs);
    forall x ensures multiset(Connected(xs, open))[x] <= 1 {
      ConnectedCounts(xs, open, x);
    }
    CountsDistinct(r);
  }

  lemma {:induction false} ConnectedCounts<T>(xs: seq<T>, open: set<T>, x: T)
    ensures multiset(Connected(xs, open))[x] == if x in open then multiset(xs)[x] else 0
  {
    if xs != [] {
      assert xs == [xs[0]] + xs[1..];
      ConnectedCounts(xs[1..], open, x);
    }
  }

  lemma {:induction false} DistinctCounts<T>(xs: seq<T>)
    requires Distinct(xs)
    ensures forall x :: multiset(xs)[x] <= 1
  {
    if xs != [] {
      assert xs == [xs[0]] + xs[1..];
      DistinctCounts(xs[1..]);
      assert xs[0] !in xs[1..];
    }
  }

  lemma CountsDistinct<T>(xs: seq<T>)
    requires forall x :: multiset(xs)[x] <= 1
    ensures Distinct(xs)
  {
    forall i, j | 0 <= i < j < |xs| ensures xs[i] != xs[j] {
      assert xs == xs[..j] + xs[j..];
      assert xs[i] in xs[..j] && xs[j] in xs[j..];
      assert multiset(xs)[xs[i]] == multiset(xs[..j])[xs[i]] + multiset(xs[j..])[xs[i]];
    }
  }

  /** Takes the listener at `n` out, sends it the hash, and puts it back unless its receiver is gone. */
  method OfferHash(senders: seq<Listener>, n: nat, hash: Hash, ghost open: set<Listener>) returns (r: seq<Listener>)
    requires n < |senders| && (senders[n] in open <==> senders[n].receiverAlive)
    modifies senders[n]
    ensures r == Round(senders, open, n)
    ensures var l := senders[n];
            && l.receiverAlive == old(l.receiverAlive)
            && l.queue == old(l.queue) + (if old(l.receiverAlive && |l.queue| < l.capacity) then [hash] else [])
  {
    var sender := senders[n];
    r := SwapRemove(senders, n);
    var answer := sender.TrySend(hash);
    if !answer.Disconnected? {
      r := r + [sender];
    }
  }

  /** Takes the subscriber at `n` out, sends it the transaction, and puts it back if that worked. */
  method OfferTx(senders: seq<Channel>, n: nat, tx: PendingTx, ghost open: set<Channel>) returns (r: seq<Channel>)
    requires n < |senders| && (senders[n] in open <==> senders[n].receiverAlive)
    modifies senders[n]
    ensures r == Round(senders, open, n)
    ensures var c := senders[n];
            && c.receiverAlive == old(c.receiverAlive) && c.senderAlive == old(c.senderAlive)
            && c.queue == old(c.queue) + (if old(c.receiverAlive) then [tx] else [])
  {
    var sender := senders[n];
    r := SwapRemove(senders, n);
    var ok := sender.Send(tx);
    if ok {
      r := r + [sender];
    }
  }

  /** The loop from the last listener down to the first. */
  method OfferHashToAll(all: seq<Listener>, hash: Hash, ghost open: set<Listener>) returns (senders: seq<Listener>)
    requires Distinct(all) && forall l <- all :: l in open <==> l.receiverAlive
    modifies all
    ensures senders == Sweep(all, open, 0)
    ensures forall l <- all ::
              l.queue == old(l.queue) + (if old(l.receiverAlive && |l.queue| < l.capacity) then [hash] else [])
    ensures forall l <- all :: l.receiverAlive == old(l.receiverAlive)
  {
    senders := all;
    ghost var tried: set<Listener> := {};
    var n: nat := |senders|;
    while n > 0
      invariant n <= |all| && senders == Sweep(all, open, n) && tried == Elements(all[n..])
      invariant forall l <- all :: l.receiverAlive == old(l.receiverAlive)
      invariant forall l <- all ::
                  l.queue == old(l.queue) +
                  (if l in tried && old(l.receiverAlive && |l.queue| < l.capacity) then [hash] else [])
    {
      n := n - 1;
      NextTried(all, open, n);
      NextElement(all, n);
      tried := tried + {all[n]};
      senders := OfferHash(senders, n, hash, open);
    }
    assert all[0..] == all;
  }

  /** The loop from the last subscriber down to the first. */
  method OfferTxToAll(all: seq<Channel>, tx: PendingTx, ghost open: set<Channel>) returns (senders: seq<Channel>)
    requires Distinct(all) && forall c <- all :: c in open <==> c.receiverAlive
    modifies all
    ensures senders == Sweep(all, open, 0)
    ensures forall c <- all :: c.queue == old(c.queue) + (if old(c.receiverAlive) then [tx] else [])
    ensures forall c <- all :: c.receiverAlive == old(c.receiverAlive) && c.senderAlive == old(c.senderAlive)
  {
    senders := all;
    ghost var tried: set<Channel> := {};
    var n: nat := |senders|;
    while n > 0
      invariant n <= |all| && senders == Sweep(all, open, n) && tried == Elements(all[n..])
      invariant forall c <- all :: c.receiverAlive == old(c.receiverAlive) && c.senderAlive == old(c.senderAlive)
      invariant forall c <- all :: c.queue == old(c.queue) + (if c in tried && old(c.receiverAlive) then [tx] else [])
    {
      n := n - 1;
      NextTried(all, open, n);
      NextElement(all, n);
      tried := tried + {all[n]};
      senders := OfferTx(senders, n, tx, open);
    }
    assert all[0..] == all;
  }

  class Pool {
    var transactions: seq<PendingTx>
    var listeners: seq<Listener>
    var subscribers: seq<Channel>
    var ordering: Ordering
    /** Tickets given out so far. */
    var tickets: nat

    /** The set is in order, and every subscription and listener has its own channel. */
    ghost predicate Valid()
      reads this
    {
      Sorted(transactions) && Distinct(listeners) && Distinct(subscribers)
    }

    constructor (ordering: Ordering)
      ensures Valid() && transactions == [] && listeners == [] && subscribers == []
      ensures this.ordering == ordering && tickets == 0
    {
      transactions, listeners, subscribers := [], [], [];
      this.ordering, tickets := ordering, 0;
    }

    ghost function OpenListeners(): set<Listener>
      reads this`listeners, listeners
    {
      set l | l in listeners && l.receiverAlive
    }

    ghost function OpenSubscribers(): set<Channel>
      reads this`subscribers, subscribers
    {
      set c | c in subscribers && c.receiverAlive
    }

    method NotifyListener(hash: Hash)
      requires Valid()
      modifies this`listeners, listeners
      ensures Valid() && unchanged(this`transactions, this`subscribers, this`ordering, this`tickets)
      ensures unchanged(subscribers) && OpenSubscribers() == old(OpenSubscribers())
      ensures listeners == Sweep(old(listeners), old(OpenListeners()), 0)
      ensures forall l <- old(listeners) ::
                l.queue == old(l.queue) + (if old(l.receiverAlive && |l.queue| < l.capacity) then [hash] else [])
      ensures forall l <- old(listeners) :: l.receiverAlive == old(l.receiverAlive)
    {
      SweepKeepsDistinct(listeners, OpenListeners());
      listeners := OfferHashToAll(listeners, hash, OpenListeners());
    }

    method NotifySubscribers(tx: PendingTx)
      requires Valid()
      modifies this`subscribers, subscribers
      ensures Valid() && unchanged(this`transactions, this`listeners, this`ordering, this`tickets)
      ensures forall l: Listener :: old(allocated(l)) ==> l.queue == old(l.queue)
      ensures subscribers == Sweep(old(subscribers), old(OpenSubscribers()), 0)
      ensures forall c <- old(subscribers) :: c.queue == old(c.queue) + (if old(c.receiverAlive) then [tx] else [])
      ensures forall c <- old(subscribers) ::
                c.receiverAlive == old(c.receiverAlive) && c.senderAlive == old(c.senderAlive)
    {
      SweepKeepsDistinct(subscribers, OpenSubscribers());
      subscribers := OfferTxToAll(subscribers, tx, OpenSubscribers());
    }

    /** Inserts the transaction, then tells the listeners, then the subscribers. */
    method Publish(p: PendingTx)
      requires Valid()
      modifies this`transactions, this`listeners, this`subscribers, listeners, subscribers
      ensures Valid()
      ensures transactions == Insert(p, old(transactions))
      ensures subscribers == Sweep(old(subscribers), old(OpenSubscribers()), 0)
      ensures listeners == Sweep(old(listeners), old(OpenListeners()), 0)
      ensures forall c <- old(subscribers) :: c.queue == old(c.queue) + (if old(c.receiverAlive) then [p] else [])
      ensures forall l <- old(listeners) ::
                l.queue == old(l.queue) + (if old(l.receiverAlive && |l.queue| < l.capacity) then [p.tx.hash] else [])
    {
      ghost var _ := InsertIsStable(p, transactions);
      transactions := Insert(p, transactions);
      NotifyListener(p.tx.hash);
      NotifySubscribers(p);
    }

    /**
     * `add_transaction`, given what the validator answered. Only a valid transaction changes anything: it gets the
     * next submission number, or its tip, as its priority, and stands behind all that do not go after it.
     */
    method AddTransaction(tx: Tx, verdict: Verdict) returns (r: Outcome<Hash, PoolError>)
      requires Valid()
      modifies this, listeners, subscribers
      ensures Valid()
      ensures verdict.Valid? ==>
                var priority := if old(ordering).FiFo? then Submission(old(ordering).next) else Tip(verdict.tx.tip);
                var p := PendingTx(old(tickets), TxId(tx.sender, tx.nonce), verdict.tx, priority);
                && r == Ok(tx.hash)
                && Joins(p, old(transactions), transactions)
                && tickets == old(tickets) + 1
                && (old(ordering).FiFo? ==> ordering == FiFo(old(ordering).next + 1))
                && (old(ordering).ByTip? ==> ordering == ByTip)
                && subscribers == Sweep(old(subscribers), old(OpenSubscribers()), 0)
                && listeners == Sweep(old(listeners), old(OpenListeners()), 0)
                && (forall c <- old(subscribers) ::
                      c.queue == old(c.queue) + (if old(c.receiverAlive) then [p] else []))
                && (forall l <- old(listeners) ::
                      l.queue == old(l.queue) +
                      (if old(l.receiverAlive && |l.queue| < l.capacity) then [verdict.tx.hash] else []))
      ensures !verdict.Valid? ==> unchanged(this) && unchanged(listeners) && unchanged(subscribers)
      ensures verdict.Invalid? ==> r == Err(InvalidTransaction(verdict.error))
      ensures verdict.Dependent? ==>
                r == Err(InvalidTransaction(InvalidNonce(verdict.tx.sender, verdict.currentNonce, verdict.txNonce)))
      ensures verdict.Failed? ==> r == Err(Internal(verdict.failure))
    {
      match verdict
      case Valid(valid) =>
        var p := PendingTx(tickets, TxId(tx.sender, tx.nonce), valid, PriorityOf(ordering, valid));
        InsertJoins(p, transactions);
        tickets, ordering := tickets + 1, Advance(ordering);
        Publish(p);
        r := Ok(tx.hash);
      case Invalid(error) => r := Err(InvalidTransaction(error));
      case Dependent(dependent, txNonce, currentNonce) =>
        r := Err(InvalidTransaction(InvalidNonce(dependent.sender, currentNonce, txNonce)));
      case Failed(failure) => r := Err(Internal(failure));
    }

    method Subscribe() returns (s: Subscription)
      requires Valid()
      modifies this`subscribers
      ensures Valid() && fresh(s) && fresh(s.receiver)
      ensures subscribers == old(subscribers) + [s.receiver]
      ensures s.txs == [] && s.receiver.queue == [] && s.receiver.receiverAlive && s.receiver.senderAlive
    {
      var channel := new Channel();
      s := new Subscription(channel);
      subscribers := subscribers + [channel];
    }

    /** Subscribes first and takes the snapshot second. */
    method PendingTransactions() returns (s: PoolStreams.PendingTransactions)
      requires Valid()
      modifies this`subscribers
      ensures Valid() && fresh(s) && fresh(s.subscription) && fresh(s.subscription.receiver)
      ensures s.all == transactions && Sorted(s.all)
      ensures subscribers == old(subscribers) + [s.subscription.receiver]
      ensures s.subscription.txs == [] && s.subscription.receiver.queue == [] && s.subscription.receiver.receiverAlive
    {
      var subscription := Subscribe();
      s := new PoolStreams.PendingTransactions(transactions, subscription);
    }

    /** The first transaction, in order, with that hash. */
    method Get(hash: Hash) returns (r: Option<Tx>)
      ensures r.None? <==> forall p <- transactions :: p.tx.hash != hash
      ensures r.Some? ==> exists i ::
                && 0 <= i < |transactions| && transactions[i].tx == r.value && r.value.hash == hash
                && forall j :: 0 <= j < i ==> transactions[j].tx.hash != hash
    {
      for i := 0 to |transactions|
        invariant forall j :: 0 <= j < i ==> transactions[j].tx.hash != hash
      {
        if transactions[i].tx.hash == hash {
          return Some(transactions[i].tx);
        }
      }
      return None;
    }

    method Contains(hash: Hash) returns (r: bool)
      ensures r <==> exists p <- transactions :: p.tx.hash == hash
    {
      var found := Get(hash);
      r := found.Some?;
    }

    method AddListener() returns (l: Listener)
      requires Valid()
      modifies this`listeners
      ensures Valid() && fresh(l) && listeners == old(listeners) + [l]
      ensures l.queue == [] && l.receiverAlive && l.capacity == 2048
    {
      l := new Listener(2048);
      listeners := listeners + [l];
    }

    method RemoveTransactions(hashes: seq<Hash>)
      requires Valid()
      modifies this`transactions
      ensures Valid()
      ensures forall p :: multiset(transactions)[p] ==
                (if p.tx.hash in hashes then 0 else multiset(old(transactions))[p])
      ensures exists at :: Picks(transactions, old(transactions), at)
    {
      WithoutSorted(transactions, hashes);
      ghost var at := WithoutKeepsOrder(transactions, hashes);
      forall p ensures multiset(Without(transactions, hashes))[p] ==
                 (if p.tx.hash in hashes then 0 else multiset(transactions)[p]) {
        WithoutCounts(transactions, hashes, p);
      }
      transactions := Without(transactions, hashes);
    }

    method Size() returns (n: nat)
      ensures n == |transactions|
    {
      n := |transactions|;
    }
  }
}