/**
 * The order of pending transactions (crates/katana/pool/src/ordering.rs and tx.rs): an ordered set
 * whose comparison never answers `Equal`, kept as the sequence an in-order walk of it yields.
 */
module PoolOrder {
  import opened Sequences

  type Hash = nat

  /** A transaction, as far as the pool looks at it. */
  datatype Tx = Tx(hash: Hash, sender: nat, nonce: nat, tip: nat)

  datatype TxId = TxId(sender: nat, nonce: nat)

  datatype Priority = Submission(nonce: nat) | Tip(tip: nat)

  /** A pending transaction. The ticket is the identity of the shared `Arc`, which clones keep. */
  datatype PendingTx = PendingTx(ticket: nat, id: TxId, tx: Tx, priority: Priority)

  datatype Order = Less | Equal | Greater

  /** Where a priority stands: earlier submissions come first, and so do higher tips. A pool holds one kind. */
  function Rank(p: Priority): (k: int) {
    match p
    case Submission(n) => n
    case Tip(t) => 0 - t
  }

  /** `PendingTx::cmp`: the left one, if equal in priority, is the greater. */
  function Compare(x: PendingTx, y: PendingTx): (o: Order)
    ensures o != Equal
  {
    if Rank(x.priority) < Rank(y.priority) then Less else Greater
  }

  /** `x` goes no later than `y`. */
  predicate NotAfter(x: PendingTx, y: PendingTx) {
    Rank(x.priority) <= Rank(y.priority)
  }

  predicate Before(x: PendingTx, y: PendingTx) {
    Rank(x.priority) < Rank(y.priority)
  }

  predicate Sorted(xs: seq<PendingTx>) {
    forall i, j :: 0 <= i < j < |xs| ==> NotAfter(xs[i], xs[j])
  }

  /** `BTreeSet::insert`: go past every element the new one is greater than. */
  function Insert(x: PendingTx, xs: seq<PendingTx>): (r: seq<PendingTx>)
    ensures |r| == |xs| + 1
  {
    if xs == [] then [x]
    else
      match Compare(x, xs[0])
      case Less => [x] + xs
      case Equal => xs
      case Greater => [xs[0]] + Insert(x, xs[1..])
  }

  /** `BTreeSet::retain` with the transactions whose hash is not listed. */
  function Without(xs: seq<PendingTx>, hashes: seq<Hash>): (r: seq<PendingTx>)
    ensures forall x :: x in r <==> x in xs && x.tx.hash !in hashes
  {
    if xs == [] then []
    else if xs[0].tx.hash in hashes then Without(xs[1..], hashes)
    else [xs[0]] + Without(xs[1..], hashes)
  }

  // ----- insertion is stable and loses nothing -----

  /** How many elements the new one is greater than before it meets a smaller answer. */
  function Position(x: PendingTx, xs: seq<PendingTx>): (k: nat)
    ensures k <= |xs|
  {
    if xs == [] || Compare(x, xs[0]) == Less then 0 else 1 + Position(x, xs[1..])
  }

  lemma {:induction false} InsertAtPosition(x: PendingTx, xs: seq<PendingTx>)
    ensures Insert(x, xs) == xs[..Position(x, xs)] + [x] + xs[Position(x, xs)..]
  {
    if xs == [] || Compare(x, xs[0]) == Less {
      assert xs[..0] + [x] + xs[0..] == [x] + xs;
    } else {
      var rest := xs[1..];
      var j := Position(x, rest);
      InsertAtPosition(x, rest);
      assert xs[..1 + j] == [xs[0]] + rest[..j] && xs[1 + j..] == rest[j..];
    }
  }

  lemma {:induction false} PositionSplits(x: PendingTx, xs: seq<PendingTx>)
    requires Sorted(xs)
    ensures forall i :: 0 <= i < Position(x, xs) ==> NotAfter(xs[i], x)
    ensures forall i :: Position(x, xs) <= i < |xs| ==> Before(x, xs[i])
  {
    if xs != [] {
      PositionSplits(x, xs[1..]);
    }
  }

  /** A new transaction lands after everything that is not behind it in priority, ties included. */
  lemma InsertIsStable(x: PendingTx, xs: seq<PendingTx>) returns (k: nat)
    requires Sorted(xs)
    ensures k <= |xs| && Insert(x, xs) == xs[..k] + [x] + xs[k..]
    ensures forall i :: 0 <= i < k ==> NotAfter(xs[i], x)
    ensures forall i :: k <= i < |xs| ==> Before(x, xs[i])
    ensures Sorted(Insert(x, xs))
    ensures multiset(Insert(x, xs)) == multiset(xs) + multiset{x}
  {
    k := Position(x, xs);
    InsertAtPosition(x, xs);
    PositionSplits(x, xs);
    InsertedKeepsOrder(x, xs, k);
    assert xs[..k] + xs[k..] == xs;
  }

  lemma InsertedKeepsOrder(x: PendingTx, xs: seq<PendingTx>, k: nat)
    requires Sorted(xs) && k <= |xs|
    requires forall i :: 0 <= i < k ==> NotAfter(xs[i], x)
    requires forall i :: k <= i < |xs| ==> Before(x, xs[i])
    ensures Sorted(xs[..k] + [x] + xs[k..])
  {
  }

  lemma {:induction false} WithoutCounts(xs: seq<PendingTx>, hashes: seq<Hash>, x: PendingTx)
    ensures multiset(Without(xs, hashes))[x] == if x.tx.hash in hashes then 0 else multiset(xs)[x]
  {
    if xs != [] {
      assert xs == [xs[0]] + xs[1..];
      WithoutCounts(xs[1..], hashes, x);
    }
  }

  /** `r` is what stands at the ascending places `at` of `xs`. */
  ghost predicate Picks(r: seq<PendingTx>, xs: seq<PendingTx>, at: seq<nat>) {
    && |at| == |r|
    && (forall i :: 0 <= i < |at| ==> at[i] < |xs| && r[i] == xs[at[i]])
    && (forall i, j :: 0 <= i < j < |at| ==> at[i] < at[j])
  }

  lemma PicksLater(r: seq<PendingTx>, xs: seq<PendingTx>, at: seq<nat>, x: PendingTx) returns (later: seq<nat>)
    requires Picks(r, xs, at)
    ensures Picks(r, [x] + xs, later) && Picks([x] + r, [x] + xs, [0] + later)
  {
    later := seq(|at|, i requires 0 <= i < |at| => at[i] + 1);
  }

  /** Removal keeps the order: what is left stands at ascending places of what was there, ties included. */
  lemma {:induction false} WithoutKeepsOrder(xs: seq<PendingTx>, hashes: seq<Hash>) returns (at: seq<nat>)
    ensures Picks(Without(xs, hashes), xs, at)
  {
    at := [];
    if xs != [] {
      var later := WithoutKeepsOrder(xs[1..], hashes);
      at := PicksLater(Without(xs[1..], hashes), xs[1..], later, xs[0]);
      assert [xs[0]] + xs[1..] == xs;
      if xs[0].tx.hash !in hashes {
        at := [0] + at;
      }
    }
  }

  lemma WithoutSorted(xs: seq<PendingTx>, hashes: seq<Hash>)
    requires Sorted(xs)
    ensures Sorted(Without(xs, hashes))
  {
    var at := WithoutKeepsOrder(xs, hashes);
  }

  // ----- a batch put into an empty set comes out as its stable sort -----

  /** The set after inserting the transactions of `batch` in turn. */
  function InsertAll(batch: seq<PendingTx>, xs: seq<PendingTx>): (r: seq<PendingTx>)
    ensures |r| == |batch| + |xs|
  {
    if batch == [] then xs else InsertAll(batch[1..], Insert(batch[0], xs))
  }

  /** `xs` reordered by priority, ties staying in their order. */
  ghost predicate IsStableSort(xs: seq<PendingTx>, r: seq<PendingTx>) {
    Sorted(r) && forall k :: OfRank(r, k) == OfRank(xs, k)
  }

  /** The transactions of one priority, in order. */
  function OfRank(xs: seq<PendingTx>, k: int): (r: seq<PendingTx>) {
    if xs == [] then []
    else if Rank(xs[0].priority) == k then [xs[0]] + OfRank(xs[1..], k)
    else OfRank(xs[1..], k)
  }

  lemma {:induction false} OfRankEmpty(xs: seq<PendingTx>, k: int)
    ensures OfRank(xs, k) == [] <==> forall x <- xs :: Rank(x.priority) != k
  {
    if xs != [] {
      OfRankEmpty(xs[1..], k);
      assert xs == [xs[0]] + xs[1..];
    }
  }

  lemma {:induction false} OfRankAppend(xs: seq<PendingTx>, ys: seq<PendingTx>, k: int)
    ensures OfRank(xs + ys, k) == OfRank(xs, k) + OfRank(ys, k)
  {
    if xs == [] {
      assert xs + ys == ys;
    } else {
      assert (xs + ys)[1..] == xs[1..] + ys;
      OfRankAppend(xs[1..], ys, k);
    }
  }

  lemma OfRankInsert(x: PendingTx, xs: seq<PendingTx>, k: int)
    requires Sorted(xs)
    ensures OfRank(Insert(x, xs), k) == OfRank(xs, k) + OfRank([x], k)
  {
    var j := InsertIsStable(x, xs);
    OfRankBetween(xs[..j], x, xs[j..], k);
    assert xs[..j] + xs[j..] == xs;
  }

  lemma OfRankBetween(front: seq<PendingTx>, x: PendingTx, back: seq<PendingTx>, k: int)
    requires forall y <- back :: Before(x, y)
    ensures OfRank(front + [x] + back, k) == OfRank(front + back, k) + OfRank([x], k)
  {
    OfRankAppend(front, [x], k);
    OfRankAppend(front + [x], back, k);
    OfRankAppend(front, back, k);
    if Rank(x.priority) == k {
      OfRankEmpty(back, k);
    } else {
      OfRankEmpty([x], k);
    }
  }

  lemma {:induction false} InsertAllFrom(batch: seq<PendingTx>, xs: seq<PendingTx>)
    requires Sorted(xs)
    ensures Sorted(InsertAll(batch, xs))
    ensures multiset(InsertAll(batch, xs)) == multiset(batch) + multiset(xs)
  {
    if batch != [] {
      assert batch == [batch[0]] + batch[1..];
      var _ := InsertIsStable(batch[0], xs);
      InsertAllFrom(batch[1..], Insert(batch[0], xs));
    }
  }

  lemma OfRankHead(xs: seq<PendingTx>, k: int)
    requires xs != []
    ensures OfRank(xs, k) == OfRank([xs[0]], k) + OfRank(xs[1..], k)
  {
    OfRankAppend([xs[0]], xs[1..], k);
    assert [xs[0]] + xs[1..] == xs;
  }

  lemma {:induction false} OfRankInsertAll(batch: seq<PendingTx>, xs: seq<PendingTx>, k: int)
    requires Sorted(xs)
    ensures OfRank(InsertAll(batch, xs), k) == OfRank(xs, k) + OfRank(batch, k)
  {
    if batch == [] {
      assert OfRank(xs, k) + [] == OfRank(xs, k);
    } else {
      var x, rest := batch[0], batch[1..];
      var _ := InsertIsStable(x, xs);
      OfRankInsertAll(rest, Insert(x, xs), k);
      OfRankInsert(x, xs, k);
      OfRankHead(batch, k);
      Associate(OfRank(xs, k), OfRank([x], k), OfRank(rest, k));
    }
  }

  /** Draining a channel into an empty set sorts the batch stably. */
  lemma InsertAllSorts(batch: seq<PendingTx>)
    ensures IsStableSort(batch, InsertAll(batch, []))
    ensures multiset(InsertAll(batch, [])) == multiset(batch)
  {
    InsertAllFrom(batch, []);
    forall k ensures OfRank(InsertAll(batch, []), k) == OfRank(batch, k) {
      OfRankInsertAll(batch, [], k);
      assert [] + OfRank(batch, k) == OfRank(batch, k);
    }
  }

  /** There is only one stable sort. */
  lemma StableSortUnique(xs: seq<PendingTx>, r: seq<PendingTx>, q: seq<PendingTx>)
    requires IsStableSort(xs, r) && IsStableSort(xs, q)
    ensures r == q
  {
    SameClasses(r, q);
  }

  lemma {:induction false} SameClasses(r: seq<PendingTx>, q: seq<PendingTx>)
    requires Sorted(r) && Sorted(q) && forall k :: OfRank(r, k) == OfRank(q, k)
    ensures r == q
  {
    if r == [] || q == [] {
      NoClasses(r, q);
    } else {
      SameHead(r, q);
      forall k ensures OfRank(r[1..], k) == OfRank(q[1..], k) {
        OfRankHead(r, k);
        OfRankHead(q, k);
        SameTail(OfRank([r[0]], k), OfRank(r[1..], k), OfRank(q[1..], k));
      }
      SameClasses(r[1..], q[1..]);
    }
  }

  lemma NoClasses(r: seq<PendingTx>, q: seq<PendingTx>)
    requires (r == [] || q == []) && forall k :: OfRank(r, k) == OfRank(q, k)
    ensures r == q
  {
    if r != [] {
      OfRankEmpty(r, Rank(r[0].priority));
    }
    if q != [] {
      OfRankEmpty(q, Rank(q[0].priority));
    }
  }

  lemma SameHead(r: seq<PendingTx>, q: seq<PendingTx>)
    requires Sorted(r) && Sorted(q) && r != [] && q != [] && forall k :: OfRank(r, k) == OfRank(q, k)
    ensures r[0] == q[0]
  {
    var k, l := Rank(r[0].priority), Rank(q[0].priority);
    OfRankEmpty(q, k);
    OfRankEmpty(r, k);
    OfRankEmpty(r, l);
    OfRankEmpty(q, l);
    assert k == l;
    assert OfRank(r, k)[0] == r[0] && OfRank(q, k)[0] == q[0];
  }

  lemma SameTail<T>(xs: seq<T>, ys: seq<T>, zs: seq<T>)
    requires xs + ys == xs + zs
    ensures ys == zs
  {
    assert ys == (xs + ys)[|xs|..] && zs == (xs + zs)[|xs|..];
  }

  /** Later submissions are simply appended. */
  lemma {:induction false} InsertLast(x: PendingTx, xs: seq<PendingTx>)
    requires forall y <- xs :: NotAfter(y, x)
    ensures Insert(x, xs) == xs + [x]
  {
    if xs == [] {
      assert xs + [x] == [x];
    } else {
      assert NotAfter(xs[0], x);
      InsertLast(x, xs[1..]);
      assert [xs[0]] + (xs[1..] + [x]) == xs + [x];
    }
  }

  // ----- what the two orders mean -----

  ghost predicate ByTip(xs: seq<PendingTx>) {
    forall x <- xs :: x.priority.Tip?
  }

  ghost predicate BySubmission(xs: seq<PendingTx>) {
    forall x <- xs :: x.priority.Submission?
  }

  /** Higher tips come out first, and equal tips in the order they came in. */
  lemma TipsDescend(batch: seq<PendingTx>, i: nat, j: nat)
    requires ByTip(batch) && i < j < |batch|
    ensures var r := InsertAll(batch, []);
            && r[i].priority.Tip? && r[j].priority.Tip? && r[i].priority.tip >= r[j].priority.tip
            && OfRank(r, Rank(r[i].priority)) == OfRank(batch, Rank(r[i].priority))
  {
    var r := InsertAll(batch, []);
    InsertAllSorts(batch);
    assert r[i] in multiset(r) && r[j] in multiset(r);
    assert NotAfter(r[i], r[j]);
  }

  /** Earlier submissions come out first. */
  lemma SubmissionsAscend(batch: seq<PendingTx>, i: nat, j: nat)
    requires BySubmission(batch) && i < j < |batch|
    ensures var r := InsertAll(batch, []);
            r[i].priority.Submission? && r[j].priority.Submission? && r[i].priority.nonce <= r[j].priority.nonce
  {
    var r := InsertAll(batch, []);
    InsertAllSorts(batch);
    assert r[i] in multiset(r) && r[j] in multiset(r);
    assert NotAfter(r[i], r[j]);
  }
}
