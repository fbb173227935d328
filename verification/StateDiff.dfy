/** The list of felts hashed into a state-diff commitment (crates/katana/primitives/src/state.rs). */
module StateDiff {
  import opened Wrappers
  import opened Felts
  import ShortStrings

  const USIZE_LIMIT: nat := 0x1_0000_0000_0000_0000

  type Pair = (Felt, Felt)

  /** A sorted map lists its entries by increasing key. */
  datatype StateUpdates = StateUpdates(
    nonces: seq<Pair>,
    storage: seq<(Felt, seq<Pair>)>,
    deployed: seq<Pair>,
    declared: seq<Pair>,
    deprecated: seq<Felt>,
    replaced: seq<Pair>)

  predicate Ascending(pairs: seq<Pair>) {
    forall i, j :: 0 <= i < j < |pairs| ==> pairs[i].0 < pairs[j].0
  }

  predicate Sized<T>(s: seq<T>) {
    |s| < USIZE_LIMIT
  }

  /** The lists come from sorted maps whose sizes are machine integers. */
  predicate WellFormed(u: StateUpdates) {
    && Ascending(u.nonces) && Ascending(u.deployed) && Ascending(u.declared) && Ascending(u.replaced)
    && (forall i, j :: 0 <= i < j < |u.deprecated| ==> u.deprecated[i] < u.deprecated[j])
    && (forall i, j :: 0 <= i < j < |u.storage| ==> u.storage[i].0 < u.storage[j].0)
    && (forall i :: 0 <= i < |u.storage| ==> Ascending(u.storage[i].1) && Sized(u.storage[i].1))
    && Sized(u.nonces) && Sized(u.storage) && Sized(u.deployed + u.replaced) && Sized(u.declared) && Sized(u.deprecated)
  }

  /** The short string STARKNET_STATE_DIFF0. */
  const MAGIC: Felt := 0x535441524b4e45545f53544154455f4449464630

  /** The pairs one after the other, chained with `tail`. */
  function ChainPairs(pairs: seq<Pair>, tail: seq<Felt>): (r: seq<Felt>)
    ensures |r| == 2 * |pairs| + |tail|
  {
    if pairs == [] then tail else [pairs[0].0, pairs[0].1] + ChainPairs(pairs[1..], tail)
  }

  function ChainStorage(storage: seq<(Felt, seq<Pair>)>, tail: seq<Felt>): (r: seq<Felt>)
    requires forall i :: 0 <= i < |storage| ==> Sized(storage[i].1)
  {
    if storage == [] then tail
    else
      assert Sized(storage[0].1);
      [storage[0].0, |storage[0].1|] + ChainPairs(storage[0].1, ChainStorage(storage[1..], tail))
  }

  /** The elements hashed by `compute_state_diff_hash`, chained with `tail`. */
  function ChainUpdates(u: StateUpdates, tail: seq<Felt>): (r: seq<Felt>)
    requires WellFormed(u)
  {
    [MAGIC] + Counted(u.deployed + u.replaced, Counted(u.declared, ChainRest(u, tail)))
  }

  function ChainRest(u: StateUpdates, tail: seq<Felt>): (r: seq<Felt>)
    requires WellFormed(u)
  {
    var storage := [|u.storage|] + ChainStorage(u.storage, Counted(u.nonces, tail));
    [|u.deprecated|] + (u.deprecated + ([1, 0] + storage))
  }

  function Counted(pairs: seq<Pair>, tail: seq<Felt>): (r: seq<Felt>)
    requires Sized(pairs)
    ensures |r| == 1 + 2 * |pairs| + |tail|
  {
    [|pairs|] + ChainPairs(pairs, tail)
  }

  function Preimage(u: StateUpdates): (r: seq<Felt>)
    requires WellFormed(u)
  {
    ChainUpdates(u, [])
  }

  // ----- where everything stands -----

  /** The constant is the short string the specification of the commitment asks for. */
  lemma MagicSpelled()
    ensures ShortStrings.ToFelt("STARKNET_STATE_DIFF0") == MAGIC
  {
    var words: seq<nat> := [
      0x53, 0x5354, 0x535441, 0x53544152, 0x535441524b, 0x535441524b4e, 0x535441524b4e45, 0x535441524b4e4554,
      0x535441524b4e45545f, 0x535441524b4e45545f53, 0x535441524b4e45545f5354, 0x535441524b4e45545f535441,
      0x535441524b4e45545f53544154, 0x535441524b4e45545f5354415445, 0x535441524b4e45545f53544154455f,
      0x535441524b4e45545f53544154455f44, 0x535441524b4e45545f53544154455f4449,
      0x535441524b4e45545f53544154455f444946, 0x535441524b4e45545f53544154455f44494646,
      0x535441524b4e45545f53544154455f4449464630];
    ShortStrings.Spelled("STARKNET_STATE_DIFF0", words);
  }

  /** The pairs, flattened. */
  function Flat(pairs: seq<Pair>): (r: seq<Felt>) {
    if pairs == [] then [] else [pairs[0].0, pairs[0].1] + Flat(pairs[1..])
  }

  /** Each contract of the storage: its address, the number of its entries, and the entries. */
  function FlatStorage(storage: seq<(Felt, seq<Pair>)>): (r: seq<Felt>)
    requires AllSized(storage)
  {
    if storage == [] then []
    else
      assert Sized(storage[0].1);
      Contract(storage[0]) + FlatStorage(storage[1..])
  }

  function Contract(contract: (Felt, seq<Pair>)): (r: seq<Felt>)
    requires Sized(contract.1)
  {
    [contract.0, |contract.1|] + Flat(contract.1)
  }

  predicate AllSized(storage: seq<(Felt, seq<Pair>)>) {
    forall i :: 0 <= i < |storage| ==> Sized(storage[i].1)
  }

  ghost predicate PairAt(felts: seq<Felt>, at: nat, pair: Pair) {
    at + 2 <= |felts| && felts[at] == pair.0 && felts[at + 1] == pair.1
  }

  /** How many felts the first `k` contracts of the storage take. */
  ghost function StorageSize(storage: seq<(Felt, seq<Pair>)>, k: nat): (n: nat)
    requires k <= |storage|
  {
    if k == 0 then 0 else StorageSize(storage, k - 1) + 2 + 2 * |storage[k - 1].1|
  }

  lemma {:induction false} FlatPlace(pairs: seq<Pair>, i: nat)
    requires i < |pairs|
    ensures PairAt(Flat(pairs), 2 * i, pairs[i])
  {
    if i > 0 {
      FlatPlace(pairs[1..], i - 1);
    }
  }

  lemma {:induction false} FlatSize(pairs: seq<Pair>)
    ensures |Flat(pairs)| == 2 * |pairs|
  {
    if pairs != [] {
      FlatSize(pairs[1..]);
    }
  }

  lemma {:induction false} FlatJoin(a: seq<Pair>, b: seq<Pair>)
    ensures Flat(a + b) == Flat(a) + Flat(b)
  {
    if a == [] {
      assert a + b == b;
    } else {
      assert (a + b)[1..] == a[1..] + b;
      FlatJoin(a[1..], b);
    }
  }

  lemma {:induction false} ChainsFlat(pairs: seq<Pair>, tail: seq<Felt>)
    ensures ChainPairs(pairs, tail) == Flat(pairs) + tail
  {
    if pairs != [] {
      ChainsFlat(pairs[1..], tail);
    }
  }

  lemma {:induction false} ChainsFlatStorage(storage: seq<(Felt, seq<Pair>)>, tail: seq<Felt>)
    requires AllSized(storage)
    ensures ChainStorage(storage, tail) == FlatStorage(storage) + tail
  {
    if storage != [] {
      assert Sized(storage[0].1);
      ChainsFlatStorage(storage[1..], tail);
      ChainsFlat(storage[0].1, FlatStorage(storage[1..]) + tail);
      Associate([storage[0].0, |storage[0].1|], Flat(storage[0].1), FlatStorage(storage[1..]), tail);
    }
  }

  lemma Associate<T>(a: seq<T>, b: seq<T>, c: seq<T>, d: seq<T>)
    ensures a + (b + (c + d)) == a + b + c + d
  {
  }

  lemma {:induction false} SizeFromSecond(storage: seq<(Felt, seq<Pair>)>, k: nat)
    requires 1 <= k <= |storage|
    ensures StorageSize(storage, k) == 2 + 2 * |storage[0].1| + StorageSize(storage[1..], k - 1)
  {
    if k > 1 {
      SizeFromSecond(storage, k - 1);
    }
  }

  /** The contract's felts stand from `at` on. */
  ghost predicate ContractAt(felts: seq<Felt>, at: nat, contract: (Felt, seq<Pair>)) {
    && at + 2 + 2 * |contract.1| <= |felts| && felts[at] == contract.0 && felts[at + 1] == |contract.1|
    && forall i :: 0 <= i < |contract.1| ==> PairAt(felts, at + 2 + 2 * i, contract.1[i])
  }

  lemma FirstContract(contract: (Felt, seq<Pair>), more: seq<Felt>)
    requires Sized(contract.1)
    ensures |Contract(contract)| == 2 + 2 * |contract.1| && ContractAt(Contract(contract) + more, 0, contract)
  {
    var felts := Contract(contract) + more;
    FlatSize(contract.1);
    forall i | 0 <= i < |contract.1| ensures PairAt(felts, 2 + 2 * i, contract.1[i]) {
      FlatPlace(contract.1, i);
    }
  }

  lemma ContractShift(front: seq<Felt>, felts: seq<Felt>, at: nat, contract: (Felt, seq<Pair>))
    requires ContractAt(felts, at, contract)
    ensures ContractAt(front + felts, |front| + at, contract)
  {
    forall i | 0 <= i < |contract.1| ensures PairAt(front + felts, |front| + at + 2 + 2 * i, contract.1[i]) {
      assert PairAt(felts, at + 2 + 2 * i, contract.1[i]);
    }
  }

  /** In the storage, the `k`th contract stands right after those before it. */
  lemma {:induction false} ContractPlace(storage: seq<(Felt, seq<Pair>)>, k: nat)
    requires AllSized(storage) && k < |storage|
    ensures ContractAt(FlatStorage(storage), StorageSize(storage, k), storage[k])
    decreases k
  {
    var more := FlatStorage(storage[1..]);
    assert Sized(storage[0].1);
    FirstContract(storage[0], more);
    if k > 0 {
      ContractPlace(storage[1..], k - 1);
      SizeFromSecond(storage, k);
      ContractShift(Contract(storage[0]), more, StorageSize(storage[1..], k - 1), storage[k]);
    }
  }

  lemma {:induction false} FlatStorageSize(storage: seq<(Felt, seq<Pair>)>)
    requires AllSized(storage)
    ensures |FlatStorage(storage)| == StorageSize(storage, |storage|)
  {
    if storage != [] {
      assert Sized(storage[0].1);
      FlatSize(storage[0].1);
      FlatStorageSize(storage[1..]);
      SizeFromSecond(storage, |storage|);
    }
  }

  /** What `compute_state_diff_hash` hashes, section by section. */
  lemma PreimageSections(u: StateUpdates)
    requires WellFormed(u)
    ensures Preimage(u) ==
            [ShortStrings.ToFelt("STARKNET_STATE_DIFF0")]
            + ([|u.deployed| + |u.replaced|] + Flat(u.deployed) + Flat(u.replaced))
            + ([|u.declared|] + Flat(u.declared))
            + ([|u.deprecated|] + u.deprecated)
            + [1, 0]
            + ([|u.storage|] + FlatStorage(u.storage))
            + ([|u.nonces|] + Flat(u.nonces))
  {
    var rest := ChainRest(u, []);
    MagicSpelled();
    RestSections(u);
    CountedIsFlat(u.declared, rest);
    CountedIsFlat(u.deployed + u.replaced, CountedFlat(u.declared) + rest);
    FlatJoin(u.deployed, u.replaced);
    assert CountedFlat(u.deployed + u.replaced) == [|u.deployed| + |u.replaced|] + Flat(u.deployed) + Flat(u.replaced);
    Flatten([MAGIC], CountedFlat(u.deployed + u.replaced), CountedFlat(u.declared), [|u.deprecated|] + u.deprecated,
            [1, 0], [|u.storage|] + FlatStorage(u.storage), CountedFlat(u.nonces));
  }

  lemma RestSections(u: StateUpdates)
    requires WellFormed(u)
    ensures ChainRest(u, []) ==
            ([|u.deprecated|] + u.deprecated)
            + ([1, 0] + (([|u.storage|] + FlatStorage(u.storage)) + CountedFlat(u.nonces)))
  {
    CountedIsFlat(u.nonces, []);
    ChainsFlatStorage(u.storage, CountedFlat(u.nonces));
    Gather(|u.deprecated|, u.deprecated, [1, 0], |u.storage|, FlatStorage(u.storage), CountedFlat(u.nonces));
  }

  function CountedFlat(pairs: seq<Pair>): (r: seq<Felt>)
    requires Sized(pairs)
  {
    [|pairs|] + Flat(pairs)
  }

  lemma CountedIsFlat(pairs: seq<Pair>, tail: seq<Felt>)
    requires Sized(pairs)
    ensures Counted(pairs, tail) == CountedFlat(pairs) + tail
    ensures tail == [] ==> Counted(pairs, tail) == CountedFlat(pairs)
  {
    ChainsFlat(pairs, tail);
  }

  lemma Gather(n: Felt, a: seq<Felt>, b: seq<Felt>, m: Felt, c: seq<Felt>, d: seq<Felt>)
    ensures [n] + (a + (b + ([m] + (c + d)))) == ([n] + a) + (b + (([m] + c) + d))
  {
    assert [m] + (c + d) == ([m] + c) + d;
    assert [n] + (a + (b + (([m] + c) + d))) == ([n] + a) + (b + (([m] + c) + d));
  }

  lemma Flatten<T>(a: seq<T>, b: seq<T>, c: seq<T>, d: seq<T>, e: seq<T>, f: seq<T>, g: seq<T>)
    ensures a + (b + (c + (d + (e + (f + g))))) == a + b + c + d + e + f + g
  {
    assert c + (d + (e + (f + g))) == c + d + e + f + g;
  }

  // ----- a decoder for the preimage -----

  datatype Taken<+T> = Taken(value: T, rest: seq<Felt>)

  function TakePairs(n: nat, felts: seq<Felt>): (r: Option<Taken<seq<Pair>>>) {
    if n == 0 then Some(Taken([], felts))
    else if |felts| < 2 then None
    else
      match TakePairs(n - 1, felts[2..])
      case None => None
      case Some(t) => Some(Taken([(felts[0], felts[1])] + t.value, t.rest))
  }

  function TakeStorage(n: nat, felts: seq<Felt>): (r: Option<Taken<seq<(Felt, seq<Pair>)>>>) {
    if n == 0 then Some(Taken([], felts))
    else if |felts| < 2 then None
    else
      match TakePairs(felts[1], felts[2..])
      case None => None
      case Some(entries) =>
        match TakeStorage(n - 1, entries.rest)
        case None => None
        case Some(t) => Some(Taken([(felts[0], entries.value)] + t.value, t.rest))
  }

  /** A length felt, then that many pairs. */
  function TakeCountedPairs(felts: seq<Felt>): (r: Option<Taken<seq<Pair>>>) {
    if felts == [] then None else TakePairs(felts[0], felts[1..])
  }

  function TakeCountedFelts(felts: seq<Felt>): (r: Option<Taken<seq<Felt>>>) {
    if felts == [] || felts[0] > |felts| - 1 then None
    else Some(Taken(felts[1..1 + felts[0]], felts[1 + felts[0]..]))
  }

  function TakeCountedStorage(felts: seq<Felt>): (r: Option<Taken<seq<(Felt, seq<Pair>)>>>) {
    if felts == [] then None else TakeStorage(felts[0], felts[1..])
  }

  /** What the preimage determines: deployed and replaced contracts share one list. */
  datatype Decoded = Decoded(
    updated: seq<Pair>,
    declared: seq<Pair>,
    deprecated: seq<Felt>,
    storage: seq<(Felt, seq<Pair>)>,
    nonces: seq<Pair>)

  function Merged(u: StateUpdates): (d: Decoded) {
    Decoded(u.deployed + u.replaced, u.declared, u.deprecated, u.storage, u.nonces)
  }

  function Decode(felts: seq<Felt>): (r: Option<Taken<Decoded>>) {
    if felts == [] || felts[0] != MAGIC then None
    else
      var updated := TakeCountedPairs(felts[1..]);
      if updated.None? then None
      else
        var declared := TakeCountedPairs(updated.value.rest);
        if declared.None? then None
        else DecodeRest(updated.value.value, declared.value.value, declared.value.rest)
  }

  function DecodeRest(updated: seq<Pair>, declared: seq<Pair>, felts: seq<Felt>): (r: Option<Taken<Decoded>>) {
    var deprecated := TakeCountedFelts(felts);
    if deprecated.None? then None
    else
      var rest := deprecated.value.rest;
      if |rest| < 2 || rest[..2] != [1, 0] then None
      else
        var storage := TakeCountedStorage(rest[2..]);
        if storage.None? then None
        else
          match TakeCountedPairs(storage.value.rest)
          case None => None
          case Some(nonces) =>
            var d := Decoded(updated, declared, deprecated.value.value, storage.value.value, nonces.value);
            Some(Taken(d, nonces.rest))
  }

  lemma {:induction false} TakeChained(pairs: seq<Pair>, tail: seq<Felt>)
    ensures TakePairs(|pairs|, ChainPairs(pairs, tail)) == Some(Taken(pairs, tail))
  {
    if pairs != [] {
      TakeChained(pairs[1..], tail);
      assert ChainPairs(pairs, tail)[2..] == ChainPairs(pairs[1..], tail);
      assert pairs == [pairs[0]] + pairs[1..];
    }
  }

  lemma {:induction false} TakeChainedStorage(storage: seq<(Felt, seq<Pair>)>, tail: seq<Felt>)
    requires forall i :: 0 <= i < |storage| ==> Sized(storage[i].1)
    ensures TakeStorage(|storage|, ChainStorage(storage, tail)) == Some(Taken(storage, tail))
  {
    if storage != [] {
      var more := ChainStorage(storage[1..], tail);
      var felts := ChainStorage(storage, tail);
      assert Sized(storage[0].1);
      TakeChainedStorage(storage[1..], tail);
      TakeChained(storage[0].1, more);
      assert felts[0] == storage[0].0 && felts[1] == |storage[0].1| && felts[2..] == ChainPairs(storage[0].1, more);
      assert storage == [storage[0]] + storage[1..];
    }
  }

  lemma TakeCounted(pairs: seq<Pair>, tail: seq<Felt>)
    requires Sized(pairs)
    ensures TakeCountedPairs(Counted(pairs, tail)) == Some(Taken(pairs, tail))
  {
    TakeChained(pairs, tail);
    assert Counted(pairs, tail)[1..] == ChainPairs(pairs, tail);
  }

  lemma TakeDeprecated(xs: seq<Felt>, tail: seq<Felt>)
    requires Sized(xs)
    ensures TakeCountedFelts([|xs|] + (xs + tail)) == Some(Taken(xs, tail))
  {
    var felts := [|xs|] + (xs + tail);
    assert felts[1..1 + |xs|] == xs && felts[1 + |xs|..] == tail;
  }

  lemma TakeMarker(tail: seq<Felt>)
    ensures var felts: seq<Felt> := [1, 0] + tail;
            |felts| >= 2 && felts[..2] == [1, 0] && felts[2..] == tail
  {
  }

  /** The elements, followed by anything, decode to the merged update and leave what follows. */
  lemma PreimageDecodes(u: StateUpdates, tail: seq<Felt>)
    requires WellFormed(u)
    ensures Decode(ChainUpdates(u, tail)) == Some(Taken(Merged(u), tail))
  {
    var t2 := ChainRest(u, tail);
    var t1 := Counted(u.declared, t2);
    var t0 := Counted(u.deployed + u.replaced, t1);
    assert ChainUpdates(u, tail)[1..] == t0;
    TakeCounted(u.deployed + u.replaced, t1);
    TakeCounted(u.declared, t2);
    RestDecodes(u, tail);
  }

  lemma RestDecodes(u: StateUpdates, tail: seq<Felt>)
    requires WellFormed(u)
    ensures DecodeRest(u.deployed + u.replaced, u.declared, ChainRest(u, tail)) == Some(Taken(Merged(u), tail))
  {
    var t4 := Counted(u.nonces, tail);
    var t3 := [|u.storage|] + ChainStorage(u.storage, t4);
    TakeDeprecated(u.deprecated, [1, 0] + t3);
    TakeMarker(t3);
    TakeChainedStorage(u.storage, t4);
    assert t3[1..] == ChainStorage(u.storage, t4);
    TakeCounted(u.nonces, tail);
  }

  /** Two updates share a preimage exactly when they agree once deployed and replaced contracts are merged. */
  lemma PreimageEqualIff(u: StateUpdates, w: StateUpdates)
    requires WellFormed(u) && WellFormed(w)
    ensures Preimage(u) == Preimage(w) <==> Merged(u) == Merged(w)
    ensures Preimage(u) == Preimage(w) && |u.deployed| == |w.deployed| ==> u == w
  {
    PreimageDecodes(u, []);
    PreimageDecodes(w, []);
    if Merged(u) == Merged(w) && |u.deployed| == |w.deployed| {
      SplitSame(u.deployed, u.replaced, w.deployed, w.replaced);
    }
  }

  lemma SplitSame(a: seq<Pair>, b: seq<Pair>, c: seq<Pair>, d: seq<Pair>)
    requires a + b == c + d && |a| == |c|
    ensures a == c && b == d
  {
    assert a == (a + b)[..|a|] && c == (c + d)[..|c|];
    assert b == (a + b)[|a|..] && d == (c + d)[|c|..];
  }

  /** Some other well-formed update has the same preimage. */
  ghost predicate Ambiguous(u: StateUpdates)
    requires WellFormed(u)
  {
    exists w :: WellFormed(w) && w != u && Preimage(w) == Preimage(u)
  }

  /**
   The commitment hides which contracts were deployed and which replaced exactly when there
   is such a contract and every deployed address is below every replaced one.
   */
  lemma AmbiguousIff(u: StateUpdates)
    requires WellFormed(u)
    ensures Ambiguous(u) <==> u.deployed + u.replaced != [] && Ascending(u.deployed + u.replaced)
  {
    var all := u.deployed + u.replaced;
    if all != [] && Ascending(all) {
      AscendingIsAmbiguous(u);
    }
    if Ambiguous(u) {
      var w :| WellFormed(w) && w != u && Preimage(w) == Preimage(u);
      PreimageEqualIff(u, w);
      assert Merged(u).updated == all && Merged(w).updated == w.deployed + w.replaced;
      SplitTwice(u.deployed, u.replaced, w.deployed, w.replaced);
    }
  }

  /** Move the whole list to the other side. */
  lemma AscendingIsAmbiguous(u: StateUpdates)
    requires WellFormed(u) && u.deployed + u.replaced != [] && Ascending(u.deployed + u.replaced)
    ensures Ambiguous(u)
  {
    var all := u.deployed + u.replaced;
    var w := if u.deployed == [] then u.(deployed := all, replaced := []) else u.(deployed := [], replaced := all);
    assert w.deployed + w.replaced == all;
    assert |w.deployed| != |u.deployed|;
    PreimageEqualIff(u, w);
  }

  /** A list cut into ascending halves at two different places is ascending. */
  lemma SplitTwice(a: seq<Pair>, b: seq<Pair>, c: seq<Pair>, d: seq<Pair>)
    requires Ascending(a) && Ascending(b) && Ascending(c) && Ascending(d)
    requires a + b == c + d && |a| != |c|
    ensures a + b != [] && Ascending(a + b)
  {
    var all := a + b;
    var all' := c + d;
    assert forall i :: 0 <= i < |a| ==> all[i] == a[i];
    assert forall i :: |a| <= i < |all| ==> all[i] == b[i - |a|];
    assert forall i :: 0 <= i < |c| ==> all'[i] == c[i];
    assert forall i :: |c| <= i < |all| ==> all'[i] == d[i - |c|];
    forall i, j | 0 <= i < j < |all| ensures all[i].0 < all[j].0 {
      var p, q := if |a| < |c| then |a| else |c|, if |a| < |c| then |c| else |a|;
      if i < p && q <= j {
        assert all[i].0 < all[p].0;
        assert p == j || all[p].0 < all[j].0;
      }
    }
  }

  /** `StateUpdates::len`; the commitment hashes two felts per counted change, headers aside. */
  method Len(u: StateUpdates) returns (len: nat)
    requires WellFormed(u)
    ensures |Preimage(u)| == 8 + 2 * len - |u.deprecated| + 2 * |u.storage|
  {
    len := |u.deployed|;
    len := len + |u.replaced|;
    len := len + |u.declared|;
    len := len + |u.deprecated|;
    len := len + |u.nonces|;
    ghost var counted, tail := len, Counted(u.nonces, []);
    assert u.storage[0..] == u.storage;
    for i := 0 to |u.storage|
      invariant len >= counted
      invariant |ChainStorage(u.storage, tail)| == 2 * (len - counted) + 2 * i + |ChainStorage(u.storage[i..], tail)|
    {
      assert u.storage[i..][0] == u.storage[i] && u.storage[i..][1..] == u.storage[i + 1..];
      len := len + |u.storage[i].1|;
    }
  }
}
