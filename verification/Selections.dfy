/** The part of a list that a partial function keeps, with the places it comes from. */
module Selections {
  import opened Wrappers

  /** `ys` is what `f` makes of the elements of `xs` it makes something of; `at` says where each comes from. */
  ghost predicate Selects<S(!new), T(!new)>(f: S -> Option<T>, xs: seq<S>, ys: seq<T>, at: seq<nat>) {
    Rising(at) && MadeOf(f, xs, ys, at) && Covers(f, xs, at)
  }

  ghost predicate Rising(at: seq<nat>) {
    forall i, j :: 0 <= i < j < |at| ==> at[i] < at[j]
  }

  ghost predicate MadeOf<S, T>(f: S -> Option<T>, xs: seq<S>, ys: seq<T>, at: seq<nat>) {
    |at| == |ys| && forall i :: 0 <= i < |at| ==> at[i] < |xs| && f(xs[at[i]]) == Some(ys[i])
  }

  ghost predicate Covers<S, T>(f: S -> Option<T>, xs: seq<S>, at: seq<nat>) {
    forall k :: 0 <= k < |xs| && f(xs[k]).Some? ==> Listed(at, k)
  }

  ghost predicate Listed(at: seq<nat>, k: nat) {
    exists i :: 0 <= i < |at| && at[i] == k
  }

  /** The same places, one further on. */
  function Later(at: seq<nat>): (r: seq<nat>)
    ensures |r| == |at| && forall i :: 0 <= i < |at| ==> r[i] == at[i] + 1
  {
    seq(|at|, i requires 0 <= i < |at| => at[i] + 1)
  }

  lemma RisingLater(at: seq<nat>)
    requires Rising(at)
    ensures Rising(Later(at)) && Rising([0] + Later(at))
  {
  }

  lemma MadeLater<S, T>(f: S -> Option<T>, xs: seq<S>, ys: seq<T>, at: seq<nat>, x: S)
    requires MadeOf(f, xs, ys, at)
    ensures MadeOf(f, [x] + xs, ys, Later(at))
    ensures f(x).Some? ==> MadeOf(f, [x] + xs, [f(x).value] + ys, [0] + Later(at))
  {
  }

  lemma ListedLater(at: seq<nat>, k: nat)
    requires Listed(at, k)
    ensures Listed(Later(at), k + 1) && Listed([0] + Later(at), k + 1)
  {
    var i :| 0 <= i < |at| && at[i] == k;
    assert Later(at)[i] == k + 1 && ([0] + Later(at))[i + 1] == k + 1;
  }

  lemma CoversLater<S, T>(f: S -> Option<T>, xs: seq<S>, at: seq<nat>, x: S)
    requires Covers(f, xs, at)
    ensures f(x).None? ==> Covers(f, [x] + xs, Later(at))
    ensures Covers(f, [x] + xs, [0] + Later(at))
  {
    assert ([0] + Later(at))[0] == 0;
    forall k | 1 <= k < |[x] + xs| && f(([x] + xs)[k]).Some?
      ensures Listed(Later(at), k) && Listed([0] + Later(at), k)
    {
      ListedLater(at, k - 1);
    }
  }

  lemma SelectsCons<S(!new), T(!new)>(f: S -> Option<T>, xs: seq<S>, ys: seq<T>, at: seq<nat>, x: S)
    returns (more: seq<nat>)
    requires Selects(f, xs, ys, at)
    ensures Selects(f, [x] + xs, if f(x).Some? then [f(x).value] + ys else ys, more)
  {
    RisingLater(at);
    MadeLater(f, xs, ys, at, x);
    CoversLater(f, xs, at, x);
    more := if f(x).Some? then [0] + Later(at) else Later(at);
  }
}
