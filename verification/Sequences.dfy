/** Facts about sequences that several components share. */
module Sequences {
  import opened Wrappers

  lemma Associate<T>(xs: seq<T>, ys: seq<T>, zs: seq<T>)
    ensures xs + (ys + zs) == xs + ys + zs
  {
  }

  /** The next element of a list that is worked off in place. */
  lemma UpdateNext<T>(done: seq<T>, todo: seq<T>, x: T)
    requires todo != []
    ensures (done + todo)[|done|] == todo[0]
    ensures (done + todo)[|done| := x] == (done + [x]) + todo[1..] == done + ([x] + todo[1..])
  {
  }

  function Reverse<T>(s: seq<T>): (r: seq<T>)
    ensures |r| == |s|
  {
    if s == [] then [] else Reverse(s[1..]) + [s[0]]
  }

  lemma {:induction false} ReverseConcat<T>(a: seq<T>, b: seq<T>)
    ensures Reverse(a + b) == Reverse(b) + Reverse(a)
  {
    if a == [] {
      assert a + b == b && Reverse(b) + [] == Reverse(b);
    } else {
      assert (a + b)[1..] == a[1..] + b;
      ReverseConcat(a[1..], b);
      Associate(Reverse(b), Reverse(a[1..]), [a[0]]);
    }
  }

  lemma {:induction false} ReverseLast<T>(s: seq<T>)
    requires s != []
    ensures Reverse(s) == [s[|s| - 1]] + Reverse(s[..|s| - 1])
  {
    if |s| > 1 {
      ReverseLast(s[1..]);
      assert s[1..][..|s| - 2] == s[..|s| - 1][1..];
    }
  }

  lemma {:induction false} ReverseTwice<T>(s: seq<T>)
    ensures Reverse(Reverse(s)) == s
  {
    if s != [] {
      ReverseTwice(s[1..]);
      ReverseLast(Reverse(s));
      assert Reverse(s)[..|s| - 1] == Reverse(s[1..]);
    }
  }

  // ----- results in progress -----

  /** What was produced already, in front of what is still to come. */
  function Prepend<T, E>(done: seq<T>, more: Outcome<seq<T>, E>): (r: Outcome<seq<T>, E>) {
    match more
    case Ok(xs) => Ok(done + xs)
    case Err(e) => Err(e)
    case Panic => Panic
  }

  lemma PrependNone<T, E>(more: Outcome<seq<T>, E>)
    ensures Prepend([], more) == more
  {
    if more.Ok? {
      assert [] + more.value == more.value;
    }
  }

  lemma PrependAll<T, E>(done: seq<T>, none: Outcome<seq<T>, E>)
    requires none == Ok([])
    ensures Prepend(done, none) == Ok(done)
  {
    assert done + [] == done;
  }

  lemma PrependCons<T, E>(done: seq<T>, x: T, more: Outcome<seq<T>, E>)
    ensures Prepend(done, Prepend([x], more)) == Prepend(done + [x], more)
  {
    if more.Ok? {
      Associate(done, [x], more.value);
    }
  }
}
