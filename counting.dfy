/** Counting the search values that satisfy a test, duplicates included.
    Each checker bumps its `check` counter at most once per value, so its
    final count is `Count(values, test)` for the checker's own test. */
module Counting {

  /** The number of positions of `xs` whose element satisfies `p`. */
  function Count<T>(xs: seq<T>, p: T -> bool): (n: nat)
    ensures n <= |xs|
  {
    if xs == [] then 0
    else Count(xs[..|xs| - 1], p) + (if p(xs[|xs| - 1]) then 1 else 0)
  }

  /** A count splits over concatenation. */
  lemma {:induction false} CountAppend<T>(xs: seq<T>, ys: seq<T>, p: T -> bool)
    ensures Count(xs + ys, p) == Count(xs, p) + Count(ys, p)
  {
    if ys == [] {
      assert xs + ys == xs;
    } else {
      var zs := ys[..|ys| - 1];
      assert (xs + ys)[..|xs + ys| - 1] == xs + zs;
      CountAppend(xs, zs, p);
    }
  }

  /** The count reaches the length exactly when every element passes. */
  lemma {:induction false} CountFull<T>(xs: seq<T>, p: T -> bool)
    ensures Count(xs, p) == |xs| <==> forall i :: 0 <= i < |xs| ==> p(xs[i])
  {
    if xs != [] {
      var init := xs[..|xs| - 1];
      CountFull(init, p);
      assert forall i :: 0 <= i < |init| ==> init[i] == xs[i];
    }
  }

  /** The count does not depend on the order of the elements. */
  lemma {:induction false} CountOrderFree<T>(xs: seq<T>, ys: seq<T>, p: T -> bool)
    requires multiset(xs) == multiset(ys)
    ensures Count(xs, p) == Count(ys, p)
    decreases |xs|
  {
    if xs == [] {
      assert |ys| == |multiset(ys)| == 0;
    } else {
      var n := |xs| - 1;
      var x := xs[n];
      assert xs == xs[..n] + [x];
      assert x in multiset(ys);
      var j :| 0 <= j < |ys| && ys[j] == x;
      var rest := ys[..j] + ys[j + 1..];
      assert ys == ys[..j] + [x] + ys[j + 1..];
      calc {
        multiset(xs[..n]) + multiset{x};
        multiset(xs);
        multiset(ys);
        multiset(ys[..j]) + multiset{x} + multiset(ys[j + 1..]);
        multiset(rest) + multiset{x};
      }
      assert multiset(xs[..n]) == multiset(xs[..n]) + multiset{x} - multiset{x};
      assert multiset(rest) == multiset(rest) + multiset{x} - multiset{x};
      CountOrderFree(xs[..n], rest, p);
      CountAppend(ys[..j], ys[j + 1..], p);
      CountAppend(ys[..j] + [x], ys[j + 1..], p);
      CountAppend(ys[..j], [x], p);
      assert [x][..0] == [];
    }
  }
}
