/** Python list operations the analyzer relies on: `list.count`, the counts
    of a `collections.Counter`, and `list(set(xs))`. */
module Sequences {

  /** `xs.count(x)`: the number of positions of `xs` holding `x`. */
  function Count<T(==)>(xs: seq<T>, x: T): (n: nat)
    ensures n <= |xs|
    ensures n > 0 <==> x in xs
  {
    if xs == [] then 0 else (if xs[0] == x then 1 else 0) + Count(xs[1..], x)
  }

  lemma {:induction false} CountAppend<T>(xs: seq<T>, ys: seq<T>, x: T)
    ensures Count(xs + ys, x) == Count(xs, x) + Count(ys, x)
  {
    if xs != [] {
      assert (xs + ys)[0] == xs[0] && (xs + ys)[1..] == xs[1..] + ys;
      CountAppend(xs[1..], ys, x);
    } else {
      assert xs + ys == ys;
    }
  }

  /** `collections.Counter(xs)`: every element of `xs` mapped to its count. */
  function Counter<T(==,!new)>(xs: seq<T>): (m: map<T, nat>)
    ensures forall x :: x in m <==> Count(xs, x) > 0
    ensures forall x :: x in m ==> m[x] == Count(xs, x)
  {
    map x | x in xs :: Count(xs, x)
  }

  predicate NoDuplicates<T(==)>(xs: seq<T>) {
    forall i, j :: 0 <= i < j < |xs| ==> xs[i] != xs[j]
  }

  /** `list(set(xs))`: the distinct elements of `xs`, each once. Python gives
      them in hash order; no order is promised here either. */
  function Dedup<T(==,!new)>(xs: seq<T>): (r: seq<T>)
    ensures NoDuplicates(r)
    ensures forall x :: x in r <==> x in xs
    ensures |r| <= |xs|
  {
    if xs == [] then []
    else if xs[0] in xs[1..] then Dedup(xs[1..])
    else [xs[0]] + Dedup(xs[1..])
  }

  /** `xs` can be obtained from `ys` by deleting elements: order is kept. */
  predicate IsSubsequence<T(==)>(xs: seq<T>, ys: seq<T>)
    decreases |ys|
  {
    || xs == []
    || (ys != [] && xs[0] == ys[0] && IsSubsequence(xs[1..], ys[1..]))
    || (ys != [] && IsSubsequence(xs, ys[1..]))
  }
}
