/** Small vocabulary shared by every part of the model. */
module Basics {
  datatype Option<+T> = None | Some(value: T)

  /** Keeps the first occurrence of every element, in order. */
  function FirstOccurrences<T(==, !new)>(xs: seq<T>): (r: seq<T>)
    ensures forall x :: x in r <==> x in xs
  {
    if xs == [] then []
    else
      var init := FirstOccurrences(xs[..|xs| - 1]);
      var last := xs[|xs| - 1];
      assert xs == xs[..|xs| - 1] + [last];
      if last in init then init else init + [last]
  }

  /** The position at which `x` first occurs in `xs`. */
  function FirstIndex<T(==)>(xs: seq<T>, x: T): (i: nat)
    requires x in xs
    ensures i < |xs| && xs[i] == x && x !in xs[..i]
  {
    if xs[0] == x then 0 else 1 + FirstIndex(xs[1..], x)
  }

  ghost predicate NoDuplicates<T>(xs: seq<T>) {
    forall i, j :: 0 <= i < j < |xs| ==> xs[i] != xs[j]
  }

  lemma FirstOccurrencesSnoc<T(!new)>(xs: seq<T>, x: T)
    ensures FirstOccurrences(xs + [x])
         == if x in xs then FirstOccurrences(xs) else FirstOccurrences(xs) + [x]
  {
    assert (xs + [x])[..|xs + [x]| - 1] == xs;
  }

  lemma FirstIndexPrefix<T>(xs: seq<T>, ys: seq<T>, x: T)
    requires x in xs + ys
    ensures x in xs ==> FirstIndex(xs + ys, x) == FirstIndex(xs, x)
    ensures x !in xs ==> FirstIndex(xs + ys, x) >= |xs|
  {
    if xs != [] && xs[0] != x {
      assert (xs + ys)[1..] == xs[1..] + ys;
      FirstIndexPrefix(xs[1..], ys, x);
    }
  }

  /** `FirstOccurrences` lists each element once, ordered by where it first occurs. */
  lemma {:induction false} FirstOccurrencesOrdered<T(!new)>(xs: seq<T>)
    ensures NoDuplicates(FirstOccurrences(xs))
    ensures forall i, j :: 0 <= i < j < |FirstOccurrences(xs)| ==>
              FirstIndex(xs, FirstOccurrences(xs)[i]) < FirstIndex(xs, FirstOccurrences(xs)[j])
  {
    if xs != [] {
      var init, last := xs[..|xs| - 1], xs[|xs| - 1];
      assert xs == init + [last];
      FirstOccurrencesOrdered(init);
      FirstOccurrencesSnoc(init, last);
      var r := FirstOccurrences(xs);
      forall i, j | 0 <= i < j < |r|
        ensures FirstIndex(xs, r[i]) < FirstIndex(xs, r[j])
      {
        assert r[i] in init by { assert r[i] in FirstOccurrences(init); }
        FirstIndexPrefix(init, [last], r[i]);
        FirstIndexPrefix(init, [last], r[j]);
        assert r[j] in init ==> r[j] in FirstOccurrences(init);
      }
    }
  }

  /** The sum of `f` over a list. */
  function Sum<T>(f: T -> int, xs: seq<T>): int {
    if xs == [] then 0 else f(xs[0]) + Sum(f, xs[1..])
  }

  lemma {:induction false} SumAppend<T>(f: T -> int, xs: seq<T>, ys: seq<T>)
    ensures Sum(f, xs + ys) == Sum(f, xs) + Sum(f, ys)
  {
    if xs == [] {
      assert xs + ys == ys;
    } else {
      assert (xs + ys)[1..] == xs[1..] + ys;
      SumAppend(f, xs[1..], ys);
    }
  }

  lemma SumSnoc<T>(f: T -> int, xs: seq<T>, x: T)
    ensures Sum(f, xs + [x]) == Sum(f, xs) + f(x)
  {
    SumAppend(f, xs, [x]);
    assert [x][1..] == [];
  }

  lemma {:induction false} SumUpdate<T>(f: T -> int, xs: seq<T>, n: nat, x: T)
    requires n < |xs|
    ensures Sum(f, xs[n := x]) == Sum(f, xs) - f(xs[n]) + f(x)
  {
    if n == 0 {
      assert xs[n := x][1..] == xs[1..];
    } else {
      assert xs[n := x][1..] == xs[1..][n - 1 := x];
      SumUpdate(f, xs[1..], n - 1, x);
    }
  }
}
