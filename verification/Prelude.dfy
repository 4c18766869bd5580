/** Options, results and the list operations (filter, stable sort) used by every other module. */
module Prelude {

  datatype Option<+T> = None | Some(value: T)

  datatype Result<+T, +E> = Ok(value: T) | Err(error: E)
  {
    predicate IsFailure() {
      Err?
    }

    function PropagateFailure<U>(): Result<U, E>
      requires Err?
    {
      Err(error)
    }

    function Extract(): T
      requires Ok?
    {
      value
    }
  }

  function Filter<T(!new)>(xs: seq<T>, keep: T -> bool): (ys: seq<T>)
    ensures forall y :: y in ys <==> y in xs && keep(y)
    ensures |ys| <= |xs|
  {
    if xs == [] then []
    else if keep(xs[0]) then [xs[0]] + Filter(xs[1..], keep)
    else Filter(xs[1..], keep)
  }

  function FirstOrNone<T>(xs: seq<T>): Option<T> {
    if xs == [] then None else Some(xs[0])
  }

  function InsertBy<T(!new)>(x: T, ys: seq<T>, key: T -> int): (zs: seq<T>)
    ensures multiset(zs) == multiset([x]) + multiset(ys)
  {
    if ys == [] || key(x) <= key(ys[0]) then
      [x] + ys
    else
      assert ys == [ys[0]] + ys[1..];
      [ys[0]] + InsertBy(x, ys[1..], key)
  }

  /** Stable ascending sort. */
  function SortBy<T(!new)>(xs: seq<T>, key: T -> int): (zs: seq<T>)
    ensures multiset(zs) == multiset(xs)
    ensures forall x :: x in zs <==> x in xs
  {
    if xs == [] then []
    else
      assert xs == [xs[0]] + xs[1..];
      var zs := InsertBy(xs[0], SortBy(xs[1..], key), key);
      assert forall x :: x in zs <==> x in multiset(zs);
      assert forall x :: x in xs <==> x in multiset(xs);
      zs
  }

  ghost predicate SortedBy<T(!new)>(xs: seq<T>, key: T -> int) {
    forall i, j :: 0 <= i < j < |xs| ==> key(xs[i]) <= key(xs[j])
  }

  lemma {:induction false} InsertBySorted<T(!new)>(x: T, ys: seq<T>, key: T -> int)
    requires SortedBy(ys, key)
    ensures SortedBy(InsertBy(x, ys, key), key)
  {
    if ys == [] || key(x) <= key(ys[0]) {
    } else {
      InsertBySorted(x, ys[1..], key);
      var tail := InsertBy(x, ys[1..], key);
      forall z | z in tail ensures key(ys[0]) <= key(z) {
        assert z in multiset(tail);
      }
    }
  }

  lemma {:induction false} SortBySorted<T(!new)>(xs: seq<T>, key: T -> int)
    ensures SortedBy(SortBy(xs, key), key)
  {
    if xs != [] {
      SortBySorted(xs[1..], key);
      InsertBySorted(xs[0], SortBy(xs[1..], key), key);
    }
  }

  lemma {:induction false} FilterSorted<T(!new)>(xs: seq<T>, keep: T -> bool, key: T -> int)
    requires SortedBy(xs, key)
    ensures SortedBy(Filter(xs, keep), key)
  {
    if xs != [] {
      FilterSorted(xs[1..], keep, key);
      forall y | y in Filter(xs[1..], keep) ensures key(xs[0]) <= key(y) {}
    }
  }

  lemma {:induction false} FilterInsert<T(!new)>(x: T, ys: seq<T>, keep: T -> bool, key: T -> int)
    requires SortedBy(ys, key)
    ensures Filter(InsertBy(x, ys, key), keep)
         == if keep(x) then InsertBy(x, Filter(ys, keep), key) else Filter(ys, keep)
  {
    if ys == [] {
    } else if key(x) <= key(ys[0]) {
      assert ([x] + ys)[1..] == ys;
      var kept := Filter(ys, keep);
      if kept != [] {
        assert kept[0] in ys;
        assert key(x) <= key(kept[0]);
      }
    } else {
      FilterInsert(x, ys[1..], keep, key);
      var tail := InsertBy(x, ys[1..], key);
      assert ([ys[0]] + tail)[1..] == tail;
      if keep(ys[0]) {
        assert ([ys[0]] + Filter(ys[1..], keep))[1..] == Filter(ys[1..], keep);
      } else if keep(x) {
      }
    }
  }

  /** Filtering and stable sorting commute. */
  lemma {:induction false} FilterSortCommute<T(!new)>(xs: seq<T>, keep: T -> bool, key: T -> int)
    ensures Filter(SortBy(xs, key), keep) == SortBy(Filter(xs, keep), key)
  {
    if xs != [] {
      FilterSortCommute(xs[1..], keep, key);
      SortBySorted(xs[1..], key);
      FilterInsert(xs[0], SortBy(xs[1..], key), keep, key);
    }
  }

  function Sum(xs: seq<int>): int {
    if xs == [] then 0 else xs[0] + Sum(xs[1..])
  }

  lemma {:induction false} SumAppend(xs: seq<int>, x: int)
    ensures Sum(xs + [x]) == Sum(xs) + x
  {
    if xs == [] {
      assert xs + [x] == [x];
    } else {
      assert (xs + [x])[1..] == xs[1..] + [x];
      SumAppend(xs[1..], x);
    }
  }

  lemma SubsetSize(part: set<nat>, whole: set<nat>)
    requires part <= whole
    ensures |part| <= |whole|
  {
    assert whole == part + (whole - part);
  }

  /** A subset is as large as the whole exactly if it is the whole. */
  lemma SubsetSameSize(part: set<nat>, whole: set<nat>)
    requires part <= whole
    ensures |part| >= |whole| <==> part == whole
  {
    assert whole == part + (whole - part);
    if |part| >= |whole| {
      assert whole - part == {};
    }
  }
}
