/** Sorting by an integer key, as `slices.SortFunc` is used: the order of equal keys is not promised. */
module Sorting {
  ghost predicate SortedBy<T(!new)>(xs: seq<T>, key: T -> int) {
    forall i, j :: 0 <= i < j < |xs| ==> key(xs[i]) <= key(xs[j])
  }

  /** Some arrangement of `xs` in key order. */
  ghost predicate SortOf<T(!new)>(xs: seq<T>, key: T -> int, ys: seq<T>) {
    SortedBy(ys, key) && multiset(ys) == multiset(xs)
  }

  method InsertByKey<T(!new)>(x: T, xs: seq<T>, key: T -> int) returns (ys: seq<T>)
    requires SortedBy(xs, key)
    ensures SortOf([x] + xs, key, ys)
  {
    var i := 0;
    while i < |xs| && key(xs[i]) < key(x)
      invariant 0 <= i <= |xs|
      invariant forall j :: 0 <= j < i ==> key(xs[j]) < key(x)
    {
      i := i + 1;
    }
    ys := xs[..i] + ([x] + xs[i..]);
    assert forall j :: 0 <= j < |xs[i..]| ==> key(x) <= key(xs[i..][j]) by {
      assert forall j :: i <= j < |xs| ==> key(xs[i]) <= key(xs[j]);
    }
    InsertedIsSorted(x, xs[..i], xs[i..], key);
    assert xs == xs[..i] + xs[i..];
    InsertedMembers(x, xs[..i], xs[i..]);
  }

  lemma InsertedIsSorted<T(!new)>(x: T, before: seq<T>, after: seq<T>, key: T -> int)
    requires SortedBy(before, key) && SortedBy(after, key)
    requires forall j :: 0 <= j < |before| ==> key(before[j]) <= key(x)
    requires forall j :: 0 <= j < |after| ==> key(x) <= key(after[j])
    ensures SortedBy(before + ([x] + after), key)
  {
    SortedConcat([x], after, key);
    SortedConcat(before, [x] + after, key);
  }

  lemma InsertedMembers<T>(x: T, before: seq<T>, after: seq<T>)
    ensures multiset(before + ([x] + after)) == multiset([x] + (before + after))
  {
    assert multiset([x] + (before + after)) == multiset([x]) + (multiset(before) + multiset(after));
  }

  lemma SortedConcat<T(!new)>(xs: seq<T>, ys: seq<T>, key: T -> int)
    requires SortedBy(xs, key) && SortedBy(ys, key)
    requires forall i, j :: 0 <= i < |xs| && 0 <= j < |ys| ==> key(xs[i]) <= key(ys[j])
    ensures SortedBy(xs + ys, key)
  {
  }

  method SortFunc<T(!new)>(xs: seq<T>, key: T -> int) returns (ys: seq<T>)
    ensures SortOf(xs, key, ys)
  {
    ys := [];
    for i := 0 to |xs|
      invariant SortOf(xs[..i], key, ys)
    {
      assert xs[..i + 1] == xs[..i] + [xs[i]];
      ys := InsertByKey(xs[i], ys, key);
    }
    assert xs[..|xs|] == xs;
  }

  /** The code looks for a descent first and leaves a list without one alone. */
  method SortIfNeeded<T(!new)>(xs: seq<T>, key: T -> int) returns (ys: seq<T>)
    ensures SortOf(xs, key, ys)
  {
    var i := 1;
    while i < |xs| && key(xs[i - 1]) <= key(xs[i])
      invariant 1 <= i <= |xs| || (i == 1 && |xs| == 0)
      invariant forall j, k :: 0 <= j < k < i && k < |xs| ==> key(xs[j]) <= key(xs[k])
    {
      i := i + 1;
    }
    if i < |xs| {
      ys := SortFunc(xs, key);
    } else {
      ys := xs;
    }
  }

  lemma SameMembers<T>(xs: seq<T>, ys: seq<T>)
    requires multiset(xs) == multiset(ys)
    ensures |xs| == |ys|
    ensures forall x :: x in xs <==> x in ys
  {
    forall x ensures x in xs <==> x in ys {
      assert x in xs <==> x in multiset(xs);
      assert x in ys <==> x in multiset(ys);
    }
    assert |multiset(xs)| == |xs| && |multiset(ys)| == |ys|;
  }

  /** A repeated element counts at least twice. */
  lemma RepeatedElement<T>(xs: seq<T>, i: int, j: int)
    requires 0 <= i < j < |xs| && xs[i] == xs[j]
    ensures multiset(xs)[xs[i]] >= 2
  {
    assert xs == xs[..j] + xs[j..];
    assert xs[i] in xs[..j] by { assert xs[..j][i] == xs[i]; }
    assert xs[j] in xs[j..] by { assert xs[j..][0] == xs[j]; }
  }
}
