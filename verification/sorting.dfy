/** Sorting with a C#-style three-way comparer. `Array.Sort` and `List.Sort`
    are modelled by insertion sort: any sorting permutation satisfies the
    same two properties proved here. */
module Sorting {

  ghost predicate Antisymmetric<T(!new)>(cmp: (T, T) -> int) {
    forall x, y :: cmp(x, y) == -cmp(y, x)
  }

  ghost predicate Transitive<T(!new)>(cmp: (T, T) -> int) {
    forall x, y, z :: cmp(x, y) <= 0 && cmp(y, z) <= 0 ==> cmp(x, z) <= 0
  }

  /** A comparer that sorting can rely on: a total preorder. */
  ghost predicate TotalPreorder<T(!new)>(cmp: (T, T) -> int) {
    Antisymmetric(cmp) && Transitive(cmp)
  }

  predicate SortedBy<T>(cmp: (T, T) -> int, s: seq<T>) {
    forall i, j :: 0 <= i < j < |s| ==> cmp(s[i], s[j]) <= 0
  }

  /** `a` sorts no later than any element of `s`. */
  predicate LowerBound<T>(cmp: (T, T) -> int, a: T, s: seq<T>) {
    forall j :: 0 <= j < |s| ==> cmp(a, s[j]) <= 0
  }

  lemma PrependSorted<T>(cmp: (T, T) -> int, a: T, s: seq<T>)
    requires LowerBound(cmp, a, s) && SortedBy(cmp, s)
    ensures SortedBy(cmp, [a] + s)
  {
    var r := [a] + s;
    forall i, j | 0 <= i < j < |r|
      ensures cmp(r[i], r[j]) <= 0
    {
      if i == 0 {
        assert r[j] == s[j - 1];
      } else {
        assert r[i] == s[i - 1] && r[j] == s[j - 1];
      }
    }
  }

  /** A lower bound of a sorted sequence's head bounds all of it. */
  lemma LowerBoundFromHead<T(!new)>(cmp: (T, T) -> int, x: T, s: seq<T>)
    requires Transitive(cmp) && SortedBy(cmp, s) && s != [] && cmp(x, s[0]) <= 0
    ensures LowerBound(cmp, x, s)
  {
    forall j | 0 <= j < |s|
      ensures cmp(x, s[j]) <= 0
    {
      if j > 0 {
        assert cmp(s[0], s[j]) <= 0;
      }
    }
  }

  /** A lower bound of `s` and of `x` is a lower bound of any permutation of `s + [x]`. */
  lemma LowerBoundOfPermutation<T>(cmp: (T, T) -> int, a: T, x: T, s: seq<T>, r: seq<T>)
    requires multiset(r) == multiset(s) + multiset{x}
    requires LowerBound(cmp, a, s) && cmp(a, x) <= 0
    ensures LowerBound(cmp, a, r)
  {
    forall j | 0 <= j < |r|
      ensures cmp(a, r[j]) <= 0
    {
      assert r[j] in multiset(r);
      if r[j] != x {
        assert r[j] in multiset(s);
        var k :| 0 <= k < |s| && s[k] == r[j];
      }
    }
  }

  function Insert<T(!new)>(cmp: (T, T) -> int, x: T, s: seq<T>): (r: seq<T>)
    requires TotalPreorder(cmp) && SortedBy(cmp, s)
    ensures multiset(r) == multiset(s) + multiset{x}
    ensures SortedBy(cmp, r)
  {
    if s == [] then [x]
    else if cmp(x, s[0]) <= 0 then
      LowerBoundFromHead(cmp, x, s);
      PrependSorted(cmp, x, s);
      [x] + s
    else
      var rest := Insert(cmp, x, s[1..]);
      InsertBehindHead(cmp, x, s, rest);
      [s[0]] + rest
  }

  /** When `x` sorts after the head of `s`, the head followed by `x` inserted
      into the tail is sorted and holds `s` and `x`. */
  lemma InsertBehindHead<T(!new)>(cmp: (T, T) -> int, x: T, s: seq<T>, rest: seq<T>)
    requires TotalPreorder(cmp) && SortedBy(cmp, s) && s != [] && cmp(x, s[0]) > 0
    requires multiset(rest) == multiset(s[1..]) + multiset{x} && SortedBy(cmp, rest)
    ensures multiset([s[0]] + rest) == multiset(s) + multiset{x}
    ensures SortedBy(cmp, [s[0]] + rest)
  {
    assert s == [s[0]] + s[1..];
    assert cmp(s[0], x) <= 0;
    assert LowerBound(cmp, s[0], s[1..]) by {
      forall j | 0 <= j < |s[1..]|
        ensures cmp(s[0], s[1..][j]) <= 0
      {
        assert s[1..][j] == s[j + 1];
      }
    }
    LowerBoundOfPermutation(cmp, s[0], x, s[1..], rest);
    PrependSorted(cmp, s[0], rest);
  }

  /** The sorted copy of `s`: a permutation of it, ordered by `cmp`. */
  function Sort<T(!new)>(cmp: (T, T) -> int, s: seq<T>): (r: seq<T>)
    requires TotalPreorder(cmp)
    ensures multiset(r) == multiset(s) && |r| == |s|
    ensures SortedBy(cmp, r)
  {
    if s == [] then []
    else
      assert s == [s[0]] + s[1..];
      Insert(cmp, s[0], Sort(cmp, s[1..]))
  }
}
