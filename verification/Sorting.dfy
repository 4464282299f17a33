/** Python's `sorted`: a stable sort. Only its result matters to the callers, so it is given as
    insertion from the left; stability is what makes that result the only one possible. */
module Sorting {

  /** `lt` orders elements up to ties. */
  ghost predicate WeakOrder<T(!new)>(lt: (T, T) -> bool) {
    && (forall x, y :: lt(x, y) ==> !lt(y, x))
    && (forall x, y, z :: !lt(x, y) && !lt(y, z) ==> !lt(x, z))
  }

  function Insert<T>(s: seq<T>, x: T, lt: (T, T) -> bool): seq<T> {
    if s == [] || !lt(x, s[|s| - 1]) then s + [x]
    else Insert(s[..|s| - 1], x, lt) + [s[|s| - 1]]
  }

  function Sort<T>(s: seq<T>, lt: (T, T) -> bool): seq<T> {
    if s == [] then [] else Insert(Sort(s[..|s| - 1], lt), s[|s| - 1], lt)
  }

  ghost predicate IsSorted<T>(s: seq<T>, lt: (T, T) -> bool) {
    forall i, j :: 0 <= i < j < |s| ==> !lt(s[j], s[i])
  }

  lemma Split<T>(s: seq<T>)
    requires s != []
    ensures s == s[..|s| - 1] + [s[|s| - 1]]
    ensures multiset(s) == multiset(s[..|s| - 1]) + multiset{s[|s| - 1]}
  {
    assert s == s[..|s| - 1] + [s[|s| - 1]];
  }

  lemma {:induction false} InsertContents<T>(s: seq<T>, x: T, lt: (T, T) -> bool)
    ensures multiset(Insert(s, x, lt)) == multiset(s) + multiset{x}
    ensures |Insert(s, x, lt)| == |s| + 1
  {
    if s != [] && lt(x, s[|s| - 1]) {
      InsertContents(s[..|s| - 1], x, lt);
      Split(s);
    }
  }

  lemma AppendSorted<T(!new)>(s: seq<T>, x: T, lt: (T, T) -> bool)
    requires IsSorted(s, lt) && forall i :: 0 <= i < |s| ==> !lt(x, s[i])
    ensures IsSorted(s + [x], lt)
  {
  }

  lemma {:induction false} InsertSorted<T(!new)>(s: seq<T>, x: T, lt: (T, T) -> bool)
    requires WeakOrder(lt) && IsSorted(s, lt)
    ensures IsSorted(Insert(s, x, lt), lt)
  {
    if s == [] {
    } else if !lt(x, s[|s| - 1]) {
      forall i | 0 <= i < |s| ensures !lt(x, s[i]) {
        assert i < |s| - 1 ==> !lt(s[|s| - 1], s[i]);
      }
      AppendSorted(s, x, lt);
    } else {
      var n := |s| - 1;
      var p := Insert(s[..n], x, lt);
      InsertSorted(s[..n], x, lt);
      InsertContents(s[..n], x, lt);
      forall i | 0 <= i < |p| ensures !lt(s[n], p[i]) {
        assert p[i] in multiset(p);
        if p[i] != x {
          assert p[i] in s[..n];
        }
      }
      AppendSorted(p, s[n], lt);
    }
  }

  /** The result is in order and has the same elements as often. */
  lemma {:induction false} SortSorts<T(!new)>(s: seq<T>, lt: (T, T) -> bool)
    requires WeakOrder(lt)
    ensures IsSorted(Sort(s, lt), lt)
    ensures multiset(Sort(s, lt)) == multiset(s)
    ensures |Sort(s, lt)| == |s|
  {
    if s != [] {
      var n := |s| - 1;
      SortSorts(s[..n], lt);
      InsertSorted(Sort(s[..n], lt), s[n], lt);
      InsertContents(Sort(s[..n], lt), s[n], lt);
      Split(s);
    }
  }

  /** Sorting what is in order changes nothing. */
  lemma {:induction false} SortKeeps<T>(s: seq<T>, lt: (T, T) -> bool)
    requires IsSorted(s, lt)
    ensures Sort(s, lt) == s
  {
    if s != [] {
      var n := |s| - 1;
      SortKeeps(s[..n], lt);
      Split(s);
    }
  }

  ghost predicate NoTies<T>(s: seq<T>, lt: (T, T) -> bool) {
    forall x, y :: x in s && y in s && x != y ==> lt(x, y) || lt(y, x)
  }

  lemma LastIsLargest<T>(a: seq<T>, b: seq<T>, lt: (T, T) -> bool)
    requires a != [] && b != []
    requires IsSorted(a, lt) && IsSorted(b, lt)
    requires multiset(a) == multiset(b)
    requires NoTies(a, lt)
    ensures a[|a| - 1] == b[|b| - 1]
  {
    var x, y := a[|a| - 1], b[|b| - 1];
    assert x in multiset(b) && y in multiset(a);
    assert x in b && y in a;
  }

  /** Two ordered sequences with the same elements are equal when different elements never tie. */
  lemma {:induction false} SortedUnique<T>(a: seq<T>, b: seq<T>, lt: (T, T) -> bool)
    requires IsSorted(a, lt) && IsSorted(b, lt)
    requires multiset(a) == multiset(b)
    requires NoTies(a, lt)
    ensures a == b
    decreases |a|
  {
    assert |a| == |multiset(a)| == |multiset(b)| == |b|;
    if a != [] {
      var n := |a| - 1;
      LastIsLargest(a, b, lt);
      Split(a);
      Split(b);
      assert multiset(a[..n]) == multiset(a) - multiset{a[n]};
      assert multiset(b[..n]) == multiset(b) - multiset{b[n]};
      SortedUnique(a[..n], b[..n], lt);
    }
  }

  /** The order in which elements that never tie are given does not matter. */
  lemma SortIgnoresOrder<T(!new)>(a: seq<T>, b: seq<T>, lt: (T, T) -> bool)
    requires WeakOrder(lt)
    requires multiset(a) == multiset(b)
    requires NoTies(a, lt)
    ensures Sort(a, lt) == Sort(b, lt)
  {
    SortSorts(a, lt);
    SortSorts(b, lt);
    forall x | x in Sort(a, lt) ensures x in a {
      assert x in multiset(Sort(a, lt));
    }
    SortedUnique(Sort(a, lt), Sort(b, lt), lt);
  }
}
