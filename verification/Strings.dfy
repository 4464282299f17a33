/** Python's order on strings. */
module Strings {
  import opened Sorting

  /** `a < b`, by code points. */
  predicate Less(a: string, b: string) {
    if b == [] then false
    else if a == [] then true
    else a[0] < b[0] || (a[0] == b[0] && Less(a[1..], b[1..]))
  }

  /** The strings agree before place `i`, and there `a` has ended or has the smaller character. */
  predicate LessAt(a: string, b: string, i: nat) {
    && i <= |a| && i < |b| && a[..i] == b[..i]
    && (i == |a| || a[i] < b[i])
  }

  /** The order is decided at the first place where the strings differ. */
  lemma LessExactly(a: string, b: string)
    ensures Less(a, b) <==> exists i :: LessAt(a, b, i)
  {
    if Less(a, b) {
      var i := LessSomewhere(a, b);
    }
    if i :| LessAt(a, b, i) {
      LessFrom(a, b, i);
    }
  }

  lemma {:induction false} LessSomewhere(a: string, b: string) returns (i: nat)
    requires Less(a, b)
    ensures LessAt(a, b, i)
    decreases |a|
  {
    if a == [] || a[0] < b[0] {
      i := 0;
    } else {
      var j := LessSomewhere(a[1..], b[1..]);
      i := j + 1;
      assert a[..i] == [a[0]] + a[1..][..j] && b[..i] == [b[0]] + b[1..][..j];
    }
  }

  lemma {:induction false} LessFrom(a: string, b: string, i: nat)
    requires LessAt(a, b, i)
    ensures Less(a, b)
    decreases i
  {
    if i > 0 {
      assert a[0] == a[..i][0] && b[0] == b[..i][0];
      assert a[1..][..i - 1] == a[..i][1..] && b[1..][..i - 1] == b[..i][1..];
      LessFrom(a[1..], b[1..], i - 1);
    }
  }

  lemma {:induction false} LessOrEqualOrGreater(a: string, b: string)
    ensures a == b || Less(a, b) || Less(b, a)
    ensures !(Less(a, b) && Less(b, a))
    ensures !Less(a, a)
    decreases |a|
  {
    if a != [] {
      LessOrEqualOrGreater(a[1..], a[1..]);
      if b != [] {
        LessOrEqualOrGreater(a[1..], b[1..]);
        if a[0] == b[0] && a[1..] == b[1..] {
          assert a == [a[0]] + a[1..] && b == [b[0]] + b[1..];
        }
      }
    }
  }

  lemma {:induction false} LessTransitive(a: string, b: string, c: string)
    requires Less(a, b) && Less(b, c)
    ensures Less(a, c)
    decreases |a|
  {
    if a != [] && a[0] == b[0] == c[0] {
      LessTransitive(a[1..], b[1..], c[1..]);
    }
  }

  lemma LessIsWeakOrder()
    ensures WeakOrder(Less)
  {
    forall x, y, z | !Less(x, y) && !Less(y, z) ensures !Less(x, z) {
      LessOrEqualOrGreater(x, y);
      LessOrEqualOrGreater(y, z);
      LessOrEqualOrGreater(x, z);
      if Less(y, x) && Less(z, y) {
        LessTransitive(z, y, x);
      }
    }
    forall x, y | Less(x, y) ensures !Less(y, x) {
      LessOrEqualOrGreater(x, y);
    }
  }

  ghost predicate Ascending(xs: seq<string>) {
    forall i, j :: 0 <= i < j < |xs| ==> Less(xs[i], xs[j])
  }

  predicate NoDuplicates<T(==)>(xs: seq<T>) {
    forall i, j :: 0 <= i < j < |xs| ==> xs[i] != xs[j]
  }

  lemma SortAscends(xs: seq<string>)
    requires NoDuplicates(xs)
    ensures Ascending(Sort(xs, Less))
    ensures forall x :: x in Sort(xs, Less) <==> x in xs
  {
    LessIsWeakOrder();
    SortSorts(xs, Less);
    var s := Sort(xs, Less);
    forall x ensures x in s <==> x in xs {
      assert x in multiset(s) <==> x in multiset(xs);
    }
    SameMultisetNoDuplicates(xs, s);
    forall i, j | 0 <= i < j < |s| ensures Less(s[i], s[j]) {
      LessOrEqualOrGreater(s[i], s[j]);
    }
  }

  lemma {:induction false} OccursOnce<T>(xs: seq<T>, x: T)
    requires NoDuplicates(xs)
    ensures multiset(xs)[x] <= 1
  {
    if xs != [] {
      var n := |xs| - 1;
      OccursOnce(xs[..n], x);
      Split(xs);
      assert xs[n] !in xs[..n];
    }
  }

  lemma SameMultisetNoDuplicates<T>(xs: seq<T>, ys: seq<T>)
    requires NoDuplicates(xs) && multiset(xs) == multiset(ys)
    ensures NoDuplicates(ys)
  {
    forall i, j | 0 <= i < j < |ys| ensures ys[i] != ys[j] {
      if ys[i] == ys[j] {
        assert ys == ys[..i] + [ys[i]] + ys[i + 1..j] + [ys[j]] + ys[j + 1..];
        OccursOnce(xs, ys[i]);
      }
    }
  }

  /** `sorted` of a set. */
  method SortedElements(s: set<string>) returns (xs: seq<string>)
    ensures Ascending(xs)
    ensures forall x :: x in xs <==> x in s
  {
    var rest := s;
    xs := [];
    while rest != {}
      invariant rest <= s
      invariant forall x :: x in xs <==> x in s - rest
      invariant NoDuplicates(xs)
    {
      var x :| x in rest;
      rest := rest - {x};
      xs := xs + [x];
    }
    SortAscends(xs);
    xs := Sort(xs, Less);
  }
}
