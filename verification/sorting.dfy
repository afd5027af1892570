/** Go's `sort.Slice` and `sort.Strings`: callers may rely on a sorted permutation and on nothing else. */
module Sorting {

  ghost predicate Comparator<T(!new)>(less: (T, T) -> bool) {
    && (forall x :: !less(x, x))
    && (forall x, y, z :: less(x, y) && less(y, z) ==> less(x, z))
  }

  ghost predicate Sorted<T>(s: seq<T>, less: (T, T) -> bool) {
    forall i, j :: 0 <= i < j < |s| ==> !less(s[j], s[i])
  }

  /** Insertion of `x` at `k` keeps a sorted sequence sorted when everything before `k` may stay before `x`. */
  lemma InsertKeepsSorted<T(!new)>(s: seq<T>, k: nat, x: T, less: (T, T) -> bool)
    requires Comparator(less) && Sorted(s, less) && k <= |s|
    requires forall i :: 0 <= i < k ==> !less(x, s[i])
    requires k < |s| ==> less(x, s[k])
    ensures Sorted(s[..k] + [x] + s[k..], less)
    ensures multiset(s[..k] + [x] + s[k..]) == multiset(s) + multiset{x}
  {
    assert s == s[..k] + s[k..];
    forall j | k <= j < |s| ensures !less(s[j], x) {
      assert !less(s[j], s[k]);
    }
  }

  method SortSlice<T(!new)>(s: seq<T>, less: (T, T) -> bool) returns (sorted: seq<T>)
    requires Comparator(less)
    ensures Sorted(sorted, less)
    ensures multiset(sorted) == multiset(s)
  {
    sorted := [];
    for i := 0 to |s|
      invariant Sorted(sorted, less)
      invariant multiset(sorted) == multiset(s[..i])
    {
      var k := 0;
      while k < |sorted| && !less(s[i], sorted[k])
        invariant k <= |sorted|
        invariant forall j :: 0 <= j < k ==> !less(s[i], sorted[j])
      {
        k := k + 1;
      }
      InsertKeepsSorted(sorted, k, s[i], less);
      sorted := sorted[..k] + [s[i]] + sorted[k..];
      assert s[..i + 1] == s[..i] + [s[i]];
    }
    assert s[..|s|] == s;
  }

  ghost predicate Distinct<T>(s: seq<T>) {
    forall i, j :: 0 <= i < j < |s| ==> s[i] != s[j]
  }

  lemma TwiceInMultiset<T>(s: seq<T>, i: nat, j: nat)
    requires i < j < |s| && s[i] == s[j]
    ensures multiset(s)[s[i]] >= 2
  {
    assert s == s[..j] + [s[j]] + s[j + 1..];
    assert s[i] in s[..j];
  }

  lemma {:induction false} OnceEach<T>(s: seq<T>, x: T)
    requires Distinct(s)
    ensures multiset(s)[x] <= 1
  {
    if s != [] {
      assert s == s[..|s| - 1] + [s[|s| - 1]];
      OnceEach(s[..|s| - 1], x);
    }
  }

  lemma PermutationKeepsDistinct<T>(s: seq<T>, sorted: seq<T>)
    requires Distinct(s) && multiset(sorted) == multiset(s)
    ensures Distinct(sorted)
    ensures forall x :: x in sorted <==> x in s
  {
    forall x ensures x in sorted <==> x in s { assert x in multiset(sorted) <==> x in multiset(s); }
    forall i, j | 0 <= i < j < |sorted| ensures sorted[i] != sorted[j] {
      if sorted[i] == sorted[j] {
        TwiceInMultiset(sorted, i, j);
        OnceEach(s, sorted[i]);
      }
    }
  }

  lemma MultisetElement<T>(s: seq<T>, x: T) returns (i: nat)
    requires x in multiset(s)
    ensures i < |s| && s[i] == x
  {
    i :| i < |s| && s[i] == x;
  }

  lemma MultisetTail<T>(s: seq<T>)
    requires s != []
    ensures multiset(s[1..]) == multiset(s) - multiset{s[0]}
  {
    assert s == [s[0]] + s[1..];
  }

  lemma SameParts<T>(a: seq<T>, b: seq<T>)
    requires a != [] && b != [] && a[0] == b[0] && a[1..] == b[1..]
    ensures a == b
  {
    assert a == [a[0]] + a[1..] && b == [b[0]] + b[1..];
  }

  lemma SortedTail<T>(s: seq<T>, less: (T, T) -> bool)
    requires s != [] && Sorted(s, less)
    ensures Sorted(s[1..], less)
  {
  }

  lemma SameFirst<T(!new)>(a: seq<T>, b: seq<T>, less: (T, T) -> bool)
    requires Comparator(less) && Sorted(a, less) && Sorted(b, less) && multiset(a) == multiset(b)
    requires forall x, y :: x in a && y in a ==> x == y || less(x, y) || less(y, x)
    requires a != []
    ensures b != [] && a[0] == b[0]
  {
    assert a[0] in multiset(b);
    var j := MultisetElement(b, a[0]);
    assert b[0] in multiset(a);
    var i := MultisetElement(a, b[0]);
    assert !less(b[0], a[0]) && !less(a[0], b[0]);
  }

  /** Two sorted permutations of one sequence agree when distinct elements are always ordered. */
  lemma {:induction false} SortedUnique<T(!new)>(a: seq<T>, b: seq<T>, less: (T, T) -> bool)
    requires Comparator(less) && Sorted(a, less) && Sorted(b, less) && multiset(a) == multiset(b)
    requires forall x, y :: x in a && y in a ==> x == y || less(x, y) || less(y, x)
    ensures a == b
  {
    if a == [] {
      assert |multiset(a)| == 0 && |multiset(b)| == |b|;
    } else {
      SameFirst(a, b, less);
      MultisetTail(a);
      MultisetTail(b);
      SortedTail(a, less);
      SortedTail(b, less);
      forall x | x in a[1..] ensures x in a {}
      hide *;
      SortedUnique(a[1..], b[1..], less);
      SameParts(a, b);
    }
  }
}
