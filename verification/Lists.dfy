/** The list algorithms of klpm_list.c as functions on sequences: merge sort and what
    makes it right. The relinking code is proved against these functions elsewhere. */
module Lists {

  /** le is a total preorder on the elements of u. */
  ghost predicate TotalPreorder<X>(u: set<X>, le: (X, X) -> bool) {
    && (forall x, y :: x in u && y in u ==> le(x, y) || le(y, x))
    && (forall x, y, z :: x in u && y in u && z in u && le(x, y) && le(y, z) ==> le(x, z))
  }

  ghost predicate From<X>(s: seq<X>, u: set<X>) { forall i :: 0 <= i < |s| ==> s[i] in u }

  ghost predicate Distinct<X>(s: seq<X>) { forall i, j :: 0 <= i < j < |s| ==> s[i] != s[j] }

  /** The merge takes from the left list on ties. */
  function Merge<X>(a: seq<X>, b: seq<X>, le: (X, X) -> bool): seq<X> {
    if a == [] then b
    else if b == [] then a
    else if le(a[0], b[0]) then [a[0]] + Merge(a[1..], b, le)
    else [b[0]] + Merge(a, b[1..], le)
  }

  function MergeSort<X>(s: seq<X>, le: (X, X) -> bool): seq<X> {
    if |s| <= 1 then s
    else Merge(MergeSort(s[..|s| / 2], le), MergeSort(s[|s| / 2..], le), le)
  }

  ghost predicate Sorted<X>(s: seq<X>, le: (X, X) -> bool) {
    forall i, j :: 0 <= i < j < |s| ==> le(s[i], s[j])
  }

  predicate Equivalent<X>(x: X, y: X, le: (X, X) -> bool) { le(x, y) && le(y, x) }

  /** The elements of s equivalent to k, in order. */
  function Class<X>(s: seq<X>, k: X, le: (X, X) -> bool): seq<X> {
    if s == [] then []
    else (if Equivalent(s[0], k, le) then [s[0]] else []) + Class(s[1..], k, le)
  }

  // ----- permutation

  lemma {:induction false} MergePermutes<X>(a: seq<X>, b: seq<X>, le: (X, X) -> bool)
    ensures multiset(Merge(a, b, le)) == multiset(a) + multiset(b)
    decreases |a| + |b|
  {
    if a != [] && b != [] {
      assert a == [a[0]] + a[1..] && b == [b[0]] + b[1..];
      if le(a[0], b[0]) { MergePermutes(a[1..], b, le); } else { MergePermutes(a, b[1..], le); }
    }
  }

  lemma {:induction false} MergeSortPermutes<X>(s: seq<X>, le: (X, X) -> bool)
    ensures multiset(MergeSort(s, le)) == multiset(s)
    ensures |MergeSort(s, le)| == |s|
    decreases |s|
  {
    if |s| > 1 {
      var l, r := s[..|s| / 2], s[|s| / 2..];
      assert s == l + r;
      MergeSortPermutes(l, le);
      MergeSortPermutes(r, le);
      MergePermutes(MergeSort(l, le), MergeSort(r, le), le);
    }
    assert |MergeSort(s, le)| == |multiset(MergeSort(s, le))|;
  }

  // ----- order

  lemma {:induction false} MergeSorted<X>(a: seq<X>, b: seq<X>, le: (X, X) -> bool, u: set<X>)
    requires TotalPreorder(u, le) && From(a, u) && From(b, u) && Sorted(a, le) && Sorted(b, le)
    ensures Sorted(Merge(a, b, le), le)
    decreases |a| + |b|
  {
    if a != [] && b != [] {
      if le(a[0], b[0]) {
        MergeSorted(a[1..], b, le, u);
        ConsSorted(a[0], a[1..], b, le, u);
      } else {
        MergeSorted(a, b[1..], le, u);
        ConsSorted(b[0], a, b[1..], le, u);
      }
    }
  }

  lemma ConsSorted<X>(x: X, a: seq<X>, b: seq<X>, le: (X, X) -> bool, u: set<X>)
    requires TotalPreorder(u, le) && x in u && From(a, u) && From(b, u)
    requires Sorted(a, le) && Sorted(b, le) && Sorted(Merge(a, b, le), le)
    requires (a != [] ==> le(x, a[0])) && (b != [] ==> le(x, b[0]))
    ensures Sorted([x] + Merge(a, b, le), le)
  {
    var m := Merge(a, b, le);
    forall j | 0 <= j < |m|
      ensures le(x, m[j])
    {
      MergePermutes(a, b, le);
      assert m[j] in multiset(m);
      assert m[j] in multiset(a) || m[j] in multiset(b);
      if m[j] in a { var k :| 0 <= k < |a| && a[k] == m[j]; }
      else { var k :| 0 <= k < |b| && b[k] == m[j]; }
    }
  }

  lemma {:induction false} MergeSortSorted<X>(s: seq<X>, le: (X, X) -> bool, u: set<X>)
    requires TotalPreorder(u, le) && From(s, u)
    ensures Sorted(MergeSort(s, le), le)
    decreases |s|
  {
    if |s| > 1 {
      var l, r := s[..|s| / 2], s[|s| / 2..];
      MergeSortSorted(l, le, u);
      MergeSortSorted(r, le, u);
      MergeSortFrom(l, le, u);
      MergeSortFrom(r, le, u);
      MergeSorted(MergeSort(l, le), MergeSort(r, le), le, u);
    }
  }

  // ----- stability

  lemma {:induction false} ClassConcat<X>(a: seq<X>, b: seq<X>, k: X, le: (X, X) -> bool)
    ensures Class(a + b, k, le) == Class(a, k, le) + Class(b, k, le)
    decreases |a|
  {
    if a == [] {
      assert a + b == b;
    } else {
      assert (a + b)[1..] == a[1..] + b;
      ClassConcat(a[1..], b, k, le);
    }
  }

  lemma {:induction false} ClassEmpty<X>(a: seq<X>, k: X, le: (X, X) -> bool)
    requires forall x :: x in a ==> !Equivalent(x, k, le)
    ensures Class(a, k, le) == []
    decreases |a|
  {
    if a != [] { ClassEmpty(a[1..], k, le); }
  }

  lemma {:induction false} MergeStable<X>(a: seq<X>, b: seq<X>, k: X, le: (X, X) -> bool, u: set<X>)
    requires TotalPreorder(u, le) && From(a, u) && From(b, u) && k in u && Sorted(a, le) && Sorted(b, le)
    ensures Class(Merge(a, b, le), k, le) == Class(a, k, le) + Class(b, k, le)
    decreases |a| + |b|
  {
    if a != [] && b != [] {
      if le(a[0], b[0]) {
        MergeStable(a[1..], b, k, le, u);
        assert Merge(a, b, le)[1..] == Merge(a[1..], b, le);
      } else {
        MergeStable(a, b[1..], k, le, u);
        assert Merge(a, b, le)[1..] == Merge(a, b[1..], le);
        if Equivalent(b[0], k, le) { ClassEmpty(a, k, le); }
      }
    }
  }

  lemma {:induction false} MergeSortStable<X>(s: seq<X>, k: X, le: (X, X) -> bool, u: set<X>)
    requires TotalPreorder(u, le) && From(s, u) && k in u
    ensures Class(MergeSort(s, le), k, le) == Class(s, k, le)
    decreases |s|
  {
    if |s| > 1 {
      var l, r := s[..|s| / 2], s[|s| / 2..];
      assert s == l + r;
      MergeSortStable(l, k, le, u);
      MergeSortStable(r, k, le, u);
      MergeSortSorted(l, le, u);
      MergeSortSorted(r, le, u);
      MergeSortFrom(l, le, u);
      MergeSortFrom(r, le, u);
      MergeStable(MergeSort(l, le), MergeSort(r, le), k, le, u);
      ClassConcat(l, r, k, le);
    }
  }

  lemma MergeSortFrom<X>(s: seq<X>, le: (X, X) -> bool, u: set<X>)
    requires From(s, u)
    ensures From(MergeSort(s, le), u)
  {
    MergeSortPermutes(s, le);
    var m := MergeSort(s, le);
    forall i | 0 <= i < |m|
      ensures m[i] in u
    {
      assert m[i] in multiset(m);
      assert m[i] in s;
    }
  }

  /** Merge sort gives the same elements, in order, and keeps every class of equal
      elements in its original order. */
  lemma MergeSortIsStableSort<X>(s: seq<X>, le: (X, X) -> bool)
    requires TotalPreorder((set x | x in s), le)
    ensures Sorted(MergeSort(s, le), le)
    ensures multiset(MergeSort(s, le)) == multiset(s)
    ensures forall k :: k in s ==> Class(MergeSort(s, le), k, le) == Class(s, k, le)
  {
    var u := set x | x in s;
    MergeSortSorted(s, le, u);
    MergeSortPermutes(s, le);
    forall k | k in s
      ensures Class(MergeSort(s, le), k, le) == Class(s, k, le)
    {
      MergeSortStable(s, k, le, u);
    }
  }
}
