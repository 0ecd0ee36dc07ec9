/** List difference and unordered comparison (klpm_list.c), up to the equivalence of a
    comparison function. */
module ListDiff {
  import opened Lists

  /** cmp orders the elements of u: swapping negates its sign and <= 0 is transitive. */
  ghost predicate Comparison<X>(u: set<X>, cmp: (X, X) -> int) {
    && (forall x, y :: x in u && y in u && cmp(x, y) <= 0 ==> cmp(y, x) >= 0)
    && (forall x, y :: x in u && y in u && cmp(x, y) >= 0 ==> cmp(y, x) <= 0)
    && (forall x, y, z :: x in u && y in u && z in u && cmp(x, y) <= 0 && cmp(y, z) <= 0 ==> cmp(x, z) <= 0)
  }

  ghost function Elements<X>(a: seq<X>, b: seq<X>): set<X> { (set x | x in a) + (set x | x in b) }

  function AtMost<X>(cmp: (X, X) -> int): (X, X) -> bool { (x: X, y: X) => cmp(x, y) <= 0 }

  lemma ComparisonIsTotal<X>(u: set<X>, cmp: (X, X) -> int)
    requires Comparison(u, cmp)
    ensures TotalPreorder(u, AtMost(cmp))
  {
  }

  /** What a merge over two sorted lists leaves of the first. */
  function Diff<X>(l: seq<X>, r: seq<X>, cmp: (X, X) -> int): seq<X>
    decreases |l| + |r|
  {
    if l == [] then []
    else if r == [] then l
    else if cmp(l[0], r[0]) < 0 then [l[0]] + Diff(l[1..], r, cmp)
    else if cmp(l[0], r[0]) > 0 then Diff(l, r[1..], cmp)
    else Diff(l[1..], r[1..], cmp)
  }

  /** s without its first n elements, or nothing. */
  function Drop<X>(s: seq<X>, n: nat): seq<X> { if n <= |s| then s[n..] else [] }

  lemma {:induction false} DiffFromLeft<X>(l: seq<X>, r: seq<X>, cmp: (X, X) -> int, u: set<X>)
    requires From(l, u)
    ensures From(Diff(l, r, cmp), u)
    ensures forall x :: x in Diff(l, r, cmp) ==> x in l
    decreases |l| + |r|
  {
    if l != [] && r != [] {
      if cmp(l[0], r[0]) < 0 { DiffFromLeft(l[1..], r, cmp, u); }
      else if cmp(l[0], r[0]) > 0 { DiffFromLeft(l, r[1..], cmp, u); }
      else { DiffFromLeft(l[1..], r[1..], cmp, u); }
    }
  }

  /** Per class of equal elements, the difference drops as many of the left list's first
      elements as the right list has: a multiset difference by key. */
  lemma {:induction false} DiffPerClass<X>(l: seq<X>, r: seq<X>, k: X, cmp: (X, X) -> int, u: set<X>)
    requires Comparison(u, cmp) && From(l, u) && From(r, u) && k in u
    requires Sorted(l, AtMost(cmp)) && Sorted(r, AtMost(cmp))
    ensures Class(Diff(l, r, cmp), k, AtMost(cmp)) == Drop(Class(l, k, AtMost(cmp)), |Class(r, k, AtMost(cmp))|)
    decreases |l| + |r|
  {
    if l != [] && r != [] {
      var le := AtMost(cmp);
      if cmp(l[0], r[0]) < 0 {
        DiffPerClass(l[1..], r, k, cmp, u);
        if Equivalent(l[0], k, le) { AboveClass(l[0], r, k, cmp, u); }
      } else if cmp(l[0], r[0]) > 0 {
        DiffPerClass(l, r[1..], k, cmp, u);
        if Equivalent(r[0], k, le) { AboveClass(r[0], l, k, cmp, u); }
      } else {
        DiffPerClass(l[1..], r[1..], k, cmp, u);
      }
    }
  }

  /** Elements all strictly above one equivalent to k contain none of k's class. */
  lemma AboveClass<X>(x: X, s: seq<X>, k: X, cmp: (X, X) -> int, u: set<X>)
    requires Comparison(u, cmp) && From(s, u) && x in u && k in u && Sorted(s, AtMost(cmp))
    requires s != [] && (cmp(x, s[0]) < 0 || cmp(s[0], x) > 0) && Equivalent(x, k, AtMost(cmp))
    ensures Class(s, k, AtMost(cmp)) == []
  {
    forall y | y in s
      ensures !Equivalent(y, k, AtMost(cmp))
    {
      var i :| 0 <= i < |s| && s[i] == y;
      assert cmp(s[0], y) <= 0 || i == 0;
    }
    ClassEmpty(s, k, AtMost(cmp));
  }

  lemma {:induction false} DiffSortedOrder<X>(l: seq<X>, r: seq<X>, cmp: (X, X) -> int, u: set<X>)
    requires Comparison(u, cmp) && From(l, u) && Sorted(l, AtMost(cmp))
    ensures Sorted(Diff(l, r, cmp), AtMost(cmp))
    decreases |l| + |r|
  {
    if l != [] && r != [] {
      if cmp(l[0], r[0]) < 0 {
        DiffSortedOrder(l[1..], r, cmp, u);
        DiffFromLeft(l[1..], r, cmp, u);
        var d := Diff(l[1..], r, cmp);
        forall j | 0 <= j < |d|
          ensures cmp(l[0], d[j]) <= 0
        {
          assert d[j] in l[1..];
          var i :| 0 <= i < |l| - 1 && l[1..][i] == d[j];
          assert AtMost(cmp)(l[0], l[i + 1]);
        }
      } else if cmp(l[0], r[0]) > 0 { DiffSortedOrder(l, r[1..], cmp, u); }
      else { DiffSortedOrder(l[1..], r[1..], cmp, u); }
    }
  }

  lemma DiffStep<X>(a: seq<X>, b: seq<X>, i: nat, j: nat, cmp: (X, X) -> int)
    requires i < |a| && j < |b|
    ensures Diff(a[i..], b[j..], cmp) ==
            if cmp(a[i], b[j]) < 0 then [a[i]] + Diff(a[i + 1..], b[j..], cmp)
            else if cmp(a[i], b[j]) > 0 then Diff(a[i..], b[j + 1..], cmp)
            else Diff(a[i + 1..], b[j + 1..], cmp)
  {
    assert a[i..][1..] == a[i + 1..] && b[j..][1..] == b[j + 1..];
  }

  lemma DiffEnds<X>(a: seq<X>, b: seq<X>, i: nat, j: nat, cmp: (X, X) -> int)
    requires i <= |a| && j <= |b|
    ensures i == |a| ==> Diff(a[i..], b[j..], cmp) == []
    ensures j == |b| ==> Diff(a[i..], b[j..], cmp) == a[i..]
  {
  }

  function Negated<X>(cmp: (X, X) -> int): (X, X) -> int { (x: X, y: X) => -cmp(y, x) }

  /** klpm_list_diff_sorted, both output lists wanted. */
  method DiffSorted<X>(left: seq<X>, right: seq<X>, cmp: (X, X) -> int)
    returns (onlyleft: seq<X>, onlyright: seq<X>)
    ensures onlyleft == Diff(left, right, cmp)
    ensures onlyright == Diff(right, left, Negated(cmp))
  {
    hide Diff;
    onlyleft, onlyright := [], [];
    var l, r := 0, 0;
    while l < |left| && r < |right|
      invariant 0 <= l <= |left| && 0 <= r <= |right|
      invariant left[0..] == left && right[0..] == right
      invariant Diff(left, right, cmp) == onlyleft + Diff(left[l..], right[r..], cmp)
      invariant Diff(right, left, Negated(cmp)) == onlyright + Diff(right[r..], left[l..], Negated(cmp))
      decreases |left| - l + |right| - r
    {
      var c := cmp(left[l], right[r]);
      DiffStep(left, right, l, r, cmp);
      DiffStep(right, left, r, l, Negated(cmp));
      if c < 0 {
        onlyleft := onlyleft + [left[l]];
        l := l + 1;
      } else if c > 0 {
        onlyright := onlyright + [right[r]];
        r := r + 1;
      } else {
        l := l + 1;
        r := r + 1;
      }
    }
    DiffEnds(left, right, l, r, cmp);
    DiffEnds(right, left, r, l, Negated(cmp));
    while l < |left|
      invariant 0 <= l <= |left| && (l < |left| ==> r == |right|)
      invariant onlyleft + left[l..] == Diff(left, right, cmp)
    {
      onlyleft := onlyleft + [left[l]];
      l := l + 1;
    }
    while r < |right|
      invariant 0 <= r <= |right|
      invariant onlyright + right[r..] == Diff(right, left, Negated(cmp))
    {
      onlyright := onlyright + [right[r]];
      r := r + 1;
    }
  }

  /** klpm_list_diff: sorts both lists, then takes the difference. */
  method Difference<X>(lhs: seq<X>, rhs: seq<X>, cmp: (X, X) -> int) returns (ret: seq<X>)
    requires Comparison(Elements(lhs, rhs), cmp)
    ensures Sorted(ret, AtMost(cmp))
    ensures forall k :: k in Elements(lhs, rhs) ==>
              Class(ret, k, AtMost(cmp)) == Drop(Class(lhs, k, AtMost(cmp)), |Class(rhs, k, AtMost(cmp))|)
    ensures forall x :: x in ret ==> x in lhs
  {
    ghost var u := Elements(lhs, rhs);
    ComparisonIsTotal(u, cmp);
    var left, right := MergeSort(lhs, AtMost(cmp)), MergeSort(rhs, AtMost(cmp));
    MergeSortSorted(lhs, AtMost(cmp), u);
    MergeSortSorted(rhs, AtMost(cmp), u);
    MergeSortFrom(lhs, AtMost(cmp), u);
    MergeSortFrom(rhs, AtMost(cmp), u);
    var onlyleft, onlyright := DiffSorted(left, right, cmp);
    ret := onlyleft;
    DiffSortedOrder(left, right, cmp, u);
    forall k | k in Elements(lhs, rhs)
      ensures Class(ret, k, AtMost(cmp)) == Drop(Class(lhs, k, AtMost(cmp)), |Class(rhs, k, AtMost(cmp))|)
    {
      MergeSortStable(lhs, k, AtMost(cmp), u);
      MergeSortStable(rhs, k, AtMost(cmp), u);
      DiffPerClass(left, right, k, cmp, u);
    }
    DiffFromLeft(left, right, cmp, u);
    MergeSortPermutes(lhs, AtMost(cmp));
    forall x | x in ret
      ensures x in lhs
    {
      assert x in multiset(left);
    }
  }

  // ----- unordered comparison

  ghost predicate Equivalence<X>(u: set<X>, eq: (X, X) -> bool) {
    && (forall x :: x in u ==> eq(x, x))
    && (forall x, y :: x in u && y in u && eq(x, y) ==> eq(y, x))
    && (forall x, y, z :: x in u && y in u && z in u && eq(x, y) && eq(y, z) ==> eq(x, z))
  }

  /** How many elements of s are equivalent to k. */
  function Count<X>(s: seq<X>, k: X, eq: (X, X) -> bool): nat {
    if s == [] then 0 else (if eq(s[0], k) then 1 else 0) + Count(s[1..], k, eq)
  }

  /** The two lists hold equally many elements of every class. */
  ghost predicate SameUpTo<X>(a: seq<X>, b: seq<X>, eq: (X, X) -> bool) {
    forall k :: k in Elements(a, b) ==> Count(a, k, eq) == Count(b, k, eq)
  }

  lemma {:induction false} CountConcat<X>(a: seq<X>, b: seq<X>, k: X, eq: (X, X) -> bool)
    ensures Count(a + b, k, eq) == Count(a, k, eq) + Count(b, k, eq)
    decreases |a|
  {
    if a == [] {
      assert a + b == b;
    } else {
      assert (a + b)[1..] == a[1..] + b;
      CountConcat(a[1..], b, k, eq);
    }
  }

  lemma {:induction false} CountMember<X>(a: seq<X>, k: X, eq: (X, X) -> bool)
    requires k in a && eq(k, k)
    ensures Count(a, k, eq) > 0
    decreases |a|
  {
    if a[0] != k { CountMember(a[1..], k, eq); }
  }

  lemma {:induction false} CountNone<X>(a: seq<X>, k: X, eq: (X, X) -> bool)
    requires forall i :: 0 <= i < |a| ==> !eq(a[i], k)
    ensures Count(a, k, eq) == 0
    decreases |a|
  {
    if a != [] { CountNone(a[1..], k, eq); }
  }

  /** The elements of s whose flag is off. */
  function Unmatched<X>(s: seq<X>, flags: seq<bool>): seq<X>
    requires |s| == |flags|
  {
    if s == [] then [] else (if flags[0] then [] else [s[0]]) + Unmatched(s[1..], flags[1..])
  }

  lemma {:induction false} UnmatchedAll<X>(s: seq<X>, flags: seq<bool>)
    requires |s| == |flags| && forall i :: 0 <= i < |s| ==> !flags[i]
    ensures Unmatched(s, flags) == s
    decreases |s|
  {
    if s != [] { UnmatchedAll(s[1..], flags[1..]); }
  }

  /** Switching on one flag takes one element away. */
  lemma {:induction false} Match<X>(s: seq<X>, flags: seq<bool>, n: nat, k: X, eq: (X, X) -> bool)
    requires |s| == |flags| && n < |s| && !flags[n]
    ensures var t := Unmatched(s, flags[n := true]);
            && |t| + 1 == |Unmatched(s, flags)|
            && Count(t, k, eq) + (if eq(s[n], k) then 1 else 0) == Count(Unmatched(s, flags), k, eq)
    decreases |s|
  {
    var f := flags[n := true];
    if n == 0 {
      assert f[1..] == flags[1..];
    } else {
      assert f[1..] == flags[1..][n - 1 := true];
      Match(s[1..], flags[1..], n - 1, k, eq);
    }
    CountCons(s, flags, k, eq);
    CountCons(s, f, k, eq);
  }

  lemma CountCons<X>(s: seq<X>, flags: seq<bool>, k: X, eq: (X, X) -> bool)
    requires |s| == |flags| && s != []
    ensures Count(Unmatched(s, flags), k, eq) ==
            (if !flags[0] && eq(s[0], k) then 1 else 0) + Count(Unmatched(s[1..], flags[1..]), k, eq)
  {
    CountConcat(if flags[0] then [] else [s[0]], Unmatched(s[1..], flags[1..]), k, eq);
  }

  lemma {:induction false} UnmatchedNone<X>(s: seq<X>, flags: seq<bool>, k: X, eq: (X, X) -> bool)
    requires |s| == |flags| && forall i :: 0 <= i < |s| && !flags[i] ==> !eq(s[i], k)
    ensures Count(Unmatched(s, flags), k, eq) == 0
    decreases |s|
  {
    if s != [] {
      UnmatchedNone(s[1..], flags[1..], k, eq);
      CountCons(s, flags, k, eq);
    }
  }

  /** Looks for the first unmatched element equivalent to x. */
  method FindUnmatched<X>(x: X, right: seq<X>, matched: array<bool>, eq: (X, X) -> bool)
    returns (found: bool, n: nat)
    requires matched.Length == |right|
    ensures found ==> n < |right| && !matched[n] && eq(x, right[n])
    ensures !found ==> forall i :: 0 <= i < |right| && !matched[i] ==> !eq(x, right[i])
  {
    n := 0;
    found := false;
    while n < |right|
      invariant 0 <= n <= |right|
      invariant forall i :: 0 <= i < n && !matched[i] ==> !eq(x, right[i])
    {
      if !matched[n] && eq(x, right[n]) {
        return true, n;
      }
      n := n + 1;
    }
  }

  /** klpm_list_cmp_unsorted: yes exactly when the lists agree up to order and equivalence. */
  method CmpUnsorted<X>(left: seq<X>, right: seq<X>, eq: (X, X) -> bool) returns (same: bool)
    requires Equivalence(Elements(left, right), eq)
    ensures same <==> |left| == |right| && SameUpTo(left, right, eq)
  {
    if |left| != |right| {
      return false;
    }
    var p := 0;
    while p < |left| && eq(left[p], right[p])
      invariant 0 <= p <= |left|
      invariant forall i :: 0 <= i < p ==> eq(left[i], right[i])
    {
      p := p + 1;
    }
    PairwisePrefix(left, right, p, eq);
    if p == |left| {
      assert left[..p] == left && right[..p] == right;
      return true;
    }
    same := MatchAll(left[p..], right[p..], eq);
    SuffixDecides(left, right, p, eq);
  }

  /** The greedy matching of the parts that are left after the common prefix. */
  method MatchAll<X>(left: seq<X>, right: seq<X>, eq: (X, X) -> bool) returns (same: bool)
    requires |left| == |right| && Equivalence(Elements(left, right), eq)
    ensures same <==> SameUpTo(left, right, eq)
  {
    var matched := new bool[|right|](_ => false);
    UnmatchedAll(right, matched[..]);
    var i := 0;
    while i < |left|
      invariant 0 <= i <= |left|
      invariant Matched(left, right, matched[..], i, eq)
    {
      var found, n := FindUnmatched(left[i], right, matched, eq);
      if !found {
        NoPartner(left, right, matched[..], i, eq);
        return false;
      }
      Partner(left, right, matched[..], i, n, eq);
      ghost var before := matched[..];
      matched[n] := true;
      assert matched[..] == before[n := true];
      i := i + 1;
    }
    assert left[..i] == left;
    same := true;
  }

  /** The first i elements of left are matched with the flagged elements of right. */
  ghost predicate Matched<X>(left: seq<X>, right: seq<X>, flags: seq<bool>, i: nat, eq: (X, X) -> bool)
    requires i <= |left| == |right| == |flags|
  {
    && |Unmatched(right, flags)| == |right| - i
    && forall k :: k in Elements(left, right) ==>
         Count(right, k, eq) == Count(left[..i], k, eq) + Count(Unmatched(right, flags), k, eq)
  }

  lemma Partner<X>(left: seq<X>, right: seq<X>, flags: seq<bool>, i: nat, n: nat, eq: (X, X) -> bool)
    requires i < |left| == |right| == |flags| && Equivalence(Elements(left, right), eq)
    requires Matched(left, right, flags, i, eq) && n < |right| && !flags[n] && eq(left[i], right[n])
    ensures Matched(left, right, flags[n := true], i + 1, eq)
  {
    forall k | k in Elements(left, right)
      ensures var t := Unmatched(right, flags[n := true]);
              Count(right, k, eq) == Count(left[..i + 1], k, eq) + Count(t, k, eq)
    {
      Match(right, flags, n, k, eq);
      assert left[..i + 1] == left[..i] + [left[i]];
      CountConcat(left[..i], [left[i]], k, eq);
      assert eq(left[i], k) == eq(right[n], k);
    }
    Match(right, flags, n, left[i], eq);
  }

  lemma NoPartner<X>(left: seq<X>, right: seq<X>, flags: seq<bool>, i: nat, eq: (X, X) -> bool)
    requires i < |left| == |right| == |flags| && Equivalence(Elements(left, right), eq)
    requires Matched(left, right, flags, i, eq)
    requires forall n :: 0 <= n < |right| && !flags[n] ==> !eq(left[i], right[n])
    ensures !SameUpTo(left, right, eq)
  {
    UnmatchedNone(right, flags, left[i], eq);
    assert left == left[..i] + left[i..];
    CountConcat(left[..i], left[i..], left[i], eq);
    CountMember(left[i..], left[i], eq);
    assert Count(left, left[i], eq) != Count(right, left[i], eq);
  }

  lemma {:induction false} PairwisePrefix<X>(left: seq<X>, right: seq<X>, p: nat, eq: (X, X) -> bool)
    requires p <= |left| == |right| && Equivalence(Elements(left, right), eq)
    requires forall i :: 0 <= i < p ==> eq(left[i], right[i])
    ensures forall k :: k in Elements(left, right) ==> Count(left[..p], k, eq) == Count(right[..p], k, eq)
    decreases p
  {
    if p > 0 {
      PairwisePrefix(left, right, p - 1, eq);
      forall k | k in Elements(left, right)
        ensures Count(left[..p], k, eq) == Count(right[..p], k, eq)
      {
        assert left[..p] == left[..p - 1] + [left[p - 1]] && right[..p] == right[..p - 1] + [right[p - 1]];
        CountConcat(left[..p - 1], [left[p - 1]], k, eq);
        CountConcat(right[..p - 1], [right[p - 1]], k, eq);
        assert eq(left[p - 1], k) == eq(right[p - 1], k);
      }
    }
  }

  lemma SuffixDecides<X>(left: seq<X>, right: seq<X>, p: nat, eq: (X, X) -> bool)
    requires p <= |left| == |right| && Equivalence(Elements(left, right), eq)
    requires forall k :: k in Elements(left, right) ==> Count(left[..p], k, eq) == Count(right[..p], k, eq)
    ensures SameUpTo(left, right, eq) <==> SameUpTo(left[p..], right[p..], eq)
  {
    forall k | k in Elements(left, right)
      ensures Count(left, k, eq) - Count(right, k, eq) == Count(left[p..], k, eq) - Count(right[p..], k, eq)
    {
      assert left == left[..p] + left[p..] && right == right[..p] + right[p..];
      CountConcat(left[..p], left[p..], k, eq);
      CountConcat(right[..p], right[p..], k, eq);
    }
    forall k | k in Elements(left, right) && SameUpTo(left[p..], right[p..], eq)
      ensures Count(left[p..], k, eq) == Count(right[p..], k, eq)
    {
      SuffixCounts(left, right, p, k, eq);
    }
  }

  /** An element with no equal in either suffix is counted zero times in both. */
  lemma SuffixCounts<X>(left: seq<X>, right: seq<X>, p: nat, k: X, eq: (X, X) -> bool)
    requires p <= |left| == |right| && Equivalence(Elements(left, right), eq)
    requires k in Elements(left, right) && SameUpTo(left[p..], right[p..], eq)
    ensures Count(left[p..], k, eq) == Count(right[p..], k, eq)
  {
    var l, r := left[p..], right[p..];
    if y :| y in l + r && eq(y, k) {
      assert y in left || y in right;
      SameClass(l, y, k, eq, Elements(left, right));
      SameClass(r, y, k, eq, Elements(left, right));
    } else {
      forall i | 0 <= i < |l| ensures !eq(l[i], k) { assert l[i] in l + r; }
      forall i | 0 <= i < |r| ensures !eq(r[i], k) { assert r[i] in l + r; }
      CountNone(l, k, eq);
      CountNone(r, k, eq);
    }
  }

  lemma {:induction false} SameClass<X>(s: seq<X>, y: X, k: X, eq: (X, X) -> bool, u: set<X>)
    requires Equivalence(u, eq) && From(s, u) && y in u && k in u && eq(y, k)
    ensures Count(s, y, eq) == Count(s, k, eq)
    decreases |s|
  {
    if s != [] { SameClass(s[1..], y, k, eq, u); }
  }
}
