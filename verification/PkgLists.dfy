/** klpm_list_diff on packages compared by name, and a package file compared with its database
    entry. */
module PkgLists {
  import opened Text
  import opened Lists
  import opened ListDiff
  import opened Package

  lemma NamesCompare(u: set<Pkg>)
    ensures Comparison(u, PkgCmp)
  {
    hide StrCmp;
    forall x, y | x in u && y in u
      ensures PkgCmp(x, y) == -PkgCmp(y, x)
    {
      StrCmpAntisymmetric(x.name, y.name);
    }
    forall x, y, z | x in u && y in u && z in u && PkgCmp(x, y) <= 0 && PkgCmp(y, z) <= 0
      ensures PkgCmp(x, z) <= 0
    {
      StrCmpTransitive(x.name, y.name, z.name);
    }
  }

  lemma SameName(x: Pkg, y: Pkg)
    ensures Equivalent(x, y, AtMost(PkgCmp)) <==> x.name == y.name
  {
    hide StrCmp;
    StrCmpZero(x.name, y.name);
    StrCmpAntisymmetric(x.name, y.name);
    assert AtMost(PkgCmp)(x, y) <==> PkgCmp(x, y) <= 0;
    assert AtMost(PkgCmp)(y, x) <==> PkgCmp(y, x) <= 0;
  }

  /** The members of the class of k are the members named like k. */
  lemma {:induction false} ClassByName(s: seq<Pkg>, k: Pkg)
    ensures forall x :: x in Class(s, k, AtMost(PkgCmp)) <==> x in s && x.name == k.name
    ensures Class(s, k, AtMost(PkgCmp)) != [] <==> Named(s, k.name)
    decreases |s|
  {
    if s != [] {
      ClassByName(s[1..], k);
      SameName(s[0], k);
      NamedCons(s, k.name);
    }
  }

  lemma NamedCons(s: seq<Pkg>, name: string)
    requires s != []
    ensures Named(s, name) <==> s[0].name == name || Named(s[1..], name)
  {
    if Named(s, name) {
      var i :| 0 <= i < |s| && s[i].name == name;
      if i > 0 { assert s[1..][i - 1].name == name; }
    }
  }

  ghost predicate SmallClasses(s: seq<Pkg>) { forall k :: k in s ==> |Class(s, k, AtMost(PkgCmp))| <= 1 }

  lemma {:induction false} UniqueByClass(s: seq<Pkg>)
    ensures UniqueNames(s) <==> SmallClasses(s)
    decreases |s|
  {
    hide UniqueNames, Named;
    if s == [] {
      assert UniqueNames(s) by { NoNames(); }
    } else {
      var rest := s[1..];
      UniqueByClass(rest);
      UniqueCons(s);
      forall k | k in s
        ensures |Class(s, k, AtMost(PkgCmp))| ==
                |Class(rest, k, AtMost(PkgCmp))| + if s[0].name == k.name then 1 else 0
        ensures Class(rest, k, AtMost(PkgCmp)) != [] <==> Named(rest, k.name)
        ensures k.name == s[0].name || k in rest
      {
        SameName(s[0], k);
        ClassByName(rest, k);
      }
      if SmallClasses(s) {
        assert s[0] in s;
        forall k | k in rest ensures |Class(rest, k, AtMost(PkgCmp))| <= 1 { assert k in s; }
      }
    }
  }

  lemma NoNames()
    ensures UniqueNames([])
  {
  }

  lemma UniqueCons(s: seq<Pkg>)
    requires s != []
    ensures UniqueNames(s) <==> UniqueNames(s[1..]) && !Named(s[1..], s[0].name)
  {
    if UniqueNames(s[1..]) && !Named(s[1..], s[0].name) {
      forall i, j | 0 <= i < j < |s|
        ensures s[i].name != s[j].name
      {
        assert s[1..][j - 1] == s[j];
        if i > 0 { assert s[1..][i - 1] == s[i]; }
      }
    }
  }

  /** Of a list of distinctly named packages, those not named in the other list, by name. */
  method PkgDiff(lhs: seq<Pkg>, rhs: seq<Pkg>) returns (ret: seq<Pkg>)
    requires UniqueNames(lhs)
    ensures forall p :: p in ret <==> p in lhs && !Named(rhs, p.name)
    ensures UniqueNames(ret) && Sorted(ret, AtMost(PkgCmp))
  {
    hide UniqueNames, Named, Class, StrCmp, Comparison, Sorted, Drop;
    NamesCompare(Elements(lhs, rhs));
    ret := Difference(lhs, rhs, PkgCmp);
    UniqueByClass(lhs);
    forall p | p in lhs
      ensures p in ret <==> !Named(rhs, p.name)
    {
      assert p in Elements(lhs, rhs);
      InDifference(lhs, rhs, ret, p);
    }
    assert SmallClasses(lhs);
    forall k | k in ret
      ensures |Class(ret, k, AtMost(PkgCmp))| <= 1
    {
      assert k in Elements(lhs, rhs);
      DropShorter(Class(lhs, k, AtMost(PkgCmp)), |Class(rhs, k, AtMost(PkgCmp))|);
    }
    UniqueByClass(ret);
  }

  lemma DropShorter<X>(s: seq<X>, n: nat)
    ensures |Drop(s, n)| <= |s|
  {
  }

  lemma InDifference(lhs: seq<Pkg>, rhs: seq<Pkg>, ret: seq<Pkg>, p: Pkg)
    requires p in lhs && |Class(lhs, p, AtMost(PkgCmp))| <= 1
    requires Class(ret, p, AtMost(PkgCmp)) == Drop(Class(lhs, p, AtMost(PkgCmp)), |Class(rhs, p, AtMost(PkgCmp))|)
    ensures p in ret <==> !Named(rhs, p.name)
  {
    hide Class, Named;
    ClassByName(lhs, p);
    ClassByName(rhs, p);
    ClassByName(ret, p);
    assert p in Class(lhs, p, AtMost(PkgCmp));
  }

  // ----- a package file against its database entry (sync.c)

  /** dep_not_equal, negated: everything but the description counts. */
  predicate DepEqual(x: Dep, y: Dep) {
    && Sdbm(x.name) == Sdbm(y.name) && x.name == y.name && x.mod == y.mod
    && x.version.None? == y.version.None? && (x.version.Some? && y.version.Some? ==> x.version.value == y.version.value)
  }

  function Undescribed(d: Dep): Dep { d.(desc := None) }

  function AllUndescribed(deps: seq<Dep>): seq<Dep> { seq(|deps|, i requires 0 <= i < |deps| => Undescribed(deps[i])) }

  lemma EqualIsSame(x: Dep, y: Dep)
    ensures DepEqual(x, y) <==> Undescribed(x) == Undescribed(y)
  {
    hide Sdbm;
  }

  lemma {:induction false} CountOf(deps: seq<Dep>, k: Dep)
    ensures Count(deps, k, DepEqual) == multiset(AllUndescribed(deps))[Undescribed(k)]
    decreases |deps|
  {
    hide DepEqual;
    if deps != [] {
      CountOf(deps[1..], k);
      EqualIsSame(deps[0], k);
      assert AllUndescribed(deps) == [Undescribed(deps[0])] + AllUndescribed(deps[1..]);
    }
  }

  lemma SameFieldIff(left: seq<Dep>, right: seq<Dep>)
    ensures SameUpTo(left, right, DepEqual) <==> multiset(AllUndescribed(left)) == multiset(AllUndescribed(right))
  {
    hide DepEqual;
    var a, b := AllUndescribed(left), AllUndescribed(right);
    forall k ensures Count(left, k, DepEqual) == multiset(a)[Undescribed(k)] && Count(right, k, DepEqual) == multiset(b)[Undescribed(k)] {
      CountOf(left, k);
      CountOf(right, k);
    }
    if SameUpTo(left, right, DepEqual) {
      forall d ensures multiset(a)[d] == multiset(b)[d] {
        if d in a {
          var i :| 0 <= i < |a| && a[i] == d;
          assert left[i] in Elements(left, right);
        }
        if d in b {
          var i :| 0 <= i < |b| && b[i] == d;
          assert right[i] in Elements(left, right);
        }
      }
    }
  }

  /** check_pkg_field_matches_db on dependency lists: yes exactly when both lists hold the same
      dependencies, equally often, in any order. */
  method FieldMatches(left: seq<Dep>, right: seq<Dep>) returns (same: bool)
    ensures same <==> multiset(AllUndescribed(left)) == multiset(AllUndescribed(right))
  {
    hide DepEqual, SameUpTo, Undescribed;
    forall x, y ensures DepEqual(x, y) <==> Undescribed(x) == Undescribed(y) { EqualIsSame(x, y); }
    same := CmpUnsorted(left, right, DepEqual);
    SameFieldIff(left, right);
    assert |AllUndescribed(left)| == |multiset(AllUndescribed(left))|;
    assert |AllUndescribed(right)| == |multiset(AllUndescribed(right))|;
  }
}
