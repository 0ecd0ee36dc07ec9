/** When _klpm_sortbydeps (deps.c) puts a needed target first: conditions on the packages, and how
    the order in which the targets are listed decides the rest. */
module DepOrder {
  import opened Text
  import opened Lists
  import opened ListDiff
  import opened Package
  import opened PkgLists
  import opened Dfs
  import opened DfsExact
  import opened DepGraph

  // ----- needs that nothing cuts off

  lemma TailNeeds(s: Scope, c: seq<Pkg>, a: Pkg, i: nat)
    requires NeedChain(s, c, a) && i < |c|
    ensures Needs(s, c[i], a)
  {
    hide InScope, DependsOn;
    var q := c[i..];
    assert NeedPath(s, q) && q[0] == c[i] && q[|q| - 1] == a;
  }

  lemma HeadNeeds(s: Scope, p: seq<Pkg>, k: nat)
    requires NeedPath(s, p) && k < |p|
    ensures Needs(s, p[0], p[k])
  {
    hide InScope, DependsOn;
    var q := p[..k + 1];
    assert NeedPath(s, q) && q[0] == p[0] && q[|q| - 1] == p[k];
  }

  /** What is needed for good is surely needed. */
  lemma ForGoodIsSure(s: Scope, p: seq<Pkg>)
    requires NeedsForGood(s, p)
    ensures SurelyNeeds(s, p[0], p[|p| - 1])
  {
    hide NeedPath, Needs;
    forall c | NeedChain(s, c, p[0])
      ensures NeedsAround(s, p[0], p[|p| - 1], c[..|c| - 1])
    {
      var up := c[..|c| - 1];
      forall k | 0 <= k < |p| ensures p[k] !in up {
        if p[k] in up {
          var i :| 0 <= i < |up| && up[i] == p[k];
          TailNeeds(s, c, p[0], i);
          assert false;
        }
      }
      assert Clear(p, up);
    }
  }

  /** No two packages need each other. */
  ghost predicate NoCircle(s: Scope) { forall a, b :: a != b && Needs(s, a, b) ==> !Needs(s, b, a) }

  /** Without circles every need is a sure one. */
  lemma AcyclicIsSure(s: Scope, a: Pkg, b: Pkg)
    requires NoCircle(s) && Needs(s, a, b)
    ensures SurelyNeeds(s, a, b)
  {
    hide NeedPath, NoCircle;
    forall c | NeedChain(s, c, a)
      ensures NeedsAround(s, a, b, c[..|c| - 1])
    {
      var up := c[..|c| - 1];
      var p :| NeedPath(s, p) && p[0] == a && p[|p| - 1] == b;
      forall k | 0 <= k < |p| ensures p[k] !in up {
        if p[k] in up {
          var i :| 0 <= i < |up| && up[i] == p[k];
          TailNeeds(s, c, a, i);
          HeadNeeds(s, p, k);
          OnlyItself(s, a, p[k]);
          assert false;
        }
      }
      assert Clear(p, up);
    }
  }

  lemma OnlyItself(s: Scope, a: Pkg, b: Pkg)
    requires NoCircle(s) && Needs(s, a, b) && Needs(s, b, a)
    ensures a == b
  {
  }

  // ----- the same targets in another order

  ghost predicate SameScope(s: Scope, t: Scope) {
    s.local == t.local && SameMembers(s.targets, t.targets) && SameMembers(s.ignored, t.ignored)
  }

  lemma SamePath(s: Scope, t: Scope, p: seq<Pkg>)
    requires SameScope(s, t)
    ensures NeedPath(s, p) <==> NeedPath(t, p)
  {
    hide DependsOn, Named;
    forall q ensures InScope(s, q) <==> InScope(t, q) {
      SameNamed(s.targets, t.targets, q.name);
      SameNamed(s.ignored, t.ignored, q.name);
    }
  }

  lemma SameAround(s: Scope, t: Scope, a: Pkg, b: Pkg, c: seq<Pkg>)
    requires SameScope(s, t)
    ensures NeedsAround(s, a, b, c) <==> NeedsAround(t, a, b, c)
  {
    hide NeedPath;
    forall p ensures NeedPath(s, p) <==> NeedPath(t, p) { SamePath(s, t, p); }
  }

  lemma SameSurely(s: Scope, t: Scope, a: Pkg, b: Pkg)
    requires SameScope(s, t)
    ensures SurelyNeeds(s, a, b) <==> SurelyNeeds(t, a, b)
  {
    hide NeedPath, NeedsAround;
    forall c
      ensures NeedChain(s, c, a) <==> NeedChain(t, c, a)
      ensures NeedChain(s, c, a) ==> (NeedsAround(s, a, b, c[..|c| - 1]) <==> NeedsAround(t, a, b, c[..|c| - 1]))
    {
      SamePath(s, t, c);
      if NeedChain(s, c, a) { SameAround(s, t, a, b, c[..|c| - 1]); }
    }
  }

  lemma UniqueIsDistinct(pkgs: seq<Pkg>)
    requires UniqueNames(pkgs)
    ensures Distinct(pkgs)
  {
  }

  /** A list of targets in the order that its own needs ask for. */
  ghost predicate RespectsNeeds(local: seq<Pkg>, targets: seq<Pkg>, ignored: seq<Pkg>, reverse: bool) {
    SurePlaced(Scope(local, targets, ignored), targets, reverse)
  }

  lemma SortedInOrder(local: seq<Pkg>, targets: seq<Pkg>, sorted: seq<Pkg>, ignored: seq<Pkg>, ignored': seq<Pkg>, reverse: bool)
    requires SameMembers(targets, sorted) && SameMembers(ignored, ignored')
    requires SurePlaced(Scope(local, targets, ignored), sorted, reverse)
    ensures RespectsNeeds(local, sorted, ignored', reverse)
  {
    hide SurelyNeeds, Placed;
    var s, t := Scope(local, targets, ignored), Scope(local, sorted, ignored');
    forall a, b | a in sorted && b in sorted && a != b && SurelyNeeds(t, a, b)
      ensures Placed(sorted, b, a, reverse)
    {
      SameSurely(s, t, a, b);
    }
  }

  // ----- a chain of targets listed first

  /** When the first targets are a chain of needs, the last of them is put before another target
      exactly when the chain cuts that target off from it. */
  lemma CutOffTargetIff(s: Scope, outside: seq<Pkg>, g: Graph, order: seq<nat>, r: seq<Pkg>, k: nat, v: nat)
    requires Arranged(s, outside, g, order, r, false) && Distinct(s.targets)
    requires k < |s.targets| && v < |s.targets| && v != k && NeedPath(s, s.targets[..k + 1])
    ensures PkgBefore(r, s.targets[k], s.targets[v]) <==>
            !NeedsAround(s, s.targets[k], s.targets[v], s.targets[..k])
  {
    hide Represents, OutsideList, Distinct, Listed, LedOrder, PostOrder, Led, NeedsAround, ReachesAround, NeedPath, ListedFirst, AllRising, ExactEdges, ValidGraph;
    var vertices := Listed(s.targets, outside, 0);
    RepresentsValid(s, vertices, g);
    VerticesDistinct(s, outside);
    TargetVertex(s, vertices, g, k);
    TargetVertex(s, vertices, g, v);
    var c := FirstNumbers(k);
    FirstTargets(s, vertices, g, k, c);
    CutOffIff(g, k, v, c);
    LeftFirstIff(g, k, v);
    AroundIff(s, vertices, g, k, v, c[..k]);
    SamePlaces(s, order, k, v);
    LedHere(g, order, |s.targets|, k, v);
  }

  function FirstNumbers(k: nat): (c: seq<nat>)
    ensures |c| == k + 1 && forall i :: 0 <= i <= k ==> c[i] == i
  {
    seq(k + 1, i => i)
  }

  lemma FirstTargets(s: Scope, vertices: seq<Pkg>, g: Graph, k: nat, c: seq<nat>)
    requires Represents(s, vertices, g) && AllRising(g) && k < |s.targets| && c == FirstNumbers(k)
    requires NeedPath(s, s.targets[..k + 1])
    ensures ListedFirst(g, c, k) && (forall i :: 0 <= i < k ==> c[..k][i] < |vertices|)
    ensures PkgsAt(vertices, c[..k]) == s.targets[..k]
  {
    hide InScope, DependsOn, FirstNumbers;
    var p := s.targets[..k + 1];
    forall i | 0 <= i < |c| - 1 ensures Edge(g, c[i], c[i + 1]) {
      assert DependsOn(p[i], p[i + 1]);
      assert vertices[i] == p[i] && vertices[i + 1] == p[i + 1];
    }
    assert IsPath(g, c);
    forall i, j, l | 0 <= i < k && i < |g| && 0 <= j < l < |g[i]| ensures g[i][j] < g[i][l] {
      assert Rising(g[i]);
    }
  }

  lemma LedHere(g: Graph, order: seq<nat>, n: nat, u: nat, v: nat)
    requires LedOrder(g, order, n) && u < n && v < n && u != v
    ensures Before(order, u, v) <==> exists c :: LedDown(g, c, u, v)
  {
    hide LedDown;
  }

  lemma SamePlaces(s: Scope, order: seq<nat>, u: nat, v: nat)
    requires Distinct(s.targets) && u < |s.targets| && v < |s.targets|
    requires forall i :: 0 <= i < |order| ==> order[i] < |s.targets|
    ensures PkgBefore(PkgsAt(s.targets, order), s.targets[u], s.targets[v]) <==> Before(order, u, v)
  {
    var r := PkgsAt(s.targets, order);
    if PkgBefore(r, s.targets[u], s.targets[v]) {
      var i, j :| 0 <= i < j < |r| && r[i] == s.targets[u] && r[j] == s.targets[v];
      assert order[i] == u && order[j] == v;
    }
    if Before(order, u, v) {
      var i, j :| 0 <= i < j < |order| && order[i] == u && order[j] == v;
      assert r[i] == s.targets[u] && r[j] == s.targets[v];
    }
  }

  // ----- over all orders in which the targets may be listed

  /** The same scope with its targets listed as t. */
  function Relisted(s: Scope, t: seq<Pkg>): Scope { s.(targets := t) }

  /** Every arrangement of the targets listed as in s has a before b. */
  ghost predicate AllHave(s: Scope, a: Pkg, b: Pkg) {
    forall outside, g, order, r :: Arranged(s, outside, g, order, r, false) ==> PkgBefore(r, a, b)
  }

  ghost predicate Rearrangement(t: seq<Pkg>, targets: seq<Pkg>) { multiset(t) == multiset(targets) }

  /** However the targets are listed, b comes before a. */
  ghost predicate AlwaysFirst(s: Scope, a: Pkg, b: Pkg) {
    forall t :: Rearrangement(t, s.targets) ==> AllHave(Relisted(s, t), b, a)
  }

  /** Listed in some order, a comes before b. */
  ghost predicate CanComeLast(s: Scope, a: Pkg, b: Pkg) {
    exists t :: Rearrangement(t, s.targets) && AllHave(Relisted(s, t), a, b)
  }

  lemma SureNeedAlwaysFirst(s: Scope, a: Pkg, b: Pkg)
    requires UniqueNames(s.local) && Distinct(s.targets) && a in s.targets && b in s.targets && a != b && SurelyNeeds(s, a, b)
    ensures AlwaysFirst(s, a, b)
  {
    hide Arranged, SurelyNeeds, Distinct, PkgBefore;
    forall t | Rearrangement(t, s.targets) ensures AllHave(Relisted(s, t), b, a) {
      RelistedSame(s, t);
      SameSurely(s, Relisted(s, t), a, b);
      forall outside, g, order, r | Arranged(Relisted(s, t), outside, g, order, r, false)
        ensures PkgBefore(r, b, a)
      {
        SureNeedPlaced(Relisted(s, t), outside, g, order, r, false, a, b);
      }
    }
  }

  lemma RelistedSame(s: Scope, t: seq<Pkg>)
    requires Rearrangement(t, s.targets)
    ensures SameScope(s, Relisted(s, t)) && (Distinct(s.targets) ==> Distinct(t))
  {
    forall p ensures p in s.targets <==> p in t {
      assert p in multiset(s.targets) <==> p in multiset(t);
    }
    if Distinct(s.targets) {
      forall i, j | 0 <= i < j < |t|
        ensures t[i] != t[j]
      {
        if t[i] == t[j] {
          CountTwice(t, i, j);
          CountAtMostOne(s.targets, t[i]);
          assert false;
        }
      }
    }
  }

  /** The packages not on c. */
  function Without(pkgs: seq<Pkg>, c: seq<Pkg>): (r: seq<Pkg>)
    ensures forall p :: p in r <==> p in pkgs && p !in c
  {
    if pkgs == [] then []
    else (if pkgs[0] in c then [] else [pkgs[0]]) + Without(pkgs[1..], c)
  }

  lemma {:induction false} WithoutDistinct(pkgs: seq<Pkg>, c: seq<Pkg>)
    requires Distinct(pkgs)
    ensures Distinct(Without(pkgs, c))
    decreases |pkgs|
  {
    if pkgs != [] { WithoutDistinct(pkgs[1..], c); }
  }

  lemma SameCounts(a: seq<Pkg>, b: seq<Pkg>)
    requires Distinct(a) && Distinct(b) && SameMembers(a, b)
    ensures multiset(a) == multiset(b)
  {
    forall p ensures multiset(a)[p] == multiset(b)[p] {
      CountAtMostOne(a, p);
      CountAtMostOne(b, p);
      assert p in multiset(a) <==> p in a;
      assert p in multiset(b) <==> p in b;
    }
  }

  /** The targets with those of c moved to the front. */
  lemma ChainToFront(targets: seq<Pkg>, c: seq<Pkg>) returns (t: seq<Pkg>)
    requires Distinct(targets) && Distinct(c) && forall i :: 0 <= i < |c| ==> c[i] in targets
    ensures Rearrangement(t, targets) && c <= t
  {
    var rest := Without(targets, c);
    t := c + rest;
    WithoutDistinct(targets, c);
    forall i, j | 0 <= i < j < |t| ensures t[i] != t[j] {
      if i < |c| <= j { assert t[j] in rest; }
    }
    SameCounts(t, targets);
  }

  /** If a chain of targets that need a cuts b off from it, then with that chain listed first
      a comes before b. */
  lemma CutOffCanComeLast(s: Scope, a: Pkg, b: Pkg, c: seq<Pkg>)
    requires UniqueNames(s.local) && Distinct(s.targets) && b in s.targets && a != b
    requires NeedChain(s, c, a) && !NeedsAround(s, a, b, c[..|c| - 1]) && forall i :: 0 <= i < |c| ==> c[i] in s.targets
    ensures CanComeLast(s, a, b)
  {
    hide Arranged, NeedPath, NeedsAround, PkgBefore;
    var t := ChainToFront(s.targets, c);
    var s', k := Relisted(s, t), |c| - 1;
    RelistedSame(s, t);
    SamePath(s, s', c);
    SameAround(s, s', a, b, c[..k]);
    assert t[..k + 1] == c && t[..k] == c[..k] && t[k] == a;
    assert b in t;
    var v :| 0 <= v < |t| && t[v] == b;
    forall outside, g, order, r | Arranged(s', outside, g, order, r, false)
      ensures PkgBefore(r, a, b)
    {
      CutOffTargetIff(s', outside, g, order, r, k, v);
    }
    assert AllHave(s', a, b);
  }

  /** With no other installed package in the way: either no chain cuts b off from a and b comes
      first however the targets are listed, or listed in some order a comes first. */
  lemma TargetsOnlyExact(s: Scope, a: Pkg, b: Pkg)
    requires UniqueNames(s.local) && Distinct(s.targets) && a in s.targets && b in s.targets && a != b
    requires forall q :: !IsOutside(s, q)
    ensures if SurelyNeeds(s, a, b) then AlwaysFirst(s, a, b) else CanComeLast(s, a, b)
  {
    hide Distinct, NeedsAround, AlwaysFirst, CanComeLast;
    if SurelyNeeds(s, a, b) {
      SureNeedAlwaysFirst(s, a, b);
    } else {
      var c :| NeedChain(s, c, a) && !NeedsAround(s, a, b, c[..|c| - 1]);
      forall i | 0 <= i < |c| ensures c[i] in s.targets { assert InScope(s, c[i]); }
      CutOffCanComeLast(s, a, b, c);
    }
  }

  // ----- an indirect need through an installed package can come last

  function Plain(name: string): Dep { Dep(name, Any, None, None) }

  function Needing(name: string, deps: seq<Dep>): Pkg { Pkg(name, "1", Explicit, deps, [], [], "") }

  /** The targets t and u need the installed w, which needs the targets u and v. */
  ghost predicate Example(s: Scope, t: Pkg, u: Pkg, v: Pkg, w: Pkg) {
    && t == Needing("t", [Plain("w")]) && u == Needing("u", [Plain("w")]) && v == Needing("v", [])
    && w == Needing("w", [Plain("u"), Plain("v")]) && s == Scope([w], [t, u, v], [])
  }

  lemma PlainNeed(p: Pkg, q: Pkg)
    requires q.provisions == [] && forall i :: 0 <= i < |p.depends| ==> p.depends[i].mod.Any?
    ensures DependsOn(p, q) <==> exists i :: 0 <= i < |p.depends| && p.depends[i].name == q.name
  {
  }

  lemma ExampleNeeds(s: Scope, t: Pkg, u: Pkg, v: Pkg, w: Pkg)
    requires Example(s, t, u, v, w)
    ensures forall p, q :: p in [t, u, v, w] && q in [t, u, v, w] ==>
              (DependsOn(p, q) <==> ((p == t || p == u) && q == w) || (p == w && (q == u || q == v)))
  {
    hide DependsOn;
    forall p, q | p in [t, u, v, w] && q in [t, u, v, w]
      ensures DependsOn(p, q) <==> ((p == t || p == u) && q == w) || (p == w && (q == u || q == v))
    {
      assert t.depends[0].name == "w" && u.depends[0].name == "w" && w.depends[0].name == "u" && w.depends[1].name == "v";
      assert t.name[0] == 't' && u.name[0] == 'u' && v.name[0] == 'v' && w.name[0] == 'w';
      PlainNeed(p, q);
    }
  }

  lemma ExampleListed(s: Scope, outside: seq<Pkg>, t: Pkg, u: Pkg, v: Pkg, w: Pkg)
    requires Example(s, t, u, v, w) && OutsideList(s, outside)
    ensures Listed(s.targets, outside, 0) == [t, u, v, w]
  {
    hide DependsOn, Sorted, AtMost, Listed;
    ExampleNeeds(s, t, u, v, w);
    assert t.name[0] == 't' && u.name[0] == 'u' && v.name[0] == 'v' && w.name[0] == 'w';
    assert IsOutside(s, w);
    OnlyMember(outside, w);
    assert TakenBy([w], t) == [w] && LeftBy([w], t) == [] by { assert [w][..0] == []; }
    ExtendListed(s.targets, outside, 0);
    assert s.targets + [w] == [t, u, v, w];
    NothingLeft([t, u, v, w], 1);
  }

  lemma OnlyMember(pkgs: seq<Pkg>, w: Pkg)
    requires UniqueNames(pkgs) && w in pkgs && forall q :: q in pkgs ==> q == w
    ensures pkgs == [w]
  {
    if |pkgs| > 1 {
      FirstTwo(pkgs);
      assert false;
    }
  }

  lemma FirstTwo(pkgs: seq<Pkg>)
    requires UniqueNames(pkgs) && |pkgs| > 1
    ensures pkgs[0] != pkgs[1] && pkgs[0] in pkgs && pkgs[1] in pkgs
  {
    assert pkgs[0].name != pkgs[1].name;
  }

  lemma {:induction false} NothingLeft(vertices: seq<Pkg>, i: nat)
    requires i <= |vertices|
    ensures Listed(vertices, [], i) == vertices
    decreases |vertices| - i
  {
    hide DependsOn;
    if i < |vertices| {
      NothingLeft(vertices, i + 1);
      assert vertices + [] == vertices;
    }
  }

  lemma ExampleGraph(s: Scope, g: Graph, t: Pkg, u: Pkg, v: Pkg, w: Pkg)
    requires Example(s, t, u, v, w) && GraphOf([t, u, v, w], g)
    ensures g == [[3], [3], [], [1, 2]]
  {
    hide DependsOn, Example, ValidGraph, AllRising;
    ExampleNeeds(s, t, u, v, w);
    var vertices := [t, u, v, w];
    forall a: nat, b: nat | a < 4
      ensures b in g[a] <==> b < 4 && ((a < 2 && b == 3) || (a == 3 && (b == 1 || b == 2)))
    {
      ExampleDiffer(s, t, u, v, w);
      assert Edge(g, a, b) <==> b < |vertices| && DependsOn(vertices[a], vertices[b]);
    }
    forall a | 0 <= a < 4 ensures Rising(g[a]) { Ascending(g, a); }
    OneKid(g[0], 3);
    OneKid(g[1], 3);
    NoKids(g[2]);
    TwoKids(g[3], 1, 2);
  }

  lemma ExampleDiffer(s: Scope, t: Pkg, u: Pkg, v: Pkg, w: Pkg)
    requires Example(s, t, u, v, w)
    ensures t != u && t != v && t != w && u != v && u != w && v != w
  {
    assert t.name[0] == 't' && u.name[0] == 'u' && v.name[0] == 'v' && w.name[0] == 'w';
  }

  lemma Ascending(g: Graph, a: nat)
    requires AllRising(g) && a < |g|
    ensures Rising(g[a])
  {
  }

  lemma NoKids(kids: seq<nat>)
    requires forall k: nat :: k !in kids
    ensures kids == []
  {
    if kids != [] {
      AKid(kids, 0);
      assert false;
    }
  }

  lemma AKid(kids: seq<nat>, i: nat)
    requires i < |kids|
    ensures kids[i] in kids
  {
  }

  lemma OneKid(kids: seq<nat>, x: nat)
    requires Rising(kids) && forall k: nat :: k in kids <==> k == x
    ensures kids == [x]
  {
    assert x in kids;
    AKid(kids, 0);
    if |kids| > 1 {
      AKid(kids, 1);
      assert false;
    }
  }

  lemma TwoKids(kids: seq<nat>, x: nat, y: nat)
    requires x < y && Rising(kids) && forall k: nat :: k in kids <==> k == x || k == y
    ensures kids == [x, y]
  {
    assert x in kids && y in kids;
    AKid(kids, 0);
    AKid(kids, 1);
    if |kids| > 2 {
      AKid(kids, 2);
      assert false;
    }
  }

  lemma ExampleOrdered(g: Graph, order: seq<nat>)
    requires g == [[3], [3], [], [1, 2]] && LedOrder(g, order, 3)
    ensures order == [1, 2, 0]
  {
    hide LedDown, PostOrder;
    assert ValidGraph(g) && PostOrder(g) == [1, 2, 3, 0] by { IndirectNeedCanComeLast(); }
    var p := PostOrder(g);
    assert Before(p, 1, 2) by { assert p[0] == 1 && p[1] == 2; }
    assert Before(p, 2, 0) by { assert p[1] == 2 && p[3] == 0; }
    LeftFirstIff(g, 1, 2);
    LeftFirstIff(g, 2, 0);
    LedHere(g, order, 3, 1, 2);
    LedHere(g, order, 3, 2, 0);
    ThreeInOrder(order);
  }

  lemma ThreeInOrder(order: seq<nat>)
    requires Distinct(order) && (forall k :: 0 <= k < |order| ==> order[k] < 3)
    requires Before(order, 1, 2) && Before(order, 2, 0)
    ensures order == [1, 2, 0]
  {
    var i, j :| 0 <= i < j < |order| && order[i] == 1 && order[j] == 2;
    var j', k :| 0 <= j' < k < |order| && order[j'] == 2 && order[k] == 0;
    assert j == j';
    if |order| > 3 {
      FourBelowThree(order);
      assert false;
    }
  }

  lemma FourBelowThree(order: seq<nat>)
    requires Distinct(order) && |order| > 3
    ensures exists k :: 0 <= k < |order| && order[k] >= 3
  {
    var a, b, c, d := order[0], order[1], order[2], order[3];
    assert a != b && a != c && a != d && b != c && b != d && c != d;
    assert order[if a >= 3 then 0 else if b >= 3 then 1 else if c >= 3 then 2 else 3] >= 3;
  }

  /** u needs v through w and v does not need u, yet the targets always come out as u, v, t. */
  lemma IndirectTargetLast(s: Scope, t: Pkg, u: Pkg, v: Pkg, w: Pkg)
    requires Example(s, t, u, v, w)
    ensures NeedPath(s, [u, w, v]) && !Needs(s, v, u)
    ensures forall outside, g, order, r :: Arranged(s, outside, g, order, r, false) ==> r == [u, v, t]
  {
    hide *;
    ExamplePath(s, t, u, v, w);
    forall outside, g, order, r | Arranged(s, outside, g, order, r, false)
      ensures r == [u, v, t]
    {
      ExampleArranged(s, t, u, v, w, outside, g, order, r);
    }
  }

  lemma ExampleArranged(s: Scope, t: Pkg, u: Pkg, v: Pkg, w: Pkg, outside: seq<Pkg>, g: Graph, order: seq<nat>, r: seq<Pkg>)
    requires Example(s, t, u, v, w) && Arranged(s, outside, g, order, r, false)
    ensures r == [u, v, t]
  {
    hide Listed, LedOrder, Represents, GraphOf, OutsideList, Needing;
    ExampleListed(s, outside, t, u, v, w);
    ExampleGraph(s, g, t, u, v, w);
    ExampleOrdered(g, order);
  }

  lemma ExamplePath(s: Scope, t: Pkg, u: Pkg, v: Pkg, w: Pkg)
    requires Example(s, t, u, v, w)
    ensures NeedPath(s, [u, w, v]) && !Needs(s, v, u)
  {
    hide DependsOn, InScope, Example;
    assert u != v by { ExampleDiffer(s, t, u, v, w); }
    ExampleScope(s, t, u, v, w);
    ExampleLeaf(s, t, u, v, w);
    assert DependsOn(u, w) && DependsOn(w, v) by { ExampleNeeds(s, t, u, v, w); }
    if Needs(s, v, u) {
      var p :| NeedPath(s, p) && p[0] == v && p[|p| - 1] == u;
      NeedsNothing(v, p[1]);
      assert false;
    }
  }

  lemma ExampleLeaf(s: Scope, t: Pkg, u: Pkg, v: Pkg, w: Pkg)
    requires Example(s, t, u, v, w)
    ensures v.depends == []
  {
  }

  lemma ExampleScope(s: Scope, t: Pkg, u: Pkg, v: Pkg, w: Pkg)
    requires Example(s, t, u, v, w)
    ensures InScope(s, w) && InScope(s, u) && InScope(s, v)
  {
    assert t.name[0] == 't' && u.name[0] == 'u' && v.name[0] == 'v' && w.name[0] == 'w';
    assert s.local[0] == w;
  }

  lemma NeedsNothing(p: Pkg, q: Pkg)
    requires p.depends == []
    ensures !DependsOn(p, q)
  {
  }
}
