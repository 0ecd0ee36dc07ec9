/** The dependency graph of a target list (dep_graph_init in deps.c) and the sort built on it. */
module DepGraph {
  import opened Text
  import opened Package
  import opened PkgLists
  import opened Dfs
  import opened DfsExact
  import opened Lists
  import opened ListDiff
  import opened SortByDeps

  ghost predicate Rising(kids: seq<nat>) { forall i, j :: 0 <= i < j < |kids| ==> kids[i] < kids[j] }

  /** Every vertex lists its children by number. */
  ghost predicate AllRising(g: Graph) { forall a :: 0 <= a < |g| ==> Rising(g[a]) }

  /** The children that vertex p has among the vertices already there. */
  method LinkKnown(vertices: seq<Pkg>, p: Pkg) returns (kids: seq<nat>)
    ensures forall j :: j in kids <==> 0 <= j < |vertices| && DependsOn(p, vertices[j])
    ensures Rising(kids)
  {
    hide DependsOn;
    kids := [];
    for j := 0 to |vertices|
      invariant forall k :: k in kids <==> 0 <= k < j && DependsOn(p, vertices[k])
      invariant Rising(kids)
    {
      if DependsOn(p, vertices[j]) {
        RisingSnoc(kids, j);
        kids := kids + [j];
      }
    }
  }

  lemma RisingSnoc(kids: seq<nat>, j: nat)
    requires Rising(kids) && forall k :: k in kids ==> k < j
    ensures Rising(kids + [j])
  {
    forall i | 0 <= i < |kids| ensures kids[i] < j { assert kids[i] in kids; }
  }

  /** The packages of the pool that p depends on, and the others. */
  function TakenBy(pool: seq<Pkg>, p: Pkg): (r: seq<Pkg>)
    ensures forall q :: q in r <==> q in pool && DependsOn(p, q)
  {
    if pool == [] then []
    else
      var n := |pool| - 1;
      TakenBy(pool[..n], p) + if DependsOn(p, pool[n]) then [pool[n]] else []
  }

  function LeftBy(pool: seq<Pkg>, p: Pkg): (r: seq<Pkg>)
    ensures forall q :: q in r <==> q in pool && !DependsOn(p, q)
  {
    if pool == [] then []
    else
      var n := |pool| - 1;
      LeftBy(pool[..n], p) + if DependsOn(p, pool[n]) then [] else [pool[n]]
  }

  lemma TakenNone(p: Pkg)
    ensures TakenBy([], p) == [] && LeftBy([], p) == []
  {
  }

  lemma TakenSnoc(pool: seq<Pkg>, p: Pkg, j: nat)
    requires j < |pool|
    ensures TakenBy(pool[..j + 1], p) == TakenBy(pool[..j], p) + if DependsOn(p, pool[j]) then [pool[j]] else []
    ensures LeftBy(pool[..j + 1], p) == LeftBy(pool[..j], p) + if DependsOn(p, pool[j]) then [] else [pool[j]]
  {
    hide DependsOn;
    assert pool[..j + 1][..j] == pool[..j];
  }

  lemma {:induction false} SplitPool(pool: seq<Pkg>, p: Pkg)
    ensures multiset(TakenBy(pool, p)) + multiset(LeftBy(pool, p)) == multiset(pool)
    ensures |TakenBy(pool, p)| + |LeftBy(pool, p)| == |pool|
    decreases |pool|
  {
    hide DependsOn, TakenBy, LeftBy;
    if pool == [] {
      TakenNone(p);
    } else {
      var n := |pool| - 1;
      var init, last := pool[..n], pool[n];
      SplitPool(init, p);
      TakenSnoc(pool, p, n);
      assert pool[..n + 1] == pool;
      assert multiset(pool) == multiset(init) + multiset{last} by { assert pool == init + [last]; }
      assert multiset(TakenBy(init, p) + [last]) == multiset(TakenBy(init, p)) + multiset{last};
      assert multiset(LeftBy(init, p) + [last]) == multiset(LeftBy(init, p)) + multiset{last};
    }
  }

  /** The vertices in the order in which they are listed: each in turn brings in the installed
      packages it depends on that are not there yet. */
  function Listed(vertices: seq<Pkg>, pool: seq<Pkg>, i: nat): seq<Pkg>
    requires i <= |vertices|
    decreases |vertices| + |pool| - i
  {
    if i == |vertices| then vertices
    else
      SplitPool(pool, vertices[i]);
      Listed(vertices + TakenBy(pool, vertices[i]), LeftBy(pool, vertices[i]), i + 1)
  }

  /** The installed packages that p depends on become vertices. */
  method LinkLocal(localpkgs: seq<Pkg>, p: Pkg, base: nat)
    returns (added: seq<Pkg>, kids: seq<nat>, rest: seq<Pkg>)
    ensures forall k :: k in kids <==> base <= k < base + |added|
    ensures Rising(kids)
    ensures added == TakenBy(localpkgs, p) && rest == LeftBy(localpkgs, p)
  {
    hide DependsOn, TakenBy, LeftBy;
    added, kids, rest := [], [], [];
    TakenNone(p);
    for j := 0 to |localpkgs|
      invariant forall k :: k in kids <==> base <= k < base + |added|
      invariant Rising(kids)
      invariant added == TakenBy(localpkgs[..j], p) && rest == LeftBy(localpkgs[..j], p)
    {
      TakenSnoc(localpkgs, p, j);
      if DependsOn(p, localpkgs[j]) {
        RisingSnoc(kids, base + |added|);
        kids := kids + [base + |added|];
        added := added + [localpkgs[j]];
      } else {
        rest := rest + [localpkgs[j]];
      }
    }
    assert localpkgs[..|localpkgs|] == localpkgs;
  }

  /** Every edge that the dependencies ask for between the first n vertices and all vertices. */
  ghost predicate ExactEdges(vertices: seq<Pkg>, g: Graph) {
    && |g| <= |vertices|
    && forall a: nat, b: nat :: a < |g| ==> (Edge(g, a, b) <==> b < |vertices| && DependsOn(vertices[a], vertices[b]))
  }

  ghost predicate NoEdgeTo(vertices: seq<Pkg>, n: nat, pool: seq<Pkg>)
    requires n <= |vertices|
  {
    forall a, q :: 0 <= a < n && q in pool ==> !DependsOn(vertices[a], q)
  }

  /** Every vertex after the targets is a dependency of an earlier vertex. */
  ghost predicate Pulled(vertices: seq<Pkg>, from: nat) {
    forall k :: from <= k < |vertices| ==> HasPuller(vertices, k)
  }

  ghost predicate HasPuller(vertices: seq<Pkg>, k: nat)
    requires k < |vertices|
  {
    exists a :: 0 <= a < k && DependsOn(vertices[a], vertices[k])
  }

  /** dep_graph_init: the targets, the installed packages reachable from them, and every edge
      among these, in the order of listing. */
  method DepGraphInit(targets: seq<Pkg>, local: seq<Pkg>) returns (vertices: seq<Pkg>, g: Graph)
    ensures |g| == |vertices| && ValidGraph(g)
    ensures targets <= vertices
    ensures ExactEdges(vertices, g) && Pulled(vertices, |targets|)
    ensures forall a, q :: 0 <= a < |vertices| && q in local && DependsOn(vertices[a], q) ==> q in vertices
    ensures multiset(vertices[|targets|..]) <= multiset(local)
    ensures AllRising(g) && vertices == Listed(targets, local, 0)
  {
    hide DependsOn, ExactEdges, NoEdgeTo, Pulled, ValidGraph, Rising, Listed, TakenBy, LeftBy;
    vertices, g := targets, [];
    NoEdgesYet(targets, local);
    var localpkgs := local;
    ghost var n := |targets| + |local|;
    var i := 0;
    while i < |vertices|
      invariant 0 <= i <= |vertices| && |g| == i && targets <= vertices && |vertices| + |localpkgs| == n
      invariant ExactEdges(vertices, g) && NoEdgeTo(vertices, i, localpkgs) && Pulled(vertices, |targets|)
      invariant multiset(vertices[|targets|..]) + multiset(localpkgs) == multiset(local)
      invariant AllRising(g) && Listed(targets, local, 0) == Listed(vertices, localpkgs, i)
      decreases n - i
    {
      var p := vertices[i];
      var known := LinkKnown(vertices, p);
      var added, kids, rest := LinkLocal(localpkgs, p, |vertices|);
      SplitPool(localpkgs, p);
      ExtendEdges(vertices, g, localpkgs, p, known, added, kids, rest);
      ExtendPulled(vertices, |targets|, added, i);
      ExtendListed(vertices, localpkgs, i);
      RisingConcat(known, kids, |vertices|);
      assert (vertices + added)[|targets|..] == vertices[|targets|..] + added;
      vertices := vertices + added;
      localpkgs := rest;
      g := g + [known + kids];
      i := i + 1;
    }
    Complete(vertices, |targets|, localpkgs, local);
    EdgesInRange(vertices, g);
    ListedEnds(vertices, localpkgs);
  }

  lemma ExtendListed(vertices: seq<Pkg>, pool: seq<Pkg>, i: nat)
    requires i < |vertices|
    ensures Listed(vertices, pool, i) == Listed(vertices + TakenBy(pool, vertices[i]), LeftBy(pool, vertices[i]), i + 1)
  {
    hide TakenBy, LeftBy;
  }

  lemma ListedEnds(vertices: seq<Pkg>, pool: seq<Pkg>)
    ensures Listed(vertices, pool, |vertices|) == vertices
  {
    hide TakenBy, LeftBy;
  }

  lemma RisingConcat(a: seq<nat>, b: seq<nat>, n: nat)
    requires Rising(a) && Rising(b) && (forall k :: k in a ==> k < n) && forall k :: k in b ==> k >= n
    ensures Rising(a + b)
  {
    var s := a + b;
    forall i, j | 0 <= i < j < |s| ensures s[i] < s[j] {
      if i < |a| <= j {
        assert a[i] in a && b[j - |a|] in b;
      } else if |a| <= i {
        assert b[i - |a|] < b[j - |a|];
      }
    }
  }

  lemma EdgesInRange(vertices: seq<Pkg>, g: Graph)
    requires ExactEdges(vertices, g) && |g| == |vertices|
    ensures ValidGraph(g)
  {
    hide DependsOn;
    forall v, i | 0 <= v < |g| && 0 <= i < |g[v]|
      ensures g[v][i] < |g|
    {
      assert Edge(g, v, g[v][i]);
    }
  }

  lemma NoEdgesYet(targets: seq<Pkg>, local: seq<Pkg>)
    ensures ExactEdges(targets, []) && NoEdgeTo(targets, 0, local) && Pulled(targets, |targets|)
  {
  }

  lemma ExtendEdges(vertices: seq<Pkg>, g: Graph, pool: seq<Pkg>, p: Pkg, known: seq<nat>,
                    added: seq<Pkg>, kids: seq<nat>, rest: seq<Pkg>)
    requires |g| < |vertices| && p == vertices[|g|] && ExactEdges(vertices, g) && NoEdgeTo(vertices, |g|, pool)
    requires forall j :: j in known <==> 0 <= j < |vertices| && DependsOn(p, vertices[j])
    requires forall k :: k in kids <==> |vertices| <= k < |vertices| + |added|
    requires forall q :: q in added <==> q in pool && DependsOn(p, q)
    requires forall q :: q in rest <==> q in pool && !DependsOn(p, q)
    ensures ExactEdges(vertices + added, g + [known + kids]) && NoEdgeTo(vertices + added, |g| + 1, rest)
  {
    hide DependsOn;
    var vs, g' := vertices + added, g + [known + kids];
    forall b | |vertices| <= b < |vs|
      ensures vs[b] in added
    {
      assert vs[b] == added[b - |vertices|];
    }
    forall a: nat, b: nat | a < |g'|
      ensures Edge(g', a, b) <==> b < |vs| && DependsOn(vs[a], vs[b])
    {
      if a < |g| {
        assert g'[a] == g[a] && vs[a] == vertices[a];
        assert Edge(g', a, b) == Edge(g, a, b);
        if 0 <= b < |vertices| {
          assert vs[b] == vertices[b];
        } else if |vertices| <= b < |vs| {
          assert vs[b] in pool;
          assert !DependsOn(vertices[a], vs[b]);
        }
      } else {
        assert g'[a] == known + kids && vs[a] == p;
        if 0 <= b < |vertices| { assert vs[b] == vertices[b]; }
      }
    }
    forall a, q | 0 <= a < |g| + 1 && q in rest
      ensures !DependsOn(vs[a], q)
    {
      if a < |g| { assert vs[a] == vertices[a]; }
    }
  }

  lemma ExtendPulled(vertices: seq<Pkg>, from: nat, added: seq<Pkg>, i: nat)
    requires Pulled(vertices, from) && i < |vertices| && forall q :: q in added ==> DependsOn(vertices[i], q)
    ensures Pulled(vertices + added, from)
  {
    hide DependsOn;
    var vs := vertices + added;
    forall k | from <= k < |vs|
      ensures HasPuller(vs, k)
    {
      if k < |vertices| {
        assert HasPuller(vertices, k);
        var a :| 0 <= a < k && DependsOn(vertices[a], vertices[k]);
        assert DependsOn(vs[a], vs[k]);
      } else {
        assert vs[k] == added[k - |vertices|];
        assert vs[k] in added;
        assert DependsOn(vs[i], vs[k]);
      }
    }
  }

  lemma Complete(vertices: seq<Pkg>, from: nat, pool: seq<Pkg>, local: seq<Pkg>)
    requires from <= |vertices| && NoEdgeTo(vertices, |vertices|, pool)
    requires multiset(vertices[from..]) + multiset(pool) == multiset(local)
    ensures forall a, q :: 0 <= a < |vertices| && q in local && DependsOn(vertices[a], q) ==> q in vertices
  {
    hide DependsOn;
    forall a, q | 0 <= a < |vertices| && q in local && DependsOn(vertices[a], q)
      ensures q in vertices
    {
      assert q in multiset(local);
      assert q in multiset(vertices[from..]) || q in multiset(pool);
      assert q !in pool;
    }
  }

  // ----- the sort

  /** What the sort looks at: the targets, and installed packages outside both lists. */
  datatype Scope = Scope(local: seq<Pkg>, targets: seq<Pkg>, ignored: seq<Pkg>)

  ghost predicate InScope(s: Scope, q: Pkg) { q in s.targets || IsOutside(s, q) }

  ghost predicate IsOutside(s: Scope, q: Pkg) { q in s.local && !Named(s.targets, q.name) && !Named(s.ignored, q.name) }

  /** Each package on p depends on the next. */
  ghost predicate NeedPath(s: Scope, p: seq<Pkg>)
    ensures NeedPath(s, p) ==> p != []
  {
    && p != []
    && (forall k :: 0 <= k < |p| ==> InScope(s, p[k]))
    && (forall k :: 0 <= k < |p| - 1 ==> DependsOn(p[k], p[k + 1]))
  }

  ghost predicate Needs(s: Scope, a: Pkg, b: Pkg) {
    exists p :: NeedPath(s, p) && p[0] == a && p[|p| - 1] == b
  }

  /** p[0] needs the later packages on p and none of them needs p[0] back. */
  ghost predicate NeedsForGood(s: Scope, p: seq<Pkg>)
    ensures NeedsForGood(s, p) ==> |p| > 1
  {
    NeedPath(s, p) && |p| > 1 && forall k :: 1 <= k < |p| ==> !Needs(s, p[k], p[0])
  }

  ghost predicate Clear(p: seq<Pkg>, c: seq<Pkg>) { forall k :: 0 <= k < |p| ==> p[k] !in c }

  /** a needs b through packages that are not on c. */
  ghost predicate NeedsAround(s: Scope, a: Pkg, b: Pkg, c: seq<Pkg>) {
    exists p :: NeedPath(s, p) && p[0] == a && p[|p| - 1] == b && Clear(p, c)
  }

  /** Packages that need a, each through the next, the last one a itself. */
  ghost predicate NeedChain(s: Scope, c: seq<Pkg>, a: Pkg)
    ensures NeedChain(s, c, a) ==> c != []
  {
    NeedPath(s, c) && Distinct(c) && c[|c| - 1] == a
  }

  /** No chain of packages that need a cuts b off from a. */
  ghost predicate SurelyNeeds(s: Scope, a: Pkg, b: Pkg) {
    forall c :: NeedChain(s, c, a) ==> NeedsAround(s, a, b, c[..|c| - 1])
  }

  /** The graph holds what is in scope and reachable, with exactly its dependencies as edges. */
  ghost predicate Represents(s: Scope, vertices: seq<Pkg>, g: Graph) {
    && |g| == |vertices| && ValidGraph(g) && s.targets <= vertices && ExactEdges(vertices, g)
    && (forall k :: 0 <= k < |vertices| ==> InScope(s, vertices[k]))
    && (forall k :: |s.targets| <= k < |vertices| ==> vertices[k] !in s.targets)
    && (forall a, q :: 0 <= a < |vertices| && InScope(s, q) && DependsOn(vertices[a], q) ==> q in vertices)
  }

  /** A path in the graph is a chain of needs. */
  lemma PathIsNeedPath(s: Scope, vertices: seq<Pkg>, g: Graph, p: seq<nat>)
    requires Represents(s, vertices, g) && IsPath(g, p) && p[|p| - 1] < |g|
    ensures forall k :: 0 <= k < |p| ==> p[k] < |vertices|
    ensures NeedPath(s, PkgsAt(vertices, p))
  {
    hide DependsOn, InScope, Represents;
    forall k | 0 <= k < |p|
      ensures p[k] < |g| == |vertices| && InScope(s, vertices[p[k]])
    {
      OnPath(s, vertices, g, p, k);
    }
    var q := PkgsAt(vertices, p);
    forall k | 0 <= k < |q| - 1
      ensures DependsOn(q[k], q[k + 1])
    {
      OnPath(s, vertices, g, p, k);
    }
  }

  lemma ReachIsNeed(s: Scope, vertices: seq<Pkg>, g: Graph, a: nat, b: nat)
    requires Represents(s, vertices, g) && a < |g| && b < |g| && Reaches(g, a, b)
    ensures a < |vertices| && b < |vertices| && Needs(s, vertices[a], vertices[b])
  {
    hide DependsOn, InScope, Represents;
    RepresentsValid(s, vertices, g);
    var p :| IsPath(g, p) && p[0] == a && p[|p| - 1] == b;
    PathIsNeedPath(s, vertices, g, p);
    assert NeedPath(s, PkgsAt(vertices, p));
  }

  lemma OnPath(s: Scope, vertices: seq<Pkg>, g: Graph, p: seq<nat>, k: nat)
    requires Represents(s, vertices, g) && IsPath(g, p) && k < |p| && p[|p| - 1] < |g|
    ensures p[k] < |g| == |vertices| && InScope(s, vertices[p[k]])
    ensures k < |p| - 1 ==> p[k + 1] < |g| && DependsOn(vertices[p[k]], vertices[p[k + 1]])
  {
    hide DependsOn, InScope;
    if k < |p| - 1 { assert Edge(g, p[k], p[k + 1]); }
  }

  /** A chain of needs from a vertex runs through the graph. */
  lemma {:induction false} NeedIsPath(s: Scope, vertices: seq<Pkg>, g: Graph, p: seq<Pkg>, u: nat) returns (q: seq<nat>)
    requires Represents(s, vertices, g) && NeedPath(s, p) && u < |g| && vertices[u] == p[0]
    ensures |q| == |p| && IsPath(g, q) && q[0] == u
    ensures forall k :: 0 <= k < |q| ==> q[k] < |g| && vertices[q[k]] == p[k]
    decreases |p|
  {
    hide DependsOn, InScope;
    if |p| == 1 {
      q := [u];
    } else {
      assert DependsOn(p[0], p[1]) && InScope(s, p[1]);
      assert p[1] in vertices;
      var v :| 0 <= v < |vertices| && vertices[v] == p[1];
      assert Edge(g, u, v);
      var rest := NeedIsPath(s, vertices, g, p[1..], v);
      q := [u] + rest;
      forall i | 0 <= i < |q| - 1
        ensures Edge(g, q[i], q[i + 1])
      {
        if i > 0 { assert q[i] == rest[i - 1] && q[i + 1] == rest[i]; }
      }
    }
  }

  lemma NeededBeforeInOrder(s: Scope, vertices: seq<Pkg>, g: Graph, p: seq<Pkg>) returns (u: nat, v: nat)
    requires Represents(s, vertices, g) && NeedsForGood(s, p) && p[0] in s.targets
    ensures u < |g| && v < |g| && vertices[u] == p[0] && vertices[v] == p[|p| - 1] && Before(PostOrder(g), v, u)
  {
    hide DependsOn, InScope, PostOrder, Represents, Needs;
    u := FindTarget(s, vertices, g, p[0]);
    var q := NeedIsPath(s, vertices, g, p, u);
    forall k | 1 <= k < |q|
      ensures !Reaches(g, q[k], q[0])
    {
      if Reaches(g, q[k], q[0]) { ReachIsNeed(s, vertices, g, q[k], q[0]); }
    }
    assert ValidGraph(g) by { RepresentsValid(s, vertices, g); }
    NeededFirst(g, q);
    v := q[|q| - 1];
  }

  /** A chain of vertices stands for a chain of packages. */
  lemma ChainIsNeedChain(s: Scope, vertices: seq<Pkg>, g: Graph, c: seq<nat>, u: nat)
    requires Represents(s, vertices, g) && Distinct(vertices) && Chain(g, c, u) && u < |g|
    ensures forall k :: 0 <= k < |c| ==> c[k] < |vertices|
    ensures NeedChain(s, PkgsAt(vertices, c), vertices[u])
  {
    hide DependsOn, InScope, Represents;
    RepresentsValid(s, vertices, g);
    PathIsNeedPath(s, vertices, g, c);
    var p := PkgsAt(vertices, c);
    assert Distinct(p) by {
      forall i, j | 0 <= i < j < |p|
        ensures p[i] != p[j]
      {
        assert c[i] < c[j] || c[j] < c[i];
      }
    }
  }

  /** A way through packages around a list of packages is a way through the graph around their
      vertices, and the other way round. */
  lemma AroundIff(s: Scope, vertices: seq<Pkg>, g: Graph, u: nat, v: nat, c: seq<nat>)
    requires Represents(s, vertices, g) && Distinct(vertices) && u < |vertices| && v < |vertices|
    requires forall k :: 0 <= k < |c| ==> c[k] < |vertices|
    ensures ReachesAround(g, u, v, c) <==> NeedsAround(s, vertices[u], vertices[v], PkgsAt(vertices, c))
  {
    hide DependsOn, InScope, Represents;
    RepresentsValid(s, vertices, g);
    var a, b, pc := vertices[u], vertices[v], PkgsAt(vertices, c);
    if NeedsAround(s, a, b, pc) {
      var p :| NeedPath(s, p) && p[0] == a && p[|p| - 1] == b && Clear(p, pc);
      var q := NeedIsPath(s, vertices, g, p, u);
      forall k | 0 <= k < |q| ensures q[k] !in c {
        ClearAt(vertices, c, q[k], p[k]);
      }
      assert q[|q| - 1] == v;
    }
    if ReachesAround(g, u, v, c) {
      var q :| IsPath(g, q) && q[0] == u && q[|q| - 1] == v && Avoids(q, c);
      PathIsNeedPath(s, vertices, g, q);
      var p := PkgsAt(vertices, q);
      forall k | 0 <= k < |p| ensures p[k] !in pc {
        ClearAt(vertices, c, q[k], p[k]);
      }
      assert NeedPath(s, p);
    }
  }

  lemma ClearAt(vertices: seq<Pkg>, c: seq<nat>, x: nat, p: Pkg)
    requires Distinct(vertices) && x < |vertices| && vertices[x] == p
    requires forall k :: 0 <= k < |c| ==> c[k] < |vertices|
    ensures x in c <==> p in PkgsAt(vertices, c)
  {
    var pc := PkgsAt(vertices, c);
    if x in c {
      var k :| 0 <= k < |c| && c[k] == x;
      assert pc[k] == p;
    }
    if p in pc {
      var k :| 0 <= k < |pc| && pc[k] == p;
      assert c[k] == x;
    }
  }

  /** What no chain cuts off comes first. */
  lemma SureNeedInOrder(s: Scope, vertices: seq<Pkg>, g: Graph, u: nat, v: nat)
    requires Represents(s, vertices, g) && Distinct(vertices) && u < |vertices| && v < |vertices| && u != v
    requires SurelyNeeds(s, vertices[u], vertices[v])
    ensures Before(PostOrder(g), v, u)
  {
    hide Represents, NeedChain, NeedsAround, ReachesAround, Chain, Distinct, PostOrder;
    RepresentsValid(s, vertices, g);
    forall c | Chain(g, c, u)
      ensures ReachesAround(g, u, v, c[..|c| - 1])
    {
      var up := c[..|c| - 1];
      ChainIsNeedChain(s, vertices, g, c, u);
      AroundIff(s, vertices, g, u, v, up);
      assert PkgsAt(vertices, up) == PkgsAt(vertices, c)[..|c| - 1];
    }
    NeverCutOffFirst(g, u, v);
  }

  lemma RepresentsValid(s: Scope, vertices: seq<Pkg>, g: Graph)
    requires Represents(s, vertices, g)
    ensures ValidGraph(g) && |g| == |vertices|
  {
  }

  lemma FindTarget(s: Scope, vertices: seq<Pkg>, g: Graph, t: Pkg) returns (u: nat)
    requires Represents(s, vertices, g) && t in s.targets
    ensures u < |g| == |vertices| && vertices[u] == t
  {
    u :| 0 <= u < |s.targets| && s.targets[u] == t;
  }

  // ----- from vertex numbers back to packages

  function PkgsAt(pkgs: seq<Pkg>, order: seq<nat>): (r: seq<Pkg>)
    requires forall k :: 0 <= k < |order| ==> order[k] < |pkgs|
    ensures |r| == |order| && forall k :: 0 <= k < |r| ==> r[k] == pkgs[order[k]]
  {
    seq(|order|, k requires 0 <= k < |order| => pkgs[order[k]])
  }

  /** Leaving out the largest number leaves each smaller number exactly once. */
  lemma WithoutLargest(order: seq<nat>, n: nat) returns (k: nat)
    requires Distinct(order) && forall v: nat :: v in order <==> v < n + 1
    ensures k < |order| && order[k] == n
    ensures var rest := order[..k] + order[k + 1..];
            Distinct(rest) && forall v: nat :: v in rest <==> v < n
  {
    assert n in order;
    k :| 0 <= k < |order| && order[k] == n;
    var rest := order[..k] + order[k + 1..];
    forall v: nat
      ensures v in rest <==> v < n
    {
      if v < n {
        assert v in order;
        var i :| 0 <= i < |order| && order[i] == v;
        assert rest[if i < k then i else i - 1] == v;
      }
      if v in rest {
        var i :| 0 <= i < |rest| && rest[i] == v;
        assert order[if i < k then i else i + 1] == v;
        assert v in order && v != n;
      }
    }
  }

  lemma PkgsAtSplit(pkgs: seq<Pkg>, order: seq<nat>, k: nat)
    requires k < |order| && forall i :: 0 <= i < |order| ==> order[i] < |pkgs|
    requires order[k] == |pkgs| - 1 && forall i :: 0 <= i < |order| && i != k ==> order[i] < |pkgs| - 1
    ensures var rest := order[..k] + order[k + 1..];
            && (forall i :: 0 <= i < |rest| ==> rest[i] < |pkgs| - 1)
            && multiset(PkgsAt(pkgs, order)) == multiset(PkgsAt(pkgs[..|pkgs| - 1], rest)) + multiset{pkgs[|pkgs| - 1]}
  {
    var rest := order[..k] + order[k + 1..];
    var all, some := PkgsAt(pkgs, order), PkgsAt(pkgs[..|pkgs| - 1], rest);
    assert all == some[..k] + [pkgs[|pkgs| - 1]] + some[k..];
    assert some == some[..k] + some[k..];
  }

  lemma InOrder(order: seq<nat>, n: nat)
    requires forall v: nat :: v in order <==> v < n
    ensures forall k :: 0 <= k < |order| ==> order[k] < n
  {
    forall k | 0 <= k < |order| ensures order[k] < n { assert order[k] in order; }
  }

  /** Each number below n exactly once: the packages are a rearrangement of the list. */
  lemma {:induction false} PkgsAtPermutes(pkgs: seq<Pkg>, order: seq<nat>)
    requires Distinct(order) && forall v: nat :: v in order <==> v < |pkgs|
    ensures (forall k :: 0 <= k < |order| ==> order[k] < |pkgs|) && multiset(PkgsAt(pkgs, order)) == multiset(pkgs)
    decreases |pkgs|
  {
    hide PkgsAt;
    InOrder(order, |pkgs|);
    if order == [] {
      assert 0 !in order;
      assert PkgsAt(pkgs, order) == [];
    } else {
      assert order[0] in order;
      var n := |pkgs| - 1;
      var k := WithoutLargest(order, n);
      PkgsAtSplit(pkgs, order, k);
      PkgsAtPermutes(pkgs[..n], order[..k] + order[k + 1..]);
      assert pkgs == pkgs[..n] + [pkgs[n]];
    }
  }

  /** Picking keeps exactly the flagged vertices, once each, in order. */
  lemma {:induction false} PickedKeeps(order: seq<nat>, target: seq<bool>)
    requires Distinct(order)
    ensures Distinct(Picked(order, target))
    ensures forall v :: v in Picked(order, target) <==> v in order && v < |target| && target[v]
    decreases |order|
  {
    if order != [] {
      var n := |order| - 1;
      PickedKeeps(order[..n], target);
      assert order == order[..n] + [order[n]];
    }
  }

  lemma {:induction false} PickedOrder(order: seq<nat>, target: seq<bool>, a: nat, b: nat)
    requires Distinct(order) && Before(order, a, b) && a < |target| && target[a] && b < |target| && target[b]
    ensures Before(Picked(order, target), a, b)
    decreases |order|
  {
    var i, j :| 0 <= i < j < |order| && order[i] == a && order[j] == b;
    var n := |order| - 1;
    var before, all := Picked(order[..n], target), Picked(order, target);
    PickedKeeps(order[..n], target);
    if j < n {
      assert Before(order[..n], a, b) by { assert order[..n][i] == a && order[..n][j] == b; }
      PickedOrder(order[..n], target, a, b);
      var x, y :| 0 <= x < y < |before| && before[x] == a && before[y] == b;
      assert all[x] == a && all[y] == b;
    } else {
      assert order[..n][i] == a;
      assert a in before;
      var x :| 0 <= x < |before| && before[x] == a;
      assert all[x] == a && all[|before|] == b;
    }
  }

  function Reversed(r: seq<Pkg>): (t: seq<Pkg>)
    ensures |t| == |r| && forall k :: 0 <= k < |r| ==> t[k] == r[|r| - 1 - k]
    ensures multiset(t) == multiset(r)
  {
    if r == [] then []
    else
      assert r == [r[0]] + r[1..];
      Reversed(r[1..]) + [r[0]]
  }

  /** a is placed before b, or after it when the order is reversed. */
  ghost predicate Placed(r: seq<Pkg>, a: Pkg, b: Pkg, reverse: bool) {
    if reverse then PkgBefore(r, b, a) else PkgBefore(r, a, b)
  }

  lemma ReversedOrder(r: seq<Pkg>, a: Pkg, b: Pkg)
    requires PkgBefore(r, a, b)
    ensures PkgBefore(Reversed(r), b, a)
  {
    var i, j :| 0 <= i < j < |r| && r[i] == a && r[j] == b;
    assert Reversed(r)[|r| - 1 - j] == b && Reversed(r)[|r| - 1 - i] == a;
  }

  lemma GraphRepresents(s: Scope, outside: seq<Pkg>, vertices: seq<Pkg>, g: Graph)
    requires forall q :: q in outside <==> IsOutside(s, q)
    requires |g| == |vertices| && ValidGraph(g) && s.targets <= vertices && ExactEdges(vertices, g)
    requires forall a, q :: 0 <= a < |vertices| && q in outside && DependsOn(vertices[a], q) ==> q in vertices
    requires multiset(vertices[|s.targets|..]) <= multiset(outside)
    ensures Represents(s, vertices, g)
  {
    hide DependsOn, ExactEdges, ValidGraph, Named;
    var n := |s.targets|;
    forall k | 0 <= k < |vertices|
      ensures InScope(s, vertices[k]) && (k >= n ==> vertices[k] !in s.targets)
    {
      if k < n {
        assert vertices[k] == s.targets[k];
      } else {
        assert vertices[k] in vertices[n..] by { assert vertices[n..][k - n] == vertices[k]; }
        assert vertices[k] in multiset(outside);
        assert vertices[k] in outside;
        MemberNamed(s.targets, vertices[k]);
      }
    }
    forall a, q | 0 <= a < |vertices| && InScope(s, q) && DependsOn(vertices[a], q)
      ensures q in vertices
    {
      if q in s.targets {
        var i :| 0 <= i < n && s.targets[i] == q;
        assert vertices[i] == q;
      }
    }
  }

  /** The flagged part of the order lists the numbers of the targets. */
  lemma PickedTargets(s: Scope, vertices: seq<Pkg>, g: Graph, target: seq<bool>)
    requires Represents(s, vertices, g) && |target| == |vertices|
    requires forall v :: 0 <= v < |vertices| ==> target[v] == (vertices[v] in s.targets)
    ensures var order := Picked(PostOrder(g), target);
            Distinct(order) && forall v: nat :: v in order <==> v < |s.targets|
  {
    hide DependsOn, ExactEdges, InScope, PostOrder, Picked;
    PostOrderSettled(g);
    PickedKeeps(PostOrder(g), target);
    var order := Picked(PostOrder(g), target);
    forall v: nat
      ensures v in order <==> v < |s.targets|
    {
      assert v in PostOrder(g) <==> v < |g|;
      if v < |s.targets| { assert vertices[v] == s.targets[v]; }
    }
  }

  lemma NeededInTargets(s: Scope, vertices: seq<Pkg>, g: Graph, target: seq<bool>, newtargs: seq<Pkg>, p: seq<Pkg>)
    requires Represents(s, vertices, g) && |target| == |vertices|
    requires forall v :: 0 <= v < |vertices| ==> target[v] == (vertices[v] in s.targets)
    requires NeedsForGood(s, p) && p[0] in s.targets && p[|p| - 1] in s.targets
    requires var order := Picked(PostOrder(g), target);
             (forall v: nat :: v in order <==> v < |s.targets|) &&
             (forall k :: 0 <= k < |order| ==> order[k] < |s.targets|) && newtargs == PkgsAt(s.targets, order)
    ensures PkgBefore(newtargs, p[|p| - 1], p[0])
  {
    hide DependsOn, ExactEdges, InScope, PostOrder, Picked, NeedsForGood;
    var order := Picked(PostOrder(g), target);
    var u, v := NeededBeforeInOrder(s, vertices, g, p);
    PostOrderSettled(g);
    PickedOrder(PostOrder(g), target, v, u);
    var i, j :| 0 <= i < j < |order| && order[i] == v && order[j] == u;
    assert newtargs[i] == vertices[v] && newtargs[j] == vertices[u];
  }

  lemma PlacedEitherWay(forward: seq<Pkg>, r: seq<Pkg>, a: Pkg, b: Pkg, reverse: bool)
    requires PkgBefore(forward, a, b) && r == if reverse then Reversed(forward) else forward
    ensures Placed(r, a, b, reverse)
  {
    hide Reversed;
    ReversedOrder(forward, a, b);
  }

  // ----- the exact order

  /** The installed packages in neither list, by name. */
  ghost predicate OutsideList(s: Scope, outside: seq<Pkg>) {
    && (forall q :: q in outside <==> IsOutside(s, q))
    && UniqueNames(outside) && Sorted(outside, AtMost(PkgCmp))
  }

  /** The dependencies among the vertices are the edges, listed by number. */
  ghost predicate GraphOf(vertices: seq<Pkg>, g: Graph) {
    |g| == |vertices| && ValidGraph(g) && ExactEdges(vertices, g) && AllRising(g)
  }

  ghost predicate Led(g: Graph, u: nat, v: nat) { exists c :: LedDown(g, c, u, v) }

  /** Each number below n once, and u before v exactly when the walk is led down to u ahead of v. */
  ghost predicate LedOrder(g: Graph, order: seq<nat>, n: nat)
    ensures LedOrder(g, order, n) ==> forall k :: 0 <= k < |order| ==> order[k] < n
  {
    && Distinct(order) && (forall k :: 0 <= k < |order| ==> order[k] < n)
    && (forall v: nat :: v in order <==> v < n)
    && forall u: nat, v: nat :: u < n && v < n && u != v ==> (Before(order, u, v) <==> Led(g, u, v))
  }

  /** r is the targets in the order of the walk over the graph of s. */
  ghost predicate Arranged(s: Scope, outside: seq<Pkg>, g: Graph, order: seq<nat>, r: seq<Pkg>, reverse: bool) {
    && OutsideList(s, outside) && GraphOf(Listed(s.targets, outside, 0), g)
    && Represents(s, Listed(s.targets, outside, 0), g)
    && LedOrder(g, order, |s.targets|)
    && r == if reverse then Reversed(PkgsAt(s.targets, order)) else PkgsAt(s.targets, order)
  }

  lemma PickedLed(g: Graph, target: seq<bool>, n: nat)
    requires ValidGraph(g) && n <= |g| == |target|
    requires var order := Picked(PostOrder(g), target);
             Distinct(order) && forall v: nat :: v in order <==> v < n
    ensures LedOrder(g, Picked(PostOrder(g), target), n)
  {
    hide PostOrder, Picked, LedDown;
    var order := Picked(PostOrder(g), target);
    PostOrderSettled(g);
    PickedKeeps(PostOrder(g), target);
    InOrder(order, n);
    forall u: nat, v: nat | u < n && v < n && u != v
      ensures Before(order, u, v) <==> Led(g, u, v)
    {
      assert u in order && v in order;
      LeftFirstIff(g, u, v);
      if Before(PostOrder(g), u, v) { PickedOrder(PostOrder(g), target, u, v); }
      if Before(PostOrder(g), v, u) { PickedOrder(PostOrder(g), target, v, u); }
      OneWay(order, u, v);
    }
  }

  lemma OneWay(order: seq<nat>, u: nat, v: nat)
    requires Distinct(order)
    ensures !(Before(order, u, v) && Before(order, v, u))
  {
  }

  // ----- distinct targets are distinct vertices

  lemma {:induction false} ListedFrom(vertices: seq<Pkg>, pool: seq<Pkg>, i: nat)
    requires i <= |vertices|
    ensures multiset(Listed(vertices, pool, i)) <= multiset(vertices) + multiset(pool)
    ensures vertices <= Listed(vertices, pool, i)
    decreases |vertices| + |pool| - i
  {
    hide DependsOn, TakenBy, LeftBy;
    if i < |vertices| {
      var p := vertices[i];
      SplitPool(pool, p);
      ListedFrom(vertices + TakenBy(pool, p), LeftBy(pool, p), i + 1);
      assert multiset(vertices + TakenBy(pool, p)) == multiset(vertices) + multiset(TakenBy(pool, p));
    }
  }

  lemma {:induction false} CountAtMostOne(r: seq<Pkg>, x: Pkg)
    requires Distinct(r)
    ensures multiset(r)[x] <= 1
    decreases |r|
  {
    if r != [] {
      var n := |r| - 1;
      CountAtMostOne(r[..n], x);
      assert r == r[..n] + [r[n]];
      if x == r[n] { assert x !in r[..n]; }
    }
  }

  lemma CountTwice(r: seq<Pkg>, i: nat, j: nat)
    requires i < j < |r| && r[i] == r[j]
    ensures multiset(r)[r[i]] >= 2
  {
    assert r == r[..j] + [r[j]] + r[j + 1..];
    assert r[..j][i] == r[i];
    assert r[i] in multiset(r[..j]);
  }

  lemma VerticesDistinct(s: Scope, outside: seq<Pkg>)
    requires OutsideList(s, outside) && Distinct(s.targets)
    ensures Distinct(Listed(s.targets, outside, 0))
  {
    hide Listed, Sorted, AtMost;
    var all, vertices := s.targets + outside, Listed(s.targets, outside, 0);
    ListedFrom(s.targets, outside, 0);
    forall i, j | 0 <= i < j < |all|
      ensures all[i] != all[j]
    {
      if j >= |s.targets| {
        assert all[j] in outside;
        MemberNamed(s.targets, all[j]);
      }
    }
    assert multiset(all) == multiset(s.targets) + multiset(outside);
    forall i, j | 0 <= i < j < |vertices|
      ensures vertices[i] != vertices[j]
    {
      if vertices[i] == vertices[j] {
        CountTwice(vertices, i, j);
        CountAtMostOne(all, vertices[i]);
        assert false;
      }
    }
  }

  /** Whatever order the targets are listed in, a target comes after what no chain of packages
      that need it cuts off from it. */
  lemma SureNeedPlaced(s: Scope, outside: seq<Pkg>, g: Graph, order: seq<nat>, r: seq<Pkg>, reverse: bool, a: Pkg, b: Pkg)
    requires Arranged(s, outside, g, order, r, reverse) && Distinct(s.targets)
    requires a in s.targets && b in s.targets && a != b && SurelyNeeds(s, a, b)
    ensures Placed(r, b, a, reverse)
  {
    hide Represents, SurelyNeeds, OutsideList, GraphOf, Distinct, Listed, LedOrder, PostOrder, Reversed, Placed;
    var vertices := Listed(s.targets, outside, 0);
    RepresentsValid(s, vertices, g);
    VerticesDistinct(s, outside);
    var u :| 0 <= u < |s.targets| && s.targets[u] == a;
    var v :| 0 <= v < |s.targets| && s.targets[v] == b;
    TargetVertex(s, vertices, g, u);
    TargetVertex(s, vertices, g, v);
    SureNeedInOrder(s, vertices, g, u, v);
    LeftFirstIff(g, v, u);
    LedBefore(s, g, order, v, u);
    PlacedEitherWay(PkgsAt(s.targets, order), r, b, a, reverse);
  }

  /** Every target comes after what no chain of packages that need it cuts off from it. */
  ghost predicate SurePlaced(s: Scope, r: seq<Pkg>, reverse: bool) {
    forall a, b :: a in s.targets && b in s.targets && a != b && SurelyNeeds(s, a, b) ==> Placed(r, b, a, reverse)
  }

  lemma AllSurePlaced(s: Scope, outside: seq<Pkg>, g: Graph, order: seq<nat>, r: seq<Pkg>, reverse: bool)
    requires Arranged(s, outside, g, order, r, reverse) && Distinct(s.targets)
    ensures SurePlaced(s, r, reverse)
  {
    hide Arranged, SurelyNeeds, Placed;
    forall a, b | a in s.targets && b in s.targets && a != b && SurelyNeeds(s, a, b)
      ensures Placed(r, b, a, reverse)
    {
      SureNeedPlaced(s, outside, g, order, r, reverse, a, b);
    }
  }

  lemma TargetVertex(s: Scope, vertices: seq<Pkg>, g: Graph, u: nat)
    requires Represents(s, vertices, g) && u < |s.targets|
    ensures u < |vertices| && vertices[u] == s.targets[u]
  {
  }

  lemma LedBefore(s: Scope, g: Graph, order: seq<nat>, u: nat, v: nat)
    requires LedOrder(g, order, |s.targets|) && u < |s.targets| && v < |s.targets| && u != v && Led(g, u, v)
    ensures PkgBefore(PkgsAt(s.targets, order), s.targets[u], s.targets[v])
  {
    hide Led;
    var i, j :| 0 <= i < j < |order| && order[i] == u && order[j] == v;
    var r := PkgsAt(s.targets, order);
    assert r[i] == s.targets[u] && r[j] == s.targets[v];
  }

  /** Every target comes after what it needs for good. */
  ghost predicate GoodPlaced(s: Scope, r: seq<Pkg>, reverse: bool) {
    forall p :: NeedsForGood(s, p) && p[0] in s.targets && p[|p| - 1] in s.targets ==>
      Placed(r, p[|p| - 1], p[0], reverse)
  }

  lemma AllGoodPlaced(s: Scope, vertices: seq<Pkg>, g: Graph, target: seq<bool>, forward: seq<Pkg>, r: seq<Pkg>, reverse: bool)
    requires Represents(s, vertices, g) && |target| == |vertices|
    requires forall v :: 0 <= v < |vertices| ==> target[v] == (vertices[v] in s.targets)
    requires var order := Picked(PostOrder(g), target);
             (forall v: nat :: v in order <==> v < |s.targets|) &&
             (forall k :: 0 <= k < |order| ==> order[k] < |s.targets|) && forward == PkgsAt(s.targets, order)
    requires r == if reverse then Reversed(forward) else forward
    ensures GoodPlaced(s, r, reverse)
  {
    hide DependsOn, NeedsForGood, PostOrder, Picked, Represents, Placed, Reversed;
    forall p | NeedsForGood(s, p) && p[0] in s.targets && p[|p| - 1] in s.targets
      ensures Placed(r, p[|p| - 1], p[0], reverse)
    {
      NeededInTargets(s, vertices, g, target, forward, p);
      PlacedEitherWay(forward, r, p[|p| - 1], p[0], reverse);
    }
  }

  /** _klpm_sortbydeps: the targets in the order in which the walk over the graph leaves them
      (the other way round when reversed). */
  method SortTargets(local: seq<Pkg>, targets: seq<Pkg>, ignored: seq<Pkg>, reverse: bool) returns (newtargs: seq<Pkg>)
    requires UniqueNames(local)
    ensures multiset(newtargs) == multiset(targets)
    ensures exists outside, g, order :: Arranged(Scope(local, targets, ignored), outside, g, order, newtargs, reverse)
    ensures Distinct(targets) ==> SurePlaced(Scope(local, targets, ignored), newtargs, reverse)
    ensures GoodPlaced(Scope(local, targets, ignored), newtargs, reverse)
  {
    hide DependsOn, PostOrder, Picked, Represents, Reversed, LedOrder, Listed, AllRising, ExactEdges, Named, UniqueNames, Sorted, AtMost, SurePlaced, GoodPlaced, Distinct;
    ghost var s := Scope(local, targets, ignored);
    var outside := PkgDiff(local, targets);
    outside := PkgDiff(outside, ignored);
    var vertices, g := DepGraphInit(targets, outside);
    GraphRepresents(s, outside, vertices, g);
    RepresentsValid(s, vertices, g);
    var target := seq(|vertices|, v requires 0 <= v < |vertices| => vertices[v] in targets);
    var order := WalkVertices(g, target);
    PickedTargets(s, vertices, g, target);
    PickedLed(g, target, |targets|);
    PkgsAtPermutes(targets, order);
    newtargs := PkgsAt(targets, order);
    ghost var forward := newtargs;
    if reverse {
      newtargs := Reversed(newtargs);
    }
    AllGoodPlaced(s, vertices, g, target, forward, newtargs, reverse);
    assert Arranged(s, outside, g, order, newtargs, reverse);
    if Distinct(targets) {
      AllSurePlaced(s, outside, g, order, newtargs, reverse);
    }
  }
}
