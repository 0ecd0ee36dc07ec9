/** Depth-first post-order, written recursively: the specification of the non-recursive
    walk over parent pointers in _klpm_sortbydeps, and what the order guarantees. */
module Dfs {
  import opened Lists

  type Graph = seq<seq<nat>>

  predicate ValidGraph(g: Graph) { forall v, i :: 0 <= v < |g| && 0 <= i < |g[v]| ==> g[v][i] < |g| }

  predicate Edge(g: Graph, v: nat, c: nat) { v < |g| && c in g[v] }

  ghost predicate IsPath(g: Graph, p: seq<nat>) {
    p != [] && forall i :: 0 <= i < |p| - 1 ==> Edge(g, p[i], p[i + 1])
  }

  ghost predicate Reaches(g: Graph, a: nat, b: nat) {
    exists p :: IsPath(g, p) && p[0] == a && p[|p| - 1] == b
  }

  lemma ReachesSelf(g: Graph, a: nat)
    ensures Reaches(g, a, a)
  {
    assert IsPath(g, [a]) && [a][0] == a;
  }

  // ----- the recursive walk

  /** The vertices entered so far and the vertices left so far, in the order of leaving. */
  datatype Walk = Walk(seen: set<nat>, out: seq<nat>)

  function Below(n: nat): (r: set<nat>)
    ensures forall v: nat :: v in r <==> v < n
  {
    if n == 0 then {} else Below(n - 1) + {n - 1}
  }

  function Vertices(g: Graph): set<nat> { Below(|g|) }

  /** Goes on with the children of v from number i, then leaves v. */
  function Visit(g: Graph, v: nat, i: nat, w: Walk): (r: Walk)
    requires ValidGraph(g) && v < |g| && i <= |g[v]| && v in w.seen
    ensures w.seen <= r.seen
    decreases Vertices(g) - w.seen, |g[v]| - i
  {
    if i == |g[v]| then Walk(w.seen, w.out + [v])
    else
      var c := g[v][i];
      if c in w.seen then Visit(g, v, i + 1, w)
      else
        assert c in Vertices(g) - w.seen;
        Visit(g, v, i + 1, Visit(g, c, 0, Walk(w.seen + {c}, w.out)))
  }

  /** Starts at every vertex from k on that has not been entered. */
  function VisitAll(g: Graph, k: nat, w: Walk): Walk
    requires ValidGraph(g) && k <= |g|
    decreases |g| - k
  {
    if k == |g| then w
    else if k in w.seen then VisitAll(g, k + 1, w)
    else VisitAll(g, k + 1, Visit(g, k, 0, Walk(w.seen + {k}, w.out)))
  }

  function PostOrder(g: Graph): seq<nat>
    requires ValidGraph(g)
  {
    VisitAll(g, 0, Walk({}, [])).out
  }

  // ----- what the order guarantees

  /** A chain of edges without repetition that ends in u. */
  ghost predicate Chain(g: Graph, s: seq<nat>, u: nat)
    ensures Chain(g, s, u) ==> s != []
  {
    IsPath(g, s) && Distinct(s) && s[|s| - 1] == u
  }

  function IndexIn(s: seq<nat>, x: nat): (i: nat)
    ensures i <= |s| && (i < |s| ==> s[i] == x) && forall k :: 0 <= k < i ==> s[k] != x
  {
    if s == [] || s[0] == x then 0 else 1 + IndexIn(s[1..], x)
  }

  /** x lists the child c before the child y. */
  ghost predicate Earlier(g: Graph, x: nat, c: nat, y: nat) { x < |g| && c in g[x][..IndexIn(g[x], y)] }

  /** No edge leads out of the list except to a vertex on s. */
  ghost predicate Shut(g: Graph, done: seq<nat>, s: seq<nat>) {
    forall i, c :: 0 <= i < |done| && Edge(g, done[i], c) ==> c in done || c in s
  }

  /** The vertices at which the walk could have started before it started at s[0] had all been
      left, and so had every vertex they lead to. */
  ghost predicate RootTrail(g: Graph, s: seq<nat>, out: seq<nat>)
    requires s != []
  {
    exists done :: done <= out && Shut(g, done, []) && forall r :: 0 <= r < s[0] ==> r in done
  }

  /** Before the step from s[i] to s[i + 1], the earlier children of s[i] had been left or were
      on the chain, and so was every vertex they lead to. */
  ghost predicate StepTrail(g: Graph, s: seq<nat>, i: nat, out: seq<nat>)
    requires i + 1 < |s|
  {
    exists done :: done <= out && Passed(g, s, i, done)
  }

  ghost predicate Passed(g: Graph, s: seq<nat>, i: nat, done: seq<nat>)
    requires i + 1 < |s|
  {
    Shut(g, done, s[..i + 1]) && forall c :: Earlier(g, s[i], c, s[i + 1]) ==> c in done || c in s[..i + 1]
  }

  ghost predicate Trail(g: Graph, s: seq<nat>, out: seq<nat>)
    requires s != []
  {
    RootTrail(g, s, out) && forall i :: 0 <= i < |s| - 1 ==> StepTrail(g, s, i, out)
  }

  /** The chain on which the walk stood when out[n] was left: none of it had been left, every
      child of a vertex left by then has been left too or is on the chain before out[n], and
      the chain was come down in listing order. */
  ghost predicate Stood(g: Graph, out: seq<nat>, n: nat, s: seq<nat>)
    requires n < |out|
  {
    && Chain(g, s, out[n]) && Trail(g, s, out[..n])
    && (forall k :: 0 <= k < |s| ==> s[k] !in out[..n])
    && forall m, c :: 0 <= m <= n && Edge(g, out[m], c) ==> c in out[..n + 1] || c in s[..|s| - 1]
  }

  ghost predicate SettledAt(g: Graph, out: seq<nat>, n: nat)
    requires n < |out|
  {
    exists s :: Stood(g, out, n, s)
  }

  ghost predicate Settled(g: Graph, out: seq<nat>) { forall n :: 0 <= n < |out| ==> SettledAt(g, out, n) }

  ghost predicate Sound(g: Graph, w: Walk) {
    && w.seen <= Vertices(g)
    && Distinct(w.out)
    && (forall i :: 0 <= i < |w.out| ==> w.out[i] in w.seen)
    && (forall i, c :: 0 <= i < |w.out| && Edge(g, w.out[i], c) ==> c in w.seen)
    && Settled(g, w.out)
  }

  /** The vertices entered and not yet left. */
  ghost function Open(w: Walk): set<nat> { set v | v in w.seen && v !in w.out }

  /** The open vertices are a chain that ends in v, come down in listing order. */
  ghost predicate OpenChain(g: Graph, w: Walk, s: seq<nat>, v: nat) {
    Chain(g, s, v) && Trail(g, s, w.out) && forall x :: x in s <==> x in Open(w)
  }

  lemma TrailGrows(g: Graph, s: seq<nat>, a: seq<nat>, b: seq<nat>)
    requires s != [] && Trail(g, s, a) && a <= b
    ensures Trail(g, s, b)
  {
    hide Shut, Earlier;
    var done :| done <= a && Shut(g, done, []) && forall r :: 0 <= r < s[0] ==> r in done;
    assert done <= b;
    forall i | 0 <= i < |s| - 1 ensures StepTrail(g, s, i, b) {
      assert StepTrail(g, s, i, a);
      var d :| d <= a && Passed(g, s, i, d);
      assert d <= b;
    }
  }

  /** Leaving v, the end of the chain of open vertices, with all its children entered. */
  lemma LeaveSound(g: Graph, v: nat, w: Walk, s: seq<nat>)
    requires Sound(g, w) && OpenChain(g, w, s, v) && v < |g|
    requires forall c :: c in g[v] ==> c in w.seen
    ensures Sound(g, Walk(w.seen, w.out + [v])) && Open(Walk(w.seen, w.out + [v])) == Open(w) - {v}
  {
    hide Chain, Settled, Trail, SettledAt;
    var out := w.out + [v];
    assert v in s && v in Open(w) by { EndOf(g, s, v); }
    forall n | 0 <= n < |out| ensures SettledAt(g, out, n) {
      if n < |w.out| {
        StoodStill(g, w.out, n, v);
      } else {
        LastStood(g, w, v, s);
      }
    }
    SettledBy(g, out);
  }

  lemma EndOf(g: Graph, s: seq<nat>, v: nat)
    requires Chain(g, s, v)
    ensures v in s && s[|s| - 1] == v
  {
  }

  lemma SettledBy(g: Graph, out: seq<nat>)
    requires forall n :: 0 <= n < |out| ==> SettledAt(g, out, n)
    ensures Settled(g, out)
  {
    hide SettledAt;
  }

  lemma StoodStill(g: Graph, out: seq<nat>, n: nat, v: nat)
    requires Settled(g, out) && n < |out|
    ensures SettledAt(g, out + [v], n)
  {
    hide Chain, Trail;
    assert SettledAt(g, out, n);
    var s :| Stood(g, out, n, s);
    assert (out + [v])[..n + 1] == out[..n + 1] && (out + [v])[..n] == out[..n];
    assert Stood(g, out + [v], n, s);
  }

  lemma LastStood(g: Graph, w: Walk, v: nat, s: seq<nat>)
    requires Sound(g, w) && OpenChain(g, w, s, v) && v < |g| && forall c :: c in g[v] ==> c in w.seen
    ensures SettledAt(g, w.out + [v], |w.out|)
  {
    hide Settled, Trail;
    var out := w.out + [v];
    assert out[..|w.out| + 1] == out && out[..|w.out|] == w.out;
    forall m, c | 0 <= m <= |w.out| && Edge(g, out[m], c) ensures c in out || c in s[..|s| - 1] {
      assert m < |w.out| ==> Edge(g, w.out[m], c);
      assert c in w.seen;
      if c !in out {
        assert c in Open(w) && c in s && c != v;
        var k :| 0 <= k < |s| && s[k] == c;
        assert s[..|s| - 1][k] == c;
      }
    }
    forall k | 0 <= k < |s| ensures s[k] !in w.out { assert s[k] in s; }
    assert Stood(g, out, |w.out|, s);
  }

  lemma {:induction false} VisitSound(g: Graph, v: nat, i: nat, w: Walk, s: seq<nat>)
    requires ValidGraph(g) && v < |g| && i <= |g[v]| && v in w.seen
    requires Sound(g, w) && OpenChain(g, w, s, v) && forall j :: 0 <= j < i ==> g[v][j] in w.seen
    ensures Sound(g, Visit(g, v, i, w)) && Open(Visit(g, v, i, w)) == Open(w) - {v}
    ensures w.out <= Visit(g, v, i, w).out
    decreases Vertices(g) - w.seen, |g[v]| - i
  {
    hide Settled, Distinct, Chain, Trail;
    if i == |g[v]| {
      LeaveSound(g, v, w, s);
    } else {
      var c := g[v][i];
      if c in w.seen {
        VisitSound(g, v, i + 1, w, s);
      } else {
        var entered := Walk(w.seen + {c}, w.out);
        EnterSound(g, w, s, v, i);
        VisitSound(g, c, 0, entered, s + [c]);
        var back := Visit(g, c, 0, entered);
        assert Open(back) == Open(w);
        TrailGrows(g, s, w.out, back.out);
        VisitSound(g, v, i + 1, back, s);
      }
    }
  }

  lemma EnterSound(g: Graph, w: Walk, s: seq<nat>, v: nat, i: nat)
    requires Sound(g, w) && v < |g| && i < |g[v]| && g[v][i] !in w.seen && g[v][i] < |g| && OpenChain(g, w, s, v)
    requires forall j :: 0 <= j < i ==> g[v][j] in w.seen
    ensures var c := g[v][i];
            var e := Walk(w.seen + {c}, w.out);
            Sound(g, e) && OpenChain(g, e, s + [c], c) && Open(e) == Open(w) + {c}
  {
    hide Settled, Trail;
    var c := g[v][i];
    assert c !in s;
    var e := Walk(w.seen + {c}, w.out);
    assert Open(e) == Open(w) + {c};
    assert Edge(g, s[|s| - 1], c);
    TrailExtends(g, w, s, v, i);
  }

  lemma TrailExtends(g: Graph, w: Walk, s: seq<nat>, v: nat, i: nat)
    requires Sound(g, w) && v < |g| && i < |g[v]| && g[v][i] !in w.seen && OpenChain(g, w, s, v)
    requires forall j :: 0 <= j < i ==> g[v][j] in w.seen
    ensures Trail(g, s + [g[v][i]], w.out)
  {
    hide Settled;
    var c, n := g[v][i], |s| - 1;
    var t := s + [c];
    assert IndexIn(g[v], c) == i;
    forall k | 0 <= k < |t| - 1 ensures StepTrail(g, t, k, w.out) {
      assert t[..k + 1] == s[..k + 1];
      if k < n {
        assert StepTrail(g, s, k, w.out);
        var d :| d <= w.out && Passed(g, s, k, d);
        assert t[k] == s[k] && t[k + 1] == s[k + 1];
        assert Passed(g, t, k, d);
      } else {
        assert s[..k + 1] == s;
        ShutByOpen(g, w, s);
        forall d | Earlier(g, v, d, c) ensures d in w.out || d in s {
          var j :| 0 <= j < i && g[v][j] == d;
          assert d in w.seen;
          if d !in w.out { assert d in Open(w); }
        }
        assert Passed(g, t, k, w.out) && w.out <= w.out;
      }
    }
  }

  lemma ShutByOpen(g: Graph, w: Walk, s: seq<nat>)
    requires Sound(g, w) && forall x :: x in s <==> x in Open(w)
    ensures Shut(g, w.out, s)
  {
    hide Settled;
    forall i, c | 0 <= i < |w.out| && Edge(g, w.out[i], c) ensures c in w.out || c in s {
      assert c in w.seen;
      if c !in w.out { assert c in Open(w); }
    }
  }

  lemma {:induction false} VisitAllSound(g: Graph, k: nat, w: Walk)
    requires ValidGraph(g) && k <= |g| && Sound(g, w) && Open(w) == {} && forall v :: 0 <= v < k ==> v in w.seen
    ensures var r := VisitAll(g, k, w); Sound(g, r) && Open(r) == {} && r.seen == Vertices(g)
    decreases |g| - k
  {
    hide Settled, Distinct, Visit, OpenChain;
    if k < |g| {
      if k in w.seen {
        VisitAllSound(g, k + 1, w);
      } else {
        var e := Walk(w.seen + {k}, w.out);
        assert Open(e) == {k} && Sound(g, e);
        RootChain(g, w, k);
        VisitSound(g, k, 0, e, [k]);
        VisitAllSound(g, k + 1, Visit(g, k, 0, e));
      }
    }
  }

  lemma RootChain(g: Graph, w: Walk, k: nat)
    requires Sound(g, w) && Open(w) == {} && k !in w.seen && forall v :: 0 <= v < k ==> v in w.seen
    ensures OpenChain(g, Walk(w.seen + {k}, w.out), [k], k)
  {
    hide Settled;
    var e := Walk(w.seen + {k}, w.out);
    assert Open(e) == {k};
    ShutByOpen(g, w, []);
    forall r | 0 <= r < k ensures r in w.out { assert r in w.seen && r !in Open(w); }
    assert w.out <= w.out;
    assert RootTrail(g, [k], w.out);
  }

  /** The post-order lists every vertex once, and is settled at every point. */
  lemma PostOrderSettled(g: Graph)
    requires ValidGraph(g)
    ensures Distinct(PostOrder(g)) && Settled(g, PostOrder(g))
    ensures forall v :: v in PostOrder(g) <==> 0 <= v < |g|
  {
    hide VisitAll, Stood;
    var start := Walk({}, []);
    assert Sound(g, start);
    VisitAllSound(g, 0, start);
    var r := VisitAll(g, 0, start);
    forall v
      ensures v in r.out <==> 0 <= v < |g|
    {
      assert v in r.seen <==> v in Vertices(g);
      assert v !in Open(r);
    }
  }

  /** a comes before b in s. */
  ghost predicate Before(s: seq<nat>, a: nat, b: nat) { exists i, j :: 0 <= i < j < |s| && s[i] == a && s[j] == b }

  /** a leads to b over vertices that are not on s. */
  ghost predicate ReachesAround(g: Graph, a: nat, b: nat, s: seq<nat>) {
    exists p :: IsPath(g, p) && p[0] == a && p[|p| - 1] == b && Avoids(p, s)
  }

  ghost predicate Avoids(p: seq<nat>, s: seq<nat>) { forall k :: 0 <= k < |p| ==> p[k] !in s }

  /** From u one gets to v around every chain that leads to u. */
  ghost predicate NeverCutOff(g: Graph, u: nat, v: nat) {
    forall s :: Chain(g, s, u) ==> ReachesAround(g, u, v, s[..|s| - 1])
  }

  /** Whatever the order of listing, v comes before u if no chain that leads to u cuts it off
      from u. */
  lemma NeverCutOffFirst(g: Graph, u: nat, v: nat)
    requires ValidGraph(g) && u < |g| && u != v && NeverCutOff(g, u, v)
    ensures Before(PostOrder(g), v, u)
  {
    hide PostOrder, Chain, NeverCutOff, Trail;
    var out := PostOrder(g);
    PostOrderSettled(g);
    assert u in out;
    var n :| 0 <= n < |out| && out[n] == u;
    assert SettledAt(g, out, n);
    var s :| Stood(g, out, n, s);
    NotCutOff(g, s, u, v);
    LeftByThen(g, out, n, s, v);
    var i :| 0 <= i < n + 1 && out[i] == v;
    assert i != n;
  }

  lemma NotCutOff(g: Graph, s: seq<nat>, u: nat, v: nat)
    requires NeverCutOff(g, u, v) && Chain(g, s, u)
    ensures ReachesAround(g, u, v, s[..|s| - 1])
  {
  }

  /** What the vertex left leads to around the chain has been left by then. */
  lemma LeftByThen(g: Graph, out: seq<nat>, n: nat, s: seq<nat>, v: nat)
    requires n < |out| && Stood(g, out, n, s) && ReachesAround(g, out[n], v, s[..|s| - 1])
    ensures v in out[..n + 1]
  {
    hide Chain, Trail;
    var p :| IsPath(g, p) && p[0] == out[n] && p[|p| - 1] == v && Avoids(p, s[..|s| - 1]);
    var done := out[..n + 1];
    assert out[n] == done[n];
    forall i, c | 0 <= i < |done| && Edge(g, done[i], c) ensures c in done || c in s[..|s| - 1] {
      assert Edge(g, out[i], c);
    }
    StaysShut(g, done, s[..|s| - 1], p, |p| - 1);
  }

  /** A path that starts in a shut list and keeps clear of the way out stays in the list. */
  lemma {:induction false} StaysShut(g: Graph, done: seq<nat>, s: seq<nat>, p: seq<nat>, k: nat)
    requires Shut(g, done, s) && IsPath(g, p) && p[0] in done && Avoids(p, s) && k < |p|
    ensures p[k] in done
    decreases k
  {
    if k > 0 {
      StaysShut(g, done, s, p, k - 1);
      var m :| 0 <= m < |done| && done[m] == p[k - 1];
      assert Edge(g, done[m], p[k]);
    }
  }

  /** A path from p[0] whose later vertices do not lead back to p[0]. */
  ghost predicate LeavesForGood(g: Graph, p: seq<nat>) {
    IsPath(g, p) && forall k :: 1 <= k < |p| ==> !Reaches(g, p[k], p[0])
  }

  /** Such a path keeps clear of every chain that leads to p[0]. */
  lemma ForGoodIsClear(g: Graph, p: seq<nat>)
    requires |p| > 1 && LeavesForGood(g, p)
    ensures NeverCutOff(g, p[0], p[|p| - 1])
  {
    hide Reaches;
    forall s | Chain(g, s, p[0]) ensures ReachesAround(g, p[0], p[|p| - 1], s[..|s| - 1]) {
      forall k | 0 <= k < |p| ensures p[k] !in s[..|s| - 1] {
        if p[k] in s[..|s| - 1] {
          var i :| 0 <= i < |s| - 1 && s[i] == p[k];
          ChainReaches(g, s, i, p[0]);
          assert false;
        }
      }
      assert Avoids(p, s[..|s| - 1]);
    }
  }

  lemma ChainReaches(g: Graph, s: seq<nat>, i: nat, u: nat)
    requires Chain(g, s, u) && i < |s| - 1
    ensures Reaches(g, s[i], u) && s[i] != u
  {
    var q := s[i..];
    assert IsPath(g, q) && q[0] == s[i] && q[|q| - 1] == u;
  }

  /** Whatever u needs along a path that does not lead back to u comes before u. */
  lemma NeededFirst(g: Graph, p: seq<nat>)
    requires ValidGraph(g) && |p| > 1 && LeavesForGood(g, p) && p[0] < |g|
    ensures Before(PostOrder(g), p[|p| - 1], p[0])
  {
    hide Reaches, PostOrder, NeverCutOff;
    ForGoodIsClear(g, p);
    ReachesSelf(g, p[0]);
    NeverCutOffFirst(g, p[0], p[|p| - 1]);
  }

  /** Needing through others is not enough where a cycle passes through them: in this graph
      1 needs 2 by way of 3, 2 needs nothing, and still 1 is left first. */
  lemma IndirectNeedCanComeLast()
    ensures var g: Graph := [[3], [3], [], [1, 2]];
            ValidGraph(g) && IsPath(g, [1, 3, 2]) && !Reaches(g, 2, 1) && PostOrder(g) == [1, 2, 3, 0]
  {
    var g: Graph := [[3], [3], [], [1, 2]];
    assert ValidGraph(g);
    assert Edge(g, 1, 3) && Edge(g, 3, 2);
    LeafReachesNothing(g, 2, 1);
    ExampleOrder(g);
  }

  lemma LeafReachesNothing(g: Graph, v: nat, b: nat)
    requires v < |g| && g[v] == [] && b != v
    ensures !Reaches(g, v, b)
  {
    forall p | IsPath(g, p) && p[0] == v
      ensures p[|p| - 1] != b
    {
      if |p| > 1 {
        NotAnEdge(g, p);
        assert false;
      }
    }
  }

  lemma NotAnEdge(g: Graph, p: seq<nat>)
    requires |p| > 1 && p[0] < |g| && g[p[0]] == []
    ensures !IsPath(g, p)
  {
    assert !Edge(g, p[0], p[1]);
  }

  lemma ExampleOrder(g: Graph)
    requires g == [[3], [3], [], [1, 2]] && ValidGraph(g)
    ensures PostOrder(g) == [1, 2, 3, 0]
  {
    var w1 := Walk({0, 3, 1}, [1]);
    assert Visit(g, 1, 0, Walk({0, 3, 1}, [])) == w1 by {
      assert Visit(g, 1, 0, Walk({0, 3, 1}, [])) == Visit(g, 1, 1, Walk({0, 3, 1}, []));
    }
    var w2 := Walk({0, 3, 1, 2}, [1, 2]);
    assert Visit(g, 2, 0, Walk({0, 3, 1} + {2}, [1])) == w2;
    assert Visit(g, 3, 2, w2) == Walk({0, 3, 1, 2}, [1, 2, 3]);
    assert Visit(g, 3, 1, w1) == Visit(g, 3, 2, w2);
    assert Walk({0, 3} + {1}, []) == Walk({0, 3, 1}, []);
    assert Visit(g, 3, 0, Walk({0, 3}, [])) == Visit(g, 3, 1, w1);
    var w3 := Walk({0, 3, 1, 2}, [1, 2, 3]);
    assert Visit(g, 0, 1, w3) == Walk({0, 3, 1, 2}, [1, 2, 3, 0]);
    assert Walk({0} + {3}, []) == Walk({0, 3}, []);
    assert Visit(g, 0, 0, Walk({0}, [])) == Visit(g, 0, 1, w3);
    var w4 := Walk({0, 3, 1, 2}, [1, 2, 3, 0]);
    assert VisitAll(g, 4, w4) == w4;
    assert VisitAll(g, 3, w4) == w4;
    assert VisitAll(g, 2, w4) == w4;
    assert VisitAll(g, 1, w4) == w4;
    assert Walk({} + {0}, []) == Walk({0}, []);
  }
}
