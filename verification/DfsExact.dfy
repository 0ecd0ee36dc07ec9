/** Exactly when the walk leaves one vertex before another, read off the graph as it is listed. */
module DfsExact {
  import opened Lists
  import opened Dfs

  /** The walk comes to u down the chain s, and neither on the way nor from u does it come to v:
      - from no starting point before s[0] does one get to the chain or to v;
      - at each step down the chain, from no child listed before the next one does one get, around
        the chain so far, to the rest of the chain or to v;
      - from u one does not get to v around the chain. */
  ghost predicate LedDown(g: Graph, s: seq<nat>, u: nat, v: nat) {
    && Chain(g, s, u)
    && (forall r: nat, x :: r < s[0] && (x in s || x == v) ==> !Reaches(g, r, x))
    && (forall i :: 0 <= i < |s| - 1 ==> StepClear(g, s, i, v))
    && !ReachesAround(g, u, v, s[..|s| - 1])
  }

  ghost predicate StepClear(g: Graph, s: seq<nat>, i: nat, v: nat)
    requires i + 1 < |s|
  {
    var x, y, passed, ahead := s[i], s[i + 1], s[..i + 1], s[i + 1..];
    forall c :: Earlier(g, x, c, y) && c !in passed ==> BranchClear(g, passed, ahead, c, v)
  }

  /** From c one gets, around the vertices passed, to none of those ahead and not to v. */
  ghost predicate BranchClear(g: Graph, passed: seq<nat>, ahead: seq<nat>, c: nat, v: nat) {
    forall x :: x in ahead || x == v ==> !ReachesAround(g, c, x, passed)
  }

  // ----- if v comes later, the walk was led down such a chain

  lemma ShutOff(g: Graph, done: seq<nat>, s: seq<nat>, a: nat, x: nat)
    requires Shut(g, done, s) && a in done && x !in done
    ensures !ReachesAround(g, a, x, s)
  {
    if ReachesAround(g, a, x, s) {
      var p :| IsPath(g, p) && p[0] == a && p[|p| - 1] == x && Avoids(p, s);
      StaysShut(g, done, s, p, |p| - 1);
      assert false;
    }
  }

  lemma ReachIsAround(g: Graph, a: nat, x: nat)
    ensures Reaches(g, a, x) <==> ReachesAround(g, a, x, [])
  {
    if Reaches(g, a, x) {
      var p :| IsPath(g, p) && p[0] == a && p[|p| - 1] == x;
      assert Avoids(p, []);
    }
  }

  lemma StoodIsLed(g: Graph, out: seq<nat>, n: nat, s: seq<nat>, v: nat)
    requires n < |out| && Distinct(out) && Stood(g, out, n, s) && v !in out[..n + 1]
    ensures LedDown(g, s, out[n], v)
  {
    hide Chain, Reaches, ReachesAround, Shut;
    var u, before := out[n], out[..n];
    assert v !in before by { assert before == out[..n + 1][..n]; }
    if ReachesAround(g, u, v, s[..|s| - 1]) {
      LeftByThen(g, out, n, s, v);
      assert false;
    }
    var done :| done <= before && Shut(g, done, []) && forall r :: 0 <= r < s[0] ==> r in done;
    forall r: nat, x | r < s[0] && (x in s || x == v) ensures !Reaches(g, r, x) {
      assert x !in done;
      ShutOff(g, done, [], r, x);
      ReachIsAround(g, r, x);
    }
    forall i | 0 <= i < |s| - 1 ensures StepClear(g, s, i, v) {
      assert StepTrail(g, s, i, before);
      StepIsClear(g, s, i, before, v);
    }
  }

  lemma StepIsClear(g: Graph, s: seq<nat>, i: nat, out: seq<nat>, v: nat)
    requires i + 1 < |s| && StepTrail(g, s, i, out) && v !in out && forall k :: 0 <= k < |s| ==> s[k] !in out
    ensures StepClear(g, s, i, v)
  {
    hide ReachesAround, Shut, Earlier;
    var done :| done <= out && Passed(g, s, i, done);
    var passed, ahead := s[..i + 1], s[i + 1..];
    forall c | Earlier(g, s[i], c, s[i + 1]) && c !in passed ensures BranchClear(g, passed, ahead, c, v) {
      forall x | x in ahead || x == v ensures !ReachesAround(g, c, x, passed) {
        assert c in done && x !in done;
        ShutOff(g, done, passed, c, x);
      }
    }
  }

  // ----- what a visit enters and leaves

  /** x is reached from v over vertices outside seen. */
  ghost predicate FreshPath(g: Graph, seen: set<nat>, v: nat, x: nat) {
    exists p :: IsPath(g, p) && p[0] == v && p[|p| - 1] == x && Outside(p, seen)
  }

  ghost predicate Outside(p: seq<nat>, seen: set<nat>) { forall k :: 1 <= k < |p| ==> p[k] !in seen }

  lemma FreshStep(g: Graph, seen: set<nat>, v: nat, c: nat, x: nat)
    requires Edge(g, v, c) && c !in seen && FreshPath(g, seen, c, x)
    ensures FreshPath(g, seen, v, x)
  {
    var p :| IsPath(g, p) && p[0] == c && p[|p| - 1] == x && Outside(p, seen);
    var q := [v] + p;
    forall i | 0 <= i < |q| - 1 ensures Edge(g, q[i], q[i + 1]) {
      if i > 0 { assert Edge(g, p[i - 1], p[i]); }
    }
    assert IsPath(g, q) && q[0] == v && q[|q| - 1] == x;
    assert Outside(q, seen);
  }

  lemma FreshFewer(g: Graph, seen: set<nat>, more: set<nat>, v: nat, x: nat)
    requires seen <= more && FreshPath(g, more, v, x)
    ensures FreshPath(g, seen, v, x)
  {
    var p :| IsPath(g, p) && p[0] == v && p[|p| - 1] == x && Outside(p, more);
    assert Outside(p, seen);
  }

  lemma FreshSelf(g: Graph, seen: set<nat>, v: nat)
    ensures FreshPath(g, seen, v, v)
  {
    assert IsPath(g, [v]) && [v][0] == v && Outside([v], seen);
  }

  /** A visit enters only what it reaches over vertices not entered before. */
  lemma {:induction false} EntersFresh(g: Graph, v: nat, i: nat, w: Walk, x: nat)
    requires ValidGraph(g) && v < |g| && i <= |g[v]| && v in w.seen
    requires x in Visit(g, v, i, w).seen && x !in w.seen
    ensures FreshPath(g, w.seen, v, x)
    decreases Vertices(g) - w.seen, |g[v]| - i
  {
    hide FreshPath;
    if i < |g[v]| {
      var c := g[v][i];
      if c in w.seen {
        EntersFresh(g, v, i + 1, w, x);
      } else {
        var e := Walk(w.seen + {c}, w.out);
        var back := Visit(g, c, 0, e);
        assert Edge(g, v, c);
        if x == c {
          FreshSelf(g, w.seen, c);
          FreshStep(g, w.seen, v, c, x);
        } else if x in back.seen {
          EntersFresh(g, c, 0, e, x);
          FreshFewer(g, w.seen, e.seen, c, x);
          FreshStep(g, w.seen, v, c, x);
        } else {
          EntersFresh(g, v, i + 1, back, x);
          FreshFewer(g, w.seen, back.seen, v, x);
        }
      }
    }
  }

  /** A visit only adds to what has been left: vertices it enters, and v last. */
  ghost predicate Adds(w: Walk, r: Walk, v: nat) {
    && w.out < r.out && r.out[|r.out| - 1] == v
    && forall k :: |w.out| <= k < |r.out| ==> r.out[k] == v || (r.out[k] in r.seen && r.out[k] !in w.seen)
  }

  lemma {:induction false} VisitAdds(g: Graph, v: nat, i: nat, w: Walk)
    requires ValidGraph(g) && v < |g| && i <= |g[v]| && v in w.seen
    ensures Adds(w, Visit(g, v, i, w), v)
    decreases Vertices(g) - w.seen, |g[v]| - i
  {
    if i < |g[v]| {
      var c := g[v][i];
      if c in w.seen {
        VisitAdds(g, v, i + 1, w);
      } else {
        var e := Walk(w.seen + {c}, w.out);
        var back := Visit(g, c, 0, e);
        VisitAdds(g, c, 0, e);
        VisitAdds(g, v, i + 1, back);
        AddsOn(w, e, back, Visit(g, v, i + 1, back), v, c);
      }
    }
  }

  lemma AddsOn(w: Walk, e: Walk, back: Walk, r: Walk, v: nat, c: nat)
    requires e == Walk(w.seen + {c}, w.out) && c !in w.seen && v in w.seen && back.seen <= r.seen && e.seen <= back.seen
    requires Adds(e, back, c) && Adds(back, r, v)
    ensures Adds(w, r, v)
  {
    forall k | |w.out| <= k < |r.out| ensures r.out[k] == v || (r.out[k] in r.seen && r.out[k] !in w.seen) {
      if k < |back.out| { assert r.out[k] == back.out[k]; }
    }
  }

  lemma {:induction false} AllAdd(g: Graph, k: nat, w: Walk)
    requires ValidGraph(g) && k <= |g|
    ensures w.out <= VisitAll(g, k, w).out
    decreases |g| - k
  {
    hide Visit;
    if k < |g| {
      if k in w.seen {
        AllAdd(g, k + 1, w);
      } else {
        var e := Walk(w.seen + {k}, w.out);
        VisitAdds(g, k, 0, e);
        AllAdd(g, k + 1, Visit(g, k, 0, e));
      }
    }
  }

  // ----- such a chain leads the walk down to u before v

  /** u is there and v does not come before it. */
  ghost predicate Ahead(out: seq<nat>, u: nat, v: nat) { exists n :: 0 <= n < |out| && out[n] == u && v !in out[..n] }

  lemma AheadStays(a: seq<nat>, b: seq<nat>, u: nat, v: nat)
    requires Ahead(a, u, v) && a <= b
    ensures Ahead(b, u, v)
  {
    var n :| 0 <= n < |a| && a[n] == u && v !in a[..n];
    assert b[..n] == a[..n] && b[n] == u;
  }

  /** The walk stands at s[i]: the chain so far has been entered and the rest of it has not; v
      has not been left, nor entered unless it is on the chain so far. */
  ghost predicate Standing(s: seq<nat>, i: nat, v: nat, w: Walk) {
    && i < |s| && v !in w.out && (v in w.seen ==> v in s[..i + 1])
    && (forall k :: 0 <= k <= i ==> s[k] in w.seen) && (forall k :: i < k < |s| ==> s[k] !in w.seen)
    && (forall k :: 0 <= k < |w.out| ==> w.out[k] in w.seen)
  }

  lemma FreshIsAround(g: Graph, seen: set<nat>, a: nat, x: nat, s: seq<nat>)
    requires FreshPath(g, seen, a, x) && a !in s && forall y :: y in s ==> y in seen
    ensures ReachesAround(g, a, x, s)
  {
    var p :| IsPath(g, p) && p[0] == a && p[|p| - 1] == x && Outside(p, seen);
    assert Avoids(p, s);
  }

  lemma AtTheEnd(g: Graph, s: seq<nat>, u: nat, v: nat, j: nat, w: Walk)
    requires ValidGraph(g) && LedDown(g, s, u, v) && u < |g| && u != v && j <= |g[u]| && Standing(s, |s| - 1, v, w)
    ensures u in w.seen && Ahead(Visit(g, u, j, w).out, u, v)
  {
    hide Visit, ReachesAround, Reaches;
    EndOf(g, s, u);
    var r := Visit(g, u, j, w);
    VisitAdds(g, u, j, w);
    if v in r.seen && v !in w.seen {
      EntersFresh(g, u, j, w, v);
      LastNotEarlier(g, s, u);
      FreshIsAround(g, w.seen, u, v, s[..|s| - 1]);
      assert false;
    }
    var n := |r.out| - 1;
    forall k | 0 <= k < n ensures r.out[k] != v { if k < |w.out| { assert r.out[k] == w.out[k]; } }
    assert r.out[n] == u && v !in r.out[..n];
  }

  lemma LastNotEarlier(g: Graph, s: seq<nat>, u: nat)
    requires Chain(g, s, u)
    ensures u !in s[..|s| - 1]
  {
  }

  lemma {:induction false} DownTheChain(g: Graph, s: seq<nat>, u: nat, v: nat, i: nat, j: nat, w: Walk)
    requires ValidGraph(g) && LedDown(g, s, u, v) && u < |g| && u != v && Standing(s, i, v, w)
    requires s[i] < |g| && j <= |g[s[i]]| && (i + 1 < |s| ==> j <= IndexIn(g[s[i]], s[i + 1]))
    ensures s[i] in w.seen && Ahead(Visit(g, s[i], j, w).out, u, v)
    decreases |s| - i, |g[s[i]]| - j
  {
    hide ReachesAround, Reaches, Chain, IndexIn;
    EndOf(g, s, u);
    if i == |s| - 1 {
      AtTheEnd(g, s, u, v, j, w);
    } else {
      OnChain(g, s, u, i);
      var x, c := s[i], g[s[i]][j];
      if j == IndexIn(g[x], s[i + 1]) {
        NextStands(g, s, u, v, i, w);
        var e := Walk(w.seen + {c}, w.out);
        DownTheChain(g, s, u, v, i + 1, 0, e);
        var back := Visit(g, c, 0, e);
        VisitAdds(g, x, j + 1, back);
        AheadStays(back.out, Visit(g, x, j + 1, back).out, u, v);
      } else if c in w.seen {
        DownTheChain(g, s, u, v, i, j + 1, w);
      } else {
        var e := Walk(w.seen + {c}, w.out);
        SideBranch(g, s, u, v, i, j, w);
        DownTheChain(g, s, u, v, i, j + 1, Visit(g, c, 0, e));
      }
    }
  }

  lemma OnChain(g: Graph, s: seq<nat>, u: nat, i: nat)
    requires Chain(g, s, u) && i + 1 < |s|
    ensures Edge(g, s[i], s[i + 1]) && IndexIn(g[s[i]], s[i + 1]) < |g[s[i]]| && s[i] != s[i + 1]
  {
  }

  lemma NextStands(g: Graph, s: seq<nat>, u: nat, v: nat, i: nat, w: Walk)
    requires LedDown(g, s, u, v) && u != v && Standing(s, i, v, w) && i + 1 < |s|
    ensures s[i + 1] !in w.seen && Standing(s, i + 1, v, Walk(w.seen + {s[i + 1]}, w.out))
  {
    hide ReachesAround;
    assert s[..i + 2] == s[..i + 1] + [s[i + 1]];
    assert forall k :: i + 1 < k < |s| ==> s[k] != s[i + 1];
  }

  /** An earlier child that has not been entered leads neither down the chain nor to v. */
  lemma SideBranch(g: Graph, s: seq<nat>, u: nat, v: nat, i: nat, j: nat, w: Walk)
    requires ValidGraph(g) && LedDown(g, s, u, v) && Standing(s, i, v, w) && i + 1 < |s|
    requires s[i] < |g| && j < IndexIn(g[s[i]], s[i + 1]) && g[s[i]][j] !in w.seen
    ensures var c := g[s[i]][j]; Standing(s, i, v, Visit(g, c, 0, Walk(w.seen + {c}, w.out)))
  {
    hide ReachesAround, Reaches, Chain, Visit;
    var c := g[s[i]][j];
    var e := Walk(w.seen + {c}, w.out);
    var r := Visit(g, c, 0, e);
    VisitAdds(g, c, 0, e);
    assert StepClear(g, s, i, v);
    assert Earlier(g, s[i], c, s[i + 1]) by { assert g[s[i]][..IndexIn(g[s[i]], s[i + 1])][j] == c; }
    assert c !in s[..i + 1];
    assert BranchClear(g, s[..i + 1], s[i + 1..], c, v);
    forall x | (x in s[i + 1..] || x == v) && x !in w.seen ensures x !in r.seen {
      if x in r.seen {
        if x == c { FreshSelf(g, w.seen, c); } else { EntersFresh(g, c, 0, e, x); FreshFewer(g, w.seen, e.seen, c, x); }
        FreshIsAround(g, w.seen, c, x, s[..i + 1]);
        assert false;
      }
    }
    forall k | i < k < |s| ensures s[k] !in r.seen { assert s[k] == s[i + 1..][k - i - 1]; }
    forall k | 0 <= k < |r.out| ensures r.out[k] != v && r.out[k] in r.seen {
      if k < |w.out| { assert r.out[k] == w.out[k]; }
    }
  }

  lemma {:induction false} ToTheRoot(g: Graph, s: seq<nat>, u: nat, v: nat, k: nat, w: Walk)
    requires ValidGraph(g) && LedDown(g, s, u, v) && u < |g| && u != v && k <= s[0] < |g|
    requires v !in w.seen && (forall i :: 0 <= i < |s| ==> s[i] !in w.seen) && forall i :: 0 <= i < |w.out| ==> w.out[i] in w.seen
    ensures Ahead(VisitAll(g, k, w).out, u, v)
    decreases s[0] - k
  {
    hide ReachesAround, Reaches, Chain, Visit;
    EndOf(g, s, u);
    if k == s[0] {
      var e := Walk(w.seen + {k}, w.out);
      assert Standing(s, 0, v, e) by { FirstStands(g, s, u, v, w); }
      DownTheChain(g, s, u, v, 0, 0, e);
      AllAdd(g, k + 1, Visit(g, k, 0, e));
      AheadStays(Visit(g, k, 0, e).out, VisitAll(g, k, w).out, u, v);
    } else if k in w.seen {
      ToTheRoot(g, s, u, v, k + 1, w);
    } else {
      OtherRoot(g, s, u, v, k, w);
      ToTheRoot(g, s, u, v, k + 1, Visit(g, k, 0, Walk(w.seen + {k}, w.out)));
    }
  }

  lemma FirstStands(g: Graph, s: seq<nat>, u: nat, v: nat, w: Walk)
    requires Chain(g, s, u) && v !in w.seen && (forall i :: 0 <= i < |s| ==> s[i] !in w.seen)
    requires forall i :: 0 <= i < |w.out| ==> w.out[i] in w.seen
    ensures Standing(s, 0, v, Walk(w.seen + {s[0]}, w.out))
  {
    assert s[..1] == [s[0]];
  }

  /** A starting point before s[0] leads neither to the chain nor to v. */
  lemma OtherRoot(g: Graph, s: seq<nat>, u: nat, v: nat, k: nat, w: Walk)
    requires ValidGraph(g) && LedDown(g, s, u, v) && k < s[0] && k < |g| && k !in w.seen
    requires v !in w.seen && (forall i :: 0 <= i < |s| ==> s[i] !in w.seen) && forall i :: 0 <= i < |w.out| ==> w.out[i] in w.seen
    ensures var r := Visit(g, k, 0, Walk(w.seen + {k}, w.out));
            v !in r.seen && (forall i :: 0 <= i < |s| ==> s[i] !in r.seen) && forall i :: 0 <= i < |r.out| ==> r.out[i] in r.seen
  {
    hide ReachesAround, Chain, Visit;
    var e := Walk(w.seen + {k}, w.out);
    var r := Visit(g, k, 0, e);
    VisitAdds(g, k, 0, e);
    forall x | x in s || x == v ensures x !in r.seen {
      ReachesSelf(g, k);
      assert !Reaches(g, k, x);
      if x in r.seen {
        EntersFresh(g, k, 0, e, x);
        assert false;
      }
    }
    forall i | 0 <= i < |r.out| ensures r.out[i] in r.seen { if i < |w.out| { assert r.out[i] == w.out[i]; } }
  }

  lemma AheadIsBefore(out: seq<nat>, u: nat, v: nat)
    requires Distinct(out) && u in out && v in out && u != v
    ensures Ahead(out, u, v) <==> Before(out, u, v)
    ensures Before(out, u, v) <==> !Before(out, v, u)
  {
    var i :| 0 <= i < |out| && out[i] == u;
    var j :| 0 <= j < |out| && out[j] == v;
    if i < j {
      assert v !in out[..i];
    } else {
      forall n | 0 <= n < |out| && out[n] == u ensures v in out[..n] {
        assert n == i;
        assert out[..n][j] == v;
      }
    }
  }

  /** u is left before v exactly if the walk is led down a chain to u, past v. */
  lemma LeftFirstIff(g: Graph, u: nat, v: nat)
    requires ValidGraph(g) && u < |g| && v < |g| && u != v
    ensures Before(PostOrder(g), u, v) <==> exists s :: LedDown(g, s, u, v)
    ensures Before(PostOrder(g), u, v) <==> !Before(PostOrder(g), v, u)
  {
    hide PostOrder, VisitAll, LedDown;
    var out := PostOrder(g);
    PostOrderSettled(g);
    AheadIsBefore(out, u, v);
    if s :| LedDown(g, s, u, v) {
      LedIsAhead(g, s, u, v);
    }
    if Ahead(out, u, v) {
      var n :| 0 <= n < |out| && out[n] == u && v !in out[..n];
      assert out[..n + 1] == out[..n] + [u];
      assert SettledAt(g, out, n);
      var s :| Stood(g, out, n, s);
      StoodIsLed(g, out, n, s, v);
    }
  }

  lemma LedIsAhead(g: Graph, s: seq<nat>, u: nat, v: nat)
    requires ValidGraph(g) && LedDown(g, s, u, v) && u < |g| && u != v
    ensures Ahead(PostOrder(g), u, v)
  {
    hide VisitAll;
    if |s| > 1 { OnChain(g, s, u, 0); }
    ToTheRoot(g, s, u, v, 0, Walk({}, []));
  }

  // ----- a chain that is listed first

  /** The chain 0, 1, ..., k, whose vertices list their children by number. */
  ghost predicate ListedFirst(g: Graph, s: seq<nat>, k: nat) {
    && |s| == k + 1 && (forall i :: 0 <= i <= k ==> s[i] == i) && Chain(g, s, k)
    && forall i, j, l :: 0 <= i < k && i < |g| && 0 <= j < l < |g[i]| ==> g[i][j] < g[i][l]
  }

  /** Such a chain is walked straight down; then only the last clause counts. */
  lemma StraightDown(g: Graph, k: nat, v: nat, s: seq<nat>)
    requires ListedFirst(g, s, k)
    ensures LedDown(g, s, k, v) <==> !ReachesAround(g, k, v, s[..k])
  {
    hide ReachesAround, Reaches;
    forall i | 0 <= i < |s| - 1 ensures StepClear(g, s, i, v) {
      var x, y := s[i], s[i + 1];
      forall c: nat | Earlier(g, x, c, y) ensures c in s[..i + 1] {
        OnChain(g, s, k, i);
        var m := IndexIn(g[i], i + 1);
        var j :| 0 <= j < m && g[i][j] == c;
        assert c < i + 1;
        assert s[..i + 1][c] == c;
      }
    }
  }

  /** The walk is led down to k on no other chain. */
  lemma {:induction false} NoOtherWay(g: Graph, k: nat, v: nat, s: seq<nat>, t: seq<nat>, i: nat)
    requires ListedFirst(g, s, k) && LedDown(g, t, k, v) && i <= k
    ensures i < |t| && t[..i + 1] == s[..i + 1]
    decreases i
  {
    hide LedDown, ListedFirst;
    assert s[i] == i && |s| == k + 1 by { Straight(g, k, s, i); }
    if i == 0 {
      SameStart(g, k, v, s, t);
    } else {
      NoOtherWay(g, k, v, s, t, i - 1);
      NextIsNext(g, k, v, s, t, i);
      assert t[..i + 1] == t[..i] + [i] && s[..i + 1] == s[..i] + [i];
    }
  }

  lemma Straight(g: Graph, k: nat, s: seq<nat>, i: nat)
    requires ListedFirst(g, s, k) && i <= k
    ensures |s| == k + 1 && s[i] == i
  {
  }

  lemma SameStart(g: Graph, k: nat, v: nat, s: seq<nat>, t: seq<nat>)
    requires ListedFirst(g, s, k) && LedDown(g, t, k, v)
    ensures t != [] && t[0] == 0
  {
    hide Reaches, ReachesAround;
    assert Reaches(g, 0, k) by {
      ReachesSelf(g, k);
      if k > 0 { ChainReaches(g, s, 0, k); }
    }
    assert t[|t| - 1] in t;
  }

  lemma NextIsNext(g: Graph, k: nat, v: nat, s: seq<nat>, t: seq<nat>, i: nat)
    requires ListedFirst(g, s, k) && LedDown(g, t, k, v) && 0 < i <= k && i <= |t| && t[..i] == s[..i]
    ensures i < |t| && t[i] == i
  {
    hide Reaches, ReachesAround;
    SamePrefix(t, s, i, i - 1);
    assert t[|t| - 1] == k && i < |t|;
    OnChain(g, t, k, i - 1);
    NotPassed(t, i, s);
    assert StepClear(g, t, i - 1, v);
    assert i !in s[..i];
    AroundAhead(g, s, k, i);
    assert t[i..][|t| - 1 - i] == k;
    if t[i] != i {
      LaterChild(g, s, k, i, t[i]);
      assert false;
    }
  }

  lemma NotPassed(t: seq<nat>, i: nat, s: seq<nat>)
    requires Distinct(t) && 0 < i < |t| && i <= |s| && t[..i] == s[..i] && forall j :: 0 <= j < i ==> s[j] == j
    ensures t[i] >= i
  {
    if t[i] < i {
      SamePrefix(t, s, i, t[i]);
      assert false;
    }
  }

  lemma SamePrefix(t: seq<nat>, s: seq<nat>, i: nat, j: nat)
    requires j < i <= |t| && i <= |s| && t[..i] == s[..i]
    ensures t[j] == s[j]
  {
    assert t[..i][j] == s[..i][j];
  }

  /** A child of i - 1 that is not yet passed and is not i comes after i. */
  lemma LaterChild(g: Graph, s: seq<nat>, k: nat, i: nat, y: nat)
    requires ListedFirst(g, s, k) && 0 < i <= k && Edge(g, i - 1, y) && y > i
    ensures Earlier(g, i - 1, i, y)
  {
    OnChain(g, s, k, i - 1);
    var m, n := IndexIn(g[i - 1], i), IndexIn(g[i - 1], y);
    assert y in g[i - 1];
    assert g[i - 1][m] == i && g[i - 1][n] == y;
    assert g[i - 1][..n][m] == i;
  }

  lemma AroundAhead(g: Graph, s: seq<nat>, k: nat, i: nat)
    requires ListedFirst(g, s, k) && i <= k
    ensures ReachesAround(g, i, k, s[..i])
  {
    var q := s[i..];
    assert IsPath(g, q) && q[0] == i && q[|q| - 1] == k && Avoids(q, s[..i]);
  }

  /** When the chain 0, 1, ..., k is listed first, k comes before v exactly when the rest of the
      chain cuts v off from k. */
  lemma CutOffIff(g: Graph, k: nat, v: nat, s: seq<nat>)
    requires ValidGraph(g) && ListedFirst(g, s, k) && k < |g| && v < |g| && v != k
    ensures Before(PostOrder(g), k, v) <==> !ReachesAround(g, k, v, s[..k])
  {
    hide LedDown, ListedFirst, ReachesAround, PostOrder;
    StraightDown(g, k, v, s);
    LeftFirstIff(g, k, v);
    if t :| LedDown(g, t, k, v) {
      NoOtherWay(g, k, v, s, t, k);
      OnlyChain(g, k, v, s, t);
    }
  }

  lemma OnlyChain(g: Graph, k: nat, v: nat, s: seq<nat>, t: seq<nat>)
    requires ListedFirst(g, s, k) && LedDown(g, t, k, v) && k < |t| && t[..k + 1] == s[..k + 1]
    ensures t == s
  {
    hide ReachesAround, Reaches;
    assert t[k] == t[..k + 1][k] == k;
    assert t[|t| - 1] == k;
    assert |t| - 1 == k;
    assert t[..k + 1] == t && s[..k + 1] == s;
  }
}
