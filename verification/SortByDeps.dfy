/** The non-recursive walk of _klpm_sortbydeps (deps.c): vertex states, child iterators and
    parent pointers in place of recursion. */
module SortByDeps {
  import opened Text
  import opened Lists
  import opened Dfs

  datatype State = Unprocessed | Processing | Processed

  /** The fields of the vertices (graph.h), by vertex number. */
  datatype Fields = Fields(state: seq<State>, next: seq<nat>, parent: seq<Option<nat>>)

  ghost predicate Fits(g: Graph, f: Fields) {
    && |f.state| == |f.next| == |f.parent| == |g|
    && forall v :: 0 <= v < |g| ==> f.next[v] <= |g[v]|
  }

  /** A stack of vertices on the walk, each with children yet to be looked at. */
  ghost predicate OnWalk(g: Graph, stack: seq<nat>, seen: set<nat>) {
    Distinct(stack) && forall k :: 0 <= k < |stack| ==> stack[k] < |g| && stack[k] in seen
  }

  ghost predicate Ready(g: Graph, stack: seq<nat>, it: seq<nat>, seen: set<nat>) {
    |it| == |g| && (forall v :: 0 <= v < |g| ==> it[v] <= |g[v]|) && OnWalk(g, stack, seen)
  }

  /** What the recursive walk still does for the vertices on the stack, the last one first. */
  ghost function Unwind(g: Graph, stack: seq<nat>, it: seq<nat>, w: Walk): Walk
    requires ValidGraph(g) && Ready(g, stack, it, w.seen)
    decreases |stack|
  {
    if stack == [] then w
    else
      var n := |stack| - 1;
      Unwind(g, stack[..n], it, Visit(g, stack[n], it[stack[n]], w))
  }

  lemma {:induction false} UnwindFrame(g: Graph, stack: seq<nat>, it: seq<nat>, it': seq<nat>, w: Walk)
    requires ValidGraph(g) && Ready(g, stack, it, w.seen) && Ready(g, stack, it', w.seen)
    requires forall k :: 0 <= k < |stack| ==> it[stack[k]] == it'[stack[k]]
    ensures Unwind(g, stack, it, w) == Unwind(g, stack, it', w)
    decreases |stack|
  {
    hide Visit;
    if stack != [] {
      var n := |stack| - 1;
      UnwindFrame(g, stack[..n], it, it', Visit(g, stack[n], it[stack[n]], w));
    }
  }

  lemma UnwindTop(g: Graph, stack: seq<nat>, it: seq<nat>, w: Walk)
    requires ValidGraph(g) && Ready(g, stack, it, w.seen)
    requires stack != []
    ensures var n := |stack| - 1;
            Unwind(g, stack, it, w) == Unwind(g, stack[..n], it, Visit(g, stack[n], it[stack[n]], w))
  {
    hide Visit;
  }

  /** A child already entered is passed over. */
  lemma SkipChild(g: Graph, stack: seq<nat>, it: seq<nat>, w: Walk)
    requires ValidGraph(g) && Ready(g, stack, it, w.seen)
    requires stack != [] && var v := stack[|stack| - 1]; it[v] < |g[v]| && g[v][it[v]] in w.seen
    ensures var v := stack[|stack| - 1]; Unwind(g, stack, it, w) == Unwind(g, stack, it[v := it[v] + 1], w)
  {
    hide Visit, Unwind;
    var n := |stack| - 1;
    var v := stack[n];
    VisitSkips(g, v, it[v], w);
    UnwindTop(g, stack, it, w);
    UnwindTop(g, stack, it[v := it[v] + 1], w);
    UnwindFrame(g, stack[..n], it, it[v := it[v] + 1], Visit(g, v, it[v] + 1, w));
  }

  lemma VisitSkips(g: Graph, v: nat, i: nat, w: Walk)
    requires ValidGraph(g) && v < |g| && i < |g[v]| && v in w.seen && g[v][i] in w.seen
    ensures Visit(g, v, i, w) == Visit(g, v, i + 1, w)
  {
  }

  /** A new child goes on top of the stack. */
  lemma EnterChild(g: Graph, stack: seq<nat>, it: seq<nat>, w: Walk, c: nat)
    requires ValidGraph(g) && Ready(g, stack, it, w.seen)
    requires stack != [] && c !in w.seen && c < |g| && it[c] == 0
    requires var v := stack[|stack| - 1]; it[v] < |g[v]| && g[v][it[v]] == c
    ensures var v := stack[|stack| - 1];
            && OnWalk(g, stack + [c], w.seen + {c})
            && Unwind(g, stack, it, w) == Unwind(g, stack + [c], it[v := it[v] + 1], Walk(w.seen + {c}, w.out))
  {
    var n := |stack| - 1;
    var v := stack[n];
    var it' := it[v := it[v] + 1];
    var inner := Visit(g, c, 0, Walk(w.seen + {c}, w.out));
    assert (stack + [c])[..n + 1] == stack && (stack + [c])[n + 1] == c;
    assert Unwind(g, stack + [c], it', Walk(w.seen + {c}, w.out)) == Unwind(g, stack, it', inner);
    assert Visit(g, v, it[v], w) == Visit(g, v, it'[v], inner);
    UnwindFrame(g, stack[..n], it, it', Visit(g, v, it'[v], inner));
  }

  /** A vertex with no children left is left. */
  lemma LeaveVertex(g: Graph, stack: seq<nat>, it: seq<nat>, w: Walk)
    requires ValidGraph(g) && Ready(g, stack, it, w.seen)
    requires stack != [] && var v := stack[|stack| - 1]; it[v] == |g[v]|
    ensures var n, v := |stack| - 1, stack[|stack| - 1];
            Unwind(g, stack, it, w) == Unwind(g, stack[..n], it, Walk(w.seen, w.out + [v]))
  {
  }

  /** The targets among the vertices of an order. */
  function Picked(order: seq<nat>, target: seq<bool>): seq<nat> {
    if order == [] then []
    else
      var n := |order| - 1;
      Picked(order[..n], target) + if order[n] < |target| && target[order[n]] then [order[n]] else []
  }

  // ----- the loop

  /** The vertex fields agree with the walk w, with vertex on top of the stack. */
  ghost predicate Consistent(g: Graph, f: Fields, stack: seq<nat>, vertex: nat, w: Walk)
    ensures Consistent(g, f, stack, vertex, w) ==> Ready(g, stack, f.next, w.seen) && vertex < |g| && stack != [] && |f.state| == |g|
    ensures Consistent(g, f, stack, vertex, w) ==> forall v :: v in w.seen ==> v < |g|
  {
    && Fits(g, f) && OnWalk(g, stack, w.seen) && stack != [] && stack[|stack| - 1] == vertex
    && f.parent[stack[0]] == None
    && (forall k :: 1 <= k < |stack| ==> f.parent[stack[k]] == Some(stack[k - 1]))
    && (forall k :: 0 <= k < |stack| ==> f.state[stack[k]] != Processed)
    && (forall v :: v in w.seen ==> v < |g|)
    && (forall v :: 0 <= v < |g| ==> (v in w.seen <==> f.state[v] != Unprocessed || v == vertex))
    && (forall v :: v in w.out <==> 0 <= v < |g| && f.state[v] == Processed)
    && (forall v :: 0 <= v < |g| && f.state[v] == Unprocessed ==> f.next[v] == 0 && (v != vertex ==> f.parent[v] == None))
  }

  /** The fields agree with the walk w between two roots. */
  ghost predicate Between(g: Graph, f: Fields, w: Walk)
    ensures Between(g, f, w) ==> Fits(g, f) && forall v :: v in w.seen ==> v < |g|
  {
    && Fits(g, f)
    && (forall v :: v in w.seen ==> v < |g|)
    && (forall v :: 0 <= v < |g| ==> (v in w.seen <==> f.state[v] != Unprocessed))
    && (forall v :: v in w.out <==> 0 <= v < |g| && f.state[v] == Processed)
    && (forall v :: 0 <= v < |g| && f.state[v] == Unprocessed ==> f.next[v] == 0 && f.parent[v] == None)
  }

  lemma EnterConsistent(g: Graph, f: Fields, stack: seq<nat>, vertex: nat, w: Walk, c: nat)
    requires ValidGraph(g) && Consistent(g, f, stack, vertex, w) && f.state[vertex] == Processing
    requires f.next[vertex] < |g[vertex]| && c == g[vertex][f.next[vertex]] && f.state[c] == Unprocessed
    ensures Consistent(g, f.(next := f.next[vertex := f.next[vertex] + 1], parent := f.parent[c := Some(vertex)]),
                       stack + [c], c, Walk(w.seen + {c}, w.out))
  {
  }

  /** Looks through the children of the vertex up to the first one not entered yet, and
      switches to that one. */
  method Descend(g: Graph, f0: Fields, vertex0: nat, ghost stack0: seq<nat>, ghost w0: Walk)
    returns (f: Fields, vertex: nat, switched: bool, ghost stack: seq<nat>, ghost w: Walk)
    requires ValidGraph(g) && Consistent(g, f0, stack0, vertex0, w0)
    ensures Consistent(g, f, stack, vertex, w)
    ensures Unwind(g, stack, f.next, w) == Unwind(g, stack0, f0.next, w0)
    ensures w.out == w0.out && (switched ==> w.seen > w0.seen)
    ensures !switched ==> w == w0 && stack == stack0 && vertex == vertex0
    ensures !switched ==> f.next[vertex] == |g[vertex]| && f.state[vertex] == Processing
  {
    hide Unwind, Distinct;
    stack, w, vertex, switched := stack0, w0, vertex0, false;
    f := f0.(state := f0.state[vertex := Processing]);
    while f.next[vertex] < |g[vertex]| && !switched
      invariant Consistent(g, f, stack, vertex, w)
      invariant Unwind(g, stack, f.next, w) == Unwind(g, stack0, f0.next, w0)
      invariant w.out == w0.out && (switched ==> w.seen > w0.seen)
      invariant !switched ==> w == w0 && stack == stack0 && vertex == vertex0 && f.state[vertex] == Processing
      decreases !switched, |g[vertex]| - f.next[vertex]
    {
      var nextchild := g[vertex][f.next[vertex]];
      if f.state[nextchild] == Unprocessed {
        EnterConsistent(g, f, stack, vertex, w, nextchild);
        EnterChild(g, stack, f.next, w, nextchild);
        f := f.(next := f.next[vertex := f.next[vertex] + 1], parent := f.parent[nextchild := Some(vertex)]);
        stack, w := stack + [nextchild], Walk(w.seen + {nextchild}, w.out);
        vertex, switched := nextchild, true;
      } else {
        SkipChild(g, stack, f.next, w);
        f := f.(next := f.next[vertex := f.next[vertex] + 1]);
      }
    }
  }

  /** Leaves the vertex for its parent. */
  method Leave(g: Graph, f0: Fields, vertex: nat, ghost stack: seq<nat>, ghost w: Walk)
    returns (f: Fields, parent: Option<nat>)
    requires ValidGraph(g) && Consistent(g, f0, stack, vertex, w)
    requires f0.next[vertex] == |g[vertex]| && f0.state[vertex] == Processing
    ensures var n, w' := |stack| - 1, Walk(w.seen, w.out + [vertex]);
            && Ready(g, stack[..n], f.next, w'.seen)
            && Unwind(g, stack, f0.next, w) == Unwind(g, stack[..n], f.next, w')
            && (n == 0 ==> parent == None && Between(g, f, w'))
            && (n > 0 ==> parent == Some(stack[n - 1]) && Consistent(g, f, stack[..n], stack[n - 1], w'))
            && vertex !in w.out
  {
    LeaveVertex(g, stack, f0.next, w);
    hide Unwind;
    f := f0.(state := f0.state[vertex := Processed]);
    parent := f.parent[vertex];
  }

  /** The next vertex after i that has not been entered, or the end. */
  method NextRoot(g: Graph, f: Fields, i0: nat, ghost w: Walk) returns (i: nat)
    requires ValidGraph(g) && Between(g, f, w) && i0 < |g|
    ensures i0 < i <= |g| && (i < |g| ==> f.state[i] == Unprocessed && i !in w.seen)
    ensures VisitAll(g, i0 + 1, w) == VisitAll(g, i, w)
  {
    hide Visit;
    i := i0 + 1;
    while i < |g| && f.state[i] != Unprocessed
      invariant i0 < i <= |g| && VisitAll(g, i0 + 1, w) == VisitAll(g, i, w)
    {
      i := i + 1;
    }
  }

  lemma BetweenAtStart(g: Graph, f: Fields)
    requires f == Fields(seq(|g|, _ => Unprocessed), seq(|g|, _ => 0), seq(|g|, _ => None))
    ensures Between(g, f, Walk({}, []))
  {
  }

  /** Entering a new root. */
  lemma RootConsistent(g: Graph, f: Fields, w: Walk, i: nat)
    requires ValidGraph(g) && Between(g, f, w) && i < |g| && f.state[i] == Unprocessed
    ensures var w' := Walk(w.seen + {i}, w.out);
            && Consistent(g, f, [i], i, w')
            && VisitAll(g, i, w) == VisitAll(g, i + 1, Unwind(g, [i], f.next, w'))
  {
    hide Visit;
    var w' := Walk(w.seen + {i}, w.out);
    UnwindTop(g, [i], f.next, w');
    assert Unwind(g, [], f.next, Visit(g, i, 0, w')) == Visit(g, i, 0, w');
    assert [i][..0] == [];
  }

  lemma PickedNone(target: seq<bool>)
    ensures Picked([], target) == []
  {
  }

  lemma PickedSnoc(order: seq<nat>, v: nat, target: seq<bool>)
    ensures Picked(order + [v], target) == Picked(order, target) + if v < |target| && target[v] then [v] else []
  {
    assert (order + [v])[..|order|] == order;
  }

  /** The loop of _klpm_sortbydeps over the vertices: the targets in post-order. */
  method WalkVertices(g: Graph, target: seq<bool>) returns (newtargs: seq<nat>)
    requires ValidGraph(g)
    ensures newtargs == Picked(PostOrder(g), target)
  {
    hide Visit, VisitAll, Unwind, Consistent, Ready, Picked, Vertices, Between, ValidGraph;
    newtargs := [];
    PickedNone(target);
    if g == [] {
      VisitAllEnd(g, Walk({}, []));
      return;
    }
    var f := Fields(seq(|g|, _ => Unprocessed), seq(|g|, _ => 0), seq(|g|, _ => None));
    ghost var w := Walk({}, []);
    ghost var goal := VisitAll(g, 0, w);
    var i: nat, vertex: nat := 0, 0;
    BetweenAtStart(g, f);
    RootConsistent(g, f, w, 0);
    ghost var stack: seq<nat> := [0];
    w := Walk(w.seen + {0}, []);
    while i < |g|
      invariant i <= |g| && newtargs == Picked(w.out, target)
      invariant i < |g| ==> Consistent(g, f, stack, vertex, w)
      invariant i < |g| ==> goal == VisitAll(g, i + 1, Unwind(g, stack, f.next, w))
      invariant i == |g| ==> goal == w
      decreases i < |g|, Vertices(g) - w.seen, Vertices(g) - (set v | v in w.out)
    {
      ghost var before := w;
      var switched;
      f, vertex, switched, stack, w := Descend(g, f, vertex, stack, w);
      if switched {
        ShrinkSeen(g, before.seen, w.seen);
      } else {
        if vertex < |target| && target[vertex] {
          newtargs := newtargs + [vertex];
        }
        PickedSnoc(w.out, vertex, target);
        var parent;
        f, parent := Leave(g, f, vertex, stack, w);
        ShrinkOut(g, w.out, vertex);
        assert |stack| > 0;
        w, stack := Walk(w.seen, w.out + [vertex]), stack[..|stack| - 1];
        if parent.Some? {
          vertex := parent.value;
        } else {
          assert stack == [];
          UnwindNone(g, f.next, w);
          i := NextRoot(g, f, i, w);
          if i < |g| {
            RootConsistent(g, f, w, i);
            vertex, stack := i, [i];
            ShrinkSeen(g, w.seen, w.seen + {i});
            w := Walk(w.seen + {i}, w.out);
          } else {
            VisitAllEnd(g, w);
          }
        }
      }
    }
  }

  lemma VisitAllEnd(g: Graph, w: Walk)
    requires ValidGraph(g)
    ensures VisitAll(g, |g|, w) == w
  {
  }

  lemma UnwindNone(g: Graph, it: seq<nat>, w: Walk)
    requires ValidGraph(g) && |it| == |g| && (forall v :: 0 <= v < |g| ==> it[v] <= |g[v]|)
    ensures Ready(g, [], it, w.seen) && Unwind(g, [], it, w) == w
  {
  }

  lemma ShrinkSeen(g: Graph, a: set<nat>, b: set<nat>)
    requires a < b && forall v :: v in b ==> v < |g|
    ensures Vertices(g) - b < Vertices(g) - a
  {
    var v :| v in b && v !in a;
    assert v in Vertices(g);
  }

  lemma ShrinkOut(g: Graph, out: seq<nat>, v: nat)
    requires v < |g| && v !in out
    ensures Vertices(g) - (set x | x in out + [v]) < Vertices(g) - (set x | x in out)
  {
    var a, b := set x | x in out, set x | x in out + [v];
    assert b == a + {v} && v in Vertices(g) - a;
  }
}
