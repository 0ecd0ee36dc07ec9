/** The order in which _klpm_recursedeps (deps.c) appends what it takes, and when that keeps a
    sorted list sorted. */
module RecurseOrder {
  import opened Text
  import opened Package
  import opened RecurseDeps

  /** The first package of the queue that moves x, or the length of the queue. */
  function FirstMover(queue: seq<Pkg>, x: Pkg, explicit: bool): (j: nat)
    ensures j <= |queue| && (j < |queue| ==> Moves(queue[j], x, explicit))
    ensures forall k :: 0 <= k < j ==> !Moves(queue[k], x, explicit)
  {
    if queue == [] || Moves(queue[0], x, explicit) then 0 else 1 + FirstMover(queue[1..], x, explicit)
  }

  lemma SameMover(a: seq<Pkg>, b: seq<Pkg>, x: Pkg, explicit: bool)
    requires a <= b && FirstMover(a, x, explicit) < |a|
    ensures FirstMover(b, x, explicit) == FirstMover(a, x, explicit)
  {
    hide Moves, FirstMover;
    var j := FirstMover(a, x, explicit);
    assert b[j] == a[j];
    forall k | 0 <= k < j ensures !Moves(b[k], x, explicit) { assert b[k] == a[k]; }
  }

  /** x is taken before y: on account of an earlier package, or of the same one and earlier in
      the database. */
  ghost predicate TakenEarlier(queue: seq<Pkg>, local: seq<Pkg>, x: Pkg, y: Pkg, explicit: bool) {
    var i, j := FirstMover(queue, x, explicit), FirstMover(queue, y, explicit);
    i < j || (i == j && PkgBefore(local, x, y))
  }

  /** The packages of s come in the order of base. */
  ghost predicate InOrderOf(base: seq<Pkg>, s: seq<Pkg>) { forall a, b :: 0 <= a < b < |s| ==> PkgBefore(base, s[a], s[b]) }

  lemma {:induction false} ScanInOrder(base: seq<Pkg>, s: seq<Pkg>, pkg: Pkg, explicit: bool)
    requires InOrderOf(base, s)
    ensures InOrderOf(base, Staying(s, pkg, explicit)) && InOrderOf(base, Moving(s, pkg, explicit))
    decreases |s|
  {
    hide Moves, Staying, Moving, PkgBefore;
    if s == [] {
      ScanMembers(s, pkg, explicit);
      ScanNothing(pkg, explicit);
    } else {
      var n := |s| - 1;
      ScanInOrder(base, s[..n], pkg, explicit);
      ScanMembers(s[..n], pkg, explicit);
      ScanStep(s, pkg, explicit);
      assert forall x :: x in s[..n] ==> PkgBefore(base, x, s[n]);
      InOrderSnoc(base, Staying(s[..n], pkg, explicit), s[n]);
      InOrderSnoc(base, Moving(s[..n], pkg, explicit), s[n]);
    }
  }

  lemma ScanNothing(pkg: Pkg, explicit: bool)
    ensures Staying([], pkg, explicit) == [] && Moving([], pkg, explicit) == []
  {
  }

  lemma InOrderSnoc(base: seq<Pkg>, s: seq<Pkg>, x: Pkg)
    requires InOrderOf(base, s) && forall y :: y in s ==> PkgBefore(base, y, x)
    ensures InOrderOf(base, s + [x])
  {
    hide PkgBefore;
    var t := s + [x];
    forall a, b | 0 <= a < b < |t| ensures PkgBefore(base, t[a], t[b]) {
      assert t[a] in s;
    }
  }

  // ----- breadth first

  /** The first i packages of the queue move nothing that is left. */
  ghost predicate Exhaust(keep: seq<Pkg>, queue: seq<Pkg>, i: nat, explicit: bool)
    requires i <= |queue|
  {
    forall j, x :: 0 <= j < i && x in keep ==> !Moves(queue[j], x, explicit)
  }

  /** Everything from n on was moved by one of the first i packages, which comes before it. */
  ghost predicate Moved(queue: seq<Pkg>, n: nat, i: nat, explicit: bool) {
    forall k :: n <= k < |queue| ==> FirstMover(queue, queue[k], explicit) < i && FirstMover(queue, queue[k], explicit) < k
  }

  /** It was taken in order. */
  ghost predicate TakenOrdered(local: seq<Pkg>, queue: seq<Pkg>, n: nat, explicit: bool) {
    forall k, l :: n <= k < l < |queue| ==> TakenEarlier(queue, local, queue[k], queue[l], explicit)
  }

  ghost predicate Spread(local: seq<Pkg>, keep: seq<Pkg>, queue: seq<Pkg>, n: nat, i: nat, explicit: bool) {
    && n <= |queue| && i <= |queue| && InOrderOf(local, keep)
    && Exhaust(keep, queue, i, explicit) && Moved(queue, n, i, explicit) && TakenOrdered(local, queue, n, explicit)
  }

  /** What is moved now has its first mover at i; the rest keeps its own. */
  ghost predicate MoversAre(queue: seq<Pkg>, queue': seq<Pkg>, n: nat, i: nat, explicit: bool) {
    forall k :: n <= k < |queue'| ==>
      FirstMover(queue', queue'[k], explicit) == if k < |queue| then FirstMover(queue, queue[k], explicit) else i
  }

  lemma StepMovers(keep: seq<Pkg>, queue: seq<Pkg>, n: nat, i: nat, explicit: bool)
    requires i < |queue| && Exhaust(keep, queue, i, explicit) && Moved(queue, n, i, explicit)
    ensures MoversAre(queue, queue + Moving(keep, queue[i], explicit), n, i, explicit)
  {
    hide Moves, Moving, FirstMover;
    var queue' := queue + Moving(keep, queue[i], explicit);
    ScanMembers(keep, queue[i], explicit);
    forall k | n <= k < |queue'|
      ensures FirstMover(queue', queue'[k], explicit) == if k < |queue| then FirstMover(queue, queue[k], explicit) else i
    {
      if k < |queue| {
        SameMover(queue, queue', queue[k], explicit);
      } else {
        assert queue'[k] == Moving(keep, queue[i], explicit)[k - |queue|];
        MovedHere(keep, queue, i, queue', queue'[k], explicit);
      }
    }
  }

  lemma StepOrdered(local: seq<Pkg>, queue: seq<Pkg>, more: seq<Pkg>, n: nat, i: nat, explicit: bool)
    requires n <= |queue| && Moved(queue, n, i, explicit) && TakenOrdered(local, queue, n, explicit)
    requires MoversAre(queue, queue + more, n, i, explicit) && InOrderOf(local, more)
    ensures TakenOrdered(local, queue + more, n, explicit)
  {
    hide FirstMover, PkgBefore, InOrderOf;
    var queue' := queue + more;
    forall k, l | n <= k < l < |queue'|
      ensures TakenEarlier(queue', local, queue'[k], queue'[l], explicit)
    {
      if l < |queue| {
        assert TakenEarlier(queue, local, queue[k], queue[l], explicit);
      } else if k >= |queue| {
        InOrderAt(local, more, k - |queue|, l - |queue|);
      }
    }
  }

  lemma SpreadStep(local: seq<Pkg>, keep: seq<Pkg>, queue: seq<Pkg>, n: nat, i: nat, explicit: bool)
    requires Spread(local, keep, queue, n, i, explicit) && i < |queue|
    ensures Spread(local, Staying(keep, queue[i], explicit), queue + Moving(keep, queue[i], explicit), n, i + 1, explicit)
  {
    hide Moves, Staying, Moving, FirstMover, InOrderOf, TakenOrdered;
    ScanMembers(keep, queue[i], explicit);
    ScanInOrder(local, keep, queue[i], explicit);
    StepMovers(keep, queue, n, i, explicit);
    StepOrdered(local, queue, Moving(keep, queue[i], explicit), n, i, explicit);
  }

  lemma InOrderAt(base: seq<Pkg>, s: seq<Pkg>, a: nat, b: nat)
    requires InOrderOf(base, s) && a < b < |s|
    ensures PkgBefore(base, s[a], s[b])
  {
  }

  lemma MovedHere(keep: seq<Pkg>, queue: seq<Pkg>, i: nat, queue': seq<Pkg>, x: Pkg, explicit: bool)
    requires i < |queue| && queue <= queue' && x in keep && Moves(queue[i], x, explicit) && Exhaust(keep, queue, i, explicit)
    ensures FirstMover(queue', x, explicit) == i
  {
    hide Moves, FirstMover;
    forall j | 0 <= j < i ensures !Moves(queue'[j], x, explicit) { assert queue'[j] == queue[j]; }
    assert queue'[i] == queue[i];
  }

  lemma {:induction false} ReachSpreads(local: seq<Pkg>, keep: seq<Pkg>, queue: seq<Pkg>, n: nat, i: nat, explicit: bool)
    requires Spread(local, keep, queue, n, i, explicit)
    ensures var r := Reach(keep, queue, i, explicit); Spread(local, r.keep, r.queue, n, |r.queue|, explicit)
    decreases |keep| + |queue| - i
  {
    hide Staying, Moving, Spread, Moves;
    assert i <= |queue| by { SpreadBounds(local, keep, queue, n, i, explicit); }
    if i < |queue| {
      ScanMembers(keep, queue[i], explicit);
      SpreadStep(local, keep, queue, n, i, explicit);
      ReachSpreads(local, Staying(keep, queue[i], explicit), queue + Moving(keep, queue[i], explicit), n, i + 1, explicit);
    }
  }

  lemma SpreadBounds(local: seq<Pkg>, keep: seq<Pkg>, queue: seq<Pkg>, n: nat, i: nat, explicit: bool)
    requires Spread(local, keep, queue, n, i, explicit)
    ensures n <= |queue| && i <= |queue|
  {
  }

  lemma {:induction false} PutBackInOrder(base: seq<Pkg>, keep: seq<Pkg>, rem: seq<Pkg>, i: nat)
    requires i <= |keep| && InOrderOf(base, rem)
    ensures InOrderOf(base, PutBack(keep, rem, i))
    decreases |keep| + |rem| - i
  {
    hide Staying, Moving, Moves, InOrderOf;
    if i < |keep| && rem != [] {
      ScanMembers(rem, keep[i], true);
      ScanInOrder(base, rem, keep[i], true);
      PutBackInOrder(base, keep + Moving(rem, keep[i], true), Staying(rem, keep[i], true), i + 1);
    }
  }

  lemma {:induction false} DropInOrder(base: seq<Pkg>, s: seq<Pkg>, name: string)
    requires InOrderOf(base, s)
    ensures InOrderOf(base, DropFirst(s, name))
    decreases |s|
  {
    hide PkgBefore, Named;
    if s != [] && s[0].name != name {
      DropInOrder(base, s[1..], name);
      var d := DropFirst(s[1..], name);
      assert DropFirst(s, name) == [s[0]] + d;
      forall b | 0 <= b < |d| ensures PkgBefore(base, s[0], d[b]) {
        assert d[b] in s[1..];
      }
    }
  }

  lemma {:induction false} LeaveOutInOrder(local: seq<Pkg>, targs: seq<Pkg>)
    ensures InOrderOf(local, LeaveOut(local, targs))
    decreases |targs|
  {
    hide InOrderOf, DropFirst;
    if targs == [] {
      OwnOrder(local);
    } else {
      LeaveOutInOrder(local, targs[..|targs| - 1]);
      DropInOrder(local, LeaveOut(local, targs[..|targs| - 1]), targs[|targs| - 1].name);
    }
  }

  lemma OwnOrder(s: seq<Pkg>)
    ensures InOrderOf(s, s)
  {
  }

  lemma SpreadAt(local: seq<Pkg>, keep: seq<Pkg>, queue: seq<Pkg>, n: nat, i: nat, explicit: bool, k: nat, l: nat)
    requires Spread(local, keep, queue, n, i, explicit) && n <= k && k < |queue| && l < |queue|
    ensures FirstMover(queue, queue[k], explicit) < k
    ensures k < l ==> TakenEarlier(queue, local, queue[k], queue[l], explicit)
  {
    hide FirstMover, TakenEarlier, Moves;
  }

  lemma ReachedSpread(local: seq<Pkg>, targs: seq<Pkg>, explicit: bool)
    ensures var h := Reached(local, targs, explicit); Spread(local, h.keep, h.queue, |targs|, |h.queue|, explicit)
  {
    hide LeaveOut, Reach;
    LeaveOutInOrder(local, targs);
    assert Spread(local, LeaveOut(local, targs), targs, |targs|, 0, explicit);
    ReachSpreads(local, LeaveOut(local, targs), targs, |targs|, 0, explicit);
  }

  /** Two packages taken, the one before the other, were reached in that order. */
  lemma TakenFromQueue(local: seq<Pkg>, targs: seq<Pkg>, explicit: bool, a: nat, b: nat) returns (k: nat, l: nat)
    requires a < b < |Taken(local, targs, explicit)|
    ensures var queue, taken := Reached(local, targs, explicit).queue, Taken(local, targs, explicit);
            |targs| <= k < l < |queue| && queue[k] == taken[a] && queue[l] == taken[b]
  {
    hide LeaveOut, InOrderOf, Reach, PutBack;
    var h, taken := Reached(local, targs, explicit), Taken(local, targs, explicit);
    var rem := h.queue[|targs|..];
    OwnOrder(rem);
    PutBackInOrder(rem, h.keep, rem, 0);
    InOrderAt(rem, taken, a, b);
    var x, y :| 0 <= x < y < |rem| && rem[x] == taken[a] && rem[y] == taken[b];
    k, l := |targs| + x, |targs| + y;
  }

  /** What is appended comes in the order in which it is taken. */
  lemma TakenInOrder(local: seq<Pkg>, targs: seq<Pkg>, explicit: bool)
    ensures var queue, taken := Reached(local, targs, explicit).queue, Taken(local, targs, explicit);
            forall a, b :: 0 <= a < b < |taken| ==> TakenEarlier(queue, local, taken[a], taken[b], explicit)
  {
    hide TakenEarlier, Reached, Taken, Spread;
    var h, taken := Reached(local, targs, explicit), Taken(local, targs, explicit);
    ReachedSpread(local, targs, explicit);
    forall a, b | 0 <= a < b < |taken|
      ensures TakenEarlier(h.queue, local, taken[a], taken[b], explicit)
    {
      var k, l := TakenFromQueue(local, targs, explicit, a, b);
      SpreadAt(local, h.keep, h.queue, |targs|, |h.queue|, explicit, k, l);
    }
  }

  // ----- where it comes from

  lemma {:induction false} LeaveOutMembers(local: seq<Pkg>, targs: seq<Pkg>)
    requires UniqueNames(local)
    ensures UniqueNames(LeaveOut(local, targs))
    ensures forall p :: p in LeaveOut(local, targs) <==> p in local && !Named(targs, p.name)
    decreases |targs|
  {
    hide DropFirst, UniqueNames, Named;
    if targs == [] {
      forall p: Pkg ensures !Named(targs, p.name) { NamedNowhere(p.name); }
    } else {
      var n := |targs| - 1;
      var less := LeaveOut(local, targs[..n]);
      LeaveOutMembers(local, targs[..n]);
      DropUnique(less, targs[n].name);
      assert targs == targs[..n] + [targs[n]];
      forall p: Pkg ensures Named(targs, p.name) <==> Named(targs[..n], p.name) || p.name == targs[n].name {
        NamedSnoc(targs[..n], targs[n], p.name);
      }
    }
  }

  lemma NamedNowhere(name: string)
    ensures !Named([], name)
  {
  }

  lemma {:induction false} ReachFrom(keep: seq<Pkg>, queue: seq<Pkg>, i: nat, explicit: bool)
    requires i <= |queue|
    ensures var r := Reach(keep, queue, i, explicit); forall k :: |queue| <= k < |r.queue| ==> r.queue[k] in keep
    decreases |keep| + |queue| - i
  {
    hide Staying, Moving, Moves, Reach;
    ReachEnds(keep, queue, explicit);
    if i < |queue| {
      ReachStep(keep, queue, i, explicit);
      var less, more := Staying(keep, queue[i], explicit), Moving(keep, queue[i], explicit);
      ScanMembers(keep, queue[i], explicit);
      ReachFrom(less, queue + more, i + 1, explicit);
      var r := Reach(keep, queue, i, explicit);
      forall k | |queue| <= k < |r.queue| ensures r.queue[k] in keep {
        if k < |queue| + |more| {
          assert r.queue[k] == (queue + more)[k] == more[k - |queue|];
        }
      }
    }
  }

  lemma {:induction false} PutBackFrom(keep: seq<Pkg>, rem: seq<Pkg>, i: nat)
    requires i <= |keep|
    ensures forall x :: x in PutBack(keep, rem, i) ==> x in rem
    decreases |keep| + |rem| - i
  {
    hide Staying, Moving, Moves;
    if i < |keep| && rem != [] {
      ScanMembers(rem, keep[i], true);
      PutBackFrom(keep + Moving(rem, keep[i], true), Staying(rem, keep[i], true), i + 1);
    }
  }

  /** A package taken is an installed package that is not a target, somewhere in the queue. */
  lemma TakenIs(local: seq<Pkg>, targs: seq<Pkg>, explicit: bool, x: Pkg) returns (k: nat)
    requires UniqueNames(local) && x in Taken(local, targs, explicit)
    ensures |targs| <= k < |Reached(local, targs, explicit).queue| && Reached(local, targs, explicit).queue[k] == x
    ensures x in local && !Named(targs, x.name)
  {
    hide PutBack, UniqueNames, Staying, Moving, DropFirst;
    var h := Reached(local, targs, explicit);
    var rem := h.queue[|targs|..];
    PutBackFrom(h.keep, rem, 0);
    var i :| 0 <= i < |rem| && rem[i] == x;
    k := |targs| + i;
    var keep := LeaveOut(local, targs);
    ReachFrom(keep, targs, 0, explicit);
    assert h == Reach(keep, targs, 0, explicit);
    assert h.queue[k] in keep;
    LeaveOutMembers(local, targs);
  }

  // ----- when a sorted list stays sorted

  /** No package comes after one that it depends on. */
  ghost predicate TopoSorted(r: seq<Pkg>) {
    forall a, b :: 0 <= a < |r| && 0 <= b < |r| && r[a] != r[b] && DependsOn(r[a], r[b]) ==> a < b
  }

  lemma OneWayInList(s: seq<Pkg>, x: Pkg, y: Pkg)
    requires UniqueNames(s)
    ensures !(PkgBefore(s, x, y) && PkgBefore(s, y, x))
  {
  }

  /** Of two taken packages the one before the other is the one taken earlier. */
  lemma TakenBeforeIff(local: seq<Pkg>, targs: seq<Pkg>, explicit: bool, a: nat, b: nat)
    requires UniqueNames(local) && a < |Taken(local, targs, explicit)| && b < |Taken(local, targs, explicit)|
    ensures var queue, taken := Reached(local, targs, explicit).queue, Taken(local, targs, explicit);
            a < b <==> TakenEarlier(queue, local, taken[a], taken[b], explicit)
  {
    hide UniqueNames, Reached, Taken;
    var taken := Taken(local, targs, explicit);
    TakenInOrder(local, targs, explicit);
    OneWayInList(local, taken[a], taken[b]);
  }

  /** The targets come out sorted together with what is appended exactly if they were sorted, no
      package appended depends on a target, and no package appended depends on one that was taken
      earlier. */
  lemma TopoSortedIff(local: seq<Pkg>, targs: seq<Pkg>, explicit: bool)
    requires UniqueNames(local)
    ensures var queue, taken := Reached(local, targs, explicit).queue, Taken(local, targs, explicit);
            TopoSorted(targs + taken) <==>
              && TopoSorted(targs)
              && (forall x, y :: x in taken && y in targs ==> !DependsOn(x, y))
              && (forall x, y :: x in taken && y in taken && x != y && DependsOn(x, y) ==>
                    TakenEarlier(queue, local, x, y, explicit))
  {
    hide UniqueNames, Reached, Taken, DependsOn, TakenEarlier;
    var n, queue, taken := |targs|, Reached(local, targs, explicit).queue, Taken(local, targs, explicit);
    var r := targs + taken;
    forall x, y | x in taken && y in targs ensures x != y {
      var k := TakenIs(local, targs, explicit, x);
      MemberNamed(targs, y);
    }
    forall a, b | 0 <= a < |taken| && 0 <= b < |taken|
      ensures a < b <==> TakenEarlier(queue, local, taken[a], taken[b], explicit)
    {
      TakenBeforeIff(local, targs, explicit, a, b);
    }
    if TopoSorted(r) {
      SortedParts(targs, taken, queue, local, explicit);
    }
    if TopoSorted(targs) && (forall x, y :: x in taken && y in targs ==> !DependsOn(x, y)) &&
       (forall x, y :: x in taken && y in taken && x != y && DependsOn(x, y) ==> TakenEarlier(queue, local, x, y, explicit)) {
      forall a, b | 0 <= a < |r| && 0 <= b < |r| && r[a] != r[b] && DependsOn(r[a], r[b])
        ensures a < b
      {
        if a >= n {
          assert r[a] == taken[a - n] && r[a] in taken;
          if b >= n {
            assert r[b] == taken[b - n] && r[b] in taken;
          }
        }
      }
    }
  }

  lemma SortedParts(targs: seq<Pkg>, taken: seq<Pkg>, queue: seq<Pkg>, local: seq<Pkg>, explicit: bool)
    requires TopoSorted(targs + taken) && forall x, y :: x in taken && y in targs ==> x != y
    requires forall a, b :: 0 <= a < |taken| && 0 <= b < |taken| ==>
               (a < b <==> TakenEarlier(queue, local, taken[a], taken[b], explicit))
    ensures TopoSorted(targs)
    ensures forall x, y :: x in taken && y in targs ==> !DependsOn(x, y)
    ensures forall x, y :: x in taken && y in taken && x != y && DependsOn(x, y) ==> TakenEarlier(queue, local, x, y, explicit)
  {
    hide DependsOn, TakenEarlier;
    var n, r := |targs|, targs + taken;
    forall a, b | 0 <= a < n && 0 <= b < n && targs[a] != targs[b] && DependsOn(targs[a], targs[b])
      ensures a < b
    {
      assert r[a] == targs[a] && r[b] == targs[b];
    }
    forall x, y | x in taken && y in targs
      ensures !DependsOn(x, y)
    {
      var a :| 0 <= a < |taken| && taken[a] == x;
      var b :| 0 <= b < n && targs[b] == y;
      assert r[n + a] == x && r[b] == y;
    }
    forall x, y | x in taken && y in taken && x != y && DependsOn(x, y)
      ensures TakenEarlier(queue, local, x, y, explicit)
    {
      var a :| 0 <= a < |taken| && taken[a] == x;
      var b :| 0 <= b < |taken| && taken[b] == y;
      assert r[n + a] == x && r[n + b] == y;
    }
  }

  /** So the list stays sorted if each package appended is depended on by one package only. */
  lemma SingleDependentsSorted(local: seq<Pkg>, targs: seq<Pkg>, explicit: bool)
    requires UniqueNames(local) && TopoSorted(targs)
    requires forall x, y :: x in Taken(local, targs, explicit) && y in targs ==> !DependsOn(x, y)
    requires var queue := Reached(local, targs, explicit).queue;
             forall y, j, k :: y in Taken(local, targs, explicit) && 0 <= j < k < |queue| ==>
               !(Moves(queue[j], y, explicit) && Moves(queue[k], y, explicit))
    ensures TopoSorted(targs + Taken(local, targs, explicit))
  {
    hide UniqueNames, Reached, Taken, DependsOn, FirstMover, TopoSorted, Spread;
    var h, taken := Reached(local, targs, explicit), Taken(local, targs, explicit);
    ReachedSpread(local, targs, explicit);
    forall x, y | x in taken && y in taken && x != y && DependsOn(x, y)
      ensures TakenEarlier(h.queue, local, x, y, explicit)
    {
      var k := TakenIs(local, targs, explicit, x);
      var l := TakenIs(local, targs, explicit, y);
      SpreadAt(local, h.keep, h.queue, |targs|, |h.queue|, explicit, k, k);
      SpreadAt(local, h.keep, h.queue, |targs|, |h.queue|, explicit, l, l);
      assert Moves(h.queue[FirstMover(h.queue, y, explicit)], y, explicit);
      assert Moves(h.queue[k], y, explicit);
    }
    TopoSortedIff(local, targs, explicit);
  }

  // ----- by the distance from the targets

  /** From a target each package moves the next, an installed package that is not a target. */
  ghost predicate MoveChain(local: seq<Pkg>, targs: seq<Pkg>, c: seq<Pkg>, explicit: bool)
    ensures MoveChain(local, targs, c, explicit) ==> c != []
  {
    && c != [] && c[0] in targs
    && forall k :: 0 < k < |c| ==> c[k] in local && !Named(targs, c[k].name) && Moves(c[k - 1], c[k], explicit)
  }

  /** A chain of length n leads to x. */
  ghost predicate ReachedIn(local: seq<Pkg>, targs: seq<Pkg>, x: Pkg, n: nat, explicit: bool) {
    exists c :: MoveChain(local, targs, c, explicit) && c[|c| - 1] == x && |c| == n + 1
  }

  /** x is closer to the targets than y: a chain leads to x that is shorter than all that lead
      to y. */
  ghost predicate Closer(local: seq<Pkg>, targs: seq<Pkg>, x: Pkg, y: Pkg, explicit: bool) {
    exists n: nat :: ReachedIn(local, targs, x, n, explicit) && forall m: nat :: m <= n ==> !ReachedIn(local, targs, y, m, explicit)
  }

  /** How many movers are between a place in the queue and the targets. */
  ghost function Depth(queue: seq<Pkg>, n: nat, k: nat, explicit: bool): nat
    requires k < |queue| && Moved(queue, n, |queue|, explicit)
  {
    if k < n then 0 else 1 + Depth(queue, n, FirstMover(queue, queue[k], explicit), explicit)
  }

  lemma {:induction false} DepthGrows(local: seq<Pkg>, queue: seq<Pkg>, n: nat, k: nat, l: nat, explicit: bool)
    requires k <= l < |queue| && Moved(queue, n, |queue|, explicit) && TakenOrdered(local, queue, n, explicit)
    ensures Depth(queue, n, k, explicit) <= Depth(queue, n, l, explicit)
    decreases l
  {
    hide FirstMover;
    if n <= k < l {
      assert TakenEarlier(queue, local, queue[k], queue[l], explicit);
      DepthGrows(local, queue, n, FirstMover(queue, queue[k], explicit), FirstMover(queue, queue[l], explicit), explicit);
    }
  }

  lemma {:induction false} ReachKeepsAll(keep: seq<Pkg>, queue: seq<Pkg>, i: nat, explicit: bool)
    requires i <= |queue|
    ensures var r := Reach(keep, queue, i, explicit); forall p :: p in keep ==> p in r.keep || p in r.queue
    decreases |keep| + |queue| - i
  {
    hide Staying, Moving, Moves, Reach;
    ReachEnds(keep, queue, explicit);
    if i < |queue| {
      var less, more := Staying(keep, queue[i], explicit), Moving(keep, queue[i], explicit);
      ReachStep(keep, queue, i, explicit);
      ScanMembers(keep, queue[i], explicit);
      ReachKeepsAll(less, queue + more, i + 1, explicit);
      var r := Reach(keep, queue, i, explicit);
      forall p | p in more ensures p in r.queue {
        assert p in queue + more;
        Prefixed(queue + more, r.queue, p);
      }
    }
  }

  lemma Prefixed(a: seq<Pkg>, b: seq<Pkg>, p: Pkg)
    requires a <= b && p in a
    ensures p in b
  {
    var i :| 0 <= i < |a| && a[i] == p;
    assert b[i] == p;
  }

  /** What a package of the queue moves is in the queue. */
  lemma MovedIsReached(local: seq<Pkg>, targs: seq<Pkg>, explicit: bool, j: nat, y: Pkg) returns (k: nat)
    requires UniqueNames(local) && y in local && !Named(targs, y.name)
    requires j < |Reached(local, targs, explicit).queue| && Moves(Reached(local, targs, explicit).queue[j], y, explicit)
    ensures |targs| <= k < |Reached(local, targs, explicit).queue| && Reached(local, targs, explicit).queue[k] == y
  {
    hide LeaveOut, Reach, Moves, UniqueNames, Named;
    var h := Reached(local, targs, explicit);
    ReachedSpread(local, targs, explicit);
    LeaveOutMembers(local, targs);
    ReachKeepsAll(LeaveOut(local, targs), targs, 0, explicit);
    ReachEndsExhausted(local, h.keep, h.queue, |targs|, explicit, j, y);
    k :| 0 <= k < |h.queue| && h.queue[k] == y;
    if k < |targs| {
      assert h.queue[k] == targs[k];
      MemberNamed(targs, y);
    }
  }

  lemma ReachEndsExhausted(local: seq<Pkg>, keep: seq<Pkg>, queue: seq<Pkg>, n: nat, explicit: bool, j: nat, y: Pkg)
    requires Spread(local, keep, queue, n, |queue|, explicit) && j < |queue| && Moves(queue[j], y, explicit)
    ensures y !in keep
  {
    hide Moves, Moved, TakenOrdered, InOrderOf;
  }

  /** A chain reaches its last package no earlier than its length allows. */
  lemma {:induction false} ChainBound(local: seq<Pkg>, targs: seq<Pkg>, c: seq<Pkg>, explicit: bool) returns (k: nat)
    requires UniqueNames(local) && MoveChain(local, targs, c, explicit)
    requires Moved(Reached(local, targs, explicit).queue, |targs|, |Reached(local, targs, explicit).queue|, explicit)
    requires TakenOrdered(local, Reached(local, targs, explicit).queue, |targs|, explicit)
    ensures var queue := Reached(local, targs, explicit).queue;
            && k < |queue| && queue[k] == c[|c| - 1] && Depth(queue, |targs|, k, explicit) < |c|
            && (|c| > 1 ==> k >= |targs|)
    decreases |c|
  {
    hide Reached, Moves, UniqueNames, Named, FirstMover, Moved, TakenOrdered;
    var queue := Reached(local, targs, explicit).queue;
    var n := |c| - 1;
    assert targs <= queue by { TargetsFirst(local, targs, explicit); }
    if n == 0 {
      k :| 0 <= k < |targs| && targs[k] == c[0];
      assert queue[k] == targs[k];
    } else {
      assert MoveChain(local, targs, c[..n], explicit);
      var j := ChainBound(local, targs, c[..n], explicit);
      assert Moves(c[n - 1], c[n], explicit);
      k := MovedIsReached(local, targs, explicit, j, c[n]);
      DepthGrows(local, queue, |targs|, FirstMover(queue, queue[k], explicit), j, explicit);
    }
  }

  lemma TargetsFirst(local: seq<Pkg>, targs: seq<Pkg>, explicit: bool)
    ensures targs <= Reached(local, targs, explicit).queue
  {
    hide Reach;
  }

  /** A chain as long as the depth leads to each place in the queue. */
  lemma {:induction false} DepthChain(local: seq<Pkg>, targs: seq<Pkg>, k: nat, explicit: bool) returns (c: seq<Pkg>)
    requires UniqueNames(local) && k < |Reached(local, targs, explicit).queue|
    requires Moved(Reached(local, targs, explicit).queue, |targs|, |Reached(local, targs, explicit).queue|, explicit)
    ensures var queue := Reached(local, targs, explicit).queue;
            MoveChain(local, targs, c, explicit) && c[|c| - 1] == queue[k] && |c| == Depth(queue, |targs|, k, explicit) + 1
    decreases k
  {
    hide Reached, Moves, UniqueNames, Named, FirstMover;
    var queue := Reached(local, targs, explicit).queue;
    assert targs <= queue by { TargetsFirst(local, targs, explicit); }
    if k < |targs| {
      c := [queue[k]];
      assert queue[k] == targs[k];
    } else {
      var j := FirstMover(queue, queue[k], explicit);
      var b := DepthChain(local, targs, j, explicit);
      QueueFrom(local, targs, explicit, k);
      c := b + [queue[k]];
    }
  }

  lemma QueueFrom(local: seq<Pkg>, targs: seq<Pkg>, explicit: bool, k: nat)
    requires UniqueNames(local) && |targs| <= k < |Reached(local, targs, explicit).queue|
    ensures var x := Reached(local, targs, explicit).queue[k]; x in local && !Named(targs, x.name)
  {
    hide Staying, Moving, UniqueNames, DropFirst, Named;
    var keep := LeaveOut(local, targs);
    var h := Reached(local, targs, explicit);
    ReachFrom(keep, targs, 0, explicit);
    LeaveOutMembers(local, targs);
    assert h == Reach(keep, targs, 0, explicit);
    assert h.queue[k] in keep;
  }

  /** What is closer to the targets is taken earlier. */
  lemma CloserTakenEarlier(local: seq<Pkg>, targs: seq<Pkg>, explicit: bool, x: Pkg, y: Pkg)
    requires UniqueNames(local) && x in Taken(local, targs, explicit) && y in Taken(local, targs, explicit)
    requires Closer(local, targs, x, y, explicit)
    ensures TakenEarlier(Reached(local, targs, explicit).queue, local, x, y, explicit)
  {
    hide Reached, Taken, Moves, UniqueNames, Named, FirstMover, Depth, TakenEarlier, MoveChain;
    var h, t := Reached(local, targs, explicit), |targs|;
    ReachedSpread(local, targs, explicit);
    assert Moved(h.queue, t, |h.queue|, explicit) && TakenOrdered(local, h.queue, t, explicit);
    var n: nat :| ReachedIn(local, targs, x, n, explicit) && forall m: nat :: m <= n ==> !ReachedIn(local, targs, y, m, explicit);
    var c :| MoveChain(local, targs, c, explicit) && c[|c| - 1] == x && |c| == n + 1;
    var k := ChainBound(local, targs, c, explicit);
    var kx := TakenIs(local, targs, explicit, x);
    assert |c| > 1 by { if |c| == 1 { ShortChain(local, targs, c, explicit); } }
    var l := TakenIs(local, targs, explicit, y);
    var e := DepthChain(local, targs, l, explicit);
    assert ReachedIn(local, targs, y, |e| - 1, explicit);
    if l <= k { DepthGrows(local, h.queue, t, l, k, explicit); }
    SpreadAt(local, h.keep, h.queue, t, |h.queue|, explicit, k, l);
  }

  lemma ShortChain(local: seq<Pkg>, targs: seq<Pkg>, c: seq<Pkg>, explicit: bool)
    requires MoveChain(local, targs, c, explicit) && |c| == 1
    ensures Named(targs, c[0].name)
  {
    MemberNamed(targs, c[0]);
  }

  /** So a sorted list stays sorted if no installed package other than the targets depends on a
      target, and each that depends on another is closer to the targets than that one. */
  lemma LevelsSorted(local: seq<Pkg>, targs: seq<Pkg>, explicit: bool)
    requires UniqueNames(local) && TopoSorted(targs)
    requires forall x, y :: x in Others(local, targs) && y in targs ==> !DependsOn(x, y)
    requires forall x, y :: x in Others(local, targs) && y in Others(local, targs) && x != y && DependsOn(x, y) ==>
               Closer(local, targs, x, y, explicit)
    ensures TopoSorted(targs + Taken(local, targs, explicit))
  {
    hide UniqueNames, Reached, Taken, DependsOn, TakenEarlier, TopoSorted, Closer;
    var taken := Taken(local, targs, explicit);
    forall x | x in taken ensures x in Others(local, targs) { var k := TakenIs(local, targs, explicit, x); }
    forall x, y | x in taken && y in taken && x != y && DependsOn(x, y)
      ensures TakenEarlier(Reached(local, targs, explicit).queue, local, x, y, explicit)
    {
      CloserTakenEarlier(local, targs, explicit, x, y);
    }
    TopoSortedIff(local, targs, explicit);
  }

  /** And it does not if a package taken depends on one that is closer to the targets. */
  lemma LevelsUnsorted(local: seq<Pkg>, targs: seq<Pkg>, explicit: bool, x: Pkg, y: Pkg)
    requires UniqueNames(local) && x in Taken(local, targs, explicit) && y in Taken(local, targs, explicit)
    requires x != y && DependsOn(x, y) && Closer(local, targs, y, x, explicit)
    ensures !TopoSorted(targs + Taken(local, targs, explicit))
  {
    hide UniqueNames, Reached, Taken, DependsOn, TopoSorted, Closer, FirstMover;
    CloserTakenEarlier(local, targs, explicit, y, x);
    OneWayInList(local, x, y);
    TopoSortedIff(local, targs, explicit);
  }

  /** It stays sorted, too, if no installed package other than the targets depends on a target,
      and each is depended on by one package only. */
  lemma OneDependentSorted(local: seq<Pkg>, targs: seq<Pkg>, explicit: bool)
    requires UniqueNames(local) && UniqueNames(targs) && TopoSorted(targs)
    requires forall x, y :: x in Others(local, targs) && y in targs ==> !DependsOn(x, y)
    requires forall y, p, q :: y in Others(local, targs) && (p in targs || p in Others(local, targs)) &&
                               (q in targs || q in Others(local, targs)) && p != q ==>
               !(DependsOn(p, y) && DependsOn(q, y))
    ensures TopoSorted(targs + Taken(local, targs, explicit))
  {
    hide UniqueNames, Reached, Taken, DependsOn, TopoSorted, FirstMover, Spread, Named;
    var queue, taken := Reached(local, targs, explicit).queue, Taken(local, targs, explicit);
    forall x | x in taken ensures x in Others(local, targs) { var k := TakenIs(local, targs, explicit, x); }
    forall y, j, k | y in taken && 0 <= j < k < |queue|
      ensures !(Moves(queue[j], y, explicit) && Moves(queue[k], y, explicit))
    {
      QueueDistinct(local, targs, explicit, j, k);
      InQueue(local, targs, explicit, j);
      InQueue(local, targs, explicit, k);
    }
    SingleDependentsSorted(local, targs, explicit);
  }

  lemma InQueue(local: seq<Pkg>, targs: seq<Pkg>, explicit: bool, k: nat)
    requires UniqueNames(local) && k < |Reached(local, targs, explicit).queue|
    ensures var x := Reached(local, targs, explicit).queue[k]; x in targs || x in Others(local, targs)
  {
    hide UniqueNames, Reached, Named;
    TargetsFirst(local, targs, explicit);
    if k >= |targs| { QueueFrom(local, targs, explicit, k); }
  }

  /** No package is in the queue twice. */
  lemma QueueDistinct(local: seq<Pkg>, targs: seq<Pkg>, explicit: bool, j: nat, k: nat)
    requires UniqueNames(local) && UniqueNames(targs) && j < k < |Reached(local, targs, explicit).queue|
    ensures Reached(local, targs, explicit).queue[j] != Reached(local, targs, explicit).queue[k]
  {
    hide Reached, FirstMover, Spread;
    var h := Reached(local, targs, explicit);
    TargetsFirst(local, targs, explicit);
    if j >= |targs| {
      ReachedSpread(local, targs, explicit);
      SpreadAt(local, h.keep, h.queue, |targs|, |h.queue|, explicit, j, k);
      OneWayInList(local, h.queue[j], h.queue[k]);
    } else if k >= |targs| {
      QueueFrom(local, targs, explicit, k);
      assert h.queue[j] == targs[j];
    }
  }

  // ----- a sorted list that does not stay sorted

  /** t needs a and b, and b needs a. */
  ghost predicate Example(local: seq<Pkg>, a: Pkg, b: Pkg, t: Pkg) {
    var need := (name: string) => Dep(name, Any, None, None);
    && a == Pkg("a", "1", Depend, [], [], [], "") && b == Pkg("b", "1", Depend, [need("a")], [], [], "")
    && t == Pkg("t", "1", Explicit, [need("a"), need("b")], [], [], "") && local == [a, b, t]
  }

  lemma ExampleMoves(local: seq<Pkg>, a: Pkg, b: Pkg, t: Pkg)
    requires Example(local, a, b, t)
    ensures Moves(t, a, false) && Moves(t, b, false) && DependsOn(b, a)
    ensures a.name != b.name && a.name != t.name && b.name != t.name
  {
    assert a.name[0] == 'a' && b.name[0] == 'b' && t.name[0] == 't';
    var d, e := Dep("a", Any, None, None), Dep("b", Any, None, None);
    assert Satisfies(a, d) && Satisfies(b, e);
    assert t.depends[0] == d && t.depends[1] == e && b.depends[0] == d;
  }

  lemma ExampleTaken(local: seq<Pkg>, a: Pkg, b: Pkg, t: Pkg)
    requires Example(local, a, b, t)
    ensures LeaveOut(local, [t]) == [a, b] && Staying([a, b], t, false) == [] && Moving([a, b], t, false) == [a, b]
  {
    hide Moves, Named;
    ExampleMoves(local, a, b, t);
    assert [t][..0] == [] && LeaveOut(local, []) == local;
    assert local[1..] == [b, t] && [b, t][1..] == [t] && [t][1..] == [];
    assert DropFirst([t], t.name) == [] && DropFirst([b, t], t.name) == [b] && DropFirst(local, t.name) == [a, b];
    assert [a, b][..1] == [a] && [a][..0] == [];
    ScanNothing(t, false);
    ScanStep([a], t, false);
    ScanStep([a, b], t, false);
  }

  /** The list [t] is sorted; a and b are appended in the order of the database, and b needs a. */
  lemma SortedNoMore(local: seq<Pkg>, a: Pkg, b: Pkg, t: Pkg)
    requires Example(local, a, b, t)
    ensures UniqueNames(local) && TopoSorted([t])
    ensures Taken(local, [t], false) == [a, b] && !TopoSorted([t] + Taken(local, [t], false))
  {
    hide Moves, DependsOn, LeaveOut, Staying, Moving, Reach, PutBack;
    ExampleMoves(local, a, b, t);
    ExampleTaken(local, a, b, t);
    ReachStep([a, b], [t], 0, false);
    assert [t] + [a, b] == [t, a, b];
    NothingMore([t, a, b], 1, false);
    assert [t, a, b][1..] == [a, b];
    PutBackStep([], [a, b], 0);
    var r := [t] + Taken(local, [t], false);
    assert r == [t, a, b];
    assert r[1] == a && r[2] == b;
  }

  lemma {:induction false} NothingMore(queue: seq<Pkg>, i: nat, explicit: bool)
    requires i <= |queue|
    ensures Reach([], queue, i, explicit) == Halves([], queue)
    decreases |queue| - i
  {
    hide Moves;
    if i < |queue| {
      ScanNothing(queue[i], explicit);
      assert queue + [] == queue;
      NothingMore(queue, i + 1, explicit);
    }
  }
}
