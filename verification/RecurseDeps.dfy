/** Unneeded dependencies (_klpm_recursedeps in deps.c): what can go together with a removal
    list because nothing that stays depends on it. */
module RecurseDeps {
  import opened Text
  import opened Package

  /** The scan for pkg moves x: x may be taken and pkg depends on it. */
  predicate Moves(pkg: Pkg, x: Pkg, explicit: bool) { (explicit || x.reason.Depend?) && DependsOn(pkg, x) }

  function Staying(from: seq<Pkg>, pkg: Pkg, explicit: bool): seq<Pkg> {
    if from == [] then []
    else
      var n := |from| - 1;
      Staying(from[..n], pkg, explicit) + if Moves(pkg, from[n], explicit) then [] else [from[n]]
  }

  function Moving(from: seq<Pkg>, pkg: Pkg, explicit: bool): seq<Pkg> {
    if from == [] then []
    else
      var n := |from| - 1;
      Moving(from[..n], pkg, explicit) + if Moves(pkg, from[n], explicit) then [from[n]] else []
  }

  /** The scan divides the list by whether pkg moves an element. */
  lemma {:induction false} ScanMembers(from: seq<Pkg>, pkg: Pkg, explicit: bool)
    ensures forall x :: x in Staying(from, pkg, explicit) <==> x in from && !Moves(pkg, x, explicit)
    ensures forall x :: x in Moving(from, pkg, explicit) <==> x in from && Moves(pkg, x, explicit)
    ensures |Moving(from, pkg, explicit)| + |Staying(from, pkg, explicit)| == |from|
    ensures pkg.depends == [] ==> Staying(from, pkg, explicit) == from && Moving(from, pkg, explicit) == []
    decreases |from|
  {
    if from != [] {
      var n := |from| - 1;
      assert pkg.depends == [] ==> !Moves(pkg, from[n], explicit);
      ScanStep(from, pkg, explicit);
      ScanMembers(from[..n], pkg, explicit);
    }
  }

  lemma ScanStep(from: seq<Pkg>, pkg: Pkg, explicit: bool)
    requires from != []
    ensures var n, m := |from| - 1, Moves(pkg, from[|from| - 1], explicit);
            && from == from[..n] + [from[n]]
            && Staying(from, pkg, explicit) == Staying(from[..n], pkg, explicit) + (if m then [] else [from[n]])
            && Moving(from, pkg, explicit) == Moving(from[..n], pkg, explicit) + (if m then [from[n]] else [])
  {
    hide Moves;
  }

  /** _klpm_select_depends */
  method SelectDepends(from0: seq<Pkg>, to0: seq<Pkg>, pkg: Pkg, explicit: bool) returns (from: seq<Pkg>, to: seq<Pkg>)
    ensures from == Staying(from0, pkg, explicit) && to == to0 + Moving(from0, pkg, explicit)
  {
    hide Moves, Staying, Moving;
    if pkg.depends == [] {
      ScanMembers(from0, pkg, explicit);
      return from0, to0;
    }
    from, to := [], to0;
    ScanMembers([], pkg, explicit);
    for i := 0 to |from0|
      invariant from == Staying(from0[..i], pkg, explicit) && to == to0 + Moving(from0[..i], pkg, explicit)
    {
      ScanStep(from0[..i + 1], pkg, explicit);
      assert from0[..i + 1][..i] == from0[..i];
      if Moves(pkg, from0[i], explicit) {
        to := to + [from0[i]];
      } else {
        from := from + [from0[i]];
      }
    }
    assert from0[..|from0|] == from0;
  }

  // ----- the lists that come out

  datatype Halves = Halves(keep: seq<Pkg>, queue: seq<Pkg>)

  /** Each package of the queue in turn brings in, in the order of the list, what it moves. */
  function Reach(keep: seq<Pkg>, queue: seq<Pkg>, i: nat, explicit: bool): (r: Halves)
    requires i <= |queue|
    ensures queue <= r.queue
    decreases |keep| + |queue| - i
  {
    if i == |queue| then Halves(keep, queue)
    else
      ScanMembers(keep, queue[i], explicit);
      Reach(Staying(keep, queue[i], explicit), queue + Moving(keep, queue[i], explicit), i + 1, explicit)
  }

  /** Each kept package in turn takes back what it depends on. */
  function PutBack(keep: seq<Pkg>, rem: seq<Pkg>, i: nat): seq<Pkg>
    requires i <= |keep|
    decreases |keep| + |rem| - i
  {
    if i == |keep| || rem == [] then rem
    else
      ScanMembers(rem, keep[i], true);
      PutBack(keep + Moving(rem, keep[i], true), Staying(rem, keep[i], true), i + 1)
  }

  function LeaveOut(local: seq<Pkg>, targs: seq<Pkg>): seq<Pkg> {
    if targs == [] then local
    else DropFirst(LeaveOut(local, targs[..|targs| - 1]), targs[|targs| - 1].name)
  }

  /** The targets, then everything reachable from them, breadth first. */
  function Reached(local: seq<Pkg>, targs: seq<Pkg>, explicit: bool): Halves {
    Reach(LeaveOut(local, targs), targs, 0, explicit)
  }

  /** What of it nothing else needs. */
  function Taken(local: seq<Pkg>, targs: seq<Pkg>, explicit: bool): seq<Pkg> {
    var h := Reached(local, targs, explicit);
    PutBack(h.keep, h.queue[|targs|..], 0)
  }

  lemma ReachStep(keep: seq<Pkg>, queue: seq<Pkg>, i: nat, explicit: bool)
    requires i < |queue|
    ensures Reach(keep, queue, i, explicit) ==
            Reach(Staying(keep, queue[i], explicit), queue + Moving(keep, queue[i], explicit), i + 1, explicit)
  {
    hide Staying, Moving;
  }

  lemma ReachEnds(keep: seq<Pkg>, queue: seq<Pkg>, explicit: bool)
    ensures Reach(keep, queue, |queue|, explicit) == Halves(keep, queue)
  {
    hide Staying, Moving;
  }

  lemma PutBackStep(keep: seq<Pkg>, rem: seq<Pkg>, i: nat)
    requires i <= |keep|
    ensures i == |keep| || rem == [] ==> PutBack(keep, rem, i) == rem
    ensures i < |keep| && rem != [] ==>
              PutBack(keep, rem, i) == PutBack(keep + Moving(rem, keep[i], true), Staying(rem, keep[i], true), i + 1)
  {
    hide Staying, Moving;
  }

  // ----- the specification

  ghost function ToSet(s: seq<Pkg>): set<Pkg> { set x | x in s }

  /** The installed packages that are not targets. */
  ghost function Others(local: seq<Pkg>, targs: seq<Pkg>): set<Pkg> { set p | p in local && !Named(targs, p.name) }

  /** A set that holds every package of pool that may be taken and that a target or one of
      its own members depends on. */
  ghost predicate Closed(s: set<Pkg>, pool: set<Pkg>, targs: set<Pkg>, explicit: bool) {
    forall x, y :: x in pool && (y in targs || y in s) && Moves(y, x, explicit) ==> x in s
  }

  /** Reachable from the targets through dependencies that may be taken. */
  ghost predicate Reachable(x: Pkg, pool: set<Pkg>, targs: set<Pkg>, explicit: bool) {
    x in pool && forall s: set<Pkg> :: Closed(s, pool, targs, explicit) ==> x in s
  }

  /** No package of pool outside s depends on a member of s. */
  ghost predicate Unneeded(s: set<Pkg>, pool: set<Pkg>) {
    forall x, y :: x in s && y in pool && y !in s ==> !DependsOn(y, x)
  }

  /** s is the largest unneeded set of reachable packages. */
  ghost predicate LargestUnneeded(s: set<Pkg>, pool: set<Pkg>, targs: set<Pkg>, explicit: bool) {
    && (forall x :: x in s ==> Reachable(x, pool, targs, explicit))
    && Unneeded(s, pool)
    && (forall t: set<Pkg> :: (forall x :: x in t ==> Reachable(x, pool, targs, explicit)) && Unneeded(t, pool) ==> t <= s)
  }

  ghost predicate NoneShared(a: seq<Pkg>, b: seq<Pkg>) { forall p, q :: p in a && q in b ==> p.name != q.name }

  /** No name occurs twice in the two lists. */
  ghost predicate NamesDistinct(keep: seq<Pkg>, rem: seq<Pkg>) {
    UniqueNames(keep) && UniqueNames(rem) && NoneShared(keep, rem) && NoneShared(rem, keep)
  }

  /** keep and rem divide the pool. */
  ghost predicate Divided(keep: seq<Pkg>, rem: seq<Pkg>, pool: set<Pkg>) {
    ToSet(keep) + ToSet(rem) == pool && ToSet(keep) !! ToSet(rem) && NamesDistinct(keep, rem)
  }

  lemma {:induction false} ScanDistinct(from: seq<Pkg>, pkg: Pkg, explicit: bool)
    requires UniqueNames(from)
    ensures NamesDistinct(Staying(from, pkg, explicit), Moving(from, pkg, explicit))
    decreases |from|
  {
    hide Moves, Staying, Moving, NamesDistinct, UniqueNames;
    if from == [] {
      ScanMembers(from, pkg, explicit);
      DistinctFromNone(from);
    } else {
      var n := |from| - 1;
      UniqueFront(from);
      ScanStep(from, pkg, explicit);
      ScanDistinct(from[..n], pkg, explicit);
      ScanMembers(from[..n], pkg, explicit);
      DistinctSwapped(Staying(from[..n], pkg, explicit), Moving(from[..n], pkg, explicit));
      DistinctSwapped(Staying(from, pkg, explicit), Moving(from, pkg, explicit));
      if Moves(pkg, from[n], explicit) {
        assert Staying(from, pkg, explicit) == Staying(from[..n], pkg, explicit);
        DistinctSnoc(Moving(from[..n], pkg, explicit), Staying(from[..n], pkg, explicit), from[n]);
      } else {
        assert Moving(from, pkg, explicit) == Moving(from[..n], pkg, explicit);
        DistinctSnoc(Staying(from[..n], pkg, explicit), Moving(from[..n], pkg, explicit), from[n]);
      }
    }
  }

  lemma UniqueFront(pkgs: seq<Pkg>)
    requires UniqueNames(pkgs) && pkgs != []
    ensures UniqueNames(pkgs[..|pkgs| - 1])
    ensures forall x :: x in pkgs[..|pkgs| - 1] ==> x.name != pkgs[|pkgs| - 1].name
  {
  }

  lemma DistinctSnoc(a: seq<Pkg>, b: seq<Pkg>, x: Pkg)
    requires NamesDistinct(a, b) && forall p :: p in a || p in b ==> p.name != x.name
    ensures NamesDistinct(a + [x], b)
  {
    UniqueAppend(a, [x]);
  }

  lemma UniqueAppend(a: seq<Pkg>, b: seq<Pkg>)
    requires UniqueNames(a) && UniqueNames(b) && NoneShared(a, b)
    ensures UniqueNames(a + b)
  {
    var s := a + b;
    forall i, j | 0 <= i < j < |s| ensures s[i].name != s[j].name {
      if i < |a| <= j {
        assert a[i] in a && b[j - |a|] in b;
      } else if |a| <= i {
        assert b[i - |a|].name != b[j - |a|].name;
      }
    }
  }

  lemma MoveDistinct(keep: seq<Pkg>, rem: seq<Pkg>, pkg: Pkg, explicit: bool)
    requires NamesDistinct(keep, rem)
    ensures NamesDistinct(Staying(keep, pkg, explicit), rem + Moving(keep, pkg, explicit))
  {
    hide Moves, Staying, Moving;
    ScanMembers(keep, pkg, explicit);
    ScanDistinct(keep, pkg, explicit);
    UniqueAppend(rem, Moving(keep, pkg, explicit));
  }

  lemma MoveDivides(keep: seq<Pkg>, rem: seq<Pkg>, pool: set<Pkg>, pkg: Pkg, explicit: bool)
    requires Divided(keep, rem, pool)
    ensures Divided(Staying(keep, pkg, explicit), rem + Moving(keep, pkg, explicit), pool)
    ensures |Staying(keep, pkg, explicit)| + |rem + Moving(keep, pkg, explicit)| == |keep| + |rem|
  {
    hide Moves, Staying, Moving, NamesDistinct;
    ScanMembers(keep, pkg, explicit);
    MoveDistinct(keep, rem, pkg, explicit);
    var keep', moved := Staying(keep, pkg, explicit), Moving(keep, pkg, explicit);
    assert ToSet(rem + moved) == ToSet(rem) + ToSet(moved);
    assert ToSet(keep) == ToSet(keep') + ToSet(moved);
  }

  /** No package left in keep could still be taken on account of one in from. */
  ghost predicate Exhausted(from: seq<Pkg>, keep: seq<Pkg>, explicit: bool) {
    forall y, x :: y in from && x in keep ==> !Moves(y, x, explicit)
  }

  ghost predicate AllReachable(rem: seq<Pkg>, pool: set<Pkg>, targs: set<Pkg>, explicit: bool) {
    forall x :: x in rem ==> Reachable(x, pool, targs, explicit)
  }

  /** Whatever a target or a reachable package moves is reachable. */
  lemma MovedReachable(keep: seq<Pkg>, pkg: Pkg, pool: set<Pkg>, targs: set<Pkg>, explicit: bool)
    requires ToSet(keep) <= pool && (pkg in targs || Reachable(pkg, pool, targs, explicit))
    ensures AllReachable(Moving(keep, pkg, explicit), pool, targs, explicit)
  {
    hide Moves, Moving;
    ScanMembers(keep, pkg, explicit);
    forall x | x in Moving(keep, pkg, explicit)
      ensures Reachable(x, pool, targs, explicit)
    {
      assert x in ToSet(keep);
    }
  }

  lemma DistinctFromNone(keep: seq<Pkg>)
    ensures UniqueNames(keep) ==> NamesDistinct(keep, [])
  {
  }

  lemma DistinctSwapped(a: seq<Pkg>, b: seq<Pkg>)
    ensures NamesDistinct(a, b) <==> NamesDistinct(b, a)
  {
    hide NoneShared, UniqueNames;
  }

  /** The first two loops: every package reachable through dependencies that may be taken. */
  method Collect(keep0: seq<Pkg>, targs: seq<Pkg>, explicit: bool) returns (keep: seq<Pkg>, rem: seq<Pkg>)
    requires UniqueNames(keep0)
    ensures Divided(keep, rem, ToSet(keep0)) && |keep| + |rem| == |keep0|
    ensures AllReachable(rem, ToSet(keep0), ToSet(targs), explicit)
    ensures Closed(ToSet(rem), ToSet(keep0), ToSet(targs), explicit)
    ensures Reach(keep0, targs, 0, explicit) == Halves(keep, targs + rem)
  {
    hide Moves, Reachable, Staying, Moving, NamesDistinct, Reach;
    assert targs + [] == targs;
    ghost var pool := ToSet(keep0);
    DistinctFromNone(keep0);
    keep, rem := keep0, [];
    for i := 0 to |targs|
      invariant Divided(keep, rem, pool) && |keep| + |rem| == |keep0|
      invariant AllReachable(rem, pool, ToSet(targs), explicit) && Exhausted(targs[..i], keep, explicit)
      invariant Reach(keep0, targs, 0, explicit) == Reach(keep, targs + rem, i, explicit)
    {
      NextInQueue(keep, targs, rem, i, explicit);
      MoveDivides(keep, rem, pool, targs[i], explicit);
      ScanMembers(keep, targs[i], explicit);
      MovedReachable(keep, targs[i], pool, ToSet(targs), explicit);
      assert targs[..i + 1] == targs[..i] + [targs[i]];
      keep, rem := SelectDepends(keep, rem, targs[i], explicit);
    }
    assert targs[..|targs|] == targs;
    var i := 0;
    while i < |rem|
      invariant 0 <= i <= |rem| && Divided(keep, rem, pool) && |keep| + |rem| == |keep0|
      invariant AllReachable(rem, pool, ToSet(targs), explicit)
      invariant Exhausted(targs, keep, explicit) && Exhausted(rem[..i], keep, explicit)
      invariant Reach(keep0, targs, 0, explicit) == Reach(keep, targs + rem, |targs| + i, explicit)
      decreases |keep0| - i
    {
      var pkg := rem[i];
      NextInQueue(keep, targs, rem, |targs| + i, explicit);
      MoveDivides(keep, rem, pool, pkg, explicit);
      ScanMembers(keep, pkg, explicit);
      assert Reachable(pkg, pool, ToSet(targs), explicit);
      MovedReachable(keep, pkg, pool, ToSet(targs), explicit);
      ghost var before := rem;
      keep, rem := SelectDepends(keep, rem, pkg, explicit);
      assert rem[..i + 1] == before[..i] + [pkg];
      i := i + 1;
    }
    assert rem[..i] == rem;
    ReachEnds(keep, targs + rem, explicit);
    ExhaustedClosed(keep, rem, targs, pool, explicit);
  }

  lemma NextInQueue(keep: seq<Pkg>, targs: seq<Pkg>, rem: seq<Pkg>, i: nat, explicit: bool)
    requires i < |targs| + |rem|
    ensures var pkg := (targs + rem)[i];
            Reach(keep, targs + rem, i, explicit) ==
            Reach(Staying(keep, pkg, explicit), targs + (rem + Moving(keep, pkg, explicit)), i + 1, explicit)
  {
    hide Staying, Moving, Reach;
    var pkg := (targs + rem)[i];
    ReachStep(keep, targs + rem, i, explicit);
    assert targs + (rem + Moving(keep, pkg, explicit)) == (targs + rem) + Moving(keep, pkg, explicit);
  }

  lemma ExhaustedClosed(keep: seq<Pkg>, rem: seq<Pkg>, targs: seq<Pkg>, pool: set<Pkg>, explicit: bool)
    requires Divided(keep, rem, pool) && Exhausted(targs, keep, explicit) && Exhausted(rem, keep, explicit)
    ensures Closed(ToSet(rem), pool, ToSet(targs), explicit)
  {
    hide Moves;
    forall x, y | x in pool && (y in ToSet(targs) || y in ToSet(rem)) && Moves(y, x, explicit)
      ensures x in ToSet(rem)
    {
      assert x in ToSet(keep) || x in ToSet(rem);
    }
  }

  /** The last loop: takes back whatever a kept package depends on. */
  method TakeBack(keep0: seq<Pkg>, rem0: seq<Pkg>, ghost pool: set<Pkg>) returns (rem: seq<Pkg>)
    requires Divided(keep0, rem0, pool)
    ensures ToSet(rem) <= ToSet(rem0) && Unneeded(ToSet(rem), pool)
    ensures forall t: set<Pkg> :: t <= ToSet(rem0) && Unneeded(t, pool) ==> t <= ToSet(rem)
    ensures UniqueNames(rem) && rem == PutBack(keep0, rem0, 0)
  {
    hide Moves, Staying, Moving, Unneeded, UniqueNames, NoneShared, PutBack;
    var keep := keep0;
    rem := rem0;
    ghost var n := |keep| + |rem|;
    var i := 0;
    while i < |keep| && rem != []
      invariant 0 <= i <= |keep| && Divided(keep, rem, pool) && |keep| + |rem| == n
      invariant ToSet(rem) <= ToSet(rem0) && PutBack(keep0, rem0, 0) == PutBack(keep, rem, i)
      invariant Exhausted(keep[..i], rem, true)
      invariant forall t: set<Pkg> :: t <= ToSet(rem0) && Unneeded(t, pool) ==> t <= ToSet(rem)
      decreases n - i
    {
      var pkg := keep[i];
      PutBackStep(keep, rem, i);
      DistinctSwapped(keep, rem);
      MoveDivides(rem, keep, pool, pkg, true);
      ScanMembers(rem, pkg, true);
      ghost var before, beforeRem := keep, rem;
      rem, keep := SelectDepends(rem, keep, pkg, true);
      DistinctSwapped(keep, rem);
      assert keep[..i + 1] == before[..i] + [pkg];
      forall t: set<Pkg> | t <= ToSet(rem0) && Unneeded(t, pool)
        ensures t <= ToSet(rem)
      {
        NeverTakesBack(t, beforeRem, pkg, pool);
      }
      i := i + 1;
    }
    PutBackStep(keep, rem, i);
    if rem != [] {
      assert keep[..i] == keep;
    }
    NothingNeeded(keep, rem, pool);
  }

  /** Members of an unneeded set are not taken back for a package outside it. */
  lemma NeverTakesBack(t: set<Pkg>, rem: seq<Pkg>, pkg: Pkg, pool: set<Pkg>)
    requires t <= ToSet(rem) && Unneeded(t, pool) && pkg in pool && pkg !in t
    ensures t <= ToSet(Staying(rem, pkg, true))
  {
    hide DependsOn, Staying;
    ScanMembers(rem, pkg, true);
  }

  lemma NothingNeeded(keep: seq<Pkg>, rem: seq<Pkg>, pool: set<Pkg>)
    requires Divided(keep, rem, pool) && Exhausted(keep, rem, true)
    ensures Unneeded(ToSet(rem), pool)
  {
    hide DependsOn;
    forall x, y | x in ToSet(rem) && y in pool && y !in ToSet(rem)
      ensures !DependsOn(y, x)
    {
      assert y in ToSet(keep);
      assert !Moves(y, x, true);
    }
  }

  /** The cache without the targets, removed one by one. */
  method WithoutTargets(local: seq<Pkg>, targs: seq<Pkg>) returns (keep: seq<Pkg>)
    requires UniqueNames(local)
    ensures ToSet(keep) == Others(local, targs) && UniqueNames(keep) && keep == LeaveOut(local, targs)
  {
    keep := local;
    for i := 0 to |targs|
      invariant UniqueNames(keep) && keep == LeaveOut(local, targs[..i])
      invariant forall p :: p in keep <==> p in local && !Named(targs[..i], p.name)
    {
      DropUnique(keep, targs[i].name);
      ghost var before := keep;
      keep := DropFirst(keep, targs[i].name);
      assert targs[..i + 1] == targs[..i] + [targs[i]] && targs[..i + 1][..i] == targs[..i];
      forall p | p in local
        ensures Named(targs[..i + 1], p.name) <==> Named(targs[..i], p.name) || p.name == targs[i].name
      {
        NamedSnoc(targs[..i], targs[i], p.name);
      }
    }
    assert targs[..|targs|] == targs;
  }

  lemma NamedSnoc(a: seq<Pkg>, q: Pkg, name: string)
    ensures Named(a + [q], name) <==> Named(a, name) || q.name == name
  {
    assert (a + [q])[|a|] == q;
    NamedPrefix(a, a + [q], name);
  }

  /** _klpm_recursedeps: appends the largest set of reachable packages that nothing else needs, in
      the order in which they are reached. */
  method AddUnneeded(local: seq<Pkg>, targs: seq<Pkg>, includeExplicit: bool) returns (result: seq<Pkg>)
    requires UniqueNames(local)
    ensures targs <= result
    ensures LargestUnneeded(ToSet(result[|targs|..]), Others(local, targs), ToSet(targs), includeExplicit)
    ensures UniqueNames(targs) ==> UniqueNames(result)
    ensures result == targs + Taken(local, targs, includeExplicit)
  {
    hide Unneeded, Closed, DependsOn, UniqueNames, Reach, PutBack, LeaveOut;
    var keep := WithoutTargets(local, targs);
    ghost var pool := ToSet(keep);
    var rem;
    keep, rem := Collect(keep, targs, includeExplicit);
    var kept := TakeBack(keep, rem, pool);
    forall t: set<Pkg> | forall x :: x in t ==> Reachable(x, pool, ToSet(targs), includeExplicit)
      ensures t <= ToSet(rem)
    {
      InClosed(t, ToSet(rem), pool, ToSet(targs), includeExplicit);
    }
    assert (targs + rem)[|targs|..] == rem;
    result := targs + kept;
    assert result[|targs|..] == kept;
    if UniqueNames(targs) {
      NewNames(local, targs, kept);
      UniqueAppend(targs, kept);
    }
  }

  lemma NewNames(local: seq<Pkg>, targs: seq<Pkg>, extra: seq<Pkg>)
    requires ToSet(extra) <= Others(local, targs)
    ensures NoneShared(targs, extra)
  {
    forall p, q | p in targs && q in extra ensures p.name != q.name {
      assert q in ToSet(extra);
      MemberNamed(targs, p);
    }
  }

  lemma InClosed(t: set<Pkg>, s: set<Pkg>, pool: set<Pkg>, targs: set<Pkg>, explicit: bool)
    requires Closed(s, pool, targs, explicit)
    requires forall x :: x in t ==> Reachable(x, pool, targs, explicit)
    ensures t <= s
  {
    hide Closed;
  }

  /** Explicitly installed packages are never reachable unless asked for. */
  lemma ExplicitNeverTaken(x: Pkg, pool: set<Pkg>, targs: set<Pkg>)
    requires Reachable(x, pool, targs, false)
    ensures x.reason.Depend?
  {
    hide DependsOn;
    var s := set p | p in pool && p.reason.Depend?;
    assert Closed(s, pool, targs, false);
  }
}
