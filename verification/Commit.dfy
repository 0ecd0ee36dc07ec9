/** What carrying out a prepared transaction does to the installed packages (add.c, remove.c). */
module Commit {
  import opened Text
  import opened Package
  import opened Deps
  import opened Conflict
  import opened DepGraph
  import opened DepOrder
  import opened RemovePrepare
  import opened SyncPrepare
  import opened TransData

  /** How one target ended: installed, installed with extraction errors, or given up with the
      old version already gone. */
  datatype Ending = Clean | WithErrors | GivenUp

  datatype Step = Remove(pkg: Pkg) | Install(pkg: Pkg, ending: Ending)

  predicate WentWell(s: Step) { s.Remove? || s.ending.Clean? }

  /** The installed package of a name. */
  function Lookup(pkgs: seq<Pkg>, name: string): (r: Option<Pkg>)
    ensures r.Some? <==> Named(pkgs, name)
    ensures r.Some? ==> r.value in pkgs && r.value.name == name
  {
    if pkgs == [] then None
    else if pkgs[|pkgs| - 1].name == name then Some(pkgs[|pkgs| - 1])
    else
      assert Named(pkgs, name) ==> Named(pkgs[..|pkgs| - 1], name);
      Lookup(pkgs[..|pkgs| - 1], name)
  }

  /** The install reason a target is stored with. */
  function StoredReason(prior: Option<Pkg>, flags: Flags, p: Pkg): Reason {
    if flags.allDeps then Depend
    else if flags.allExplicit then Explicit
    else if prior.Some? then prior.value.reason
    else p.reason
  }

  function Stored(local: seq<Pkg>, flags: Flags, p: Pkg): Pkg {
    p.(reason := StoredReason(Lookup(local, p.name), flags, p))
  }

  function Effect(local: seq<Pkg>, flags: Flags, s: Step): seq<Pkg> {
    DropFirst(local, s.pkg.name) + if s.Install? && !s.ending.GivenUp? then [Stored(local, flags, s.pkg)] else []
  }

  function DbAfter(base: seq<Pkg>, flags: Flags, steps: seq<Step>): seq<Pkg> {
    if steps == [] then base
    else Effect(DbAfter(base, flags, steps[..|steps| - 1]), flags, steps[|steps| - 1])
  }

  /** The steps are the first ones of: all removals in order, then all installs in order; and
      nothing comes after a step that went wrong. */
  ghost predicate Follows(steps: seq<Step>, remove: seq<Pkg>, add: seq<Pkg>) {
    && |steps| <= |remove| + |add|
    && (forall i :: 0 <= i < |steps| && i < |remove| ==> steps[i] == Remove(remove[i]))
    && (forall i :: |remove| <= i < |steps| ==> steps[i].Install? && steps[i].pkg == add[i - |remove|])
    && (forall i :: 0 <= i < |steps| - 1 ==> WentWell(steps[i]))
  }

  ghost predicate Finished(steps: seq<Step>, remove: seq<Pkg>, add: seq<Pkg>) {
    && Follows(steps, remove, add) && |steps| == |remove| + |add|
    && forall i :: 0 <= i < |steps| ==> WentWell(steps[i])
  }

  // ----- the database after a complete run

  lemma DroppedMembers(local: seq<Pkg>, name: string, p: Pkg)
    requires UniqueNames(local)
    ensures UniqueNames(DropFirst(local, name)) && (p in DropFirst(local, name) <==> p in local && p.name != name)
  {
    DropUnique(local, name);
  }

  lemma EffectUnique(local: seq<Pkg>, flags: Flags, s: Step)
    requires UniqueNames(local)
    ensures UniqueNames(Effect(local, flags, s))
  {
    DropUnique(local, s.pkg.name);
    var d := DropFirst(local, s.pkg.name);
    forall i | 0 <= i < |d| ensures d[i].name != s.pkg.name { assert d[i] in d; }
  }

  /** Names stay unique whatever happens. */
  lemma {:induction false} DbUnique(base: seq<Pkg>, flags: Flags, steps: seq<Step>)
    requires UniqueNames(base)
    ensures UniqueNames(DbAfter(base, flags, steps))
    decreases |steps|
  {
    hide UniqueNames, Effect;
    if steps != [] {
      DbUnique(base, flags, steps[..|steps| - 1]);
      EffectUnique(DbAfter(base, flags, steps[..|steps| - 1]), flags, steps[|steps| - 1]);
    }
  }

  ghost predicate AllRemovals(steps: seq<Step>) { forall i :: 0 <= i < |steps| ==> steps[i].Remove? }

  ghost predicate Removes(steps: seq<Step>, name: string) { exists i :: 0 <= i < |steps| && steps[i].pkg.name == name }

  lemma {:induction false} AfterRemovals(base: seq<Pkg>, flags: Flags, steps: seq<Step>, p: Pkg)
    requires UniqueNames(base) && AllRemovals(steps)
    ensures p in DbAfter(base, flags, steps) <==> p in base && !Removes(steps, p.name)
    decreases |steps|
  {
    hide UniqueNames;
    if steps != [] {
      var n := |steps| - 1;
      AfterRemovals(base, flags, steps[..n], p);
      DbUnique(base, flags, steps[..n]);
      DroppedMembers(DbAfter(base, flags, steps[..n]), steps[n].pkg.name, p);
      RemovesLast(steps, p.name);
    }
  }

  lemma RemovesLast(steps: seq<Step>, name: string)
    requires steps != []
    ensures Removes(steps, name) <==> Removes(steps[..|steps| - 1], name) || steps[|steps| - 1].pkg.name == name
  {
    if Removes(steps[..|steps| - 1], name) {
      var i :| 0 <= i < |steps| - 1 && steps[..|steps| - 1][i].pkg.name == name;
      assert steps[i].pkg.name == name;
    }
    if Removes(steps, name) && steps[|steps| - 1].pkg.name != name {
      var i :| 0 <= i < |steps| && steps[i].pkg.name == name;
      assert steps[..|steps| - 1][i].pkg.name == name;
    }
  }

  ghost predicate AllInstalled(steps: seq<Step>) {
    && (forall i :: 0 <= i < |steps| ==> steps[i].Install? && steps[i].ending.Clean?)
    && (forall i, j :: 0 <= i < j < |steps| ==> steps[i].pkg.name != steps[j].pkg.name)
  }

  /** p is the stored form of one of the installed targets. */
  ghost predicate Delivers(base: seq<Pkg>, flags: Flags, steps: seq<Step>, p: Pkg) {
    exists i :: 0 <= i < |steps| && p == Stored(base, flags, steps[i].pkg)
  }

  lemma {:induction false} AfterInstalls(base: seq<Pkg>, flags: Flags, steps: seq<Step>, p: Pkg)
    requires UniqueNames(base) && AllInstalled(steps)
    ensures p in DbAfter(base, flags, steps) <==> (p in base && !Removes(steps, p.name)) || Delivers(base, flags, steps, p)
    decreases |steps|
  {
    hide UniqueNames, Stored;
    if steps != [] {
      var n := |steps| - 1;
      var before := DbAfter(base, flags, steps[..n]);
      AfterInstalls(base, flags, steps[..n], p);
      DbUnique(base, flags, steps[..n]);
      DroppedMembers(before, steps[n].pkg.name, p);
      RemovesLast(steps, p.name);
      SameStored(base, flags, steps);
      DeliversLast(base, flags, steps, p);
    }
  }

  lemma DeliversLast(base: seq<Pkg>, flags: Flags, steps: seq<Step>, p: Pkg)
    requires steps != [] && AllInstalled(steps)
    ensures Delivers(base, flags, steps, p) <==>
            (Delivers(base, flags, steps[..|steps| - 1], p) && p.name != steps[|steps| - 1].pkg.name)
            || p == Stored(base, flags, steps[|steps| - 1].pkg)
  {
    var n := |steps| - 1;
    if Delivers(base, flags, steps[..n], p) {
      var i :| 0 <= i < n && p == Stored(base, flags, steps[..n][i].pkg);
      assert p == Stored(base, flags, steps[i].pkg);
    }
    if Delivers(base, flags, steps, p) && p != Stored(base, flags, steps[n].pkg) {
      var i :| 0 <= i < |steps| && p == Stored(base, flags, steps[i].pkg);
      assert p == Stored(base, flags, steps[..n][i].pkg);
    }
  }

  /** An earlier install does not touch the old version of a later target. */
  lemma SameStored(base: seq<Pkg>, flags: Flags, steps: seq<Step>)
    requires UniqueNames(base) && steps != [] && AllInstalled(steps)
    ensures var n := |steps| - 1;
            Stored(DbAfter(base, flags, steps[..n]), flags, steps[n].pkg) == Stored(base, flags, steps[n].pkg)
  {
    hide UniqueNames, DbAfter;
    var n := |steps| - 1;
    var name := steps[n].pkg.name;
    var before := DbAfter(base, flags, steps[..n]);
    DbUnique(base, flags, steps[..n]);
    forall p: Pkg | p.name == name
      ensures p in before <==> p in base
    {
      AfterOthers(base, flags, steps[..n], p);
    }
    SameLookup(before, base, name);
  }

  lemma {:induction false} AfterOthers(base: seq<Pkg>, flags: Flags, steps: seq<Step>, p: Pkg)
    requires UniqueNames(base) && forall i :: 0 <= i < |steps| ==> steps[i].pkg.name != p.name
    ensures p in DbAfter(base, flags, steps) <==> p in base
    decreases |steps|
  {
    hide UniqueNames;
    if steps != [] {
      var n := |steps| - 1;
      AfterOthers(base, flags, steps[..n], p);
      DbUnique(base, flags, steps[..n]);
      DroppedMembers(DbAfter(base, flags, steps[..n]), steps[n].pkg.name, p);
    }
  }

  lemma SameLookup(a: seq<Pkg>, b: seq<Pkg>, name: string)
    requires UniqueNames(a) && UniqueNames(b) && forall p: Pkg :: p.name == name ==> (p in a <==> p in b)
    ensures Lookup(a, name) == Lookup(b, name)
  {
    hide Lookup;
    var x, y := Lookup(a, name), Lookup(b, name);
    if x.Some? {
      assert x.value in b;
      MemberNamed(b, x.value);
      assert y.value in b;
    }
    if y.Some? {
      assert y.value in a;
      MemberNamed(a, y.value);
    }
  }

  lemma {:induction false} DbAppend(base: seq<Pkg>, flags: Flags, a: seq<Step>, b: seq<Step>)
    ensures DbAfter(base, flags, a + b) == DbAfter(DbAfter(base, flags, a), flags, b)
    decreases |b|
  {
    hide Effect;
    if b == [] {
      assert a + b == a;
    } else {
      DbAppend(base, flags, a, b[..|b| - 1]);
      assert (a + b)[..|a + b| - 1] == a + b[..|b| - 1];
    }
  }

  /** The installed packages once everything is done: those not named in either list, as they
      were, and every target, an upgraded one with the install reason it had. */
  ghost predicate InNewDb(base: seq<Pkg>, flags: Flags, remove: seq<Pkg>, add: seq<Pkg>, p: Pkg) {
    || p in Kept(base, remove, add)
    || exists i :: 0 <= i < |add| && p == Stored(Kept(base, remove, []), flags, add[i])
  }

  lemma CompleteDb(base: seq<Pkg>, flags: Flags, remove: seq<Pkg>, add: seq<Pkg>, steps: seq<Step>, p: Pkg)
    requires UniqueNames(base) && UniqueNames(add) && Finished(steps, remove, add)
    ensures p in DbAfter(base, flags, steps) <==> InNewDb(base, flags, remove, add, p)
  {
    hide UniqueNames, DbAfter, Stored;
    var k := |remove|;
    var (a, b) := (steps[..k], steps[k..]);
    assert steps == a + b;
    DbAppend(base, flags, a, b);
    var middle := DbAfter(base, flags, a);
    forall q ensures q in middle <==> q in base && !Named(remove, q.name) {
      AfterRemovals(base, flags, a, q);
      SameNames(a, remove, q.name);
    }
    DbUnique(base, flags, a);
    InstalledDistinct(b, add);
    AfterInstalls(middle, flags, b, p);
    SameNames(b, add, p.name);
    SameDelivered(base, flags, remove, add, middle, b, p);
  }

  lemma SameNames(steps: seq<Step>, pkgs: seq<Pkg>, name: string)
    requires |steps| == |pkgs| && forall i :: 0 <= i < |steps| ==> steps[i].pkg == pkgs[i]
    ensures Removes(steps, name) <==> Named(pkgs, name)
  {
  }

  lemma InstalledDistinct(steps: seq<Step>, add: seq<Pkg>)
    requires UniqueNames(add) && |steps| == |add|
    requires forall i :: 0 <= i < |steps| ==> steps[i].Install? && steps[i].pkg == add[i] && WentWell(steps[i])
    ensures AllInstalled(steps)
  {
  }

  lemma SameDelivered(base: seq<Pkg>, flags: Flags, remove: seq<Pkg>, add: seq<Pkg>, middle: seq<Pkg>, steps: seq<Step>, p: Pkg)
    requires UniqueNames(base) && UniqueNames(middle) && |steps| == |add|
    requires forall i :: 0 <= i < |steps| ==> steps[i].pkg == add[i]
    requires forall q :: q in middle <==> q in base && !Named(remove, q.name)
    ensures Delivers(middle, flags, steps, p) <==> exists i :: 0 <= i < |add| && p == Stored(Kept(base, remove, []), flags, add[i])
  {
    hide UniqueNames;
    KeptUnique(base, remove, []);
    forall i | 0 <= i < |add|
      ensures Stored(middle, flags, add[i]) == Stored(Kept(base, remove, []), flags, add[i])
    {
      SameLookup(middle, Kept(base, remove, []), add[i].name);
    }
    if Delivers(middle, flags, steps, p) {
      var i :| 0 <= i < |steps| && p == Stored(middle, flags, steps[i].pkg);
      assert p == Stored(Kept(base, remove, []), flags, add[i]);
    }
    if i :| 0 <= i < |add| && p == Stored(Kept(base, remove, []), flags, add[i]) {
      assert p == Stored(middle, flags, steps[i].pkg);
    }
  }

  lemma {:induction false} KeptUnique(pkgs: seq<Pkg>, rem: seq<Pkg>, upgrade: seq<Pkg>)
    requires UniqueNames(pkgs)
    ensures UniqueNames(Kept(pkgs, rem, upgrade))
    decreases |pkgs|
  {
    if pkgs != [] {
      var n := |pkgs| - 1;
      KeptUnique(pkgs[..n], rem, upgrade);
      var k := Kept(pkgs[..n], rem, upgrade);
      forall i | 0 <= i < |k| ensures k[i].name != pkgs[n].name { assert k[i] in pkgs[..n]; }
    }
  }

  // ----- a safe plan carried out leaves a consistent database

  /** Only an untouched package may miss a dependency, and only one it missed before. */
  ghost predicate MissesNothingNew(env: Env, base: seq<Pkg>, kept: seq<Pkg>, db: seq<Pkg>) {
    forall p, j :: p in db && 0 <= j < |p.depends| ==>
      WasMet(env, db, Relax(env, p.depends[j])) || (p in kept && !WasMet(env, base, Relax(env, p.depends[j])))
  }

  /** Two packages can clash only if both were installed before and untouched. */
  ghost predicate NoNewClash(kept: seq<Pkg>, db: seq<Pkg>) {
    forall p, q :: p in db && q in db && Incompatible(p, q) ==> p in kept && q in kept
  }

  lemma ReasonIrrelevant(p: Pkg, r: Reason, d: Dep)
    ensures Satisfies(p.(reason := r), d) <==> Satisfies(p, d)
  {
  }

  lemma StillMet(env: Env, base: seq<Pkg>, flags: Flags, remove: seq<Pkg>, add: seq<Pkg>, db: seq<Pkg>, d: Dep)
    requires forall p :: p in db <==> InNewDb(base, flags, remove, add, p)
    requires Met(PlanOf(env, base, remove, add), d)
    ensures WasMet(env, db, d)
  {
    hide Satisfies, Kept, StoredReason, Lookup;
    var kept := Kept(base, remove, add);
    if AnySatisfies(add, d) {
      var i :| 0 <= i < |add| && Satisfies(add[i], d);
      var p := Stored(Kept(base, remove, []), flags, add[i]);
      ReasonIrrelevant(add[i], p.reason, d);
      assert InNewDb(base, flags, remove, add, p);
      Among(db, p, d);
    } else if AnySatisfies(kept, d) {
      var i :| 0 <= i < |kept| && Satisfies(kept[i], d);
      assert kept[i] in kept;
      assert InNewDb(base, flags, remove, add, kept[i]);
      Among(db, kept[i], d);
    }
  }

  lemma SafeDepsCarriedOut(env: Env, base: seq<Pkg>, flags: Flags, remove: seq<Pkg>, add: seq<Pkg>, db: seq<Pkg>)
    requires forall p :: p in db <==> InNewDb(base, flags, remove, add, p)
    requires SafeDeps(env, base, remove, add)
    ensures MissesNothingNew(env, base, Kept(base, remove, add), db)
  {
    hide Kept, Met, WasMet, StoredReason, Lookup;
    var c := PlanOf(env, base, remove, add);
    forall p, j | p in db && 0 <= j < |p.depends|
      ensures WasMet(env, db, Relax(env, p.depends[j])) || (p in c.kept && !WasMet(env, base, Relax(env, p.depends[j])))
    {
      var d := Relax(env, p.depends[j]);
      assert InNewDb(base, flags, remove, add, p);
      if p in c.kept {
        var i :| 0 <= i < |c.kept| && c.kept[i] == p;
        assert WasMet(env, base, Relax(env, c.kept[i].depends[j])) ==> Met(c, Relax(env, c.kept[i].depends[j]));
      } else {
        var i :| 0 <= i < |add| && p == Stored(Kept(base, remove, []), flags, add[i]);
        assert Met(c, Relax(env, add[i].depends[j]));
      }
      if Met(c, d) {
        StillMet(env, base, flags, remove, add, db, d);
      }
    }
  }

  lemma ClashIgnoresReason(p: Pkg, q: Pkg, r: Reason, t: Reason)
    ensures Clashes(p.(reason := r), q.(reason := t)) <==> Clashes(p, q)
  {
    hide Satisfies;
    var p', q' := p.(reason := r), q.(reason := t);
    forall j | 0 <= j < |p.conflicts|
      ensures Satisfies(q', p.conflicts[j]) <==> Satisfies(q, p.conflicts[j])
    {
      ReasonIrrelevant(q, t, p.conflicts[j]);
    }
    if Clashes(p, q) {
      var j :| 0 <= j < |p.conflicts| && Satisfies(q, p.conflicts[j]);
      assert Satisfies(q', p'.conflicts[j]);
    }
    if Clashes(p', q') {
      var j :| 0 <= j < |p'.conflicts| && Satisfies(q', p'.conflicts[j]);
      assert Satisfies(q, p.conflicts[j]);
    }
  }

  /** p is a target up to its install reason. */
  ghost predicate FromTarget(add: seq<Pkg>, p: Pkg) {
    exists i :: 0 <= i < |add| && p == add[i].(reason := p.reason)
  }

  lemma TargetsCompatible(env: Env, base: seq<Pkg>, remove: seq<Pkg>, add: seq<Pkg>, p: Pkg, q: Pkg)
    requires SafeConflicts(env, base, remove, add) && FromTarget(add, p)
    requires FromTarget(add, q) || q in Kept(base, remove, add)
    ensures !Incompatible(p, q)
  {
    hide Clashes, Kept;
    var i :| 0 <= i < |add| && p == add[i].(reason := p.reason);
    var q0 := q;
    if FromTarget(add, q) {
      var k :| 0 <= k < |add| && q == add[k].(reason := q.reason);
      q0 := add[k];
    } else {
      assert !Incompatible(add[i], q0);
    }
    ClashIgnoresReason(add[i], q0, p.reason, q.reason);
    ClashIgnoresReason(q0, add[i], q.reason, p.reason);
  }

  lemma SafeConflictsCarriedOut(env: Env, base: seq<Pkg>, flags: Flags, remove: seq<Pkg>, add: seq<Pkg>, db: seq<Pkg>)
    requires forall p :: p in db <==> InNewDb(base, flags, remove, add, p)
    requires SafeConflicts(env, base, remove, add)
    ensures NoNewClash(Kept(base, remove, add), db)
  {
    hide Incompatible, Kept, SafeConflicts, StoredReason, Lookup;
    var kept := Kept(base, remove, add);
    forall p | p in db ensures p in kept || FromTarget(add, p) {
      assert InNewDb(base, flags, remove, add, p);
    }
    forall p, q | p in db && q in db && (p !in kept || q !in kept)
      ensures !Incompatible(p, q)
    {
      if p !in kept {
        TargetsCompatible(env, base, remove, add, p, q);
      } else {
        TargetsCompatible(env, base, remove, add, q, p);
        Symmetric(p, q);
      }
    }
  }

  lemma Symmetric(p: Pkg, q: Pkg)
    ensures Incompatible(p, q) <==> Incompatible(q, p)
  {
    hide Clashes;
  }

  /** What preparing a transaction establishes about its lists. */
  ghost predicate Planned(assumed: seq<Dep>, base: seq<Pkg>, flags: Flags, remove: seq<Pkg>, add: seq<Pkg>) {
    var env := Env(assumed, flags.noDepVersion);
    && (Checked(base, flags, add) ==> SafeDeps(env, base, remove, add))
    && (!flags.noConflicts ==> SafeConflicts(env, base, remove, add))
  }

  /** Dependencies are checked on the final lists, except by a recursive cascade; that one is as
      good as checked where versions decide nothing. */
  ghost predicate Checked(base: seq<Pkg>, flags: Flags, add: seq<Pkg>) {
    && !flags.noDeps
    && (add == [] && flags.cascade && flags.recurse ==> VersionsDecideNothing(Env([], flags.noDepVersion), base))
  }

  /** A complete run of a prepared plan breaks nothing. */
  lemma CompleteRunIsSafe(assumed: seq<Dep>, base: seq<Pkg>, flags: Flags, remove: seq<Pkg>, add: seq<Pkg>, steps: seq<Step>)
    requires UniqueNames(base) && UniqueNames(add) && Finished(steps, remove, add)
    requires Planned(assumed, base, flags, remove, add)
    ensures var db, kept := DbAfter(base, flags, steps), Kept(base, remove, add);
            && UniqueNames(db)
            && (forall p :: p in db <==> InNewDb(base, flags, remove, add, p))
            && (Checked(base, flags, add) ==> MissesNothingNew(Env(assumed, flags.noDepVersion), base, kept, db))
            && (!flags.noConflicts ==> NoNewClash(kept, db))
  {
    hide UniqueNames, Finished, InNewDb, SafeDeps, SafeConflicts, DbAfter, Kept, MissesNothingNew, NoNewClash;
    var db := DbAfter(base, flags, steps);
    DbUnique(base, flags, steps);
    forall p ensures p in db <==> InNewDb(base, flags, remove, add, p) {
      CompleteDb(base, flags, remove, add, steps, p);
    }
    var env := Env(assumed, flags.noDepVersion);
    if Checked(base, flags, add) {
      SafeDepsCarriedOut(env, base, flags, remove, add, db);
    }
    if !flags.noConflicts {
      SafeConflictsCarriedOut(env, base, flags, remove, add, db);
    }
  }

  // ----- sorting changes the order of the lists only

  lemma SortedMembers(a: seq<Pkg>, b: seq<Pkg>)
    requires multiset(a) == multiset(b)
    ensures SameMembers(a, b) && |a| == |b|
    ensures UniqueNames(a) ==> UniqueNames(b)
  {
    forall p ensures p in a <==> p in b {
      assert p in a <==> p in multiset(a);
      assert p in b <==> p in multiset(b);
    }
    assert |a| == |multiset(a)| == |multiset(b)| == |b|;
    if UniqueNames(a) {
      forall i, j | 0 <= i < j < |b| ensures b[i].name != b[j].name {
        if b[i] == b[j] {
          UniqueIsDistinct(a);
          CountTwice(b, i, j);
          CountAtMostOne(a, b[i]);
          assert false;
        }
        assert b[i] in a && b[j] in a;
      }
    }
  }

  lemma {:induction false} SameKept(pkgs: seq<Pkg>, remove: seq<Pkg>, remove': seq<Pkg>, add: seq<Pkg>, add': seq<Pkg>)
    requires SameMembers(remove, remove') && SameMembers(add, add')
    ensures Kept(pkgs, remove, add) == Kept(pkgs, remove', add')
    decreases |pkgs|
  {
    hide SameMembers, Named;
    if pkgs != [] {
      var n := |pkgs| - 1;
      SameKept(pkgs[..n], remove, remove', add, add');
      SameNamed(remove, remove', pkgs[n].name);
      SameNamed(add, add', pkgs[n].name);
    }
  }

  lemma SameMet(c: Plan, c': Plan, d: Dep)
    requires c.env == c'.env && c.kept == c'.kept && SameMembers(c.upgrade, c'.upgrade) && Met(c, d)
    ensures Met(c', d)
  {
    hide Satisfies;
    if AnySatisfies(c.upgrade, d) {
      var i :| 0 <= i < |c.upgrade| && Satisfies(c.upgrade[i], d);
      Among(c'.upgrade, c.upgrade[i], d);
    }
  }

  /** A plan is as good in any other order. */
  lemma PlannedAnyOrder(assumed: seq<Dep>, base: seq<Pkg>, flags: Flags,
                        remove: seq<Pkg>, add: seq<Pkg>, remove': seq<Pkg>, add': seq<Pkg>)
    requires SameMembers(remove, remove') && SameMembers(add, add') && |add| == |add'|
    requires Planned(assumed, base, flags, remove, add)
    ensures Planned(assumed, base, flags, remove', add')
  {
    hide Met, WasMet, Kept, Incompatible, Clashes;
    var env := Env(assumed, flags.noDepVersion);
    var c, c' := PlanOf(env, base, remove, add), PlanOf(env, base, remove', add');
    SameKept(base, remove, remove', add, add');
    forall d | Met(c, d) ensures Met(c', d) { SameMet(c, c', d); }
    if Checked(base, flags, add) {
      forall i, j | 0 <= i < |add'| && 0 <= j < |add'[i].depends|
        ensures Met(c', Relax(env, add'[i].depends[j]))
      {
        assert add'[i] in add';
        var k :| 0 <= k < |add| && add[k] == add'[i];
        assert Met(c, Relax(env, add[k].depends[j]));
      }
    }
  }

  // ----- the order of the steps of any run, complete or not

  ghost predicate Did(steps: seq<Step>, install: bool, p: Pkg) {
    exists i :: 0 <= i < |steps| && steps[i].Install? == install && steps[i].pkg == p
  }

  /** Whatever stops a run, an installed target has every target that it surely needs. */
  lemma NeedsInstalledFirst(base: seq<Pkg>, remove: seq<Pkg>, add: seq<Pkg>, steps: seq<Step>, a: Pkg, b: Pkg)
    requires Follows(steps, remove, add) && UniqueNames(add) && RespectsNeeds(base, add, remove, false)
    requires SurelyNeeds(Scope(base, add, remove), a, b) && b in add && Did(steps, true, a)
    ensures Did(steps, true, b)
  {
    hide SurelyNeeds, UniqueNames, WentWell;
    var i :| 0 <= i < |steps| && steps[i].Install? && steps[i].pkg == a;
    assert a == add[i - |remove|];
    if a != b {
      var j, k :| 0 <= j < k < |add| && add[j] == b && add[k] == a;
      SamePlace(add, k, i - |remove|);
      assert steps[|remove| + j].pkg == b;
    }
  }

  /** Whatever stops a run, a removed target is surely needed by no target still there. */
  lemma NeedingRemovedFirst(base: seq<Pkg>, remove: seq<Pkg>, add: seq<Pkg>, steps: seq<Step>, a: Pkg, b: Pkg)
    requires Follows(steps, remove, add) && UniqueNames(remove) && RespectsNeeds(base, remove, [], true)
    requires SurelyNeeds(Scope(base, remove, []), a, b) && a in remove && Did(steps, false, b)
    ensures Did(steps, false, a)
  {
    hide SurelyNeeds, UniqueNames, WentWell;
    var i :| 0 <= i < |steps| && !steps[i].Install? && steps[i].pkg == b;
    assert b == remove[i];
    if a != b {
      var j, k :| 0 <= j < k < |remove| && remove[j] == a && remove[k] == b;
      SamePlace(remove, k, i);
      assert steps[j].pkg == a;
    }
  }

  /** Where no two packages need each other, every needed target is installed first, and every
      target is removed before what it needs. */
  lemma WithoutCircles(base: seq<Pkg>, remove: seq<Pkg>, add: seq<Pkg>, steps: seq<Step>, a: Pkg, b: Pkg)
    requires Follows(steps, remove, add) && UniqueNames(add) && UniqueNames(remove)
    requires RespectsNeeds(base, add, remove, false) && RespectsNeeds(base, remove, [], true)
    ensures var s := Scope(base, add, remove);
            NoCircle(s) && Needs(s, a, b) && b in add && Did(steps, true, a) ==> Did(steps, true, b)
    ensures var s := Scope(base, remove, []);
            NoCircle(s) && Needs(s, a, b) && a in remove && Did(steps, false, b) ==> Did(steps, false, a)
  {
    hide Needs, NoCircle, SurelyNeeds, UniqueNames, Follows, RespectsNeeds, Did;
    var s, s' := Scope(base, add, remove), Scope(base, remove, []);
    if a != b && NoCircle(s) && Needs(s, a, b) && b in add && Did(steps, true, a) {
      AcyclicIsSure(s, a, b);
      NeedsInstalledFirst(base, remove, add, steps, a, b);
    }
    if a != b && NoCircle(s') && Needs(s', a, b) && a in remove && Did(steps, false, b) {
      AcyclicIsSure(s', a, b);
      NeedingRemovedFirst(base, remove, add, steps, a, b);
    }
  }

  lemma SamePlace(pkgs: seq<Pkg>, i: nat, j: nat)
    requires UniqueNames(pkgs) && i < |pkgs| && j < |pkgs| && pkgs[i] == pkgs[j]
    ensures i == j
  {
  }

  // ----- whole histories of transactions

  /** A closed transaction: the database it started from, its lists and what it did. */
  datatype Record = Record(base: seq<Pkg>, flags: Flags, remove: seq<Pkg>, add: seq<Pkg>, steps: seq<Step>)

  ghost predicate ListsSorted(base: seq<Pkg>, flags: Flags, remove: seq<Pkg>, add: seq<Pkg>) {
    !flags.noDeps ==> RespectsNeeds(base, add, remove, false) && RespectsNeeds(base, remove, [], true)
  }

  /** A transaction acts only on locked, prepared and sorted lists, and follows them. */
  ghost predicate Lawful(assumed: seq<Dep>, r: Record) {
    && UniqueNames(r.base) && UniqueNames(r.add) && UniqueNames(r.remove) && Follows(r.steps, r.remove, r.add)
    && (r.steps != [] ==>
          !r.flags.noLock && Planned(assumed, r.base, r.flags, r.remove, r.add) && ListsSorted(r.base, r.flags, r.remove, r.add))
  }

  /** Lawful transactions, one after the other, lead from one database to another. */
  ghost predicate Leads(assumed: seq<Dep>, from: seq<Pkg>, past: seq<Record>, to: seq<Pkg>) {
    if past == [] then from == to
    else
      var r := past[|past| - 1];
      && Lawful(assumed, r) && to == DbAfter(r.base, r.flags, r.steps)
      && Leads(assumed, from, past[..|past| - 1], r.base)
  }

  /** Every dependency is met and no two packages clash. */
  ghost predicate Sound(assumed: seq<Dep>, db: seq<Pkg>) {
    && (forall p, j :: p in db && 0 <= j < |p.depends| ==> WasMet(Env(assumed, false), db, p.depends[j]))
    && (forall p, q :: p in db && q in db ==> !Incompatible(p, q))
  }

  /** The transaction left nothing undone and no check switched off. */
  ghost predicate Thorough(r: Record) {
    || r.steps == []
    || (Finished(r.steps, r.remove, r.add) && !r.flags.noDeps && !r.flags.noDepVersion && !r.flags.noConflicts)
  }

  lemma SoundStep(assumed: seq<Dep>, r: Record)
    requires Lawful(assumed, r) && Thorough(r) && Sound(assumed, r.base)
    ensures Sound(assumed, DbAfter(r.base, r.flags, r.steps))
  {
    hide Incompatible, WasMet, Planned, Finished, UniqueNames, Follows, Kept, InNewDb, VersionsDecideNothing;
    if r.steps != [] {
      StrictVersions(Env([], r.flags.noDepVersion), r.base);
      CompleteRunIsSafe(assumed, r.base, r.flags, r.remove, r.add, r.steps);
    }
  }

  /** A sound database stays sound through every history of thorough transactions. */
  lemma {:induction false} SoundForever(assumed: seq<Dep>, from: seq<Pkg>, past: seq<Record>, to: seq<Pkg>)
    requires Leads(assumed, from, past, to) && Sound(assumed, from)
    requires forall i :: 0 <= i < |past| ==> Thorough(past[i])
    ensures Sound(assumed, to)
    decreases |past|
  {
    hide Sound, Lawful, Thorough;
    if past != [] {
      var r := past[|past| - 1];
      SoundForever(assumed, from, past[..|past| - 1], r.base);
      SoundStep(assumed, r);
    }
  }
}
