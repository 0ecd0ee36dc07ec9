/** The transaction protocol (trans.c): what every call on a handle keeps, for every run of
    calls and an interrupt at any moment of a commit. */
module Trans {
  import opened Text
  import opened Package
  import opened Deps
  import opened Resolve
  import opened DepGraph
  import opened DepOrder
  import opened TransData
  import opened Commit
  import Remove
  import RemovePrepare
  import SyncPrepare

  datatype CommitResult = Refused | Nothing | Downloaded | NotStarted | Aborted | Stopped | Done

  /** How a plan came about: a removal, or targets to install. */
  datatype Planning = ByRemoval(base: seq<Pkg>, cover: seq<Pkg>)
                    | BySync(error: SyncPrepare.PrepareError, how: SyncPrepare.Course)

  /** What planning makes of the lists, and when it fails. */
  ghost predicate PlanOutcome(assumed: seq<Dep>, local: seq<Pkg>, syncs: seq<Db>, ignores: Pkg -> bool, flags: Flags,
                              before: TargetLists, ok: bool, after: TargetLists, course: Planning) {
    var env := Env(assumed, flags.noDepVersion);
    if before.add == [] then
      && course.ByRemoval? && after == before.(remove := after.remove)
      && RemovePrepare.Outcome(env, local, flags, before.remove, ok, after.remove, course.base, course.cover)
    else
      && course.BySync? && (ok <==> course.error == SyncPrepare.NoError)
      && SyncPrepare.Outcome(env, local, syncs, ignores, flags, before, course.error, after, course.how)
      && (ok ==> SyncPrepare.HoldsTargets(before, after, course.how) && SyncPrepare.OnlyFromTargets(before, after, course.how, syncs))
  }

  /** The same lists, in another order if dependencies count. */
  ghost predicate Reordered(flags: Flags, planned: TargetLists, after: TargetLists) {
    && after.unresolvable == planned.unresolvable && after.removes == planned.removes
    && multiset(after.add) == multiset(planned.add) && multiset(after.remove) == multiset(planned.remove)
    && (flags.noDeps ==> after == planned)
  }

  lemma HarmlessIsSafe(env: Env, local: seq<Pkg>, rem: seq<Pkg>)
    requires Remove.Harmless(env, local, rem)
    ensures SyncPrepare.SafeDeps(env, local, rem, [])
  {
    hide AnySatisfies;
    var c := PlanOf(env, local, rem, []);
    forall i, j | 0 <= i < |c.kept| && 0 <= j < |c.kept[i].depends| && WasMet(env, local, Relax(env, c.kept[i].depends[j]))
      ensures Met(c, Relax(env, c.kept[i].depends[j]))
    {
      SplitSatisfiers(local, rem, [], Relax(env, c.kept[i].depends[j]));
    }
  }

  lemma {:induction false} DropAbsent(pkgs: seq<Pkg>, name: string)
    requires !Named(pkgs, name)
    ensures DropFirst(pkgs, name) == pkgs
    decreases |pkgs|
  {
    if pkgs != [] {
      assert pkgs[0].name != name;
      forall i | 0 <= i < |pkgs| - 1 ensures pkgs[1..][i].name != name { assert pkgs[i + 1].name != name; }
      DropAbsent(pkgs[1..], name);
    }
  }

  lemma OneMoreStep(base: seq<Pkg>, flags: Flags, steps: seq<Step>, s: Step)
    ensures DbAfter(base, flags, steps + [s]) == Effect(DbAfter(base, flags, steps), flags, s)
  {
    assert (steps + [s])[..|steps|] == steps;
  }

  /** The database part of commit_single_pkg: the old version goes first; whatever fails
      afterwards, the target is there with its old install reason, or nothing of that name is. */
  method Replace(local: seq<Pkg>, flags: Flags, pkg: Pkg) returns (ending: Ending, db: seq<Pkg>)
    ensures db == Effect(local, flags, Install(pkg, ending))
  {
    hide DropFirst, Lookup;
    var oldpkg := Lookup(local, pkg.name);
    var newpkg := pkg;
    if oldpkg.Some? {
      newpkg := newpkg.(reason := oldpkg.value.reason);
    }
    if flags.allDeps {
      newpkg := newpkg.(reason := Depend);
    } else if flags.allExplicit {
      newpkg := newpkg.(reason := Explicit);
    }
    assert newpkg == Stored(local, flags, pkg);
    db := local;
    if oldpkg.Some? {
      db := DropFirst(local, pkg.name);
    } else {
      DropAbsent(local, pkg.name);
    }
    ending := *;
    if !ending.GivenUp? {
      db := db + [newpkg];
    }
  }

  class Handle {
    const assumed: seq<Dep>
    ghost const origin: seq<Pkg>     // the database the handle was opened on
    var local: seq<Pkg>              // the installed packages
    var locked: bool
    var trans: Transaction?
    ghost var base: seq<Pkg>         // the database the current transaction started from
    ghost var steps: seq<Step>       // what the current transaction has done
    ghost var past: seq<Record>      // the transactions released so far

    constructor (assumed: seq<Dep>, local: seq<Pkg>)
      requires UniqueNames(local)
      ensures Valid() && trans == null && origin == this.local == local && this.assumed == assumed && past == []
    {
      this.assumed, origin, this.local, locked, trans := assumed, local, local, false, null;
      base, steps, past := local, [], [];
    }

    ghost predicate Valid()
      reads this, trans
    {
      && UniqueNames(local) && UniqueNames(base) && Leads(assumed, origin, past, base)
      && (trans == null ==> !locked && local == base && steps == [])
      && (trans != null ==> ValidTrans(trans))
    }

    ghost predicate ValidTrans(t: Transaction)
      reads this, t
    {
      && locked == !t.flags.noLock && t.state != Idle
      && UniqueNames(t.add) && UniqueNames(t.remove)
      && (t.state == Initialized || t.state == Prepared ==> steps == [])
      && (t.state != Initialized ==>
            Planned(assumed, base, t.flags, t.remove, t.add) && ListsSorted(base, t.flags, t.remove, t.add))
      && (t.state != Initialized && t.state != Prepared ==> !t.flags.noLock)
      && Follows(steps, t.remove, t.add) && local == DbAfter(base, t.flags, steps)
    }

    /** klpm_trans_init */
    method Init(flags: Flags) returns (ok: bool, ghost taken: bool)
      requires Valid()
      modifies this`trans, this`locked
      ensures Valid()
      ensures ok <==> old(trans) == null && (flags.noLock || !taken)
      ensures ok ==> trans != null && fresh(trans) && trans.flags == flags && trans.state == Initialized
      ensures ok ==> trans.Targets() == TargetLists([], [], [], map[])
      ensures !ok ==> trans == old(trans)
    {
      taken := false;
      if trans != null {
        return false, taken;
      }
      if !flags.noLock {
        var held: bool := *;
        taken := held;
        if held {
          return false, taken;
        }
        locked := true;
      }
      trans := new Transaction(flags);
      ok := true;
    }

    /** klpm_add_pkg: one target for each name, and none that is up to date if only needed ones
        are asked for. */
    method AddPkg(pkg: Pkg) returns (ok: bool)
      requires Valid()
      modifies trans
      ensures Valid() && (trans != null ==> unchanged(trans`state, trans`remove, trans`unresolvable, trans`removes))
      ensures trans == null || trans.state != Initialized ==> !ok
      ensures trans != null && !ok ==> trans.add == old(trans.add)
      ensures trans != null && trans.state == Initialized && !ok ==>
                Named(old(trans.add), pkg.name) && pkg.(reason := Explicit) !in old(trans.add)
      ensures ok ==>
                trans.add == old(trans.add) +
                  if Named(old(trans.add), pkg.name) || (trans.flags.needed && UpToDate(local, pkg)) then []
                  else [pkg.(reason := Explicit)]
    {
      hide Planned, ListsSorted, Leads, DbAfter;
      if trans == null || trans.state != Initialized {
        return false;
      }
      var dup := PkgFind(trans.add, pkg.name);
      if dup.Some? {
        MemberIs(trans.add, dup.value, pkg.(reason := Explicit));
        return dup.value == pkg.(reason := Explicit);
      }
      var installed := Lookup(local, pkg.name);
      if installed.Some? && VerCmp(Some(pkg.version), Some(installed.value.version)) == 0 && trans.flags.needed {
        return true;
      }
      trans.add := trans.add + [pkg.(reason := Explicit)];
      ok := true;
    }

    /** klpm_remove_pkg */
    method RemovePkg(pkg: Pkg) returns (ok: bool)
      requires Valid()
      modifies trans
      ensures Valid() && (trans != null ==> unchanged(trans`state, trans`add, trans`unresolvable, trans`removes))
      ensures ok <==> pkg in local && trans != null && trans.state == Initialized
      ensures trans != null ==>
                trans.remove == old(trans.remove) + if !ok || Named(old(trans.remove), pkg.name) then [] else [pkg]
    {
      hide Planned, ListsSorted, Leads, DbAfter;
      if pkg !in local || trans == null || trans.state != Initialized {
        return false;
      }
      var dup := PkgFind(trans.remove, pkg.name);
      if dup.None? {
        trans.remove := trans.remove + [pkg];
      }
      ok := true;
    }

    /** klpm_trans_prepare: what it leaves prepared is a safe plan in dependency order, the one
        that planning arrived at. */
    method Prepare(syncs: seq<Db>, ignores: Pkg -> bool)
      returns (ok: bool, ghost archOk: bool, ghost planned: TargetLists, ghost course: Planning)
      requires Valid() && forall i :: 0 <= i < |syncs| ==> UniqueNames(syncs[i].pkgs)
      modifies trans
      ensures Valid()
      ensures trans == null || old(trans.state) != Initialized ==> !ok
      ensures trans != null ==> (trans.state == Prepared <==> old(trans.state) == Prepared || (ok && old(WorthPlanning())))
      ensures trans != null && !old(WorthPlanning()) ==> unchanged(trans) && (ok <==> trans.state == Initialized)
      ensures old(WorthPlanning()) && !archOk ==> !ok && unchanged(trans)
      ensures old(WorthPlanning()) && archOk ==>
                && PlanOutcome(assumed, local, syncs, ignores, trans.flags, old(trans.Targets()), ok, planned, course)
                && if ok then Reordered(trans.flags, planned, trans.Targets())
                   else trans.Targets() == planned && trans.state == Initialized
    {
      hide Planned, ListsSorted, Leads, UniqueNames, PlanOutcome;
      archOk, planned, course := true, TargetLists([], [], [], map[]), ByRemoval([], []);
      if trans == null || trans.state != Initialized {
        return false, archOk, planned, course;
      }
      if trans.add == [] && trans.remove == [] {
        return true, archOk, planned, course;
      }
      var allowed: bool := *;
      archOk := allowed;
      if !allowed {
        return false, archOk, planned, course;
      }
      ok, course := PlanLists(trans, syncs, ignores);
      planned := trans.Targets();
      if !ok {
        return;
      }
      SortLists(trans);
      trans.state := Prepared;
    }

    /** A transaction that is being set up and has targets. */
    ghost predicate WorthPlanning()
      reads this, trans
    {
      trans != null && trans.state == Initialized && (trans.add != [] || trans.remove != [])
    }

    method PlanLists(t: Transaction, syncs: seq<Db>, ignores: Pkg -> bool) returns (ok: bool, ghost course: Planning)
      requires UniqueNames(local) && UniqueNames(t.add) && UniqueNames(t.remove)
      requires forall i :: 0 <= i < |syncs| ==> UniqueNames(syncs[i].pkgs)
      modifies t`add, t`remove, t`unresolvable, t`removes
      ensures UniqueNames(t.add) && UniqueNames(t.remove)
      ensures ok ==> Planned(assumed, local, t.flags, t.remove, t.add)
      ensures PlanOutcome(assumed, local, syncs, ignores, t.flags, old(t.Targets()), ok, t.Targets(), course)
    {
      hide UniqueNames, RemovePrepare.Outcome, SyncPrepare.Outcome, SyncPrepare.SafeDeps, SyncPrepare.SafeConflicts, Planned;
      var env := Env(assumed, t.flags.noDepVersion);
      if t.add == [] {
        var remove;
        ghost var first, cover;
        ok, remove, first, cover := RemovePrepare.Prepare(env, local, t.flags, t.remove);
        course := ByRemoval(first, cover);
        t.remove := remove;
        if ok {
          RemovalPlanned(env, local, t.flags, remove);
        }
      } else {
        var error;
        ghost var how;
        error, how := SyncPrepare.Prepare(t, env, local, syncs, ignores);
        course := BySync(error, how);
        ok := error == SyncPrepare.NoError;
        if ok {
          SyncPlanned(env, local, t.flags, t.remove, t.add);
        }
      }
    }

    /** The two sorts at the end of klpm_trans_prepare. */
    method SortLists(t: Transaction)
      requires UniqueNames(local) && UniqueNames(t.add) && UniqueNames(t.remove)
      requires Planned(assumed, local, t.flags, t.remove, t.add)
      modifies t`add, t`remove
      ensures UniqueNames(t.add) && UniqueNames(t.remove)
      ensures Planned(assumed, local, t.flags, t.remove, t.add) && ListsSorted(local, t.flags, t.remove, t.add)
      ensures Reordered(t.flags, old(t.Targets()), t.Targets())
    {
      hide UniqueNames, Planned, RespectsNeeds, SurePlaced, Arranged;
      if !t.flags.noDeps {
        UniqueIsDistinct(t.add);
        UniqueIsDistinct(t.remove);
        var add := SortTargets(local, t.add, t.remove, false);
        var remove := SortTargets(local, t.remove, [], true);
        SortedMembers(t.add, add);
        SortedMembers(t.remove, remove);
        PlannedAnyOrder(assumed, local, t.flags, t.remove, t.add, remove, add);
        SortedInOrder(local, t.add, add, t.remove, remove, false);
        SortedInOrder(local, t.remove, remove, [], [], true);
        t.add, t.remove := add, remove;
      }
    }

    /** klpm_trans_interrupt, which may come at any moment of a commit. */
    method Interrupt() returns (ok: bool)
      requires Valid()
      modifies trans
      ensures Valid() && (trans != null ==> unchanged(trans`add, trans`remove, trans`unresolvable, trans`removes))
      ensures ok <==> trans != null && (old(trans.state) == Committing || old(trans.state) == Interrupted)
      ensures trans != null ==> trans.state == if ok then Interrupted else old(trans.state)
    {
      hide Planned, ListsSorted, Leads, UniqueNames, DbAfter, Follows;
      if trans == null || (trans.state != Committing && trans.state != Interrupted) {
        return false;
      }
      trans.state := Interrupted;
      ok := true;
    }

    ghost predicate Ready()
      reads this, trans
    {
      trans != null && trans.state == Prepared && !trans.flags.noLock
    }

    /** klpm_trans_commit. The database changes only from a locked, prepared transaction, step
        by step along its lists, none after a signal; it reports completion only after the last
        step. */
    method Commit() returns (result: CommitResult, ghost loaded: bool, ghost checked: bool, ghost hooksOk: bool, ghost heard: Option<nat>)
      requires Valid()
      modifies this`local, this`steps, trans
      ensures Valid() && (trans != null ==> unchanged(trans`add, trans`remove, trans`unresolvable, trans`removes))
      ensures result == Refused <==> !old(Ready())
      ensures result == Nothing <==> old(Ready()) && trans.add == [] && trans.remove == []
      ensures result == Downloaded <==> old(Ready()) && trans.add != [] && trans.flags.downloadOnly && loaded
      ensures result == NotStarted <==>
                old(Ready()) && (trans.add != [] || trans.remove != []) && !Cleared(trans.flags, trans.add, loaded, checked, hooksOk)
      ensures result in {Aborted, Stopped, Done} <==>
                && old(Ready()) && (trans.add != [] || trans.remove != [])
                && Cleared(trans.flags, trans.add, loaded, checked, hooksOk) && (trans.add == [] || !trans.flags.downloadOnly)
      ensures result in {Refused, Nothing, Downloaded, NotStarted} ==>
                local == old(local) && steps == old(steps) && (trans != null ==> trans.state == old(trans.state))
      ensures result in {Aborted, Stopped, Done} ==>
                && (result == Aborted <==> steps != [] && !WentWell(steps[|steps| - 1]))
                && (result != Aborted ==> forall i :: 0 <= i < |steps| ==> WentWell(steps[i]))
                && (result == Done <==> result != Aborted && heard.None?)
                && (result == Done ==> Finished(steps, trans.remove, trans.add))
                && (heard.Some? ==> |steps| == heard.value)
                && trans.state == if result == Aborted then Interrupted else Committed
    {
      hide Planned, ListsSorted, Leads, UniqueNames, DbAfter, Follows, WentWell, Finished;
      result, loaded, checked, hooksOk, heard := Refused, false, false, false, None;
      if trans == null || trans.state != Prepared || trans.flags.noLock {
        return;
      }
      if trans.add == [] && trans.remove == [] {
        result := Nothing;
        return;
      }
      result := NotStarted;
      if trans.add != [] {
        var load: bool := *;
        loaded := load;
        if !load {
          return;
        }
        if trans.flags.downloadOnly {
          result := Downloaded;
          checked, hooksOk := true, true;
          return;
        }
        var check: bool := *;
        checked := check;
        if !check {
          return;
        }
      }
      var hooks: bool := *;
      hooksOk := hooks;
      if !hooks {
        return;
      }
      trans.state := Committing;
      heard := RemovePackages(trans);
      var ok;
      ok, heard := UpgradePackages(trans, heard);
      if !ok {
        result := Aborted;
        return;
      }
      result := if trans.state == Interrupted then Stopped else Done;
      trans.state := Committed;
    }

    /** A signal handler may interrupt before and during every step, the last one included. */
    method Signal(t: Transaction, ghost heard0: Option<nat>) returns (ghost heard: Option<nat>)
      requires Valid() && trans == t && (t.state == Committing || t.state == Interrupted)
      modifies t
      ensures unchanged(t`add, t`remove, t`unresolvable, t`removes) && Valid()
      ensures (heard == heard0 && t.state == old(t.state)) || (heard == Some(|steps|) && t.state == Interrupted)
    {
      heard := heard0;
      var signal: bool := *;
      if signal {
        var ok := Interrupt();
        heard := Some(|steps|);
      }
    }

    /** _klpm_remove_packages */
    method RemovePackages(t: Transaction) returns (ghost heard: Option<nat>)
      requires Valid() && trans == t && t.state == Committing && steps == []
      modifies this`local, this`steps, t
      ensures unchanged(t`add, t`remove, t`unresolvable, t`removes)
      ensures Valid() && (t.state == Committing || t.state == Interrupted)
      ensures |steps| <= |t.remove| && (heard.None? ==> |steps| == |t.remove|)
      ensures (t.state == Interrupted <==> heard.Some?) && (heard.Some? ==> |steps| == heard.value)
      ensures forall i :: 0 <= i < |steps| ==> WentWell(steps[i])
    {
      hide Planned, ListsSorted, Leads, UniqueNames, DbAfter;
      heard := None;
      for i := 0 to |t.remove|
        invariant unchanged(t`add, t`remove, t`unresolvable, t`removes)
        invariant Valid() && trans == t && (t.state == Committing || t.state == Interrupted)
        invariant |steps| <= i && (heard.None? ==> |steps| == i)
        invariant (t.state == Interrupted <==> heard.Some?) && (heard.Some? ==> |steps| == heard.value)
        invariant forall k :: 0 <= k < |steps| ==> WentWell(steps[k])
      {
        heard := Signal(t, heard);
        if t.state == Interrupted {
          return;
        }
        RemoveSingle(t, t.remove[i]);
        heard := Signal(t, heard);
      }
    }

    /** _klpm_remove_single_package, which never reports a failure. */
    method RemoveSingle(t: Transaction, pkg: Pkg)
      requires Valid() && trans == t && (t.state == Committing || t.state == Interrupted)
      requires Follows(steps + [Step.Remove(pkg)], t.remove, t.add)
      modifies this`local, this`steps
      ensures Valid() && steps == old(steps) + [Step.Remove(pkg)]
    {
      var rest := DropFirst(local, pkg.name);
      assert rest == Effect(local, t.flags, Step.Remove(pkg));
      Act(t, Step.Remove(pkg), rest);
    }

    /** The database after one more step. */
    method Act(t: Transaction, ghost s: Step, db: seq<Pkg>)
      requires Valid() && trans == t && (t.state == Committing || t.state == Interrupted)
      requires Follows(steps + [s], t.remove, t.add) && db == Effect(local, t.flags, s)
      modifies this`local, this`steps
      ensures Valid() && steps == old(steps) + [s]
    {
      hide Planned, ListsSorted, Leads, UniqueNames, Follows, DbAfter, Effect;
      EffectUnique(local, t.flags, s);
      OneMoreStep(base, t.flags, steps, s);
      local := db;
      steps := steps + [s];
    }

    /** _klpm_upgrade_packages: a failed target counts as an interrupt. */
    method UpgradePackages(t: Transaction, ghost heard0: Option<nat>) returns (ok: bool, ghost heard: Option<nat>)
      requires Valid() && trans == t && (t.state == Committing || t.state == Interrupted)
      requires |steps| <= |t.remove| && (heard0.None? ==> |steps| == |t.remove|)
      requires (t.state == Interrupted <==> heard0.Some?) && (heard0.Some? ==> |steps| == heard0.value)
      requires forall i :: 0 <= i < |steps| ==> WentWell(steps[i])
      modifies this`local, this`steps, t
      ensures unchanged(t`add, t`remove, t`unresolvable, t`removes)
      ensures Valid() && (t.state == Committing || t.state == Interrupted)
      ensures t.state == Interrupted <==> !ok || heard.Some?
      ensures heard.Some? ==> |steps| == heard.value
      ensures ok ==> forall i :: 0 <= i < |steps| ==> WentWell(steps[i])
      ensures ok && heard.None? ==> Finished(steps, t.remove, t.add)
      ensures !ok ==> steps != [] && !WentWell(steps[|steps| - 1])
    {
      hide Planned, ListsSorted, Leads, UniqueNames, DbAfter;
      ok, heard := true, heard0;
      for i := 0 to |t.add|
        invariant unchanged(t`add, t`remove, t`unresolvable, t`removes)
        invariant Valid() && trans == t && (t.state == Committing || t.state == Interrupted)
        invariant t.state == Interrupted <==> !ok || heard.Some?
        invariant heard.Some? ==> |steps| == heard.value
        invariant ok && heard.None? ==> |steps| == |t.remove| + i
        invariant ok ==> forall k :: 0 <= k < |steps| ==> WentWell(steps[k])
        invariant !ok ==> steps != [] && !WentWell(steps[|steps| - 1])
      {
        heard := Signal(t, heard);
        if t.state == Interrupted {
          return;
        }
        var fine := CommitSingle(t, t.add[i]);
        if !fine {
          t.state := Interrupted;
          ok := false;
        }
        heard := Signal(t, heard);
      }
    }

    /** commit_single_pkg */
    method CommitSingle(t: Transaction, pkg: Pkg) returns (fine: bool)
      requires Valid() && trans == t && (t.state == Committing || t.state == Interrupted)
      requires forall ending: Ending :: Follows(steps + [Install(pkg, ending)], t.remove, t.add)
      modifies this`local, this`steps
      ensures Valid() && exists ending :: steps == old(steps) + [Install(pkg, ending)] && fine == ending.Clean?
    {
      hide Planned, ListsSorted, Leads, UniqueNames, Follows, DbAfter, Effect;
      var ending, db := Replace(local, t.flags, pkg);
      Act(t, Install(pkg, ending), db);
      fine := ending.Clean?;
    }

    /** klpm_trans_release */
    method Release() returns (ok: bool)
      requires Valid()
      modifies this`trans, this`locked, this`base, this`steps, this`past
      ensures Valid() && trans == null && !locked
      ensures ok <==> old(trans) != null
      ensures past == old(past) + if !ok then [] else
                [Record(old(base), old(trans).flags, old(trans).remove, old(trans).add, old(steps))]
    {
      hide Planned, ListsSorted, UniqueNames, DbAfter, Follows;
      if trans == null {
        return false;
      }
      ghost var r := Record(base, trans.flags, trans.remove, trans.add, steps);
      assert (past + [r])[..|past|] == past;
      past := past + [r];
      base, steps := local, [];
      trans, locked := null, false;
      ok := true;
    }
  }

  /** Everything before the first step went well. */
  ghost predicate Cleared(flags: Flags, add: seq<Pkg>, loaded: bool, checked: bool, hooksOk: bool) {
    if add == [] then hooksOk else loaded && (flags.downloadOnly || (checked && hooksOk))
  }

  lemma MemberIs(pkgs: seq<Pkg>, p: Pkg, q: Pkg)
    requires UniqueNames(pkgs) && p in pkgs && p.name == q.name
    ensures q in pkgs <==> p == q
  {
  }

  predicate UpToDate(local: seq<Pkg>, pkg: Pkg) {
    var installed := Lookup(local, pkg.name);
    installed.Some? && VerCmp(Some(pkg.version), Some(installed.value.version)) == 0
  }

  lemma RemovalPlanned(env: Env, local: seq<Pkg>, flags: Flags, remove: seq<Pkg>)
    requires env.noDepVersion == flags.noDepVersion
    requires !flags.noDeps && (flags.cascade && flags.recurse ==> RemovePrepare.VersionsDecideNothing(env, local)) ==>
               Remove.Harmless(env, local, remove)
    ensures Planned(env.assumed, local, flags, remove, [])
  {
    hide Remove.Harmless, SyncPrepare.SafeDeps;
    if Checked(local, flags, []) {
      HarmlessIsSafe(env, local, remove);
    }
  }

  lemma SyncPlanned(env: Env, local: seq<Pkg>, flags: Flags, remove: seq<Pkg>, add: seq<Pkg>)
    requires env.noDepVersion == flags.noDepVersion
    requires !flags.noDeps ==> SyncPrepare.SafeDeps(env, local, remove, add)
    requires !flags.noConflicts ==> SyncPrepare.SafeConflicts(env, local, remove, add)
    ensures Planned(env.assumed, local, flags, remove, add)
  {
    hide SyncPrepare.SafeConflicts, SyncPrepare.SafeDeps;
  }

  datatype Call = Open(flags: Flags) | AddTarget(pkg: Pkg) | RemoveTarget(pkg: Pkg) | Plan(syncs: seq<Db>)
                | CarryOut | Stop | Close

  /** Any run of calls, in any order: the handle stays valid, so the installed packages are
      always what lawful transactions, and a lawful part of the current one, made of the
      original ones. */
  method Run(h: Handle, calls: seq<Call>, ignores: Pkg -> bool)
    requires h.Valid() && h.trans == null
    requires forall i, k :: 0 <= i < |calls| && calls[i].Plan? && 0 <= k < |calls[i].syncs| ==> UniqueNames(calls[i].syncs[k].pkgs)
    modifies h
    ensures h.Valid()
    ensures h.trans == null ==> Leads(h.assumed, h.origin, h.past, h.local)
    ensures h.trans != null ==>
              Lawful(h.assumed, Record(h.base, h.trans.flags, h.trans.remove, h.trans.add, h.steps))
  {
    hide Planned, ListsSorted, Leads, UniqueNames, DbAfter, Follows;
    for i := 0 to |calls|
      invariant h.Valid() && (h.trans != null ==> fresh(h.trans))
    {
      match calls[i]
      case Open(flags) => var ok, _ := h.Init(flags);
      case AddTarget(pkg) => var ok := h.AddPkg(pkg);
      case RemoveTarget(pkg) => var ok := h.RemovePkg(pkg);
      case Plan(syncs) => var ok, _, _, _ := h.Prepare(syncs, ignores);
      case CarryOut => var r, _, _, _, _ := h.Commit();
      case Stop => var ok := h.Interrupt();
      case Close => var ok := h.Release();
    }
  }
}
