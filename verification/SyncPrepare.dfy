/** Planning an install or upgrade (_klpm_sync_prepare in sync.c): resolve, settle conflicts,
    check. The answers of the user are arbitrary. */
module SyncPrepare {
  import opened Text
  import opened Package
  import opened PkgLists
  import opened Deps
  import opened Resolve
  import opened Conflict
  import opened DepString
  import opened TransData

  /** What a target replaces; a target without an entry replaces nothing. */
  function RemovesOf(removes: map<string, seq<Pkg>>, name: string): seq<Pkg> {
    if name in removes then removes[name] else []
  }

  // ----- conflicts between targets

  ghost predicate NoClash(add: seq<Pkg>) { forall p, q :: p in add && q in add ==> !Clashes(p, q) }

  /** Every pair recorded in bad has lost a member. */
  ghost predicate Settled(add: seq<Pkg>, bad: seq<Conflict>, n: nat)
    requires n <= |bad|
  {
    forall i :: 0 <= i < n ==> !Named(add, bad[i].pkg1.name) || !Named(add, bad[i].pkg2.name)
  }

  /** One of the targets conflicts with r and stands in for it. */
  ghost predicate Superseded(r: Pkg, targets: seq<Pkg>) {
    exists s :: s in targets && Incompatible(s, r) && Satisfies(s, DepFromString(r.name))
  }

  /** Of two conflicting targets still there, the one whose name the other satisfies; if each
      satisfies the other's name, the second. */
  ghost function Loser(c: Conflict, add: seq<Pkg>): Option<Pkg> {
    if !Named(add, c.pkg1.name) || !Named(add, c.pkg2.name) then None
    else if Satisfies(c.pkg1, DepFromString(c.pkg2.name)) then Some(c.pkg2)
    else if Satisfies(c.pkg2, DepFromString(c.pkg1.name)) then Some(c.pkg1)
    else None
  }

  /** One conflict between two targets: drops the one the other stands in for, or fails when
      neither stands in for the other. */
  method SettlePair(c: Conflict, add0: seq<Pkg>, ghost targets: seq<Pkg>)
    returns (ok: bool, add: seq<Pkg>, dropped: Option<Pkg>)
    requires UniqueNames(targets) && Genuine(c, targets, targets, false)
    requires UniqueNames(add0) && forall p :: p in add0 ==> p in targets
    ensures dropped == Loser(c, add0) && (dropped.None? ==> add == add0)
    ensures ok <==> dropped.Some? || !Named(add0, c.pkg1.name) || !Named(add0, c.pkg2.name)
    ensures ok ==> !Named(add, c.pkg1.name) || !Named(add, c.pkg2.name)
    ensures dropped.Some? ==> dropped.value in add0 && Superseded(dropped.value, add)
    ensures UniqueNames(add)
    ensures forall p :: p in add <==> p in add0 && dropped != Some(p)
  {
    hide Satisfies, DepFromString;
    add, dropped := add0, None;
    var sync1 := PkgFind(add, c.pkg1.name);
    var sync2 := PkgFind(add, c.pkg2.name);
    if sync1.None? || sync2.None? {
      return true, add0, None;
    }
    SameOfName(targets, c.pkg1, sync1.value);
    SameOfName(targets, c.pkg2, sync2.value);
    var dep1, dep2 := DepFromString(c.pkg1.name), DepFromString(c.pkg2.name);
    var rsync;
    if Satisfies(sync1.value, dep2) {
      rsync := sync2.value;
    } else if Satisfies(sync2.value, dep1) {
      rsync := sync1.value;
    } else {
      return false, add0, None;
    }
    DropNamed(add0, rsync);
    add := DropFirst(add0, rsync.name);
    return true, add, Some(rsync);
  }

  lemma SameOfName(pkgs: seq<Pkg>, p: Pkg, q: Pkg)
    requires UniqueNames(pkgs) && p in pkgs && q in pkgs && p.name == q.name
    ensures p == q
  {
  }

  lemma DropNamed(pkgs: seq<Pkg>, r: Pkg)
    requires UniqueNames(pkgs) && r in pkgs
    ensures UniqueNames(DropFirst(pkgs, r.name)) && !Named(DropFirst(pkgs, r.name), r.name)
    ensures forall p :: p in DropFirst(pkgs, r.name) <==> p in pkgs && p != r
  {
    hide DropFirst;
    DropUnique(pkgs, r.name);
    forall p | p in pkgs && p.name == r.name
      ensures p == r
    {
      SameOfName(pkgs, p, r);
    }
  }

  lemma StaysSettled(before: seq<Pkg>, after: seq<Pkg>, bad: seq<Conflict>, n: nat)
    requires n <= |bad| && Settled(before, bad, n) && forall p :: p in after ==> p in before
    ensures Settled(after, bad, n)
  {
    forall i | 0 <= i < n
      ensures !Named(after, bad[i].pkg1.name) || !Named(after, bad[i].pkg2.name)
    {
      NamedSubset(after, before, bad[i].pkg1.name);
      NamedSubset(after, before, bad[i].pkg2.name);
    }
  }

  /** Two targets clash and neither stands in for the other. */
  ghost predicate Deadlock(add: seq<Pkg>) {
    exists p, q :: p in add && q in add && Clashes(p, q) &&
      !Satisfies(p, DepFromString(q.name)) && !Satisfies(q, DepFromString(p.name))
  }

  lemma NoLoser(c: Conflict, add: seq<Pkg>, targets: seq<Pkg>)
    requires UniqueNames(targets) && Genuine(c, targets, targets, false) && forall p :: p in add ==> p in targets
    requires Named(add, c.pkg1.name) && Named(add, c.pkg2.name) && Loser(c, add).None?
    ensures Deadlock(add)
  {
    hide Satisfies, DepFromString, Clashes;
    var i :| 0 <= i < |add| && add[i].name == c.pkg1.name;
    var j :| 0 <= j < |add| && add[j].name == c.pkg2.name;
    SameOfName(targets, c.pkg1, add[i]);
    SameOfName(targets, c.pkg2, add[j]);
  }

  /** The targets are split into those that stay and those dropped, in the order they were, each
      because of one that outlived it. */
  ghost predicate Weeded(targets: seq<Pkg>, add: seq<Pkg>, dropped: seq<Pkg>) {
    && (forall p :: p in targets <==> p in add || p in dropped)
    && (forall p :: p in dropped ==> p !in add)
    && (forall i :: 0 <= i < |dropped| ==> Superseded(dropped[i], add + dropped[i + 1..]))
  }

  lemma OneMoreDropped(targets: seq<Pkg>, before: seq<Pkg>, dropped: seq<Pkg>, add: seq<Pkg>, r: Pkg)
    requires Weeded(targets, before, dropped) && r in before && Superseded(r, add)
    requires forall p :: p in add <==> p in before && p != r
    ensures Weeded(targets, add, dropped + [r])
  {
    hide Incompatible, Satisfies, DepFromString;
    var all := dropped + [r];
    forall i | 0 <= i < |all| ensures Superseded(all[i], add + all[i + 1..]) {
      if i < |dropped| {
        assert all[i + 1..] == dropped[i + 1..] + [r];
        assert Superseded(dropped[i], before + dropped[i + 1..]);
        var s :| s in before + dropped[i + 1..] && Incompatible(s, dropped[i]) && Satisfies(s, DepFromString(dropped[i].name));
        assert s in add + all[i + 1..];
      }
    }
  }

  /** The first conflict phase: afterwards no two targets clash, or two are deadlocked. */
  method SettleTargets(targets: seq<Pkg>) returns (ok: bool, add: seq<Pkg>, dropped: seq<Pkg>)
    requires UniqueNames(targets)
    ensures ok ==> NoClash(add)
    ensures !ok ==> Deadlock(add)
    ensures UniqueNames(add) && Weeded(targets, add, dropped)
  {
    hide Clashes, Superseded, UniqueNames, IsIn, Genuine, Deadlock, Loser;
    var bad := InnerConflicts(targets);
    add, dropped := targets, [];
    for i := 0 to |bad|
      invariant Settled(add, bad, i) && UniqueNames(add) && Weeded(targets, add, dropped)
    {
      ghost var before := add;
      var settled, drop;
      settled, add, drop := SettlePair(bad[i], add, targets);
      if !settled {
        NoLoser(bad[i], add, targets);
        return false, add, dropped;
      }
      StaysSettled(before, add, bad, i);
      if drop.Some? {
        OneMoreDropped(targets, before, dropped, add, drop.value);
        dropped := dropped + [drop.value];
      }
    }
    ok := true;
    SettledNoClash(targets, add, bad);
  }

  lemma SettledNoClash(targets: seq<Pkg>, add: seq<Pkg>, bad: seq<Conflict>)
    requires forall p, q :: p in targets && q in targets && Clashes(p, q) ==> IsIn(p.name, q.name, bad)
    requires Settled(add, bad, |bad|) && forall p :: p in add ==> p in targets
    ensures NoClash(add)
  {
    hide Clashes, Named;
    forall p, q | p in add && q in add
      ensures !Clashes(p, q)
    {
      if IsIn(p.name, q.name, bad) {
        var i :| 0 <= i < |bad| && bad[i].pkg1.name == p.name && bad[i].pkg2.name == q.name;
        MemberNamed(add, p);
        MemberNamed(add, q);
        assert false;
      }
    }
  }

  // ----- conflicts with installed packages

  /** The package of that name is on the removal list or replaced by a target. */
  ghost predicate Elected(name: string, add: seq<Pkg>, remove: seq<Pkg>, removes: map<string, seq<Pkg>>) {
    Named(remove, name) || exists k :: 0 <= k < |add| && Named(RemovesOf(removes, add[k].name), name)
  }

  method IsElected(name: string, add: seq<Pkg>, remove: seq<Pkg>, removes: map<string, seq<Pkg>>) returns (found: bool)
    ensures found <==> Elected(name, add, remove, removes)
  {
    hide Named, RemovesOf;
    found := Named(remove, name);
    var j := 0;
    while j < |add| && !found
      invariant 0 <= j <= |add|
      invariant found ==> Elected(name, add, remove, removes)
      invariant !found ==> !Named(remove, name) && forall k :: 0 <= k < j ==> !Named(RemovesOf(removes, add[k].name), name)
    {
      found := Named(RemovesOf(removes, add[j].name), name);
      j := j + 1;
    }
  }

  /** Every replacement of a is one of b. */
  ghost predicate Includes(a: map<string, seq<Pkg>>, b: map<string, seq<Pkg>>) {
    forall name :: RemovesOf(a, name) <= RemovesOf(b, name)
  }

  lemma StaysElected(name: string, add: seq<Pkg>, remove: seq<Pkg>, a: map<string, seq<Pkg>>, b: map<string, seq<Pkg>>)
    requires Includes(a, b) && Elected(name, add, remove, a)
    ensures Elected(name, add, remove, b)
  {
    hide Named, RemovesOf;
    if !Named(remove, name) {
      var k :| 0 <= k < |add| && Named(RemovesOf(a, add[k].name), name);
      NamedPrefix(RemovesOf(a, add[k].name), RemovesOf(b, add[k].name), name);
    }
  }

  /** Every incompatible installed package that the targets do not replace by name is elected. */
  ghost predicate AllElected(local: seq<Pkg>, add: seq<Pkg>, remove: seq<Pkg>, removes: map<string, seq<Pkg>>) {
    forall p, q :: p in add && q in local && !Named(add, q.name) && Incompatible(p, q) ==> Elected(q.name, add, remove, removes)
  }

  /** An installed package, not elected so far, that is incompatible with the target of that
      name and that no target replaces by name. */
  ghost predicate Displaced(q: Pkg, name: string, local: seq<Pkg>, add: seq<Pkg>, remove: seq<Pkg>, removes: map<string, seq<Pkg>>) {
    && q in local && !Named(add, q.name) && !Elected(q.name, add, remove, removes)
    && exists p :: p in add && p.name == name && Incompatible(p, q)
  }

  /** What the targets replace has only grown, by displaced packages. */
  ghost predicate GrownByConflicts(local: seq<Pkg>, add: seq<Pkg>, remove: seq<Pkg>, a: map<string, seq<Pkg>>, b: map<string, seq<Pkg>>) {
    Includes(a, b) && forall name, q :: q in RemovesOf(b, name) ==> q in RemovesOf(a, name) || Displaced(q, name, local, add, remove, a)
  }

  /** The conflict the user would not settle by removing the installed package. */
  ghost predicate Objected(c: Conflict, local: seq<Pkg>, add: seq<Pkg>, remove: seq<Pkg>, removes: map<string, seq<Pkg>>) {
    c.pkg1 in add && Incompatible(c.pkg1, c.pkg2) && Displaced(c.pkg2, c.pkg1.name, local, add, remove, removes)
  }

  /** The second conflict phase: each conflicting installed package is elected for removal, or
      the user says no and the phase fails. */
  method SettleInstalled(local: seq<Pkg>, add: seq<Pkg>, remove: seq<Pkg>, removes0: map<string, seq<Pkg>>)
    returns (ok: bool, removes: map<string, seq<Pkg>>, ghost objection: Option<Conflict>)
    requires UniqueNames(local)
    ensures GrownByConflicts(local, add, remove, removes0, removes)
    ensures ok ==> AllElected(local, add, remove, removes)
    ensures ok <==> objection.None?
    ensures objection.Some? ==> Objected(objection.value, local, add, remove, removes)
  {
    hide Incompatible, Elected, Named, UniqueNames, GrownByConflicts;
    var bad := OuterConflicts(local, add);
    removes := removes0;
    NothingGrown(local, add, remove, removes0);
    for i := 0 to |bad|
      invariant GrownByConflicts(local, add, remove, removes0, removes)
      invariant forall k :: 0 <= k < i ==> Elected(bad[k].pkg2.name, add, remove, removes)
    {
      var c := bad[i];
      var found := IsElected(c.pkg2.name, add, remove, removes);
      if !found {
        assert Displaced(c.pkg2, c.pkg1.name, local, add, remove, removes);
        var agreed: bool := *;
        if !agreed {
          return false, removes, Some(c);
        }
        ghost var before := removes;
        removes := Elect(local, add, remove, removes, c.pkg1, c.pkg2);
        OneMoreElected(local, add, remove, removes0, before, removes, c.pkg1, c.pkg2);
        forall k | 0 <= k < i
          ensures Elected(bad[k].pkg2.name, add, remove, removes)
        {
          StaysElected(bad[k].pkg2.name, add, remove, before, removes);
        }
      }
    }
    ok, objection := true, None;
    ConflictsElected(local, add, remove, removes, bad);
  }

  lemma NothingGrown(local: seq<Pkg>, add: seq<Pkg>, remove: seq<Pkg>, removes: map<string, seq<Pkg>>)
    ensures GrownByConflicts(local, add, remove, removes, removes)
  {
  }

  lemma OneMoreElected(local: seq<Pkg>, add: seq<Pkg>, remove: seq<Pkg>, a: map<string, seq<Pkg>>, b: map<string, seq<Pkg>>, c: map<string, seq<Pkg>>,
                       target: Pkg, victim: Pkg)
    requires GrownByConflicts(local, add, remove, a, b) && Displaced(victim, target.name, local, add, remove, b)
    requires c == b[target.name := RemovesOf(b, target.name) + [victim]]
    ensures GrownByConflicts(local, add, remove, a, c) && Includes(b, c)
  {
    hide Incompatible, Elected, Named;
    if Elected(victim.name, add, remove, a) { StaysElected(victim.name, add, remove, a, b); }
  }

  /** Appends the installed package to what the target replaces. */
  method Elect(local: seq<Pkg>, add: seq<Pkg>, remove: seq<Pkg>, removes0: map<string, seq<Pkg>>, target: Pkg, victim: Pkg)
    returns (removes: map<string, seq<Pkg>>)
    requires UniqueNames(local) && target in add && victim in local
    ensures removes == removes0[target.name := RemovesOf(removes0, target.name) + [victim]]
    ensures Elected(victim.name, add, remove, removes)
  {
    var found := PkgFind(local, victim.name);
    MemberNamed(local, victim);
    SameOfName(local, found.value, victim);
    var more := RemovesOf(removes0, target.name) + [found.value];
    removes := removes0[target.name := more];
    assert more[|more| - 1].name == victim.name;
    ghost var k :| 0 <= k < |add| && add[k] == target;
    assert Named(RemovesOf(removes, add[k].name), victim.name);
  }

  lemma ConflictsElected(local: seq<Pkg>, add: seq<Pkg>, remove: seq<Pkg>, removes: map<string, seq<Pkg>>, bad: seq<Conflict>)
    requires forall k :: 0 <= k < |bad| ==> Elected(bad[k].pkg2.name, add, remove, removes)
    requires forall p, q :: p in add && q in local && !Named(add, q.name) && Incompatible(p, q) ==> IsIn(p.name, q.name, bad)
    ensures AllElected(local, add, remove, removes)
  {
    hide Incompatible, Elected, Named;
  }

  /** One of the targets replaces p. */
  ghost predicate Replaced(p: Pkg, add: seq<Pkg>, removes: map<string, seq<Pkg>>) {
    exists t :: t in add && p in RemovesOf(removes, t.name)
  }

  /** The removal list has grown by what the targets replace: by just the names elected. */
  ghost predicate Collected(add: seq<Pkg>, remove0: seq<Pkg>, removes: map<string, seq<Pkg>>, remove: seq<Pkg>) {
    && remove0 <= remove
    && (forall name :: Named(remove, name) <==> Elected(name, add, remove0, removes))
    && (forall i :: |remove0| <= i < |remove| ==> Replaced(remove[i], add, removes))
  }

  /** Builds the removal list: what the targets replace, each name once. */
  method CollectRemovals(add: seq<Pkg>, remove0: seq<Pkg>, removes: map<string, seq<Pkg>>) returns (remove: seq<Pkg>)
    ensures Collected(add, remove0, removes, remove)
    ensures UniqueNames(remove0) ==> UniqueNames(remove)
  {
    hide Named, RemovesOf, UniqueNames;
    remove := remove0;
    for i := 0 to |add|
      invariant remove0 <= remove && (UniqueNames(remove0) ==> UniqueNames(remove))
      invariant forall k, name :: 0 <= k < i && Named(RemovesOf(removes, add[k].name), name) ==> Named(remove, name)
      invariant forall k :: |remove0| <= k < |remove| ==> Replaced(remove[k], add, removes)
    {
      var before := remove;
      remove := CollectOne(RemovesOf(removes, add[i].name), remove);
      forall k, name | 0 <= k < i && Named(RemovesOf(removes, add[k].name), name)
        ensures Named(remove, name)
      {
        NamedPrefix(before, remove, name);
      }
      forall k | |before| <= k < |remove|
        ensures Replaced(remove[k], add, removes)
      {
        assert add[i] in add && remove[k] in RemovesOf(removes, add[i].name);
      }
    }
    forall name
      ensures Named(remove, name) <==> Elected(name, add, remove0, removes)
    {
      NamedPrefix(remove0, remove, name);
      if Named(remove, name) { OnlyElected(add, remove0, removes, remove, name); }
    }
  }

  lemma OnlyElected(add: seq<Pkg>, remove0: seq<Pkg>, removes: map<string, seq<Pkg>>, remove: seq<Pkg>, name: string)
    requires remove0 <= remove && Named(remove, name)
    requires forall i :: |remove0| <= i < |remove| ==> Replaced(remove[i], add, removes)
    ensures Elected(name, add, remove0, removes)
  {
    hide RemovesOf;
    var i :| 0 <= i < |remove| && remove[i].name == name;
    if i < |remove0| {
      assert remove0[i].name == name;
    } else {
      assert Replaced(remove[i], add, removes);
      var t :| t in add && remove[i] in RemovesOf(removes, t.name);
      MemberNamed(RemovesOf(removes, t.name), remove[i]);
      var k :| 0 <= k < |add| && add[k] == t;
    }
  }

  method CollectOne(replaced: seq<Pkg>, remove0: seq<Pkg>) returns (remove: seq<Pkg>)
    ensures remove0 <= remove && (UniqueNames(remove0) ==> UniqueNames(remove))
    ensures forall name :: Named(replaced, name) ==> Named(remove, name)
    ensures forall i :: |remove0| <= i < |remove| ==> remove[i] in replaced
  {
    remove := remove0;
    for j := 0 to |replaced|
      invariant remove0 <= remove && (UniqueNames(remove0) ==> UniqueNames(remove))
      invariant forall k :: 0 <= k < j ==> Named(remove, replaced[k].name)
      invariant forall i :: |remove0| <= i < |remove| ==> remove[i] in replaced
    {
      if !Named(remove, replaced[j].name) {
        var before := remove;
        remove := remove + [replaced[j]];
        assert remove[|before|] == replaced[j];
        forall k | 0 <= k < j
          ensures Named(remove, replaced[k].name)
        {
          NamedPrefix(before, remove, replaced[k].name);
        }
      }
    }
    forall name | Named(replaced, name)
      ensures Named(remove, name)
    {
      var k :| 0 <= k < |replaced| && replaced[k].name == name;
    }
  }

  // ----- resolution of the targets

  /** What the resolution of the targets reads: the installed packages without the targets, the
      targets to prefer, and every removal decided so far. */
  ghost predicate ContextOf(c: Context, env: Env, local: seq<Pkg>, syncs: seq<Db>, ignores: Pkg -> bool,
                            add: seq<Pkg>, remove: seq<Pkg>, removes: map<string, seq<Pkg>>) {
    && c.env == env && c.installed == Db(local, true) && c.preferred == add && c.syncs == syncs && c.ignores == ignores
    && (forall p :: p in c.localpkgs <==> p in local && !Named(add, p.name))
    && (forall name :: Named(c.rem, name) <==> Elected(name, add, remove, removes))
  }

  method ResolutionContext(env: Env, local: seq<Pkg>, syncs: seq<Db>, ignores: Pkg -> bool,
                           add: seq<Pkg>, remove: seq<Pkg>, removes: map<string, seq<Pkg>>) returns (c: Context)
    requires UniqueNames(local) && forall i :: 0 <= i < |syncs| ==> UniqueNames(syncs[i].pkgs)
    ensures UsableContext(c) && ContextOf(c, env, local, syncs, ignores, add, remove, removes)
  {
    hide Named, RemovesOf;
    var rem := remove;
    for i := 0 to |add|
      invariant forall name :: Named(rem, name) <==> Elected(name, add[..i], remove, removes)
    {
      forall name
        ensures Named(rem + RemovesOf(removes, add[i].name), name) <==> Elected(name, add[..i + 1], remove, removes)
      {
        NamedInBoth(rem, RemovesOf(removes, add[i].name), name);
        ElectedSnoc(name, add, i, remove, removes);
      }
      rem := rem + RemovesOf(removes, add[i].name);
    }
    assert add[..|add|] == add;
    var localpkgs := PkgDiff(local, add);
    c := Context(env, Db(local, true), localpkgs, syncs, add, rem, ignores);
  }

  lemma ElectedSnoc(name: string, add: seq<Pkg>, i: nat, remove: seq<Pkg>, removes: map<string, seq<Pkg>>)
    requires i < |add|
    ensures Elected(name, add[..i + 1], remove, removes) <==>
            Elected(name, add[..i], remove, removes) || Named(RemovesOf(removes, add[i].name), name)
  {
    hide Named, RemovesOf;
    var a, b := add[..i], add[..i + 1];
    if Elected(name, a, remove, removes) && !Named(remove, name) {
      var k :| 0 <= k < |a| && Named(RemovesOf(removes, a[k].name), name);
      assert b[k] == a[k];
    }
    if Named(RemovesOf(removes, add[i].name), name) { assert b[i] == add[i]; }
    if Elected(name, b, remove, removes) && !Named(remove, name) {
      var k :| 0 <= k < |b| && Named(RemovesOf(removes, b[k].name), name);
      assert k < i ==> a[k] == b[k];
    }
  }

  /** Every listed package is a target, or a package listed before it depends on it. */
  ghost predicate OnlyWanted(c: Context, targets: seq<Pkg>, list: seq<Pkg>) {
    forall k :: 0 <= k < |list| ==> list[k] in targets || WantedAt(c, list, k)
  }

  lemma OnlyWantedGrows(c: Context, targets: seq<Pkg>, a: seq<Pkg>, b: seq<Pkg>)
    requires a <= b && OnlyWanted(c, targets, a) && Wanted(c, b, |a| + 1)
    requires |b| > |a| ==> b[|a|] in targets
    ensures OnlyWanted(c, targets, b)
  {
    hide Satisfies;
    forall k | 0 <= k < |b| && b[k] !in targets ensures WantedAt(c, b, k) {
      if k < |a| {
        assert b[k] == a[k];
        assert WantedAt(c, a, k);
        var i, j :| 0 <= i < k && 0 <= j < |a[i].depends| && Satisfies(a[k], Relax(c.env, a[i].depends[j]));
        assert b[i] == a[i];
        assert Satisfies(b[k], Relax(c.env, b[i].depends[j]));
      }
    }
  }

  /** Resolves the targets one by one. Afterwards each target is resolved or set aside. */
  method ResolveTargets(c: Context, add: seq<Pkg>) returns (resolved: seq<Pkg>, unresolvable: seq<Pkg>, data: seq<Missing>)
    requires UsableContext(c) && c.preferred == add
    ensures UniqueNames(resolved)
    ensures forall p :: p in add ==> Named(resolved, p.name) || p in unresolvable
    ensures forall p :: p in unresolvable ==> p in add
    ensures forall p :: p in resolved ==> p in Available(c)
    ensures OneEach(Available(c)) ==> TailMet(c, resolved, 0)
    ensures OnlyWanted(c, add, resolved)
    ensures Explained(c, data, 0) && forall p :: p in unresolvable ==> About(data, 0, p.name)
  {
    hide UsableContext, OneEach, TailMet, UniqueNames, Available, Named, StuckAt, About, WantedAt;
    resolved, unresolvable, data := [], [], [];
    NothingResolved(c);
    for i := 0 to |add|
      invariant UniqueNames(resolved) && Universe(c, resolved) == Available(c)
      invariant forall k :: 0 <= k < i ==> Named(resolved, add[k].name) || add[k] in unresolvable
      invariant forall p :: p in unresolvable ==> p in add
      invariant OneEach(Available(c)) ==> TailMet(c, resolved, 0)
      invariant OnlyWanted(c, add, resolved)
      invariant Explained(c, data, 0) && forall p :: p in unresolvable ==> About(data, 0, p.name)
    {
      var ok, before := true, resolved;
      ghost var recorded := data;
      FromPreferred(c, add[i]);
      AvailableUniverse(c, before, add[i]);
      ok, resolved, data := ResolveDeps(c, add[i], before, data);
      ExplainedGrows(c, recorded, data, 0);
      forall p | p in unresolvable || (!ok && p == add[i]) ensures About(data, 0, p.name) {
        StillAbout(recorded, data, 0, p.name);
      }
      if !ok {
        unresolvable := unresolvable + [add[i]];
      } else {
        SubtreeGrown(c, before, add[i], resolved);
        OnlyWantedGrows(c, add, before, resolved);
        if OneEach(Available(c)) { TailMetGrows(c, before, resolved, 0); }
        forall k | 0 <= k < i && Named(before, add[k].name)
          ensures Named(resolved, add[k].name)
        {
          NamedPrefix(before, resolved, add[k].name);
        }
      }
    }
    forall p | p in resolved
      ensures p in Available(c)
    {
      assert p in Universe(c, resolved);
    }
  }

  lemma NothingResolved(c: Context)
    ensures UniqueNames([]) && Universe(c, []) == Available(c) && TailMet(c, [], 0)
  {
    hide Available;
  }

  ghost predicate OneFileTwice(pkgs: seq<Pkg>) { exists i, j :: 0 <= i < j < |pkgs| && pkgs[i].filename == pkgs[j].filename }

  /** The two-loop search for packages with one file name. */
  method SameFilename(pkgs: seq<Pkg>) returns (found: bool)
    ensures found <==> OneFileTwice(pkgs)
  {
    found := false;
    for i := 0 to |pkgs|
      invariant found <==> exists a, b :: 0 <= a < i && a < b < |pkgs| && pkgs[a].filename == pkgs[b].filename
    {
      ghost var before := found;
      for j := i + 1 to |pkgs|
        invariant found <==> before || exists b :: i < b < j && pkgs[i].filename == pkgs[b].filename
      {
        if pkgs[i].filename == pkgs[j].filename {
          found := true;
        }
      }
    }
  }

  /** Packages pulled in by resolution are marked as dependencies; nothing else changes. */
  function MarkPulled(resolved: seq<Pkg>, targets: seq<Pkg>): (r: seq<Pkg>)
    ensures |r| == |resolved|
    ensures forall i :: 0 <= i < |r| ==>
              r[i] == if Named(targets, resolved[i].name) then resolved[i] else resolved[i].(reason := Depend)
  {
    if resolved == [] then []
    else
      var p := resolved[0];
      [if Named(targets, p.name) then p else p.(reason := Depend)] + MarkPulled(resolved[1..], targets)
  }

  // ----- what a prepared plan guarantees

  /** After removing and adding, every dependency of a target is met, and every dependency of
      an untouched package that was met still is. */
  ghost predicate SafeDeps(env: Env, local: seq<Pkg>, remove: seq<Pkg>, add: seq<Pkg>) {
    var c := PlanOf(env, local, remove, add);
    && AllMet(c, add)
    && forall i, j :: 0 <= i < |c.kept| && 0 <= j < |c.kept[i].depends| ==>
         (WasMet(env, local, Relax(env, c.kept[i].depends[j])) ==> Met(c, Relax(env, c.kept[i].depends[j])))
  }

  /** No two targets clash and no target is incompatible with a package that stays. */
  ghost predicate SafeConflicts(env: Env, local: seq<Pkg>, remove: seq<Pkg>, add: seq<Pkg>) {
    && NoClash(add)
    && forall p, q :: p in add && q in Kept(local, remove, add) ==> !Incompatible(p, q)
  }

  lemma ElectedAreGone(env: Env, local: seq<Pkg>, add: seq<Pkg>, remove0: seq<Pkg>, removes: map<string, seq<Pkg>>, remove: seq<Pkg>)
    requires NoClash(add) && AllElected(local, add, remove0, removes)
    requires Collected(add, remove0, removes, remove)
    ensures SafeConflicts(env, local, remove, add)
  {
    hide Incompatible, Elected, Named, NoClash;
  }

  datatype PrepareError = NoError | UnsatisfiedDeps | DuplicateFilename | ConflictingDeps

  /** Every listed package is one that resolution can add, up to its reason, and, provided each
      name denotes one package, all their dependencies are met. */
  ghost predicate Resolved(c: Context, add: seq<Pkg>) {
    && (forall i :: 0 <= i < |add| ==> FromAvailable(c, add[i]))
    && (OneEach(Available(c)) ==> TailMet(c, add, 0))
  }

  ghost predicate FromAvailable(c: Context, p: Pkg) { exists q :: q in Available(c) && p == q.(reason := p.reason) }

  /** Some of the targets have a dependency among complaints that all have their reason. */
  ghost predicate Unresolved(c: Context, failed: seq<Pkg>) {
    exists data :: Explained(c, data, 0) && forall p :: p in failed ==> About(data, 0, p.name)
  }

  /** resolved holds each of the targets by name, save those set aside for a dependency that
      could not be resolved, and otherwise only what one of its packages depends on, marked as a
      dependency. */
  ghost predicate ResolvedTargets(c: Context, targets: seq<Pkg>, aside: seq<Pkg>, resolved: seq<Pkg>) {
    && (forall p :: p in aside ==> p in targets) && Unresolved(c, aside)
    && (forall p :: p in targets ==> Named(resolved, p.name) || p in aside)
    && UniqueNames(resolved) && Resolved(c, resolved) && OnlyWanted(c, targets, resolved)
    && (forall i :: 0 <= i < |resolved| && !Named(targets, resolved[i].name) ==> resolved[i].reason == Depend)
  }

  /** The resolve phase: the targets with everything they pull in, or an error. */
  method ResolvePhase(t: Transaction, env: Env, local: seq<Pkg>, syncs: seq<Db>, ignores: Pkg -> bool)
    returns (error: PrepareError, ghost c: Context, ghost aside: seq<Pkg>, ghost skip: bool, ghost resolved: seq<Pkg>)
    requires UniqueNames(local) && forall i :: 0 <= i < |syncs| ==> UniqueNames(syncs[i].pkgs)
    modifies t`add, t`unresolvable
    ensures ContextOf(c, env, local, syncs, ignores, old(t.add), t.remove, t.removes)
    ensures ResolvedTargets(c, old(t.add), aside, resolved)
    ensures error == if aside != [] && !skip then UnsatisfiedDeps
                     else if OneFileTwice(resolved) then DuplicateFilename
                     else NoError
    ensures t.add == if error == NoError then resolved else old(t.add)
    ensures t.unresolvable == if error == NoError then aside else old(t.unresolvable)
  {
    hide UniqueNames, Named, ContextOf, Resolved, Explained, About, TailMet, OneEach, Available, OnlyWanted, OneFileTwice;
    var ctx := ResolutionContext(env, local, syncs, ignores, t.add, t.remove, t.removes);
    c := ctx;
    assert c.preferred == t.add by { PrefersTargets(c, env, local, syncs, ignores, t.add, t.remove, t.removes); }
    var list, unresolvable, data := ResolveTargets(ctx, t.add);
    aside, skip, resolved := unresolvable, false, MarkPulled(list, t.add);
    MarkedNames(list, t.add);
    MarkedFiles(list, t.add);
    MarkedResolved(c, list, t.add);
    MarkedWanted(c, list, t.add);
    if unresolvable != [] {
      var answer: bool := *;
      skip := answer;
      if !answer {
        error := UnsatisfiedDeps;
        return;
      }
    }
    var same := SameFilename(list);
    if same {
      error := DuplicateFilename;
      return;
    }
    t.unresolvable := unresolvable;
    t.add := MarkPulled(list, t.add);
    error := NoError;
  }

  lemma MarkedFiles(resolved: seq<Pkg>, targets: seq<Pkg>)
    ensures OneFileTwice(MarkPulled(resolved, targets)) <==> OneFileTwice(resolved)
  {
    hide MarkPulled;
    var r := MarkPulled(resolved, targets);
    assert forall i :: 0 <= i < |r| ==> r[i].filename == resolved[i].filename;
    if OneFileTwice(resolved) {
      var i, j :| 0 <= i < j < |resolved| && resolved[i].filename == resolved[j].filename;
      assert r[i].filename == r[j].filename;
    }
  }

  lemma MarkedWanted(c: Context, resolved: seq<Pkg>, targets: seq<Pkg>)
    requires OnlyWanted(c, targets, resolved)
    ensures OnlyWanted(c, targets, MarkPulled(resolved, targets))
  {
    hide MarkPulled, DepCmpProvides, DepVerCmp;
    var r := MarkPulled(resolved, targets);
    forall k | 0 <= k < |r| && r[k] !in targets ensures WantedAt(c, r, k) {
      if resolved[k] in targets {
        MemberNamed(targets, resolved[k]);
        assert false;
      }
      assert WantedAt(c, resolved, k);
      var i, j :| 0 <= i < k && 0 <= j < |resolved[i].depends| && Satisfies(resolved[k], Relax(c.env, resolved[i].depends[j]));
      assert r[i].depends == resolved[i].depends;
      assert Satisfies(r[k], Relax(c.env, r[i].depends[j]));
    }
  }

  lemma PrefersTargets(c: Context, env: Env, local: seq<Pkg>, syncs: seq<Db>, ignores: Pkg -> bool,
                       add: seq<Pkg>, remove: seq<Pkg>, removes: map<string, seq<Pkg>>)
    requires ContextOf(c, env, local, syncs, ignores, add, remove, removes)
    ensures c.preferred == add
  {
  }

  lemma MarkedResolved(c: Context, resolved: seq<Pkg>, targets: seq<Pkg>)
    requires forall p :: p in resolved ==> p in Available(c)
    requires OneEach(Available(c)) ==> TailMet(c, resolved, 0)
    ensures Resolved(c, MarkPulled(resolved, targets))
  {
    hide MarkPulled, Available, OneEach, MetBy, Named;
    var r := MarkPulled(resolved, targets);
    forall i | 0 <= i < |r| ensures FromAvailable(c, r[i]) {
      assert resolved[i] in resolved;
      assert r[i] == resolved[i].(reason := r[i].reason);
    }
    if OneEach(Available(c)) {
      forall k, j | 0 <= k < |r| && 0 <= j < |r[k].depends|
        ensures MetBy(c, r, Relax(c.env, r[k].depends[j]))
      {
        assert r[k].depends == resolved[k].depends;
        MarkedMet(c, resolved, targets, Relax(c.env, resolved[k].depends[j]));
      }
    }
  }

  lemma MarkedMet(c: Context, resolved: seq<Pkg>, targets: seq<Pkg>, d: Dep)
    requires MetBy(c, resolved, d)
    ensures MetBy(c, MarkPulled(resolved, targets), d)
  {
    hide MarkPulled, Named, DepCmpProvides, DepVerCmp;
    var r := MarkPulled(resolved, targets);
    if AnySatisfies(resolved, d) {
      var i :| 0 <= i < |resolved| && Satisfies(resolved[i], d);
      assert Satisfies(r[i], d);
    }
  }

  /** The conflict phase fails: with a deadlock among the targets, or on the user's objection. */
  ghost predicate Blocked(flags: Flags, add: seq<Pkg>, objection: Option<Conflict>) {
    !flags.noConflicts && (Deadlock(add) || objection.Some?)
  }

  /** What the conflict phase made of the lists. */
  ghost predicate ConflictsSettled(env: Env, local: seq<Pkg>, flags: Flags, before: TargetLists, after: TargetLists,
                                   dropped: seq<Pkg>, objection: Option<Conflict>) {
    && after.unresolvable == before.unresolvable + dropped
    && (if flags.noConflicts then
          after.add == before.add && dropped == [] && after.removes == before.removes
        else
          && Weeded(before.add, after.add, dropped)
          && GrownByConflicts(local, after.add, before.remove, before.removes, after.removes)
          && (objection.Some? ==> Objected(objection.value, local, after.add, before.remove, after.removes)))
    && (if Blocked(flags, after.add, objection) then after.remove == before.remove
        else
          && Collected(after.add, before.remove, after.removes, after.remove)
          && (!flags.noConflicts ==> SafeConflicts(env, local, after.remove, after.add)))
  }

  /** The conflict phase and the removal list that follows from it. */
  method ConflictPhase(t: Transaction, env: Env, local: seq<Pkg>)
    returns (error: PrepareError, ghost dropped: seq<Pkg>, ghost objection: Option<Conflict>)
    requires UniqueNames(local) && UniqueNames(t.add)
    modifies t`add, t`remove, t`unresolvable, t`removes
    ensures UniqueNames(t.add) && (UniqueNames(old(t.remove)) ==> UniqueNames(t.remove))
    ensures ConflictsSettled(env, local, t.flags, old(t.Targets()), t.Targets(), dropped, objection)
    ensures error == if Blocked(t.flags, t.add, objection) then ConflictingDeps else NoError
  {
    hide UniqueNames, Weeded, AllElected, Elected, SafeConflicts, GrownByConflicts, Objected, Collected, NoClash, Deadlock;
    error, dropped, objection := NoError, [], None;
    if !t.flags.noConflicts {
      var ok, add, away := SettleTargets(t.add);
      t.add, dropped := add, away;
      t.unresolvable := t.unresolvable + away;
      if !ok {
        NothingGrown(local, t.add, t.remove, t.removes);
        error := ConflictingDeps;
        return;
      }
      var removes;
      ok, removes, objection := SettleInstalled(local, t.add, t.remove, t.removes);
      t.removes := removes;
      if !ok {
        error := ConflictingDeps;
        return;
      }
      NoDeadlock(t.add);
    }
    var remove := CollectRemovals(t.add, t.remove, t.removes);
    if !t.flags.noConflicts {
      ElectedAreGone(env, local, t.add, t.remove, t.removes, remove);
    }
    t.remove := remove;
  }

  lemma NoDeadlock(add: seq<Pkg>)
    requires NoClash(add)
    ensures !Deadlock(add)
  {
    hide Clashes, Satisfies, DepFromString;
  }

  /** How a plan came about: what resolution read, the targets it set aside, whether the user
      would skip them, the list it arrived at, the targets dropped for conflicts, and the
      conflict the user would not settle. */
  datatype Course = Course(context: Context, aside: seq<Pkg>, skip: bool, resolved: seq<Pkg>,
                           dropped: seq<Pkg>, objection: Option<Conflict>)

  ghost predicate Resolution(env: Env, local: seq<Pkg>, syncs: seq<Db>, ignores: Pkg -> bool, flags: Flags,
                             before: TargetLists, how: Course) {
    if flags.noDeps then how.resolved == before.add && how.aside == []
    else
      && ContextOf(how.context, env, local, syncs, ignores, before.add, before.remove, before.removes)
      && ResolvedTargets(how.context, before.add, how.aside, how.resolved)
  }

  /** The lists after resolution. */
  ghost function AfterResolution(flags: Flags, before: TargetLists, how: Course): TargetLists {
    before.(add := how.resolved, unresolvable := if flags.noDeps then before.unresolvable else how.aside)
  }

  /** Each ending of planning with the one circumstance it comes from, and what it leaves. */
  ghost predicate Outcome(env: Env, local: seq<Pkg>, syncs: seq<Db>, ignores: Pkg -> bool, flags: Flags,
                          before: TargetLists, error: PrepareError, after: TargetLists, how: Course) {
    && Resolution(env, local, syncs, ignores, flags, before, how)
    && (if how.aside != [] && !how.skip then error == UnsatisfiedDeps && after == before
        else if !flags.noDeps && OneFileTwice(how.resolved) then error == DuplicateFilename && after == before
        else
          && ConflictsSettled(env, local, flags, AfterResolution(flags, before, how), after, how.dropped, how.objection)
          && error == if Blocked(flags, after.add, how.objection) then ConflictingDeps
                      else if !flags.noDeps && !SafeDeps(env, local, after.remove, after.add) then UnsatisfiedDeps
                      else NoError)
  }

  /** _klpm_sync_prepare: how each ending comes about; with dependency and conflict checks on,
      success means a safe plan that holds the targets. */
  method Prepare(t: Transaction, env: Env, local: seq<Pkg>, syncs: seq<Db>, ignores: Pkg -> bool)
    returns (error: PrepareError, ghost how: Course)
    requires UniqueNames(local) && (forall i :: 0 <= i < |syncs| ==> UniqueNames(syncs[i].pkgs))
    requires UniqueNames(t.add)
    modifies t`add, t`remove, t`unresolvable, t`removes
    ensures UniqueNames(t.add) && (UniqueNames(old(t.remove)) ==> UniqueNames(t.remove))
    ensures Outcome(env, local, syncs, ignores, t.flags, old(t.Targets()), error, t.Targets(), how)
    ensures error == NoError && !t.flags.noDeps ==> SafeDeps(env, local, t.remove, t.add)
    ensures error == NoError && !t.flags.noConflicts ==> SafeConflicts(env, local, t.remove, t.add)
    ensures error == NoError ==> HoldsTargets(old(t.Targets()), t.Targets(), how)
    ensures error == NoError ==> OnlyFromTargets(old(t.Targets()), t.Targets(), how, syncs)
  {
    hide UniqueNames, SafeConflicts, SafeDeps, ConflictsSettled, ResolvedTargets, ContextOf, Deadlock, HoldsTargets, OnlyFromTargets, OneFileTwice;
    ghost var c, aside, skip, resolved, dropped, objection :=
      Context(env, Db([], false), [], [], [], [], ignores), [], false, t.add, [], None;
    if !t.flags.noDeps {
      error, c, aside, skip, resolved := ResolvePhase(t, env, local, syncs, ignores);
      how := Course(c, aside, skip, resolved, dropped, objection);
      if error != NoError {
        return;
      }
      assert UniqueNames(t.add) by { UniqueResolved(c, old(t.add), aside, resolved); }
    }
    error, dropped, objection := ConflictPhase(t, env, local);
    how := Course(c, aside, skip, resolved, dropped, objection);
    if error != NoError {
      return;
    }
    if !t.flags.noDeps {
      var deps := CheckDeps(env, local, t.remove, t.add, true);
      SilentIffSafe(env, local, t.remove, t.add);
      if deps != [] {
        error := UnsatisfiedDeps;
        return;
      }
    }
    if !t.flags.noConflicts {
      SafeAfter(env, local, syncs, ignores, t.flags, old(t.Targets()), t.Targets(), how);
    }
    TargetsHeld(env, local, syncs, ignores, t.flags, old(t.Targets()), t.Targets(), how);
    NothingElse(env, local, syncs, ignores, t.flags, old(t.Targets()), t.Targets(), how);
  }

  lemma UniqueResolved(c: Context, targets: seq<Pkg>, aside: seq<Pkg>, resolved: seq<Pkg>)
    requires ResolvedTargets(c, targets, aside, resolved)
    ensures UniqueNames(resolved)
  {
  }

  lemma SafeAfter(env: Env, local: seq<Pkg>, syncs: seq<Db>, ignores: Pkg -> bool, flags: Flags, before: TargetLists, after: TargetLists, how: Course)
    requires Outcome(env, local, syncs, ignores, flags, before, NoError, after, how) && !flags.noConflicts
    ensures SafeConflicts(env, local, after.remove, after.add)
  {
    hide SafeConflicts, SafeDeps, Weeded, GrownByConflicts, Objected, Collected, Resolution, OneFileTwice, Deadlock;
  }

  /** Each target is on the list by name, or was set aside unresolved, or gave way to one that
      outlived it. */
  ghost predicate HoldsTargets(before: TargetLists, after: TargetLists, how: Course) {
    forall p :: p in before.add ==>
      || Named(after.add, p.name)
      || (p in how.aside && p in after.unresolvable)
      || exists i :: 0 <= i < |how.dropped| && GaveWay(p.name, how.dropped, i, after)
  }

  ghost predicate GaveWay(name: string, dropped: seq<Pkg>, i: nat, after: TargetLists)
    requires i < |dropped|
  {
    && dropped[i].name == name && dropped[i] in after.unresolvable
    && Superseded(dropped[i], after.add + dropped[i + 1..])
  }

  /** Whatever is on the list is a target, or comes from the targets or a usable database to
      meet a dependency of a resolved package; whatever is not removed on request is displaced
      by a target or was to be replaced by one. */
  ghost predicate OnlyFromTargets(before: TargetLists, after: TargetLists, how: Course, syncs: seq<Db>) {
    && (forall p :: p in after.add ==> p in how.resolved && (p in before.add || Pulled(p, before, how, syncs)))
    && (forall q :: q in after.remove ==> q in before.remove || Replaced(q, after.add, after.removes))
  }

  ghost predicate Pulled(p: Pkg, before: TargetLists, how: Course, syncs: seq<Db>) {
    && (exists q: Pkg :: p == q.(reason := p.reason) && (q in before.add || InDbs(q, syncs, |syncs|)))
    && (exists k :: 0 <= k < |how.resolved| && how.resolved[k] == p && WantedAt(how.context, how.resolved, k))
  }

  lemma TargetsHeld(env: Env, local: seq<Pkg>, syncs: seq<Db>, ignores: Pkg -> bool, flags: Flags, before: TargetLists, after: TargetLists, how: Course)
    requires Outcome(env, local, syncs, ignores, flags, before, NoError, after, how)
    ensures HoldsTargets(before, after, how)
  {
    hide SafeConflicts, SafeDeps, GrownByConflicts, Objected, Collected, ContextOf, OneFileTwice, Deadlock, Superseded, OnlyWanted, Resolved, Unresolved;
    forall p | p in before.add && !Named(after.add, p.name) && p !in how.aside
      ensures exists i :: 0 <= i < |how.dropped| && GaveWay(p.name, how.dropped, i, after)
    {
      MemberNamed(before.add, p);
      assert Named(how.resolved, p.name);
      var k :| 0 <= k < |how.resolved| && how.resolved[k].name == p.name;
      var q := how.resolved[k];
      assert q in how.resolved;
      if q in after.add { MemberNamed(after.add, q); }
      assert q in how.dropped;
      var i :| 0 <= i < |how.dropped| && how.dropped[i] == q;
      assert GaveWay(p.name, how.dropped, i, after);
    }
  }

  lemma NothingElse(env: Env, local: seq<Pkg>, syncs: seq<Db>, ignores: Pkg -> bool, flags: Flags, before: TargetLists, after: TargetLists, how: Course)
    requires Outcome(env, local, syncs, ignores, flags, before, NoError, after, how)
    ensures OnlyFromTargets(before, after, how, syncs)
  {
    hide SafeConflicts, SafeDeps, GrownByConflicts, Objected, OneFileTwice, Deadlock, Superseded, Unresolved, WantedAt, Named, Elected, Replaced;
    forall p | p in after.add
      ensures p in how.resolved && (p in before.add || Pulled(p, before, how, syncs))
    {
      assert p in how.resolved;
      if p !in before.add {
        var k :| 0 <= k < |how.resolved| && how.resolved[k] == p;
        assert FromAvailable(how.context, how.resolved[k]);
        AvailableFrom(how.context, p, before.add, syncs);
      }
    }
    forall q | q in after.remove ensures q in before.remove || Replaced(q, after.add, after.removes) {
      var i :| 0 <= i < |after.remove| && after.remove[i] == q;
      if i < |before.remove| { assert before.remove[i] == q; }
    }
  }

  lemma AvailableFrom(c: Context, p: Pkg, targets: seq<Pkg>, syncs: seq<Db>)
    requires FromAvailable(c, p) && c.preferred == targets && c.syncs == syncs
    ensures exists q: Pkg :: p == q.(reason := p.reason) && (q in targets || InDbs(q, syncs, |syncs|))
  {
    var q :| q in Available(c) && p == q.(reason := p.reason);
  }

  lemma SilentIffSafe(env: Env, local: seq<Pkg>, remove: seq<Pkg>, add: seq<Pkg>)
    ensures var c := PlanOf(env, local, remove, add);
            JudgeAll(c, add, |add|, false) + JudgeAll(c, c.kept, |c.kept|, true) == [] <==> SafeDeps(env, local, remove, add)
  {
    hide JudgeAll, Met, WasMet;
    SilentCheckIff(env, local, remove, add);
  }

  lemma MarkedNames(resolved: seq<Pkg>, targets: seq<Pkg>)
    ensures UniqueNames(resolved) ==> UniqueNames(MarkPulled(resolved, targets))
    ensures forall name :: Named(resolved, name) ==> Named(MarkPulled(resolved, targets), name)
    ensures forall i :: 0 <= i < |resolved| ==> MarkPulled(resolved, targets)[i].filename == resolved[i].filename
    ensures forall i :: 0 <= i < |resolved| ==> MarkPulled(resolved, targets)[i].name == resolved[i].name
  {
    hide MarkPulled;
    var r := MarkPulled(resolved, targets);
    forall name | Named(resolved, name)
      ensures Named(r, name)
    {
      var i :| 0 <= i < |resolved| && resolved[i].name == name;
      assert r[i].name == name;
    }
  }
}
