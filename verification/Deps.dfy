/** The missing-dependency check (klpm_checkdeps in deps.c) and what an empty answer means. */
module Deps {
  import opened Text
  import opened Package

  /** Handle settings the check reads: the assume-installed list and the NODEPVERSION flag. */
  datatype Env = Env(assumed: seq<Dep>, noDepVersion: bool)

  datatype Missing = Missing(target: string, depend: Dep, causing: Option<string>)

  function Relax(env: Env, d: Dep): Dep { if env.noDepVersion then d.(mod := Any) else d }

  predicate AnySatisfies(pkgs: seq<Pkg>, d: Dep) { exists i :: 0 <= i < |pkgs| && Satisfies(pkgs[i], d) }

  lemma Among(db: seq<Pkg>, p: Pkg, d: Dep)
    requires p in db && Satisfies(p, d)
    ensures AnySatisfies(db, d)
  {
    hide Satisfies;
    var i :| 0 <= i < |db| && db[i] == p;
    assert Satisfies(db[i], d);
  }

  /** find_dep_satisfier: the first package of the list that satisfies d. */
  method FindDepSatisfier(pkgs: seq<Pkg>, d: Dep) returns (r: Option<Pkg>)
    ensures r == FirstSatisfier(pkgs, d)
    ensures r.Some? <==> AnySatisfies(pkgs, d)
    ensures r.Some? ==> r.value in pkgs && Satisfies(r.value, d)
  {
    hide Satisfies;
    for i := 0 to |pkgs|
      invariant forall j :: 0 <= j < i ==> !Satisfies(pkgs[j], d)
      invariant FirstSatisfier(pkgs, d) == FirstSatisfier(pkgs[i..], d)
    {
      if Satisfies(pkgs[i], d) {
        return Some(pkgs[i]);
      }
      assert pkgs[i..][1..] == pkgs[i + 1..];
    }
    return None;
  }

  function FirstSatisfier(pkgs: seq<Pkg>, d: Dep): (r: Option<Pkg>)
    ensures r.Some? <==> AnySatisfies(pkgs, d)
    ensures r.Some? ==> r.value in pkgs && Satisfies(r.value, d)
  {
    if pkgs == [] then None
    else if Satisfies(pkgs[0], d) then Some(pkgs[0])
    else
      assert forall i :: 1 <= i < |pkgs| ==> pkgs[1..][i - 1] == pkgs[i];
      FirstSatisfier(pkgs[1..], d)
  }

  /** The packages of the list named in neither of the other two. */
  function Kept(pkgs: seq<Pkg>, rem: seq<Pkg>, upgrade: seq<Pkg>): (r: seq<Pkg>)
    ensures forall p :: p in r <==> p in pkgs && !Named(rem, p.name) && !Named(upgrade, p.name)
  {
    if pkgs == [] then []
    else
      var n := |pkgs| - 1;
      var p := pkgs[n];
      Kept(pkgs[..n], rem, upgrade) + if Named(rem, p.name) || Named(upgrade, p.name) then [] else [p]
  }

  /** The packages of the list named in one of the other two. */
  function Modified(pkgs: seq<Pkg>, rem: seq<Pkg>, upgrade: seq<Pkg>): (r: seq<Pkg>)
    ensures forall p :: p in r <==> p in pkgs && (Named(rem, p.name) || Named(upgrade, p.name))
  {
    if pkgs == [] then []
    else
      var n := |pkgs| - 1;
      var p := pkgs[n];
      Modified(pkgs[..n], rem, upgrade) + if Named(rem, p.name) || Named(upgrade, p.name) then [p] else []
  }

  /** What is judged: the upgrades, the untouched installed packages and the touched ones. */
  datatype Plan = Plan(env: Env, upgrade: seq<Pkg>, kept: seq<Pkg>, modified: seq<Pkg>)

  function PlanOf(env: Env, pkgs: seq<Pkg>, rem: seq<Pkg>, upgrade: seq<Pkg>): Plan {
    Plan(env, upgrade, Kept(pkgs, rem, upgrade), Modified(pkgs, rem, upgrade))
  }

  predicate Met(c: Plan, d: Dep) {
    AnySatisfies(c.upgrade, d) || AnySatisfies(c.kept, d) || DepCmpProvides(d, c.env.assumed)
  }

  /** The complaint about one dependency: of an upgrade, or of an untouched package. */
  function Judge(c: Plan, p: Pkg, d: Dep, back: bool): (r: seq<Missing>)
    ensures forall m :: m in r ==> m.target == p.name && m.depend == Relax(c.env, d)
  {
    var d' := Relax(c.env, d);
    var cause := FirstSatisfier(c.modified, d');
    if Met(c, d') then []
    else if !back then [Missing(p.name, d', None)]
    else if cause.Some? then [Missing(p.name, d', Some(cause.value.name))]
    else []
  }

  /** The complaints about the first n dependencies of p. */
  function JudgePkg(c: Plan, p: Pkg, n: nat, back: bool): seq<Missing>
    requires n <= |p.depends|
  {
    if n == 0 then [] else JudgePkg(c, p, n - 1, back) + Judge(c, p, p.depends[n - 1], back)
  }

  function JudgeAll(c: Plan, pkgs: seq<Pkg>, n: nat, back: bool): seq<Missing>
    requires n <= |pkgs|
  {
    if n == 0 then [] else JudgeAll(c, pkgs, n - 1, back) + JudgePkg(c, pkgs[n - 1], |pkgs[n - 1].depends|, back)
  }

  /** klpm_checkdeps */
  method CheckDeps(env: Env, pkglist: seq<Pkg>, rem: seq<Pkg>, upgrade: seq<Pkg>, reversedeps: bool)
    returns (baddeps: seq<Missing>)
    ensures var c := PlanOf(env, pkglist, rem, upgrade);
            baddeps == JudgeAll(c, upgrade, |upgrade|, false)
                       + if reversedeps then JudgeAll(c, c.kept, |c.kept|, true) else []
  {
    var dblist, modified := SplitDb(pkglist, rem, upgrade);
    var c := Plan(env, upgrade, dblist, modified);
    baddeps := CheckAll(c, upgrade, false);
    if reversedeps {
      var broken := CheckAll(c, dblist, true);
      baddeps := baddeps + broken;
    }
  }

  /** The outer loops of the check, over the upgrades or the untouched packages. */
  method CheckAll(c: Plan, pkgs: seq<Pkg>, back: bool) returns (bad: seq<Missing>)
    ensures bad == JudgeAll(c, pkgs, |pkgs|, back)
  {
    hide Judge, JudgePkg;
    bad := [];
    for i := 0 to |pkgs|
      invariant bad == JudgeAll(c, pkgs, i, back)
    {
      var more := CheckPkg(c, pkgs[i], back);
      bad := bad + more;
    }
  }

  /** The inner loop of the check: all dependencies of one package. */
  method CheckPkg(c: Plan, p: Pkg, back: bool) returns (bad: seq<Missing>)
    ensures bad == JudgePkg(c, p, |p.depends|, back)
  {
    hide Satisfies;
    bad := [];
    for j := 0 to |p.depends|
      invariant bad == JudgePkg(c, p, j, back)
    {
      var depend := Relax(c.env, p.depends[j]);
      var cause := FindDepSatisfier(c.modified, depend);
      var up := FindDepSatisfier(c.upgrade, depend);
      var db := FindDepSatisfier(c.kept, depend);
      if (back ==> cause.Some?) && up.None? && db.None? && !DepCmpProvides(depend, c.env.assumed) {
        bad := bad + [Missing(p.name, depend, if back then Some(cause.value.name) else None)];
      }
    }
  }

  method SplitDb(pkglist: seq<Pkg>, rem: seq<Pkg>, upgrade: seq<Pkg>) returns (dblist: seq<Pkg>, modified: seq<Pkg>)
    ensures dblist == Kept(pkglist, rem, upgrade) && modified == Modified(pkglist, rem, upgrade)
  {
    dblist, modified := [], [];
    for i := 0 to |pkglist|
      invariant dblist == Kept(pkglist[..i], rem, upgrade)
      invariant modified == Modified(pkglist[..i], rem, upgrade)
    {
      assert pkglist[..i + 1][..i] == pkglist[..i];
      if Named(rem, pkglist[i].name) || Named(upgrade, pkglist[i].name) {
        modified := modified + [pkglist[i]];
      } else {
        dblist := dblist + [pkglist[i]];
      }
    }
    assert pkglist[..|pkglist|] == pkglist;
  }

  // ----- what the complaints mean

  lemma {:induction false} JudgePkgMembers(c: Plan, p: Pkg, n: nat, back: bool, m: Missing)
    requires n <= |p.depends|
    ensures m in JudgePkg(c, p, n, back) <==> exists j :: 0 <= j < n && m in Judge(c, p, p.depends[j], back)
  {
    hide Judge;
    if n > 0 { JudgePkgMembers(c, p, n - 1, back, m); }
  }

  /** The list complains exactly about the dependencies judged broken. */
  lemma {:induction false} JudgeAllMembers(c: Plan, pkgs: seq<Pkg>, n: nat, back: bool, m: Missing)
    requires n <= |pkgs|
    ensures m in JudgeAll(c, pkgs, n, back) <==>
            exists i, j :: 0 <= i < n && 0 <= j < |pkgs[i].depends| && m in Judge(c, pkgs[i], pkgs[i].depends[j], back)
  {
    hide Judge;
    if n > 0 {
      JudgeAllMembers(c, pkgs, n - 1, back, m);
      JudgePkgMembers(c, pkgs[n - 1], |pkgs[n - 1].depends|, back, m);
    }
  }

  /** Every dependency of the packages is met once the plan is carried out. */
  ghost predicate AllMet(c: Plan, pkgs: seq<Pkg>) {
    forall i, j :: 0 <= i < |pkgs| && 0 <= j < |pkgs[i].depends| ==> Met(c, Relax(c.env, pkgs[i].depends[j]))
  }

  /** No dependency of the packages that a touched package satisfied is left unmet. */
  ghost predicate NoneBroken(c: Plan, pkgs: seq<Pkg>) {
    forall i, j :: 0 <= i < |pkgs| && 0 <= j < |pkgs[i].depends| ==>
      (AnySatisfies(c.modified, Relax(c.env, pkgs[i].depends[j])) ==> Met(c, Relax(c.env, pkgs[i].depends[j])))
  }

  lemma EmptyForward(c: Plan, pkgs: seq<Pkg>)
    ensures JudgeAll(c, pkgs, |pkgs|, false) == [] <==> AllMet(c, pkgs)
  {
    hide Met;
    var bad := JudgeAll(c, pkgs, |pkgs|, false);
    if bad != [] {
      JudgeAllMembers(c, pkgs, |pkgs|, false, bad[0]);
    } else {
      forall i, j | 0 <= i < |pkgs| && 0 <= j < |pkgs[i].depends|
        ensures Met(c, Relax(c.env, pkgs[i].depends[j]))
      {
        JudgeAllMembers(c, pkgs, |pkgs|, false, Missing(pkgs[i].name, Relax(c.env, pkgs[i].depends[j]), None));
      }
    }
  }

  lemma EmptyBackward(c: Plan, pkgs: seq<Pkg>)
    ensures JudgeAll(c, pkgs, |pkgs|, true) == [] <==> NoneBroken(c, pkgs)
  {
    hide Met, AnySatisfies;
    var bad := JudgeAll(c, pkgs, |pkgs|, true);
    if bad != [] {
      JudgeAllMembers(c, pkgs, |pkgs|, true, bad[0]);
    } else {
      forall i, j | 0 <= i < |pkgs| && 0 <= j < |pkgs[i].depends| &&
                    AnySatisfies(c.modified, Relax(c.env, pkgs[i].depends[j]))
        ensures Met(c, Relax(c.env, pkgs[i].depends[j]))
      {
        var d := Relax(c.env, pkgs[i].depends[j]);
        JudgeAllMembers(c, pkgs, |pkgs|, true, Missing(pkgs[i].name, d, Some(FirstSatisfier(c.modified, d).value.name)));
      }
    }
  }

  /** A dependency was met before: by an installed package or by the assume-installed list. */
  predicate WasMet(env: Env, pkgs: seq<Pkg>, d: Dep) { AnySatisfies(pkgs, d) || DepCmpProvides(d, env.assumed) }

  /** The check stays silent exactly when, after the plan, every dependency of an upgrade is
      met and every dependency of an untouched package that was met still is. */
  lemma SilentCheckIff(env: Env, pkgs: seq<Pkg>, rem: seq<Pkg>, upgrade: seq<Pkg>)
    ensures var c := PlanOf(env, pkgs, rem, upgrade);
            JudgeAll(c, upgrade, |upgrade|, false) + JudgeAll(c, c.kept, |c.kept|, true) == [] <==>
            && AllMet(c, upgrade)
            && forall i, j :: 0 <= i < |c.kept| && 0 <= j < |c.kept[i].depends| ==>
                 (WasMet(env, pkgs, Relax(env, c.kept[i].depends[j])) ==> Met(c, Relax(env, c.kept[i].depends[j])))
  {
    hide Satisfies;
    var c := PlanOf(env, pkgs, rem, upgrade);
    EmptyForward(c, upgrade);
    EmptyBackward(c, c.kept);
    forall d
      ensures WasMet(env, pkgs, d) && !Met(c, d) <==> AnySatisfies(c.modified, d) && !Met(c, d)
    {
      SplitSatisfiers(pkgs, rem, upgrade, d);
    }
  }

  lemma SplitSatisfiers(pkgs: seq<Pkg>, rem: seq<Pkg>, upgrade: seq<Pkg>, d: Dep)
    ensures AnySatisfies(pkgs, d) <==>
            AnySatisfies(Kept(pkgs, rem, upgrade), d) || AnySatisfies(Modified(pkgs, rem, upgrade), d)
  {
    hide Satisfies;
    var kept, modified := Kept(pkgs, rem, upgrade), Modified(pkgs, rem, upgrade);
    if AnySatisfies(pkgs, d) {
      var i :| 0 <= i < |pkgs| && Satisfies(pkgs[i], d);
      assert pkgs[i] in kept || pkgs[i] in modified;
    }
    if AnySatisfies(kept, d) {
      var i :| 0 <= i < |kept| && Satisfies(kept[i], d);
      assert kept[i] in pkgs;
    }
    if AnySatisfies(modified, d) {
      var i :| 0 <= i < |modified| && Satisfies(modified[i], d);
      assert modified[i] in pkgs;
    }
  }
}
