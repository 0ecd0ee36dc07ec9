/** Recursive dependency resolution with rollback (resolvedep and _klpm_resolvedeps in deps.c).
    The answers of the user are arbitrary. */
module Resolve {
  import opened Text
  import opened Package
  import opened Deps

  datatype Db = Db(pkgs: seq<Pkg>, usable: bool)

  /** What resolution reads: settings, the installed packages, the sync databases, the packages
      to prefer, those being removed, and which packages are ignored. */
  datatype Context = Context(env: Env, installed: Db, localpkgs: seq<Pkg>, syncs: seq<Db>,
                             preferred: seq<Pkg>, rem: seq<Pkg>, ignores: Pkg -> bool)

  /** resolvedep looks at the package for the dependency: by name and version, or as a
      provider under another name. */
  predicate Candidate(p: Pkg, d: Dep) {
    DepCmpLiteral(p, d) || (p.name != d.name && DepCmpProvides(d, p.provisions))
  }

  lemma CandidateSatisfies(p: Pkg, d: Dep)
    requires Candidate(p, d)
    ensures Satisfies(p, d)
  {
  }

  ghost predicate InDbs(p: Pkg, dbs: seq<Db>, n: nat)
    requires n <= |dbs|
  {
    exists i :: 0 <= i < n && dbs[i].usable && p in dbs[i].pkgs
  }

  /** What resolvedep may return. */
  ghost predicate Suitable(p: Pkg, d: Dep, dbs: seq<Db>, excluding: seq<Pkg>) {
    InDbs(p, dbs, |dbs|) && Candidate(p, d) && !Named(excluding, p.name)
  }

  /** The answer to a question that defaults to no and is asked only when prompting. */
  method AskInstall(prompt: bool) returns (install: bool)
    ensures !prompt ==> !install
  {
    install := *;
    install := prompt && install;
  }

  /** p, of database i, has the dependency's own name and meets it, and is taken unasked. */
  ghost predicate LiteralAt(p: Pkg, d: Dep, dbs: seq<Db>, i: nat, excluding: seq<Pkg>, ignores: Pkg -> bool)
    requires i < |dbs|
  {
    dbs[i].usable && p in dbs[i].pkgs && DepCmpLiteral(p, d) && !Named(excluding, p.name) && !ignores(p)
  }

  /** One of the first n databases has such a package. */
  ghost predicate HasLiteral(d: Dep, dbs: seq<Db>, n: nat, excluding: seq<Pkg>, ignores: Pkg -> bool)
    requires n <= |dbs|
  {
    exists i, p :: 0 <= i < n && LiteralAt(p, d, dbs, i, excluding, ignores)
  }

  /** p is such a package of the first database that has one. */
  ghost predicate FirstLiteral(p: Pkg, d: Dep, dbs: seq<Db>, excluding: seq<Pkg>, ignores: Pkg -> bool) {
    exists i :: 0 <= i < |dbs| && LiteralAt(p, d, dbs, i, excluding, ignores) && !HasLiteral(d, dbs, i, excluding, ignores)
  }

  /** The first loop of resolvedep: a package of the dependency's own name. */
  method FindLiteral(d: Dep, dbs: seq<Db>, excluding: seq<Pkg>, ignores: Pkg -> bool, prompt: bool)
    returns (r: Option<Pkg>)
    requires forall i :: 0 <= i < |dbs| ==> UniqueNames(dbs[i].pkgs)
    ensures r.Some? ==> Suitable(r.value, d, dbs, excluding)
    ensures r.None? ==> !HasLiteral(d, dbs, |dbs|, excluding, ignores)
    ensures !prompt && r.Some? ==> FirstLiteral(r.value, d, dbs, excluding, ignores)
  {
    hide Candidate, DepVerCmp, Named, UniqueNames;
    for i := 0 to |dbs|
      invariant !HasLiteral(d, dbs, i, excluding, ignores)
    {
      if dbs[i].usable {
        var pkg := PkgFind(dbs[i].pkgs, d.name);
        OneOfThatName(dbs[i].pkgs, pkg, d.name);
        if pkg.Some? && DepCmpLiteral(pkg.value, d) && !Named(excluding, pkg.value.name) {
          var install := true;
          if ignores(pkg.value) {
            install := AskInstall(prompt);
          }
          if install {
            LiteralIsCandidate(pkg.value, d);
            assert prompt || LiteralAt(pkg.value, d, dbs, i, excluding, ignores);
            return pkg;
          }
        }
      }
    }
    return None;
  }

  lemma OneOfThatName(pkgs: seq<Pkg>, found: Option<Pkg>, name: string)
    requires UniqueNames(pkgs) && (found.Some? <==> Named(pkgs, name))
    requires found.Some? ==> found.value in pkgs && found.value.name == name
    ensures forall p :: p in pkgs && p.name == name ==> found == Some(p)
  {
  }

  lemma LiteralIsCandidate(p: Pkg, d: Dep)
    requires DepCmpLiteral(p, d)
    ensures Candidate(p, d)
  {
  }

  predicate Provider(p: Pkg, d: Dep, excluding: seq<Pkg>) {
    p.name != d.name && DepCmpProvides(d, p.provisions) && !Named(excluding, p.name)
  }

  /** p may be offered to the user: a suitable provider that is not installed. */
  ghost predicate Offered(p: Pkg, d: Dep, dbs: seq<Db>, excluding: seq<Pkg>, local: seq<Pkg>) {
    Suitable(p, d, dbs, excluding) && p.name != d.name && !Named(local, p.name)
  }

  /** The providers among the first n packages that are not ignored, in order. */
  ghost function ProvidersIn(d: Dep, pkgs: seq<Pkg>, n: nat, excluding: seq<Pkg>, ignores: Pkg -> bool): seq<Pkg>
    requires n <= |pkgs|
  {
    if n == 0 then []
    else
      ProvidersIn(d, pkgs, n - 1, excluding, ignores)
      + if Provider(pkgs[n - 1], d, excluding) && !ignores(pkgs[n - 1]) then [pkgs[n - 1]] else []
  }

  /** The providers in the first n databases that are not ignored, in database order. */
  ghost function ProvidersOf(d: Dep, dbs: seq<Db>, n: nat, excluding: seq<Pkg>, ignores: Pkg -> bool): seq<Pkg>
    requires n <= |dbs|
  {
    if n == 0 then []
    else
      var pkgs := dbs[n - 1].pkgs;
      ProvidersOf(d, dbs, n - 1, excluding, ignores)
      + if dbs[n - 1].usable then ProvidersIn(d, pkgs, |pkgs|, excluding, ignores) else []
  }

  lemma {:induction false} ProvidersInAre(d: Dep, pkgs: seq<Pkg>, n: nat, excluding: seq<Pkg>, ignores: Pkg -> bool, p: Pkg)
    requires n <= |pkgs|
    ensures p in ProvidersIn(d, pkgs, n, excluding, ignores) <==> p in pkgs[..n] && Provider(p, d, excluding) && !ignores(p)
  {
    hide Provider;
    if n > 0 {
      ProvidersInAre(d, pkgs, n - 1, excluding, ignores, p);
      assert pkgs[..n] == pkgs[..n - 1] + [pkgs[n - 1]];
    }
  }

  lemma {:induction false} ProvidersOfAre(d: Dep, dbs: seq<Db>, n: nat, excluding: seq<Pkg>, ignores: Pkg -> bool, p: Pkg)
    requires n <= |dbs|
    ensures p in ProvidersOf(d, dbs, n, excluding, ignores) <==> InDbs(p, dbs, n) && Provider(p, d, excluding) && !ignores(p)
  {
    hide Provider, ProvidersIn;
    if n > 0 {
      var pkgs := dbs[n - 1].pkgs;
      ProvidersOfAre(d, dbs, n - 1, excluding, ignores, p);
      ProvidersInAre(d, pkgs, |pkgs|, excluding, ignores, p);
      assert pkgs[..|pkgs|] == pkgs;
    }
  }

  lemma {:induction false} ProvidersInGrow(d: Dep, pkgs: seq<Pkg>, m: nat, n: nat, excluding: seq<Pkg>, ignores: Pkg -> bool)
    requires m <= n <= |pkgs|
    ensures ProvidersIn(d, pkgs, m, excluding, ignores) <= ProvidersIn(d, pkgs, n, excluding, ignores)
  {
    hide Provider;
    if m < n { ProvidersInGrow(d, pkgs, m, n - 1, excluding, ignores); }
  }

  lemma {:induction false} ProvidersOfGrow(d: Dep, dbs: seq<Db>, m: nat, n: nat, excluding: seq<Pkg>, ignores: Pkg -> bool)
    requires m <= n <= |dbs|
    ensures ProvidersOf(d, dbs, m, excluding, ignores) <= ProvidersOf(d, dbs, n, excluding, ignores)
  {
    hide Provider, InDbs, ProvidersIn;
    if m < n { ProvidersOfGrow(d, dbs, m, n - 1, excluding, ignores); }
  }

  /** What is found up to package n of database m begins the list of all. */
  lemma FoundSoFar(d: Dep, dbs: seq<Db>, m: nat, n: nat, excluding: seq<Pkg>, ignores: Pkg -> bool)
    requires m < |dbs| && dbs[m].usable && n <= |dbs[m].pkgs|
    ensures ProvidersOf(d, dbs, m, excluding, ignores) + ProvidersIn(d, dbs[m].pkgs, n, excluding, ignores)
         <= ProvidersOf(d, dbs, |dbs|, excluding, ignores)
  {
    hide Provider, InDbs, ProvidersIn;
    ProvidersInGrow(d, dbs[m].pkgs, n, |dbs[m].pkgs|, excluding, ignores);
    ProvidersOfGrow(d, dbs, m + 1, |dbs|, excluding, ignores);
  }

  ghost predicate AnyInstalled(ps: seq<Pkg>, local: seq<Pkg>) { exists k :: 0 <= k < |ps| && Named(local, ps[k].name) }

  /** p is the first of ps that is installed. */
  ghost predicate FirstInstalled(p: Pkg, ps: seq<Pkg>, local: seq<Pkg>) {
    exists k :: 0 <= k < |ps| && ps[k] == p && Named(local, p.name) && !AnyInstalled(ps[..k], local)
  }

  /** The second loop of resolvedep: providers under other names. An installed one is taken
      at once. */
  method FindProviders(d: Dep, dbs: seq<Db>, excluding: seq<Pkg>, ignores: Pkg -> bool, local: seq<Pkg>, prompt: bool)
    returns (r: Option<Pkg>, providers: seq<Pkg>)
    ensures r.Some? ==> Suitable(r.value, d, dbs, excluding)
    ensures forall k :: 0 <= k < |providers| ==> Offered(providers[k], d, dbs, excluding, local)
    ensures var all := ProvidersOf(d, dbs, |dbs|, excluding, ignores);
            !prompt ==> if r.Some? then FirstInstalled(r.value, all, local)
                        else providers == all && !AnyInstalled(all, local)
  {
    hide DepCmpProvides, DepCmpLiteral, Named;
    providers := [];
    for i := 0 to |dbs|
      invariant forall k :: 0 <= k < |providers| ==> Offered(providers[k], d, dbs, excluding, local)
      invariant !prompt ==> providers == ProvidersOf(d, dbs, i, excluding, ignores)
    {
      if dbs[i].usable {
        for j := 0 to |dbs[i].pkgs|
          invariant forall k :: 0 <= k < |providers| ==> Offered(providers[k], d, dbs, excluding, local)
          invariant !prompt ==> providers == ProvidersOf(d, dbs, i, excluding, ignores)
                                             + ProvidersIn(d, dbs[i].pkgs, j, excluding, ignores)
        {
          var pkg := dbs[i].pkgs[j];
          if pkg.name != d.name && DepCmpProvides(d, pkg.provisions) && !Named(excluding, pkg.name) {
            var install := true;
            if ignores(pkg) {
              install := AskInstall(prompt);
            }
            if install {
              assert Suitable(pkg, d, dbs, excluding);
              if Named(local, pkg.name) {
                if !prompt { TakenFirst(d, dbs, i, j, excluding, ignores, local, providers); }
                return Some(pkg), providers;
              }
              providers := providers + [pkg];
            }
          }
        }
      }
    }
    return None, providers;
  }

  lemma TakenFirst(d: Dep, dbs: seq<Db>, i: nat, j: nat, excluding: seq<Pkg>, ignores: Pkg -> bool, local: seq<Pkg>, found: seq<Pkg>)
    requires i < |dbs| && dbs[i].usable && j < |dbs[i].pkgs|
    requires found == ProvidersOf(d, dbs, i, excluding, ignores) + ProvidersIn(d, dbs[i].pkgs, j, excluding, ignores)
    requires forall k :: 0 <= k < |found| ==> !Named(local, found[k].name)
    requires var p := dbs[i].pkgs[j]; Provider(p, d, excluding) && !ignores(p) && Named(local, p.name)
    ensures FirstInstalled(dbs[i].pkgs[j], ProvidersOf(d, dbs, |dbs|, excluding, ignores), local)
  {
    hide Provider, Named, ProvidersOf, ProvidersIn, FirstInstalled;
    FoundSoFar(d, dbs, i, j + 1, excluding, ignores);
    NextProvider(d, dbs[i].pkgs, j, excluding, ignores);
    BeginsWith(found, dbs[i].pkgs[j], ProvidersOf(d, dbs, |dbs|, excluding, ignores), local);
  }

  lemma NextProvider(d: Dep, pkgs: seq<Pkg>, j: nat, excluding: seq<Pkg>, ignores: Pkg -> bool)
    requires j < |pkgs| && Provider(pkgs[j], d, excluding) && !ignores(pkgs[j])
    ensures ProvidersIn(d, pkgs, j + 1, excluding, ignores) == ProvidersIn(d, pkgs, j, excluding, ignores) + [pkgs[j]]
  {
  }

  lemma BeginsWith(found: seq<Pkg>, p: Pkg, all: seq<Pkg>, local: seq<Pkg>)
    requires found + [p] <= all && Named(local, p.name)
    requires forall k :: 0 <= k < |found| ==> !Named(local, found[k].name)
    ensures FirstInstalled(p, all, local)
  {
    hide Named;
    assert all[..|found|] == found && all[|found|] == p;
  }

  /** The user is asked to choose among several providers. */
  ghost predicate Choice(d: Dep, dbs: seq<Db>, excluding: seq<Pkg>, ignores: Pkg -> bool, local: seq<Pkg>, prompt: bool) {
    exists offered: seq<Pkg> :: |offered| > 1 &&
      forall k :: 0 <= k < |offered| ==> Offered(offered[k], d, dbs, excluding, local) && (prompt || !ignores(offered[k]))
  }

  /** What is taken when nothing is asked about ignored packages: first a package of the
      dependency's own name, of the first database that has one; else the first installed
      provider in database order; else the only provider; else the one the user chose. */
  ghost predicate Chosen(r: Option<Pkg>, answer: int, d: Dep, dbs: seq<Db>, excluding: seq<Pkg>, ignores: Pkg -> bool, local: seq<Pkg>) {
    if HasLiteral(d, dbs, |dbs|, excluding, ignores) then
      r.Some? && FirstLiteral(r.value, d, dbs, excluding, ignores)
    else
      var ps := ProvidersOf(d, dbs, |dbs|, excluding, ignores);
      if AnyInstalled(ps, local) then r.Some? && FirstInstalled(r.value, ps, local)
      else if |ps| == 0 then r.None?
      else if |ps| == 1 then r == Some(ps[0])
      else if 0 <= answer < |ps| then r == Some(ps[answer])
      else r.None?
  }

  /** resolvedep: a suitable package, chosen in the order above; without prompting, none exactly
      if every suitable package is ignored or the user refused to choose among several
      providers. */
  method ResolveDep(d: Dep, dbs: seq<Db>, excluding: seq<Pkg>, ignores: Pkg -> bool, local: seq<Pkg>, prompt: bool)
    returns (r: Option<Pkg>, refused: bool, ghost answer: int)
    requires forall i :: 0 <= i < |dbs| ==> UniqueNames(dbs[i].pkgs)
    ensures r.Some? ==> Suitable(r.value, d, dbs, excluding) && (prompt || !ignores(r.value))
    ensures refused ==> r.None? && Choice(d, dbs, excluding, ignores, local, prompt)
    ensures !prompt ==> (r.None? && !refused <==> forall p :: Suitable(p, d, dbs, excluding) ==> ignores(p))
    ensures !prompt ==> Chosen(r, answer, d, dbs, excluding, ignores, local)
  {
    hide DepCmpLiteral, DepCmpProvides, Named, InDbs, ProvidersOf, HasLiteral, FirstLiteral, FirstInstalled, AnyInstalled, LiteralAt;
    refused, answer := false, 0;
    r := FindLiteral(d, dbs, excluding, ignores, prompt);
    if r.Some? {
      if !prompt { LiteralTaken(r.value, d, dbs, excluding, ignores); }
      return;
    }
    var providers;
    r, providers := FindProviders(d, dbs, excluding, ignores, local, prompt);
    if !prompt { NoneOrProvider(d, dbs, excluding, ignores); }
    if r.Some? {
      if !prompt { InstalledTaken(r.value, ProvidersOf(d, dbs, |dbs|, excluding, ignores), local); }
      return;
    }
    if |providers| >= 1 {
      var useIndex: int := 0;
      if |providers| > 1 {
        useIndex := *;
      }
      answer := useIndex;
      if 0 <= useIndex < |providers| {
        assert providers[useIndex] in providers;
        return Some(providers[useIndex]), false, answer;
      }
      refused := true;
      assert Suitable(providers[0], d, dbs, excluding) && providers[0] in providers;
      assert forall k :: 0 <= k < |providers| ==> providers[k] in providers;
    }
    return None, refused, answer;
  }

  lemma LiteralTaken(p: Pkg, d: Dep, dbs: seq<Db>, excluding: seq<Pkg>, ignores: Pkg -> bool)
    requires FirstLiteral(p, d, dbs, excluding, ignores)
    ensures HasLiteral(d, dbs, |dbs|, excluding, ignores) && !ignores(p)
  {
  }

  lemma InstalledTaken(p: Pkg, ps: seq<Pkg>, local: seq<Pkg>)
    requires FirstInstalled(p, ps, local)
    ensures AnyInstalled(ps, local) && p in ps
  {
  }

  /** With no package of the dependency's own name to take, the providers are all there is. */
  lemma NoneOrProvider(d: Dep, dbs: seq<Db>, excluding: seq<Pkg>, ignores: Pkg -> bool)
    requires !HasLiteral(d, dbs, |dbs|, excluding, ignores)
    ensures forall p :: p in ProvidersOf(d, dbs, |dbs|, excluding, ignores) <==> Suitable(p, d, dbs, excluding) && !ignores(p)
  {
    hide DepCmpProvides, Named, ProvidersOf;
    forall p
      ensures p in ProvidersOf(d, dbs, |dbs|, excluding, ignores) <==> Suitable(p, d, dbs, excluding) && !ignores(p)
    {
      ProvidersOfAre(d, dbs, |dbs|, excluding, ignores, p);
      if Suitable(p, d, dbs, excluding) && !ignores(p) {
        var i :| 0 <= i < |dbs| && dbs[i].usable && p in dbs[i].pkgs;
        assert !LiteralAt(p, d, dbs, i, excluding, ignores);
      }
    }
  }

  // ----- resolution

  /** Met by the list, by the assume-installed list, or by an installed package that stays. */
  ghost predicate MetBy(c: Context, list: seq<Pkg>, d: Dep) {
    || AnySatisfies(list, d)
    || DepCmpProvides(d, c.env.assumed)
    || exists p :: p in c.installed.pkgs && !Named(c.rem, p.name) && Satisfies(p, d)
  }

  /** Every dependency of the listed packages from number n on is met. */
  ghost predicate TailMet(c: Context, list: seq<Pkg>, n: nat) {
    forall k, j :: n <= k < |list| && 0 <= j < |list[k].depends| ==> MetBy(c, list, Relax(c.env, list[k].depends[j]))
  }

  /** The packages resolution can add. */
  ghost function Available(c: Context): set<Pkg> {
    (set p | p in c.preferred) + (set i, p | 0 <= i < |c.syncs| && c.syncs[i].usable && p in c.syncs[i].pkgs :: p)
  }

  /** Everything that can be on the list, starting from list. */
  ghost function Universe(c: Context, list: seq<Pkg>): set<Pkg> { Available(c) + (set p | p in list) }

  /** Each name denotes one package. */
  ghost predicate OneEach(u: set<Pkg>) { forall p, q :: p in u && q in u && p.name == q.name ==> p == q }

  ghost function Names(u: set<Pkg>): set<string> { set p | p in u :: p.name }

  ghost function ListNames(list: seq<Pkg>): set<string> { set p | p in list :: p.name }

  ghost predicate UsableContext(c: Context) {
    && (forall i :: 0 <= i < |c.syncs| ==> UniqueNames(c.syncs[i].pkgs))
    && UniqueNames(c.installed.pkgs)
    && (forall p :: p in c.localpkgs ==> p in c.installed.pkgs)
  }

  /** list grew from before by available packages whose dependencies are all met, provided
      each name denotes one package. */
  ghost predicate Grown(c: Context, before: seq<Pkg>, list: seq<Pkg>)
    ensures Grown(c, before, list) ==> before <= list && Universe(c, list) == Universe(c, before)
  {
    && before <= list && Universe(c, list) == Universe(c, before)
    && (UniqueNames(before) ==> UniqueNames(list))
    && (OneEach(Universe(c, before)) ==> TailMet(c, list, |before|))
  }

  lemma MetByGrows(c: Context, a: seq<Pkg>, b: seq<Pkg>, d: Dep)
    requires a <= b && MetBy(c, a, d)
    ensures MetBy(c, b, d)
  {
    hide Satisfies, DepCmpProvides;
    if AnySatisfies(a, d) {
      var i :| 0 <= i < |a| && Satisfies(a[i], d);
      assert Satisfies(b[i], d);
    }
  }

  lemma TailMetGrows(c: Context, a: seq<Pkg>, b: seq<Pkg>, n: nat)
    requires a <= b && n <= |a| && TailMet(c, a, n) && TailMet(c, b, |a|)
    ensures TailMet(c, b, n)
  {
    hide MetBy;
    forall k, j | n <= k < |b| && 0 <= j < |b[k].depends|
      ensures MetBy(c, b, Relax(c.env, b[k].depends[j]))
    {
      if k < |a| {
        assert b[k] == a[k];
        MetByGrows(c, a, b, Relax(c.env, a[k].depends[j]));
      }
    }
  }

  lemma GrownTransitive(c: Context, x: seq<Pkg>, y: seq<Pkg>, z: seq<Pkg>)
    requires Grown(c, x, y) && Grown(c, y, z)
    ensures Grown(c, x, z)
  {
    hide TailMet, OneEach, UniqueNames, Universe;
    if OneEach(Universe(c, x)) { TailMetGrows(c, y, z, |x|); }
  }

  lemma GrownSame(c: Context, x: seq<Pkg>)
    ensures Grown(c, x, x)
  {
  }

  /** The complaints about pkg alone leave its other dependencies met. */
  lemma ComplaintsCover(c: Context, pkg: Pkg, deps: seq<Missing>, list: seq<Pkg>)
    requires UsableContext(c) && pkg in list
    requires deps == JudgeAll(PlanOf(c.env, c.localpkgs, c.rem, [pkg]), [pkg], 1, false)
    requires forall k :: 0 <= k < |deps| ==> MetBy(c, list, deps[k].depend)
    ensures forall j :: 0 <= j < |pkg.depends| ==> MetBy(c, list, Relax(c.env, pkg.depends[j]))
  {
    hide Satisfies, MetBy, UniqueNames;
    var plan := PlanOf(c.env, c.localpkgs, c.rem, [pkg]);
    forall j | 0 <= j < |pkg.depends|
      ensures MetBy(c, list, Relax(c.env, pkg.depends[j]))
    {
      var d := Relax(c.env, pkg.depends[j]);
      if Met(plan, d) {
        MetInPlan(c, pkg, list, d);
      } else {
        var m := Missing(pkg.name, d, None);
        assert m in Judge(plan, [pkg][0], [pkg][0].depends[j], false);
        JudgeAllMembers(plan, [pkg], 1, false, m);
      }
    }
  }

  lemma MetInPlan(c: Context, pkg: Pkg, list: seq<Pkg>, d: Dep)
    requires UsableContext(c) && pkg in list && Met(PlanOf(c.env, c.localpkgs, c.rem, [pkg]), d)
    ensures MetBy(c, list, d)
  {
    hide Satisfies, DepCmpProvides, UniqueNames;
    var plan := PlanOf(c.env, c.localpkgs, c.rem, [pkg]);
    if AnySatisfies(plan.upgrade, d) {
      var i :| 0 <= i < |list| && list[i] == pkg;
      assert Satisfies(list[i], d);
    } else if AnySatisfies(plan.kept, d) {
      var i :| 0 <= i < |plan.kept| && Satisfies(plan.kept[i], d);
      assert plan.kept[i] in plan.kept;
    }
  }

  /** A package of that name on the list is the very package, if each name denotes one. */
  lemma NamedIsThat(c: Context, list: seq<Pkg>, p: Pkg, d: Dep)
    requires Named(list, p.name) && p in Universe(c, list) && OneEach(Universe(c, list)) && Satisfies(p, d)
    ensures MetBy(c, list, d)
  {
    hide Satisfies;
    var i :| 0 <= i < |list| && list[i].name == p.name;
    assert list[i] in Universe(c, list);
    assert Satisfies(list[i], d);
  }

  ghost function Measure(c: Context, list: seq<Pkg>): set<string> { Names(Available(c)) - ListNames(list) }

  // ----- what a recorded complaint means

  /** Every installed package that stays and would do is ignored. */
  ghost predicate NoneInstalled(c: Context, d: Dep) {
    forall p :: Suitable(p, d, [c.installed], c.rem) ==> c.ignores(p)
  }

  /** Nothing to take for d: no preferred package satisfies it, and of the sync databases every
      suitable package is ignored or the user refused to choose. */
  ghost predicate NoneOffered(c: Context, list: seq<Pkg>, d: Dep) {
    && !AnySatisfies(c.preferred, d)
    && ((forall p :: Suitable(p, d, c.syncs, list) ==> c.ignores(p)) ||
        Choice(d, c.syncs, list, c.ignores, c.installed.pkgs, false))
  }

  /** A package for d was at hand, but one of its own dependencies had been complained about. */
  ghost predicate OneFailed(c: Context, earlier: seq<Missing>, d: Dep) {
    exists p, i :: p in Available(c) && Satisfies(p, d) && 0 <= i < |earlier| && earlier[i].target == p.name
  }

  /** Why m was recorded: the list did not satisfy it, nothing installed that stays does, and
      there was nothing to take or what was taken failed. */
  ghost predicate Stuck(c: Context, earlier: seq<Missing>, m: Missing, list: seq<Pkg>) {
    && !AnySatisfies(list, m.depend) && NoneInstalled(c, m.depend)
    && (NoneOffered(c, list, m.depend) || OneFailed(c, earlier, m.depend))
  }

  /** Every complaint from number n on has its reason. */
  ghost predicate Explained(c: Context, data: seq<Missing>, n: nat) {
    forall i :: n <= i < |data| ==> StuckAt(c, data, i)
  }

  ghost predicate StuckAt(c: Context, data: seq<Missing>, i: nat)
    requires i < |data|
  {
    exists list :: Stuck(c, data[..i], data[i], list)
  }

  lemma ExplainedGrows(c: Context, a: seq<Missing>, b: seq<Missing>, n: nat)
    requires a <= b && Explained(c, a, n) && Explained(c, b, |a|)
    ensures Explained(c, b, n)
  {
    hide Stuck;
    forall i | n <= i < |b| ensures StuckAt(c, b, i) {
      if i < |a| { assert StuckAt(c, a, i) && a[..i] == b[..i]; }
    }
  }

  ghost predicate About(data: seq<Missing>, n: nat, name: string) {
    exists i :: n <= i < |data| && data[i].target == name
  }

  lemma AboutGrows(a: seq<Missing>, b: seq<Missing>, n: nat, name: string)
    requires a <= b && About(a, n, name)
    ensures About(b, n, name)
  {
    var i :| n <= i < |a| && a[i].target == name;
    assert b[i].target == name;
  }

  lemma AddStuck(c: Context, data0: seq<Missing>, data: seq<Missing>, m: Missing, list: seq<Pkg>)
    requires data0 <= data && Explained(c, data, |data0|) && Stuck(c, data, m, list)
    ensures Explained(c, data + [m], |data0|) && About(data + [m], |data0|, m.target)
  {
    hide Stuck;
    var b := data + [m];
    assert b[..|data|] == data && b[|data|] == m;
    assert StuckAt(c, b, |data|);
    ExplainedGrows(c, data, b, |data0|);
  }

  /** The user is never asked about installed packages. */
  lemma NoChoiceInstalled(c: Context, d: Dep, prompt: bool)
    ensures !Choice(d, [c.installed], c.rem, c.ignores, c.installed.pkgs, prompt)
  {
    hide Candidate, Named;
    if offered: seq<Pkg> :| |offered| > 1 && forall k :: 0 <= k < |offered| ==>
         Offered(offered[k], d, [c.installed], c.rem, c.installed.pkgs) && (prompt || !c.ignores(offered[k])) {
      MemberNamed(c.installed.pkgs, offered[0]);
      assert false;
    }
  }

  // ----- what is tried, and why a package is on the list

  /** The package resolution tries for d: the first preferred one that satisfies it, else what
      resolvedep takes from the sync databases. */
  ghost predicate Tried(c: Context, list: seq<Pkg>, d: Dep, tried: Option<Pkg>) {
    if AnySatisfies(c.preferred, d) then tried == FirstSatisfier(c.preferred, d)
    else exists answer :: Chosen(tried, answer, d, c.syncs, list, c.ignores, c.installed.pkgs)
  }

  /** d is met because the package tried is on the list, or, with nothing to try or the package
      tried complained about, because an installed package does. */
  ghost predicate Fulfilled(c: Context, list: seq<Pkg>, packages: seq<Pkg>, d: Dep, tried: Option<Pkg>, data: seq<Missing>, n: nat) {
    || (tried.Some? && Named(packages, tried.value.name))
    || (packages == list && !NoneInstalled(c, d) && (tried.Some? ==> About(data, n, tried.value.name)))
  }

  /** Package number k satisfies a dependency of a package listed before it. */
  ghost predicate WantedAt(c: Context, list: seq<Pkg>, k: nat)
    requires k < |list|
  {
    exists i, j :: 0 <= i < k && 0 <= j < |list[i].depends| && Satisfies(list[k], Relax(c.env, list[i].depends[j]))
  }

  ghost predicate Wanted(c: Context, list: seq<Pkg>, n: nat) { forall k :: n <= k < |list| ==> WantedAt(c, list, k) }

  /** The additions to list: one that satisfies d, and what was wanted after it. */
  ghost predicate AddedFor(c: Context, list: seq<Pkg>, packages: seq<Pkg>, d: Dep) {
    && Wanted(c, packages, |list| + 1)
    && (|packages| > |list| ==> Satisfies(packages[|list|], d))
  }

  lemma WantedGrows(c: Context, a: seq<Pkg>, b: seq<Pkg>, n: nat)
    requires a <= b && Wanted(c, a, n) && Wanted(c, b, |a|)
    ensures Wanted(c, b, n)
  {
    hide Satisfies;
    forall k | n <= k < |b| ensures WantedAt(c, b, k) {
      if k < |a| {
        assert WantedAt(c, a, k);
        var i, j :| 0 <= i < k && 0 <= j < |a[i].depends| && Satisfies(a[k], Relax(c.env, a[i].depends[j]));
        assert b[i] == a[i] && b[k] == a[k];
        assert Satisfies(b[k], Relax(c.env, b[i].depends[j]));
      }
    }
  }

  lemma WantedByPkg(c: Context, at: nat, before: seq<Pkg>, packages: seq<Pkg>, m: Missing, n: nat)
    requires at < |before| && before <= packages && AddedFor(c, before, packages, m.depend) && Wanted(c, before, n)
    requires DependsOn(c, before[at], m.depend)
    ensures Wanted(c, packages, n)
  {
    hide Satisfies, Relax;
    var j :| 0 <= j < |before[at].depends| && m.depend == Relax(c.env, before[at].depends[j]);
    assert packages[at] == before[at];
    if |packages| > |before| {
      assert Satisfies(packages[|before|], Relax(c.env, packages[at].depends[j]));
      assert WantedAt(c, packages, |before|);
    }
    WantedGrows(c, before, packages, n);
  }

  /** One missing dependency of the loop of _klpm_resolvedeps. */
  method ResolveOne(c: Context, miss: Missing, list: seq<Pkg>, data0: seq<Missing>)
    returns (met: bool, packages: seq<Pkg>, data: seq<Missing>, ghost tried: Option<Pkg>)
    requires UsableContext(c)
    ensures data0 <= data && (!met ==> About(data, |data0|, miss.target)) && Explained(c, data, |data0|)
    ensures Grown(c, list, packages) && AddedFor(c, list, packages, miss.depend)
    ensures met && OneEach(Universe(c, list)) ==> MetBy(c, packages, miss.depend)
    ensures AnySatisfies(list, miss.depend) ==> met && packages == list && data == data0
    ensures !AnySatisfies(list, miss.depend) ==> Tried(c, list, miss.depend, tried)
    ensures !AnySatisfies(list, miss.depend) && met ==> Fulfilled(c, list, packages, miss.depend, tried, data, |data0|)
    ensures !met ==> packages == list && data0 < data && data[|data| - 1] == miss
    decreases Measure(c, list), 1
  {
    hide Satisfies, MetBy, Candidate, OneEach, TailMet, UniqueNames, Available, Grown, Universe, Stuck, StuckAt, AnySatisfies, Suitable, Choice, About, Chosen, WantedAt;
    packages, data, met, tried := list, data0, true, None;
    GrownSame(c, list);
    var d := miss.depend;
    var onlist := FindDepSatisfier(list, d);
    if onlist.Some? {
      OnListMet(c, list, d);
      return;
    }
    var spkg := FindDepSatisfier(c.preferred, d);
    if spkg.None? {
      var refused;
      ghost var answer;
      spkg, refused, answer := ResolveDep(d, c.syncs, list, c.ignores, c.installed.pkgs, false);
      if spkg.Some? { FromSyncs(c, spkg.value, d, list); }
    } else {
      FromPreferred(c, spkg.value);
    }
    tried := spkg;
    if spkg.Some? {
      AvailableUniverse(c, list, spkg.value);
      met, packages, data := ResolveDeps(c, spkg.value, list, data0);
      if met {
        SubtreeGrown(c, list, spkg.value, packages);
        if OneEach(Universe(c, list)) {
          UniverseMember(c, list, packages, spkg.value);
          NamedIsThat(c, packages, spkg.value, d);
        }
        return;
      }
      GrownSame(c, list);
    }
    var local, refused, _ := ResolveDep(d, [c.installed], c.rem, c.ignores, c.installed.pkgs, false);
    if local.Some? {
      FromInstalled(c, local.value, d, list);
      return true, list, data, tried;
    }
    NoChoiceInstalled(c, d, false);
    WhyStuck(c, data0, data, miss, list, tried);
    AddStuck(c, data0, data, miss, list);
    return false, list, data + [miss], tried;
  }

  lemma WhyStuck(c: Context, data0: seq<Missing>, data: seq<Missing>, m: Missing, list: seq<Pkg>, tried: Option<Pkg>)
    requires data0 <= data && !AnySatisfies(list, m.depend) && NoneInstalled(c, m.depend)
    requires tried.None? ==> NoneOffered(c, list, m.depend)
    requires tried.Some? ==> tried.value in Available(c) && Satisfies(tried.value, m.depend) && About(data, |data0|, tried.value.name)
    ensures Stuck(c, data, m, list)
  {
    hide Satisfies, AnySatisfies, NoneInstalled, NoneOffered, Available;
  }

  lemma OnListMet(c: Context, list: seq<Pkg>, d: Dep)
    requires AnySatisfies(list, d)
    ensures MetBy(c, list, d)
  {
  }

  lemma FromSyncs(c: Context, p: Pkg, d: Dep, excluding: seq<Pkg>)
    requires Suitable(p, d, c.syncs, excluding)
    ensures p in Available(c) && Satisfies(p, d)
  {
    CandidateSatisfies(p, d);
  }

  lemma FromPreferred(c: Context, p: Pkg)
    requires p in c.preferred
    ensures p in Available(c)
  {
  }

  lemma AvailableUniverse(c: Context, list: seq<Pkg>, p: Pkg)
    requires p in Available(c)
    ensures Universe(c, list + [p]) == Universe(c, list)
    ensures Names(Available(c)) + {p.name} == Names(Available(c))
  {
    hide Available;
  }

  lemma UniverseMember(c: Context, list: seq<Pkg>, packages: seq<Pkg>, p: Pkg)
    requires p in Available(c)
    ensures p in Universe(c, packages)
  {
    hide Available;
  }

  lemma FromInstalled(c: Context, p: Pkg, d: Dep, list: seq<Pkg>)
    requires Suitable(p, d, [c.installed], c.rem)
    ensures MetBy(c, list, d)
  {
    hide DepCmpLiteral, DepCmpProvides;
    assert p in c.installed.pkgs;
    CandidateSatisfies(p, d);
  }

  lemma SubtreeGrown(c: Context, list: seq<Pkg>, p: Pkg, packages: seq<Pkg>)
    requires list <= packages && Universe(c, packages) <= Universe(c, list + [p]) && p in Available(c)
    requires UniqueNames(list) ==> UniqueNames(packages)
    requires OneEach(Universe(c, list + [p])) ==> TailMet(c, packages, |list|)
    ensures Grown(c, list, packages)
  {
    hide Available, UniqueNames, OneEach, TailMet;
    AvailableUniverse(c, list, p);
    forall q | q in list ensures q in packages {
      var i :| 0 <= i < |list| && list[i] == q;
      assert packages[i] == q;
    }
    assert Universe(c, packages) == Universe(c, list);
  }

  lemma AlreadyThere(c: Context, list: seq<Pkg>, pkg: Pkg)
    ensures Universe(c, list) <= Universe(c, list + [pkg]) && TailMet(c, list, |list|)
  {
    hide Available, MetBy;
  }

  lemma MeasureShrinks(c: Context, list: seq<Pkg>, pkg: Pkg, packages: seq<Pkg>)
    requires !Named(list, pkg.name) && list + [pkg] <= packages
    ensures Measure(c, packages) < (Names(Available(c)) + {pkg.name}) - ListNames(list)
  {
    hide Available;
    assert packages[|list|] == pkg && pkg in packages;
    assert pkg.name in ListNames(packages);
    assert pkg.name !in ListNames(list);
    forall name | name in ListNames(list)
      ensures name in ListNames(packages)
    {
      var p :| p in list && p.name == name;
      var i :| 0 <= i < |list| && list[i] == p;
      assert packages[i] == p && p in packages;
    }
  }

  lemma KeepsMet(c: Context, before: seq<Pkg>, packages: seq<Pkg>, deps: seq<Missing>, n: nat)
    requires before <= packages && n <= |deps|
    ensures forall k :: 0 <= k < n && MetBy(c, before, deps[k].depend) ==> MetBy(c, packages, deps[k].depend)
  {
    hide MetBy;
    forall k | 0 <= k < n && MetBy(c, before, deps[k].depend)
      ensures MetBy(c, packages, deps[k].depend)
    {
      MetByGrows(c, before, packages, deps[k].depend);
    }
  }

  lemma ResolvedAll(c: Context, list: seq<Pkg>, pkg: Pkg, deps: seq<Missing>, packages: seq<Pkg>)
    requires UsableContext(c) && !Named(list, pkg.name) && Grown(c, list + [pkg], packages)
    requires deps == JudgeAll(PlanOf(c.env, c.localpkgs, c.rem, [pkg]), [pkg], 1, false)
    requires OneEach(Universe(c, list + [pkg])) ==> forall k :: 0 <= k < |deps| ==> MetBy(c, packages, deps[k].depend)
    ensures list <= packages && Named(packages, pkg.name)
    ensures UniqueNames(list) ==> UniqueNames(packages)
    ensures OneEach(Universe(c, list + [pkg])) ==> TailMet(c, packages, |list|)
  {
    hide MetBy, OneEach, Available, JudgeAll;
    assert packages[|list|] == pkg && pkg in packages;
    if UniqueNames(list) { assert UniqueNames(list + [pkg]); }
    if OneEach(Universe(c, list + [pkg])) {
      ComplaintsCover(c, pkg, deps, packages);
    }
  }

  ghost predicate DependsOn(c: Context, pkg: Pkg, d: Dep) {
    exists j :: 0 <= j < |pkg.depends| && d == Relax(c.env, pkg.depends[j])
  }

  lemma AboutPkg(c: Context, pkg: Pkg, deps: seq<Missing>)
    requires deps == JudgeAll(PlanOf(c.env, c.localpkgs, c.rem, [pkg]), [pkg], 1, false)
    ensures forall k :: 0 <= k < |deps| ==> deps[k].target == pkg.name && DependsOn(c, pkg, deps[k].depend)
  {
    hide JudgeAll, Judge;
    var plan := PlanOf(c.env, c.localpkgs, c.rem, [pkg]);
    forall k | 0 <= k < |deps| ensures deps[k].target == pkg.name && DependsOn(c, pkg, deps[k].depend) {
      JudgeAllMembers(plan, [pkg], 1, false, deps[k]);
      var i, j :| 0 <= i < 1 && 0 <= j < |[pkg][i].depends| && deps[k] in Judge(plan, [pkg][i], [pkg][i].depends[j], false);
    }
  }

  /** _klpm_resolvedeps: either the list has grown to include pkg and what pkg needs, or it is
      left as it was and a dependency of pkg is among the recorded complaints, each of which has
      its reason. */
  method ResolveDeps(c: Context, pkg: Pkg, list: seq<Pkg>, data0: seq<Missing>)
    returns (ok: bool, packages: seq<Pkg>, data: seq<Missing>)
    requires UsableContext(c)
    ensures data0 <= data && Explained(c, data, |data0|)
    ensures !ok ==> packages == list && About(data, |data0|, pkg.name)
    ensures ok ==> list <= packages && Named(packages, pkg.name)
    ensures packages != list ==> |packages| > |list| && packages[|list|] == pkg
    ensures Wanted(c, packages, |list| + 1)
    ensures ok ==> Universe(c, packages) <= Universe(c, list + [pkg])
    ensures UniqueNames(list) ==> UniqueNames(packages)
    ensures ok && OneEach(Universe(c, list + [pkg])) ==> TailMet(c, packages, |list|)
    decreases (Names(Available(c)) + {pkg.name}) - ListNames(list), 0
  {
    hide MetBy, OneEach, TailMet, UniqueNames, Available, Grown, Satisfies, JudgeAll, StuckAt, About, WantedAt, DependsOn, Tried, Fulfilled, AddedFor, AnySatisfies;
    packages, data := list, data0;
    if Named(list, pkg.name) {
      AlreadyThere(c, list, pkg);
      return true, list, data0;
    }
    var start := list + [pkg];
    packages := start;
    ok := true;
    var deps := CheckDeps(c.env, c.localpkgs, c.rem, [pkg], false);
    AboutPkg(c, pkg, deps);
    GrownSame(c, start);
    for j := 0 to |deps|
      invariant data0 <= data && Explained(c, data, |data0|) && (!ok ==> About(data, |data0|, pkg.name))
      invariant Grown(c, start, packages) && Wanted(c, packages, |list| + 1)
      invariant ok && OneEach(Universe(c, start)) ==> forall k :: 0 <= k < j ==> MetBy(c, packages, deps[k].depend)
    {
      var met, before := true, packages;
      ghost var recorded := data;
      MeasureShrinks(c, list, pkg, packages);
      ghost var tried;
      met, packages, data, tried := ResolveOne(c, deps[j], packages, data);
      assert before[|list|] == pkg;
      WantedByPkg(c, |list|, before, packages, deps[j], |list| + 1);
      KeepsMet(c, before, packages, deps, j);
      GrownTransitive(c, start, before, packages);
      ExplainedGrows(c, recorded, data, |data0|);
      StillAbout(recorded, data, |data0|, pkg.name);
      ok := ok && met;
    }
    if ok {
      ResolvedAll(c, list, pkg, deps, packages);
    } else {
      packages := list;
    }
  }

  lemma StillAbout(a: seq<Missing>, b: seq<Missing>, n: nat, name: string)
    requires a <= b && n <= |a|
    ensures About(a, n, name) || About(b, |a|, name) ==> About(b, n, name)
  {
    if About(a, n, name) { AboutGrows(a, b, n, name); }
  }
}
