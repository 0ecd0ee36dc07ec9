/** Planning a removal (_klpm_remove_prepare in remove.c). */
module RemovePrepare {
  import opened Text
  import opened Package
  import opened Deps
  import opened Remove
  import opened RecurseDeps
  import opened TransData
  import Version

  lemma InSetNamed(local: seq<Pkg>, s: seq<Pkg>, p: Pkg)
    requires UniqueNames(local) && p in local && Named(s, p.name) && forall q :: q in s ==> q in local
    ensures p in s
  {
    var i :| 0 <= i < |s| && s[i].name == p.name;
    assert s[i] in local;
  }

  // ----- taking unneeded dependencies along when versions may be ignored

  /** Between installed packages, ignoring versions satisfies no dependency that is not satisfied
      anyway. */
  ghost predicate VersionsDecideNothing(env: Env, local: seq<Pkg>) {
    forall k, q, j :: k in local && q in local && 0 <= j < |k.depends| && Satisfies(q, Relax(env, k.depends[j])) ==>
      Satisfies(q, k.depends[j])
  }

  lemma StrictVersions(env: Env, local: seq<Pkg>)
    requires !env.noDepVersion
    ensures VersionsDecideNothing(env, local)
  {
  }

  /** x satisfies d only because its version is ignored, and so far as versions are ignored every
      installed package that satisfies d is removed. */
  ghost predicate LosesLast(env: Env, local: seq<Pkg>, rem: seq<Pkg>, d: Dep, x: Pkg) {
    && Satisfies(x, Relax(env, d)) && !Satisfies(x, d)
    && !DepCmpProvides(Relax(env, d), env.assumed)
    && forall q :: q in local && Satisfies(q, Relax(env, d)) ==> Named(rem, q.name)
  }

  lemma UnmetIff(env: Env, local: seq<Pkg>, rem: seq<Pkg>, d: Dep)
    ensures !Met(RemovalPlan(env, local, rem), d) <==>
            !DepCmpProvides(d, env.assumed) && forall q :: q in local && Satisfies(q, d) ==> Named(rem, q.name)
  {
    hide Satisfies, Named, DepCmpProvides;
    var c := RemovalPlan(env, local, rem);
    NothingSatisfies(d);
    forall q ensures !Named([], q) { NoNames(q); }
    if AnySatisfies(c.kept, d) {
      var i :| 0 <= i < |c.kept| && Satisfies(c.kept[i], d);
      assert c.kept[i] in c.kept;
    }
    forall q | q in local && Satisfies(q, d) && !Named(rem, q.name) ensures AnySatisfies(c.kept, d) {
      Among(c.kept, q, d);
    }
  }

  lemma NoNames(name: string)
    ensures !Named([], name)
  {
  }

  /** Some kept package leaned only on unneeded packages of the wrong version. */
  ghost predicate LeansLoosely(env: Env, local: seq<Pkg>, rem: seq<Pkg>, extra: seq<Pkg>) {
    exists k, j, x :: k in Kept(local, rem + extra, []) && 0 <= j < |k.depends| && x in extra &&
      LosesLast(env, local, rem + extra, k.depends[j], x)
  }

  ghost predicate Takes(local: seq<Pkg>, rem: seq<Pkg>, extra: seq<Pkg>) {
    ToSet(extra) <= Others(local, rem) && Unneeded(ToSet(extra), Others(local, rem))
  }

  /** Taking unneeded dependencies along breaks something exactly when a kept package leaned on
      one of them only because its version is ignored. */
  lemma RecurseHarmlessIff(env: Env, local: seq<Pkg>, rem: seq<Pkg>, extra: seq<Pkg>)
    requires UniqueNames(local) && Harmless(env, local, rem) && Takes(local, rem, extra)
    ensures Harmless(env, local, rem + extra) <==> !LeansLoosely(env, local, rem, extra)
  {
    hide Satisfies, Named, Met, LosesLast, Takes, AnySatisfies;
    var c' := RemovalPlan(env, local, rem + extra);
    if LeansLoosely(env, local, rem, extra) {
      var k, j, x :| k in c'.kept && 0 <= j < |k.depends| && x in extra && LosesLast(env, local, rem + extra, k.depends[j], x);
      LooseBreaks(env, local, rem, extra, k, j, x);
    } else {
      forall i, j | 0 <= i < |c'.kept| && 0 <= j < |c'.kept[i].depends| && AnySatisfies(c'.modified, Relax(env, c'.kept[i].depends[j]))
        ensures Met(c', Relax(env, c'.kept[i].depends[j]))
      {
        assert c'.kept[i] in c'.kept;
        StaysMet(env, local, rem, extra, c'.kept[i], j);
      }
    }
  }

  /** No loose reliance where versions decide nothing. */
  lemma RecurseKeepsHarmless(env: Env, local: seq<Pkg>, rem: seq<Pkg>, extra: seq<Pkg>)
    requires UniqueNames(local) && Harmless(env, local, rem) && Takes(local, rem, extra)
    requires VersionsDecideNothing(env, local)
    ensures Harmless(env, local, rem + extra)
  {
    hide Satisfies, Named, Met, Harmless, Unneeded;
    forall x | x in extra ensures x in local { assert x in ToSet(extra); }
    RecurseHarmlessIff(env, local, rem, extra);
  }

  lemma LooseBreaks(env: Env, local: seq<Pkg>, rem: seq<Pkg>, extra: seq<Pkg>, k: Pkg, j: nat, x: Pkg)
    requires Takes(local, rem, extra) && k in Kept(local, rem + extra, []) && j < |k.depends| && x in extra
    requires LosesLast(env, local, rem + extra, k.depends[j], x)
    ensures !Harmless(env, local, rem + extra)
  {
    hide Satisfies, Named, Unneeded;
    var c', d := RemovalPlan(env, local, rem + extra), Relax(env, k.depends[j]);
    UnmetIff(env, local, rem + extra, d);
    assert x in ToSet(extra);
    assert x in rem + extra;
    MemberNamed(rem + extra, x);
    assert x in c'.modified;
    var m :| 0 <= m < |c'.modified| && c'.modified[m] == x;
    assert AnySatisfies(c'.modified, d);
    var i :| 0 <= i < |c'.kept| && c'.kept[i] == k;
    assert Relax(env, c'.kept[i].depends[j]) == d && !Met(c', d);
  }

  lemma StaysMet(env: Env, local: seq<Pkg>, rem: seq<Pkg>, extra: seq<Pkg>, k: Pkg, j: nat)
    requires UniqueNames(local) && Harmless(env, local, rem) && Takes(local, rem, extra)
    requires k in Kept(local, rem + extra, []) && j < |k.depends| && !LeansLoosely(env, local, rem, extra)
    requires AnySatisfies(RemovalPlan(env, local, rem + extra).modified, Relax(env, k.depends[j]))
    ensures Met(RemovalPlan(env, local, rem + extra), Relax(env, k.depends[j]))
  {
    hide Satisfies, Unneeded, Named, Met, Harmless;
    var d := Relax(env, k.depends[j]);
    KeptOutside(local, rem, extra, k);
    if x :| x in extra && Satisfies(x, d) {
      assert x in ToSet(extra);
      UnneededBy(k, j, x, ToSet(extra), Others(local, rem));
      UnmetIff(env, local, rem + extra, d);
      assert !LosesLast(env, local, rem + extra, k.depends[j], x);
    } else {
      MetWithout(env, local, rem, extra, k, j);
    }
  }

  lemma UnneededBy(k: Pkg, j: nat, x: Pkg, s: set<Pkg>, pool: set<Pkg>)
    requires Unneeded(s, pool) && k in pool && k !in s && j < |k.depends| && x in s
    ensures !Satisfies(x, k.depends[j])
  {
    hide Satisfies;
    assert !DependsOn(k, x);
  }

  /** Packages that satisfy nothing of k change nothing for k. */
  lemma MetWithout(env: Env, local: seq<Pkg>, rem: seq<Pkg>, extra: seq<Pkg>, k: Pkg, j: nat)
    requires UniqueNames(local) && Harmless(env, local, rem) && ToSet(extra) <= Others(local, rem)
    requires k in Kept(local, rem, []) && j < |k.depends|
    requires forall x :: x in extra ==> !Satisfies(x, Relax(env, k.depends[j]))
    requires AnySatisfies(RemovalPlan(env, local, rem + extra).modified, Relax(env, k.depends[j]))
    ensures Met(RemovalPlan(env, local, rem + extra), Relax(env, k.depends[j]))
  {
    hide Satisfies, Named, DepCmpProvides, Kept, Modified, Harmless;
    var c, c' := RemovalPlan(env, local, rem), RemovalPlan(env, local, rem + extra);
    var d := Relax(env, k.depends[j]);
    var m :| 0 <= m < |c'.modified| && Satisfies(c'.modified[m], d);
    assert c'.modified[m] in c'.modified;
    NotExtra(local, rem, extra, c'.modified[m]);
    Among(c.modified, c'.modified[m], d);
    HarmlessAt(env, local, rem, k, j);
    NothingSatisfies(d);
    if AnySatisfies(c.kept, d) {
      var z :| 0 <= z < |c.kept| && Satisfies(c.kept[z], d);
      assert c.kept[z] in c.kept;
      NotExtra(local, rem, extra, c.kept[z]);
      Among(c'.kept, c.kept[z], d);
    }
  }

  lemma HarmlessAt(env: Env, local: seq<Pkg>, rem: seq<Pkg>, k: Pkg, j: nat)
    requires Harmless(env, local, rem) && k in Kept(local, rem, []) && j < |k.depends|
    requires AnySatisfies(Modified(local, rem, []), Relax(env, k.depends[j]))
    ensures Met(RemovalPlan(env, local, rem), Relax(env, k.depends[j]))
  {
    hide AnySatisfies, Met, Kept, Modified;
    var c := RemovalPlan(env, local, rem);
    var y :| 0 <= y < |c.kept| && c.kept[y] == k;
    assert Met(c, Relax(env, c.kept[y].depends[j]));
  }

  lemma KeptOutside(local: seq<Pkg>, rem: seq<Pkg>, extra: seq<Pkg>, k: Pkg)
    requires k in Kept(local, rem + extra, [])
    ensures k in Kept(local, rem, []) && k in Others(local, rem) && k !in ToSet(extra)
  {
    NamedInBoth(rem, extra, k.name);
    MemberNamed(extra, k);
  }

  /** An installed package that is not taken along is kept or modified as before. */
  lemma NotExtra(local: seq<Pkg>, rem: seq<Pkg>, extra: seq<Pkg>, q: Pkg)
    requires UniqueNames(local) && ToSet(extra) <= Others(local, rem) && q in local && q !in extra
    ensures q in Modified(local, rem + extra, []) ==> q in Modified(local, rem, [])
    ensures q in Kept(local, rem, []) ==> q in Kept(local, rem + extra, [])
  {
    NamedInBoth(rem, extra, q.name);
    forall x | x in extra ensures x in local { assert x in ToSet(extra); }
    if Named(extra, q.name) { InSetNamed(local, extra, q); }
  }

  /** list goes on behind first with the largest set of dependencies that nothing else needs. */
  ghost predicate WithUnneeded(local: seq<Pkg>, first: seq<Pkg>, list: seq<Pkg>, explicit: bool) {
    && first <= list
    && LargestUnneeded(ToSet(list[|first|..]), Others(local, first), ToSet(first), explicit)
  }

  /** list is the least harmless removal that covers first. */
  ghost predicate LeastHarmless(env: Env, local: seq<Pkg>, first: seq<Pkg>, list: seq<Pkg>) {
    && first <= list && (forall i :: |first| <= i < |list| ==> list[i] in local)
    && Harmless(env, local, list)
    && forall s :: HoldsNames(s, first) && Harmless(env, local, s) ==> HoldsNames(s, list)
  }

  /** list is a harmless part of base, and everything dropped is needed by a package that stays. */
  ghost predicate NeededDropped(env: Env, local: seq<Pkg>, base: seq<Pkg>, list: seq<Pkg>) {
    && Harmless(env, local, list) && (forall p :: p in list ==> p in base)
    && forall p :: p in base ==> p in list || Needed(env, local, list, p.name)
  }

  /** What is checked: the given list, with the dependencies to be taken along if these are asked
      for without a cascade. */
  ghost predicate CheckedList(local: seq<Pkg>, flags: Flags, remove0: seq<Pkg>, base: seq<Pkg>) {
    if flags.recurse && !flags.cascade then WithUnneeded(local, remove0, base, flags.recurseAll) else base == remove0
  }

  /** What is removed without a cascade. */
  ghost predicate PlainList(env: Env, local: seq<Pkg>, flags: Flags, base: seq<Pkg>, remove: seq<Pkg>) {
    && (flags.noDeps || !flags.unneeded || Harmless(env, local, base) ==> remove == base)
    && (!flags.noDeps && flags.unneeded ==> NeededDropped(env, local, base, remove))
  }

  /** What is removed with a cascade: cover, and what is taken along. */
  ghost predicate CascadeList(env: Env, local: seq<Pkg>, flags: Flags, base: seq<Pkg>, cover: seq<Pkg>, remove: seq<Pkg>) {
    && (if flags.noDeps then cover == base else LeastHarmless(env, local, base, cover))
    && if flags.recurse then WithUnneeded(local, cover, remove, flags.recurseAll) else remove == cover
  }

  /** Planning a removal fails exactly if the checked list breaks something that no flag covers;
      otherwise the flags say what becomes of the list. */
  ghost predicate Outcome(env: Env, local: seq<Pkg>, flags: Flags, remove0: seq<Pkg>,
                          ok: bool, remove: seq<Pkg>, base: seq<Pkg>, cover: seq<Pkg>) {
    && CheckedList(local, flags, remove0, base)
    && (!ok <==> !flags.noDeps && !flags.cascade && !flags.unneeded && !Harmless(env, local, base))
    && (!ok ==> remove == base)
    && (!flags.cascade ==> PlainList(env, local, flags, base, remove))
    && (flags.cascade ==> CascadeList(env, local, flags, base, cover, remove))
  }

  /** _klpm_remove_prepare: a prepared removal breaks nothing. The last step of a recursive
      cascade is not checked again, so there ignored versions can break something. */
  method Prepare(env: Env, local: seq<Pkg>, flags: Flags, remove0: seq<Pkg>)
    returns (ok: bool, remove: seq<Pkg>, ghost base: seq<Pkg>, ghost cover: seq<Pkg>)
    requires UniqueNames(local)
    ensures Outcome(env, local, flags, remove0, ok, remove, base, cover)
    ensures ok && !flags.noDeps && (flags.cascade && flags.recurse ==> VersionsDecideNothing(env, local)) ==>
              Harmless(env, local, remove)
    ensures ok && !flags.noDeps && flags.cascade && flags.recurse ==>
              |cover| <= |remove| && HarmlessUpTo(env, local, remove, |cover|)
    ensures !flags.unneeded || flags.cascade ==> remove0 <= remove
    ensures UniqueNames(remove0) ==> UniqueNames(remove)
  {
    hide Harmless, LargestUnneeded, UniqueNames, VersionsDecideNothing, LeansLoosely, Takes, HoldsNames;
    remove := remove0;
    if flags.recurse && !flags.cascade {
      remove := AddUnneeded(local, remove, flags.recurseAll);
    }
    base, cover := remove, remove;
    if !flags.noDeps {
      var lp := CheckRemoval(env, local, remove);
      if lp != [] {
        if flags.cascade {
          remove := Cascade(env, local, remove);
          cover := remove;
        } else if flags.unneeded {
          remove := KeepNeeded(env, local, remove);
        } else {
          return false, remove, base, cover;
        }
      }
    }
    if flags.cascade && flags.recurse {
      remove := AddUnneeded(local, remove, flags.recurseAll);
      ghost var extra := remove[|cover|..];
      assert remove == cover + extra && remove[..|cover|] == cover;
      ExtraUnneeded(local, cover, extra, flags.recurseAll);
      if Harmless(env, local, cover) {
        RecurseHarmlessIff(env, local, cover, extra);
        assert HarmlessUpTo(env, local, remove, |cover|);
        if VersionsDecideNothing(env, local) {
          RecurseKeepsHarmless(env, local, cover, extra);
        }
      }
    }
    ok := true;
  }

  /** The first n removals break nothing, the rest are dependencies no other package needs, and
      all of them together break something exactly when a kept package leaned on one loosely. */
  ghost predicate HarmlessUpTo(env: Env, local: seq<Pkg>, remove: seq<Pkg>, n: nat)
    requires n <= |remove|
  {
    && Harmless(env, local, remove[..n]) && Takes(local, remove[..n], remove[n..])
    && (Harmless(env, local, remove) <==> !LeansLoosely(env, local, remove[..n], remove[n..]))
  }

  lemma ExtraUnneeded(local: seq<Pkg>, rem: seq<Pkg>, extra: seq<Pkg>, explicit: bool)
    requires LargestUnneeded(ToSet(extra), Others(local, rem), ToSet(rem), explicit)
    ensures Takes(local, rem, extra)
  {
    hide Unneeded;
  }

  // ----- a recursive cascade that ignores versions and breaks a package

  /** k needs lib newer than 1; lib 1 came in as a dependency; t needs any lib. */
  ghost predicate Example(local: seq<Pkg>, k: Pkg, lib: Pkg, t: Pkg) {
    && k == Pkg("k", "1", Explicit, [Dep("lib", Gt, Some("1"), None)], [], [], "")
    && lib == Pkg("lib", "1", Depend, [], [], [], "")
    && t == Pkg("t", "1", Explicit, [Dep("lib", Any, None, None)], [], [], "")
    && local == [k, lib, t]
  }

  lemma ExampleFacts(local: seq<Pkg>, k: Pkg, lib: Pkg, t: Pkg)
    requires Example(local, k, lib, t)
    ensures Satisfies(lib, Relax(Env([], true), k.depends[0])) && !Satisfies(lib, k.depends[0])
    ensures DependsOn(t, lib) && !DependsOn(k, lib) && !DependsOn(t, k) && !DependsOn(lib, k) && !DependsOn(lib, lib)
    ensures k.name != lib.name && k.name != t.name && lib.name != t.name
    ensures !Satisfies(k, Relax(Env([], true), k.depends[0]))
  {
    Version.FullCompareReflexive(Version.FullKeyOf("1"));
    assert k.name[0] == 'k' && lib.name[0] == 'l' && t.name[0] == 't';
    assert t.depends[0] == Dep("lib", Any, None, None);
    assert !DepCmpProvides(k.depends[0], []);
    assert !Satisfies(lib, k.depends[0]);
  }

  lemma ExampleNamed(t: Pkg, lib: Pkg, name: string)
    ensures Named([t], name) <==> name == t.name
    ensures Named([t, lib], name) <==> name == t.name || name == lib.name
    ensures !Named([], name)
  {
    assert [t][0].name == t.name && [t, lib][0].name == t.name && [t, lib][1].name == lib.name;
  }

  lemma ExampleParts(local: seq<Pkg>, k: Pkg, lib: Pkg, t: Pkg, p: Pkg)
    requires Example(local, k, lib, t)
    ensures p in Kept(local, [t], []) <==> p == k || p == lib
    ensures p in Kept(local, [t, lib], []) <==> p == k
    ensures p in Modified(local, [t, lib], []) <==> p == lib || p == t
    ensures p in Others(local, [t]) <==> p == k || p == lib
  {
    hide Satisfies, Kept, Modified, Named;
    assert k.name[0] == 'k' && lib.name[0] == 'l' && t.name[0] == 't';
    ExampleNamed(t, lib, p.name);
  }

  /** Removing t breaks nothing and makes lib an unneeded dependency, the only one; taking it
      along takes from k the lib that it had as long as versions are ignored. */
  lemma LooseCascadeBreaks(local: seq<Pkg>, k: Pkg, lib: Pkg, t: Pkg)
    requires Example(local, k, lib, t)
    ensures var env := Env([], true);
            && Harmless(env, local, [t])
            && LargestUnneeded({lib}, Others(local, [t]), {t}, false)
            && !Harmless(env, local, [t, lib])
  {
    hide Harmless, Others, Example, LargestUnneeded;
    ExampleHarmless(local, k, lib, t);
    ExampleLargest(local, k, lib, t);
    ExampleBreaks(local, k, lib, t);
  }

  lemma ExampleHarmless(local: seq<Pkg>, k: Pkg, lib: Pkg, t: Pkg)
    requires Example(local, k, lib, t)
    ensures Harmless(Env([], true), local, [t])
  {
    hide Satisfies, DependsOn, Kept, Modified, Example;
    var env := Env([], true);
    var c := RemovalPlan(env, local, [t]);
    ExampleFacts(local, k, lib, t);
    ExampleDepends(local, k, lib, t);
    assert lib in c.kept by { ExampleParts(local, k, lib, t, lib); }
    var m :| 0 <= m < |c.kept| && c.kept[m] == lib;
    assert AnySatisfies(c.kept, Relax(env, k.depends[0]));
    forall i, j | 0 <= i < |c.kept| && 0 <= j < |c.kept[i].depends|
      ensures Met(c, Relax(env, c.kept[i].depends[j]))
    {
      ExampleParts(local, k, lib, t, c.kept[i]);
      assert c.kept[i] in c.kept;
    }
  }

  lemma ExampleBreaks(local: seq<Pkg>, k: Pkg, lib: Pkg, t: Pkg)
    requires Example(local, k, lib, t)
    ensures !Harmless(Env([], true), local, [t, lib])
  {
    hide Satisfies, DependsOn, Kept, Modified, Example;
    var env := Env([], true);
    ExampleFacts(local, k, lib, t);
    ExampleDepends(local, k, lib, t);
    var c, d := RemovalPlan(env, local, [t, lib]), Relax(env, k.depends[0]);
    assert k in c.kept by { ExampleParts(local, k, lib, t, k); }
    assert lib in c.modified by { ExampleParts(local, k, lib, t, lib); }
    var i :| 0 <= i < |c.kept| && c.kept[i] == k;
    var m :| 0 <= m < |c.modified| && c.modified[m] == lib;
    assert AnySatisfies(c.modified, Relax(env, c.kept[i].depends[0]));
    forall n | 0 <= n < |c.kept| ensures !Satisfies(c.kept[n], d) {
      assert c.kept[n] in c.kept;
      ExampleParts(local, k, lib, t, c.kept[n]);
    }
    assert !DepCmpProvides(d, []);
    assert !Met(c, d);
  }

  lemma ExampleDepends(local: seq<Pkg>, k: Pkg, lib: Pkg, t: Pkg)
    requires Example(local, k, lib, t)
    ensures lib.depends == [] && |k.depends| == 1 && lib.reason.Depend?
  {
  }

  lemma ExampleLargest(local: seq<Pkg>, k: Pkg, lib: Pkg, t: Pkg)
    requires Example(local, k, lib, t)
    ensures LargestUnneeded({lib}, Others(local, [t]), {t}, false)
  {
    hide Satisfies, DependsOn, Others, Example;
    ExampleFacts(local, k, lib, t);
    ExampleDepends(local, k, lib, t);
    var pool := Others(local, [t]);
    forall p ensures p in pool <==> p == k || p == lib { ExampleParts(local, k, lib, t, p); }
    assert Moves(t, lib, false);
    assert Closed({lib}, pool, {t}, false);
    assert Reachable(lib, pool, {t}, false);
    assert Unneeded({lib}, pool);
  }
}
