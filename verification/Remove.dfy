/** The two loops of remove.c that repair a removal list: cascade pulls in what would break,
    keep-needed drops what is still needed. */
module Remove {
  import opened Text
  import opened Package
  import opened Deps

  function RemovalPlan(env: Env, local: seq<Pkg>, rem: seq<Pkg>): Plan { PlanOf(env, local, rem, []) }

  /** Removing rem breaks no dependency of a kept package. */
  ghost predicate Harmless(env: Env, local: seq<Pkg>, rem: seq<Pkg>) {
    NoneBroken(RemovalPlan(env, local, rem), RemovalPlan(env, local, rem).kept)
  }

  /** Everything named in rem is named in s. */
  ghost predicate HoldsNames(s: seq<Pkg>, rem: seq<Pkg>) { forall i :: 0 <= i < |rem| ==> Named(s, rem[i].name) }

  /** The check of a removal list, and what its complaints are about. */
  method CheckRemoval(env: Env, local: seq<Pkg>, rem: seq<Pkg>) returns (lp: seq<Missing>)
    ensures lp == [] <==> Harmless(env, local, rem)
    ensures forall i :: 0 <= i < |lp| ==> Complaint(env, local, rem, lp[i])
  {
    hide NoneBroken;
    lp := CheckDeps(env, local, rem, [], true);
    ghost var c := RemovalPlan(env, local, rem);
    assert lp == JudgeAll(c, c.kept, |c.kept|, true);
    EmptyBackward(c, c.kept);
    forall i | 0 <= i < |lp|
      ensures Complaint(env, local, rem, lp[i])
    {
      JudgeAllMembers(c, c.kept, |c.kept|, true, lp[i]);
    }
  }

  /** m blames the removal of m.causing for breaking a dependency of the kept package m.target. */
  ghost predicate Complaint(env: Env, local: seq<Pkg>, rem: seq<Pkg>, m: Missing) {
    var c := RemovalPlan(env, local, rem);
    exists i, j :: 0 <= i < |c.kept| && 0 <= j < |c.kept[i].depends| && m in Judge(c, c.kept[i], c.kept[i].depends[j], true)
  }

  lemma FewerKept(local: seq<Pkg>, s: seq<Pkg>, rem: seq<Pkg>, d: Dep)
    requires HoldsNames(s, rem)
    ensures AnySatisfies(Kept(local, s, []), d) ==> AnySatisfies(Kept(local, rem, []), d)
    ensures AnySatisfies(Modified(local, rem, []), d) ==> AnySatisfies(Modified(local, s, []), d)
  {
    hide Satisfies;
    var ks, kr := Kept(local, s, []), Kept(local, rem, []);
    if AnySatisfies(ks, d) {
      var i :| 0 <= i < |ks| && Satisfies(ks[i], d);
      assert ks[i] in ks;
      assert ks[i] in kr;
    }
    var ms, mr := Modified(local, s, []), Modified(local, rem, []);
    if AnySatisfies(mr, d) {
      var i :| 0 <= i < |mr| && Satisfies(mr[i], d);
      assert mr[i] in mr;
      assert mr[i] in ms;
    }
  }

  /** A removal that covers this one and keeps a package broken by this one is not harmless. */
  lemma StaysBroken(env: Env, local: seq<Pkg>, rem: seq<Pkg>, m: Missing, s: seq<Pkg>)
    requires Complaint(env, local, rem, m) && HoldsNames(s, rem) && !Named(s, m.target)
    ensures !Harmless(env, local, s)
  {
    hide AnySatisfies;
    var c, cs := RemovalPlan(env, local, rem), RemovalPlan(env, local, s);
    var i, j :| 0 <= i < |c.kept| && 0 <= j < |c.kept[i].depends| && m in Judge(c, c.kept[i], c.kept[i].depends[j], true);
    var d := Relax(env, c.kept[i].depends[j]);
    FewerKept(local, s, rem, d);
    NothingSatisfies(d);
    assert c.kept[i] in c.kept;
    assert c.kept[i] in local && !Named([], c.kept[i].name);
    assert c.kept[i] in cs.kept;
    var k :| 0 <= k < |cs.kept| && cs.kept[k] == c.kept[i];
    assert AnySatisfies(cs.modified, Relax(env, cs.kept[k].depends[j])) && !Met(cs, d);
  }

  lemma NothingSatisfies(d: Dep)
    ensures !AnySatisfies([], d)
  {
  }

  /** The packages still to be kept. */
  ghost function Remaining(local: seq<Pkg>, rem: seq<Pkg>): set<Pkg> { set p | p in local && !Named(rem, p.name) }

  /** name is the target of one of the first n complaints. */
  predicate Targets(lp: seq<Missing>, n: nat, name: string)
    requires n <= |lp|
  {
    exists j :: 0 <= j < n && lp[j].target == name
  }

  /** One round of the cascade: adds the target of every complaint. */
  method CascadeRound(local: seq<Pkg>, rem: seq<Pkg>, lp: seq<Missing>) returns (r: seq<Pkg>)
    requires forall i :: 0 <= i < |lp| ==> Named(local, lp[i].target)
    ensures rem <= r && forall i :: 0 <= i < |lp| ==> Named(r, lp[i].target)
    ensures forall i :: |rem| <= i < |r| ==> r[i] in local && Targets(lp, |lp|, r[i].name)
    ensures UniqueNames(rem) ==> UniqueNames(r)
  {
    r := rem;
    for i := 0 to |lp|
      invariant rem <= r && forall k :: 0 <= k < i ==> Named(r, lp[k].target)
      invariant forall k :: |rem| <= k < |r| ==> r[k] in local && Targets(lp, i, r[k].name)
      invariant UniqueNames(rem) ==> UniqueNames(r)
    {
      var info := PkgFind(local, lp[i].target);
      if info.Some? && !Named(r, info.value.name) {
        var before := r;
        r := r + [info.value];
        assert r[|before|].name == lp[i].target;
        forall k | 0 <= k < i
          ensures Named(r, lp[k].target)
        {
          NamedPrefix(before, r, lp[k].target);
        }
      }
    }
  }

  /** remove_prepare_cascade: ends with the least harmless removal that covers the given one. */
  method Cascade(env: Env, local: seq<Pkg>, remove: seq<Pkg>) returns (r: seq<Pkg>)
    ensures remove <= r && forall i :: |remove| <= i < |r| ==> r[i] in local
    ensures Harmless(env, local, r)
    ensures forall s :: HoldsNames(s, remove) && Harmless(env, local, s) ==> HoldsNames(s, r)
    ensures UniqueNames(remove) ==> UniqueNames(r)
  {
    hide Harmless, Complaint, UniqueNames;
    r := remove;
    var lp := CheckRemoval(env, local, r);
    while lp != []
      invariant remove <= r && forall i :: |remove| <= i < |r| ==> r[i] in local
      invariant lp == [] <==> Harmless(env, local, r)
      invariant forall i :: 0 <= i < |lp| ==> Complaint(env, local, r, lp[i])
      invariant forall s :: HoldsNames(s, remove) && Harmless(env, local, s) ==> HoldsNames(s, r)
      invariant UniqueNames(remove) ==> UniqueNames(r)
      decreases Remaining(local, r)
    {
      forall i | 0 <= i < |lp|
        ensures Named(local, lp[i].target) && !Named(r, lp[i].target)
      {
        TargetIsKept(env, local, r, lp[i]);
      }
      ghost var before := r;
      r := CascadeRound(local, r, lp);
      forall s | HoldsNames(s, remove) && Harmless(env, local, s)
        ensures HoldsNames(s, r)
      {
        StillCovers(env, local, before, lp, r, s);
      }
      Shrinks(local, before, r, lp[0].target);
      lp := CheckRemoval(env, local, r);
    }
  }

  lemma TargetIsKept(env: Env, local: seq<Pkg>, rem: seq<Pkg>, m: Missing)
    requires Complaint(env, local, rem, m)
    ensures Named(local, m.target) && !Named(rem, m.target)
  {
    var c := RemovalPlan(env, local, rem);
    var i, j :| 0 <= i < |c.kept| && 0 <= j < |c.kept[i].depends| && m in Judge(c, c.kept[i], c.kept[i].depends[j], true);
    assert c.kept[i] in c.kept;
    assert c.kept[i] in local;
  }

  lemma StillCovers(env: Env, local: seq<Pkg>, before: seq<Pkg>, lp: seq<Missing>, r: seq<Pkg>, s: seq<Pkg>)
    requires HoldsNames(s, before) && Harmless(env, local, s) && before <= r
    requires forall i :: 0 <= i < |lp| ==> Complaint(env, local, before, lp[i])
    requires forall i :: |before| <= i < |r| ==> Targets(lp, |lp|, r[i].name)
    ensures HoldsNames(s, r)
  {
    hide Harmless, Complaint;
    forall i | |before| <= i < |r|
      ensures Named(s, r[i].name)
    {
      var j :| 0 <= j < |lp| && lp[j].target == r[i].name;
      if !Named(s, lp[j].target) { StaysBroken(env, local, before, lp[j], s); }
    }
  }

  lemma Shrinks(local: seq<Pkg>, before: seq<Pkg>, r: seq<Pkg>, name: string)
    requires before <= r && Named(r, name) && !Named(before, name) && Named(local, name)
    ensures Remaining(local, r) < Remaining(local, before)
  {
    var i :| 0 <= i < |local| && local[i].name == name;
    assert local[i] in Remaining(local, before) && local[i] !in Remaining(local, r);
    forall p | p in Remaining(local, r)
      ensures p in Remaining(local, before)
    {
      NamedPrefix(before, r, p.name);
    }
  }

  // ----- keep what is needed

  /** An installed package of that name satisfies a dependency of a package that stays. */
  ghost predicate Needed(env: Env, local: seq<Pkg>, rem: seq<Pkg>, name: string) {
    exists p, k, j :: p in local && p.name == name && k in Kept(local, rem, []) && 0 <= j < |k.depends|
      && Satisfies(p, Relax(env, k.depends[j]))
  }

  lemma CauseIsNeeded(env: Env, local: seq<Pkg>, rem: seq<Pkg>, m: Missing)
    requires Complaint(env, local, rem, m)
    ensures m.causing.Some? && Named(rem, m.causing.value) && Needed(env, local, rem, m.causing.value)
  {
    hide Satisfies;
    var c := RemovalPlan(env, local, rem);
    var i, j :| 0 <= i < |c.kept| && 0 <= j < |c.kept[i].depends| && m in Judge(c, c.kept[i], c.kept[i].depends[j], true);
    var d := Relax(env, c.kept[i].depends[j]);
    var cause := FirstSatisfier(c.modified, d).value;
    assert cause in c.modified && c.kept[i] in c.kept;
    assert Named(rem, cause.name) || Named([], cause.name);
    assert cause in local && Satisfies(cause, d);
  }

  lemma StillNeeded(env: Env, local: seq<Pkg>, rem: seq<Pkg>, r: seq<Pkg>, name: string)
    requires Needed(env, local, rem, name) && forall p :: p in r ==> p in rem
    ensures Needed(env, local, r, name)
  {
    hide Satisfies;
    var p, k, j :| p in local && p.name == name && k in Kept(local, rem, []) && 0 <= j < |k.depends|
      && Satisfies(p, Relax(env, k.depends[j]));
    NamedSubset(r, rem, k.name);
    assert k in Kept(local, r, []);
  }

  /** One round: drops the package each complaint blames, if it is still listed. */
  method KeepRound(rem: seq<Pkg>, lp: seq<Missing>) returns (r: seq<Pkg>)
    requires forall i :: 0 <= i < |lp| ==> lp[i].causing.Some? && Named(rem, lp[i].causing.value)
    ensures forall p :: p in r ==> p in rem
    ensures forall p :: p in rem ==> p in r || Blamed(lp, p.name)
    ensures lp != [] ==> |r| < |rem|
    ensures UniqueNames(rem) ==> UniqueNames(r)
  {
    hide UniqueNames;
    r := rem;
    for i := 0 to |lp|
      invariant forall p :: p in r ==> p in rem
      invariant forall p :: p in rem ==> p in r || Blamed(lp, p.name)
      invariant i == 0 ==> r == rem
      invariant i > 0 ==> |r| < |rem|
      invariant UniqueNames(rem) ==> UniqueNames(r)
    {
      var pkg := PkgFind(r, lp[i].causing.value);
      if pkg.Some? {
        assert Blamed(lp, pkg.value.name);
        if UniqueNames(r) { DropUnique(r, pkg.value.name); }
        r := DropFirst(r, pkg.value.name);
      }
    }
  }

  predicate Blamed(lp: seq<Missing>, name: string) { exists j :: 0 <= j < |lp| && lp[j].causing == Some(name) }

  /** remove_prepare_keep_needed: ends with a harmless part of the list, and everything it
      dropped is needed by a package that stays. */
  method KeepNeeded(env: Env, local: seq<Pkg>, remove: seq<Pkg>) returns (r: seq<Pkg>)
    ensures Harmless(env, local, r)
    ensures forall p :: p in r ==> p in remove
    ensures forall p :: p in remove ==> p in r || Needed(env, local, r, p.name)
    ensures UniqueNames(remove) ==> UniqueNames(r)
  {
    hide Harmless, Complaint, Needed, UniqueNames;
    r := remove;
    var lp := CheckRemoval(env, local, r);
    while lp != []
      invariant lp == [] <==> Harmless(env, local, r)
      invariant forall i :: 0 <= i < |lp| ==> Complaint(env, local, r, lp[i])
      invariant forall p :: p in r ==> p in remove
      invariant forall p :: p in remove ==> p in r || Needed(env, local, r, p.name)
      invariant UniqueNames(remove) ==> UniqueNames(r)
      decreases |r|
    {
      forall i | 0 <= i < |lp|
        ensures lp[i].causing.Some? && Named(r, lp[i].causing.value) && Needed(env, local, r, lp[i].causing.value)
      {
        CauseIsNeeded(env, local, r, lp[i]);
      }
      ghost var before := r;
      r := KeepRound(r, lp);
      forall p | p in remove
        ensures p in r || Needed(env, local, r, p.name)
      {
        if p !in r { StillNeeded(env, local, before, r, p.name); }
      }
      lp := CheckRemoval(env, local, r);
    }
  }
}
