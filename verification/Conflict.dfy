/** Package conflicts (conflict.c): pairs found by their conflict fields, each pair once. */
module Conflict {
  import opened Text
  import opened Package
  import opened PkgLists

  datatype Conflict = Conflict(pkg1: Pkg, pkg2: Pkg, reason: Dep)

  /** pkg1 declares a conflict that pkg2 falls under. */
  predicate Clashes(pkg1: Pkg, pkg2: Pkg) {
    pkg1.name != pkg2.name && exists j :: 0 <= j < |pkg1.conflicts| && Satisfies(pkg2, pkg1.conflicts[j])
  }

  /** conflict_isin, by the names of the two packages. */
  predicate IsIn(name1: string, name2: string, bad: seq<Conflict>) {
    exists i :: 0 <= i < |bad| && bad[i].pkg1.name == name1 && bad[i].pkg2.name == name2
  }

  ghost predicate NoRepeats(bad: seq<Conflict>) {
    forall i, j :: 0 <= i < j < |bad| ==> !(bad[i].pkg1.name == bad[j].pkg1.name && bad[i].pkg2.name == bad[j].pkg2.name)
  }

  /** add_conflict */
  method AddConflict(bad: seq<Conflict>, pkg1: Pkg, pkg2: Pkg, reason: Dep) returns (r: seq<Conflict>)
    ensures bad <= r && IsIn(pkg1.name, pkg2.name, r)
    ensures forall i :: |bad| <= i < |r| ==> r[i] == Conflict(pkg1, pkg2, reason)
    ensures NoRepeats(bad) ==> NoRepeats(r)
  {
    if IsIn(pkg1.name, pkg2.name, bad) {
      return bad;
    }
    r := bad + [Conflict(pkg1, pkg2, reason)];
    assert r[|bad|].pkg1 == pkg1;
  }

  /** A recorded conflict is real: one package of list1 clashes with one of list2, and the pair
      is recorded in this order or, if swapped, in the other. */
  ghost predicate Genuine(c: Conflict, list1: seq<Pkg>, list2: seq<Pkg>, swapped: bool) {
    var (p, q) := if swapped then (c.pkg2, c.pkg1) else (c.pkg1, c.pkg2);
    p in list1 && q in list2 && Clashes(p, q) && c.reason in p.conflicts && Satisfies(q, c.reason)
  }

  ghost predicate Recorded(p: Pkg, q: Pkg, bad: seq<Conflict>, swapped: bool) {
    if swapped then IsIn(q.name, p.name, bad) else IsIn(p.name, q.name, bad)
  }

  lemma StaysRecorded(p: Pkg, q: Pkg, a: seq<Conflict>, b: seq<Conflict>, swapped: bool)
    requires a <= b && Recorded(p, q, a, swapped)
    ensures Recorded(p, q, b, swapped)
  {
    var (x, y) := if swapped then (q, p) else (p, q);
    var i :| 0 <= i < |a| && a[i].pkg1.name == x.name && a[i].pkg2.name == y.name;
    assert b[i] == a[i];
  }

  /** bad grew to b by genuine conflicts. */
  ghost predicate Extends(bad: seq<Conflict>, b: seq<Conflict>, list1: seq<Pkg>, list2: seq<Pkg>, swapped: bool) {
    && bad <= b && (NoRepeats(bad) ==> NoRepeats(b))
    && forall i :: |bad| <= i < |b| ==> Genuine(b[i], list1, list2, swapped)
  }

  /** The inner loop of check_conflict: one conflict field of pkg1 against list2. */
  method CheckOne(pkg1: Pkg, d: Dep, list1: seq<Pkg>, list2: seq<Pkg>, bad: seq<Conflict>, swapped: bool)
    returns (r: seq<Conflict>)
    requires pkg1 in list1 && d in pkg1.conflicts
    ensures Extends(bad, r, list1, list2, swapped)
    ensures forall q :: q in list2 && q.name != pkg1.name && Satisfies(q, d) ==> Recorded(pkg1, q, r, swapped)
  {
    hide Satisfies, IsIn, NoRepeats;
    r := bad;
    for k := 0 to |list2|
      invariant Extends(bad, r, list1, list2, swapped)
      invariant forall q :: q in list2[..k] && q.name != pkg1.name && Satisfies(q, d) ==> Recorded(pkg1, q, r, swapped)
    {
      var pkg2 := list2[k];
      if pkg1.name != pkg2.name && Satisfies(pkg2, d) {
        var before := r;
        if swapped {
          r := AddConflict(r, pkg2, pkg1, d);
        } else {
          r := AddConflict(r, pkg1, pkg2, d);
        }
        forall q | q in list2[..k] && q.name != pkg1.name && Satisfies(q, d)
          ensures Recorded(pkg1, q, r, swapped)
        {
          StaysRecorded(pkg1, q, before, r, swapped);
        }
        assert Clashes(pkg1, pkg2);
      }
    }
  }

  /** check_conflict: every clash of a package of list1 with one of list2 is recorded, and
      nothing else. */
  method CheckConflict(list1: seq<Pkg>, list2: seq<Pkg>, bad: seq<Conflict>, swapped: bool) returns (r: seq<Conflict>)
    ensures Extends(bad, r, list1, list2, swapped)
    ensures forall p, q :: p in list1 && q in list2 && Clashes(p, q) ==> Recorded(p, q, r, swapped)
  {
    hide Satisfies, Recorded, Genuine, NoRepeats;
    r := bad;
    for i := 0 to |list1|
      invariant Extends(bad, r, list1, list2, swapped)
      invariant forall p, q :: p in list1[..i] && q in list2 && Clashes(p, q) ==> Recorded(p, q, r, swapped)
    {
      var before := r;
      r := CheckPkgConflicts(list1[i], list1, list2, r, swapped);
      forall p, q | p in list1[..i] && q in list2 && Clashes(p, q)
        ensures Recorded(p, q, r, swapped)
      {
        StaysRecorded(p, q, before, r, swapped);
      }
    }
  }

  method CheckPkgConflicts(pkg1: Pkg, list1: seq<Pkg>, list2: seq<Pkg>, bad: seq<Conflict>, swapped: bool)
    returns (r: seq<Conflict>)
    requires pkg1 in list1
    ensures Extends(bad, r, list1, list2, swapped)
    ensures forall q :: q in list2 && Clashes(pkg1, q) ==> Recorded(pkg1, q, r, swapped)
  {
    hide Satisfies, Recorded, Genuine, NoRepeats;
    r := bad;
    for j := 0 to |pkg1.conflicts|
      invariant Extends(bad, r, list1, list2, swapped)
      invariant forall q, k :: q in list2 && q.name != pkg1.name && 0 <= k < j && Satisfies(q, pkg1.conflicts[k]) ==>
                  Recorded(pkg1, q, r, swapped)
    {
      var before := r;
      r := CheckOne(pkg1, pkg1.conflicts[j], list1, list2, r, swapped);
      forall q, k | q in list2 && q.name != pkg1.name && 0 <= k < j && Satisfies(q, pkg1.conflicts[k])
        ensures Recorded(pkg1, q, r, swapped)
      {
        StaysRecorded(pkg1, q, before, r, swapped);
      }
    }
  }

  /** _klpm_innerconflicts */
  method InnerConflicts(packages: seq<Pkg>) returns (bad: seq<Conflict>)
    ensures NoRepeats(bad)
    ensures forall i :: 0 <= i < |bad| ==> Genuine(bad[i], packages, packages, false)
    ensures forall p, q :: p in packages && q in packages && Clashes(p, q) ==> IsIn(p.name, q.name, bad)
  {
    hide Clashes, Genuine, IsIn;
    bad := CheckConflict(packages, packages, [], false);
  }

  /** Two packages clash in one direction or the other. */
  predicate Incompatible(p: Pkg, q: Pkg) { Clashes(p, q) || Clashes(q, p) }

  /** _klpm_outerconflicts: every incompatibility of a package with an installed package that
      it does not replace by name, the installed one second. */
  method OuterConflicts(local: seq<Pkg>, packages: seq<Pkg>) returns (bad: seq<Conflict>)
    requires UniqueNames(local)
    ensures NoRepeats(bad)
    ensures forall i :: 0 <= i < |bad| ==>
              && bad[i].pkg1 in packages && bad[i].pkg2 in local && !Named(packages, bad[i].pkg2.name)
              && Incompatible(bad[i].pkg1, bad[i].pkg2)
    ensures forall p, q :: p in packages && q in local && !Named(packages, q.name) && Incompatible(p, q) ==>
              IsIn(p.name, q.name, bad)
  {
    hide Clashes, Named, IsIn, NoRepeats, UniqueNames, Satisfies;
    var dblist := PkgDiff(local, packages);
    NoneRepeat();
    bad := CheckConflict(packages, dblist, [], false);
    var before := bad;
    bad := CheckConflict(dblist, packages, bad, true);
    forall p, q | p in packages && q in local && !Named(packages, q.name) && Clashes(p, q)
      ensures IsIn(p.name, q.name, bad)
    {
      assert Recorded(p, q, before, false);
      StaysRecorded(p, q, before, bad, false);
      assert Recorded(p, q, bad, false);
    }
  }

  lemma NoneRepeat()
    ensures NoRepeats([])
  {
  }
}
