/** Packages, dependencies and when one satisfies the other (deps.c). */
module Package {
  import opened Text
  import Version

  datatype Mod = Any | Eq | Ge | Le | Gt | Lt

  datatype Dep = Dep(name: string, mod: Mod, version: Option<string>, desc: Option<string>)

  datatype Reason = Explicit | Depend

  datatype Pkg = Pkg(name: string, version: string, reason: Reason, depends: seq<Dep>,
                     provisions: seq<Dep>, conflicts: seq<Dep>, filename: string)

  /** The sign of klpm_pkg_vercmp. */
  function VerCmp(a: Option<string>, b: Option<string>): int {
    if a.None? then (if b.None? then 0 else -1)
    else if b.None? then 1
    else Version.FullCompare(Version.FullKeyOf(a.value), Version.FullKeyOf(b.value))
  }

  predicate DepVerCmp(version1: Option<string>, mod: Mod, version2: Option<string>) {
    match mod
    case Any => true
    case Eq => VerCmp(version1, version2) == 0
    case Ge => VerCmp(version1, version2) >= 0
    case Le => VerCmp(version1, version2) <= 0
    case Lt => VerCmp(version1, version2) < 0
    case Gt => VerCmp(version1, version2) > 0
  }

  /** The comparators are those of one order: at least is newer or equal, at most is older or
      equal, exactly one of older, equal and newer holds, and older is newer the other way round. */
  lemma ComparatorLaws(v: Option<string>, w: Option<string>)
    ensures DepVerCmp(v, Any, w)
    ensures DepVerCmp(v, Ge, w) <==> DepVerCmp(v, Gt, w) || DepVerCmp(v, Eq, w)
    ensures DepVerCmp(v, Le, w) <==> DepVerCmp(v, Lt, w) || DepVerCmp(v, Eq, w)
    ensures DepVerCmp(v, Lt, w) || DepVerCmp(v, Eq, w) || DepVerCmp(v, Gt, w)
    ensures !(DepVerCmp(v, Lt, w) && DepVerCmp(v, Eq, w)) && !(DepVerCmp(v, Lt, w) && DepVerCmp(v, Gt, w))
    ensures !(DepVerCmp(v, Eq, w) && DepVerCmp(v, Gt, w))
    ensures DepVerCmp(v, Lt, w) <==> DepVerCmp(w, Gt, v)
    ensures DepVerCmp(v, Eq, w) <==> DepVerCmp(w, Eq, v)
  {
    if v.Some? && w.Some? {
      Version.FullCompareAntisymmetric(Version.FullKeyOf(v.value), Version.FullKeyOf(w.value));
    }
  }

  /** Comparing for a dependency goes by epoch, version and release. */
  lemma ComparatorByParts(v: string, w: string)
    ensures Version.ByParts(Version.ParseEvr(v), Version.ParseEvr(w), VerCmp(Some(v), Some(w)))
    ensures DepVerCmp(Some(v), Lt, Some(w)) <==> VerCmp(Some(v), Some(w)) < 0
  {
  }

  predicate DepCmpLiteral(pkg: Pkg, dep: Dep) {
    pkg.name == dep.name && DepVerCmp(Some(pkg.version), dep.mod, dep.version)
  }

  /** One provision covers the dependency; a version can only be covered by an exact one. */
  predicate Covers(provision: Dep, dep: Dep) {
    && provision.name == dep.name
    && (dep.mod.Any? || (provision.mod.Eq? && DepVerCmp(provision.version, dep.mod, dep.version)))
  }

  predicate DepCmpProvides(dep: Dep, provisions: seq<Dep>) {
    exists i :: 0 <= i < |provisions| && Covers(provisions[i], dep)
  }

  predicate Satisfies(pkg: Pkg, dep: Dep) {
    DepCmpLiteral(pkg, dep) || DepCmpProvides(dep, pkg.provisions)
  }

  predicate DependsOn(pkg1: Pkg, pkg2: Pkg) {
    exists i :: 0 <= i < |pkg1.depends| && Satisfies(pkg2, pkg1.depends[i])
  }

  /** _klpm_hash_sdbm on 64-bit words. */
  function Sdbm(s: string): (h: nat)
    ensures h < 0x1_0000_0000_0000_0000
  {
    if s == [] then 0
    else (s[|s| - 1] as int + Sdbm(s[..|s| - 1]) * 65599) % 0x1_0000_0000_0000_0000
  }

  function PkgCmp(p: Pkg, q: Pkg): int { StrCmp(p.name, q.name) }

  // ----- lists of packages, looked up by name

  /** klpm_pkg_find as a test. */
  predicate Named(pkgs: seq<Pkg>, name: string) { exists i :: 0 <= i < |pkgs| && pkgs[i].name == name }

  /** klpm_pkg_find */
  method PkgFind(pkgs: seq<Pkg>, name: string) returns (r: Option<Pkg>)
    ensures r.Some? <==> Named(pkgs, name)
    ensures r.Some? ==> r.value in pkgs && r.value.name == name
  {
    for i := 0 to |pkgs|
      invariant forall j :: 0 <= j < i ==> pkgs[j].name != name
    {
      if pkgs[i].name == name {
        return Some(pkgs[i]);
      }
    }
    return None;
  }

  lemma MemberNamed(pkgs: seq<Pkg>, p: Pkg)
    ensures p in pkgs ==> Named(pkgs, p.name)
  {
  }

  lemma NamedPrefix(a: seq<Pkg>, b: seq<Pkg>, name: string)
    requires a <= b
    ensures Named(a, name) ==> Named(b, name)
  {
    if Named(a, name) {
      var k :| 0 <= k < |a| && a[k].name == name;
      assert b[k].name == name;
    }
  }

  lemma NamedSubset(a: seq<Pkg>, b: seq<Pkg>, name: string)
    requires forall p :: p in a ==> p in b
    ensures Named(a, name) ==> Named(b, name)
  {
    if Named(a, name) {
      var i :| 0 <= i < |a| && a[i].name == name;
      assert a[i] in b;
    }
  }

  lemma NamedInBoth(a: seq<Pkg>, b: seq<Pkg>, name: string)
    ensures Named(a + b, name) <==> Named(a, name) || Named(b, name)
  {
    NamedPrefix(a, a + b, name);
    if Named(b, name) {
      var i :| 0 <= i < |b| && b[i].name == name;
      assert (a + b)[|a| + i] == b[i];
    }
  }

  ghost predicate PkgBefore(r: seq<Pkg>, a: Pkg, b: Pkg) { exists i, j :: 0 <= i < j < |r| && r[i] == a && r[j] == b }

  ghost predicate SameMembers(a: seq<Pkg>, b: seq<Pkg>) { forall p :: p in a <==> p in b }

  lemma SameNamed(a: seq<Pkg>, b: seq<Pkg>, name: string)
    requires SameMembers(a, b)
    ensures Named(a, name) <==> Named(b, name)
  {
    NamedSubset(a, b, name);
    NamedSubset(b, a, name);
  }

  /** klpm_list_remove by name: drops the first package of that name. */
  function DropFirst(pkgs: seq<Pkg>, name: string): (r: seq<Pkg>)
    ensures |r| == if Named(pkgs, name) then |pkgs| - 1 else |pkgs|
    ensures forall p :: p in r ==> p in pkgs
    ensures forall p :: p in pkgs && p.name != name ==> p in r
  {
    if pkgs == [] then []
    else if pkgs[0].name == name then pkgs[1..]
    else
      assert Named(pkgs, name) <==> Named(pkgs[1..], name) by {
        if Named(pkgs, name) {
          var i :| 0 <= i < |pkgs| && pkgs[i].name == name;
          assert pkgs[1..][i - 1].name == name;
        }
      }
      [pkgs[0]] + DropFirst(pkgs[1..], name)
  }

  ghost predicate UniqueNames(pkgs: seq<Pkg>) {
    forall i, j :: 0 <= i < j < |pkgs| ==> pkgs[i].name != pkgs[j].name
  }

  lemma {:induction false} DropUnique(pkgs: seq<Pkg>, name: string)
    requires UniqueNames(pkgs)
    ensures UniqueNames(DropFirst(pkgs, name))
    ensures forall p :: p in DropFirst(pkgs, name) <==> p in pkgs && p.name != name
    decreases |pkgs|
  {
    if pkgs != [] && pkgs[0].name != name {
      DropUnique(pkgs[1..], name);
      var d := DropFirst(pkgs[1..], name);
      forall i | 0 <= i < |d|
        ensures d[i].name != pkgs[0].name
      {
        assert d[i] in pkgs[1..];
      }
    }
  }
}
