/** Hook targets (hook.c): splitting matched paths by what happens to them, and feeding the
    targets to the hook through buffers of any size. */
module Hook {
  import opened Text
  import opened Lists
  import opened KlpmList
  import LineReader

  // ----- strings in byte order

  ghost predicate InOrder(s: seq<string>) { forall i, j :: 0 <= i < j < |s| ==> StrCmp(s[i], s[j]) <= 0 }

  ghost function Data(ns: seq<Node<string>>): (r: seq<string>)
    ensures |r| == |ns| && forall i :: 0 <= i < |r| ==> r[i] == ns[i].data
  {
    seq(|ns|, i requires 0 <= i < |ns| => ns[i].data)
  }

  lemma ByteOrder()
    ensures TotalComparison(StrCmp)
  {
    forall x, y ensures StrCmp(x, y) <= 0 || StrCmp(y, x) <= 0 { StrCmpAntisymmetric(x, y); }
    forall x, y, z | StrCmp(x, y) <= 0 && StrCmp(y, z) <= 0 ensures StrCmp(x, z) <= 0 { StrCmpTransitive(x, y, z); }
  }

  /** The elements of s that are not in t. */
  function Without(s: seq<string>, t: seq<string>): seq<string> {
    if s == [] then []
    else Without(s[..|s| - 1], t) + if s[|s| - 1] in t then [] else [s[|s| - 1]]
  }

  lemma WithoutStep(s: seq<string>, t: seq<string>, i: nat)
    requires i < |s|
    ensures Without(s[..i + 1], t) == Without(s[..i], t) + if s[i] in t then [] else [s[i]]
  {
    assert s[..i + 1][..i] == s[..i];
  }

  lemma {:induction false} WithoutRun(s: seq<string>, t: seq<string>, i: nat, j: nat, x: string)
    requires i <= j <= |s| && (forall k :: i <= k < j ==> s[k] == x) && x in t
    ensures Without(s[..j], t) == Without(s[..i], t)
    decreases j
  {
    if i < j {
      WithoutRun(s, t, i, j - 1, x);
      WithoutStep(s, t, j - 1);
    }
  }

  lemma {:induction false} WithoutRest(s: seq<string>, t: seq<string>, i: nat)
    requires i <= |s| && forall k :: i <= k < |s| ==> s[k] !in t
    ensures Without(s, t) == Without(s[..i], t) + s[i..]
    decreases |s| - i
  {
    if i == |s| {
      assert s[..i] == s;
    } else {
      WithoutRest(s, t, i + 1);
      WithoutStep(s, t, i);
    }
  }

  // ----- where the merge stands

  /** Everything passed in one list is below everything left in the other. */
  ghost predicate Apart2(a: seq<string>, p: nat, b: seq<string>, q: nat)
    requires p <= |a| && q <= |b|
  {
    forall i, j :: 0 <= i < p && q <= j < |b| ==> StrCmp(a[i], b[j]) < 0
  }

  /** The paths passed in both lists, each once, in order. */
  ghost predicate Common(a: seq<string>, p: nat, b: seq<string>, q: nat, up: seq<string>)
    requires p <= |a| && q <= |b|
  {
    && Ascending(up)
    && (forall x :: x in up <==> x in a[..p] && x in b[..q])
    && (forall i, j :: 0 <= i < |up| && p <= j < |a| ==> StrCmp(up[i], a[j]) < 0)
  }

  ghost predicate Mid(a: seq<string>, p: nat, b: seq<string>, q: nat, up: seq<string>) {
    && p <= |a| && q <= |b| && InOrder(a) && InOrder(b)
    && Apart2(a, p, b, q) && Apart2(b, q, a, p) && Common(a, p, b, q, up)
  }

  lemma Lt(x: string, y: string, z: string)
    ensures StrCmp(x, y) == -StrCmp(y, x) && (StrCmp(x, y) == 0 <==> x == y)
    ensures StrCmp(x, y) < 0 && StrCmp(y, z) <= 0 ==> StrCmp(x, z) < 0
    ensures StrCmp(x, y) <= 0 && StrCmp(y, z) < 0 ==> StrCmp(x, z) < 0
  {
    hide StrCmp;
    StrCmpAntisymmetric(x, y);
    StrCmpZero(x, y);
    if StrCmp(x, y) <= 0 && StrCmp(y, z) <= 0 { StrCmpTransitive(x, y, z); }
  }

  /** An element below everything left in the other list is not in that list. */
  lemma Absent(a: seq<string>, p: nat, b: seq<string>, q: nat)
    requires InOrder(a) && InOrder(b) && p < |a| && q <= |b| && Apart2(b, q, a, p)
    requires q < |b| ==> StrCmp(a[p], b[q]) < 0
    ensures a[p] !in b
  {
    hide StrCmp;
    forall j | 0 <= j < |b| ensures b[j] != a[p] {
      Lt(b[j], a[p], a[p]);
      if j >= q {
        if j > q { assert StrCmp(b[q], b[j]) <= 0; } else { Lt(b[q], b[q], b[q]); }
        Lt(a[p], b[q], b[j]);
        Lt(a[p], b[j], b[j]);
      }
    }
  }

  /** Passing the smaller head of the second list. */
  lemma PassSecond(a: seq<string>, p: nat, b: seq<string>, q: nat, up: seq<string>)
    requires Mid(a, p, b, q, up) && p < |a| && q < |b| && StrCmp(a[p], b[q]) > 0
    ensures Mid(a, p, b, q + 1, up) && b[q] !in a
  {
    hide StrCmp;
    Lt(a[p], b[q], b[q]);
    Absent(b, q, a, p);
    Below(b, q, a, p);
    Grow(b, q);
  }

  /** Passing the smaller head of the first list. */
  lemma PassFirst(a: seq<string>, p: nat, b: seq<string>, q: nat, up: seq<string>)
    requires Mid(a, p, b, q, up) && p < |a| && (q < |b| ==> StrCmp(a[p], b[q]) < 0)
    ensures Mid(a, p + 1, b, q, up) && a[p] !in b
  {
    hide StrCmp;
    Absent(a, p, b, q);
    if q < |b| { Below(a, p, b, q); }
    Grow(a, p);
  }

  lemma Grow(s: seq<string>, i: nat)
    requires i < |s|
    ensures forall x :: x in s[..i + 1] <==> x in s[..i] || x == s[i]
  {
    assert s[..i + 1] == s[..i] + [s[i]];
  }

  lemma Below(a: seq<string>, p: nat, b: seq<string>, q: nat)
    requires InOrder(b) && p < |a| && q < |b| && StrCmp(a[p], b[q]) < 0
    ensures forall j :: q <= j < |b| ==> StrCmp(a[p], b[j]) < 0
  {
    hide StrCmp;
    forall j | q <= j < |b| ensures StrCmp(a[p], b[j]) < 0 {
      if j > q { assert StrCmp(b[q], b[j]) <= 0; Lt(a[p], b[q], b[j]); }
    }
  }

  /** s[i..j] is all of the run of x that starts at i. */
  ghost predicate Run(s: seq<string>, i: nat, j: nat, x: string)
    ensures Run(s, i, j, x) ==> i <= j <= |s|
  {
    i <= j <= |s| && (forall k :: i <= k < j ==> s[k] == x) && (j < |s| ==> s[j] != x)
  }

  /** After a run of x in an ordered list everything is above x. */
  lemma AfterRun(s: seq<string>, i: nat, j: nat, x: string)
    requires InOrder(s) && i < |s| && s[i] == x && Run(s, i, j, x)
    ensures i < j && forall k :: j <= k < |s| ==> StrCmp(x, s[k]) < 0
    ensures forall y :: y in s[..j] <==> y in s[..i] || y == x
  {
    hide StrCmp;
    forall k | j <= k < |s| ensures StrCmp(x, s[k]) < 0 {
      assert StrCmp(s[i], s[j]) <= 0;
      Lt(x, s[j], s[k]);
      if k > j { assert StrCmp(s[j], s[k]) <= 0; }
    }
    assert s[..j] == s[..i] + s[i..j];
    assert s[i..j][0] == x;
  }

  /** Passing a path that is in both lists, with all its repetitions. */
  lemma PassBoth(a: seq<string>, p: nat, p': nat, b: seq<string>, q: nat, q': nat, up: seq<string>, x: string)
    requires Mid(a, p, b, q, up) && p < |a| && q < |b| && a[p] == b[q] == x
    requires Run(a, p, p', x) && Run(b, q, q', x)
    ensures Mid(a, p', b, q', up + [x])
    ensures Without(a[..p'], b) == Without(a[..p], b) && Without(b[..q'], a) == Without(b[..q], a)
  {
    hide StrCmp, Apart2, Common, InOrder, Without, Run;
    AfterRun(a, p, p', x);
    AfterRun(b, q, q', x);
    RunDrops(a, b, p, p', x);
    RunDrops(b, a, q, q', x);
    ApartAfter(a, p, p', b, q, q', x);
    ApartAfter(b, q, q', a, p, p', x);
    NotPassed(a, p, b, q);
    NotPassed(b, q, a, p);
    CommonAfter(a, p, p', b, q, q', up, x);
  }

  lemma RunDrops(s: seq<string>, t: seq<string>, i: nat, j: nat, x: string)
    requires Run(s, i, j, x) && x in t
    ensures Without(s[..j], t) == Without(s[..i], t)
  {
    WithoutRun(s, t, i, j, x);
  }

  lemma NotPassed(a: seq<string>, p: nat, b: seq<string>, q: nat)
    requires p <= |a| && q < |b| && Apart2(a, p, b, q)
    ensures b[q] !in a[..p]
  {
    hide StrCmp;
    forall i | 0 <= i < p ensures a[i] != b[q] { Lt(a[i], b[q], b[q]); }
  }

  lemma ApartAfter(a: seq<string>, p: nat, p': nat, b: seq<string>, q: nat, q': nat, x: string)
    requires p <= p' <= |a| && q <= q' <= |b| && Apart2(a, p, b, q)
    requires Run(a, p, p', x) && forall k :: q' <= k < |b| ==> StrCmp(x, b[k]) < 0
    ensures Apart2(a, p', b, q')
  {
    hide StrCmp;
  }

  lemma CommonAfter(a: seq<string>, p: nat, p': nat, b: seq<string>, q: nat, q': nat, up: seq<string>, x: string)
    requires p <= |a| && q <= |b| && Common(a, p, b, q, up) && p < p' <= |a| && q <= q' <= |b| && a[p] == x
    requires forall y :: y in a[..p'] <==> y in a[..p] || y == x
    requires forall y :: y in b[..q'] <==> y in b[..q] || y == x
    requires x !in a[..p] && x !in b[..q]
    requires forall k :: p' <= k < |a| ==> StrCmp(x, a[k]) < 0
    ensures Common(a, p', b, q', up + [x])
  {
    hide StrCmp;
  }

  /** At the end of the merge, what was left over is in one list only. */
  lemma Finished(a: seq<string>, p: nat, b: seq<string>, q: nat, up: seq<string>)
    requires Mid(a, p, b, q, up) && (p == |a| || q == |b|)
    ensures Without(a[..p], b) + a[p..] == Without(a, b) && Without(b[..q], a) + b[q..] == Without(b, a)
    ensures Ascending(up) && forall x :: x in up <==> x in a && x in b
  {
    hide StrCmp, Without, Common;
    LeftOver(a, p, b, q);
    LeftOver(b, q, a, p);
    CommonAll(a, p, b, q, up);
  }

  lemma LeftOver(a: seq<string>, p: nat, b: seq<string>, q: nat)
    requires p <= |a| && q <= |b| && Apart2(b, q, a, p) && (p < |a| ==> q == |b|)
    ensures Without(a[..p], b) + a[p..] == Without(a, b) && forall x :: x in a[p..] ==> x !in b
  {
    hide StrCmp, Without;
    forall k | p <= k < |a| ensures a[k] !in b {
      NotPassed(b, q, a, k);
      assert b[..q] == b;
    }
    WithoutRest(a, b, p);
  }

  lemma CommonAll(a: seq<string>, p: nat, b: seq<string>, q: nat, up: seq<string>)
    requires p <= |a| && q <= |b| && Common(a, p, b, q, up)
    requires (forall x :: x in a[p..] ==> x !in b) && (forall x :: x in b[q..] ==> x !in a)
    ensures Ascending(up) && forall x :: x in up <==> x in a && x in b
  {
    hide StrCmp;
    assert a == a[..p] + a[p..] && b == b[..q] + b[q..];
  }

  // ----- the merge on the linked lists

  /** A cursor into a list: the node number k, or the end. */
  ghost predicate At(head: Node?<string>, ns: seq<Node<string>>, i: Node?<string>, k: nat)
    reads ns
    ensures At(head, ns, i, k) ==> IsList(head, ns) && k <= |ns| && i == if k < |ns| then ns[k] else null
  {
    IsList(head, ns) && k <= |ns| && i == if k < |ns| then ns[k] else null
  }

  method Advance(head: Node?<string>, i: Node<string>, ghost ns: seq<Node<string>>, ghost k: nat) returns (next: Node?<string>)
    requires At(head, ns, i, k) && k < |ns|
    ensures At(head, ns, next, k + 1)
  {
    next := i.next;
  }

  /** Unlinks the node under the cursor. */
  method Unlink(head0: Node?<string>, i: Node<string>, ghost ns: seq<Node<string>>, ghost k: nat)
    returns (head: Node?<string>, next: Node?<string>)
    requires At(head0, ns, i, k) && k < |ns|
    modifies ns
    ensures At(head, ns[..k] + ns[k + 1..], next, k)
  {
    hide IsList;
    next := Advance(head0, i, ns, k);
    head := RemoveItem(head0, i, ns, k);
  }

  /** Unlinks the run of a path under the cursor. */
  method DropRun(head0: Node?<string>, i0: Node?<string>, path: string, ghost ns: seq<Node<string>>, ghost k: nat)
    returns (head: Node?<string>, i: Node?<string>, ghost n: nat)
    requires At(head0, ns, i0, k)
    modifies ns
    ensures k + n <= |ns| && Run(Data(ns), k, k + n, path) && At(head, ns[..k] + ns[k + n..], i, k)
  {
    hide IsList, At, StrCmp, Data;
    head, i, n := head0, i0, 0;
    assert ns[..k] + ns[k..] == ns;
    while i != null && StrCmp(i.data, path) == 0
      invariant k + n <= |ns| && At(head, ns[..k] + ns[k + n..], i, k)
      invariant forall m :: k <= m < k + n ==> ns[m].data == path
      decreases |ns| - n
    {
      ghost var rest := ns[..k] + ns[k + n..];
      CutOne(ns, k, n);
      StrCmpZero(i.data, path);
      head, i := Unlink(head, i, rest, k);
      n := n + 1;
    }
    if i != null {
      CutOne(ns, k, n);
      StrCmpZero(i.data, path);
    }
  }

  lemma CutOne(ns: seq<Node<string>>, k: nat, n: nat)
    requires k + n < |ns|
    ensures var rest := ns[..k] + ns[k + n..]; rest[..k] + rest[k + 1..] == ns[..k] + ns[k + n + 1..] && rest[k] == ns[k + n]
  {
  }

  /** The list holds what the merge kept of s so far, then the rest of s from p on. */
  ghost predicate Holds(ns: seq<Node<string>>, k: nat, s: seq<string>, p: nat, t: seq<string>)
    ensures Holds(ns, k, s, p, t) ==> p <= |s|
  {
    p <= |s| && Data(ns) == Without(s[..p], t) + s[p..] && k == |Without(s[..p], t)|
  }

  lemma HoldsAll(ns: seq<Node<string>>, t: seq<string>)
    ensures Holds(ns, 0, Data(ns), 0, t)
  {
    hide Data;
    var s := Data(ns);
    assert s[..0] == [] && [] + s[0..] == s;
  }

  lemma HoldsHead(ns: seq<Node<string>>, k: nat, s: seq<string>, p: nat, t: seq<string>)
    requires Holds(ns, k, s, p, t)
    ensures k <= |ns| && (k < |ns| <==> p < |s|) && (k < |ns| ==> ns[k].data == s[p])
  {
    hide Without;
    if k < |ns| {
      assert ns[k].data == Data(ns)[k];
    }
  }

  lemma HoldsPass(ns: seq<Node<string>>, k: nat, s: seq<string>, p: nat, t: seq<string>)
    requires Holds(ns, k, s, p, t) && p < |s| && s[p] !in t
    ensures Holds(ns, k + 1, s, p + 1, t)
  {
    hide Without, Data;
    WithoutStep(s, t, p);
    assert s[p..] == [s[p]] + s[p + 1..];
  }

  lemma HoldsDrop(ns: seq<Node<string>>, k: nat, n: nat, s: seq<string>, p: nat, t: seq<string>, x: string)
    requires Holds(ns, k, s, p, t) && p < |s| && s[p] == x && x in t && k + n <= |ns| && Run(Data(ns), k, k + n, x)
    ensures Holds(ns[..k] + ns[k + n..], k, s, p + n, t) && Run(s, p, p + n, x)
  {
    hide Without, Data;
    var d, w := Data(ns), Without(s[..p], t);
    TailOf(w, s, p);
    RunMoves(d, k, s, p, n, x);
    RunDrops(s, t, p, p + n, x);
    Splice(ns, k, n);
    assert d[k + n..] == d[k..][n..] && s[p + n..] == s[p..][n..];
    assert d[..k] == w;
  }

  lemma TailOf(w: seq<string>, s: seq<string>, p: nat)
    requires p <= |s|
    ensures (w + s[p..])[|w|..] == s[p..] && (w + s[p..])[..|w|] == w
  {
  }

  lemma RunMoves(d: seq<string>, k: nat, s: seq<string>, p: nat, n: nat, x: string)
    requires k <= |d| && p <= |s| && d[k..] == s[p..] && Run(d, k, k + n, x)
    ensures Run(s, p, p + n, x)
  {
    assert |d| - k == |s| - p;
    forall i | p <= i < p + n ensures s[i] == x {
      assert s[p..][i - p] == d[k..][i - p];
      assert d[k + (i - p)] == x;
    }
    if p + n < |s| {
      assert s[p..][n] == d[k..][n];
    }
  }

  lemma Splice(ns: seq<Node<string>>, k: nat, n: nat)
    requires k + n <= |ns|
    ensures Data(ns[..k] + ns[k + n..]) == Data(ns)[..k] + Data(ns)[k + n..]
  {
  }

  /** The merge of _klpm_hook_trigger_match_file: what is left of the lists is what is in one
      of them only, repetitions included; the paths in both are listed once each. */
  method Partition(install0: Node?<string>, remove0: Node?<string>, ghost ns0: seq<Node<string>>, ghost ms0: seq<Node<string>>)
    returns (install: Node?<string>, upgrade: seq<string>, remove: Node?<string>, ghost ns: seq<Node<string>>, ghost ms: seq<Node<string>>)
    requires IsList(install0, ns0) && IsList(remove0, ms0) && Apart(ns0, ms0)
    requires InOrder(Data(ns0)) && InOrder(Data(ms0))
    modifies ns0, ms0
    ensures IsList(install, ns) && IsList(remove, ms) && Within(ns, ns0) && Within(ms, ms0)
    ensures Data(ns) == Without(Data(ns0), Data(ms0)) && Data(ms) == Without(Data(ms0), Data(ns0))
    ensures Ascending(upgrade) && forall x :: x in upgrade <==> x in Data(ns0) && x in Data(ms0)
  {
    hide At, IsList, StrCmp, Without, Data, Mid, Holds, Apart, Run;
    ghost var a, b := Data(ns0), Data(ms0);
    ghost var k: nat, p: nat, l: nat, q: nat := 0, 0, 0, 0;
    install, remove, upgrade := install0, remove0, [];
    ns, ms := ns0, ms0;
    var i, j := install, remove;
    Begin(a, b);
    HoldsAll(ns, b);
    HoldsAll(ms, a);
    Heads(install, ns);
    Heads(remove, ms);
    while i != null
      invariant At(install, ns, i, k) && At(remove, ms, j, l) && Within(ns, ns0) && Within(ms, ms0)
      invariant Holds(ns, k, a, p, b) && Holds(ms, l, b, q, a) && Mid(a, p, b, q, upgrade)
      decreases |a| - p
    {
      HoldsHead(ns, k, a, p, b);
      j, l, q := SkipBelow(i.data, remove, j, ms, l, a, p, b, q, upgrade);
      HoldsHead(ms, l, b, q, a);
      if j == null {
        break;
      }
      StrCmpZero(i.data, j.data);
      if StrCmp(i.data, j.data) == 0 {
        upgrade := upgrade + [i.data];
        KeepApart(ns, ns0, ms, ms0);
        install, i, remove, j, ns, ms, p, q := PassEqual(install, i, remove, j, i.data, ns, k, ms, l, a, p, b, q, upgrade);
      } else {
        PassFirst(a, p, b, q, upgrade);
        HoldsPass(ns, k, a, p, b);
        i := Advance(install, i, ns, k);
        k, p := k + 1, p + 1;
      }
    }
    HoldsHead(ns, k, a, p, b);
    HoldsHead(ms, l, b, q, a);
    Finished(a, p, b, q, upgrade);
    Done(ns, k, a, p, b);
    Done(ms, l, b, q, a);
  }

  /** The two inner loops that unlink a path from both lists. */
  method PassEqual(install0: Node?<string>, i0: Node?<string>, remove0: Node?<string>, j0: Node?<string>, path: string,
                   ghost ns0: seq<Node<string>>, ghost k: nat, ghost ms0: seq<Node<string>>, ghost l: nat,
                   ghost a: seq<string>, ghost p0: nat, ghost b: seq<string>, ghost q0: nat, ghost up: seq<string>)
    returns (install: Node?<string>, i: Node?<string>, remove: Node?<string>, j: Node?<string>,
             ghost ns: seq<Node<string>>, ghost ms: seq<Node<string>>, ghost p: nat, ghost q: nat)
    requires At(install0, ns0, i0, k) && At(remove0, ms0, j0, l) && Apart(ns0, ms0)
    requires Holds(ns0, k, a, p0, b) && Holds(ms0, l, b, q0, a)
    requires up != [] && Mid(a, p0, b, q0, up[..|up| - 1]) && up[|up| - 1] == path
    requires p0 < |a| && q0 < |b| && a[p0] == b[q0] == path
    modifies ns0, ms0
    ensures At(install, ns, i, k) && At(remove, ms, j, l) && Within(ns, ns0) && Within(ms, ms0)
    ensures Holds(ns, k, a, p, b) && Holds(ms, l, b, q, a) && Mid(a, p, b, q, up) && p > p0
  {
    hide At, IsList, StrCmp, Without, Data, Mid, Holds, Apart, Run;
    ghost var n, m;
    install, i, remove, j, n, m := DropBoth(install0, i0, remove0, j0, path, ns0, k, ms0, l);
    HoldsDrop(ns0, k, n, a, p0, b, path);
    HoldsDrop(ms0, l, m, b, q0, a, path);
    PassBoth(a, p0, p0 + n, b, q0, q0 + m, up[..|up| - 1], path);
    assert up[..|up| - 1] + [path] == up;
    AfterRunMoves(a, p0, n, path);
    ns, ms, p, q := ns0[..k] + ns0[k + n..], ms0[..l] + ms0[l + m..], p0 + n, q0 + m;
  }

  method DropBoth(install0: Node?<string>, i0: Node?<string>, remove0: Node?<string>, j0: Node?<string>, path: string,
                  ghost ns: seq<Node<string>>, ghost k: nat, ghost ms: seq<Node<string>>, ghost l: nat)
    returns (install: Node?<string>, i: Node?<string>, remove: Node?<string>, j: Node?<string>, ghost n: nat, ghost m: nat)
    requires At(install0, ns, i0, k) && At(remove0, ms, j0, l) && Apart(ns, ms)
    modifies ns, ms
    ensures k + n <= |ns| && Run(Data(ns), k, k + n, path) && At(install, ns[..k] + ns[k + n..], i, k)
    ensures l + m <= |ms| && Run(Data(ms), l, l + m, path) && At(remove, ms[..l] + ms[l + m..], j, l)
  {
    hide Run, Data;
    install, i, n := DropRun(install0, i0, path, ns, k);
    assert Apart(ns[..k] + ns[k + n..], ms);
    remove, j, m := DropRun(remove0, j0, path, ms, l);
  }

  ghost predicate Within(ns: seq<Node<string>>, ms: seq<Node<string>>) { forall i :: 0 <= i < |ns| ==> ns[i] in ms }

  lemma KeepApart(ns: seq<Node<string>>, ns0: seq<Node<string>>, ms: seq<Node<string>>, ms0: seq<Node<string>>)
    requires Within(ns, ns0) && Within(ms, ms0) && Apart(ns0, ms0)
    ensures Apart(ns, ms)
  {
    forall i, j | 0 <= i < |ns| && 0 <= j < |ms| ensures ns[i] != ms[j] {
      var x :| 0 <= x < |ns0| && ns0[x] == ns[i];
      var y :| 0 <= y < |ms0| && ms0[y] == ms[j];
    }
  }

  lemma Begin(a: seq<string>, b: seq<string>)
    requires InOrder(a) && InOrder(b)
    ensures Mid(a, 0, b, 0, [])
  {
  }

  lemma Heads(head: Node?<string>, ns: seq<Node<string>>)
    requires IsList(head, ns)
    ensures At(head, ns, head, 0)
  {
  }

  lemma AfterRunMoves(s: seq<string>, p: nat, n: nat, x: string)
    requires p < |s| && s[p] == x && Run(s, p, p + n, x)
    ensures n > 0
  {
  }

  lemma Done(ns: seq<Node<string>>, k: nat, s: seq<string>, p: nat, t: seq<string>)
    requires Holds(ns, k, s, p, t)
    ensures Data(ns) == Without(s[..p], t) + s[p..]
  {
  }

  /** The inner loop that passes the smaller paths of the other list. */
  method SkipBelow(path: string, head: Node?<string>, j0: Node?<string>, ghost ms: seq<Node<string>>, ghost l0: nat,
                   ghost a: seq<string>, ghost p: nat, ghost b: seq<string>, ghost q0: nat, ghost up: seq<string>)
    returns (j: Node?<string>, ghost l: nat, ghost q: nat)
    requires At(head, ms, j0, l0) && Holds(ms, l0, b, q0, a) && Mid(a, p, b, q0, up) && p < |a| && a[p] == path
    ensures At(head, ms, j, l) && Holds(ms, l, b, q, a) && Mid(a, p, b, q, up)
    ensures j != null ==> StrCmp(path, j.data) <= 0
  {
    hide IsList, StrCmp, Without, Data, Mid, Holds;
    j, l, q := j0, l0, q0;
    while j != null && StrCmp(path, j.data) > 0
      invariant At(head, ms, j, l) && Holds(ms, l, b, q, a) && Mid(a, p, b, q, up)
      decreases |b| - q
    {
      HoldsHead(ms, l, b, q, a);
      PassSecond(a, p, b, q, up);
      HoldsPass(ms, l, b, q, a);
      j := Advance(head, j, ms, l);
      l, q := l + 1, q + 1;
    }
  }

  // ----- from two lists of matches to their parts

  lemma SortedInOrder(ns: seq<Node<string>>)
    ensures var s := MergeSort(ns, NodeLe(StrCmp)); InOrder(Data(s)) && multiset(s) == multiset(ns) && Within(s, ns) && |s| == |ns|
  {
    hide StrCmp, Data;
    ByteOrder();
    SortedNodes(ns, StrCmp);
    var s := MergeSort(ns, NodeLe(StrCmp));
    Permuted(ns, s);
    assert |multiset(s)| == |s| && |multiset(ns)| == |ns|;
    forall i, j | 0 <= i < j < |s| ensures StrCmp(Data(s)[i], Data(s)[j]) <= 0 {
      assert NodeLe(StrCmp)(s[i], s[j]);
    }
  }

  lemma SortedSameData(ns: seq<Node<string>>, s: seq<Node<string>>)
    requires multiset(s) == multiset(ns)
    ensures forall x :: x in Data(s) <==> x in Data(ns)
  {
    DataSubset(s, ns);
    DataSubset(ns, s);
  }

  lemma DataSubset(s: seq<Node<string>>, ns: seq<Node<string>>)
    requires multiset(s) == multiset(ns)
    ensures forall x :: x in Data(s) ==> x in Data(ns)
  {
    Permuted(ns, s);
    forall x | x in Data(s) ensures x in Data(ns) {
      var i :| 0 <= i < |s| && Data(s)[i] == x;
      assert s[i] in ns;
      var j :| 0 <= j < |ns| && ns[j] == s[i];
      assert Data(ns)[j] == x;
    }
  }

  /** Sorting and splitting: a path is in exactly one of the three results, and it is in the
      one for what was matched: to be installed only, removed only, or both. */
  method SplitMatches(install0: Node?<string>, isize: nat, remove0: Node?<string>, rsize: nat,
                      ghost ns0: seq<Node<string>>, ghost ms0: seq<Node<string>>)
    returns (install: Node?<string>, upgrade: seq<string>, remove: Node?<string>, ghost ns: seq<Node<string>>, ghost ms: seq<Node<string>>)
    requires IsList(install0, ns0) && IsList(remove0, ms0) && Apart(ns0, ms0) && isize == |ns0| && rsize == |ms0|
    modifies ns0, ms0
    ensures IsList(install, ns) && IsList(remove, ms)
    ensures forall x :: x in Data(ns) <==> x in Data(ns0) && x !in Data(ms0)
    ensures forall x :: x in Data(ms) <==> x in Data(ms0) && x !in Data(ns0)
    ensures forall x :: x in upgrade <==> x in Data(ns0) && x in Data(ms0)
    ensures InOrder(Data(ns)) && InOrder(Data(ms)) && Ascending(upgrade)
  {
    hide IsList, Data, StrCmp, Without, InOrder, Ascending;
    ghost var a, b := MergeSort(ns0, NodeLe(StrCmp)), MergeSort(ms0, NodeLe(StrCmp));
    SortedInOrder(ns0);
    SortedInOrder(ms0);
    install, remove := SortBoth(install0, isize, remove0, rsize, ns0, ms0);
    KeepApart(a, ns0, b, ms0);
    SortedSameData(ns0, a);
    SortedSameData(ms0, b);
    install, upgrade, remove, ns, ms := Partition(install, remove, a, b);
    WithoutMembers(Data(a), Data(b));
    WithoutMembers(Data(b), Data(a));
    WithoutInOrder(Data(a), Data(b));
    WithoutInOrder(Data(b), Data(a));
  }

  method SortBoth(install0: Node?<string>, isize: nat, remove0: Node?<string>, rsize: nat,
                  ghost ns: seq<Node<string>>, ghost ms: seq<Node<string>>)
    returns (install: Node?<string>, remove: Node?<string>)
    requires IsList(install0, ns) && IsList(remove0, ms) && Apart(ns, ms) && isize == |ns| && rsize == |ms|
    modifies ns, ms
    ensures IsList(install, MergeSort(ns, NodeLe(StrCmp))) && IsList(remove, MergeSort(ms, NodeLe(StrCmp)))
  {
    hide MergeSort, StrCmp;
    ghost var a := MergeSort(ns, NodeLe(StrCmp));
    MergeSortPermutes(ns, NodeLe(StrCmp));
    Permuted(ns, a);
    install := MSort(install0, isize, StrCmp, ns);
    assert Apart(a, ms);
    remove := MSort(remove0, rsize, StrCmp, ms);
  }

  lemma {:induction false} WithoutMembers(s: seq<string>, t: seq<string>)
    ensures forall x :: x in Without(s, t) <==> x in s && x !in t
    decreases |s|
  {
    if s != [] {
      WithoutMembers(s[..|s| - 1], t);
      assert s == s[..|s| - 1] + [s[|s| - 1]];
    }
  }

  lemma {:induction false} WithoutInOrder(s: seq<string>, t: seq<string>)
    requires InOrder(s)
    ensures InOrder(Without(s, t))
    decreases |s|
  {
    hide StrCmp;
    if s != [] {
      var n := |s| - 1;
      var w := Without(s[..n], t);
      WithoutInOrder(s[..n], t);
      WithoutMembers(s[..n], t);
      forall i | 0 <= i < |w| ensures StrCmp(w[i], s[n]) <= 0 {
        assert w[i] in s[..n];
      }
    }
  }

  // ----- dropping repetitions

  /** Each run of equal neighbours once. */
  function Dedup(s: seq<string>): seq<string> {
    if |s| < 2 then s else if s[0] == s[1] then Dedup(s[1..]) else [s[0]] + Dedup(s[1..])
  }

  lemma {:induction false} DedupMeans(s: seq<string>)
    requires InOrder(s)
    ensures Ascending(Dedup(s)) && forall x :: x in Dedup(s) <==> x in s
    decreases |s|
  {
    hide StrCmp;
    if |s| >= 2 {
      DedupMeans(s[1..]);
      assert s == [s[0]] + s[1..];
      if s[0] != s[1] {
        var d := Dedup(s[1..]);
        forall i | 0 <= i < |d| ensures StrCmp(s[0], d[i]) < 0 {
          assert d[i] in s[1..];
          FirstBelow(s, d[i]);
        }
      }
    }
  }

  lemma FirstBelow(s: seq<string>, x: string)
    requires InOrder(s) && |s| >= 2 && s[0] != s[1] && x in s[1..]
    ensures StrCmp(s[0], x) < 0
  {
    hide StrCmp;
    var k :| 1 <= k < |s| && s[k] == x;
    assert StrCmp(s[0], s[1]) <= 0;
    Lt(s[0], s[1], s[k]);
    if k > 1 { assert StrCmp(s[1], s[k]) <= 0; }
  }

  lemma {:induction false} DedupRun(s: seq<string>, n: nat)
    requires 0 < n <= |s| && Run(s, 0, n, s[0])
    ensures Dedup(s) == [s[0]] + Dedup(s[n..])
    decreases n
  {
    if n > 1 {
      assert s[1..][n - 1..] == s[n..];
      DedupRun(s[1..], n - 1);
    } else if |s| == 1 {
      assert s[1..] == [];
    }
  }

  /** _klpm_strlist_dedup */
  method StrlistDedup(list: Node?<string>, ghost ns0: seq<Node<string>>) returns (head: Node?<string>, ghost ns: seq<Node<string>>)
    requires IsList(list, ns0)
    modifies ns0
    ensures IsList(head, ns) && Data(ns) == Dedup(Data(ns0)) && Within(ns, ns0)
  {
    hide IsList, At, Data, StrCmp, Dedup, Run;
    head, ns := list, ns0;
    var i := list;
    ghost var k := 0;
    Heads(list, ns0);
    assert Data(ns0)[..0] + Dedup(Data(ns0)[0..]) == Dedup(Data(ns0)) by { assert Data(ns0)[0..] == Data(ns0); }
    while i != null
      invariant At(head, ns, i, k) && Within(ns, ns0)
      invariant Dedup(Data(ns0)) == Data(ns)[..k] + Dedup(Data(ns)[k..])
      decreases |ns| - k
    {
      var next := Advance(head, i, ns, k);
      ghost var n;
      head, next, n := DropRun(head, next, i.data, ns, k + 1);
      DedupStep(ns, k, n);
      ns, k, i := ns[..k + 1] + ns[k + 1 + n..], k + 1, next;
    }
    EmptyDedup(Data(ns), k);
  }

  lemma EmptyDedup(s: seq<string>, k: nat)
    requires k == |s|
    ensures s[..k] + Dedup(s[k..]) == s
  {
  }

  lemma DedupStep(ns: seq<Node<string>>, k: nat, n: nat)
    requires k < |ns| && k + 1 + n <= |ns| && Run(Data(ns), k + 1, k + 1 + n, ns[k].data)
    ensures var d, ns' := Data(ns), ns[..k + 1] + ns[k + 1 + n..];
            d[..k] + Dedup(d[k..]) == Data(ns')[..k + 1] + Dedup(Data(ns')[k + 1..])
  {
    hide Dedup;
    var d, ns' := Data(ns), ns[..k + 1] + ns[k + 1 + n..];
    var tail := d[k..];
    forall i | 0 <= i < n + 1 ensures tail[i] == d[k] { assert tail[i] == d[k + i]; }
    assert n + 1 < |tail| ==> tail[n + 1] == d[k + 1 + n];
    DedupRun(tail, n + 1);
    assert tail[n + 1..] == d[k + 1 + n..];
    assert Data(ns')[k + 1..] == d[k + 1 + n..];
    assert Data(ns')[..k + 1] == d[..k] + [d[k]];
  }

  // ----- feeding the targets

  /** The targets still to be fed; the first one may be partly fed already. */
  class Feed {
    var pos: seq<string>

    constructor (targets: seq<string>)
      ensures pos == targets
    {
      pos := targets;
    }

    /** _klpm_hook_feed_targets: fills the buffer as far as there is text, and leaves the rest. */
    method FeedTargets(buf: array<char>, needed: nat) returns (written: nat)
      requires needed <= buf.Length
      modifies this, buf
      ensures written <= needed && buf[..written] + Unlines(pos) == old(Unlines(pos))
      ensures written < needed ==> pos == []
    {
      hide Unlines;
      ghost var text := Unlines(pos);
      var remaining := needed;
      written := 0;
      while pos != [] && |pos[0]| + 1 <= remaining
        invariant 0 <= remaining && written + remaining == needed && buf[..written] + Unlines(pos) == text
        decreases |pos|
      {
        ghost var before := buf[..written];
        FeedOne(buf, written);
        OneFed(before, pos);
        written := written + |pos[0]| + 1;
        remaining := remaining - |pos[0]| - 1;
        pos := pos[1..];
      }
      if pos != [] && remaining > 0 {
        FeedPart(buf, written, remaining);
        written := written + remaining;
      }
    }

    method FeedPart(buf: array<char>, at: nat, n: nat)
      requires pos != [] && at + n <= buf.Length && n <= |pos[0]|
      modifies this, buf
      ensures buf[..at + n] + Unlines(pos) == old(buf[..at] + Unlines(pos))
    {
      hide Unlines;
      ghost var before := buf[..at];
      LineReader.Copy(buf, at, pos[0][..n]);
      assert buf[..at + n] == before + pos[0][..n];
      RestOfFirst(pos, n);
      ghost var rest := Unlines([pos[0][n..]] + pos[1..]);
      assert before + (pos[0][..n] + rest) == before + pos[0][..n] + rest;
      pos := [pos[0][n..]] + pos[1..];
    }

    method FeedOne(buf: array<char>, at: nat)
      requires pos != [] && at + |pos[0]| + 1 <= buf.Length
      modifies buf
      ensures buf[..at + |pos[0]| + 1] == old(buf[..at]) + pos[0] + "\n"
    {
      LineReader.Copy(buf, at, pos[0]);
      buf[at + |pos[0]|] := '\n';
    }
  }

  lemma OneFed(before: string, pos: seq<string>)
    requires pos != []
    ensures before + Unlines(pos) == before + pos[0] + "\n" + Unlines(pos[1..])
  {
  }

  lemma RestOfFirst(pos: seq<string>, n: nat)
    requires pos != [] && n <= |pos[0]|
    ensures Unlines(pos) == pos[0][..n] + Unlines([pos[0][n..]] + pos[1..])
  {
    var rest := [pos[0][n..]] + pos[1..];
    assert rest[1..] == pos[1..];
    assert pos[0] == pos[0][..n] + pos[0][n..];
  }

  /** Whatever the positive buffer sizes, reading until nothing is written gets every target,
      in order, with its newline, and nothing else. */
  method FeedAll(targets: seq<string>) returns (out: string)
    ensures out == Unlines(targets)
  {
    var feed := new Feed(targets);
    out := "";
    while true
      invariant fresh(feed) && out + Unlines(feed.pos) == Unlines(targets)
      decreases |Unlines(feed.pos)|
    {
      var size: nat :| size > 0;
      var buf := new char[size];
      var written := feed.FeedTargets(buf, size);
      if written == 0 {
        assert out + "" == out;
        return;
      }
      out := out + buf[..written];
    }
  }

  /** What a hook that needs its targets reads: every match once, in byte order. */
  method FeedMatches(list: Node?<string>, n: nat, ghost ns: seq<Node<string>>) returns (out: string, ghost targets: seq<string>)
    requires IsList(list, ns) && n == |ns|
    modifies ns
    ensures out == Unlines(targets) && Ascending(targets) && forall x :: x in targets <==> x in Data(ns)
  {
    hide IsList, Data, StrCmp, Dedup, Unlines;
    var head := MSort(list, n, StrCmp, ns);
    ghost var s := MergeSort(ns, NodeLe(StrCmp));
    SortedInOrder(ns);
    SortedSameData(ns, s);
    DedupMeans(Data(s));
    ghost var ms;
    head, ms := StrlistDedup(head, s);
    targets := Data(ms);
    var texts := Collect(head, ms);
    out := FeedAll(texts);
  }

  /** The data of a list, node by node. */
  method Collect(head: Node?<string>, ghost ns: seq<Node<string>>) returns (texts: seq<string>)
    requires IsList(head, ns)
    ensures texts == Data(ns)
  {
    hide IsList, At;
    texts := [];
    var i := head;
    Heads(head, ns);
    ghost var k := 0;
    while i != null
      invariant At(head, ns, i, k) && texts == Data(ns)[..k]
      decreases |ns| - k
    {
      texts := texts + [i.data];
      i := Advance(head, i, ns, k);
      k := k + 1;
    }
  }
}
