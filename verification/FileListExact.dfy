/** Which entries of two file lists the merge of _klpm_filelist_intersection (filelist.c) brings
    together when the lists are sorted by strcmp, whose bytes are unsigned, and compared by
    differences of plain chars, which are signed. */
module FileListExact {
  import opened Text
  import opened FileList

  /** t lies under s as if s were a directory. */
  ghost predicate Under(s: string, t: string) { s + "/" <= t }

  /** No entry lies under another that is not written as a directory: the listing of a tree. */
  ghost predicate Tree(files: seq<string>) {
    forall i, j :: 0 <= i < |files| && 0 <= j < |files| ==> !Under(files[i], files[j])
  }

  lemma UnderTail(s: string, t: string)
    requires s != "" && t != "" && s[0] == t[0]
    ensures Under(s, t) <==> Under(s[1..], t[1..])
  {
    assert (s + "/")[1..] == s[1..] + "/";
    assert s + "/" == [s[0]] + (s[1..] + "/") && t == [t[0]] + t[1..];
  }

  ghost predicate Precedes(e: string, x: string) { StrCmp(e, x) < 0 && !Under(e, x) && !Under(x, e) }

  /** An entry above the wanted pair that stops before another entry hands its place over to it. */
  lemma {:induction false} HandsOver(e: string, f: string, x: string, y: string)
    requires ByteString(e) && ByteString(f) && ByteString(x) && ByteString(y)
    requires Precedes(e, x) && Precedes(f, y) && Same(x, y) && PathOrder(e, y) > 0 && PathOrder(e, f) <= 0
    ensures PathOrder(x, f) < 0
    decreases |e|
  {
    hide Same, Under;
    if e != "" && f != "" && x != "" && y != "" && e[0] == f[0] == x[0] == y[0] {
      SameTail(x, y);
      UnderTail(e, x);
      UnderTail(x, e);
      UnderTail(f, y);
      UnderTail(y, f);
      HandsOver(e[1..], f[1..], x[1..], y[1..]);
    } else {
      HandsOverHere(e, f, x, y);
    }
  }

  lemma HeadsDiffer(s: string, t: string)
    requires s != "" && t != "" && s[0] != t[0]
    ensures PathOrder(s, t) == At(s) - At(t)
  {
  }

  lemma AgainstNothing(t: string)
    requires t != "" && t[0] != '/'
    ensures PathOrder("", t) == -At(t) && PathOrder(t, "") == At(t)
  {
  }

  lemma NotUnder(t: string)
    requires t != "" && !Under("", t)
    ensures t[0] != '/'
  {
    assert "" + "/" == "/";
    assert t == [t[0]] + t[1..];
  }

  lemma FirstByte(e: string, x: string)
    requires StrCmp(e, x) < 0
    ensures x != "" && (e == "" || e[0] <= x[0])
  {
  }

  lemma SameStart(x: string, y: string)
    requires x != "" && y != "" && Same(x, y)
    ensures x[0] == y[0]
  {
  }

  lemma HandsOverHere(e: string, f: string, x: string, y: string)
    requires ByteString(e) && ByteString(f) && ByteString(x) && ByteString(y)
    requires Precedes(e, x) && Precedes(f, y) && Same(x, y) && PathOrder(e, y) > 0 && PathOrder(e, f) <= 0
    requires e == "" || f == "" || x == "" || y == "" || !(e[0] == f[0] == x[0] == y[0])
    ensures PathOrder(x, f) < 0
  {
    hide PathOrder, StrCmp, Same, Under;
    FirstByte(e, x);
    FirstByte(f, y);
    SameStart(x, y);
    if e == "" {
      NotUnder(x);
      AgainstNothing(y);
      if f == "" {
        AgainstNothing(x);
      } else {
        if f[0] != '/' { AgainstNothing(f); }
        HeadsDiffer(x, f);
      }
    } else if e[0] != x[0] {
      HeadsDiffer(e, y);
      if f == "" {
        AgainstNothing(x);
      } else {
        if f[0] != e[0] { HeadsDiffer(e, f); }
        HeadsDiffer(x, f);
      }
    } else if f == "" {
      NotUnder(y);
      AgainstNothing(e);
      AgainstNothing(x);
    } else {
      HeadsDiffer(e, f);
      HeadsDiffer(x, f);
    }
  }

  // ----- nothing in the way

  /** Nothing listed from p up to i is put level with y or above it. */
  ghost predicate Free(files: seq<string>, p: nat, i: nat, y: string)
    requires i <= |files|
  {
    forall m :: p <= m < i ==> PathOrder(files[m], y) < 0
  }

  /** With nothing in the way the walk comes to the two entries. */
  lemma {:induction false} Meets(a: seq<string>, b: seq<string>, i: nat, j: nat, p: nat, q: nat)
    requires Paths(a) && Paths(b) && p <= i < |a| && q <= j < |b| && Same(a[i], b[j])
    requires Free(a, p, i, b[j]) && Free(b, q, j, a[i])
    ensures (a[i], b[j]) in Pairs(a[p..], b[q..])
    decreases i - p + j - q
  {
    hide PathOrder, Same, ByteString;
    var c := PathOrder(a[p], b[q]);
    Step(a, b, p, q);
    if p == i && q == j {
      PathOrderMeans(a[i], b[j]);
    } else if p == i {
      OrderSwaps(a[p], b[q]);
      Meets(a, b, i, j, p, q + 1);
    } else if q == j || c < 0 {
      Meets(a, b, i, j, p + 1, q);
    } else if c > 0 {
      Meets(a, b, i, j, p, q + 1);
    } else {
      Meets(a, b, i, j, p + 1, q + 1);
    }
  }

  // ----- one pair after another

  ghost predicate Entries(a: seq<string>, b: seq<string>, i: nat, j: nat, p: nat, q: nat)
  {
    Lists(a, b) && i < |a| && j < |b| && p <= |a| && q <= |b|
  }

  /** Entries that are brought together are not yet behind. */
  lemma StillAhead(a: seq<string>, b: seq<string>, i: nat, j: nat, p: nat, q: nat)
    requires Entries(a, b, i, j, p, q) && (a[i], b[j]) in Pairs(a[p..], b[q..])
    ensures p <= i && q <= j
  {
    hide PathOrder, Pairs, StrCmp;
    PairsSound(a[p..], b[q..], (a[i], b[j]));
    var k :| 0 <= k < |a[p..]| && a[p..][k] == a[i];
    var l :| 0 <= l < |b[q..]| && b[q..][l] == b[j];
    SamePosition(a, i, p + k);
    SamePosition(b, j, q + l);
  }

  lemma SamePosition(files: seq<string>, i: nat, j: nat)
    requires Ascending(files) && i < |files| && j < |files| && files[i] == files[j]
    ensures i == j
  {
    hide StrCmp;
    StrCmpZero(files[i], files[j]);
    StrCmpZero(files[j], files[i]);
  }

  /** After a pair the walk goes on behind it. */
  lemma {:induction false} GoesOn(a: seq<string>, b: seq<string>, m: nat, k: nat, p: nat, q: nat, z: (string, string))
    requires Entries(a, b, m, k, p, q) && (a[m], b[k]) in Pairs(a[p..], b[q..]) && z in Pairs(a[m + 1..], b[k + 1..])
    ensures z in Pairs(a[p..], b[q..])
    decreases |a| - p + |b| - q
  {
    hide PathOrder, Pairs, Lists;
    StillAhead(a, b, m, k, p, q);
    Step(a, b, p, q);
    var c := PathOrder(a[p], b[q]);
    if c < 0 {
      GoesOn(a, b, m, k, p + 1, q, z);
    } else if c > 0 {
      GoesOn(a, b, m, k, p, q + 1, z);
    } else if (a[m], b[k]) in Pairs(a[p + 1..], b[q + 1..]) {
      GoesOn(a, b, m, k, p + 1, q + 1, z);
    } else {
      AscendingOf(a, b);
      SamePosition(a, m, p);
      SamePosition(b, k, q);
    }
  }

  lemma AscendingOf(a: seq<string>, b: seq<string>)
    requires Lists(a, b)
    ensures Ascending(a) && Ascending(b)
  {
  }

  // ----- the exact condition

  /** The last entry before number i that is put level with y or above it, or -1. */
  function LastAbove(files: seq<string>, i: nat, y: string): (m: int)
    requires i <= |files|
    ensures -1 <= m < i && (m >= 0 ==> PathOrder(files[m], y) >= 0) && Free(files, m + 1, i, y)
  {
    if i == 0 then -1 else if PathOrder(files[i - 1], y) >= 0 then i - 1 else LastAbove(files, i - 1, y)
  }

  /** Nothing is in the way of the two entries, or what is last in the way on either side is the
      same path, and nothing stays in the way of that. */
  ghost predicate Unobstructed(a: seq<string>, b: seq<string>, i: nat, j: nat)
    requires i < |a| && j < |b|
    decreases i
  {
    var m, k := LastAbove(a, i, b[j]), LastAbove(b, j, a[i]);
    (m < 0 && k < 0) || (m >= 0 && k >= 0 && Same(a[m], b[k]) && Unobstructed(a, b, m, k))
  }

  /** On any two sorted lists the condition is enough. */
  lemma {:induction false} FreeIsPaired(a: seq<string>, b: seq<string>, i: nat, j: nat)
    requires Lists(a, b) && i < |a| && j < |b| && Same(a[i], b[j]) && Unobstructed(a, b, i, j)
    ensures (a[i], b[j]) in Pairs(a, b)
    decreases i
  {
    hide PathOrder, Pairs, Lists, Same, LastAbove;
    var m, k := LastAbove(a, i, b[j]), LastAbove(b, j, a[i]);
    assert a[0..] == a && b[0..] == b;
    Meets(a, b, i, j, m + 1, k + 1);
    if m >= 0 {
      FreeIsPaired(a, b, m, k);
      GoesOn(a, b, m, k, 0, 0, (a[i], b[j]));
    }
  }

  /** Two listings of trees. */
  ghost predicate Trees(a: seq<string>, b: seq<string>)
    ensures Trees(a, b) ==> Lists(a, b)
  {
    Lists(a, b) && Tree(a) && Tree(b)
  }

  lemma TreesApart(a: seq<string>, b: seq<string>, p: nat, i: nat)
    requires Trees(a, b) && p < i < |a|
    ensures Precedes(a[p], a[i]) && ByteString(a[p]) && ByteString(a[i])
  {
    hide StrCmp, Under, ByteString;
  }

  lemma SwapTrees(a: seq<string>, b: seq<string>)
    requires Trees(a, b)
    ensures Trees(b, a)
  {
  }

  /** Two entries of a tree are not both the same path as y. */
  lemma NotBoth(e: string, x: string, y: string)
    requires Same(e, y) && Same(x, y) && e != x
    ensures Under(e, x) || Under(x, e)
  {
    CutSlash(e, x);
    if e == y + "/" && x + "/" == y {
      assert x + "/" <= e;
    } else if x == y + "/" && e + "/" == y {
      assert e + "/" <= x;
    }
  }

  lemma CutSlash(e: string, x: string)
    ensures e + "/" == x + "/" ==> e == x
  {
    assert e == (e + "/")[..|e|] && x == (x + "/")[..|x|];
  }

  /** An entry in the way that does not come after f makes f stand in the way. */
  lemma InTheWay(a: seq<string>, b: seq<string>, i: nat, j: nat, p: nat, q: nat)
    requires Trees(a, b) && p < i < |a| && q < j < |b| && Same(a[i], b[j])
    requires PathOrder(a[p], b[j]) >= 0 && PathOrder(a[p], b[q]) <= 0
    ensures PathOrder(b[q], a[i]) > 0
  {
    hide PathOrder, Same, Trees, Under;
    TreesApart(a, b, p, i);
    SwapTrees(a, b);
    TreesApart(b, a, q, j);
    PathOrderMeans(a[p], b[j]);
    if Same(a[p], b[j]) {
      Irreflexive(a[p], a[i]);
      NotBoth(a[p], a[i], b[j]);
    }
    HandsOver(a[p], b[q], a[i], b[j]);
    OrderSwaps(a[i], b[q]);
  }

  lemma Irreflexive(e: string, x: string)
    requires StrCmp(e, x) < 0
    ensures e != x
  {
    StrCmpZero(e, x);
  }

  /** (m, k) is what is last in the way of (i, j) on either side, from p and q on. */
  ghost predicate LastInTheWay(a: seq<string>, b: seq<string>, i: nat, j: nat, p: nat, q: nat, m: nat, k: nat)
    requires i < |a| && j < |b|
  {
    && p <= m < i && q <= k < j
    && PathOrder(a[m], b[j]) >= 0 && PathOrder(b[k], a[i]) >= 0
    && Free(a, m + 1, i, b[j]) && Free(b, k + 1, j, a[i])
    && (a[m], b[k]) in Pairs(a[p..], b[q..])
  }

  ghost predicate WayOpen(a: seq<string>, b: seq<string>, i: nat, j: nat, p: nat, q: nat)
    requires i < |a| && j < |b|
  {
    || (Free(a, p, i, b[j]) && Free(b, q, j, a[i]))
    || exists m, k :: LastInTheWay(a, b, i, j, p, q, m, k)
  }

  /** Two entries of trees that are brought together had nothing in the way, or only what was
      brought together before. */
  lemma {:induction false} PairedIsFree(a: seq<string>, b: seq<string>, i: nat, j: nat, p: nat, q: nat)
    requires Trees(a, b) && Entries(a, b, i, j, p, q) && Same(a[i], b[j])
    requires (a[i], b[j]) in Pairs(a[p..], b[q..])
    ensures WayOpen(a, b, i, j, p, q)
    decreases |a| - p + |b| - q
  {
    hide PathOrder, Pairs, Trees, Lists, Same, WayOpen, StrCmp, ByteString;
    StillAhead(a, b, i, j, p, q);
    Step(a, b, p, q);
    var c := PathOrder(a[p], b[q]);
    if p == i && q == j {
      NothingBetween(a, b, i, j);
    } else if c < 0 {
      StillAhead(a, b, i, j, p + 1, q);
      PairedIsFree(a, b, i, j, p + 1, q);
      OpenLeft(a, b, i, j, p, q);
    } else if c > 0 {
      StillAhead(a, b, i, j, p, q + 1);
      PairedIsFree(a, b, i, j, p, q + 1);
      OpenRight(a, b, i, j, p, q);
    } else {
      assert (a[i], b[j]) in Pairs(a[p + 1..], b[q + 1..]) by { NotThisOne(a, b, i, j, p, q); }
      StillAhead(a, b, i, j, p + 1, q + 1);
      PairedIsFree(a, b, i, j, p + 1, q + 1);
      OpenBoth(a, b, i, j, p, q);
    }
  }

  lemma NothingBetween(a: seq<string>, b: seq<string>, i: nat, j: nat)
    requires i < |a| && j < |b|
    ensures WayOpen(a, b, i, j, i, j)
  {
  }

  lemma NotThisOne(a: seq<string>, b: seq<string>, i: nat, j: nat, p: nat, q: nat)
    requires Entries(a, b, i, j, p, q) && p < |a| && q < |b| && !(p == i && q == j)
    ensures (a[i], b[j]) != (a[p], b[q])
  {
    hide StrCmp;
    if a[i] == a[p] { SamePosition(a, i, p); }
    if b[j] == b[q] { SamePosition(b, j, q); }
  }

  lemma OpenLeft(a: seq<string>, b: seq<string>, i: nat, j: nat, p: nat, q: nat)
    requires Trees(a, b) && p < i < |a| && q <= j < |b| && Same(a[i], b[j])
    requires PathOrder(a[p], b[q]) < 0 && WayOpen(a, b, i, j, p + 1, q)
    ensures WayOpen(a, b, i, j, p, q)
  {
    hide PathOrder, Pairs, Trees, Same;
    Step(a, b, p, q);
    var p' := p + 1;
    if m: nat, k: nat :| LastInTheWay(a, b, i, j, p', q, m, k) {
      assert LastInTheWay(a, b, i, j, p, q, m, k);
    } else if PathOrder(a[p], b[j]) >= 0 {
      InTheWay(a, b, i, j, p, q);
      assert false;
    }
  }

  lemma OpenRight(a: seq<string>, b: seq<string>, i: nat, j: nat, p: nat, q: nat)
    requires Trees(a, b) && p <= i < |a| && q < j < |b| && Same(a[i], b[j])
    requires PathOrder(a[p], b[q]) > 0 && WayOpen(a, b, i, j, p, q + 1)
    ensures WayOpen(a, b, i, j, p, q)
  {
    hide PathOrder, Pairs, Trees;
    Step(a, b, p, q);
    OrderSwaps(a[p], b[q]);
    SwapTrees(a, b);
    var q' := q + 1;
    if m: nat, k: nat :| LastInTheWay(a, b, i, j, p, q', m, k) {
      assert LastInTheWay(a, b, i, j, p, q, m, k);
    } else if PathOrder(b[q], a[i]) >= 0 {
      InTheWay(b, a, j, i, q, p);
      assert false;
    }
  }

  lemma OpenBoth(a: seq<string>, b: seq<string>, i: nat, j: nat, p: nat, q: nat)
    requires Trees(a, b) && p < i < |a| && q < j < |b| && Same(a[i], b[j])
    requires PathOrder(a[p], b[q]) == 0 && WayOpen(a, b, i, j, p + 1, q + 1)
    ensures WayOpen(a, b, i, j, p, q)
  {
    hide PathOrder, Pairs, Trees;
    Step(a, b, p, q);
    OrderSwaps(a[p], b[q]);
    SwapTrees(a, b);
    var p', q' := p + 1, q + 1;
    if m: nat, k: nat :| LastInTheWay(a, b, i, j, p', q', m, k) {
      assert LastInTheWay(a, b, i, j, p, q, m, k);
    } else {
      if PathOrder(a[p], b[j]) >= 0 { InTheWay(a, b, i, j, p, q); }
      if PathOrder(b[q], a[i]) >= 0 { InTheWay(b, a, j, i, q, p); }
      if PathOrder(a[p], b[j]) >= 0 { assert LastInTheWay(a, b, i, j, p, q, p, q); }
    }
  }

  /** Exactly which entries of two trees are brought together. */
  lemma {:induction false} PairedIff(a: seq<string>, b: seq<string>, i: nat, j: nat)
    requires Trees(a, b) && i < |a| && j < |b| && Same(a[i], b[j])
    ensures (a[i], b[j]) in Pairs(a, b) <==> Unobstructed(a, b, i, j)
    decreases i
  {
    hide PathOrder, Pairs, Trees, Lists, Same, LastAbove;
    if Unobstructed(a, b, i, j) { FreeIsPaired(a, b, i, j); }
    if (a[i], b[j]) in Pairs(a, b) {
      assert a[0..] == a && b[0..] == b;
      PairedIsFree(a, b, i, j, 0, 0);
      if m: nat, k: nat :| LastInTheWay(a, b, i, j, 0, 0, m, k) {
        LastIs(a, i, b[j], m);
        LastIs(b, j, a[i], k);
        PairsSound(a, b, (a[m], b[k]));
        PairedIff(a, b, m, k);
      } else {
        assert LastAbove(a, i, b[j]) < 0 && LastAbove(b, j, a[i]) < 0;
      }
    }
  }

  lemma LastIs(files: seq<string>, i: nat, y: string, m: nat)
    requires m < i <= |files| && PathOrder(files[m], y) >= 0 && Free(files, m + 1, i, y)
    ensures LastAbove(files, i, y) == m
  {
    hide PathOrder, LastAbove;
    var l := LastAbove(files, i, y);
  }

  /** Exactly what the intersection of two trees reports. */
  lemma ReportedIff(a: seq<string>, b: seq<string>, i: nat)
    requires Trees(a, b) && i < |a|
    ensures a[i] in Reported(Pairs(a, b)) <==>
            exists j :: 0 <= j < |b| && Same(a[i], b[j]) && !(Dir(a[i]) && Dir(b[j])) && Unobstructed(a, b, i, j)
  {
    hide PathOrder, Pairs, Reported, Same, Unobstructed, Dir;
    ReportedMembers(Pairs(a, b), a[i]);
    if q :| (a[i], q) in Pairs(a, b) && !(Dir(a[i]) && Dir(q)) {
      PairsSound(a, b, (a[i], q));
      var j :| 0 <= j < |b| && b[j] == q;
      PairedIff(a, b, i, j);
    }
    if j :| 0 <= j < |b| && Same(a[i], b[j]) && !(Dir(a[i]) && Dir(b[j])) && Unobstructed(a, b, i, j) {
      PairedIff(a, b, i, j);
    }
  }

  /** In particular for a path, not a directory, that both list. */
  lemma CommonReportedIff(a: seq<string>, b: seq<string>, i: nat, j: nat)
    requires Trees(a, b) && i < |a| && j < |b| && a[i] == b[j] && !Dir(a[i])
    ensures a[i] in Reported(Pairs(a, b)) <==> Unobstructed(a, b, i, j)
  {
    hide PathOrder, Pairs, Reported, Unobstructed, Dir, StrCmp;
    ReportedIff(a, b, i);
    forall k | 0 <= k < |b| && Same(a[i], b[k]) ensures k == j {
      if b[k] != b[j] { NotBoth(b[k], b[j], a[i]); }
      SamePosition(b, k, j);
    }
  }

  // ----- a file that both lists have and the merge does not find

  lemma HighByteOrder(x: string)
    requires x == "\U{E9}"
    ensures StrCmp("a", x) < 0 && PathOrder(x, "a") < 0 && ByteString(x) && ByteString("a")
  {
    assert x[0] as int == 233 && "a"[0] as int == 97;
  }

  /** Both lists are sorted and have the file named by the byte 233, and nothing is reported. */
  lemma HighByteMissed(x: string)
    requires x == "\U{E9}"
    ensures Trees([x], ["a", x]) && !Dir(x) && Reported(Pairs([x], ["a", x])) == []
  {
    hide StrCmp;
    HighByteOrder(x);
    assert [x][1..] == [];
  }

  // ----- outside of trees the condition is not needed

  lemma CommonByte(c: char, s: string, t: string)
    ensures PathOrder([c] + s, [c] + t) == PathOrder(s, t) && StrCmp([c] + s, [c] + t) == StrCmp(s, t)
  {
    assert ([c] + s)[1..] == s && ([c] + t)[1..] == t;
  }

  lemma OutsideOrder(x: string)
    requires x == "/\U{E9}"
    ensures PathOrder(".b", "") > 0 && PathOrder(".b", x) < 0 && PathOrder(x, "") < 0 && PathOrder(x, x) == 0
    ensures StrCmp(".b", x) < 0 && StrCmp("", x) < 0 && ByteString(x) && ByteString(".b")
  {
    assert ".b"[0] == '.' && x[0] == '/' && x[1] as int == 233 && x[1..] == [x[1]];
    PathOrderMeans(x, x);
  }

  /** Here the second list has s and a path under s. The path is brought together with itself
      although s is put above it, because the first list has s.b. */
  lemma OutsideTrees(x: string)
    requires x == "s/\U{E9}"
    ensures var a, b := ["s.b", x], ["s", x]; Lists(a, b) && !Tree(b) && (x, x) in Pairs(a, b) && !Unobstructed(a, b, 1, 1)
  {
    hide PathOrder, StrCmp, Pairs;
    var a, b, t := ["s.b", x], ["s", x], x[1..];
    assert "s.b" == ['s'] + ".b" && "s" == ['s'] + "" && x == ['s'] + t;
    OutsideOrder(t);
    CommonByte('s', ".b", "");
    CommonByte('s', ".b", t);
    CommonByte('s', t, "");
    CommonByte('s', t, t);
    CommonByte('s', "", t);
    assert Under(b[0], b[1]);
    assert a[0..] == a && b[0..] == b;
    OrderSwaps("s", x);
    Step(a, b, 0, 0);
    Step(a, b, 0, 1);
    Step(a, b, 1, 1);
    assert LastAbove(a, 1, x) < 0 && LastAbove(b, 1, x) == 0 by { assert b[0] == "s" && a[0] == "s.b"; }
  }
}
