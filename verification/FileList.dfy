/** Sorted file lists (filelist.c): difference and intersection by merging. */
module FileList {
  import opened Text
  import L = Lists
  import D = ListDiff

  /** What strcmp and the path comparison see as a string: bytes, no null byte inside. */
  ghost predicate ByteString(s: string) { forall i :: 0 <= i < |s| ==> 0 < s[i] as int < 256 }

  ghost predicate Path(s: string) { s != "" && ByteString(s) }

  ghost predicate Paths(files: seq<string>) { forall i :: 0 <= i < |files| ==> Path(files[i]) }

  predicate Dir(s: string) { s != "" && s[|s| - 1] == '/' }

  // ----- comparing paths up to a trailing slash

  /** The next character as a plain char, zero at the end. */
  function At(s: string): int { if s == "" then 0 else if s[0] as int < 128 then s[0] as int else s[0] as int - 256 }

  function AfterSlash(s: string, other: string): string { if other == "" && s != "" && s[0] == '/' then s[1..] else s }

  function PathOrder(a: string, b: string): int {
    if a != "" && b != "" && a[0] == b[0] then PathOrder(a[1..], b[1..])
    else At(AfterSlash(a, b)) - At(AfterSlash(b, a))
  }

  /** _klpm_filelist_pathcmp */
  method PathCmp(p1: string, p2: string) returns (r: int)
    ensures r == PathOrder(p1, p2)
  {
    var k := 0;
    while k < |p1| && k < |p2| && p1[k] == p2[k]
      invariant k <= |p1| && k <= |p2| && PathOrder(p1, p2) == PathOrder(p1[k..], p2[k..])
    {
      assert p1[k..][1..] == p1[k + 1..] && p2[k..][1..] == p2[k + 1..];
      k := k + 1;
    }
    var a, b := p1[k..], p2[k..];
    if a == "" && b != "" && b[0] == '/' {
      b := b[1..];
    } else if b == "" && a != "" && a[0] == '/' {
      a := a[1..];
    }
    r := At(a) - At(b);
  }

  ghost predicate Same(a: string, b: string) { a == b || a == b + "/" || b == a + "/" }

  ghost predicate Ascii(s: string) { forall i :: 0 <= i < |s| ==> 0 < s[i] as int < 128 }

  /** The path comparison ignores one trailing slash. Below 128 it is byte order otherwise. */
  lemma {:induction false} PathOrderMeans(a: string, b: string)
    requires ByteString(a) && ByteString(b)
    ensures PathOrder(a, b) == 0 <==> Same(a, b)
    ensures Ascii(a) && Ascii(b) ==> SameSign(a, b)
    decreases |a|
  {
    if a != "" && b != "" && a[0] == b[0] {
      PathOrderMeans(a[1..], b[1..]);
      assert a == [a[0]] + a[1..] && b == [b[0]] + b[1..];
      assert Same(a, b) <==> Same(a[1..], b[1..]) by { SameTail(a, b); }
    } else if a == "" || b == "" {
      assert Same(a, b) <==> a + b == "" || a + b == "/";
    }
  }

  /** Where the path comparison tells two paths apart, it does so as strcmp does. */
  ghost predicate SameSign(a: string, b: string) {
    (PathOrder(a, b) < 0 ==> StrCmp(a, b) < 0) && (PathOrder(a, b) > 0 ==> StrCmp(a, b) > 0)
  }

  lemma SameTail(a: string, b: string)
    requires a != "" && b != "" && a[0] == b[0]
    ensures Same(a, b) <==> Same(a[1..], b[1..])
  {
    assert a == [a[0]] + a[1..] && b == [b[0]] + b[1..];
    assert (b + "/")[1..] == b[1..] + "/" && (a + "/")[1..] == a[1..] + "/";
    assert [a[0]] + (b[1..] + "/") == b + "/" && [a[0]] + (a[1..] + "/") == a + "/";
  }

  // ----- difference

  /** _klpm_filelist_difference */
  method Difference(filesA: seq<string>, filesB: seq<string>) returns (ret: seq<string>)
    ensures ret == D.Diff(filesA, filesB, StrCmp)
  {
    hide StrCmp;
    ret := [];
    var a, b := 0, 0;
    assert filesA[0..] == filesA && filesB[0..] == filesB;
    while a < |filesA| && b < |filesB|
      invariant a <= |filesA| && b <= |filesB|
      invariant D.Diff(filesA, filesB, StrCmp) == ret + D.Diff(filesA[a..], filesB[b..], StrCmp)
    {
      assert filesA[a..][1..] == filesA[a + 1..] && filesB[b..][1..] == filesB[b + 1..];
      var cmp := StrCmp(filesA[a], filesB[b]);
      if cmp < 0 {
        ret := ret + [filesA[a]];
        a := a + 1;
      } else if cmp > 0 {
        b := b + 1;
      } else {
        a, b := a + 1, b + 1;
      }
    }
    while a < |filesA|
      invariant a <= |filesA| && (a < |filesA| ==> b >= |filesB|)
      invariant b <= |filesB| && D.Diff(filesA, filesB, StrCmp) == ret + D.Diff(filesA[a..], filesB[b..], StrCmp)
    {
      assert filesA[a..][1..] == filesA[a + 1..] && filesA[a..] == [filesA[a]] + filesA[a + 1..];
      ret := ret + [filesA[a]];
      a := a + 1;
    }
  }

  lemma ByteOrder(u: set<string>)
    ensures D.Comparison(u, StrCmp)
  {
    forall x, y | x in u && y in u ensures StrCmp(x, y) == -StrCmp(y, x) { StrCmpAntisymmetric(x, y); }
    forall x, y, z | x in u && y in u && z in u && StrCmp(x, y) <= 0 && StrCmp(y, z) <= 0
      ensures StrCmp(x, z) <= 0
    {
      StrCmpTransitive(x, y, z);
    }
  }

  lemma {:induction false} ClassCount(s: seq<string>, k: string)
    ensures |L.Class(s, k, D.AtMost(StrCmp))| == multiset(s)[k]
    decreases |s|
  {
    if s != [] {
      ClassCount(s[1..], k);
      assert s == [s[0]] + s[1..];
      StrCmpZero(s[0], k);
      StrCmpAntisymmetric(s[0], k);
    }
  }

  /** On sorted lists the difference is the multiset difference, still sorted. */
  lemma DifferenceMeans(filesA: seq<string>, filesB: seq<string>)
    requires L.Sorted(filesA, D.AtMost(StrCmp)) && L.Sorted(filesB, D.AtMost(StrCmp))
    ensures multiset(D.Diff(filesA, filesB, StrCmp)) == multiset(filesA) - multiset(filesB)
    ensures L.Sorted(D.Diff(filesA, filesB, StrCmp), D.AtMost(StrCmp))
  {
    hide D.Diff, D.AtMost, StrCmp, L.Sorted;
    var r := D.Diff(filesA, filesB, StrCmp);
    forall k ensures multiset(r)[k] == (multiset(filesA) - multiset(filesB))[k] {
      DifferenceCount(filesA, filesB, k);
    }
    var u := D.Elements(filesA, filesB);
    ByteOrder(u);
    D.DiffSortedOrder(filesA, filesB, StrCmp, u);
  }

  lemma DifferenceCount(filesA: seq<string>, filesB: seq<string>, k: string)
    requires L.Sorted(filesA, D.AtMost(StrCmp)) && L.Sorted(filesB, D.AtMost(StrCmp))
    ensures var m, n := multiset(filesA)[k], multiset(filesB)[k];
            multiset(D.Diff(filesA, filesB, StrCmp))[k] == if m >= n then m - n else 0
  {
    hide D.Diff, D.AtMost, StrCmp, L.Sorted, L.Class, D.Comparison;
    var u := D.Elements(filesA, filesB) + {k};
    ByteOrder(u);
    D.DiffPerClass(filesA, filesB, k, StrCmp, u);
    ClassCount(filesA, k);
    ClassCount(filesB, k);
    ClassCount(D.Diff(filesA, filesB, StrCmp), k);
  }

  // ----- intersection

  /** The pairs of entries the merge brings together. */
  function Pairs(a: seq<string>, b: seq<string>): seq<(string, string)>
    decreases |a| + |b|
  {
    if a == [] || b == [] then []
    else if PathOrder(a[0], b[0]) < 0 then Pairs(a[1..], b)
    else if PathOrder(a[0], b[0]) > 0 then Pairs(a, b[1..])
    else [(a[0], b[0])] + Pairs(a[1..], b[1..])
  }

  /** Of the pairs, those that are not two directories. */
  function Reported(pairs: seq<(string, string)>): seq<string> {
    if pairs == [] then []
    else (if Dir(pairs[0].0) && Dir(pairs[0].1) then [] else [pairs[0].0]) + Reported(pairs[1..])
  }

  /** One step of the merge. */
  lemma Step(a: seq<string>, b: seq<string>, p: nat, q: nat)
    requires p < |a| && q < |b|
    ensures var c := PathOrder(a[p], b[q]);
            Pairs(a[p..], b[q..]) ==
            if c < 0 then Pairs(a[p + 1..], b[q..])
            else if c > 0 then Pairs(a[p..], b[q + 1..])
            else [(a[p], b[q])] + Pairs(a[p + 1..], b[q + 1..])
  {
    hide PathOrder;
    assert a[p..][1..] == a[p + 1..] && b[q..][1..] == b[q + 1..];
  }

  lemma ReportedStep(p: (string, string), rest: seq<(string, string)>)
    ensures Reported([p] + rest) == (if Dir(p.0) && Dir(p.1) then [] else [p.0]) + Reported(rest)
  {
    assert ([p] + rest)[1..] == rest;
  }

  lemma NothingReported(a: seq<string>, b: seq<string>)
    requires a == [] || b == []
    ensures Reported(Pairs(a, b)) == []
  {
  }

  /** _klpm_filelist_intersection */
  method Intersection(filesA: seq<string>, filesB: seq<string>) returns (ret: seq<string>)
    requires forall x :: x in filesA || x in filesB ==> x != ""
    ensures ret == Reported(Pairs(filesA, filesB))
  {
    hide PathOrder, Pairs, Reported;
    ret := [];
    var a, b := 0, 0;
    assert filesA[0..] == filesA && filesB[0..] == filesB;
    while a < |filesA| && b < |filesB|
      invariant a <= |filesA| && b <= |filesB|
      invariant Reported(Pairs(filesA, filesB)) == ret + Reported(Pairs(filesA[a..], filesB[b..]))
    {
      Step(filesA, filesB, a, b);
      var cmp := PathCmp(filesA[a], filesB[b]);
      if cmp < 0 {
        a := a + 1;
      } else if cmp > 0 {
        b := b + 1;
      } else {
        ReportedStep((filesA[a], filesB[b]), Pairs(filesA[a + 1..], filesB[b + 1..]));
        if !Dir(filesA[a]) || !Dir(filesB[b]) {
          ret := ret + [filesA[a]];
        }
        a, b := a + 1, b + 1;
      }
    }
    NothingReported(filesA[a..], filesB[b..]);
  }

  /** Two lists the merge is meant for. */
  ghost predicate Lists(a: seq<string>, b: seq<string>)
    ensures Lists(a, b) ==> Paths(a) && Paths(b)
  {
    Paths(a) && Paths(b) && Ascending(a) && Ascending(b)
  }

  lemma ListsTail(a: seq<string>, b: seq<string>)
    requires Lists(a, b) && a != [] && b != []
    ensures Lists(a[1..], b) && Lists(a, b[1..]) && Lists(a[1..], b[1..])
    ensures forall x :: x in a[1..] ==> StrCmp(a[0], x) < 0
    ensures forall x :: x in b[1..] ==> StrCmp(b[0], x) < 0
  {
  }

  /** A pair is one path of each list, the same up to a trailing slash, in whatever order the
      lists are. */
  lemma {:induction false} PairsSound(a: seq<string>, b: seq<string>, p: (string, string))
    requires Paths(a) && Paths(b) && p in Pairs(a, b)
    ensures p.0 in a && p.1 in b && Same(p.0, p.1)
    decreases |a| + |b|
  {
    hide PathOrder, Same, ByteString;
    var c := PathOrder(a[0], b[0]);
    if c < 0 {
      PairsSound(a[1..], b, p);
    } else if c > 0 {
      PairsSound(a, b[1..], p);
    } else if p != (a[0], b[0]) {
      PairsSound(a[1..], b[1..], p);
    } else {
      PathOrderMeans(a[0], b[0]);
    }
  }

  lemma HeadPaths(a: seq<string>, b: seq<string>)
    requires Lists(a, b) && a != [] && b != []
    ensures ByteString(a[0]) && ByteString(b[0])
  {
  }

  /** Two such lists on whose paths the two comparisons agree. */
  ghost predicate Agreeing(a: seq<string>, b: seq<string>)
    ensures Agreeing(a, b) ==> Lists(a, b)
  {
    Lists(a, b) && forall x, y :: x in a && y in b ==> SameSign(x, y)
  }

  lemma AgreeingTail(a: seq<string>, b: seq<string>)
    requires Agreeing(a, b) && a != [] && b != []
    ensures Agreeing(a[1..], b) && Agreeing(a, b[1..]) && Agreeing(a[1..], b[1..])
    ensures PathOrder(a[0], b[0]) == 0 <==> Same(a[0], b[0])
    ensures SameSign(a[0], b[0])
  {
    hide PathOrder, SameSign, Same, Ascending, ByteString;
    ListsTail(a, b);
    HeadPaths(a, b);
    PathOrderMeans(a[0], b[0]);
  }

  /** Below 128 any two lists agree. */
  lemma AsciiAgrees(a: seq<string>, b: seq<string>)
    requires Lists(a, b) && forall x :: x in a || x in b ==> Ascii(x)
    ensures Agreeing(a, b)
  {
    hide PathOrder, SameSign, Ascending, Ascii;
    forall x, y | x in a && y in b ensures SameSign(x, y) { PathOrderMeans(x, y); }
  }

  /** Swapping the lists swaps the pairs. */
  lemma {:induction false} PairsSwap(a: seq<string>, b: seq<string>, x: string, y: string)
    ensures (x, y) in Pairs(a, b) <==> (y, x) in Pairs(b, a)
    decreases |a| + |b|
  {
    hide PathOrder;
    if a != [] && b != [] {
      OrderSwaps(a[0], b[0]);
      var c := PathOrder(a[0], b[0]);
      if c < 0 {
        PairsSwap(a[1..], b, x, y);
      } else if c > 0 {
        PairsSwap(a, b[1..], x, y);
      } else {
        PairsSwap(a[1..], b[1..], x, y);
        assert Pairs(a, b) == [(a[0], b[0])] + Pairs(a[1..], b[1..]);
        assert Pairs(b, a) == [(b[0], a[0])] + Pairs(b[1..], a[1..]);
      }
    }
  }

  lemma {:induction false} OrderSwaps(a: string, b: string)
    ensures PathOrder(a, b) == -PathOrder(b, a)
    decreases |a|
  {
    if a != "" && b != "" && a[0] == b[0] { OrderSwaps(a[1..], b[1..]); }
  }

  lemma {:induction false} Between(x: string, y: string)
    requires StrCmp(x, y) < 0 && StrCmp(y, x + "/") < 0
    ensures x < y
    decreases |x|
  {
    if x != "" {
      assert x == [x[0]] + x[1..] && y == [y[0]] + y[1..] && (x + "/")[1..] == x[1..] + "/";
      Between(x[1..], y[1..]);
    }
  }

  lemma {:induction false} PrefixAtMost(x: string, y: string)
    requires x <= y
    ensures StrCmp(x, y) <= 0 && StrCmp(x, x + "/") < 0
    decreases |x|
  {
    if x != "" {
      PrefixAtMost(x[1..], y[1..]);
      assert (x + "/")[1..] == x[1..] + "/";
    }
  }

  /** No entry lies between a path and the same path with a slash. */
  ghost predicate Clear(files: seq<string>, x: string) {
    forall y :: y in files ==> !(StrCmp(x, y) < 0 && StrCmp(y, x + "/") < 0)
  }

  lemma ClearStep(files: seq<string>, x: string)
    requires files != [] && !(StrCmp(x, files[0]) < 0 && StrCmp(files[0], x + "/") < 0)
    ensures Clear(files, x) <==> Clear(files[1..], x)
  {
    hide StrCmp;
    assert files == [files[0]] + files[1..];
  }

  /** A path that is not a directory, in both lists, is paired with itself. */
  lemma {:induction false} PairsComplete(a: seq<string>, b: seq<string>, x: string)
    requires Agreeing(a, b) && x in a && x in b && !Dir(x)
    ensures (x, x) in Pairs(a, b)
    decreases |a| + |b|
  {
    hide PathOrder, Lists, Agreeing, StrCmp;
    ListsTail(a, b);
    AgreeingTail(a, b);
    StrCmpZero(a[0], b[0]);
    HeadsApart(a, b, x);
    var c := PathOrder(a[0], b[0]);
    if c < 0 {
      PairsComplete(a[1..], b, x);
    } else if c > 0 {
      PairsComplete(a, b[1..], x);
    } else if !(a[0] == b[0] == x) {
      PairsComplete(a[1..], b[1..], x);
    }
  }

  /** Where x sits relative to the two heads. */
  lemma HeadsApart(a: seq<string>, b: seq<string>, x: string)
    requires Lists(a, b) && x in a && x in b && !Dir(x)
    ensures StrCmp(a[0], b[0]) < 0 ==> x in a[1..]
    ensures StrCmp(a[0], b[0]) > 0 ==> x in b[1..]
    ensures Same(a[0], b[0]) && !(a[0] == b[0] == x) ==> x in a[1..] && x in b[1..]
  {
    hide StrCmp;
    ListsTail(a, b);
    StrCmpZero(a[0], a[0]);
    StrCmpAntisymmetric(a[0], b[0]);
    PrefixAtMost(a[0], a[0]);
    PrefixAtMost(b[0], b[0]);
    StrCmpAntisymmetric(a[0], a[0] + "/");
    StrCmpAntisymmetric(b[0], b[0] + "/");
    assert x == a[0] || x in a[1..];
    assert x == b[0] || x in b[1..];
  }

  /** x is a file of the first list; the second has it as a directory only. */
  ghost predicate FileAndDir(a: seq<string>, b: seq<string>, x: string) {
    x in a && x + "/" in b && x !in b && !Dir(x)
  }

  /** A file of one list is paired with the directory of that name in the other exactly when
      no entry of the other lies between the two names. */
  lemma {:induction false} FileDirPaired(a: seq<string>, b: seq<string>, x: string)
    requires Agreeing(a, b) && FileAndDir(a, b, x)
    ensures (x, x + "/") in Pairs(a, b) <==> Clear(b, x)
    decreases |a| + |b|
  {
    hide PathOrder, Lists, Agreeing, StrCmp, Clear;
    ListsTail(a, b);
    AgreeingTail(a, b);
    var c := PathOrder(a[0], b[0]);
    if c < 0 {
      if x == a[0] {
        PassedOver(a, b, x);
      } else {
        FileDirPaired(a[1..], b, x);
      }
    } else if c > 0 {
      SecondHead(a, b, x);
      FileDirPaired(a, b[1..], x);
      ClearStep(b, x);
    } else if x == a[0] {
      MetFirst(a, b, x);
    } else {
      BothMove(a, b, x);
      FileDirPaired(a[1..], b[1..], x);
      ClearStep(b, x);
      assert Pairs(a, b) == [(a[0], b[0])] + Pairs(a[1..], b[1..]);
    }
  }

  lemma Ordered(x: string, y: string, z: string)
    ensures StrCmp(x, y) < 0 && StrCmp(y, z) < 0 ==> StrCmp(x, z) < 0
    ensures StrCmp(x, y) < 0 ==> StrCmp(y, x) > 0 && x != y
    ensures StrCmp(x, y) > 0 ==> StrCmp(y, x) < 0
    ensures x == y <==> StrCmp(x, y) == 0
  {
    hide StrCmp;
    if StrCmp(x, y) < 0 && StrCmp(y, z) < 0 { StrCmpTransitive(x, y, z); }
    StrCmpAntisymmetric(x, y);
    StrCmpZero(x, y);
  }

  lemma PassedOver(a: seq<string>, b: seq<string>, x: string)
    requires Agreeing(a, b) && FileAndDir(a, b, x) && a[0] == x && PathOrder(x, b[0]) < 0
    ensures !Clear(b, x) && (x, x + "/") !in Pairs(a, b)
  {
    hide PathOrder, Lists, Agreeing, StrCmp;
    ListsTail(a, b);
    AgreeingTail(a, b);
    Ordered(x, b[0], x + "/");
    assert x + "/" in b[1..];
    assert b[0] in b;
    assert Pairs(a, b) == Pairs(a[1..], b);
    if (x, x + "/") in Pairs(a[1..], b) {
      PairsSound(a[1..], b, (x, x + "/"));
      Ordered(x, x, x);
      assert false;
    }
  }

  lemma SecondHead(a: seq<string>, b: seq<string>, x: string)
    requires Lists(a, b) && FileAndDir(a, b, x) && StrCmp(a[0], b[0]) > 0
    ensures StrCmp(b[0], x) < 0 && FileAndDir(a, b[1..], x)
    ensures !(StrCmp(x, b[0]) < 0 && StrCmp(b[0], x + "/") < 0)
  {
    hide Lists, StrCmp;
    ListsTail(a, b);
    Ordered(a[0], b[0], x);
    assert x == a[0] || x in a[1..];
    Ordered(b[0], a[0], x);
    Ordered(b[0], x, x);
    PrefixAtMost(x, x);
    Ordered(b[0], x, x + "/");
    assert b == [b[0]] + b[1..];
  }

  lemma MetFirst(a: seq<string>, b: seq<string>, x: string)
    requires Agreeing(a, b) && FileAndDir(a, b, x) && a[0] == x && PathOrder(x, b[0]) == 0
    ensures Clear(b, x) && (x, x + "/") in Pairs(a, b)
  {
    hide PathOrder, Lists, Agreeing, StrCmp;
    ListsTail(a, b);
    AgreeingTail(a, b);
    assert b[0] in b;
    SlashEnds(b[0]);
    assert b[0] == x + "/";
    forall y | y in b ensures !(StrCmp(x, y) < 0 && StrCmp(y, x + "/") < 0) {
      Ordered(b[0], y, y);
      assert y == b[0] || y in b[1..];
      Ordered(y, b[0], y);
    }
  }

  lemma SlashEnds(s: string)
    ensures Dir(s + "/")
  {
  }

  lemma BothMove(a: seq<string>, b: seq<string>, x: string)
    requires Lists(a, b) && FileAndDir(a, b, x) && a[0] != x && Same(a[0], b[0])
    ensures FileAndDir(a[1..], b[1..], x) && (x, x + "/") != (a[0], b[0])
    ensures !(StrCmp(x, b[0]) < 0 && StrCmp(b[0], x + "/") < 0)
  {
    hide Lists, StrCmp;
    ListsTail(a, b);
    assert x in a[1..];
    Ordered(a[0], x, x);
    if StrCmp(x, b[0]) < 0 && StrCmp(b[0], x + "/") < 0 {
      Between(x, b[0]);
      HeadNotBetween(a[0], b[0], x);
      assert false;
    }
    if b[0] == x + "/" {
      HeadNotSlash(a[0], x);
      assert false;
    }
  }

  lemma HeadNotBetween(a0: string, b0: string, x: string)
    requires Same(a0, b0) && x < b0
    ensures StrCmp(a0, x) >= 0
  {
    assert x <= a0;
    PrefixAtMost(x, a0);
    StrCmpAntisymmetric(x, a0);
  }

  lemma HeadNotSlash(a0: string, x: string)
    requires Same(a0, x + "/")
    ensures StrCmp(a0, x) >= 0
  {
    if a0 + "/" == x + "/" {
      assert a0 == (a0 + "/")[..|a0|] && x == (x + "/")[..|x|];
    }
    assert x <= a0;
    PrefixAtMost(x, a0);
    StrCmpAntisymmetric(x, a0);
  }

  /** What is reported is ascending if the first list is, so no entry twice. */
  lemma {:induction false} ReportedAscending(a: seq<string>, b: seq<string>)
    requires Ascending(a)
    ensures Ascending(Reported(Pairs(a, b))) && forall r :: r in Reported(Pairs(a, b)) ==> r in a
    decreases |a| + |b|
  {
    hide PathOrder, StrCmp;
    if a != [] && b != [] {
      var c := PathOrder(a[0], b[0]);
      if c < 0 {
        ReportedAscending(a[1..], b);
      } else if c > 0 {
        ReportedAscending(a, b[1..]);
      } else {
        ReportedAscending(a[1..], b[1..]);
        assert Pairs(a, b)[1..] == Pairs(a[1..], b[1..]);
        var rest := Reported(Pairs(a[1..], b[1..]));
        forall i | 0 <= i < |rest| ensures StrCmp(a[0], rest[i]) < 0 { assert rest[i] in rest; }
      }
    }
  }

  lemma {:induction false} ReportedMembers(pairs: seq<(string, string)>, r: string)
    ensures r in Reported(pairs) <==> exists q :: (r, q) in pairs && !(Dir(r) && Dir(q))
    decreases |pairs|
  {
    if pairs != [] {
      ReportedMembers(pairs[1..], r);
      assert pairs == [pairs[0]] + pairs[1..];
      if r in Reported(pairs[1..]) {
        var q :| (r, q) in pairs[1..] && !(Dir(r) && Dir(q));
        assert (r, q) in pairs;
      }
      if r == pairs[0].0 && !(Dir(r) && Dir(pairs[0].1)) {
        assert (r, pairs[0].1) in pairs;
      }
    }
  }

  /** Exactly what the intersection reports. A file of the first list: if the second has it,
      or has a directory of that name and nothing in between. A directory of the first list:
      if the second has a file of that name, the first does not, and has nothing in between. */
  lemma IntersectionIff(a: seq<string>, b: seq<string>, r: string)
    requires Agreeing(a, b) && r in a
    ensures !Dir(r) ==> (r in Reported(Pairs(a, b)) <==> r in b || (r + "/" in b && Clear(b, r)))
    ensures Dir(r) ==> (r in Reported(Pairs(a, b)) <==>
              !Dir(Cut(r)) && Cut(r) in b && Cut(r) !in a && Clear(a, Cut(r)))
  {
    if Dir(r) {
      DirReported(a, b, r);
    } else {
      FileReported(a, b, r);
    }
  }

  lemma {:induction false} CommonStart(p: string, a: string, b: string)
    ensures StrCmp(p + a, p + b) == StrCmp(a, b)
    decreases |p|
  {
    if p == "" {
      assert p + a == a && p + b == b;
    } else {
      CommonStart(p[1..], a, b);
      assert (p + a)[1..] == p[1..] + a && (p + b)[1..] == p[1..] + b;
    }
  }

  lemma FooOrder()
    ensures StrCmp("foo", "foo.bar") < 0 && StrCmp("foo.bar", "foo/") < 0
  {
    assert "foo" + "/" == "foo/" && "foo" + ".bar" == "foo.bar" && "foo" + "" == "foo";
    assert StrCmp("", ".bar") < 0 && StrCmp(".bar", "/") < 0 by { assert ".bar"[0] == '.' && "/"[0] == '/'; }
    CommonStart("foo", "", ".bar");
    CommonStart("foo", ".bar", "/");
  }

  lemma FooLists()
    ensures var a, b := ["foo"], ["foo.bar", "foo/"]; Agreeing(a, b) && Agreeing(a, b[1..])
  {
    hide Agreeing, PathOrder, StrCmp;
    var a, b := ["foo"], ["foo.bar", "foo/"];
    FooOrder();
    assert Ascii("foo") && Ascii("foo.bar") && Ascii("foo/");
    assert b[1..] == ["foo/"];
    AsciiAgrees(a, b);
    AsciiAgrees(a, b[1..]);
  }

  /** A file foo and a directory foo are the same path, but with foo.bar listed between them the
      walk passes the directory over. */
  lemma DirectoryPassedOver()
    ensures var a, b := ["foo"], ["foo.bar", "foo/"];
            Lists(a, b) && Same("foo", "foo/") && "foo" !in Reported(Pairs(a, b)) && "foo" in Reported(Pairs(a, b[1..]))
  {
    hide Pairs, Reported, StrCmp, Agreeing, Lists;
    var a, b := ["foo"], ["foo.bar", "foo/"];
    FooLists();
    FooOrder();
    assert "foo" + "/" == "foo/" && b[1..] == ["foo/"];
    IntersectionIff(a, b, "foo");
    IntersectionIff(a, b[1..], "foo");
    StrCmpZero("foo/", "foo/");
    assert Clear(b[1..], "foo");
    assert b[0] == "foo.bar" && b[1] == "foo/" && b[1..][0] == "foo/";
    assert "foo.bar"[3] == '.' && "foo/"[3] == '/';
  }

  /** A directory's path without its slash. */
  function Cut(r: string): string { if Dir(r) then r[..|r| - 1] else r }

  lemma FileReported(a: seq<string>, b: seq<string>, r: string)
    requires Agreeing(a, b) && r in a && !Dir(r)
    ensures r in Reported(Pairs(a, b)) <==> r in b || (r + "/" in b && Clear(b, r))
  {
    hide Lists, Clear, Pairs;
    ReportedMembers(Pairs(a, b), r);
    if r in b {
      PairsComplete(a, b, r);
    } else {
      if r + "/" in b {
        FileDirPaired(a, b, r);
      }
      forall q | (r, q) in Pairs(a, b) ensures q == r + "/" && q in b {
        PairsSound(a, b, (r, q));
        SlashEnds(q);
      }
    }
  }

  lemma DirReported(a: seq<string>, b: seq<string>, r: string)
    requires Agreeing(a, b) && r in a && Dir(r)
    ensures r in Reported(Pairs(a, b)) <==> !Dir(Cut(r)) && Cut(r) in b && Cut(r) !in a && Clear(a, Cut(r))
  {
    hide Lists, Clear, Pairs;
    var x := Cut(r);
    assert r == x + "/";
    ReportedMembers(Pairs(a, b), r);
    forall q | (r, q) in Pairs(a, b) && !Dir(q) ensures q == x && q in b {
      PairsSound(a, b, (r, q));
      SlashEnds(r);
      assert r == q + "/" ==> q == r[..|r| - 1];
    }
    SwapLists(a, b);
    PairsSwap(a, b, r, x);
    if x in b && !Dir(x) {
      if x in a {
        PairsComplete(a, b, x);
        PairedOnce(a, b, x, r, x);
      } else {
        FileDirPaired(b, a, x);
      }
    }
  }

  lemma SwapLists(a: seq<string>, b: seq<string>)
    ensures Agreeing(a, b) ==> Agreeing(b, a)
  {
    hide PathOrder, StrCmp;
    if Agreeing(a, b) {
      forall x, y | x in b && y in a ensures SameSign(x, y) {
        assert SameSign(y, x);
        OrderSwaps(x, y);
        StrCmpAntisymmetric(x, y);
      }
    }
  }

  lemma PairedWithin(a: seq<string>, b: seq<string>, x: string, y: string)
    requires Paths(a) && Paths(b)
    ensures (x, y) in Pairs(a, b) ==> y in b
  {
    if (x, y) in Pairs(a, b) { PairsSound(a, b, (x, y)); }
  }

  /** An entry of the second list is in one pair only. */
  lemma {:induction false} PairedOnce(a: seq<string>, b: seq<string>, p: string, q: string, y: string)
    requires Lists(a, b) && (p, y) in Pairs(a, b) && p != q
    ensures (q, y) !in Pairs(a, b)
    decreases |a| + |b|
  {
    hide PathOrder, Lists, StrCmp;
    ListsTail(a, b);
    var c := PathOrder(a[0], b[0]);
    if c < 0 {
      PairedOnce(a[1..], b, p, q, y);
    } else if c > 0 {
      PairedOnce(a, b[1..], p, q, y);
    } else {
      assert Pairs(a, b) == [(a[0], b[0])] + Pairs(a[1..], b[1..]);
      if y == b[0] {
        Ordered(y, y, y);
        PairedWithin(a[1..], b[1..], p, y);
        PairedWithin(a[1..], b[1..], q, y);
      } else {
        PairedOnce(a[1..], b[1..], p, q, y);
      }
    }
  }
}
