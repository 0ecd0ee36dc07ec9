/** Version comparison (version.c): the segment walk of rpmvercmp against a
    lexicographic order on parsed keys, and its lift to epoch:version-release. */
module Version {
  import opened Text

  datatype Class = Separator | Digit | Alpha

  predicate IsAlpha(c: char) { 'a' <= c <= 'z' || 'A' <= c <= 'Z' }

  predicate Is(k: Class, c: char) {
    match k
    case Digit => IsDigit(c)
    case Alpha => IsAlpha(c)
    case Separator => !IsDigit(c) && !IsAlpha(c)
  }

  /** The end of the longest run of class k in s that starts at index i. */
  function Span(s: string, i: nat, k: Class): (j: nat)
    requires i <= |s|
    ensures i <= j <= |s|
    ensures forall x :: i <= x < j ==> Is(k, s[x])
    ensures j < |s| ==> !Is(k, s[j])
    decreases |s| - i
  {
    if i < |s| && Is(k, s[i]) then Span(s, i + 1, k) else i
  }

  /** What a version component says: alternating words and numbers, each with the
      number of separator characters before it, and whether separators trail. */
  datatype Key =
    | End(trailing: bool)
    | Word(sep: nat, text: string, rest: Key)
    | Number(sep: nat, value: nat, rest: Key)

  function KeyAt(s: string, i: nat): Key
    requires i <= |s|
    decreases |s| - i
  {
    var j := Span(s, i, Separator);
    if j == |s| then End(j > i)
    else if IsDigit(s[j]) then
      var k := Span(s, j, Digit);
      Number(j - i, NatOf(s[j..k]), KeyAt(s, k))
    else
      var k := Span(s, j, Alpha);
      Word(j - i, s[j..k], KeyAt(s, k))
  }

  function KeyOf(s: string): Key { KeyAt(s, 0) }

  /** Lexicographic order on keys. More separators are newer, a number is newer than a
      word, and the end of a key is newer than a word it meets unless that word follows a
      separator and the end does not. */
  function Compare(x: Key, y: Key): (r: int)
    ensures -1 <= r <= 1
    decreases x
  {
    match (x, y)
    case (End(s), End(t)) => if s == t then 0 else if t then -1 else 1
    case (End(s), Word(n, _, _)) => if !s && n > 0 then -1 else 1
    case (End(_), Number(_, _, _)) => -1
    case (Word(n, _, _), End(t)) => if !t && n > 0 then 1 else -1
    case (Number(_, _, _), End(_)) => 1
    case (Word(m, a, u), Word(n, b, v)) =>
      if m != n then Sign(m - n) else if StrCmp(a, b) != 0 then StrCmp(a, b) else Compare(u, v)
    case (Number(m, a, u), Number(n, b, v)) =>
      if m != n then Sign(m - n) else if a != b then Sign(a - b) else Compare(u, v)
    case (Word(m, _, _), Number(n, _, _)) => if m > n then 1 else -1
    case (Number(m, _, _), Word(n, _, _)) => if m < n then -1 else 1
  }

  // ----- the order laws of keys

  lemma {:induction false} CompareAntisymmetric(x: Key, y: Key)
    ensures Compare(x, y) == -Compare(y, x)
    decreases x
  {
    match (x, y)
    case (Word(_, a, u), Word(_, b, v)) => StrCmpAntisymmetric(a, b); CompareAntisymmetric(u, v);
    case (Number(_, _, u), Number(_, _, v)) => CompareAntisymmetric(u, v);
    case (_, _) =>
  }

  /** Two components compare equal exactly when they parse to the same key. */
  lemma {:induction false} CompareZero(x: Key, y: Key)
    ensures Compare(x, y) == 0 <==> x == y
    decreases x
  {
    match (x, y)
    case (Word(_, a, u), Word(_, b, v)) => StrCmpZero(a, b); CompareZero(u, v);
    case (Number(_, _, u), Number(_, _, v)) => CompareZero(u, v);
    case (_, _) =>
  }

  predicate Le(x: Key, y: Key) { Compare(x, y) <= 0 }

  predicate SameHead(x: Key, y: Key) {
    || (x.Word? && y.Word? && x.sep == y.sep && x.text == y.text)
    || (x.Number? && y.Number? && x.sep == y.sep && x.value == y.value)
  }

  /** A trailing separator against a number and a word with more separators than the number. */
  predicate Clash(x: Key, y: Key, z: Key) {
    x == End(true) && y.Number? && z.Word? && y.sep < z.sep
  }

  predicate ClashAnyOrder(x: Key, y: Key, z: Key) {
    || Clash(x, y, z) || Clash(x, z, y) || Clash(y, x, z)
    || Clash(y, z, x) || Clash(z, x, y) || Clash(z, y, x)
  }

  /** The three keys agree up to a position at which they clash. */
  predicate Tangled(x: Key, y: Key, z: Key)
    decreases x
  {
    if SameHead(x, y) && SameHead(y, z) then Tangled(x.rest, y.rest, z.rest)
    else ClashAnyOrder(x, y, z)
  }

  predicate Chain(x: Key, y: Key, z: Key) { Le(x, y) && Le(y, z) ==> Le(x, z) }

  /** Transitivity on three keys taken in any order. */
  predicate Transitive(x: Key, y: Key, z: Key) {
    Chain(x, y, z) && Chain(x, z, y) && Chain(y, x, z) && Chain(y, z, x) && Chain(z, x, y) && Chain(z, y, x)
  }

  lemma {:induction false} ChainUnlessTangled(x: Key, y: Key, z: Key)
    requires !Tangled(x, y, z)
    ensures Chain(x, y, z)
    decreases x
  {
    if SameHead(x, y) && SameHead(y, z) {
      if x.Word? { StrCmpZero(x.text, x.text); }
      ChainUnlessTangled(x.rest, y.rest, z.rest);
    } else if x.Word? && y.Word? && z.Word? && Le(x, y) && Le(y, z) && x.sep == y.sep == z.sep {
      StrCmpZero(x.text, y.text);
      StrCmpZero(y.text, z.text);
      StrCmpTransitive(x.text, y.text, z.text);
    }
  }

  lemma TangledSymmetric(x: Key, y: Key, z: Key)
    ensures Tangled(x, y, z) == Tangled(x, z, y) == Tangled(y, x, z)
    ensures Tangled(x, y, z) == Tangled(y, z, x) == Tangled(z, x, y) == Tangled(z, y, x)
  {
  }

  predicate Lt(x: Key, y: Key) { Compare(x, y) < 0 }

  predicate Cycle(x: Key, y: Key, z: Key) {
    (Lt(x, y) && Lt(y, z) && Lt(z, x)) || (Lt(y, x) && Lt(z, y) && Lt(x, z))
  }

  lemma {:induction false} TangledIsCycle(x: Key, y: Key, z: Key)
    requires Tangled(x, y, z)
    ensures Cycle(x, y, z)
    decreases x
  {
    hide StrCmp;
    if SameHead(x, y) && SameHead(y, z) {
      if x.Word? { StrCmpZero(x.text, x.text); }
      TangledIsCycle(x.rest, y.rest, z.rest);
    }
  }

  /** The order is transitive on exactly the triples that are not tangled. */
  lemma TransitiveIffNotTangled(x: Key, y: Key, z: Key)
    ensures Transitive(x, y, z) <==> !Tangled(x, y, z)
  {
    TangledSymmetric(x, y, z);
    if Tangled(x, y, z) {
      TangledIsCycle(x, y, z);
      CompareAntisymmetric(x, y); CompareAntisymmetric(y, z); CompareAntisymmetric(z, x);
    } else {
      ChainUnlessTangled(x, y, z); ChainUnlessTangled(x, z, y); ChainUnlessTangled(y, x, z);
      ChainUnlessTangled(y, z, x); ChainUnlessTangled(z, x, y); ChainUnlessTangled(z, y, x);
    }
  }

  // ----- the segment walk computes that order

  /** Of two digit strings the one with fewer digits is smaller, if the other has no leading zero. */
  lemma {:induction false} ShorterIsSmaller(x: string, y: string)
    requires AllDigits(x) && AllDigits(y) && |x| < |y| && y[0] != '0'
    ensures NatOf(x) < NatOf(y)
    decreases |x|
  {
    if x != [] {
      ShorterIsSmaller(x[..|x| - 1], y[..|y| - 1]);
    } else {
      LeadingDigitCounts(y);
    }
  }

  lemma {:induction false} LeadingDigitCounts(y: string)
    requires AllDigits(y) && y != [] && y[0] != '0'
    ensures NatOf(y) > 0
  {
    if |y| > 1 { LeadingDigitCounts(y[..|y| - 1]); }
  }

  lemma {:induction false} StrCmpByLast(x: string, y: string)
    requires |x| == |y| > 0
    ensures var n := |x| - 1; var c := StrCmp(x[..n], y[..n]);
            StrCmp(x, y) == if c != 0 then c else Sign(x[n] as int - y[n] as int)
    decreases |x|
  {
    if |x| > 1 && x[0] == y[0] {
      StrCmpByLast(x[1..], y[1..]);
      var n := |x| - 1;
      assert x[1..][..n - 1] == x[..n][1..] && y[1..][..n - 1] == y[..n][1..];
    }
  }

  /** Among digit strings of one length strcmp is the numeric order. */
  lemma {:induction false} SameLengthByStrCmp(x: string, y: string)
    requires AllDigits(x) && AllDigits(y) && |x| == |y|
    ensures StrCmp(x, y) == Sign(NatOf(x) - NatOf(y))
    decreases |x|
  {
    if x != [] {
      StrCmpByLast(x, y);
      SameLengthByStrCmp(x[..|x| - 1], y[..|y| - 1]);
    }
  }

  lemma {:induction false} LeadingZero(s: string)
    requires AllDigits(s) && s != [] && s[0] == '0'
    ensures NatOf(s[1..]) == NatOf(s)
    decreases |s|
  {
    if |s| > 1 {
      var t := s[..|s| - 1];
      LeadingZero(t);
      assert t[1..] == s[1..][..|s| - 2];
    }
  }

  /** The end of the run of class k, found one character at a time. */
  method SkipRun(s: string, start: nat, k: Class) returns (j: nat)
    requires start <= |s|
    ensures start <= j <= |s| && j == Span(s, start, k)
  {
    j := start;
    while j < |s| && Is(k, s[j])
      invariant start <= j <= |s| && Span(s, start, k) == Span(s, j, k)
    {
      j := j + 1;
    }
  }

  /** Digit segments: leading zeros are dropped, then length and strcmp decide. */
  method CompareNumbers(x: string, y: string) returns (rc: int)
    requires AllDigits(x) && AllDigits(y)
    ensures rc == Sign(NatOf(x) - NatOf(y))
  {
    var one := StripZeros(x);
    var two := StripZeros(y);
    if |one| > |two| { ShorterIsSmaller(two, one); return 1; }
    if |two| > |one| { ShorterIsSmaller(one, two); return -1; }
    SameLengthByStrCmp(one, two);
    rc := StrCmp(one, two);
  }

  method StripZeros(x: string) returns (r: string)
    requires AllDigits(x)
    ensures AllDigits(r) && NatOf(r) == NatOf(x) && (r != [] ==> r[0] != '0')
  {
    r := x;
    while r != [] && r[0] == '0'
      invariant AllDigits(r) && NatOf(r) == NatOf(x)
    {
      LeadingZero(r);
      r := r[1..];
    }
  }

  /** What the walk decides when at least one string is used up. */
  function Showdown(x: string, y: string): int {
    if x == [] && y == [] then 0
    else if (x == [] && !IsAlpha(y[0])) || (x != [] && IsAlpha(x[0])) then -1
    else 1
  }

  /** The key from i, given the segment that starts at j after the separators. */
  lemma KeyHead(s: string, i: nat, j: nat, k: nat)
    requires i <= j < |s| && j == Span(s, i, Separator) && j <= k <= |s|
    ensures IsDigit(s[j]) && k == Span(s, j, Digit) ==> KeyAt(s, i) == Number(j - i, NatOf(s[j..k]), KeyAt(s, k))
    ensures IsAlpha(s[j]) && k == Span(s, j, Alpha) ==> KeyAt(s, i) == Word(j - i, s[j..k], KeyAt(s, k))
  {
  }

  /** The walk stops with one side used up and Showdown gives the order of the keys. */
  lemma ShowdownDecides(a: string, i: nat, one: nat, b: string, j: nat, two: nat)
    requires i <= one <= |a| && j <= two <= |b| && (one == |a| || two == |b|)
    requires (i == one && j == two) ||
             (i < |a| && j < |b| && one == Span(a, i, Separator) && two == Span(b, j, Separator))
    ensures Showdown(a[one..], b[two..]) == Compare(KeyAt(a, i), KeyAt(b, j))
  {
    KeyShape(a, i);
    KeyShape(b, j);
  }

  lemma KeyShape(s: string, i: nat)
    requires i <= |s|
    ensures var j := Span(s, i, Separator);
            var k := KeyAt(s, i);
            if j == |s| then k == End(j > i)
            else k.sep == j - i && if IsDigit(s[j]) then k.Number? else k.Word?
  {
  }

  /** Two segments of one kind that differ decide the keys they head. */
  lemma SegmentDecides(x: Key, y: Key, rc: int)
    requires (x.Number? && y.Number? && rc == Sign(x.value - y.value)) ||
             (x.Word? && y.Word? && rc == StrCmp(x.text, y.text))
    requires x.sep == y.sep
    ensures if rc != 0 then Compare(x, y) == rc else Compare(x, y) == Compare(x.rest, y.rest)
  {
    if x.Word? { StrCmpZero(x.text, y.text); }
  }

  /** One pass of the loop: an answer, or both positions moved past an equal segment. */
  method CompareSegment(a: string, i: nat, b: string, j: nat) returns (ret: Option<int>, i': nat, j': nat)
    requires i < |a| && j < |b|
    ensures ret.Some? ==> ret.value == Compare(KeyAt(a, i), KeyAt(b, j))
    ensures ret.None? ==> i < i' <= |a| && j < j' <= |b|
    ensures ret.None? ==> Compare(KeyAt(a, i'), KeyAt(b, j')) == Compare(KeyAt(a, i), KeyAt(b, j))
  {
    var one := SkipRun(a, i, Separator);
    var two := SkipRun(b, j, Separator);
    if !(one < |a| && two < |b|) {
      ShowdownDecides(a, i, one, b, j, two);
      return Some(Showdown(a[one..], b[two..])), i, j;
    }
    KeyShape(a, i);
    KeyShape(b, j);
    if one - i != two - j {
      return Some(if one - i < two - j then -1 else 1), i, j;
    }
    var isnum := IsDigit(a[one]);
    var ptr1 := SkipRun(a, one, if isnum then Digit else Alpha);
    var ptr2 := SkipRun(b, two, if isnum then Digit else Alpha);
    if two == ptr2 {
      return Some(if isnum then 1 else -1), i, j;
    }
    KeyHead(a, i, one, ptr1);
    KeyHead(b, j, two, ptr2);
    var rc;
    if isnum {
      rc := CompareNumbers(a[one..ptr1], b[two..ptr2]);
    } else {
      rc := StrCmp(a[one..ptr1], b[two..ptr2]);
    }
    SegmentDecides(KeyAt(a, i), KeyAt(b, j), rc);
    return if rc != 0 then Some(if rc < 1 then -1 else 1) else None, ptr1, ptr2;
  }

  /** rpmvercmp: walks both strings segment by segment. */
  method RpmVerCmp(a: string, b: string) returns (ret: int)
    ensures ret == Compare(KeyOf(a), KeyOf(b))
  {
    if a == b {
      CompareZero(KeyOf(a), KeyOf(b));
      return 0;
    }
    var one: nat, two: nat := 0, 0;
    while one < |a| && two < |b|
      invariant one <= |a| && two <= |b|
      invariant Compare(KeyAt(a, one), KeyAt(b, two)) == Compare(KeyOf(a), KeyOf(b))
      decreases |a| - one
    {
      var answer, ptr1, ptr2 := CompareSegment(a, one, b, two);
      if answer.Some? {
        return answer.value;
      }
      one, two := ptr1, ptr2;
    }
    ShowdownDecides(a, one, one, b, two, two);
    return Showdown(a[one..], b[two..]);
  }

  // ----- which of two components is the newer one

  ghost predicate All(k: Class, s: string) { forall i :: 0 <= i < |s| ==> Is(k, s[i]) }

  /** x does not go on with the last segment of s, and s does not end in a separator. */
  ghost predicate Boundary(s: string, x: string) {
    s != "" ==>
      && !Is(Separator, s[|s| - 1])
      && (x != "" ==> !(IsDigit(s[|s| - 1]) && IsDigit(x[0])) && !(IsAlpha(s[|s| - 1]) && IsAlpha(x[0])))
  }

  lemma SpanIs(s: string, i: nat, k: Class, j: nat)
    requires i <= j <= |s| && (forall x :: i <= x < j ==> Is(k, s[x])) && (j < |s| ==> !Is(k, s[j]))
    ensures Span(s, i, k) == j
  {
  }

  lemma KeyEnd(s: string, i: nat)
    requires i <= |s| && Span(s, i, Separator) == |s|
    ensures KeyAt(s, i) == End(|s| > i)
  {
  }

  lemma SpanShift(s: string, x: string, i: nat, c: Class)
    requires i <= |x|
    ensures Span(s + x, |s| + i, c) == |s| + Span(x, i, c)
  {
    hide Is, Span;
    var t, n, j := s + x, |s|, Span(x, i, c);
    forall k | n + i <= k < n + j ensures Is(c, t[k]) { assert t[k] == x[k - n]; }
    SpanIs(t, n + i, c, n + j);
  }

  lemma {:induction false} KeyShift(s: string, x: string, i: nat)
    requires i <= |x|
    ensures KeyAt(s + x, |s| + i) == KeyAt(x, i)
    decreases |x| - i
  {
    hide Is, Span, KeyAt, NatOf;
    var t, n := s + x, |s|;
    var j := Span(x, i, Separator);
    SpanShift(s, x, i, Separator);
    if j == |x| {
      KeyEnd(x, i);
      KeyEnd(t, n + i);
    } else {
      var c := if IsDigit(x[j]) then Digit else Alpha;
      var k := Span(x, j, c);
      SpanShift(s, x, j, c);
      assert t[n + j] == x[j] && t[n + j..n + k] == x[j..k];
      StopsAt(x, i);
      KeyHead(x, i, j, k);
      KeyHead(t, n + i, n + j, n + k);
      KeyShift(s, x, k);
    }
  }

  lemma StopsAt(x: string, i: nat)
    requires i <= |x| && Span(x, i, Separator) < |x|
    ensures var j := Span(x, i, Separator);
            var c := if IsDigit(x[j]) then Digit else Alpha;
            Span(x, j, c) > j && (!IsDigit(x[j]) ==> IsAlpha(x[j]))
  {
  }

  /** What two components start with alike does not matter. */
  lemma {:induction false} CommonStart(s: string, x: string, y: string, i: nat)
    requires i <= |s| && Boundary(s, x) && Boundary(s, y)
    ensures Compare(KeyAt(s + x, i), KeyAt(s + y, i)) == Compare(KeyOf(x), KeyOf(y))
    decreases |s| - i
  {
    hide Is, Span, KeyAt, NatOf, Boundary, Compare, StrCmp;
    if i == |s| {
      KeyShift(s, x, 0);
      KeyShift(s, y, 0);
    } else {
      var j := Span(s, i, Separator);
      assert j < |s| by { SegmentOf(s, x, i); }
      var c := if IsDigit(s[j]) then Digit else Alpha;
      var k := Span(s, j, c);
      SegmentOf(s, x, i);
      SegmentOf(s, y, i);
      StopsAt(s, i);
      CommonStart(s, x, y, k);
      StrCmpZero(s[j..k], s[j..k]);
      SegmentDecides(KeyAt(s + x, i), KeyAt(s + y, i), 0);
    }
  }

  lemma SegmentOf(s: string, x: string, i: nat)
    requires i < |s| && Boundary(s, x)
    ensures var j := Span(s, i, Separator);
            && j < |s|
            && var k := Span(s, j, if IsDigit(s[j]) then Digit else Alpha);
               KeyAt(s + x, i) ==
               if IsDigit(s[j]) then Number(j - i, NatOf(s[j..k]), KeyAt(s + x, k))
               else Word(j - i, s[j..k], KeyAt(s + x, k))
  {
    hide NatOf, KeyAt;
    var j := Span(s, i, Separator);
    var c := if IsDigit(s[j]) then Digit else Alpha;
    var k := Span(s, j, c);
    var t := s + x;
    assert forall n :: 0 <= n < |s| ==> t[n] == s[n];
    SpanIs(t, i, Separator, j);
    SpanIs(t, j, c, k);
    assert t[j..k] == s[j..k];
    KeyHead(t, i, j, k);
  }

  /** A segment m of one kind behind the separators z, and then u. */
  ghost predicate Segment(z: string, m: string, u: string, c: Class) {
    All(Separator, z) && c != Separator && m != "" && All(c, m) && (u != "" ==> !Is(c, u[0]))
  }

  lemma SegmentKey(z: string, m: string, u: string, c: Class)
    requires Segment(z, m, u, c)
    ensures c == Digit ==> AllDigits(m) && KeyOf(z + m + u) == Number(|z|, NatOf(m), KeyOf(u))
    ensures c == Alpha ==> KeyOf(z + m + u) == Word(|z|, m, KeyOf(u))
  {
    hide NatOf, KeyAt, Span;
    var t, j, k := z + m + u, |z|, |z| + |m|;
    assert forall i :: 0 <= i < j ==> t[i] == z[i];
    assert forall i :: j <= i < k ==> t[i] == m[i - j];
    assert k < |t| ==> t[k] == u[0];
    SpanIs(t, 0, Separator, j);
    SpanIs(t, j, c, k);
    assert t[j..k] == m;
    KeyHead(t, 0, j, k);
    assert (z + m) + u == t;
    KeyShift(z + m, u, 0);
  }

  lemma OnlySeparators(z: string)
    requires All(Separator, z)
    ensures KeyOf(z) == End(z != "")
  {
    SpanIs(z, 0, Separator, |z|);
  }

  ghost predicate Older(a: string, b: string) { Compare(KeyOf(a), KeyOf(b)) < 0 }

  /** Numbers are ordered by value, words by bytes, and a word is older than a number. */
  lemma SegmentsOrdered(s: string, z: string, m: string, u: string, c: Class, n: string, v: string, d: Class)
    requires Segment(z, m, u, c) && Segment(z, n, v, d) && Boundary(s, z + m + u) && Boundary(s, z + n + v)
    ensures c == d == Digit ==> AllDigits(m) && AllDigits(n) && (NatOf(m) < NatOf(n) ==> Older(s + (z + m + u), s + (z + n + v)))
    ensures c == d == Alpha && StrCmp(m, n) < 0 ==> Older(s + (z + m + u), s + (z + n + v))
    ensures c == Alpha && d == Digit ==> Older(s + (z + m + u), s + (z + n + v))
  {
    hide NatOf, KeyAt, StrCmp, Boundary, Segment;
    SegmentKey(z, m, u, c);
    SegmentKey(z, n, v, d);
    CommonStart(s, z + m + u, z + n + v, 0);
  }

  /** More separators before a segment make it newer. */
  lemma MoreSeparatorsNewer(s: string, z: string, m: string, u: string, c: Class, y: string, n: string, v: string, d: Class)
    requires Segment(z, m, u, c) && Segment(y, n, v, d) && |z| < |y| && Boundary(s, z + m + u) && Boundary(s, y + n + v)
    ensures Older(s + (z + m + u), s + (y + n + v))
  {
    hide NatOf, KeyAt, StrCmp, Boundary;
    SegmentKey(z, m, u, c);
    SegmentKey(y, n, v, d);
    CommonStart(s, z + m + u, y + n + v, 0);
  }

  /** Against nothing more: a separator or a number makes a component newer, and so does a word
      behind a separator; a word that follows directly makes it older. */
  lemma AgainstTheEnd(s: string, z: string, m: string, u: string, c: Class)
    requires Segment(z, m, u, c) && Boundary(s, z + m + u)
    ensures z != "" || c == Digit ==> Older(s, s + (z + m + u))
    ensures z == "" && c == Alpha ==> Older(s + (z + m + u), s)
    ensures z != "" ==> Older(s, s + z)
  {
    hide NatOf, KeyAt, StrCmp, Boundary;
    SegmentKey(z, m, u, c);
    assert Boundary(s, "") && (z != "" ==> Boundary(s, z)) by {
      assert z + (m + u) == z + m + u;
      Boundaries(s, z, m + u);
    }
    CommonStart(s, "", z + m + u, 0);
    CommonStart(s, z + m + u, "", 0);
    OnlySeparators("");
    assert s + "" == s;
    if z != "" {
      CommonStart(s, "", z, 0);
      OnlySeparators(z);
    }
  }

  lemma Boundaries(s: string, z: string, rest: string)
    requires Boundary(s, z + rest)
    ensures Boundary(s, "") && (z != "" ==> Boundary(s, z))
  {
    if z != "" { assert (z + rest)[0] == z[0]; }
  }

  /** Against trailing separators: a number is newer and a word is older. */
  lemma AgainstTrailing(s: string, y: string, z: string, m: string, u: string, c: Class)
    requires Segment(z, m, u, c) && Boundary(s, z + m + u) && y != "" && All(Separator, y)
    ensures if c == Digit then Older(s + y, s + (z + m + u)) else Older(s + (z + m + u), s + y)
  {
    hide NatOf, KeyAt, StrCmp;
    SegmentKey(z, m, u, c);
    CommonStart(s, y, z + m + u, 0);
    CommonStart(s, z + m + u, y, 0);
    OnlySeparators(y);
  }

  // ----- epoch:version-release

  datatype Evr = Evr(epoch: string, version: string, release: Option<string>)

  function ParseEvr(evr: string): (r: Evr)
    ensures AllDigits(r.epoch) && r.epoch != []
  {
    var s := Span(evr, 0, Digit);
    var se := IndexFrom(evr, '-', s);
    var release := if se < |evr| then Some(evr[se + 1..]) else None;
    if s < |evr| && evr[s] == ':' then
      Evr(if s == 0 then "0" else evr[..s], evr[s + 1..se], release)
    else Evr("0", evr[..se], release)
  }

  predicate HasEpoch(evr: string) {
    var s := Span(evr, 0, Digit);
    s < |evr| && evr[s] == ':'
  }

  /** Where the version starts: after the digits and the colon of an epoch. */
  function VersionStart(evr: string): (i: nat)
    ensures i <= |evr|
  {
    if HasEpoch(evr) then Span(evr, 0, Digit) + 1 else 0
  }

  /** Nothing is lost in parsing: the pieces put together give the string back, and an
      epoch is made up only where the string has none. */
  lemma ParseEvrLosesNothing(evr: string)
    ensures var r := ParseEvr(evr);
            && '-' !in r.version
            && evr[VersionStart(evr)..] == r.version + (if r.release.Some? then "-" + r.release.value else [])
            && evr[..VersionStart(evr)] ==
                 (if !HasEpoch(evr) then [] else if evr[0] == ':' then ":" else r.epoch + ":")
            && (evr[..VersionStart(evr)] in {[], ":"} ==> r.epoch == "0")
  {
    var r := ParseEvr(evr);
    var s := Span(evr, 0, Digit);
    var se := IndexFrom(evr, '-', s);
    assert '-' !in evr[..se];
    assert r.version == evr[VersionStart(evr)..se];
    if HasEpoch(evr) {
      assert evr[..s + 1] == evr[..s] + ":";
    }
  }

  /** The key form of a full version: a numeric epoch, then two component keys. */
  datatype FullKey = FullKey(epoch: nat, version: Key, release: Option<Key>)

  function FullKeyOf(s: string): FullKey {
    var e := ParseEvr(s);
    FullKey(NatOf(e.epoch), KeyOf(e.version), if e.release.Some? then Some(KeyOf(e.release.value)) else None)
  }

  /** Lexicographic, with a missing release equal to any. */
  function FullCompare(x: FullKey, y: FullKey): (r: int)
    ensures -1 <= r <= 1
  {
    if x.epoch != y.epoch then Sign(x.epoch - y.epoch)
    else if Compare(x.version, y.version) != 0 then Compare(x.version, y.version)
    else if x.release.Some? && y.release.Some? then Compare(x.release.value, y.release.value)
    else 0
  }

  lemma EpochIsNumeric(e: string)
    requires AllDigits(e) && e != []
    ensures KeyOf(e) == Number(0, NatOf(e), End(false))
  {
    SpanWhole(e, 0);
    KeyHead(e, 0, 0, |e|);
    assert e[0..|e|] == e;
    assert KeyAt(e, |e|) == End(false);
  }

  lemma {:induction false} SpanWhole(e: string, i: nat)
    requires AllDigits(e) && i <= |e|
    ensures Span(e, i, Digit) == |e|
    decreases |e| - i
  {
    if i < |e| { SpanWhole(e, i + 1); }
  }

  /** ret orders two split versions: a smaller epoch, taken as a number, is older; with equal
      epochs the older version is; with equal versions the older release, if both have one. */
  ghost predicate ByParts(x: Evr, y: Evr, ret: int)
    requires AllDigits(x.epoch) && AllDigits(y.epoch)
  {
    var m, n := NatOf(x.epoch), NatOf(y.epoch);
    var version := Compare(KeyOf(x.version), KeyOf(y.version));
    && (m < n ==> ret < 0) && (m > n ==> ret > 0)
    && (m == n && version < 0 ==> ret < 0) && (m == n && version > 0 ==> ret > 0)
    && (m == n && version == 0 && x.release.Some? && y.release.Some? ==>
          ret == Compare(KeyOf(x.release.value), KeyOf(y.release.value)))
    && (m == n && version == 0 && (x.release.None? || y.release.None?) ==> ret == 0)
  }

  /** klpm_pkg_vercmp on possibly null strings. */
  method PkgVerCmp(a: Option<string>, b: Option<string>) returns (ret: int)
    ensures a.None? && b.None? ==> ret == 0
    ensures a.None? && b.Some? ==> ret == -1
    ensures a.Some? && b.None? ==> ret == 1
    ensures a.Some? && b.Some? ==> ByParts(ParseEvr(a.value), ParseEvr(b.value), ret)
    ensures a.Some? && b.Some? ==> ret == FullCompare(FullKeyOf(a.value), FullKeyOf(b.value))
  {
    if a.None? { return if b.None? then 0 else -1; }
    if b.None? { return 1; }
    if a == b {
      FullCompareReflexive(FullKeyOf(a.value));
      CompareZero(KeyOf(ParseEvr(a.value).version), KeyOf(ParseEvr(a.value).version));
      return 0;
    }
    var full1, full2 := ParseEvr(a.value), ParseEvr(b.value);
    EpochIsNumeric(full1.epoch);
    EpochIsNumeric(full2.epoch);
    ret := RpmVerCmp(full1.epoch, full2.epoch);
    if ret == 0 {
      ret := RpmVerCmp(full1.version, full2.version);
      if ret == 0 && full1.release.Some? && full2.release.Some? {
        ret := RpmVerCmp(full1.release.value, full2.release.value);
      }
    }
  }

  lemma FullCompareReflexive(x: FullKey)
    ensures FullCompare(x, x) == 0
  {
    CompareZero(x.version, x.version);
    if x.release.Some? { CompareZero(x.release.value, x.release.value); }
  }

  /** Swapping two full versions negates the answer, whatever they contain. */
  lemma FullCompareAntisymmetric(x: FullKey, y: FullKey)
    ensures FullCompare(x, y) == -FullCompare(y, x)
  {
    CompareAntisymmetric(x.version, y.version);
    if x.release.Some? && y.release.Some? { CompareAntisymmetric(x.release.value, y.release.value); }
  }

  predicate FullLe(x: FullKey, y: FullKey) { FullCompare(x, y) <= 0 }

  predicate FullChain(x: FullKey, y: FullKey, z: FullKey) { FullLe(x, y) && FullLe(y, z) ==> FullLe(x, z) }

  predicate FullTransitive(x: FullKey, y: FullKey, z: FullKey) {
    && FullChain(x, y, z) && FullChain(x, z, y) && FullChain(y, x, z)
    && FullChain(y, z, x) && FullChain(z, x, y) && FullChain(z, y, x)
  }

  /** Two of the releases differ and the third is missing. */
  predicate Bridged(r: Option<Key>, s: Option<Key>, t: Option<Key>) {
    || (r.Some? && s.Some? && t.None? && r != s)
    || (r.Some? && s.None? && t.Some? && r != t)
    || (r.None? && s.Some? && t.Some? && s != t)
  }

  /** Epochs agree and either the versions tangle, or they agree too and the releases
      tangle or are bridged by a missing one. */
  predicate FullTangled(x: FullKey, y: FullKey, z: FullKey) {
    && x.epoch == y.epoch == z.epoch
    && (|| Tangled(x.version, y.version, z.version)
        || (&& x.version == y.version == z.version
            && (|| Bridged(x.release, y.release, z.release)
                || (&& x.release.Some? && y.release.Some? && z.release.Some?
                    && Tangled(x.release.value, y.release.value, z.release.value)))))
  }

  /** A component key with no trailing separator anywhere. */
  predicate Clean(x: Key) { if x.End? then !x.trailing else Clean(x.rest) }

  /** A version component is clean exactly when it is empty or ends in a letter or digit. */
  lemma CleanIff(s: string)
    ensures Clean(KeyOf(s)) <==> s == "" || IsDigit(s[|s| - 1]) || IsAlpha(s[|s| - 1])
  {
    CleanAtIff(s, 0);
  }

  lemma {:induction false} CleanAtIff(s: string, i: nat)
    requires i <= |s|
    ensures Clean(KeyAt(s, i)) <==> i == |s| || !Is(Separator, s[|s| - 1])
    decreases |s| - i
  {
    var j := Span(s, i, Separator);
    if j < |s| {
      var k := Span(s, j, if IsDigit(s[j]) then Digit else Alpha);
      CleanAtIff(s, k);
    }
  }

  lemma {:induction false} CleanNeverTangles(x: Key, y: Key, z: Key)
    requires Clean(x) && Clean(y) && Clean(z)
    ensures !Tangled(x, y, z)
    decreases x
  {
    if SameHead(x, y) && SameHead(y, z) { CleanNeverTangles(x.rest, y.rest, z.rest); }
  }

  lemma FullChainUnlessTangled(x: FullKey, y: FullKey, z: FullKey)
    requires !FullTangled(x, y, z)
    ensures FullChain(x, y, z)
  {
    CompareZero(x.version, y.version); CompareZero(y.version, z.version); CompareZero(x.version, z.version);
    CompareAntisymmetric(x.version, y.version); CompareAntisymmetric(x.version, z.version);
    if x.epoch == y.epoch == z.epoch { ChainUnlessTangled(x.version, y.version, z.version); }
    if x.version == y.version == z.version && x.release.Some? && z.release.Some? {
      CompareZero(x.release.value, z.release.value);
      if y.release.Some? && x.epoch == y.epoch == z.epoch {
        ChainUnlessTangled(x.release.value, y.release.value, z.release.value);
      }
    }
  }

  lemma FullTangledSymmetric(x: FullKey, y: FullKey, z: FullKey)
    ensures FullTangled(x, y, z) == FullTangled(x, z, y) == FullTangled(y, x, z)
    ensures FullTangled(x, y, z) == FullTangled(y, z, x) == FullTangled(z, x, y) == FullTangled(z, y, x)
  {
    TangledSymmetric(x.version, y.version, z.version);
    if x.release.Some? && y.release.Some? && z.release.Some? {
      TangledSymmetric(x.release.value, y.release.value, z.release.value);
    }
  }

  lemma FullTangledCycles(x: FullKey, y: FullKey, z: FullKey)
    requires FullTangled(x, y, z)
    ensures !FullTransitive(x, y, z)
  {
    if Tangled(x.version, y.version, z.version) {
      TangledIsCycle(x.version, y.version, z.version);
      CompareAntisymmetric(x.version, y.version);
      CompareAntisymmetric(y.version, z.version);
      CompareAntisymmetric(z.version, x.version);
    } else {
      CompareZero(x.version, x.version);
      if x.release.Some? && y.release.Some? {
        CompareZero(x.release.value, y.release.value); CompareAntisymmetric(x.release.value, y.release.value);
      }
      if x.release.Some? && z.release.Some? {
        CompareZero(x.release.value, z.release.value); CompareAntisymmetric(x.release.value, z.release.value);
      }
      if y.release.Some? && z.release.Some? {
        CompareZero(y.release.value, z.release.value); CompareAntisymmetric(y.release.value, z.release.value);
      }
      if x.release.Some? && y.release.Some? && z.release.Some? {
        TangledIsCycle(x.release.value, y.release.value, z.release.value);
      }
    }
  }

  /** Version order is transitive on exactly the triples that are not tangled. */
  lemma VersionOrderTransitiveIff(x: FullKey, y: FullKey, z: FullKey)
    ensures FullTransitive(x, y, z) <==> !FullTangled(x, y, z)
  {
    FullTangledSymmetric(x, y, z);
    if FullTangled(x, y, z) {
      FullTangledCycles(x, y, z);
    } else {
      FullChainUnlessTangled(x, y, z); FullChainUnlessTangled(x, z, y); FullChainUnlessTangled(y, x, z);
      FullChainUnlessTangled(y, z, x); FullChainUnlessTangled(z, x, y); FullChainUnlessTangled(z, y, x);
    }
  }

  predicate WellFormed(x: FullKey) { Clean(x.version) && x.release.Some? && Clean(x.release.value) }

  /** Versions that carry a release and end no component in a separator are totally preordered. */
  lemma WellFormedVersionsTotallyOrdered(x: FullKey, y: FullKey, z: FullKey)
    requires WellFormed(x) && WellFormed(y) && WellFormed(z)
    ensures FullLe(x, y) || FullLe(y, x)
    ensures FullLe(x, y) && FullLe(y, z) ==> FullLe(x, z)
    ensures FullCompare(x, y) == 0 <==> x == y
  {
    FullCompareAntisymmetric(x, y);
    CleanNeverTangles(x.version, y.version, z.version);
    CleanNeverTangles(x.release.value, y.release.value, z.release.value);
    FullChainUnlessTangled(x, y, z);
    CompareZero(x.version, y.version);
    CompareZero(x.release.value, y.release.value);
  }

  /** Three versions the code puts in a cycle. */
  lemma TrailingSeparatorCycle()
    ensures Compare(KeyOf("1.1"), KeyOf("1..a")) < 0
    ensures Compare(KeyOf("1..a"), KeyOf("1..")) < 0
    ensures Compare(KeyOf("1.."), KeyOf("1.1")) < 0
  {
    hide KeyAt, KeyOf, Span;
    var x, y, z := "1.1", "1..a", "1..";
    assert |x| == 3 && x[0] == '1' && x[1] == '.' && x[2] == '1';
    assert |y| == 4 && y[0] == '1' && y[1] == '.' && y[2] == '.' && y[3] == 'a';
    assert |z| == 3 && z[0] == '1' && z[1] == '.' && z[2] == '.';
    AfterOne(x, 2);
    AfterOne(y, 3);
    AfterOne(z, 3);
  }

  lemma AfterOne(s: string, j: nat)
    requires 1 < j <= |s| && s[0] == '1' && Is(Separator, s[1]) && Is(Separator, s[j - 1]) && j <= 3
    requires j < |s| ==> !Is(Separator, s[j])
    ensures KeyOf(s).Number? && KeyOf(s).sep == 0 && KeyOf(s).value == 1
    ensures var k := KeyOf(s).rest;
            if j == |s| then k == End(true)
            else !k.End? && k.sep == j - 1 && if IsDigit(s[j]) then k.Number? else k.Word?
  {
    assert Span(s, 0, Separator) == 0;
    assert Span(s, 0, Digit) == Span(s, 1, Digit) == 1;
    KeyHead(s, 0, 0, 1);
    assert s[0..1] == "1";
    assert NatOf("1") == 10 * NatOf("1"[..0]) + 1;
    assert Span(s, 1, Separator) == j;
    KeyShape(s, 1);
  }
}
