/** The base64 codec (base64.c; section 5.2 of RFC 1521). */
module Base64 {
  type Byte = x: int | 0 <= x < 256

  const CR: Byte := 13
  const LF: Byte := 10
  const PAD := 64       // what the decoding map gives for '='
  const BAD := 127      // what it gives for a character outside the alphabet

  /** base64_dec_map, with every byte above 127 bad. */
  function DecMap(c: Byte): (v: Byte)
    ensures v <= PAD || v == BAD
  {
    if 65 <= c <= 90 then c - 65
    else if 97 <= c <= 122 then c - 71
    else if 48 <= c <= 57 then c + 4
    else if c == 43 then 62
    else if c == 47 then 63
    else if c == 61 then PAD
    else BAD
  }

  /** base64_enc_map, with '=' for the padding value. */
  function EncMap(v: Byte): (c: Byte)
    requires v <= PAD
    ensures DecMap(c) == v && c != CR && c != LF
  {
    if v < 26 then v + 65
    else if v < 52 then v + 71
    else if v < 62 then v - 4
    else if v == 62 then 43
    else if v == 63 then 47
    else 61
  }

  /** The alphabet of table 1 of RFC 1521. */
  const UPPER := "ABCDEFGHIJKLMNOPQRSTUVWXYZ"
  const LOWER := "abcdefghijklmnopqrstuvwxyz"
  const DIGITS := "0123456789"
  const ALPHABET := UPPER + LOWER + DIGITS + "+/"

  lemma UpperIs(i: nat)
    requires i < 26
    ensures |UPPER| == 26 && UPPER[i] as int == 65 + i
  {
    assert UPPER[0] == 'A' && UPPER[1] == 'B' && UPPER[2] == 'C' && UPPER[3] == 'D' && UPPER[4] == 'E' && UPPER[5] == 'F';
    assert UPPER[6] == 'G' && UPPER[7] == 'H' && UPPER[8] == 'I' && UPPER[9] == 'J' && UPPER[10] == 'K' && UPPER[11] == 'L';
    assert UPPER[12] == 'M' && UPPER[13] == 'N' && UPPER[14] == 'O' && UPPER[15] == 'P' && UPPER[16] == 'Q' && UPPER[17] == 'R';
    assert UPPER[18] == 'S' && UPPER[19] == 'T' && UPPER[20] == 'U' && UPPER[21] == 'V' && UPPER[22] == 'W' && UPPER[23] == 'X';
    assert UPPER[24] == 'Y' && UPPER[25] == 'Z';
  }

  lemma LowerIs(i: nat)
    requires i < 26
    ensures |LOWER| == 26 && LOWER[i] as int == 97 + i
  {
    assert LOWER[0] == 'a' && LOWER[1] == 'b' && LOWER[2] == 'c' && LOWER[3] == 'd' && LOWER[4] == 'e' && LOWER[5] == 'f';
    assert LOWER[6] == 'g' && LOWER[7] == 'h' && LOWER[8] == 'i' && LOWER[9] == 'j' && LOWER[10] == 'k' && LOWER[11] == 'l';
    assert LOWER[12] == 'm' && LOWER[13] == 'n' && LOWER[14] == 'o' && LOWER[15] == 'p' && LOWER[16] == 'q' && LOWER[17] == 'r';
    assert LOWER[18] == 's' && LOWER[19] == 't' && LOWER[20] == 'u' && LOWER[21] == 'v' && LOWER[22] == 'w' && LOWER[23] == 'x';
    assert LOWER[24] == 'y' && LOWER[25] == 'z';
  }

  lemma DigitsAre(i: nat)
    requires i < 10
    ensures |DIGITS| == 10 && DIGITS[i] as int == 48 + i
  {
    assert DIGITS[0] == '0' && DIGITS[1] == '1' && DIGITS[2] == '2' && DIGITS[3] == '3' && DIGITS[4] == '4' && DIGITS[5] == '5';
    assert DIGITS[6] == '6' && DIGITS[7] == '7' && DIGITS[8] == '8' && DIGITS[9] == '9';
  }

  lemma AlphabetIs(i: nat)
    requires i < 64
    ensures |ALPHABET| == 64 && ALPHABET[i] as int == EncMap(i)
  {
    UpperIs(i % 26);
    LowerIs(i % 26);
    DigitsAre(i % 10);
    if i < 26 {
      assert ALPHABET[i] == UPPER[i];
    } else if i < 52 {
      LowerIs(i - 26);
      assert ALPHABET[i] == LOWER[i - 26];
    } else if i < 62 {
      DigitsAre(i - 52);
      assert ALPHABET[i] == DIGITS[i - 52];
    } else {
      assert ALPHABET[62] == '+' && ALPHABET[63] == '/';
    }
  }

  /** Each character of the alphabet stands for its place in it, '=' for padding, and no other
      byte for anything. */
  lemma AlphabetDecodes(c: Byte)
    ensures |ALPHABET| == 64
    ensures forall i :: 0 <= i < 64 && ALPHABET[i] as int == c ==> DecMap(c) == i
    ensures c == '=' as int ==> DecMap(c) == PAD
    ensures (forall i :: 0 <= i < 64 ==> ALPHABET[i] as int != c) && c != '=' as int ==> DecMap(c) == BAD
  {
    forall i | 0 <= i < 64 ensures ALPHABET[i] as int == EncMap(i) { AlphabetIs(i); }
    if DecMap(c) < 64 { assert ALPHABET[DecMap(c)] as int == c; }
  }

  // ----- encoding

  /** The six-bit groups of the data, padded to whole quartets. */
  function Sextets(data: seq<Byte>): (r: seq<Byte>)
    ensures forall i :: 0 <= i < |r| ==> r[i] <= PAD
  {
    if data == [] then []
    else if |data| == 1 then [data[0] / 4, data[0] % 4 * 16, PAD, PAD]
    else if |data| == 2 then [data[0] / 4, data[0] % 4 * 16 + data[1] / 16, data[1] % 16 * 4, PAD]
    else
      [data[0] / 4, data[0] % 4 * 16 + data[1] / 16, data[1] % 16 * 4 + data[2] / 64, data[2] % 64] + Sextets(data[3..])
  }

  /** A quartet holds the bits of three bytes, the first ones first; missing bytes count as zero. */
  lemma SextetsHoldBits(data: seq<Byte>)
    requires data != []
    ensures var s := Sextets(data);
            && |s| >= 4 && (s[2] == PAD <==> |data| == 1) && (s[3] == PAD <==> |data| <= 2)
            && var a: int, b: int, c: int, d: int := s[0], s[1], s[2], s[3];
               var x: int, y: int, z: int := data[0], if |data| > 1 then data[1] else 0, if |data| > 2 then data[2] else 0;
               262144 * a + 4096 * b + 64 * (c % 64) + d % 64 == 65536 * x + 256 * y + z
  {
  }

  function Encode(data: seq<Byte>): (r: seq<Byte>)
  {
    var s := Sextets(data);
    seq(|s|, i requires 0 <= i < |s| => EncMap(s[i]))
  }

  // ----- decoding: what counts as input

  predicate Break(c: Byte) { c == CR || c == LF }

  /** The map values of the characters that are not line breaks. */
  function Values(src: seq<Byte>): seq<Byte> {
    if src == [] then []
    else Values(src[..|src| - 1]) + if Break(src[|src| - 1]) then [] else [DecMap(src[|src| - 1])]
  }

  ghost predicate LineEnds(src: seq<Byte>) {
    forall i :: 0 <= i < |src| && src[i] == CR ==> i + 1 < |src| && src[i + 1] == LF
  }

  /** An alphabet value, or padding near the end with only padding after it. */
  ghost predicate Placed(vals: seq<Byte>, i: nat)
    requires i < |vals|
  {
    vals[i] != BAD && (vals[i] == PAD ==> |vals| - i <= 2 && (i + 1 < |vals| ==> vals[i + 1] == PAD))
  }

  /** Alphabet values, then at most two padding values. */
  ghost predicate Padded(vals: seq<Byte>) { forall i :: 0 <= i < |vals| ==> Placed(vals, i) }

  ghost predicate WellFormed(src: seq<Byte>) { LineEnds(src) && Padded(Values(src)) }

  lemma ValuesStep(src: seq<Byte>, i: nat)
    requires i < |src|
    ensures Values(src[..i + 1]) == Values(src[..i]) + if Break(src[i]) then [] else [DecMap(src[i])]
  {
    assert src[..i + 1][..i] == src[..i];
  }

  lemma {:induction false} ValuesPrefix(src: seq<Byte>, i: nat)
    requires i <= |src|
    ensures Values(src[..i]) <= Values(src)
    decreases |src| - i
  {
    if i == |src| {
      assert src[..i] == src;
    } else {
      ValuesPrefix(src, i + 1);
      ValuesStep(src, i);
    }
  }

  /** The padding seen so far: the last j values. */
  ghost predicate Counted(vals: seq<Byte>, j: nat) {
    && j <= 2 && j <= |vals|
    && (forall i :: 0 <= i < |vals| - j ==> vals[i] < PAD)
    && (forall i :: |vals| - j <= i < |vals| ==> vals[i] == PAD)
  }

  lemma CountedPadded(vals: seq<Byte>, j: nat)
    requires Counted(vals, j)
    ensures Padded(vals)
  {
  }

  lemma NotPadded(vals: seq<Byte>, n: nat, j: nat)
    requires n < |vals| && Counted(vals[..n], j)
    requires vals[n] == BAD || (vals[n] == PAD && j == 2) || (vals[n] < PAD && j > 0)
    ensures !Padded(vals)
  {
    var k := if vals[n] == BAD then n else if vals[n] == PAD then n - 2 else n - 1;
    assert k < n ==> vals[k] == vals[..n][k] == PAD;
    assert !Placed(vals, k);
  }

  /** The reasons to reject a character are reasons to reject the whole input. */
  lemma RejectValue(src: seq<Byte>, i: nat, j: nat)
    requires i < |src| && Counted(Values(src[..i]), j) && !Break(src[i])
    requires var v := DecMap(src[i]); v == BAD || (v == PAD && j == 2) || (v < PAD && j > 0)
    ensures !Padded(Values(src))
  {
    hide Values, Padded, Counted, DecMap;
    ValuesPrefix(src, i + 1);
    ValuesStep(src, i);
    var vals, before := Values(src), Values(src[..i]);
    assert vals[|before|] == DecMap(src[i]);
    assert vals[..|before|] == before;
    NotPadded(vals, |before|, j);
  }

  datatype Error = None | InvalidCharacter | BufferTooSmall

  /** The first pass: checks the input and counts its characters. */
  method Measure(src: seq<Byte>) returns (ok: bool, n: nat)
    ensures ok <==> WellFormed(src)
    ensures ok ==> n == |Values(src)|
  {
    hide Values, Padded;
    var j := 0;
    n := 0;
    EmptyValues(src);
    for i := 0 to |src|
      invariant Counted(Values(src[..i]), j) && n == |Values(src[..i])|
      invariant forall k :: 0 <= k < i && src[k] == CR ==> k + 1 < |src| && src[k + 1] == LF
    {
      ValuesStep(src, i);
      if |src| - i >= 2 && src[i] == CR && src[i + 1] == LF {
        continue;
      }
      if src[i] == LF {
        continue;
      }
      if src[i] != CR && (DecMap(src[i]) == BAD || (DecMap(src[i]) == PAD && j == 2) || (DecMap(src[i]) < PAD && j > 0)) {
        RejectValue(src, i, j);
      }
      if src[i] == 61 {
        j := j + 1;
        if j > 2 {
          return false, n;
        }
      }
      if DecMap(src[i]) == BAD {
        return false, n;
      }
      if DecMap(src[i]) < 64 && j != 0 {
        return false, n;
      }
      n := n + 1;
    }
    assert src[..|src|] == src;
    CountedPadded(Values(src), j);
    ok := true;
  }

  lemma EmptyValues(src: seq<Byte>)
    ensures Values(src[..0]) == []
  {
  }

  // ----- decoding: what comes out

  /** The decoder's state: bytes to write for a quartet, characters in it, the 32-bit
      accumulator, and the output. */
  datatype State = State(j: int, n: nat, x: nat, out: seq<Byte>)

  const WORD := 0x1_0000_0000

  function Bytes(x: nat, j: int): seq<Byte> {
    (if j > 0 then [x / 65536 % 256] else []) + (if j > 1 then [x / 256 % 256] else []) + (if j > 2 then [x % 256] else [])
  }

  function Shift(x: nat, v: Byte): nat { (x * 64 + v % 64) % WORD }

  function Step(s: State, v: Byte): State {
    var j := if v == PAD then s.j - 1 else s.j;
    var x := Shift(s.x, v);
    if s.n + 1 == 4 then State(j, 0, x, s.out + Bytes(x, j)) else State(j, s.n + 1, x, s.out)
  }

  function Run(s: State, vals: seq<Byte>): State {
    if vals == [] then s else Step(Run(s, vals[..|vals| - 1]), vals[|vals| - 1])
  }

  lemma {:induction false} RunAppend(s: State, a: seq<Byte>, b: seq<Byte>)
    ensures Run(s, a + b) == Run(Run(s, a), b)
    decreases |b|
  {
    hide Step;
    if b == [] {
      assert a + b == a;
    } else {
      RunAppend(s, a, b[..|b| - 1]);
      assert (a + b)[..|a + b| - 1] == a + b[..|b| - 1];
    }
  }

  lemma RunStep(s: State, vals: seq<Byte>, v: Byte)
    ensures Run(s, vals + [v]) == Step(Run(s, vals), v)
  {
    assert (vals + [v])[..|vals|] == vals;
  }

  /** What is written never outgrows three bytes a quartet. */
  lemma {:induction false} Bounded(s: State, vals: seq<Byte>)
    requires s.n < 4 && s.j <= 3
    ensures var r := Run(s, vals); r.j <= 3 && r.n < 4 && 4 * |r.out| <= 4 * |s.out| + 3 * (s.n + |vals| - r.n)
    decreases |vals|
  {
    if vals != [] {
      Bounded(s, vals[..|vals| - 1]);
    }
  }

  /** base64_decode. A well-formed input that fits is decoded within the size announced by the
      first pass; nothing to decode leaves the caller's length alone. */
  method Decode(dst: array<Byte>, dlen: nat, src: seq<Byte>) returns (error: Error, len: nat)
    requires dlen <= dst.Length
    modifies dst
    ensures error == InvalidCharacter <==> !WellFormed(src)
    ensures var n := (|Values(src)| * 6 + 7) / 8;
            error == BufferTooSmall <==> WellFormed(src) && n > 0 && dlen < n
    ensures error == BufferTooSmall ==> len == (|Values(src)| * 6 + 7) / 8
    ensures error == None && Values(src) == [] ==> len == dlen
    ensures error == None && Values(src) != [] ==>
              len <= (|Values(src)| * 6 + 7) / 8 <= dlen && dst[..len] == Run(State(3, 0, 0, []), Values(src)).out
    ensures error != None || Values(src) == [] ==> dst[..] == old(dst[..])
  {
    var ok, n := Measure(src);
    if !ok {
      return InvalidCharacter, dlen;
    }
    if n == 0 {
      return None, dlen;
    }
    n := (n * 6 + 7) / 8;
    if dlen < n {
      return BufferTooSmall, n;
    }
    len := Fill(dst, src);
    error := None;
  }

  /** The second pass. */
  method Fill(dst: array<Byte>, src: seq<Byte>) returns (p: nat)
    requires (|Values(src)| * 6 + 7) / 8 <= dst.Length
    modifies dst
    ensures p <= (|Values(src)| * 6 + 7) / 8 && dst[..p] == Run(State(3, 0, 0, []), Values(src)).out
  {
    hide Values, Step, Run;
    ghost var start := State(3, 0, 0, []);
    var j, n, x := 3, 0, 0;
    p := 0;
    EmptyRun(src, start);
    for i := 0 to |src|
      invariant p <= dst.Length && State(j, n, x, dst[..p]) == Run(start, Values(src[..i]))
    {
      ValuesStep(src, i);
      if src[i] == CR || src[i] == LF {
        assert Values(src[..i + 1]) == Values(src[..i]);
        continue;
      }
      var v := DecMap(src[i]);
      RunStep(start, Values(src[..i]), v);
      RoomLeft(start, src, i + 1);
      j, n, x, p := Consume(dst, j, n, x, p, v);
    }
    assert src[..|src|] == src;
    Bounded(start, Values(src));
  }

  lemma EmptyRun(src: seq<Byte>, s: State)
    ensures Run(s, Values(src[..0])) == s
  {
  }

  lemma RoomLeft(s: State, src: seq<Byte>, i: nat)
    requires s == State(3, 0, 0, []) && i <= |src|
    ensures |Run(s, Values(src[..i])).out| <= (|Values(src)| * 6 + 7) / 8
    ensures Run(s, Values(src[..i])).n < 4
  {
    hide Run, Values;
    Bounded(s, Values(src[..i]));
    ValuesPrefix(src, i);
  }

  /** One character of the second pass. */
  method Consume(dst: array<Byte>, j0: int, n0: nat, x0: nat, p0: nat, v: Byte) returns (j: int, n: nat, x: nat, p: nat)
    requires p0 <= dst.Length && |Step(State(j0, n0, x0, dst[..p0]), v).out| <= dst.Length
    modifies dst
    ensures p <= dst.Length && State(j, n, x, dst[..p]) == Step(State(j0, n0, x0, old(dst[..p0])), v)
  {
    j := if v == PAD then j0 - 1 else j0;
    x := (x0 * 64 + v % 64) % WORD;
    n := n0 + 1;
    p := p0;
    if n == 4 {
      n := 0;
      if j > 0 {
        dst[p] := x / 65536 % 256;
        p := p + 1;
      }
      if j > 1 {
        dst[p] := x / 256 % 256;
        p := p + 1;
      }
      if j > 2 {
        dst[p] := x % 256;
        p := p + 1;
      }
    }
  }

  // ----- the round trip

  /** A quartet determines the low 24 bits of the accumulator, whatever it held before. */
  lemma Quartet(s: State, a: Byte, b: Byte, c: Byte, d: Byte) returns (k: int)
    requires s.n == 0 && a < 64 && b < 64 && c <= PAD && d <= PAD
    ensures var j := s.j - (if c == PAD then 1 else 0) - (if d == PAD then 1 else 0);
            var r := Run(s, [a, b, c, d]);
            && r.n == 0 && r.j == j && r.out == s.out + Bytes(r.x, j)
            && r.x == 16777216 * k + 262144 * a + 4096 * b + 64 * (c % 64) + d % 64
  {
    hide Run, Bytes, Shift;
    k := LowBits(s.x, a, b, c, d);
    RunFour(s, a, b, c, d);
  }

  lemma RunFour(s: State, a: Byte, b: Byte, c: Byte, d: Byte)
    ensures Run(s, [a, b, c, d]) == Step(Step(Step(Step(s, a), b), c), d)
  {
    hide Step;
    RunStep(s, [], a);
    RunStep(s, [a], b);
    RunStep(s, [a, b], c);
    RunStep(s, [a, b, c], d);
    assert [] + [a] == [a] && [a] + [b] == [a, b] && [a, b] + [c] == [a, b, c] && [a, b, c] + [d] == [a, b, c, d];
  }

  lemma LowBits(x: nat, a: Byte, b: Byte, c: Byte, d: Byte) returns (k: int)
    requires a < 64 && b < 64
    ensures Shift(Shift(Shift(Shift(x, a), b), c), d) == 16777216 * k + 262144 * a + 4096 * b + 64 * (c % 64) + d % 64
  {
    hide Shift;
    var x1 := Shift(x, a);
    var x2 := Shift(x1, b);
    var x3 := Shift(x2, c);
    var t1 := Lost(x, a);
    var t2 := Lost(x1, b);
    var t3 := Lost(x2, c);
    var t4 := Lost(x3, d);
    k := x - 256 * (262144 * t1 + 4096 * t2 + 64 * t3 + t4);
  }

  /** What a shift loses is a multiple of the word size. */
  lemma Lost(x: nat, v: Byte) returns (t: int)
    ensures Shift(x, v) == x * 64 + v % 64 - WORD * t
  {
    t := (x * 64 + v % 64) / WORD;
  }

  /** The three low bytes of a word. */
  lemma ThreeLow(x: nat, k: int, b2: Byte, b1: Byte, b0: Byte)
    requires x == 16777216 * k + 65536 * b2 + 256 * b1 + b0
    ensures x / 65536 % 256 == b2 && x / 256 % 256 == b1 && x % 256 == b0
  {
    var y := 65536 * k + 256 * b2 + b1;
    var z := 256 * k + b2;
    assert x == 256 * y + b0;
    assert x == 65536 * z + (256 * b1 + b0);
  }

  /** Decoding the groups of the data, from any accumulator, appends the data. */
  lemma {:induction false} RoundTripValues(s: State, data: seq<Byte>)
    requires s.n == 0 && s.j == 3
    ensures Run(s, Sextets(data)).out == s.out + data
    decreases |data|
  {
    hide Run, Step;
    if |data| == 0 {
      EmptyValues([]);
      EmptyRun([], s);
    } else if |data| == 1 {
      RoundTripOne(s, data[0]);
      assert data == [data[0]];
    } else if |data| == 2 {
      RoundTripTwo(s, data[0], data[1]);
      assert data == [data[0], data[1]];
    } else {
      RoundTripThree(s, data[0], data[1], data[2]);
      var q := Sextets(data[..3]);
      assert data[..3] == [data[0], data[1], data[2]];
      assert Sextets(data) == q + Sextets(data[3..]);
      RunAppend(s, q, Sextets(data[3..]));
      RoundTripValues(Run(s, q), data[3..]);
      assert data == data[..3] + data[3..];
    }
  }

  lemma RoundTripOne(s: State, a: Byte)
    requires s.n == 0 && s.j == 3
    ensures Run(s, Sextets([a])).out == s.out + [a]
  {
    hide Run, Step;
    var k := Quartet(s, a / 4, a % 4 * 16, PAD, PAD);
    ThreeLow(Run(s, Sextets([a])).x, k, a, 0, 0);
  }

  lemma RoundTripTwo(s: State, a: Byte, b: Byte)
    requires s.n == 0 && s.j == 3
    ensures Run(s, Sextets([a, b])).out == s.out + [a, b]
  {
    hide Run, Step;
    var k := Quartet(s, a / 4, a % 4 * 16 + b / 16, b % 16 * 4, PAD);
    ThreeLow(Run(s, Sextets([a, b])).x, k, a, b, 0);
  }

  lemma RoundTripThree(s: State, a: Byte, b: Byte, c: Byte)
    requires s.n == 0 && s.j == 3
    ensures var r := Run(s, Sextets([a, b, c])); r.n == 0 && r.j == 3 && r.out == s.out + [a, b, c]
  {
    hide Run, Step;
    var k := Quartet(s, a / 4, a % 4 * 16 + b / 16, b % 16 * 4 + c / 64, c % 64);
    assert Sextets([a, b, c]) == [a / 4, a % 4 * 16 + b / 16, b % 16 * 4 + c / 64, c % 64];
    ThreeLow(Run(s, Sextets([a, b, c])).x, k, a, b, c);
  }

  /** The input without its line breaks. */
  function Stripped(src: seq<Byte>): seq<Byte> {
    if src == [] then []
    else Stripped(src[..|src| - 1]) + if Break(src[|src| - 1]) then [] else [src[|src| - 1]]
  }

  lemma {:induction false} ValuesOfStripped(src: seq<Byte>)
    ensures |Values(src)| == |Stripped(src)|
    ensures forall i :: 0 <= i < |Stripped(src)| ==> Values(src)[i] == DecMap(Stripped(src)[i])
    decreases |src|
  {
    if src != [] {
      ValuesOfStripped(src[..|src| - 1]);
    }
  }

  lemma {:induction false} SextetsPadded(data: seq<Byte>)
    ensures Padded(Sextets(data)) && |Sextets(data)| == (|data| + 2) / 3 * 4
    decreases |data|
  {
    if |data| >= 3 {
      SextetsPadded(data[3..]);
      PaddedAppend(Sextets(data)[..4], Sextets(data[3..]));
    }
  }

  lemma PaddedAppend(q: seq<Byte>, rest: seq<Byte>)
    requires Padded(rest) && forall i :: 0 <= i < |q| ==> q[i] < PAD
    ensures Padded(q + rest)
  {
    var s := q + rest;
    forall i | 0 <= i < |s| ensures Placed(s, i) {
      if i < |q| {
        assert s[i] == q[i];
      } else {
        assert s[i] == rest[i - |q|] && Placed(rest, i - |q|);
      }
    }
  }

  /** Encoded data with line breaks inserted anywhere is well-formed and decodes to the data;
      the announced size has room for it. */
  lemma DecodesBack(data: seq<Byte>, src: seq<Byte>)
    requires LineEnds(src) && Stripped(src) == Encode(data)
    ensures WellFormed(src) && Run(State(3, 0, 0, []), Values(src)).out == data
    ensures |data| <= (|Values(src)| * 6 + 7) / 8 && (Values(src) == [] <==> data == [])
  {
    hide Run, Values, Stripped, Padded;
    ValuesOfStripped(src);
    assert Values(src) == Sextets(data);
    SextetsPadded(data);
    RoundTripValues(State(3, 0, 0, []), data);
  }

  /** Decoding what was encoded: the data comes back, and so does its length, unless there
      was nothing to decode: then the caller's length stays. */
  method RoundTrip(dst: array<Byte>, dlen: nat, src: seq<Byte>, ghost data: seq<Byte>) returns (error: Error, len: nat)
    requires dlen <= dst.Length && LineEnds(src) && Stripped(src) == Encode(data)
    modifies dst
    ensures error != InvalidCharacter
    ensures error == None ==> |data| <= dst.Length && dst[..|data|] == data
    ensures error == None ==> (len == |data| <==> data != [] || dlen == 0)
    ensures dlen >= (|Encode(data)| * 6 + 7) / 8 ==> error == None
  {
    hide Run, Values, Stripped, WellFormed, Encode;
    DecodesBack(data, src);
    ValuesOfStripped(src);
    error, len := Decode(dst, dlen, src);
  }
}
