/** Decimal numbers as printf writes them and the parsers of util.c read them. */
module Numbers {
  import opened Text

  function Digit(d: nat): (c: char)
    requires d < 10
    ensures IsDigit(c) && c as int - '0' as int == d
  {
    (d + '0' as int) as char
  }

  function Decimal(n: nat): (s: string)
    ensures s != "" && AllDigits(s)
  {
    if n < 10 then [Digit(n)] else Decimal(n / 10) + [Digit(n % 10)]
  }

  /** What printf("%jd") writes. */
  function PrintInt(n: int): string { if n < 0 then "-" + Decimal(-n) else Decimal(n) }

  lemma {:induction false} NatOfDecimal(n: nat)
    ensures NatOf(Decimal(n)) == n
    decreases n
  {
    if n >= 10 {
      NatOfDecimal(n / 10);
      assert Decimal(n)[..|Decimal(n)| - 1] == Decimal(n / 10);
    } else {
      assert NatOf("") == 0;
      assert Decimal(n)[..0] == "";
    }
  }

  const INT64 := 0x8000_0000_0000_0000

  predicate Space(c: char) { c == ' ' || '\t' <= c <= '\r' }

  function SkipSpace(s: string): string { if s != "" && Space(s[0]) then SkipSpace(s[1..]) else s }

  /** _klpm_parsedate: strtoll on the whole line, zero for anything else or out of range. */
  function ParseDate(line: string): int {
    var s := SkipSpace(line);
    var negative := s != "" && s[0] == '-';
    var digits := if s != "" && (s[0] == '-' || s[0] == '+') then s[1..] else s;
    if digits == "" || !AllDigits(digits) then 0
    else
      var v := if negative then 0 - NatOf(digits) else NatOf(digits);
      if -INT64 <= v < INT64 then v else 0
  }

  /** _klpm_strtoofft: strtoull on the whole line, stored in 64 signed bits; minus one for
      anything else or out of range. */
  function ParseSize(line: string): int {
    if line == "" || !AllDigits(line) then -1
    else
      var v := NatOf(line);
      if v >= 2 * INT64 then -1 else if v >= INT64 then v - 2 * INT64 else v
  }

  lemma NoSpace(s: string)
    requires s == "" || !Space(s[0])
    ensures SkipSpace(s) == s
  {
  }

  /** A date survives its decimal form. */
  lemma DateRoundTrip(n: int)
    requires -INT64 <= n < INT64
    ensures ParseDate(PrintInt(n)) == n
  {
    var s := PrintInt(n);
    assert !Space(s[0]);
    NoSpace(s);
    NatOfDecimal(if n < 0 then -n else n);
    if n < 0 {
      assert s[1..] == Decimal(-n);
    } else {
      assert s[0] != '-' && s[0] != '+';
    }
  }

  /** A size survives its decimal form, except that every negative one comes back as -1. */
  lemma SizeRoundTripIff(n: int)
    requires -INT64 <= n < INT64
    ensures ParseSize(PrintInt(n)) == n <==> n >= -1
  {
    if n >= 0 {
      NatOfDecimal(n);
    } else {
      assert !IsDigit(PrintInt(n)[0]);
    }
  }
}
