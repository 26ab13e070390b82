/**
 * String helpers standing in for the PHP built-ins the query builder uses:
 * `implode`, `strtoupper`, integer-to-string conversion, and the `\s`
 * character class of the PCRE pattern that parses condition keys.
 */
module Text {

  /** PCRE's `\s` without UTF mode: space, tab, LF, VT, FF and CR. */
  predicate IsSpace(c: char) {
    c == ' ' || c == '\t' || c == '\n' || c == '\U{B}' || c == '\U{C}' || c == '\r'
  }

  /** Every character of `s` at positions `lo` up to `hi` is whitespace. */
  predicate SpaceBetween(s: string, lo: int, hi: int) {
    forall i | lo <= i < hi && 0 <= i < |s| :: IsSpace(s[i])
  }

  /** `s` with its trailing whitespace run removed. */
  function TrimRight(s: string): (r: string)
    ensures r <= s
    ensures SpaceBetween(s, |r|, |s|)
    ensures r == [] || !IsSpace(r[|r| - 1])
  {
    if |s| > 0 && IsSpace(s[|s| - 1]) then TrimRight(s[..|s| - 1]) else s
  }

  /** Whatever follows an all-whitespace tail cannot survive trimming. */
  lemma TrimRightWithin(s: string, p: nat)
    requires p <= |s|
    requires SpaceBetween(s, p, |s|)
    ensures |TrimRight(s)| <= p
  {
  }

  /** PHP's `implode(sep, parts)`. */
  function Join(parts: seq<string>, sep: string): string
  {
    if |parts| == 0 then []
    else if |parts| == 1 then parts[0]
    else parts[0] + sep + Join(parts[1..], sep)
  }

  /** Number of occurrences of `c` in `s`. */
  function Count(s: string, c: char): nat
  {
    if |s| == 0 then 0 else (if s[0] == c then 1 else 0) + Count(s[1..], c)
  }

  lemma {:induction false} CountConcat(a: string, b: string, c: char)
    ensures Count(a + b, c) == Count(a, c) + Count(b, c)
  {
    if |a| == 0 {
      assert a + b == b;
    } else {
      assert (a + b)[1..] == a[1..] + b;
      CountConcat(a[1..], b, c);
    }
  }

  lemma {:induction false} CountAbsent(s: string, c: char)
    ensures Count(s, c) == 0 <==> c !in s
  {
    if |s| > 0 {
      CountAbsent(s[1..], c);
      assert s == [s[0]] + s[1..];
    }
  }

  /**
   * Joining parts that each hold exactly one `c` with a separator free of
   * `c` yields exactly one `c` per part.
   */
  lemma {:induction false} CountJoin(parts: seq<string>, sep: string, c: char)
    requires c !in sep
    requires forall i | 0 <= i < |parts| :: Count(parts[i], c) == 1
    ensures Count(Join(parts, sep), c) == |parts|
  {
    if |parts| > 1 {
      CountJoin(parts[1..], sep, c);
      CountAbsent(sep, c);
      CountConcat(parts[0], sep, c);
      CountConcat(parts[0] + sep, Join(parts[1..], sep), c);
    }
  }

  predicate IsLower(c: char) {
    'a' <= c <= 'z'
  }

  /** PHP 8.2's locale-independent `strtoupper` on one character. */
  function UpperChar(c: char): char {
    if IsLower(c) then (c as int - 32) as char else c
  }

  /** PHP's `strtoupper`: ASCII letters are upper-cased, all else kept. */
  function ToUpper(s: string): (r: string)
    ensures |r| == |s|
    ensures forall i | 0 <= i < |s| :: !IsLower(r[i])
    ensures forall i | 0 <= i < |s| :: !IsLower(s[i]) ==> r[i] == s[i]
    ensures forall i | 0 <= i < |s| :: IsLower(s[i]) ==> r[i] as int == s[i] as int - 32
  {
    if |s| == 0 then [] else [UpperChar(s[0])] + ToUpper(s[1..])
  }

  predicate IsDigit(c: char) {
    '0' <= c <= '9'
  }

  function DigitChar(d: nat): (c: char)
    requires d < 10
    ensures IsDigit(c)
  {
    "0123456789"[d]
  }

  function DigitValue(c: char): (d: nat)
    requires IsDigit(c)
    ensures d < 10
  {
    c as int - '0' as int
  }

  /** Decimal digits of `n`, most significant first, without leading zeros. */
  function NatToString(n: nat): (r: string)
    ensures |r| > 0
    ensures forall i | 0 <= i < |r| :: IsDigit(r[i])
    ensures n > 0 ==> r[0] != '0'
  {
    if n < 10 then [DigitChar(n)] else NatToString(n / 10) + [DigitChar(n % 10)]
  }

  /** PHP's rendering of an integer inside a string concatenation. */
  function IntToString(n: int): string
  {
    if n < 0 then "-" + NatToString(-n) else NatToString(n)
  }

  predicate AllDigits(s: string) {
    forall i | 0 <= i < |s| :: IsDigit(s[i])
  }

  /** An optional minus sign followed by at least one digit. */
  predicate IsDecimal(s: string) {
    if |s| > 0 && s[0] == '-' then |s| > 1 && AllDigits(s[1..]) else |s| > 0 && AllDigits(s)
  }

  /**
   * A numeral as PHP writes an integer: no leading zero (except the numeral
   * `0` itself) and no `-0`.
   */
  predicate IsCanonicalDecimal(s: string) {
    && IsDecimal(s)
    && (if s[0] == '-' then s[1] != '0' else s[0] == '0' ==> |s| == 1)
  }

  function ParseNat(s: string): nat
    requires AllDigits(s)
  {
    if |s| == 0 then 0 else ParseNat(s[..|s| - 1]) * 10 + DigitValue(s[|s| - 1])
  }

  /** Reads back an optionally negative decimal numeral. */
  function ParseInt(s: string): int
    requires IsDecimal(s)
  {
    if |s| > 0 && s[0] == '-' then -(ParseNat(s[1..]) as int) else ParseNat(s)
  }

  lemma {:induction false} NatToStringRoundTrip(n: nat)
    ensures ParseNat(NatToString(n)) == n
  {
    if n >= 10 {
      var s := NatToString(n);
      assert s[..|s| - 1] == NatToString(n / 10);
      NatToStringRoundTrip(n / 10);
    }
  }

  /**
   * The rendered integer is a canonical decimal numeral (no leading zero
   * after the optional `-`) that reads back as itself.
   */
  lemma IntToStringRoundTrip(n: int)
    ensures IsCanonicalDecimal(IntToString(n))
    ensures ParseInt(IntToString(n)) == n
  {
    NatToStringRoundTrip(if n < 0 then -n else n);
    if n < 0 {
      assert IntToString(n)[1..] == NatToString(-n);
    } else {
      assert NatToString(n)[0] != '-';
    }
  }

  /** A digit string whose first digit is not zero reads as a positive number. */
  lemma {:induction false} LeadingDigitPositive(s: string)
    requires |s| > 0 && AllDigits(s) && s[0] != '0'
    ensures ParseNat(s) > 0
  {
    if |s| > 1 {
      LeadingDigitPositive(s[..|s| - 1]);
    }
  }

  /** Writing out the value of a digit string without leading zeros gives it back. */
  lemma {:induction false} CanonicalNatRoundTrip(s: string)
    requires |s| > 0 && AllDigits(s) && (s[0] == '0' ==> |s| == 1)
    ensures NatToString(ParseNat(s)) == s
  {
    var n := ParseNat(s);
    var d := s[|s| - 1];
    if |s| == 1 {
      assert "0123456789"[DigitValue(d)] == d;
    } else {
      var init := s[..|s| - 1];
      LeadingDigitPositive(init);
      CanonicalNatRoundTrip(init);
      assert n / 10 == ParseNat(init) && n % 10 == DigitValue(d);
      assert "0123456789"[DigitValue(d)] == d;
      assert s == init + [d];
    }
  }

  /**
   * A canonical numeral is the only one with its value, so a numeral is
   * pinned down by being canonical and reading back as `n`.
   */
  lemma CanonicalDecimalUnique(s: string, n: int)
    requires IsCanonicalDecimal(s) && ParseInt(s) == n
    ensures s == IntToString(n)
  {
    if s[0] == '-' {
      CanonicalNatRoundTrip(s[1..]);
      LeadingDigitPositive(s[1..]);
      assert s == "-" + s[1..];
    } else {
      CanonicalNatRoundTrip(s);
    }
  }

  lemma IntToStringHasNoMark(n: int, c: char)
    requires !IsDigit(c) && c != '-'
    ensures c !in IntToString(n)
  {
    var r := IntToString(n);
    forall i | 0 <= i < |r|
      ensures r[i] != c
    {
      if n < 0 && i > 0 {
        assert r[i] == NatToString(-n)[i - 1];
      }
    }
  }
}
