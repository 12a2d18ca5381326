/**
 * The pieces of Python's text handling that the script relies on:
 * `str.strip()` with no argument, `str(n)` / `f"{n}"` for an integer, and
 * the fixed-width zero-padded numbers that `strftime` writes.  Each comes
 * with the inverse or characterisation that pins it down.
 */
module PyText {

  /** The characters for which Python's `str.isspace()` holds; `str.strip()` removes exactly these. */
  predicate IsSpace(c: char) {
    || c == ' '
    || '\t' <= c <= '\r'
    || '\U{1c}' <= c <= '\U{1f}'
    || c == '\U{85}' || c == '\U{a0}' || c == '\U{1680}'
    || '\U{2000}' <= c <= '\U{200a}'
    || c == '\U{2028}' || c == '\U{2029}' || c == '\U{202f}' || c == '\U{205f}' || c == '\U{3000}'
  }

  predicate AllSpace(s: string) {
    forall k :: 0 <= k < |s| ==> IsSpace(s[k])
  }

  /** How many whitespace characters `s` starts with. */
  function LeadingSpace(s: string): (n: nat)
    ensures n <= |s|
  {
    if s != [] && IsSpace(s[0]) then 1 + LeadingSpace(s[1..]) else 0
  }

  /** How many whitespace characters `s` ends with. */
  function TrailingSpace(s: string): (n: nat)
    ensures n <= |s|
  {
    if s != [] && IsSpace(s[|s| - 1]) then 1 + TrailingSpace(s[..|s| - 1]) else 0
  }

  /** Python's `s.strip()`: the leading whitespace dropped, then the trailing whitespace of what is left. */
  function Strip(s: string): string {
    var t := s[LeadingSpace(s)..];
    t[..|t| - TrailingSpace(t)]
  }

  /** The leading run is all whitespace and is followed by a non-whitespace character, if any. */
  lemma {:induction false} LeadingSpaceSpec(s: string)
    ensures var n := LeadingSpace(s);
            AllSpace(s[..n]) && (n < |s| ==> !IsSpace(s[n]))
  {
    if s != [] && IsSpace(s[0]) {
      LeadingSpaceSpec(s[1..]);
      var n := LeadingSpace(s);
      forall k | 0 <= k < n
        ensures IsSpace(s[..n][k])
      {
        if k > 0 {
          assert s[..n][k] == s[1..][..n - 1][k - 1];
        }
      }
      if n < |s| {
        assert s[n] == s[1..][n - 1];
      }
    }
  }

  /** The trailing run is all whitespace and is preceded by a non-whitespace character, if any. */
  lemma {:induction false} TrailingSpaceSpec(s: string)
    ensures var n := TrailingSpace(s);
            AllSpace(s[|s| - n..]) && (n < |s| ==> !IsSpace(s[|s| - n - 1]))
  {
    if s != [] && IsSpace(s[|s| - 1]) {
      var front := s[..|s| - 1];
      TrailingSpaceSpec(front);
      var n := TrailingSpace(s);
      var run, frontRun := s[|s| - n..], front[|front| - (n - 1)..];
      forall k | 0 <= k < n
        ensures IsSpace(run[k])
      {
        if k < n - 1 {
          assert run[k] == frontRun[k];
        }
      }
      if n < |s| {
        assert s[|s| - n - 1] == front[|front| - (n - 1) - 1];
      }
    }
  }

  /**
   * `Strip(s)` is the infix of `s` that only whitespace surrounds and that
   * neither starts nor ends with whitespace.
   */
  lemma StripShape(s: string)
    ensures var i, r := LeadingSpace(s), Strip(s);
            && i + |r| <= |s| && r == s[i..i + |r|]
            && AllSpace(s[..i]) && AllSpace(s[i + |r|..])
            && (r == [] || (!IsSpace(r[0]) && !IsSpace(r[|r| - 1])))
  {
    StripInfix(s);
    StripSurround(s);
    StripEnds(s);
  }

  lemma StripInfix(s: string)
    ensures var i, r := LeadingSpace(s), Strip(s);
            i + |r| <= |s| && r == s[i..i + |r|]
  {
    var i := LeadingSpace(s);
    var t := s[i..];
    assert Strip(s) == t[..|t| - TrailingSpace(t)];
    PrefixOfSuffix(s, i, |Strip(s)|);
  }

  lemma StripSurround(s: string)
    ensures var i, r := LeadingSpace(s), Strip(s);
            i + |r| <= |s| && AllSpace(s[..i]) && AllSpace(s[i + |r|..])
  {
    var i := LeadingSpace(s);
    var t := s[i..];
    var m := TrailingSpace(t);
    var n := |Strip(s)|;
    assert n == |t| - m;
    assert AllSpace(s[..i]) by {
      LeadingSpaceSpec(s);
    }
    assert AllSpace(s[i + n..]) by {
      TrailingSpaceSpec(t);
      SuffixOfSuffix(s, i, n);
    }
  }

  lemma StripEnds(s: string)
    ensures var r := Strip(s);
            r == [] || (!IsSpace(r[0]) && !IsSpace(r[|r| - 1]))
  {
    var i := LeadingSpace(s);
    var t := s[i..];
    var m := TrailingSpace(t);
    var r := Strip(s);
    if r != [] {
      LeadingSpaceSpec(s);
      TrailingSpaceSpec(t);
      assert r[0] == s[i];
      assert r[|r| - 1] == t[|t| - m - 1];
    }
  }

  lemma PrefixOfSuffix<T>(s: seq<T>, i: nat, n: nat)
    requires i + n <= |s|
    ensures s[i..][..n] == s[i..i + n]
  {
  }

  lemma SuffixOfSuffix<T>(s: seq<T>, i: nat, n: nat)
    requires i + n <= |s|
    ensures s[i..][n..] == s[i + n..]
  {
  }

  /** A line is dropped by the loader exactly when it holds nothing but whitespace. */
  lemma StripEmptyIff(s: string)
    ensures Strip(s) == [] <==> AllSpace(s)
  {
    var i := LeadingSpace(s);
    StripShape(s);
    LeadingSpaceSpec(s);
    if Strip(s) == [] {
      forall k | 0 <= k < |s|
        ensures IsSpace(s[k])
      {
        if k < i {
          assert s[k] == s[..i][k];
        }
      }
    }
  }

  /** Stripping twice changes nothing more than stripping once. */
  lemma StripIdempotent(s: string)
    ensures Strip(Strip(s)) == Strip(s)
  {
    var r := Strip(s);
    StripShape(s);
    assert LeadingSpace(r) == 0;
    assert r[0..] == r;
    assert TrailingSpace(r) == 0;
  }

  predicate IsDigit(c: char) {
    '0' <= c <= '9'
  }

  predicate AllDigits(s: string) {
    forall k :: 0 <= k < |s| ==> IsDigit(s[k])
  }

  function DigitValue(c: char): (d: nat)
    requires IsDigit(c)
    ensures d < 10
  {
    c as int - '0' as int
  }

  function DigitChar(d: nat): (c: char)
    requires d < 10
    ensures IsDigit(c) && DigitValue(c) == d
  {
    ('0' as int + d) as char
  }

  /** The number a string of decimal digits denotes, most significant digit first (Python's `int(s)` on digits). */
  function DecimalValue(s: string): nat
    requires AllDigits(s)
  {
    if s == [] then 0 else DecimalValue(s[..|s| - 1]) * 10 + DigitValue(s[|s| - 1])
  }

  /** Python's `str(n)` for `n >= 0`: the shortest decimal numeral, with no leading zero. */
  function NatToDecimal(n: nat): (r: string)
    ensures r != [] && AllDigits(r)
    ensures r[0] != '0' || r == "0"
    ensures DecimalValue(r) == n
  {
    if n < 10 then
      [DigitChar(n)]
    else
      var front := NatToDecimal(n / 10);
      var r := front + [DigitChar(n % 10)];
      assert r[..|r| - 1] == front;
      r
  }

  /** Text Python's `int(s)` accepts in the plain form `str` produces: an optional minus sign and then digits. */
  predicate IsDecimalText(s: string) {
    if |s| > 0 && s[0] == '-' then |s| > 1 && AllDigits(s[1..]) else |s| > 0 && AllDigits(s)
  }

  /** Python's `int(s)` on decimal text. */
  function DecimalToInt(s: string): int
    requires IsDecimalText(s)
  {
    if s[0] == '-' then -(DecimalValue(s[1..]) as int) else DecimalValue(s)
  }

  /** Python's `str(n)` and `f"{n}"` for an integer: a minus sign for negatives, then the digits. */
  function IntToDecimal(n: int): (r: string)
    ensures IsDecimalText(r) && DecimalToInt(r) == n
    ensures r[0] == '-' <==> n < 0
    ensures var digits := if n < 0 then r[1..] else r;
            AllDigits(digits) && (digits[0] != '0' || digits == "0")
  {
    if n < 0 then
      var digits := NatToDecimal(-n);
      assert ("-" + digits)[1..] == digits;
      "-" + digits
    else
      NatToDecimal(n)
  }

  /** Different integers are printed differently, so the decimal text identifies the integer. */
  lemma IntToDecimalInjective(a: int, b: int)
    requires IntToDecimal(a) == IntToDecimal(b)
    ensures a == b
  {
  }

  function Pow10(k: nat): (p: nat)
    ensures p >= 1
  {
    if k == 0 then 1 else 10 * Pow10(k - 1)
  }

  /**
   * `n` written in exactly `width` decimal digits with leading zeros, as
   * `strftime` writes `%Y` (width 4) and `%m`, `%d`, `%H`, `%M`, `%S` (width 2).
   */
  function ZeroPad(n: nat, width: nat): (r: string)
    requires n < Pow10(width)
    ensures |r| == width && AllDigits(r)
    ensures DecimalValue(r) == n
  {
    if width == 0 then
      []
    else
      var front := ZeroPad(n / 10, width - 1);
      var r := front + [DigitChar(n % 10)];
      assert r[..|r| - 1] == front;
      r
  }
}
