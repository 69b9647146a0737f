/**
 * Decimal rendering and parsing of integers, as JavaScript does them:
 * `Number.prototype.toString()` on a non-negative integer and
 * `parseInt(s, 10)`.
 */
module Decimal {
  import opened Wrappers

  predicate IsDigit(c: char) {
    '0' <= c <= '9'
  }

  function DigitValue(c: char): (d: nat)
    requires IsDigit(c)
    ensures d < 10
  {
    c as int - '0' as int
  }

  function DigitChar(d: nat): (c: char)
    requires d < 10
    ensures IsDigit(c) && DigitValue(c) == d
  {
    ('0' as int + d) as char
  }

  predicate AllDigits(s: string) {
    forall i | 0 <= i < |s| :: IsDigit(s[i])
  }

  /** The decimal form of `n`: digits only, no leading zero, least significant digit last. */
  function ToDecimal(n: nat): (s: string)
    ensures 1 <= |s| && AllDigits(s)
    ensures s[0] == '0' ==> n == 0 && s == "0"
    ensures s[|s| - 1] == DigitChar(n % 10)
    decreases n
  {
    if n < 10 then [DigitChar(n)] else ToDecimal(n / 10) + [DigitChar(n % 10)]
  }

  /** The value of a string of decimal digits, most significant first. */
  function DigitsValue(s: string): nat
    requires AllDigits(s)
    decreases |s|
  {
    if s == [] then 0 else 10 * DigitsValue(s[..|s| - 1]) + DigitValue(s[|s| - 1])
  }

  /** The length of the longest prefix of `s` made of decimal digits. */
  function DigitPrefixLength(s: string): (k: nat)
    ensures k <= |s| && AllDigits(s[..k])
    ensures k < |s| ==> !IsDigit(s[k])
  {
    if s == [] || !IsDigit(s[0]) then 0 else 1 + DigitPrefixLength(s[1..])
  }

  /** What `parseInt` reads after an optional sign. */
  function Unsigned(s: string): string {
    if |s| > 0 && (s[0] == '-' || s[0] == '+') then s[1..] else s
  }

  /**
   * `parseInt(s, 10)`: an optional sign, then the longest run of digits;
   * anything after the run is ignored, and no digit at all gives NaN (None).
   */
  function ParseInt(s: string): (r: Option<int>)
    ensures r.None? <==> DigitPrefixLength(Unsigned(s)) == 0
  {
    var body := Unsigned(s);
    var k := DigitPrefixLength(body);
    if k == 0 then None
    else
      var v: int := DigitsValue(body[..k]);
      if |s| > 0 && s[0] == '-' then Some(-v) else Some(v)
  }

  lemma {:induction false} DigitsValueOfDecimal(n: nat)
    ensures DigitsValue(ToDecimal(n)) == n
    decreases n
  {
    var s := ToDecimal(n);
    if n < 10 {
      assert s[..|s| - 1] == [];
    } else {
      assert s[..|s| - 1] == ToDecimal(n / 10);
      DigitsValueOfDecimal(n / 10);
    }
  }

  /** The digit run of a string of digits followed by a non-digit (or nothing) is exactly those digits. */
  lemma {:induction false} DigitPrefixOfDigits(d: string, rest: string)
    requires AllDigits(d) && (rest == [] || !IsDigit(rest[0]))
    ensures DigitPrefixLength(d + rest) == |d|
    decreases |d|
  {
    if d == [] {
      assert d + rest == rest;
    } else {
      assert (d + rest)[1..] == d[1..] + rest;
      DigitPrefixOfDigits(d[1..], rest);
    }
  }

  /** `parseInt` reads the decimal form back, whatever non-digit text follows it ("10px" gives 10). */
  lemma ParseIntOfDecimalPrefix(n: nat, rest: string)
    requires rest == [] || !IsDigit(rest[0])
    ensures ParseInt(ToDecimal(n) + rest) == Some(n)
  {
    var d := ToDecimal(n);
    var s := d + rest;
    assert s[0] == d[0];
    assert Unsigned(s) == s;
    DigitPrefixOfDigits(d, rest);
    assert s[..|d|] == d;
    DigitsValueOfDecimal(n);
  }

  /** Round trip: `parseInt(n.toString(), 10) === n` for every non-negative integer. */
  lemma ParseIntRoundTrip(n: nat)
    ensures ParseInt(ToDecimal(n)) == Some(n)
  {
    assert ToDecimal(n) + [] == ToDecimal(n);
    ParseIntOfDecimalPrefix(n, []);
  }

  /** Distinct numbers have distinct decimal forms. */
  lemma ToDecimalInjective(m: nat, n: nat)
    requires ToDecimal(m) == ToDecimal(n)
    ensures m == n
  {
    ParseIntRoundTrip(m);
    ParseIntRoundTrip(n);
  }
}
