/**
 * The countdown readout: `formatNumber` pads a number to two characters and
 * `getRemaining` splits a count of seconds into hours, minutes and seconds.
 */
module TimeFormat {
  import opened Wrappers
  import opened Decimal

  /** Reference rendering of a number below 100 as exactly two digits. */
  function TwoDigits(k: nat): string
    requires k < 100
  {
    [DigitChar(k / 10), DigitChar(k % 10)]
  }

  /**
   * `formatNumber`: prefix "0" to the decimal form and keep the last two
   * characters. The result is always the last two decimal digits of `n`, so
   * numbers of three or more digits lose their leading digits.
   */
  function FormatNumber(n: nat): (r: string)
    ensures r == TwoDigits(n % 100)
  {
    var s := "0" + ToDecimal(n);
    LastTwoChars(n);
    Mod100Digits(n);
    s[|s| - 2..]
  }

  /** The last two characters of "0" followed by the decimal form of `n`. */
  lemma LastTwoChars(n: nat)
    ensures var s := "0" + ToDecimal(n);
      |s| >= 2 && s[|s| - 2..] == [DigitChar(n / 10 % 10), DigitChar(n % 10)]
  {
    if n < 10 {
      LastTwoCharsOneDigit(n);
    } else {
      LastTwoCharsLonger(n);
    }
  }

  lemma LastTwoCharsOneDigit(n: nat)
    requires n < 10
    ensures var s := "0" + ToDecimal(n);
      |s| >= 2 && s[|s| - 2..] == [DigitChar(n / 10 % 10), DigitChar(n % 10)]
  {
    var s := "0" + ToDecimal(n);
    assert n / 10 % 10 == 0 && n % 10 == n;
    assert DigitChar(0) == '0';
    assert ToDecimal(n) == [DigitChar(n)];
    assert s == ['0', DigitChar(n)];
  }

  lemma LastTwoCharsLonger(n: nat)
    requires n >= 10
    ensures var s := "0" + ToDecimal(n);
      |s| >= 2 && s[|s| - 2..] == [DigitChar(n / 10 % 10), DigitChar(n % 10)]
  {
    var s := "0" + ToDecimal(n);
    var t := ToDecimal(n / 10);
    var c := DigitChar(n % 10);
    assert ToDecimal(n) == t + [c];
    assert s == ("0" + t) + [c];
    assert s[|s| - 2] == t[|t| - 1];
  }

  lemma Mod100Digits(n: nat)
    ensures n % 100 / 10 == n / 10 % 10 && n % 100 % 10 == n % 10
  {
    var q, r := n / 100, n % 100;
    var a, b := r / 10, r % 10;
    assert n == (10 * q + a) * 10 + b;
    DivMod10(n, 10 * q + a, b);
    DivMod10(10 * q + a, q, a);
  }

  // Quotient and remainder are the unique pair with `n == q * d + r` and `0 <= r < d`.
  lemma DivMod10(n: int, q: int, r: int)
    requires 0 <= r < 10 && n == q * 10 + r
    ensures n / 10 == q && n % 10 == r
  {
  }

  lemma DivMod60(n: int, q: int, r: int)
    requires 0 <= r < 60 && n == q * 60 + r
    ensures n / 60 == q && n % 60 == r
  {
  }

  lemma DivMod100(n: int, q: int, r: int)
    requires 0 <= r < 100 && n == q * 100 + r
    ensures n / 100 == q && n % 100 == r
  {
  }

  lemma DivMod3600(n: int, q: int, r: int)
    requires 0 <= r < 3600 && n == q * 3600 + r
    ensures n / 3600 == q && n % 3600 == r
  {
  }

  /** Numbers below 10 gain a leading "0" ("3" becomes "03"). */
  lemma FormatNumberPadsOneDigit(n: nat)
    requires n < 10
    ensures FormatNumber(n) == "0" + ToDecimal(n)
  {
    assert n % 100 / 10 == 0 && n % 100 % 10 == n;
    assert DigitChar(0) == '0';
    assert ToDecimal(n) == [DigitChar(n)];
    assert FormatNumber(n) == ['0', DigitChar(n)];
  }

  /** Numbers from 10 to 99 are shown as their decimal form ("10" stays "10"). */
  lemma FormatNumberKeepsTwoDigits(n: nat)
    requires 10 <= n < 100
    ensures FormatNumber(n) == ToDecimal(n)
  {
    assert n % 100 == n;
    var t := ToDecimal(n / 10);
    assert t == [DigitChar(n / 10)];
    assert ToDecimal(n) == t + [DigitChar(n % 10)];
  }

  /** `parseInt` reads a formatted number back as its last two digits ("05" gives 5). */
  lemma FormatNumberRoundTrip(n: nat)
    ensures ParseInt(FormatNumber(n)) == Some(n % 100)
  {
    var k := n % 100;
    ParseTwoDigits(k / 10, k % 10);
  }

  lemma ParseTwoDigits(a: nat, b: nat)
    requires a < 10 && b < 10
    ensures ParseInt([DigitChar(a), DigitChar(b)]) == Some(10 * a + b)
  {
    var r := [DigitChar(a), DigitChar(b)];
    assert Unsigned(r) == r;
    assert IsDigit(r[0]) && IsDigit(r[1]);
    assert DigitPrefixLength(r) == 2;
    assert r[..2] == r;
    assert r[..1] == [DigitChar(a)] && r[..1][..0] == [];
    assert DigitsValue(r[..1]) == a;
  }

  /** Numbers that agree in their last two digits are formatted alike. */
  lemma FormatNumberMod100(a: nat, b: nat)
    requires a % 100 == b % 100
    ensures FormatNumber(a) == FormatNumber(b)
  {
  }

  /** The three strings `getRemaining` returns. */
  datatype Remaining = Remaining(hours: string, minutes: string, seconds: string)

  /** The whole hours in `time`, as `getRemaining` computes them. */
  function Hours(time: nat): (h: nat)
    ensures h * 3600 <= time < (h + 1) * 3600
  {
    time / 3600
  }

  /** The whole minutes left once the hours are taken off: the minutes of the clock. */
  function Minutes(time: nat): (m: nat)
    ensures m == time % 3600 / 60 && m < 60
  {
    (time - Hours(time) * 3600) / 60
  }

  /**
   * The raw seconds value `getRemaining` formats: the total minus the whole
   * minutes. It still holds 3600 times the hours on top of `time % 60`.
   */
  function RawSeconds(time: nat): (s: nat)
    ensures s == 3600 * (time / 3600) + time % 60
  {
    ClockDecomposition(time);
    time - Minutes(time) * 60
  }

  /** Hours, minutes and seconds of the clock recompose the total. */
  lemma ClockDecomposition(time: nat)
    ensures time / 3600 * 3600 + time % 3600 / 60 * 60 + time % 60 == time
  {
    var h, rest := time / 3600, time % 3600;
    var m, s := rest / 60, rest % 60;
    assert time == h * 3600 + rest;
    assert rest == m * 60 + s;
    assert time == (h * 60 + m) * 60 + s;
    DivMod60(time, h * 60 + m, s);
  }

  /**
   * `getRemaining`: hours, minutes and seconds of `time`, each formatted with
   * `FormatNumber`. Seconds are computed as the total minus the whole minutes,
   * not modulo 60, and still display as `time % 60`.
   */
  function GetRemaining(time: nat): (r: Remaining)
    ensures r.hours == FormatNumber(time / 3600)
    ensures r.minutes == FormatNumber(time % 3600 / 60)
    ensures r.seconds == FormatNumber(time % 60)
  {
    RawSecondsQuirk(time);
    Remaining(FormatNumber(Hours(time)), FormatNumber(Minutes(time)), FormatNumber(RawSeconds(time)))
  }

  /**
   * The raw seconds differ from `time % 60` as soon as there is an hour, but
   * 3600 is a multiple of 100, so formatting drops the difference.
   */
  lemma RawSecondsQuirk(time: nat)
    ensures time >= 3600 ==> RawSeconds(time) != time % 60
    ensures FormatNumber(RawSeconds(time)) == FormatNumber(time % 60)
  {
    var raw, s := RawSeconds(time), time % 60;
    DivMod100(raw, 36 * (time / 3600), s);
    DivMod100(s, 0, s);
    FormatNumberMod100(raw, s);
  }

  /**
   * For a time below 100 hours, each field of the readout is two digits that
   * parse back to the hours, minutes and seconds of `time`, and these
   * recompose `time`.
   */
  lemma GetRemainingReadsBack(time: nat)
    requires time < 360000
    ensures |GetRemaining(time).hours| == |GetRemaining(time).minutes| == |GetRemaining(time).seconds| == 2
    ensures ParseInt(GetRemaining(time).hours) == Some(time / 3600)
    ensures ParseInt(GetRemaining(time).minutes) == Some(time % 3600 / 60)
    ensures ParseInt(GetRemaining(time).seconds) == Some(time % 60)
    ensures time / 3600 * 3600 + time % 3600 / 60 * 60 + time % 60 == time
  {
    var h, m, s := time / 3600, time % 3600 / 60, time % 60;
    ClockDecomposition(time);
    assert h < 100 && m < 60;
    DivMod100(h, 0, h);
    DivMod100(m, 0, m);
    DivMod100(s, 0, s);
    FormatNumberRoundTrip(h);
    FormatNumberRoundTrip(m);
    FormatNumberRoundTrip(s);
  }

  /** The clock fields of h hours, m minutes and s seconds are h, m and s. */
  lemma ClockOf(h: nat, m: nat, s: nat)
    requires m < 60 && s < 60
    ensures var time := h * 3600 + m * 60 + s;
      time / 3600 == h && time % 3600 / 60 == m && time % 60 == s
  {
    var time := h * 3600 + m * 60 + s;
    DivMod3600(time, h, m * 60 + s);
    DivMod60(m * 60 + s, m, s);
    DivMod60(time, h * 60 + m, s);
  }

  /**
   * A clock reading displays its own hours, minutes and seconds: the readout
   * of the countdown a selection starts.
   */
  lemma GetRemainingOfClock(h: nat, m: nat, s: nat)
    requires m < 60 && s < 60
    ensures GetRemaining(h * 3600 + m * 60 + s) == Remaining(FormatNumber(h), FormatNumber(m), FormatNumber(s))
  {
    ClockOf(h, m, s);
  }

  /** 3661 seconds display as 01:01:01. */
  lemma OneHourOneMinuteOneSecond()
    ensures GetRemaining(3661) == Remaining("01", "01", "01")
  {
    var time := 3661;
    assert time / 3600 == 1 && time % 3600 / 60 == 1 && time % 60 == 1;
    assert DigitChar(0) == '0' && DigitChar(1) == '1';
    assert TwoDigits(1) == "01";
  }

  /** The default of 5 seconds displays as 00:00:05. */
  lemma FiveSeconds()
    ensures GetRemaining(5) == Remaining("00", "00", "05")
  {
    var time := 5;
    assert time / 3600 == 0 && time % 3600 / 60 == 0 && time % 60 == 5;
    assert DigitChar(0) == '0' && DigitChar(5) == '5';
    assert TwoDigits(0) == "00";
    assert TwoDigits(5) == "05";
  }
}
