/**
 * `formatPrettyDate`: turns a date string into "15th Oct 2026, 3:04 PM",
 * or gives the input back when it does not denote a date.
 *
 * Parsing the string and the locale-dependent parts (the short month name
 * and the clock time) are not modelled: they arrive as a `DateReading`.
 */
module PrettyDate {

  /**
   * JavaScript's `d % 10`: the remainder takes the sign of the dividend,
   * unlike Dafny's `%`, whose remainder is never negative.
   */
  function JsRem10(d: int): (r: int)
    ensures -10 < r < 10
    ensures d >= 0 ==> r >= 0
    ensures d < 0 ==> r <= 0
    ensures (d - r) % 10 == 0
  {
    if d >= 0 then d % 10 else -((-d) % 10)
  }

  /** The inner `suffix(d)`. */
  function Suffix(d: int): (s: string)
    ensures s in {"st", "nd", "rd", "th"}
    ensures 3 < d < 21 ==> s == "th"
  {
    if d > 3 && d < 21 then "th"
    else match JsRem10(d)
      case 1 => "st"
      case 2 => "nd"
      case 3 => "rd"
      case _ => "th"
  }

  /** The English ordinal suffix, stated independently: 11, 12 and 13 (mod 100) take "th", otherwise the last digit decides. */
  function EnglishSuffix(n: nat): string {
    if 11 <= n % 100 <= 13 then "th"
    else if n % 10 == 1 then "st"
    else if n % 10 == 2 then "nd"
    else if n % 10 == 3 then "rd"
    else "th"
  }

  /** For every day of a month the suffix is the English one. */
  lemma SuffixIsEnglishForDays(d: nat)
    requires 1 <= d <= 31
    ensures Suffix(d) == EnglishSuffix(d)
  {
    if d > 3 && d < 21 {
    } else if d <= 3 {
      assert JsRem10(d) == d;
    } else if d < 30 {
      assert JsRem10(d) == d - 20;
    } else {
      assert JsRem10(d) == d - 30;
    }
  }

  /** The rule differs from English past the days of a month: 111 gets "st". */
  lemma SuffixDiffersBeyondDays()
    ensures Suffix(111) == "st" && EnglishSuffix(111) == "th"
  {
    assert JsRem10(111) == 1;
  }

  /** The suffixes of the days that trip people up: 1, 21, 31 "st"; 22 "nd"; 23 "rd"; 11, 12, 13 "th". */
  lemma SuffixExamples()
    ensures Suffix(1) == "st" && Suffix(21) == "st" && Suffix(31) == "st"
    ensures Suffix(2) == "nd" && Suffix(22) == "nd"
    ensures Suffix(3) == "rd" && Suffix(23) == "rd"
    ensures Suffix(11) == "th" && Suffix(12) == "th" && Suffix(13) == "th"
  {
    assert JsRem10(21) == 1 && JsRem10(31) == 1 && JsRem10(22) == 2 && JsRem10(23) == 3;
  }

  // ---------------------------------------------------------------------------
  // Decimal rendering of numbers, as a template string does it.

  function Digit(n: nat): char
    requires n < 10
  {
    "0123456789"[n]
  }

  predicate IsDigit(c: char) {
    '0' <= c <= '9'
  }

  /** `${n}` for a non-negative integer. */
  function NatToString(n: nat): (s: string)
    ensures |s| > 0 && forall i :: 0 <= i < |s| ==> IsDigit(s[i])
    ensures s[0] == '0' <==> n == 0
    decreases n
  {
    if n < 10 then [Digit(n)] else NatToString(n / 10) + [Digit(n % 10)]
  }

  /** `${n}` for any integer. */
  function IntToString(n: int): (s: string)
    ensures |s| > 0
    ensures n < 0 <==> s[0] == '-'
  {
    if n < 0 then "-" + NatToString(-n) else NatToString(n)
  }

  function DigitValue(c: char): nat
    requires IsDigit(c)
  {
    c as int - '0' as int
  }

  /** The value of a string of decimal digits. */
  function ParseNat(s: string): nat
    requires forall i :: 0 <= i < |s| ==> IsDigit(s[i])
  {
    if s == [] then 0 else 10 * ParseNat(s[..|s| - 1]) + DigitValue(s[|s| - 1])
  }

  /** The digits read back to the number. */
  lemma {:induction false} ParseNatToString(n: nat)
    ensures ParseNat(NatToString(n)) == n
    decreases n
  {
    if n >= 10 {
      ParseNatToString(n / 10);
      var s := NatToString(n);
      assert s[..|s| - 1] == NatToString(n / 10);
    }
  }

  /** The longest prefix of decimal digits. */
  function LeadingDigits(s: string): (p: string)
    ensures |p| <= |s| && p == s[..|p|]
    ensures forall i :: 0 <= i < |p| ==> IsDigit(p[i])
    ensures |p| < |s| ==> !IsDigit(s[|p|])
  {
    if s != [] && IsDigit(s[0]) then [s[0]] + LeadingDigits(s[1..]) else []
  }

  lemma {:induction false} LeadingDigitsOf(d: string, rest: string)
    requires forall i :: 0 <= i < |d| ==> IsDigit(d[i])
    requires rest == [] || !IsDigit(rest[0])
    ensures LeadingDigits(d + rest) == d
    decreases |d|
  {
    if d != [] {
      LeadingDigitsOf(d[1..], rest);
      assert (d + rest)[1..] == d[1..] + rest;
    }
  }

  // ---------------------------------------------------------------------------

  /**
   * What `new Date(dateStr)` and the locale calls yield: an invalid date
   * (`getTime()` is NaN), a failure somewhere inside the `try`, or the
   * calendar day (1 to 31), the short month name, the full year and the
   * clock time.
   */
  datatype DateReading =
    | InvalidDate
    | Failed
    | Valid(day: nat, month: string, year: int, time: string)

  predicate WellFormed(r: DateReading) {
    r.Valid? ==> 1 <= r.day <= 31
  }

  /** `formatPrettyDate(dateStr)`, given what the date runtime makes of `dateStr`. */
  function FormatPrettyDate(dateStr: string, reading: DateReading): (out: string)
    ensures !reading.Valid? ==> out == dateStr
  {
    match reading
    case InvalidDate => dateStr
    case Failed => dateStr
    case Valid(day, month, year, time) =>
      NatToString(day) + Suffix(day) + " " + month + " " + IntToString(year) + ", " + time
  }

  /**
   * A formatted date starts with the day's digits, unpadded, which read back
   * to the day, followed at once by the day's English ordinal suffix, and then by
   * a space, the month, a space, the year, a comma, a space and the time.
   */
  lemma FormattedDayReadsBack(dateStr: string, reading: DateReading)
    requires reading.Valid? && WellFormed(reading)
    ensures var out := FormatPrettyDate(dateStr, reading);
      var digits := LeadingDigits(out);
      && ParseNat(digits) == reading.day
      && |digits| + 2 <= |out|
      && (digits[0] != '0' || reading.day == 0)
      && out[|digits|..|digits| + 2] == EnglishSuffix(reading.day)
      && out[|digits| + 2..] == " " + reading.month + " " + IntToString(reading.year) + ", " + reading.time
  {
    var day := reading.day;
    var digits := NatToString(day);
    var tail := " " + reading.month + " " + IntToString(reading.year) + ", " + reading.time;
    var out := FormatPrettyDate(dateStr, reading);
    assert out == digits + (Suffix(day) + tail);
    LeadingDigitsOf(digits, Suffix(day) + tail);
    ParseNatToString(day);
    SuffixIsEnglishForDays(day);
    SplitAfterSuffix(digits, Suffix(day), tail);
  }

  lemma SplitAfterSuffix(digits: string, suffix: string, tail: string)
    requires |suffix| == 2
    ensures var out := digits + (suffix + tail);
      out[|digits|..|digits| + 2] == suffix && out[|digits| + 2..] == tail
  {
  }
}
