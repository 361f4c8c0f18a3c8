/** Human-readable experience durations
    (utils/resume_utils.py, `format_months`). */
module Duration {
  import opened Wrappers
  import Text

  function DigitChar(d: nat): (c: char)
    requires d < 10
    ensures Text.IsDigit(c)
  {
    ('0' as int + d) as char
  }

  predicate AllDigits(s: string) {
    forall i :: 0 <= i < |s| ==> Text.IsDigit(s[i])
  }

  /** Python's `str(n)` for a non-negative integer. */
  function NatToString(n: nat): (s: string)
    ensures |s| > 0 && AllDigits(s)
    ensures s[0] == '0' <==> n == 0
    ensures |s| == 1 || s[0] != '0'
  {
    if n < 10 then [DigitChar(n)] else NatToString(n / 10) + [DigitChar(n % 10)]
  }

  /** The number a run of decimal digits denotes. */
  function DigitsValue(s: string): nat
    requires AllDigits(s)
  {
    if s == [] then 0
    else DigitsValue(s[..|s| - 1]) * 10 + (s[|s| - 1] as int - '0' as int)
  }

  lemma {:induction false} NatToStringValue(n: nat)
    ensures DigitsValue(NatToString(n)) == n
  {
    if n >= 10 {
      var s := NatToString(n);
      assert s[..|s| - 1] == NatToString(n / 10);
      NatToStringValue(n / 10);
    }
  }

  /** The length of the run of digits that starts `s`. */
  function DigitRun(s: string): (k: nat)
    ensures k <= |s|
    ensures forall i :: 0 <= i < k ==> Text.IsDigit(s[i])
    ensures k < |s| ==> !Text.IsDigit(s[k])
  {
    if s == [] || !Text.IsDigit(s[0]) then 0 else 1 + DigitRun(s[1..])
  }

  /** Reads a leading decimal number and returns it with the remaining text. */
  function ReadNat(s: string): Option<(nat, string)> {
    var k := DigitRun(s);
    if k == 0 then None else Some((DigitsValue(s[..k]), s[k..]))
  }

  lemma {:induction false} DigitRunOfNumber(d: string, t: string)
    requires AllDigits(d)
    requires t == [] || !Text.IsDigit(t[0])
    ensures DigitRun(d + t) == |d|
  {
    if d != [] {
      assert (d + t)[1..] == d[1..] + t;
      DigitRunOfNumber(d[1..], t);
    } else {
      assert d + t == t;
    }
  }

  lemma ReadNatOfString(n: nat, t: string)
    requires t == [] || !Text.IsDigit(t[0])
    ensures ReadNat(NatToString(n) + t) == Some((n, t))
  {
    var d := NatToString(n);
    DigitRunOfNumber(d, t);
    assert (d + t)[..|d|] == d;
    assert (d + t)[|d|..] == t;
    NatToStringValue(n);
  }

  /** " month" or " months": singular exactly when the count is 1. */
  function MonthUnit(rem: nat): string {
    if rem != 1 then " months" else " month"
  }

  /** " year " or " years ": plural exactly when the count exceeds 1. */
  function YearUnit(years: nat): string {
    if years > 1 then " years " else " year "
  }

  /** `format_months`: "Y year(s) R month(s)", with the years clause only when
      there is at least one whole year. (The trailing `.strip()` in the
      source has nothing to strip.) */
  function FormatMonths(months: nat): (s: string)
    ensures ParseDuration(s) == Some(months)
  {
    var years := months / 12;
    var rem := months % 12;
    if years > 0 then
      LongFormReadsBack(months);
      NatToString(years) + (YearUnit(years) + (NatToString(rem) + MonthUnit(rem)))
    else
      assert rem == months;
      ShortReadsBack(months);
      NatToString(rem) + MonthUnit(rem)
  }

  predicate StartsWith(s: string, prefix: string) {
    |prefix| <= |s| && s[..|prefix|] == prefix
  }

  predicate EndsWith(s: string, suffix: string) {
    |suffix| <= |s| && s[|s| - |suffix|..] == suffix
  }

  /** Reads "R month(s)" and answers R. */
  function ReadMonthsClause(s: string): Option<nat> {
    match ReadNat(s)
    case None => None
    case Some((n, rest)) => if rest == " month" || rest == " months" then Some(n) else None
  }

  /** Reads a formatted duration back into a month count. */
  function ParseDuration(s: string): Option<nat> {
    match ReadNat(s)
    case None => None
    case Some((n, rest)) => ReadUnits(n, rest)
  }

  /** The part of `ParseDuration` after the leading number `n`. */
  function ReadUnits(n: nat, rest: string): Option<nat> {
    if rest == " month" || rest == " months" then Some(n)
    else
      var skip := if StartsWith(rest, " years ") then 7 else if StartsWith(rest, " year ") then 6 else 0;
      if skip == 0 then None
      else match ReadMonthsClause(rest[skip..])
        case None => None
        case Some(r) => Some(n * 12 + r)
  }

  lemma MonthsClauseReadsBack(rem: nat)
    ensures ReadMonthsClause(NatToString(rem) + MonthUnit(rem)) == Some(rem)
  {
    ReadNatOfString(rem, MonthUnit(rem));
  }

  lemma ShortReadsBack(rem: nat)
    ensures ParseDuration(NatToString(rem) + MonthUnit(rem)) == Some(rem)
  {
    ReadNatOfString(rem, MonthUnit(rem));
  }

  /** What follows the years number: the parser skips exactly the years unit. */
  lemma AfterYearUnit(years: nat, tail: string)
    requires years >= 1
    ensures var rest := YearUnit(years) + tail;
      && rest != " month" && rest != " months"
      && (if StartsWith(rest, " years ") then 7 else if StartsWith(rest, " year ") then 6 else 0) == |YearUnit(years)|
      && rest[|YearUnit(years)|..] == tail
  {
    var y := YearUnit(years);
    var rest := y + tail;
    assert rest[1] == 'y';
    assert rest[|y|..] == tail;
    if years > 1 {
      assert rest[..7] == y;
    } else {
      assert rest[5] == ' ';
      assert rest[..6] == y;
    }
  }

  lemma ParseAfterNumber(s: string, n: nat, rest: string)
    requires ReadNat(s) == Some((n, rest))
    ensures ParseDuration(s) == ReadUnits(n, rest)
  {
  }

  /** After the years number, the parser skips the years unit and reads
      the months clause. */
  lemma UnitsAfterYears(years: nat, rem: nat)
    requires years >= 1
    ensures ReadUnits(years, YearUnit(years) + (NatToString(rem) + MonthUnit(rem))) == Some(years * 12 + rem)
  {
    MonthsClauseReadsBack(rem);
    UnitsBeforeClause(years, NatToString(rem) + MonthUnit(rem), rem);
  }

  lemma UnitsBeforeClause(years: nat, tail: string, rem: nat)
    requires years >= 1 && ReadMonthsClause(tail) == Some(rem)
    ensures ReadUnits(years, YearUnit(years) + tail) == Some(years * 12 + rem)
  {
    AfterYearUnit(years, tail);
  }

  lemma LongFormReadsBack(months: nat)
    requires months >= 12
    ensures ParseDuration(NatToString(months / 12) + (YearUnit(months / 12) + (NatToString(months % 12) + MonthUnit(months % 12)))) == Some(months)
  {
    LongReadsBack(months / 12, months % 12);
  }

  lemma LongReadsBack(years: nat, rem: nat)
    requires years >= 1
    ensures ParseDuration(NatToString(years) + (YearUnit(years) + (NatToString(rem) + MonthUnit(rem)))) == Some(years * 12 + rem)
  {
    var rest := YearUnit(years) + (NatToString(rem) + MonthUnit(rem));
    var s := NatToString(years) + rest;
    assert rest[0] == ' ';
    ReadNatOfString(years, rest);
    ParseAfterNumber(s, years, rest);
    UnitsAfterYears(years, rem);
  }

  /** Two different month counts never format alike. */
  lemma FormatInjective(a: nat, b: nat)
    requires FormatMonths(a) == FormatMonths(b)
    ensures a == b
  {
  }

  /** "month" is singular exactly when the remainder is 1. */
  lemma MonthPlurality(months: nat)
    ensures EndsWith(FormatMonths(months), "s") <==> months % 12 != 1
  {
    if months < 12 {
      ShortPlurality(months);
    } else {
      LongPlurality(months);
    }
  }

  lemma ShortPlurality(months: nat)
    requires months < 12
    ensures EndsWith(FormatMonths(months), "s") <==> months != 1
  {
    ShortShape(months);
    EndsWithLast(NatToString(months), MonthUnit(months));
    UnitPlurality(months);
  }

  lemma LongPlurality(months: nat)
    requires months >= 12
    ensures EndsWith(FormatMonths(months), "s") <==> months % 12 != 1
  {
    var u := MonthUnit(months % 12);
    var n := NatToString(months % 12) + u;
    var y := YearUnit(months / 12) + n;
    LongShape(months);
    EndsWithLast(NatToString(months / 12), y);
    EndsWithLast(YearUnit(months / 12), n);
    EndsWithLast(NatToString(months % 12), u);
    UnitPlurality(months % 12);
  }

  /** Whether a text ends in "s" depends only on its non-empty tail. */
  lemma EndsWithLast(p: string, q: string)
    requires |q| > 0
    ensures EndsWith(p + q, "s") <==> EndsWith(q, "s")
  {
    var r := p + q;
    assert r[|r| - 1] == q[|q| - 1];
    assert r[|r| - 1..] == [r[|r| - 1]];
    assert q[|q| - 1..] == [q[|q| - 1]];
  }

  lemma UnitPlurality(rem: nat)
    ensures EndsWith(MonthUnit(rem), "s") <==> rem != 1
  {
    var u := MonthUnit(rem);
    assert u[|u| - 1..] == [u[|u| - 1]];
  }
  /** The leading number is the whole years when there is at least one, and
      a years clause follows it exactly then; "year" is plural exactly when
      there are two or more. */
  lemma YearClause(months: nat)
    ensures ReadNat(FormatMonths(months)).Some?
    ensures var (n, rest) := ReadNat(FormatMonths(months)).value;
      && (months >= 12 <==> StartsWith(rest, " year"))
      && (StartsWith(rest, " years") <==> months >= 24)
      && n == (if months >= 12 then months / 12 else months)
  {
    if months < 12 {
      ShortShape(months);
      ShortClause(months);
    } else {
      LongShape(months);
      LongClause(months);
    }
  }

  /** Under a year the number read first is the month count, followed by the month unit, */
  lemma ShortClause(months: nat)
    requires months < 12
    ensures ReadNat(NatToString(months) + MonthUnit(months)) == Some((months, MonthUnit(months)))
    ensures !StartsWith(MonthUnit(months), " year") && !StartsWith(MonthUnit(months), " years")
  {
    ReadNatOfString(months, MonthUnit(months));
    assert MonthUnit(months)[1] == 'm';
  }

  /** and from a year on it is the year count, followed by " year" or " years". */
  lemma LongClause(months: nat)
    requires months >= 12
    ensures var rest := YearUnit(months / 12) + (NatToString(months % 12) + MonthUnit(months % 12));
      && ReadNat(NatToString(months / 12) + rest) == Some((months / 12, rest))
      && StartsWith(rest, " year")
      && (StartsWith(rest, " years") <==> months >= 24)
  {
    var years := months / 12;
    var rest := YearUnit(years) + (NatToString(months % 12) + MonthUnit(months % 12));
    ReadNatOfString(years, rest);
    assert rest[..5] == " year";
    if years == 1 {
      assert rest[5] == ' ';
    } else {
      assert rest[..6] == " years";
    }
  }

  lemma FormatZero()
    ensures FormatMonths(0) == "0 months"
  {
    ShortShape(0);
    ZeroText();
  }

  lemma ZeroText()
    ensures NatToString(0) + MonthUnit(0) == "0 months"
  {
    assert NatToString(0) == "0";
  }

  lemma FormatOne()
    ensures FormatMonths(1) == "1 month"
  {
    ShortShape(1);
    OneText();
  }

  lemma OneText()
    ensures NatToString(1) + MonthUnit(1) == "1 month"
  {
    assert NatToString(1) == "1";
  }

  /** The months-only shape, for any count under a year, */
  lemma ShortShape(months: nat)
    requires months < 12
    ensures FormatMonths(months) == NatToString(months) + MonthUnit(months)
  {
    assert months / 12 == 0 && months % 12 == months;
  }

  /** and the years-and-months shape, for any count of at least a year. */
  lemma LongShape(months: nat)
    requires months >= 12
    ensures FormatMonths(months) == NatToString(months / 12) + (YearUnit(months / 12) + (NatToString(months % 12) + MonthUnit(months % 12)))
  {
  }

  lemma TwelveText()
    ensures NatToString(1) + (YearUnit(1) + (NatToString(0) + MonthUnit(0))) == "1 year 0 months"
  {
    assert NatToString(1) == "1" && NatToString(0) == "0";
  }

  lemma FormatTwelve()
    ensures FormatMonths(12) == "1 year 0 months"
  {
    LongShape(12);
    TwelveText();
  }

  lemma TwentyFiveText()
    ensures NatToString(2) + (YearUnit(2) + (NatToString(1) + MonthUnit(1))) == "2 years 1 month"
  {
    assert NatToString(2) == "2" && NatToString(1) == "1";
  }

  lemma FormatTwentyFive()
    ensures FormatMonths(25) == "2 years 1 month"
  {
    LongShape(25);
    TwentyFiveText();
  }
}
