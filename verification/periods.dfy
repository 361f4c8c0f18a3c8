/** Work periods of a resume and their total
    (utils/resume_utils.py, `extract_work_periods` after its date parsing,
    and `total_experience_in_months`).

    Dates are (year, month) pairs. The source parses them with dateutil,
    which fills the day-of-month from the current date and clamps it to the
    month's length; this model assumes the two ends fall on the same day of
    the month, so a period's length is the plain calendar-month difference. */
module WorkHistory {
  import opened Wrappers

  type Month = m: int | 1 <= m <= 12 witness 1

  datatype YearMonth = YearMonth(year: int, month: Month)

  /** The end of a date range: a parsed date, or "current"/"present",
      which stands for the evaluation date. */
  datatype Endpoint = On(date: YearMonth) | Ongoing

  /** One matched date range, or a pair the date parser rejected. */
  datatype DateRange = DateRange(start: YearMonth, end: Endpoint) | Unparsable

  /** Periods longer than this are treated as parse noise. */
  const MaxPeriodMonths: nat := 600

  /** Datetime order on (year, month). */
  predicate Before(a: YearMonth, b: YearMonth) {
    a.year < b.year || (a.year == b.year && a.month < b.month)
  }

  /** Months elapsed since a fixed origin. */
  function MonthIndex(d: YearMonth): int {
    d.year * 12 + d.month - 1
  }

  /** `relativedelta(end, start)` as `years * 12 + months`. */
  function MonthsBetween(start: YearMonth, end: YearMonth): (n: int)
    ensures n < 0 <==> Before(end, start)
    ensures n == MonthIndex(end) - MonthIndex(start)
  {
    (end.year - start.year) * 12 + (end.month - start.month)
  }

  function Resolve(e: Endpoint, today: YearMonth): YearMonth {
    match e
    case On(d) => d
    case Ongoing => today
  }

  /** The period one range contributes, if any. */
  function PeriodOf(r: DateRange, today: YearMonth): (p: Option<nat>)
    ensures r.Unparsable? ==> p.None?
    ensures r.DateRange? && Before(Resolve(r.end, today), r.start) ==> p.None?
    ensures p.Some? ==> p.value <= MaxPeriodMonths
    ensures p.Some? ==> r.DateRange? && p.value == MonthIndex(Resolve(r.end, today)) - MonthIndex(r.start)
    ensures (r.DateRange? && !Before(Resolve(r.end, today), r.start)
             && MonthIndex(Resolve(r.end, today)) - MonthIndex(r.start) <= MaxPeriodMonths) ==> p.Some?
  {
    match r
    case Unparsable => None
    case DateRange(start, end) =>
      var stop := Resolve(end, today);
      if Before(stop, start) then None
      else
        var months := MonthsBetween(start, stop);
        if 0 <= months <= MaxPeriodMonths then Some(months) else None
  }

  /** The periods kept from the matched ranges, in match order. */
  function WorkPeriods(rs: seq<DateRange>, today: YearMonth): (ps: seq<nat>)
    ensures |ps| <= |rs|
    ensures forall i :: 0 <= i < |ps| ==> ps[i] <= MaxPeriodMonths
  {
    if rs == [] then []
    else
      var rest := WorkPeriods(rs[1..], today);
      match PeriodOf(rs[0], today)
      case Some(n) => [n] + rest
      case None => rest
  }

  /** Each range is judged on its own. */
  lemma {:induction false} WorkPeriodsAppend(a: seq<DateRange>, b: seq<DateRange>, today: YearMonth)
    ensures WorkPeriods(a + b, today) == WorkPeriods(a, today) + WorkPeriods(b, today)
  {
    if a == [] {
      assert a + b == b;
    } else {
      assert (a + b)[1..] == a[1..] + b;
      WorkPeriodsAppend(a[1..], b, today);
    }
  }

  /** One range contributes its period, if it has one, and nothing else;
      with `WorkPeriodsAppend` this fixes the periods of any list. */
  lemma WorkPeriodsSingle(r: DateRange, today: YearMonth)
    ensures WorkPeriods([r], today) == (if PeriodOf(r, today).Some? then [PeriodOf(r, today).value] else [])
  {
    assert [r][1..] == [];
  }

  /** A range whose end precedes its start adds nothing, wherever it appears. */
  lemma ReversedRangeDropped(a: seq<DateRange>, r: DateRange, b: seq<DateRange>, today: YearMonth)
    requires r.DateRange? && Before(Resolve(r.end, today), r.start)
    ensures WorkPeriods(a + [r] + b, today) == WorkPeriods(a + b, today)
  {
    WorkPeriodsAppend(a + [r], b, today);
    WorkPeriodsAppend(a, [r], today);
    WorkPeriodsAppend(a, b, today);
    assert WorkPeriods([r], today) == [] by {
      assert [r][1..] == [];
    }
  }

  /** "Jan 2020 - Dec 2021" is 23 months. */
  lemma JanToDec(today: YearMonth)
    ensures WorkPeriods([DateRange(YearMonth(2020, 1), On(YearMonth(2021, 12)))], today) == [23]
  {
  }

  /** An ongoing range is measured up to the evaluation date. */
  lemma OngoingUntilToday()
    ensures WorkPeriods([DateRange(YearMonth(2024, 3), Ongoing)], YearMonth(2026, 10)) == [31]
  {
  }

  /** `total_experience_in_months`: the plain sum of the periods. */
  function TotalMonths(ps: seq<nat>): (t: nat)
    ensures forall i :: 0 <= i < |ps| ==> ps[i] <= t
    ensures (forall i :: 0 <= i < |ps| ==> ps[i] <= MaxPeriodMonths) ==> t <= MaxPeriodMonths * |ps|
    ensures t == 0 <==> forall i :: 0 <= i < |ps| ==> ps[i] == 0
    ensures |ps| == 1 ==> t == ps[0]
  {
    if ps == [] then 0 else ps[0] + TotalMonths(ps[1..])
  }

  lemma {:induction false} TotalMonthsAppend(a: seq<nat>, b: seq<nat>)
    ensures TotalMonths(a + b) == TotalMonths(a) + TotalMonths(b)
  {
    if a == [] {
      assert a + b == b;
    } else {
      assert (a + b)[1..] == a[1..] + b;
      TotalMonthsAppend(a[1..], b);
    }
  }

  /** Overlapping periods are not merged: listing the same range twice doubles it. */
  lemma OverlapsCountTwice(r: DateRange, today: YearMonth)
    ensures TotalMonths(WorkPeriods([r, r], today)) == 2 * TotalMonths(WorkPeriods([r], today))
  {
    assert [r, r] == [r] + [r];
    WorkPeriodsAppend([r], [r], today);
    TotalMonthsAppend(WorkPeriods([r], today), WorkPeriods([r], today));
  }

  /** The total experience of a resume never exceeds 600 months per range. */
  lemma TotalBound(rs: seq<DateRange>, today: YearMonth)
    ensures TotalMonths(WorkPeriods(rs, today)) <= MaxPeriodMonths * |rs|
  {
    var ps := WorkPeriods(rs, today);
    assert TotalMonths(ps) <= MaxPeriodMonths * |ps|;
  }
}
