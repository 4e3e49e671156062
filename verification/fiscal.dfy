/** Fiscal years and quarters, which follow the Ethiopian year: fiscal year `fy` opens on the
    Ethiopian New Year in Gregorian year `fy`. The New Year rule is shared with
    `EthiopianCalendar`; the fiscal utilities carry a verbatim copy of it. */
module Fiscal {
  import opened Wrappers
  import opened Text
  import opened CalendarDate
  import opened EthiopianCalendar

  /** The fiscal year of a date: the Gregorian year from its New Year on, the previous year
      before it. */
  function FiscalYear(d: Date): (fy: int)
    ensures fy == GregorianToEthiopian(d) + 7
    ensures fy == d.year || fy == d.year - 1
  {
    var start := NewYearDate(d.year);
    if Before(d, start) then d.year - 1 else d.year
  }

  /** An interval of local time, both ends included. */
  datatype Range = Range(start: Date, end: Date)

  /** From the New Year of `fy` to 23:59:59.999 on the day before the New Year of `fy + 1`. */
  function FiscalYearBounds(fy: int): (r: Range)
    ensures r.start == NewYearDate(fy)
    ensures Valid(r.end) && NextMs(r.end) == NewYearDate(fy + 1)
  {
    var nextYearStart := NewYearDate(fy + 1);
    Range(NewYearDate(fy), EndOfDay(PrevDay(nextYearStart)))
  }

  /** Every date falls inside the bounds of its own fiscal year. */
  lemma FiscalYearWithinBounds(d: Date)
    requires Valid(d)
    ensures var b := FiscalYearBounds(FiscalYear(d));
      NotAfter(b.start, d) && NotAfter(d, b.end)
  {
    var fy := FiscalYear(d);
    var b := FiscalYearBounds(fy);
    NextMsIsSuccessor(b.end, d);
  }

  /** Consecutive fiscal years meet without a gap: the end of `fy` is the last millisecond
      before the start of `fy + 1`. */
  lemma FiscalYearsAdjacent(fy: int, x: Date)
    requires Valid(x)
    ensures NextMs(FiscalYearBounds(fy).end) == FiscalYearBounds(fy + 1).start
    ensures Before(x, FiscalYearBounds(fy + 1).start) <==> NotAfter(x, FiscalYearBounds(fy).end)
  {
    NextMsIsSuccessor(FiscalYearBounds(fy).end, x);
  }

  /** Quarter `quarter` of `fy`: it starts `3 * (quarter - 1)` months after the fiscal year
      start, on the same day of month, and ends at 23:59:59.999 on the day before the date
      three months after its start. A quarter outside 1..4 is an error. */
  function FiscalQuarterRange(quarter: int, fy: int): (r: Result<Range, string>)
    ensures r.Err? <==> quarter < 1 || quarter > 4
    ensures r.Ok? ==> r.value.start == AddMonths(NewYearDate(fy), (quarter - 1) * 3)
    ensures r.Ok? ==> Valid(r.value.end) && NextMs(r.value.end) == AddMonths(r.value.start, 3)
  {
    if quarter < 1 || quarter > 4 then Err("Quarter must be between 1 and 4")
    else
      var fiscalYearStart := NewYearDate(fy);
      var monthsFromStart := (quarter - 1) * 3;
      var start := AddMonths(fiscalYearStart, monthsFromStart);
      var end := EndOfDay(PrevDay(AddMonths(start, 3)));
      Ok(Range(start, end))
  }

  /** The first quarter starts with the fiscal year. */
  lemma FirstQuarterStartsWithYear(fy: int)
    ensures FiscalQuarterRange(1, fy).Ok?
    ensures FiscalQuarterRange(1, fy).value.start == FiscalYearBounds(fy).start
  {
  }

  /** Consecutive quarters meet without a gap: the millisecond after the end of quarter `q`
      is the start of quarter `q + 1`. */
  lemma QuartersAdjacent(q: int, fy: int)
    requires 1 <= q < 4
    ensures FiscalQuarterRange(q, fy).Ok? && FiscalQuarterRange(q + 1, fy).Ok?
    ensures NextMs(FiscalQuarterRange(q, fy).value.end) == FiscalQuarterRange(q + 1, fy).value.start
  {
    AddMonthsAdd(NewYearDate(fy), (q - 1) * 3, 3);
  }

  /** `FY <fy> Q<quarter>` in full format, `Q<quarter> <fy>` in short format. */
  function LabelFiscalQuarter(quarter: int, fy: int, full: bool): (s: string)
    ensures full ==> |s| >= 6 && s[..3] == "FY "
    ensures !full ==> |s| >= 4 && s[..1] == "Q"
  {
    if full then "FY " + IntToString(fy) + " Q" + IntToString(quarter)
    else "Q" + IntToString(quarter) + " " + IntToString(fy)
  }

  /** For the quarters 1..4 a label names exactly one quarter of exactly one fiscal year:
      the year and the quarter can be read back from it. */
  lemma LabelFiscalQuarterInjective(q1: int, fy1: int, q2: int, fy2: int, full: bool)
    requires 1 <= q1 <= 4 && 1 <= q2 <= 4
    requires LabelFiscalQuarter(q1, fy1, full) == LabelFiscalQuarter(q2, fy2, full)
    ensures q1 == q2 && fy1 == fy2
  {
    LabelParts(q1, fy1, full);
    LabelParts(q2, fy2, full);
    var s := LabelFiscalQuarter(q1, fy1, full);
    if full {
      assert IntToString(fy1) == s[3..|s| - 3] == IntToString(fy2);
      assert IntToString(q1) == s[|s| - 1..] == IntToString(q2);
    } else {
      assert IntToString(fy1) == s[3..] == IntToString(fy2);
      assert IntToString(q1) == s[1..2] == IntToString(q2);
    }
    IntToStringInjective(fy1, fy2);
    IntToStringInjective(q1, q2);
  }

  /** Where the year and the quarter sit in a label. */
  lemma LabelParts(q: int, fy: int, full: bool)
    requires 1 <= q <= 4
    ensures var s := LabelFiscalQuarter(q, fy, full);
      if full then |s| >= 6 && s[3..|s| - 3] == IntToString(fy) && s[|s| - 1..] == IntToString(q)
      else |s| >= 4 && s[3..] == IntToString(fy) && s[1..2] == IntToString(q)
  {
    var s := LabelFiscalQuarter(q, fy, full);
    assert |IntToString(q)| == 1;
    if full {
      assert s[3..|s| - 3] == IntToString(fy);
      assert s[|s| - 1..] == IntToString(q);
    } else {
      assert s[3..] == IntToString(fy);
      assert s[1..2] == IntToString(q);
    }
  }

  /** A fiscal year together with a quarter number. */
  datatype FiscalQuarter = FiscalQuarter(fiscalYear: int, quarter: int)

  /** Whole calendar months from the start of `d`'s fiscal year to `d`, ignoring days. */
  function MonthsSinceFiscalStart(d: Date): int {
    var start := FiscalYearBounds(FiscalYear(d)).start;
    (d.year - start.year) * 12 + (d.month - start.month)
  }

  function Clamp(x: int, lo: int, hi: int): int
    requires lo <= hi
  {
    if x < lo then lo else if x > hi then hi else x
  }

  /** `getQuarterForDate` as written: whole months since the fiscal-year start, divided by
      three (`Math.floor`, which for a positive divisor is Dafny's `/`), plus one, clamped to
      1..4. */
  function QuarterForDate(d: Date): (r: FiscalQuarter)
    requires Valid(d)
    ensures r.fiscalYear == FiscalYear(d)
    ensures 1 <= r.quarter <= 4
  {
    var fy := FiscalYear(d);
    var quarter := MonthsSinceFiscalStart(d) / 3 + 1;
    FiscalQuarter(fy, Clamp(quarter, 1, 4))
  }

  /** The month count lies in 0..12; it reaches 12 (an unclamped quarter of 5) only on the
      first days of September before the next New Year, and only there does the clamp act. */
  lemma QuarterForDateMonths(d: Date)
    requires Valid(d)
    ensures 0 <= MonthsSinceFiscalStart(d) <= 12
    ensures MonthsSinceFiscalStart(d) == 12 <==> d.month == 8 && Before(d, NewYearDate(d.year))
    ensures QuarterForDate(d).quarter
            == if MonthsSinceFiscalStart(d) == 12 then 4 else MonthsSinceFiscalStart(d) / 3 + 1
  {
  }

  /** `getQuarterForDate` counts whole months and so disagrees with the quarter ranges:
      5 December 2024 lies inside the first quarter of fiscal year 2024 (12 September to
      11 December), yet it is labelled as the second quarter. */
  lemma QuarterForDateDisagreesWithRange()
    ensures var d := Date(2024, 11, 5, 0);
      && Valid(d)
      && FiscalQuarterRange(1, 2024).Ok?
      && NotAfter(FiscalQuarterRange(1, 2024).value.start, d)
      && NotAfter(d, FiscalQuarterRange(1, 2024).value.end)
      && QuarterForDate(d) == FiscalQuarter(2024, 2)
  {
    var d := Date(2024, 11, 5, 0);
    assert IsGregorianLeapYear(2024);
    var ny := NewYearDate(2024);
    assert ny == Date(2024, 8, 12, 0);
    assert FiscalYear(d) == 2024;
    assert AddMonths(ny, 0) == ny;
    assert AddMonths(ny, 3) == Date(2024, 11, 12, 0);
    assert PrevDay(Date(2024, 11, 12, 0)) == Date(2024, 11, 11, 0);
    assert FiscalQuarterRange(1, 2024).value.end == Date(2024, 11, 11, MsPerDay - 1);
    assert MonthsSinceFiscalStart(d) == 3;
  }

  /** The quarter that a date falls into by the quarter ranges: the last quarter whose start
      is not after the date. */
  function QuarterForDateByRange(d: Date): (r: FiscalQuarter)
    requires Valid(d)
    ensures r.fiscalYear == FiscalYear(d) && 1 <= r.quarter <= 4
    ensures NotAfter(FiscalQuarterRange(r.quarter, r.fiscalYear).value.start, d)
    ensures r.quarter < 4 ==> NotAfter(d, FiscalQuarterRange(r.quarter, r.fiscalYear).value.end)
    ensures r.quarter == 4 ==> NotAfter(d, FiscalYearBounds(r.fiscalYear).end)
  {
    var fy := FiscalYear(d);
    FiscalYearWithinBounds(d);
    var q :=
      if !Before(d, FiscalQuarterRange(4, fy).value.start) then 4
      else if !Before(d, FiscalQuarterRange(3, fy).value.start) then 3
      else if !Before(d, FiscalQuarterRange(2, fy).value.start) then 2
      else 1;
    if q < 4 then
      QuartersAdjacent(q, fy);
      NextMsIsSuccessor(FiscalQuarterRange(q, fy).value.end, d);
      FiscalQuarter(fy, q)
    else
      FiscalQuarter(fy, q)
  }
}
