/** Ethiopian New Year (Enkutatash) and the Ethiopian year number of a Gregorian date.
    The clock is not read: "today" is a parameter. */
module EthiopianCalendar {
  import opened CalendarDate

  /** The New Year falls at midnight on September 12 in Gregorian leap years and on
      September 11 otherwise; the rule looks at the leapness of the same Gregorian year. */
  function NewYearDate(gregorianYear: int): (d: Date)
    ensures Valid(d) && d.year == gregorianYear && d.month == 8 && d.ms == 0
    ensures d.day == (if IsGregorianLeapYear(gregorianYear) then 12 else 11)
  {
    Midnight(gregorianYear, 8, if IsGregorianLeapYear(gregorianYear) then 12 else 11)
  }

  /** The Ethiopian year of a date: eight behind the Gregorian year before that year's New
      Year, seven behind from the New Year on. */
  function GregorianToEthiopian(d: Date): (e: int)
    ensures Before(d, NewYearDate(d.year)) ==> e == d.year - 8
    ensures !Before(d, NewYearDate(d.year)) ==> e == d.year - 7
  {
    if Before(d, NewYearDate(d.year)) then d.year - 8 else d.year - 7
  }

  /** Ethiopian year `e` is exactly the span from the New Year of Gregorian year `e + 7` up
      to, but excluding, the New Year of Gregorian year `e + 8`. */
  lemma GregorianToEthiopianBracket(d: Date, e: int)
    ensures GregorianToEthiopian(d) == e
            <==> NotAfter(NewYearDate(e + 7), d) && Before(d, NewYearDate(e + 8))
  {
  }

  /** The Ethiopian year never decreases as time moves on. */
  lemma GregorianToEthiopianMonotone(a: Date, b: Date)
    requires NotAfter(a, b)
    ensures GregorianToEthiopian(a) <= GregorianToEthiopian(b)
  {
    if a.year == b.year && Before(b, NewYearDate(b.year)) {
      assert Before(a, NewYearDate(a.year)) by {
        if !Before(a, b) { assert a == b; }
        else { BeforeTransitive(a, b, NewYearDate(b.year)); }
      }
    }
  }

  /** The New Year that comes next: this Gregorian year's if today is earlier, otherwise next
      year's. */
  function NextNewYear(today: Date): (d: Date)
    ensures Valid(d) && Before(today, d)
    ensures d == NewYearDate(today.year) || d == NewYearDate(today.year + 1)
    ensures forall y :: Before(today, NewYearDate(y)) ==> NotAfter(d, NewYearDate(y))
  {
    var thisYear := NewYearDate(today.year);
    if Before(today, thisYear) then thisYear else NewYearDate(today.year + 1)
  }

  /** The summary shown to users: the current and the next Ethiopian year, the next New Year
      and whether that New Year's Gregorian year is a leap year. The count of days until the
      New Year is left out. */
  datatype YearInfo = YearInfo(
    currentEthiopianYear: int,
    nextEthiopianYear: int,
    nextNewYearDate: Date,
    isLeapYear: bool)

  /** The summary reads the clock once for the current year (`yearRead`, inside
      `getCurrentEthiopianYear`) and again for the next New Year (`newYearRead`, inside
      `getNextEthiopianNewYear`); the third reading only feeds the day count. */
  function EthiopianYearInfo(yearRead: Date, newYearRead: Date): (info: YearInfo)
    ensures info.currentEthiopianYear == GregorianToEthiopian(yearRead)
    ensures info.nextEthiopianYear == info.currentEthiopianYear + 1
    ensures info.nextNewYearDate == NextNewYear(newYearRead)
    ensures info.isLeapYear <==> IsGregorianLeapYear(info.nextNewYearDate.year)
  {
    var current := GregorianToEthiopian(yearRead);
    var next := NextNewYear(newYearRead);
    YearInfo(current, current + 1, next, IsGregorianLeapYear(next.year))
  }

  /** The three results agree exactly when both readings fall in the same Ethiopian year: the
      next New Year is then the New Year of Gregorian year `current + 8`, and it opens
      Ethiopian year `next`. */
  lemma YearInfoConsistent(yearRead: Date, newYearRead: Date)
    ensures var info := EthiopianYearInfo(yearRead, newYearRead);
      (&& info.nextNewYearDate == NewYearDate(info.currentEthiopianYear + 8)
       && GregorianToEthiopian(info.nextNewYearDate) == info.nextEthiopianYear)
      <==> GregorianToEthiopian(yearRead) == GregorianToEthiopian(newYearRead)
  {
  }

  /** Readings on either side of New Year midnight disagree: a last-millisecond reading on
      10 September 2025 gives Ethiopian year 2017, while a reading at midnight gives the New
      Year of 2026 as the next one, which opens 2019 rather than 2018. */
  lemma YearInfoStraddlesNewYear()
    ensures var info := EthiopianYearInfo(Date(2025, 8, 10, MsPerDay - 1), Date(2025, 8, 11, 0));
      && info.currentEthiopianYear == 2017
      && info.nextNewYearDate == NewYearDate(2026)
      && info.nextNewYearDate != NewYearDate(info.currentEthiopianYear + 8)
  {
  }
}
