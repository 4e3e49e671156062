/** Local-time JavaScript `Date` values as integer tuples, with the normalisation that
    `setMonth`, `setDate` and `setHours` perform. Daylight-saving shifts and time zones are
    not modelled: a day always has 86 400 000 milliseconds. */
module CalendarDate {

  const MsPerDay: int := 86_400_000

  /** A local date: Gregorian year, month 0..11 (as `getMonth` returns it), day of month, and
      milliseconds since local midnight. */
  datatype Date = Date(year: int, month: int, day: int, ms: int)

  /** The proleptic Gregorian leap-year rule. JavaScript's truncating `%` and Dafny's
      Euclidean `%` agree on whether a remainder is zero, so the rule reads the same. */
  predicate IsGregorianLeapYear(year: int) {
    (year % 4 == 0 && year % 100 != 0) || year % 400 == 0
  }

  function DaysInMonth(year: int, month: int): (n: int)
    ensures 28 <= n <= 31
  {
    if month == 1 then (if IsGregorianLeapYear(year) then 29 else 28)
    else if month == 3 || month == 5 || month == 8 || month == 10 then 30
    else 31
  }

  /** A date that a JavaScript `Date` can hold after normalisation. */
  predicate Valid(d: Date) {
    && 0 <= d.month < 12
    && 1 <= d.day <= DaysInMonth(d.year, d.month)
    && 0 <= d.ms < MsPerDay
  }

  /** `a < b` on Date objects: chronological order, which for normalised local dates is the
      lexicographic order of the tuple. */
  predicate Before(a: Date, b: Date) {
    || a.year < b.year
    || (a.year == b.year && a.month < b.month)
    || (a.year == b.year && a.month == b.month && a.day < b.day)
    || (a.year == b.year && a.month == b.month && a.day == b.day && a.ms < b.ms)
  }

  /** `!(b < a)`. */
  predicate NotAfter(a: Date, b: Date) {
    !Before(b, a)
  }

  lemma BeforeTransitive(a: Date, b: Date, c: Date)
    requires Before(a, b) && Before(b, c)
    ensures Before(a, c)
  {
  }

  /** Midnight at the start of the given day, as `new Date(y, m, d, 0, 0, 0, 0)` builds it. */
  function Midnight(year: int, month: int, day: int): (d: Date)
    ensures d.ms == 0
  {
    Date(year, month, day, 0)
  }

  /** The same day at 23:59:59.999 (`setHours(23, 59, 59, 999)`). */
  function EndOfDay(d: Date): (r: Date)
    ensures Valid(d) ==> Valid(r)
    ensures r.year == d.year && r.month == d.month && r.day == d.day
    ensures r.ms == MsPerDay - 1
  {
    d.(ms := MsPerDay - 1)
  }

  /** The next calendar day at the same time of day. */
  function NextDay(d: Date): (r: Date)
    requires Valid(d)
    ensures Valid(r) && Before(d, r) && r.ms == d.ms
  {
    if d.day < DaysInMonth(d.year, d.month) then d.(day := d.day + 1)
    else if d.month < 11 then d.(month := d.month + 1, day := 1)
    else d.(year := d.year + 1, month := 0, day := 1)
  }

  /** `setDate(getDate() - 1)`: the previous calendar day at the same time of day, rolling
      back into the previous month or year when the day is the first. */
  function PrevDay(d: Date): (r: Date)
    requires Valid(d)
    ensures Valid(r) && Before(r, d) && r.ms == d.ms
    ensures NextDay(r) == d
  {
    if d.day > 1 then d.(day := d.day - 1)
    else if d.month > 0 then d.(month := d.month - 1, day := DaysInMonth(d.year, d.month - 1))
    else d.(year := d.year - 1, month := 11, day := 31)
  }

  /** The instant one millisecond later. */
  function NextMs(d: Date): (r: Date)
    requires Valid(d)
    ensures Valid(r) && Before(d, r)
  {
    if d.ms + 1 < MsPerDay then d.(ms := d.ms + 1) else NextDay(d).(ms := 0)
  }

  /** No valid instant lies strictly between `d` and `NextMs(d)`: an instant comes before the
      next millisecond exactly when it is not after `d`. */
  lemma NextMsIsSuccessor(d: Date, x: Date)
    requires Valid(d) && Valid(x)
    ensures Before(x, NextMs(d)) <==> NotAfter(x, d)
  {
  }

  /** `setMonth(getMonth() + k)`: moves by `k` months, carrying into the year; a day past the
      end of the target month overflows into the following month, as JavaScript does. */
  function AddMonths(d: Date, k: int): (r: Date)
    requires Valid(d)
    ensures Valid(r) && r.ms == d.ms
    ensures d.day <= 28 ==> r == d.(year := d.year + (d.month + k) / 12, month := (d.month + k) % 12)
  {
    var y := d.year + (d.month + k) / 12;
    var m := (d.month + k) % 12;
    if d.day <= DaysInMonth(y, m) then Date(y, m, d.day, d.ms)
    else
      var over := d.day - DaysInMonth(y, m);
      if m < 11 then Date(y, m + 1, over, d.ms) else Date(y + 1, 0, over, d.ms)
  }

  /** Month steps compose while the day of month exists in every month. */
  lemma AddMonthsAdd(d: Date, a: int, b: int)
    requires Valid(d) && d.day <= 28
    ensures AddMonths(AddMonths(d, a), b) == AddMonths(d, a + b)
  {
    var t := d.month + a;
    var q, r := t / 12, t % 12;
    assert t == 12 * q + r && 0 <= r < 12;
    var u := r + b;
    var q2, r2 := u / 12, u % 12;
    assert u == 12 * q2 + r2 && 0 <= r2 < 12;
    assert d.month + (a + b) == 12 * (q + q2) + r2;
    DivModUnique(d.month + (a + b), q + q2, r2);
  }

  /** Euclidean division by 12 is determined by quotient and remainder. */
  lemma DivModUnique(n: int, q: int, r: int)
    requires n == 12 * q + r && 0 <= r < 12
    ensures n / 12 == q && n % 12 == r
  {
  }
}
