/**
 * The parts of java.time the aggregation queries rely on: a `LocalDateTime`
 * compared field by field, and a `YearMonth` with `plusMonths`,
 * `minusMonths` and `atDay(1).atStartOfDay()`.
 */
module Time {

  predicate IsLeapYear(year: int) {
    year % 4 == 0 && (year % 100 != 0 || year % 400 == 0)
  }

  function DaysInMonth(year: int, month: int): (n: int)
    requires 1 <= month <= 12
    ensures 28 <= n <= 31
  {
    if month == 2 then (if IsLeapYear(year) then 29 else 28)
    else if month == 4 || month == 6 || month == 9 || month == 11 then 30
    else 31
  }

  /** A `LocalDateTime` with nanosecond precision. */
  datatype LocalDateTime = LocalDateTime(year: int, month: int, day: int,
                                         hour: int, minute: int, second: int, nano: int)
  {
    predicate Valid() {
      && 1 <= month <= 12
      && 1 <= day <= DaysInMonth(year, month)
      && 0 <= hour < 24 && 0 <= minute < 60 && 0 <= second < 60
      && 0 <= nano < 1_000_000_000
    }
  }

  /** `a.isBefore(b)`, and SQL `a < b` on timestamp columns: lexicographic order of the fields. */
  predicate IsBefore(a: LocalDateTime, b: LocalDateTime) {
    if a.year != b.year then a.year < b.year
    else if a.month != b.month then a.month < b.month
    else if a.day != b.day then a.day < b.day
    else if a.hour != b.hour then a.hour < b.hour
    else if a.minute != b.minute then a.minute < b.minute
    else if a.second != b.second then a.second < b.second
    else a.nano < b.nano
  }

  lemma IsBeforeIsStrictTotalOrder(a: LocalDateTime, b: LocalDateTime, c: LocalDateTime)
    ensures !IsBefore(a, a)
    ensures IsBefore(a, b) ==> !IsBefore(b, a)
    ensures a != b ==> IsBefore(a, b) || IsBefore(b, a)
    ensures IsBefore(a, b) && IsBefore(b, c) ==> IsBefore(a, c)
  {
  }

  datatype YearMonth = YearMonth(year: int, month: int)
  {
    predicate Valid() {
      1 <= month <= 12
    }
  }

  /** Months since January of year 0 (`YearMonth.getProlepticMonth`). */
  function ProlepticMonth(ym: YearMonth): int {
    ym.year * 12 + ym.month - 1
  }

  lemma ProlepticMonthIsInjective(a: YearMonth, b: YearMonth)
    requires a.Valid() && b.Valid()
    requires ProlepticMonth(a) == ProlepticMonth(b)
    ensures a == b
  {
  }

  /** `ym.plusMonths(n)`: floor division of the proleptic month by 12. */
  function PlusMonths(ym: YearMonth, n: int): (r: YearMonth)
    requires ym.Valid()
    ensures r.Valid()
    ensures ProlepticMonth(r) == ProlepticMonth(ym) + n
  {
    var months := ProlepticMonth(ym) + n;
    YearMonth(months / 12, months % 12 + 1)
  }

  /** `ym.minusMonths(n)`. */
  function MinusMonths(ym: YearMonth, n: int): (r: YearMonth)
    requires ym.Valid()
    ensures r.Valid()
    ensures ProlepticMonth(r) == ProlepticMonth(ym) - n
  {
    PlusMonths(ym, -n)
  }

  /** One month on: December rolls over into January of the next year. */
  lemma PlusOneMonth(ym: YearMonth)
    requires ym.Valid()
    ensures ym.month == 12 ==> PlusMonths(ym, 1) == YearMonth(ym.year + 1, 1)
    ensures ym.month < 12 ==> PlusMonths(ym, 1) == YearMonth(ym.year, ym.month + 1)
  {
    if ym.month == 12 {
      ProlepticMonthIsInjective(PlusMonths(ym, 1), YearMonth(ym.year + 1, 1));
    } else {
      ProlepticMonthIsInjective(PlusMonths(ym, 1), YearMonth(ym.year, ym.month + 1));
    }
  }

  lemma PlusMonthsAfterMinusMonths(ym: YearMonth, n: int)
    requires ym.Valid()
    ensures PlusMonths(MinusMonths(ym, n), n) == ym
  {
    ProlepticMonthIsInjective(PlusMonths(MinusMonths(ym, n), n), ym);
  }

  /** The month a timestamp falls in (`YearMonth.from(t)`). */
  function MonthOf(t: LocalDateTime): (ym: YearMonth)
    requires t.Valid()
    ensures ym.Valid()
  {
    YearMonth(t.year, t.month)
  }

  /** `ym.atDay(1).atStartOfDay()`: the first instant of the month. */
  function StartOfMonth(ym: YearMonth): (t: LocalDateTime)
    requires ym.Valid()
    ensures t.Valid() && MonthOf(t) == ym
    ensures forall u: LocalDateTime :: u.Valid() && MonthOf(u) == ym ==> !IsBefore(u, t)
  {
    LocalDateTime(ym.year, ym.month, 1, 0, 0, 0, 0)
  }

  /** The last instant of the month: its last day at 23:59:59.999999999. */
  function EndOfMonth(ym: YearMonth): (t: LocalDateTime)
    requires ym.Valid()
    ensures t.Valid() && MonthOf(t) == ym
    ensures forall u: LocalDateTime :: u.Valid() && MonthOf(u) == ym ==> !IsBefore(t, u)
  {
    LocalDateTime(ym.year, ym.month, DaysInMonth(ym.year, ym.month), 23, 59, 59, 999_999_999)
  }

  /** A valid timestamp is before the start of `ym` exactly when it falls in an earlier month. */
  lemma BeforeStartOfMonthIffEarlierMonth(t: LocalDateTime, ym: YearMonth)
    requires t.Valid() && ym.Valid()
    ensures IsBefore(t, StartOfMonth(ym)) <==> ProlepticMonth(MonthOf(t)) < ProlepticMonth(ym)
  {
    if t.year < ym.year {
      assert ProlepticMonth(MonthOf(t)) <= t.year * 12 + 11 < ym.year * 12 <= ProlepticMonth(ym);
    } else if ym.year < t.year {
      assert ProlepticMonth(ym) <= ym.year * 12 + 11 < t.year * 12 <= ProlepticMonth(MonthOf(t));
    }
  }

  /** Start-of-month instants are ordered like their months. */
  lemma StartOfMonthIsMonotone(a: YearMonth, b: YearMonth)
    requires a.Valid() && b.Valid()
    ensures IsBefore(StartOfMonth(a), StartOfMonth(b)) <==> ProlepticMonth(a) < ProlepticMonth(b)
  {
    BeforeStartOfMonthIffEarlierMonth(StartOfMonth(a), b);
  }
}
