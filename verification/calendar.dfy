/**
 Proleptic Gregorian calendar dates, the arithmetic `relativedelta(months=1)`
 performs on them, and their position on the millisecond epoch axis that the
 dashboard's time slider uses.
 */
module Calendar {

  /** A calendar date at midnight. Only the valid ones (see `Valid`) are used. */
  datatype Date = Date(year: int, month: int, day: int)

  predicate IsLeapYear(y: int) {
    y % 4 == 0 && (y % 100 != 0 || y % 400 == 0)
  }

  function DaysInMonth(y: int, m: int): (n: int)
    requires 1 <= m <= 12
    ensures 28 <= n <= 31
    ensures n == 29 <==> m == 2 && IsLeapYear(y)
    ensures n == 28 <==> m == 2 && !IsLeapYear(y)
  {
    if m == 2 then (if IsLeapYear(y) then 29 else 28)
    else if m == 4 || m == 6 || m == 9 || m == 11 then 30
    else 31
  }

  function YearLength(y: int): int {
    if IsLeapYear(y) then 366 else 365
  }

  /** A real day of the calendar (years start at 1, as in Python's `datetime`). */
  predicate Valid(d: Date) {
    && 1 <= d.year
    && 1 <= d.month <= 12
    && 1 <= d.day <= DaysInMonth(d.year, d.month)
  }

  /** The dates a parsed `date` column holds. */
  type ValidDate = d: Date | Valid(d) witness Date(1970, 1, 1)

  /**
   A date a pandas `Timestamp` can hold. Timestamps cover 1677-09-21 to
   2262-04-11; these are the whole years inside that range.
   */
  predicate InTimestampRange(d: Date) {
    Valid(d) && 1678 <= d.year <= 2261
  }

  /** Number of months since the start of year 0; consecutive months differ by one. */
  function MonthIndex(d: Date): int {
    d.year * 12 + d.month - 1
  }

  // ---------------------------------------------------------------------------
  // Calendar order

  /** `a` is strictly earlier than `b`, compared field by field. */
  predicate Before(a: Date, b: Date) {
    || a.year < b.year
    || (a.year == b.year && a.month < b.month)
    || (a.year == b.year && a.month == b.month && a.day < b.day)
  }

  predicate AtOrBefore(a: Date, b: Date) {
    Before(a, b) || a == b
  }

  lemma BeforeIsStrictTotal(a: Date, b: Date, c: Date)
    ensures !Before(a, a)
    ensures Before(a, b) && Before(b, c) ==> Before(a, c)
    ensures a != b ==> Before(a, b) || Before(b, a)
    ensures Before(a, b) ==> !Before(b, a)
  {
  }

  lemma MonthIndexMonotone(a: Date, b: Date)
    requires Valid(a) && Valid(b)
    ensures AtOrBefore(a, b) ==> MonthIndex(a) <= MonthIndex(b)
    ensures MonthIndex(a) < MonthIndex(b) ==> Before(a, b)
  {
  }

  // ---------------------------------------------------------------------------
  // Adding one calendar month

  /**
   `d + relativedelta(months=1)`: the same day of the following month, with the
   day clamped to the length of that month (Jan 31 -> Feb 28 or 29).
   */
  function AddMonth(d: Date): (r: Date)
    requires Valid(d)
    ensures Valid(r)
    ensures MonthIndex(r) == MonthIndex(d) + 1
    ensures r.day <= d.day
    ensures d.day <= DaysInMonth(r.year, r.month) ==> r.day == d.day
    ensures d.day > DaysInMonth(r.year, r.month) ==> r.day == DaysInMonth(r.year, r.month)
    ensures Before(d, r)
  {
    var (y, m) := if d.month == 12 then (d.year + 1, 1) else (d.year, d.month + 1);
    var last := DaysInMonth(y, m);
    Date(y, m, if d.day <= last then d.day else last)
  }

  // ---------------------------------------------------------------------------
  // Day numbers and epoch instants

  function DaysBeforeYear(y: int): int {
    var p := y - 1;
    p * 365 + p / 4 - p / 100 + p / 400
  }

  /** Days in the months of year `y` before month `m`. */
  function DaysBeforeMonth(y: int, m: int): int
    requires 1 <= m <= 12
  {
    var common :=
      if m == 1 then 0 else if m == 2 then 31 else if m == 3 then 59
      else if m == 4 then 90 else if m == 5 then 120 else if m == 6 then 151
      else if m == 7 then 181 else if m == 8 then 212 else if m == 9 then 243
      else if m == 10 then 273 else if m == 11 then 304 else 334;
    if m > 2 && IsLeapYear(y) then common + 1 else common
  }

  /** Day number with 0001-01-01 as day 1, like Python's `date.toordinal`. */
  function Ordinal(d: Date): int
    requires Valid(d)
  {
    DaysBeforeYear(d.year) + DaysBeforeMonth(d.year, d.month) + d.day
  }

  const Epoch: Date := Date(1970, 1, 1)

  const MillisPerDay: int := 86_400_000

  /** `unix_time_millis`: milliseconds from 1970-01-01T00:00 UTC to midnight of `d`. */
  function EpochMillis(d: Date): int
    requires Valid(d)
  {
    (Ordinal(d) - Ordinal(Epoch)) * MillisPerDay
  }

  lemma DaysBeforeYearStep(y: int)
    ensures DaysBeforeYear(y + 1) == DaysBeforeYear(y) + YearLength(y)
  {
    var p := y - 1;
    QuotientStep(p, 4);
    QuotientStep(p, 100);
    QuotientStep(p, 400);
  }

  /** The quotient by `k` grows by one exactly at the multiples of `k`. */
  lemma QuotientStep(p: int, k: int)
    requires k == 4 || k == 100 || k == 400
    ensures (p + 1) / k == p / k + (if (p + 1) % k == 0 then 1 else 0)
  {
  }

  lemma {:induction false} DaysBeforeYearGrows(y: int, z: int)
    requires y < z
    ensures DaysBeforeYear(y) + YearLength(y) <= DaysBeforeYear(z)
    decreases z - y
  {
    DaysBeforeYearStep(y);
    if y + 1 < z {
      DaysBeforeYearGrows(y + 1, z);
    }
  }

  lemma DaysBeforeMonthGrows(y: int, m: int, n: int)
    requires 1 <= m < n <= 12
    ensures DaysBeforeMonth(y, m) + DaysInMonth(y, m) <= DaysBeforeMonth(y, n)
  {
  }

  lemma DaysBeforeMonthFitYear(y: int, m: int)
    requires 1 <= m <= 12
    ensures DaysBeforeMonth(y, m) + DaysInMonth(y, m) <= YearLength(y)
  {
  }

  /** The calendar order is the order of day numbers. */
  lemma BeforeIsOrdinalOrder(a: Date, b: Date)
    requires Valid(a) && Valid(b)
    ensures Before(a, b) <==> Ordinal(a) < Ordinal(b)
    ensures a == b <==> Ordinal(a) == Ordinal(b)
  {
    BeforeImpliesOrdinalLess(a, b);
    BeforeImpliesOrdinalLess(b, a);
    BeforeIsStrictTotal(a, b, a);
  }

  lemma BeforeImpliesOrdinalLess(a: Date, b: Date)
    requires Valid(a) && Valid(b)
    ensures Before(a, b) ==> Ordinal(a) < Ordinal(b)
  {
    if Before(a, b) {
      if a.year < b.year {
        DaysBeforeMonthFitYear(a.year, a.month);
        DaysBeforeYearGrows(a.year, b.year);
      } else if a.month < b.month {
        DaysBeforeMonthGrows(a.year, a.month, b.month);
      }
    }
  }

  /** Epoch milliseconds order dates exactly as the calendar does, so distinct dates get distinct keys. */
  lemma BeforeIsEpochOrder(a: Date, b: Date)
    requires Valid(a) && Valid(b)
    ensures Before(a, b) <==> EpochMillis(a) < EpochMillis(b)
    ensures a == b <==> EpochMillis(a) == EpochMillis(b)
  {
    BeforeIsOrdinalOrder(a, b);
  }

  lemma EpochIsDayZero()
    ensures EpochMillis(Epoch) == 0
    ensures Ordinal(Epoch) == 719163
  {
  }
}
