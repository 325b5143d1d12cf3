/**
 * The calendar values behind Python's `datetime` and `date` as the log
 * code uses them: proleptic Gregorian dates in years 1..9999, times to
 * the second, no time zone, compared field by field.
 */
module Calendar {

  /** A `datetime` value: the fields as numbers, without the range checks (see IsValidDateTime). */
  datatype DateTime = DateTime(year: nat, month: nat, day: nat, hour: nat, minute: nat, second: nat)

  /** A `date` value. */
  datatype Date = Date(year: nat, month: nat, day: nat)

  /** Gregorian leap years: every fourth year, except centuries not divisible by 400. */
  predicate IsLeapYear(y: int) {
    y % 4 == 0 && (y % 100 != 0 || y % 400 == 0)
  }

  function DaysInMonth(y: int, m: int): (n: int)
    requires 1 <= m <= 12
    ensures 28 <= n <= 31
  {
    if m == 2 then (if IsLeapYear(y) then 29 else 28)
    else if m == 4 || m == 6 || m == 9 || m == 11 then 30
    else 31
  }

  /** The range `datetime.date` accepts: MINYEAR 1 to MAXYEAR 9999 and a day that exists in its month. */
  predicate IsValidDate(y: int, m: int, d: int) {
    1 <= y <= 9999 && 1 <= m <= 12 && 1 <= d <= DaysInMonth(y, m)
  }

  /** What Python's `datetime` constructor accepts. */
  predicate IsValidDateTime(t: DateTime) {
    IsValidDate(t.year, t.month, t.day)
    && 0 <= t.hour < 24 && 0 <= t.minute < 60 && 0 <= t.second < 60
  }

  /** `datetime.date()`: the calendar date of a timestamp. */
  function DateOf(t: DateTime): Date {
    Date(t.year, t.month, t.day)
  }

  /** `a < b` on dates: the earlier year, then month, then day. */
  predicate DateBefore(a: Date, b: Date) {
    a.year < b.year
    || (a.year == b.year && (a.month < b.month || (a.month == b.month && a.day < b.day)))
  }

  /** `a <= b` on dates. */
  predicate DateNotAfter(a: Date, b: Date) {
    !DateBefore(b, a)
  }

  /** `a < b` on timestamps: the earlier date, then hour, minute and second. */
  predicate Before(a: DateTime, b: DateTime) {
    DateBefore(Date(a.year, a.month, a.day), Date(b.year, b.month, b.day))
    || (a.year == b.year && a.month == b.month && a.day == b.day
        && (a.hour < b.hour
            || (a.hour == b.hour && (a.minute < b.minute
                || (a.minute == b.minute && a.second < b.second)))))
  }

  /** `a <= b` on timestamps. */
  predicate NotAfter(a: DateTime, b: DateTime) {
    !Before(b, a)
  }

  /** Timestamps are totally ordered: `<=` is `<` or equality, and the order is transitive. */
  lemma TimestampOrder(a: DateTime, b: DateTime, c: DateTime)
    ensures NotAfter(a, b) <==> Before(a, b) || a == b
    ensures !(Before(a, b) && Before(b, a))
    ensures Before(a, b) && NotAfter(b, c) ==> Before(a, c)
    ensures NotAfter(a, b) && Before(b, c) ==> Before(a, c)
    ensures NotAfter(a, b) && NotAfter(b, c) ==> NotAfter(a, c)
  {
  }

  /** Dates are totally ordered the same way; `a <= b <= a` only for the same date. */
  lemma DateOrder(a: Date, b: Date, c: Date)
    ensures DateNotAfter(a, b) <==> DateBefore(a, b) || a == b
    ensures DateNotAfter(a, b) && DateNotAfter(b, a) ==> a == b
    ensures DateNotAfter(a, b) && DateNotAfter(b, c) ==> DateNotAfter(a, c)
    ensures DateBefore(a, b) && DateNotAfter(b, c) ==> DateBefore(a, c)
  {
  }
}
