/**
 * The date tests of the task page. A `Date` is seen through its local
 * calendar fields: `getFullYear`, `getMonth` (0 to 11), `getDate` (1 to 31)
 * and the time of day in milliseconds. Comparing two `Date`s with `<`
 * compares their time values, which follow calendar order.
 */
module Calendar {

  datatype LocalDateTime = LocalDateTime(year: int, month: nat, day: nat, msOfDay: nat)

  const MsPerDay: nat := 86_400_000

  /** The fields a `Date` built from a stored due date can have. */
  predicate ValidDate(d: LocalDateTime) {
    d.month < 12 && 1 <= d.day <= 31 && d.msOfDay < MsPerDay
  }

  /** `a < b` on two `Date`s: earlier year, then month, then day, then time of day. */
  predicate Before(a: LocalDateTime, b: LocalDateTime) {
    || a.year < b.year
    || (a.year == b.year && a.month < b.month)
    || (a.year == b.year && a.month == b.month && a.day < b.day)
    || (a.year == b.year && a.month == b.month && a.day == b.day && a.msOfDay < b.msOfDay)
  }

  /** `d.setHours(0, 0, 0, 0)`: the same calendar day at local midnight. */
  function StartOfDay(d: LocalDateTime): LocalDateTime {
    d.(msOfDay := 0)
  }

  /** `isToday(due)`: same day of month, month and year as `now`; the time of day is ignored. */
  predicate IsToday(due: LocalDateTime, now: LocalDateTime) {
    due.day == now.day && due.month == now.month && due.year == now.year
  }

  /** `isOverdue(due)`: both dates moved to midnight, then compared with `<`. */
  predicate IsOverdue(due: LocalDateTime, now: LocalDateTime) {
    Before(StartOfDay(due), StartOfDay(now))
  }

  /**
   * An order-preserving number for each calendar day (not a count of days
   * since an epoch: every month is given 31 slots). Used as the independent
   * reference that the field-by-field tests are checked against.
   */
  function DayNumber(d: LocalDateTime): int {
    d.year * 372 + d.month * 31 + d.day
  }

  lemma DayNumberOrder(a: LocalDateTime, b: LocalDateTime)
    requires ValidDate(a) && ValidDate(b)
    ensures DayNumber(a) == DayNumber(b) <==> (a.year, a.month, a.day) == (b.year, b.month, b.day)
    ensures DayNumber(a) < DayNumber(b) <==> Before(StartOfDay(a), StartOfDay(b))
  {
    if a.year < b.year {
      assert a.year * 372 <= b.year * 372 - 372;
    } else if b.year < a.year {
      assert b.year * 372 <= a.year * 372 - 372;
    }
  }

  /** `isToday` holds exactly when the two dates fall on the same calendar day. */
  lemma IsTodaySameDay(due: LocalDateTime, now: LocalDateTime)
    requires ValidDate(due) && ValidDate(now)
    ensures IsToday(due, now) <==> DayNumber(due) == DayNumber(now)
  {
    DayNumberOrder(due, now);
  }

  /** `isOverdue` holds exactly when the due day is strictly earlier than today. */
  lemma IsOverdueEarlierDay(due: LocalDateTime, now: LocalDateTime)
    requires ValidDate(due) && ValidDate(now)
    ensures IsOverdue(due, now) <==> DayNumber(due) < DayNumber(now)
  {
    DayNumberOrder(due, now);
  }

  /**
   * A task due later today is not overdue, whatever the two times of day;
   * hence `isToday` and `isOverdue` never hold together.
   */
  lemma TodayIsNotOverdue(due: LocalDateTime, now: LocalDateTime)
    requires IsToday(due, now)
    ensures !IsOverdue(due, now)
  {
  }

  /** Every due date is today, overdue, or on a later day: exactly one of the three. */
  lemma DayTrichotomy(due: LocalDateTime, now: LocalDateTime)
    requires ValidDate(due) && ValidDate(now)
    ensures IsToday(due, now) || IsOverdue(due, now) || DayNumber(due) > DayNumber(now)
    ensures DayNumber(due) > DayNumber(now) ==> !IsToday(due, now) && !IsOverdue(due, now)
  {
    IsTodaySameDay(due, now);
    IsOverdueEarlierDay(due, now);
  }
}
