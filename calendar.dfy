/**
 * Calendar dates as whole day numbers.
 *
 * Day 0 is 1970-01-01 (a Thursday) and day `d + 1` is the day after day `d`,
 * in the proleptic Gregorian calendar of the host's local time zone.
 * The weekday follows `Date.prototype.getDay`: Sunday = 0, Monday = 1, ..., Saturday = 6.
 */
module Calendar {

  const Sunday := 0
  const Monday := 1
  /** `Weekday(0)`: 1970-01-01 was a Thursday. */
  const EpochWeekday := 4
  const EpochYear := 1970

  function Weekday(d: int): (w: int)
    ensures 0 <= w < 7
  {
    (d + EpochWeekday) % 7
  }

  predicate IsMonday(d: int) {
    Weekday(d) == Monday
  }

  /** Weekdays repeat every seven days, forwards and backwards. */
  lemma {:induction false} WeekdayPeriodic(d: int, k: int)
    ensures Weekday(d + 7 * k) == Weekday(d)
    decreases if k < 0 then -k else k
  {
    if k > 0 {
      WeekdayPeriodic(d, k - 1);
      assert d + 7 * k == (d + 7 * (k - 1)) + 7;
    } else if k < 0 {
      WeekdayPeriodic(d, k + 1);
      assert d + 7 * (k + 1) == (d + 7 * k) + 7;
    }
  }

  /** Two Mondays less than a week apart are the same day. */
  lemma MondaysAWeekApart(m1: int, m2: int)
    requires IsMonday(m1) && IsMonday(m2)
    requires m1 <= m2 <= m1 + 6
    ensures m1 == m2
  {
  }

  // ---------------------------------------------------------------------
  // Week alignment (the `(getDay() + 6) % 7` arithmetic)
  // ---------------------------------------------------------------------

  /** How many days lie between the Monday of `d`'s week and `d`: 0 on a Monday, 6 on a Sunday. */
  function DaysSinceMonday(d: int): (n: int)
    ensures 0 <= n <= 6
    ensures Weekday(d) == (n + Monday) % 7
  {
    (Weekday(d) + 6) % 7
  }

  /** The Monday on or before `d` of the Monday-to-Sunday week holding `d`. */
  function MondayOf(d: int): (m: int)
    ensures IsMonday(m)
    ensures m <= d <= m + 6
  {
    var m := d - DaysSinceMonday(d);
    assert Weekday(m) == Monday by {
      var n := DaysSinceMonday(d);
      assert (m + EpochWeekday + n) % 7 == Weekday(d);
    }
    m
  }

  /** Every day from a Monday through the following Sunday aligns to that Monday. */
  lemma MondayOfWeek(m: int, d: int)
    requires IsMonday(m)
    requires m <= d <= m + 6
    ensures MondayOf(d) == m
  {
    var m' := MondayOf(d);
    if m' <= m {
      MondaysAWeekApart(m', m);
    } else {
      MondaysAWeekApart(m, m');
    }
  }

  /** A Monday is its own week's Monday. */
  lemma MondayOfMonday(m: int)
    requires IsMonday(m)
    ensures MondayOf(m) == m
  {
    MondayOfWeek(m, m);
  }

  /** Two days share a week exactly when they align to the same Monday. */
  lemma SameWeek(d: int, e: int)
    ensures MondayOf(d) == MondayOf(e) <==> MondayOf(d) <= e <= MondayOf(d) + 6
  {
    if MondayOf(d) <= e <= MondayOf(d) + 6 {
      MondayOfWeek(MondayOf(d), e);
    }
  }

  /** A week later, the aligned Monday is exactly seven days later. */
  lemma MondayOfNextWeek(d: int)
    ensures MondayOf(d + 7) == MondayOf(d) + 7
  {
    var m := MondayOf(d);
    WeekdayPeriodic(m, 1);
    MondayOfWeek(m + 7, d + 7);
  }

  /**
   * The week label's two ends: the Monday of `today`'s week and the Sunday six days
   * after it.
   */
  function WeekRange(today: int): (r: (int, int))
    ensures IsMonday(r.0) && Weekday(r.1) == Sunday
    ensures r.0 <= today <= r.1 && r.1 - r.0 == 6
  {
    var monday := MondayOf(today);
    var sunday := monday + 6;
    assert Weekday(sunday) == (Weekday(monday) + 6) % 7;
    (monday, sunday)
  }

  // ---------------------------------------------------------------------
  // Years (`new Date(year, 0, 1)`)
  // ---------------------------------------------------------------------

  predicate IsLeapYear(year: int) {
    year % 4 == 0 && (year % 100 != 0 || year % 400 == 0)
  }

  /** Leap years among 1 .. year-1; as a difference between two years it is right for every year. */
  function LeapYearsBefore(year: int): int {
    (year - 1) / 4 - (year - 1) / 100 + (year - 1) / 400
  }

  /** The day number of January 1st of `year`. */
  function JanuaryFirst(year: int): int {
    365 * (year - EpochYear) + LeapYearsBefore(year) - LeapYearsBefore(EpochYear)
  }

  /** Passing from `y - 1` to `y`, one more multiple of 4, 100 and 400 is counted exactly when `y` is one. */
  lemma FloorDivSteps(y: int)
    ensures y / 4 - (y - 1) / 4 == if y % 4 == 0 then 1 else 0
    ensures y / 100 - (y - 1) / 100 == if y % 100 == 0 then 1 else 0
    ensures y / 400 - (y - 1) / 400 == if y % 400 == 0 then 1 else 0
  {
  }

  /** Multiples of 400 are multiples of 100, and multiples of 100 are multiples of 4. */
  lemma CenturyDivisibility(y: int)
    ensures y % 400 == 0 ==> y % 100 == 0
    ensures y % 100 == 0 ==> y % 4 == 0
  {
    if y % 400 == 0 {
      var m := 4 * (y / 400);
      assert y == 100 * m;
    }
    if y % 100 == 0 {
      var m := 25 * (y / 100);
      assert y == 4 * m;
    }
  }

  /** A year has 366 days when it is a leap year and 365 otherwise. */
  lemma YearLength(year: int)
    ensures JanuaryFirst(year + 1) - JanuaryFirst(year) == if IsLeapYear(year) then 366 else 365
  {
    FloorDivSteps(year);
    CenturyDivisibility(year);
    assert LeapYearsBefore(year + 1) - LeapYearsBefore(year) == if IsLeapYear(year) then 1 else 0;
  }

  /** The epoch, and two years whose January 1st the rotation examples use. */
  lemma JanuaryFirstKnownYears()
    ensures JanuaryFirst(EpochYear) == 0 && Weekday(0) == 4
    ensures JanuaryFirst(2024) == 19723 && IsMonday(19723)
    ensures JanuaryFirst(2026) == 20454 && Weekday(20454) == 4
  {
  }
}
