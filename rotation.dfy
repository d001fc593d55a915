/**
 * The rotation: the anchor ("week zero") Monday, the whole weeks from it to the
 * Monday of the current week, and the member at that many weeks modulo the roster size.
 */
module Rotation {
  import opened Wrappers
  import opened Calendar
  import opened Roster

  /** Division by a positive `n` is determined by `a == n * q + r` with `0 <= r < n`. */
  lemma DivModUnique(a: int, n: int, q: int, r: int)
    requires n > 0 && 0 <= r < n && a == n * q + r
    ensures a / n == q && a % n == r
  {
    var d := q - a / n;
    assert n * d == a % n - r;
    assert d == 0 by {
      assert -n < n * d < n;
    }
  }

  // ---------------------------------------------------------------------
  // The anchor: the first Monday on or after January 1st
  // ---------------------------------------------------------------------

  /** Days from January 1st (weekday `dow`) to the first Monday: 1 from a Sunday, 0 on a Monday, else `8 - dow`. */
  function DaysToFirstMonday(dow: int): (n: int)
    requires 0 <= dow < 7
    ensures 0 <= n <= 6
    ensures (dow + n) % 7 == Monday
  {
    if dow == Sunday then 1 else if dow == Monday then 0 else 8 - dow
  }

  /** The first Monday on or after day `first`: no Monday lies between the two. */
  function FirstMondayFrom(first: int): (a: int)
    ensures IsMonday(a)
    ensures first <= a <= first + 6
    ensures forall d :: first <= d < a ==> !IsMonday(d)
  {
    var n := DaysToFirstMonday(Weekday(first));
    var a := first + n;
    assert Weekday(a) == (Weekday(first) + n) % 7;
    assert forall d :: first <= d < a ==> !IsMonday(d) by {
      forall d | first <= d < a ensures !IsMonday(d) {
        if IsMonday(d) {
          MondaysAWeekApart(d, a);
        }
      }
    }
    a
  }

  /** The anchor computed on first use in `year`: January 1st moved on to the first Monday. */
  function FirstMondayOfYear(year: int): (a: int)
    ensures IsMonday(a) && JanuaryFirst(year) <= a <= JanuaryFirst(year) + 6
  {
    FirstMondayFrom(JanuaryFirst(year))
  }

  /** The first Monday on or after a day is the Monday of the week holding the day six days later (for January 1st: January 7th). */
  lemma FirstMondayIsMondayOfSeventh(first: int)
    ensures FirstMondayFrom(first) == MondayOf(first + 6)
  {
    MondayOfWeek(FirstMondayFrom(first), first + 6);
  }

  /** A year starting on a Monday is anchored on January 1st; one starting on a Thursday (2026) on January 5th. */
  lemma FirstMondayExamples()
    ensures FirstMondayOfYear(2024) == JanuaryFirst(2024)
    ensures Weekday(JanuaryFirst(2026)) == 4 && FirstMondayOfYear(2026) == JanuaryFirst(2026) + 4
  {
    JanuaryFirstKnownYears();
  }

  // ---------------------------------------------------------------------
  // Weeks since the anchor and the rotation index
  // ---------------------------------------------------------------------

  /**
   * Whole weeks from `anchor` to the Monday of `today`'s week
   * (`Math.floor(daysDiff / 7)`; Dafny's `/` by a positive divisor is floor division).
   */
  function WeeksSinceAnchor(anchor: int, today: int): (w: int)
    ensures anchor + 7 * w <= MondayOf(today) < anchor + 7 * w + 7
  {
    (MondayOf(today) - anchor) / 7
  }

  /** Between two Mondays, the floor division is exact: whole weeks, the days are a multiple of 7. */
  lemma WeeksSinceAnchorExact(anchor: int, today: int)
    requires IsMonday(anchor)
    ensures MondayOf(today) == anchor + 7 * WeeksSinceAnchor(anchor, today)
  {
    var m := MondayOf(today);
    var w := WeeksSinceAnchor(anchor, today);
    var r := (m - anchor) % 7;
    assert m == anchor + 7 * w + r;
    WeekdayPeriodic(anchor, w);
    if r != 0 {
      MondaysAWeekApart(anchor + 7 * w, m);
    }
  }

  /** The rotation index: weeks since the anchor, taken modulo the roster size into `[0, n)`. */
  function RotationIndex(anchor: int, today: int, n: int): (i: int)
    requires n > 0
    ensures 0 <= i < n
    ensures WeeksSinceAnchor(anchor, today) == n * (WeeksSinceAnchor(anchor, today) / n) + i
  {
    WeeksSinceAnchor(anchor, today) % n
  }

  /**
   * The current scrum master: none for an empty roster, otherwise the member at the
   * rotation index. The index is always a position of the roster.
   */
  function Select(roster: seq<Member>, anchor: int, today: int): (r: Option<Member>)
    ensures r.None? <==> roster == []
    ensures r.Some? ==> r.value in roster
    ensures r.Some? ==> r.value == roster[RotationIndex(anchor, today, |roster|)]
  {
    if |roster| == 0 then None else Some(roster[RotationIndex(anchor, today, |roster|)])
  }

  /** Every day from a Monday through the following Sunday selects the same member. */
  lemma SelectStableWithinWeek(roster: seq<Member>, anchor: int, m: int, d: int)
    requires IsMonday(m) && m <= d <= m + 6
    ensures Select(roster, anchor, d) == Select(roster, anchor, m)
  {
    MondayOfWeek(m, d);
    MondayOfMonday(m);
  }

  /** `(w + 1) mod n` is one past `w mod n`, wrapping to 0. */
  lemma ModSuccessor(w: int, n: int)
    requires n > 0
    ensures (w + 1) % n == (w % n + 1) % n
  {
    var q, r := w / n, w % n;
    if r + 1 < n {
      DivModUnique(w + 1, n, q, r + 1);
      DivModUnique(r + 1, n, 0, r + 1);
    } else {
      DivModUnique(w + 1, n, q + 1, 0);
      DivModUnique(r + 1, n, 1, 0);
    }
  }

  /** A week later, the rotation moves on to the next member, wrapping round at the end of the roster. */
  lemma RotationAdvancesWeekly(anchor: int, today: int, n: int)
    requires n > 0
    ensures RotationIndex(anchor, today + 7, n) == (RotationIndex(anchor, today, n) + 1) % n
  {
    MondayOfNextWeek(today);
    var w := WeeksSinceAnchor(anchor, today);
    assert WeeksSinceAnchor(anchor, today + 7) == (MondayOf(today) + 7 - anchor) / 7;
    assert WeeksSinceAnchor(anchor, today + 7) == w + 1;
    ModSuccessor(w, n);
  }

  /** Counting from the anchor, week `k` of the first round belongs to the roster's `k`-th member: everyone gets a turn. */
  lemma EveryMemberTakesATurn(roster: seq<Member>, anchor: int, k: int)
    requires IsMonday(anchor) && 0 <= k < |roster|
    ensures Select(roster, anchor, anchor + 7 * k) == Some(roster[k])
  {
    WeekdayPeriodic(anchor, k);
    MondayOfMonday(anchor + 7 * k);
    DivModUnique(k, |roster|, 0, k);
  }

  /** The round-robin example: anchored on Monday 2024-01-01, Alice, Bob, Carol; three weeks on it is Alice, four weeks on Bob. */
  lemma RotationExample()
    ensures var roster := [Member(1, "Alice"), Member(2, "Bob"), Member(3, "Carol")];
      && Select(roster, JanuaryFirst(2024), JanuaryFirst(2024) + 21) == Some(Member(1, "Alice"))
      && Select(roster, JanuaryFirst(2024), JanuaryFirst(2024) + 28) == Some(Member(2, "Bob"))
  {
    var roster := [Member(1, "Alice"), Member(2, "Bob"), Member(3, "Carol")];
    JanuaryFirstKnownYears();
    var a := JanuaryFirst(2024);
    EveryMemberTakesATurn(roster, a, 0);
    WeekdayPeriodic(a, 3);
    MondayOfMonday(a + 21);
    WeekdayPeriodic(a, 4);
    MondayOfMonday(a + 28);
  }

  // ---------------------------------------------------------------------
  // The selection as the source writes it: JavaScript `%` and array indexing
  // ---------------------------------------------------------------------

  /**
   * JavaScript's `%` for a positive divisor: the remainder of truncating division,
   * which takes the sign of the dividend.
   */
  function JsRemainder(a: int, n: int): (r: int)
    requires n > 0
    ensures -n < r < n
    ensures r == a % n || r == a % n - n
    ensures a >= 0 ==> r >= 0
    ensures a <= 0 ==> r <= 0
  {
    if a >= 0 then a % n
    else
      var q, s := (-a) / n, (-a) % n;
      if s == 0 then
        DivModUnique(a, n, -q, 0);
        0
      else
        DivModUnique(a, n, -q - 1, n - s);
        -s
  }

  /** `roster[i]` in JavaScript: the element at a valid position, `undefined` (here `None`) anywhere else. */
  function ElementAt(roster: seq<Member>, i: int): (r: Option<Member>)
    ensures r.Some? <==> 0 <= i < |roster|
    ensures r.Some? ==> r.value == roster[i]
  {
    if 0 <= i < |roster| then Some(roster[i]) else None
  }

  /** The rotation effect as written: `teamMembers[weeksDiff % teamMembers.length]`, `null` for an empty roster. */
  function SelectAsWritten(roster: seq<Member>, anchor: int, today: int): (r: Option<Member>)
    ensures roster == [] ==> r.None?
    ensures r.Some? ==> r.value in roster
  {
    if |roster| == 0 then None
    else ElementAt(roster, JsRemainder(WeeksSinceAnchor(anchor, today), |roster|))
  }

  /** From the anchor's own week on, the source's selection is the rotation: same index, always in bounds. */
  lemma SelectAsWrittenFromAnchorWeek(roster: seq<Member>, anchor: int, today: int)
    requires MondayOf(today) >= anchor
    ensures WeeksSinceAnchor(anchor, today) >= 0
    ensures roster != [] ==> 0 <= JsRemainder(WeeksSinceAnchor(anchor, today), |roster|) < |roster|
    ensures SelectAsWritten(roster, anchor, today) == Select(roster, anchor, today)
  {
  }

  /**
   * A first use before the first Monday on or after `first` (for the anchor: January 1st)
   * lands one week before the anchor it creates.
   */
  lemma FirstUseBeforeFirstMonday(first: int, today: int)
    requires first <= today < FirstMondayFrom(first)
    ensures WeeksSinceAnchor(FirstMondayFrom(first), today) == -1
  {
    var a := FirstMondayFrom(first);
    WeekdayPeriodic(a, -1);
    MondayOfWeek(a - 7, today);
  }

  /**
   * One week before the anchor, with two or more members, the source's index is -1
   * and nobody is selected; the rotation selects the last member.
   */
  lemma SelectAsWrittenWeekBeforeAnchor(roster: seq<Member>, anchor: int, today: int)
    requires |roster| >= 2
    requires WeeksSinceAnchor(anchor, today) == -1
    ensures SelectAsWritten(roster, anchor, today) == None
    ensures Select(roster, anchor, today) == Some(roster[|roster| - 1])
  {
    DivModUnique(-1, |roster|, -1, |roster| - 1);
  }

  /** Concretely: first use on Thursday 2026-01-01 with two members shows no scrum master. */
  lemma FirstUseOnNewYear2026(roster: seq<Member>)
    requires |roster| == 2
    ensures SelectAsWritten(roster, FirstMondayOfYear(2026), JanuaryFirst(2026)) == None
    ensures Select(roster, FirstMondayOfYear(2026), JanuaryFirst(2026)) == Some(roster[1])
  {
    FirstMondayExamples();
    FirstUseBeforeFirstMonday(JanuaryFirst(2026), JanuaryFirst(2026));
    SelectAsWrittenWeekBeforeAnchor(roster, FirstMondayOfYear(2026), JanuaryFirst(2026));
  }
}
