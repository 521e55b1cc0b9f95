/**
 * Behaviour of `HabitTracker` as written that departs from what the code
 * evidently intends, each with an input exhibiting it, and the behaviour of
 * the ISO week-number rule across ISO years, which the model keeps.
 */
module Findings {
  import opened Common
  import opened Calendar
  import opened Streak
  import opened HabitStore
  import opened Scenarios

  // ---------------------------------------------------------------------
  // The duplicate test examines the first stored check-off
  // ---------------------------------------------------------------------

  /** A daily habit checked off on day d, on day d + 1, and again on day
      d + 1: the third check-off is meant to be refused as a duplicate, but
      the duplicate test reads the day-d row, so it is taken as a broken
      streak, the current streak falls from 2 to 1 and a second row dated
      d + 1 is stored. */
  lemma SecondCheckOffSameDayBreaksStreak(d: Date)
    ensures var s1 := AddHabit(EmptyStore, "Read", "daily").value.store;
            var s2 := CheckOff(s1, "Read", d).value.store;
            var s3 := CheckOff(s2, "Read", d + 1).value.store;
            var c := CheckOff(s3, "Read", d + 1).value;
            && s3.habits[0].streaks == Streaks(2, 2)
            && c.verdict == Broken
            && c.store.habits[0].streaks == Streaks(1, 2)
            && c.store.events == [CheckOffEvent(1, d), CheckOffEvent(1, d + 1), CheckOffEvent(1, d + 1)]
  {
    ReadFirstCheckOff(d);
    ReadSecondCheckOff(d);
    ReadThirdCheckOff(d, d + 1);
  }

  /** Lifting the daily case: with the duplicate test on the latest stored
      check-off, the same three check-offs refuse the third. */
  lemma SecondCheckOffSameDayRefusedByLatest(d: Date)
    ensures var s1 := AddHabit(EmptyStore, "Read", "daily").value.store;
            var s2 := CheckOffByLatest(s1, "Read", d).value.store;
            var s3 := CheckOffByLatest(s2, "Read", d + 1).value.store;
            var c := CheckOffByLatest(s3, "Read", d + 1).value;
            && c.verdict == AlreadyCheckedOff
            && c.store == s3
            && s3.habits[0].streaks == Streaks(2, 2)
  {
    ReadFirstCheckOff(d);
    ReadSecondCheckOff(d);
    ReadThirdCheckOff(d, d + 1);
    assert Latest([d, d + 1]) == d + 1;
  }

  /** The weekly form: "Run" checked off on day m and on a day t of the
      following week in the same ISO year; a third check-off in t's week
      is meant to be refused, but the duplicate test reads day m, a week
      earlier, so the streak of 2 is taken as broken. */
  lemma SecondCheckOffInWeekBreaksStreak(m: Date, t: Date, u: Date)
    requires t - Weekday(t) == m - Weekday(m) + 7
    requires u - Weekday(u) == t - Weekday(t)
    requires IsoYear(t) == IsoYear(m)
    ensures var s := RunTwice(m, t, Streaks(2, 2));
            CheckOff(s, "Run", u) == Ok(CheckedOff(
              Store([Habit(1, "Run", Weekly, Streaks(1, 2))],
                    [CheckOffEvent(1, m), CheckOffEvent(1, t), CheckOffEvent(1, u)], 2),
              Broken))
  {
    SecondWeeklyInWeekVerdict(m, t, u);
    RunTwiceCheckOff(m, t, u);
  }

  /** The decision behind it: day m and day t stored, a check-off on day u
      of t's week. */
  lemma SecondWeeklyInWeekVerdict(m: Date, t: Date, u: Date)
    requires t - Weekday(t) == m - Weekday(m) + 7
    requires u - Weekday(u) == t - Weekday(t)
    requires IsoYear(t) == IsoYear(m)
    ensures Classify(Weekly, [m, t], u) == Broken
  {
    WeeklyNextWeek(m, t);
    SameWeekSameNumber(t, u);
    assert Latest([m, t]) == t;
  }

  /** A check-off of "Run" on day u after check-offs on days m and t is
      judged by `Classify` on those two dates. */
  lemma RunTwiceCheckOff(m: Date, t: Date, u: Date)
    ensures var c := CheckOff(RunTwice(m, t, Streaks(2, 2)), "Run", u).value;
            && c.verdict == Classify(Weekly, [m, t], u)
            && (c.verdict == Broken ==>
                  c.store == Store([Habit(1, "Run", Weekly, Streaks(1, 2))],
                                   [CheckOffEvent(1, m), CheckOffEvent(1, t), CheckOffEvent(1, u)], 2))
  {
    var s := RunTwice(m, t, Streaks(2, 2));
    assert FindHabit(s.habits, "Run") == Some(0);
    assert History(s.events, 1) == [m, t] by {
      assert s.events[..1] == [CheckOffEvent(1, m)];
      assert s.events[..1][..0] == [];
    }
  }

  /** Checking off with the duplicate test on the latest check-off is
      idempotent within a day: once a check-off dated today is stored (and
      none is dated later), a second check-off the same day is refused and
      changes nothing. */
  lemma CheckOffByLatestIdempotent(s: Store, name: string, today: Date)
    requires CheckOffByLatest(s, name, today).Ok?
    requires forall k :: 0 <= k < |s.events| ==> s.events[k].date <= today
    ensures var s' := CheckOffByLatest(s, name, today).value.store;
            CheckOffByLatest(s', name, today) == Ok(CheckedOff(s', AlreadyCheckedOff))
  {
    var i := FindHabit(s.habits, name).value;
    var h := s.habits[i];
    var hist := History(s.events, h.id);
    var v := ClassifyByLatest(h.periodicity, hist, today);
    var s' := Commit(s, i, v, today);
    assert CheckOffByLatest(s, name, today).value.store == s';
    CommitKeepsLookup(s, name, i, v, today);
    assert s'.habits[i].id == h.id && s'.habits[i].periodicity == h.periodicity;
    if v != AlreadyCheckedOff {
      HistoryAppend(s.events, CheckOffEvent(h.id, today), h.id);
      HistoryBounded(s.events, h.id, today);
      LatestOfAppendedMaximum(hist, today);
      assert History(s'.events, h.id) == hist + [today];
    }
    assert SamePeriod(h.periodicity, Latest(History(s'.events, h.id)), today);
  }

  // ---------------------------------------------------------------------
  // Row ids handed out again after a delete
  // ---------------------------------------------------------------------

  /** The row id SQLite gives an `INTEGER PRIMARY KEY` inserted without one
      (no AUTOINCREMENT): one more than the largest id present, which with
      rows in id order is the last row's, or 1 in an empty table. */
  function SqliteRowId(hs: seq<Habit>): (id: HabitId)
    ensures IdsAscending(hs) ==> forall i :: 0 <= i < |hs| ==> hs[i].id < id
    ensures |hs| == 0 ==> id == 1
    ensures |hs| > 0 ==> exists i :: 0 <= i < |hs| && hs[i].id + 1 == id
  {
    if |hs| == 0 then 1 else hs[|hs| - 1].id + 1
  }

  /** `add_habit` as written: the new row takes SQLite's next row id, so
      after the last rows are deleted their ids are handed out again while
      their check-offs are still stored. */
  function AddHabitAsWritten(s: Store, name: string, periodicity: string): (r: Result<Added>)
    ensures r.Err? <==> ParsePeriodicity(periodicity).None? || FindHabit(s.habits, name).Some?
    ensures ParsePeriodicity(periodicity).None? ==> r == Err(InvalidPeriodicity)
    ensures ParsePeriodicity(periodicity).Some? && r.Err? ==> r.error == DuplicateName
    ensures r.Ok? ==>
              var s' := r.value.store;
              && r.value.id == SqliteRowId(s.habits)
              && s'.events == s.events
              && |s'.habits| == |s.habits| + 1
              && s'.habits[..|s.habits|] == s.habits
              && s'.habits[|s.habits|].id == r.value.id
              && s'.habits[|s.habits|].name == name
              && PeriodicityText(s'.habits[|s.habits|].periodicity) == periodicity
              && s'.habits[|s.habits|].streaks == Streaks(0, 0)
    ensures r.Ok? && IdsAscending(s.habits) ==>
              && IdsAscending(r.value.store.habits)
              && forall i :: 0 <= i < |s.habits| ==> s.habits[i].id < r.value.id
  {
    var r := InsertHabit(s, name, periodicity, SqliteRowId(s.habits));
    assert r.Ok? && IdsAscending(s.habits) ==> IdsAscending(r.value.store.habits) by {
      if r.Ok? && IdsAscending(s.habits) {
        var hs' := r.value.store.habits;
        forall i, j | 0 <= i < j < |hs'|
          ensures hs'[i].id < hs'[j].id
        {
          assert hs'[i] == s.habits[i];
          if j < |s.habits| {
            assert hs'[j] == s.habits[j];
          }
        }
      }
    }
    r
  }

  /** Add habit A, check it off on day d, delete it, add habit B and check
      B off on day d + 2: B inherits A's id and A's check-off, so its
      first check-off is judged against day d and breaks a streak B never
      had, leaving a current streak of 1 above a longest streak of 0. */
  lemma ReusedIdBreaksLongestCoversCurrent(d: Date)
    ensures var s1 := AddHabitAsWritten(EmptyStore, "A", "daily").value.store;
            var s2 := CheckOff(s1, "A", d).value.store;
            var s3 := DeleteHabit(s2, "A").value;
            var b := AddHabitAsWritten(s3, "B", "daily").value;
            var c := CheckOff(b.store, "B", d + 2).value;
            && b.id == 1
            && c.verdict == Broken
            && c.store.habits[0].streaks == Streaks(1, 0)
            && c.store.habits[0].streaks.current > c.store.habits[0].streaks.longest
  {
    var s1 := Store([Habit(1, "A", Daily, Streaks(0, 0))], [], 2);
    assert AddHabitAsWritten(EmptyStore, "A", "daily").value.store == s1;
    var s2 := Store([Habit(1, "A", Daily, Streaks(1, 1))], [CheckOffEvent(1, d)], 2);
    assert CheckOff(s1, "A", d).value.store == s2 by {
      assert FindHabit(s1.habits, "A") == Some(0);
      assert History(s1.events, 1) == [];
    }
    var s3 := Store([], [CheckOffEvent(1, d)], 2);
    assert DeleteHabit(s2, "A").value == s3 by {
      assert CountNamed(s2.habits, "A") == 1;
    }
    var s4 := Store([Habit(1, "B", Daily, Streaks(0, 0))], [CheckOffEvent(1, d)], 2);
    assert AddHabitAsWritten(s3, "B", "daily").value == Added(s4, 1);
    assert FindHabit(s4.habits, "B") == Some(0);
    assert History(s4.events, 1) == [d] by {
      assert s4.events[..0] == [];
    }
    assert Classify(Daily, [d], d + 2) == Broken;
  }

  /** The same steps with ids from the store's counter: B gets a fresh id
      and no check-offs, so its first check-off starts a streak of 1. */
  lemma FreshIdStartsNewStreak(d: Date)
    ensures var s1 := AddHabit(EmptyStore, "A", "daily").value.store;
            var s2 := CheckOff(s1, "A", d).value.store;
            var s3 := DeleteHabit(s2, "A").value;
            var b := AddHabit(s3, "B", "daily").value;
            var c := CheckOff(b.store, "B", d + 2).value;
            && b.id == 2
            && c.verdict == OnStreak
            && c.store.habits[0].streaks == Streaks(1, 1)
  {
    var s1 := AddHabit(EmptyStore, "A", "daily").value.store;
    assert s1.habits == [Habit(1, "A", Daily, Streaks(0, 0))];
    var s2 := CheckOff(s1, "A", d).value.store;
    assert s2.events == [CheckOffEvent(1, d)];
    var s3 := DeleteHabit(s2, "A").value;
    assert s3.habits == [];
    var b := AddHabit(s3, "B", "daily").value;
    assert b.store.habits == [Habit(2, "B", Daily, Streaks(0, 0))];
    assert History(b.store.events, 2) == [];
  }

  // ---------------------------------------------------------------------
  // Week numbers across ISO years
  // ---------------------------------------------------------------------

  /** Monday 2021-12-27 is in week 52 and Monday 2022-01-03 in week 1: a
      weekly habit checked off in consecutive weeks across the turn of the
      year loses its streak. */
  lemma WeeklyStreakBreaksAtYearTurn()
    ensures IsoWeek(738151) == 52 && IsoWeek(738158) == 1
    ensures !NextPeriod(Weekly, 738151, 738158) && !SamePeriod(Weekly, 738151, 738158)
  {
    NewYearClosedForm(2021);
    NewYearClosedForm(2022);
    NewYearClosedForm(2023);
    assert Week1Monday(2021) == 737794;
    assert Week1Monday(2022) == 738158;
    assert Week1Monday(2023) == 738522;
    IsoCalendarByBracket(738151, 2021);
    IsoCalendarByBracket(738158, 2022);
  }

  /** Monday 2023-06-05 and Monday 2024-06-03 are both in week 23: a weekly
      check-off a year after the last one is refused as a duplicate. */
  lemma WeeklyCheckOffYearLaterIsDuplicate()
    ensures IsoWeek(738676) == 23 && IsoWeek(739040) == 23
    ensures SamePeriod(Weekly, 738676, 739040)
  {
    NewYearClosedForm(2023);
    NewYearClosedForm(2024);
    NewYearClosedForm(2025);
    assert Week1Monday(2023) == 738522;
    assert Week1Monday(2024) == 738886;
    assert Week1Monday(2025) == 739250;
    IsoCalendarByBracket(738676, 2023);
    IsoCalendarByBracket(739040, 2024);
  }
}
