/**
 * Whole-store runs of `HabitTracker`: a daily habit through continuation
 * and break, a weekly habit through continuation and duplicate, and the
 * streak queries with and without ties.
 */
module Scenarios {
  import opened Common
  import opened Calendar
  import opened Streak
  import opened HabitStore

  /** The daily habit "Read" (id 1) with counters c and check-offs
      `events`. */
  function ReadStore(c: Streaks, events: seq<CheckOffEvent>): Store
  {
    Store([Habit(1, "Read", Daily, c)], events, 2)
  }

  /** A new daily habit "Read" checked off on day d, under either duplicate
      test. */
  lemma ReadFirstCheckOff(d: Date)
    ensures AddHabit(EmptyStore, "Read", "daily").value.store == ReadStore(Streaks(0, 0), [])
    ensures var r := Ok(CheckedOff(ReadStore(Streaks(1, 1), [CheckOffEvent(1, d)]), OnStreak));
            && CheckOff(ReadStore(Streaks(0, 0), []), "Read", d) == r
            && CheckOffByLatest(ReadStore(Streaks(0, 0), []), "Read", d) == r
  {
    var s := ReadStore(Streaks(0, 0), []);
    assert FindHabit(s.habits, "Read") == Some(0);
    assert History(s.events, 1) == [];
    assert Classify(Daily, [], d) == OnStreak;
    assert ClassifyByLatest(Daily, [], d) == OnStreak;
    assert Commit(s, 0, OnStreak, d) == ReadStore(Streaks(1, 1), [CheckOffEvent(1, d)]);
  }

  /** "Read" checked off again on day d + 1: the streak goes on, under
      either duplicate test. */
  lemma ReadSecondCheckOff(d: Date)
    ensures var s := ReadStore(Streaks(1, 1), [CheckOffEvent(1, d)]);
            var r := Ok(CheckedOff(ReadStore(Streaks(2, 2), [CheckOffEvent(1, d), CheckOffEvent(1, d + 1)]), OnStreak));
            CheckOff(s, "Read", d + 1) == r && CheckOffByLatest(s, "Read", d + 1) == r
  {
    var s := ReadStore(Streaks(1, 1), [CheckOffEvent(1, d)]);
    assert FindHabit(s.habits, "Read") == Some(0);
    assert History(s.events, 1) == [d] by {
      assert s.events[..0] == [];
    }
    assert Latest([d]) == d;
    assert Classify(Daily, [d], d + 1) == OnStreak;
    assert ClassifyByLatest(Daily, [d], d + 1) == OnStreak;
    assert Commit(s, 0, OnStreak, d + 1) == ReadStore(Streaks(2, 2), [CheckOffEvent(1, d), CheckOffEvent(1, d + 1)]);
  }

  /** A third check-off of "Read", on day t, after those of days d and
      d + 1: decided on both dates, and a broken streak keeps the longest
      2. */
  lemma ReadThirdCheckOff(d: Date, t: Date)
    ensures var s := ReadStore(Streaks(2, 2), [CheckOffEvent(1, d), CheckOffEvent(1, d + 1)]);
            CheckOff(s, "Read", t).Ok? && CheckOff(s, "Read", t).value.verdict == Classify(Daily, [d, d + 1], t)
    ensures var s := ReadStore(Streaks(2, 2), [CheckOffEvent(1, d), CheckOffEvent(1, d + 1)]);
            var broken := ReadStore(Streaks(1, 2), [CheckOffEvent(1, d), CheckOffEvent(1, d + 1), CheckOffEvent(1, t)]);
            Classify(Daily, [d, d + 1], t) == Broken ==> CheckOff(s, "Read", t) == Ok(CheckedOff(broken, Broken))
    ensures var s := ReadStore(Streaks(2, 2), [CheckOffEvent(1, d), CheckOffEvent(1, d + 1)]);
            ClassifyByLatest(Daily, [d, d + 1], t) == AlreadyCheckedOff ==>
              CheckOffByLatest(s, "Read", t) == Ok(CheckedOff(s, AlreadyCheckedOff))
  {
    var s := ReadStore(Streaks(2, 2), [CheckOffEvent(1, d), CheckOffEvent(1, d + 1)]);
    assert FindHabit(s.habits, "Read") == Some(0);
    assert History(s.events, 1) == [d, d + 1] by {
      assert s.events[..1] == [CheckOffEvent(1, d)];
      assert s.events[..1][..0] == [];
    }
    if Classify(Daily, [d, d + 1], t) == Broken {
      assert Advance(Streaks(2, 2), Broken) == Streaks(1, 2);
      assert Commit(s, 0, Broken, t)
        == ReadStore(Streaks(1, 2), [CheckOffEvent(1, d), CheckOffEvent(1, d + 1), CheckOffEvent(1, t)]);
    }
  }

  /** A new daily habit "Read" checked off on days d, d + 1 and d + 3:
      counters (0,0), then (1,1), (2,2), and after the two-day gap (1,2),
      with the three check-offs stored. */
  lemma DailyReadScenario(d: Date)
    ensures AddHabit(EmptyStore, "Read", "daily").value.store == ReadStore(Streaks(0, 0), [])
    ensures CheckOff(ReadStore(Streaks(0, 0), []), "Read", d)
              == Ok(CheckedOff(ReadStore(Streaks(1, 1), [CheckOffEvent(1, d)]), OnStreak))
    ensures CheckOff(ReadStore(Streaks(1, 1), [CheckOffEvent(1, d)]), "Read", d + 1)
              == Ok(CheckedOff(ReadStore(Streaks(2, 2), [CheckOffEvent(1, d), CheckOffEvent(1, d + 1)]), OnStreak))
    ensures CheckOff(ReadStore(Streaks(2, 2), [CheckOffEvent(1, d), CheckOffEvent(1, d + 1)]), "Read", d + 3)
              == Ok(CheckedOff(ReadStore(Streaks(1, 2), [CheckOffEvent(1, d), CheckOffEvent(1, d + 1), CheckOffEvent(1, d + 3)]), Broken))
  {
    ReadFirstCheckOff(d);
    ReadSecondCheckOff(d);
    ReadThirdCheckOff(d, d + 3);
    assert Classify(Daily, [d, d + 1], d + 3) == Broken;
  }

  /** The weekly habit "Run" (id 1) with counters (1,1) after one
      check-off on day m. */
  function RunOnce(m: Date): Store
  {
    Store([Habit(1, "Run", Weekly, Streaks(1, 1))], [CheckOffEvent(1, m)], 2)
  }

  /** A new weekly habit "Run" checked off on day m, under either
      duplicate test. */
  lemma WeeklyFirstCheckOff(m: Date)
    ensures var a := AddHabit(EmptyStore, "Run", "weekly").value;
            && CheckOff(a.store, "Run", m) == Ok(CheckedOff(RunOnce(m), OnStreak))
            && CheckOffByLatest(a.store, "Run", m) == Ok(CheckedOff(RunOnce(m), OnStreak))
  {
    var a := AddHabit(EmptyStore, "Run", "weekly").value;
    assert a.store == Store([Habit(1, "Run", Weekly, Streaks(0, 0))], [], 2);
    assert FindHabit(a.store.habits, "Run") == Some(0);
    assert History(a.store.events, 1) == [];
    assert Classify(Weekly, [], m) == OnStreak;
    var c := CheckOff(a.store, "Run", m).value;
    assert c.verdict == OnStreak;
    assert c.store.events == [CheckOffEvent(1, m)];
    assert c.store.habits == [Habit(1, "Run", Weekly, Streaks(1, 1))];
    assert c.store.nextId == 2;
  }

  /** "Run" after a second check-off on day t, with counters c. */
  function RunTwice(m: Date, t: Date, c: Streaks): Store
  {
    Store([Habit(1, "Run", Weekly, c)], [CheckOffEvent(1, m), CheckOffEvent(1, t)], 2)
  }

  /** A second check-off of "Run" on day t is judged on the single stored
      check-off and moves the counters accordingly. */
  lemma RunOnceCheckOff(m: Date, t: Date)
    ensures var c := CheckOff(RunOnce(m), "Run", t).value;
            && c.verdict == Classify(Weekly, [m], t)
            && (c.verdict == OnStreak ==> c.store == RunTwice(m, t, Streaks(2, 2)))
            && (c.verdict == Broken ==> c.store == RunTwice(m, t, Streaks(1, 1)))
    ensures var c := CheckOffByLatest(RunOnce(m), "Run", t).value;
            && c.verdict == ClassifyByLatest(Weekly, [m], t)
            && (c.verdict == OnStreak ==> c.store == RunTwice(m, t, Streaks(2, 2)))
            && (c.verdict == Broken ==> c.store == RunTwice(m, t, Streaks(1, 1)))
  {
    assert FindHabit(RunOnce(m).habits, "Run") == Some(0);
    assert History(RunOnce(m).events, 1) == [m] by {
      assert RunOnce(m).events[..0] == [];
    }
  }

  /** Within one ISO year a second check-off in the following week
      extends the streak to 2; across the turn of an ISO year the week
      number falls to 1 and the streak restarts at 1, under either
      duplicate test. */
  lemma WeeklySecondCheckOff(m: Date, t: Date)
    requires t - Weekday(t) == m - Weekday(m) + 7
    ensures var c := CheckOff(RunOnce(m), "Run", t).value;
            && c == CheckOffByLatest(RunOnce(m), "Run", t).value
            && (IsoYear(t) == IsoYear(m) ==> c == CheckedOff(RunTwice(m, t, Streaks(2, 2)), OnStreak))
            && (IsoYear(t) != IsoYear(m) ==> c == CheckedOff(RunTwice(m, t, Streaks(1, 1)), Broken))
  {
    WeeklyFollowingWeekVerdict(m, t);
    RunOnceCheckOff(m, t);
  }

  /** A weekly habit "Run" checked off on day m, on a day t of the
      following week in the same ISO year, and on a day u of that same
      week: the second check-off extends the streak to 2 and, with the
      duplicate test on the latest check-off, the third is refused and
      changes nothing. */
  lemma WeeklyScenario(m: Date, t: Date, u: Date)
    requires t - Weekday(t) == m - Weekday(m) + 7
    requires u - Weekday(u) == t - Weekday(t)
    requires IsoYear(t) == IsoYear(m)
    ensures var a := AddHabit(EmptyStore, "Run", "weekly").value;
            var s1 := CheckOffByLatest(a.store, "Run", m).value.store;
            var s2 := CheckOffByLatest(s1, "Run", t).value.store;
            var c := CheckOffByLatest(s2, "Run", u).value;
            && s2.habits[0].streaks == Streaks(2, 2)
            && c.verdict == AlreadyCheckedOff
            && c.store == s2
  {
    WeeklyFirstCheckOff(m);
    WeeklySecondCheckOff(m, t);
    RunTwiceByLatest(m, t, u);
  }

  /** With check-offs on days m and t, a third in t's week is refused
      when the duplicate test examines the latest check-off. */
  lemma RunTwiceByLatest(m: Date, t: Date, u: Date)
    requires m < t
    requires u - Weekday(u) == t - Weekday(t)
    ensures CheckOffByLatest(RunTwice(m, t, Streaks(2, 2)), "Run", u)
              == Ok(CheckedOff(RunTwice(m, t, Streaks(2, 2)), AlreadyCheckedOff))
  {
    var s := RunTwice(m, t, Streaks(2, 2));
    SameWeekIsSamePeriod(t, u);
    assert FindHabit(s.habits, "Run") == Some(0);
    assert History(s.events, 1) == [m, t] by {
      assert s.events[..1] == [CheckOffEvent(1, m)];
      assert s.events[..1][..0] == [];
    }
    assert Latest([m, t]) == t;
  }

  /** Two habits with current streaks 0 and 0 are both returned, once
      each, in table order. */
  lemma TiedCurrentStreaksBothLead()
    ensures var s := Store([Habit(1, "A", Daily, Streaks(0, 0)), Habit(2, "B", Weekly, Streaks(0, 0))], [], 3);
            GetCurrentLongestStreak(s) == Some(s.habits)
  {
    var s := Store([Habit(1, "A", Daily, Streaks(0, 0)), Habit(2, "B", Weekly, Streaks(0, 0))], [], 3);
    assert forall g :: g in s.habits ==> g.streaks.current == 0;
    AscendingSameRows(GetCurrentLongestStreak(s).value, s.habits);
  }

  /** Of two habits with current streaks 1 and 2, only the second is
      returned. */
  lemma HigherCurrentStreakLeads()
    ensures var s := Store([Habit(1, "A", Daily, Streaks(1, 1)), Habit(2, "B", Weekly, Streaks(2, 2))], [], 3);
            GetCurrentLongestStreak(s) == Some([s.habits[1]])
  {
    var s := Store([Habit(1, "A", Daily, Streaks(1, 1)), Habit(2, "B", Weekly, Streaks(2, 2))], [], 3);
    assert forall g :: g in s.habits ==> g.streaks.current <= 2;
    assert s.habits[1] in s.habits;
    AscendingSameRows(GetCurrentLongestStreak(s).value, [s.habits[1]]);
  }
}
