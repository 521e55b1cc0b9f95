# Habit tracker core in Dafny

This project models `HabitTracker` from `tracker.py`, a command-line habit
tracker kept in SQLite. Each habit has a name, a periodicity (`daily` or
`weekly`) and two counters, the current streak and the longest streak. A
check-off records the day a habit was done. It either extends the streak,
breaks it, or is refused as a duplicate within the same period.

The model is a pure, immutable store:

- **Habits table.** A sequence of `Habit` rows in row-id order, which is the
  order a SQLite table scan returns them in.
- **Check-off table.** A sequence of `CheckOffEvent` rows in insertion order.
- **Next id.** A counter for the id the next habit receives.

Dates are proleptic Gregorian day ordinals, with 1 = 0001-01-01 as in
Python's `date.toordinal`. "Today" is a parameter of every operation that
reads the clock.

Modules:

- `Common`: `Option`, `Result` and the three ways an operation is refused.
  The refusals are `NotFound`, `DuplicateName` (the UNIQUE name constraint)
  and `InvalidPeriodicity` (the CHECK constraint on the periodicity column).
  A refused operation returns no store, so it leaves the store as it was.
- `Calendar`: the Gregorian year of a day ordinal, the weekday, and
  `IsoCalendar`, which follows the algorithm of Python's
  `date.isocalendar()`. It is proved equal to the ISO 8601 definition: a
  week belongs to the year holding its Thursday, and week 1 holds the
  year's first Thursday. Further lemmas cover the week-number range, same
  week, next week and the turn of an ISO year.
- `Streak`: periodicity parsing, the check-off decision (`Classify`, as
  written) and the counter update (`Advance`).
- `HabitStore`: the store, its invariant `Valid`, and the operations
  `add_habit`, `delete_habit`, `change_name`, `change_periodicity`,
  `check_off`, `get_all_by_periodicity`, `get_current_longest_streak` and
  `get_longest_streak`. Each of the five operations that change the store
  (add, delete, rename, change of periodicity, check-off) has a lemma
  showing it preserves `Valid`.
- `Scenarios`: whole-store runs of a daily and a weekly habit, and of the
  streak queries.
- `Findings`: the two defects listed under Findings, and the week-number
  behaviour across ISO years.

The store invariant `Valid` has these parts:

- ids are ascending and names are unique;
- every id in either table is below the next id;
- for every habit, `current ≤ longest ≤` its number of check-offs, and
  `current ≥ 1` once the habit has any check-off.

`longest ≥ current` follows from it (`HabitStore.ValidLongestCoversCurrent`).

Four behaviours of the code a reader might not expect, all kept in the
model:

- Deleting a habit keeps its check-off rows. The `FOREIGN KEY` is not
  enforced and nothing cascades.
- The weekly duplicate and adjacency tests compare ISO week numbers only,
  not ISO years.
- The duplicate test of `check_off` reads the first stored check-off of the
  habit, while the adjacency test reads the latest one.
- `add_habit` does not check the periodicity itself. The column's CHECK
  constraint refuses it, and that error is raised before the UNIQUE
  constraint on the name.

## Model

| member | source | states |
|---|---|---|
| Calendar.IsoCalendarFollowsThursdayRule | tracker.py:150-151 | the ISO year, week number and weekday `isocalendar()` gives agree with the ISO 8601 Thursday rule on every day |
| Calendar.IsoWeekRange | tracker.py:216-224 | a week number lies between 1 and 53 |
| Calendar.SameWeekSameNumber | tracker.py:150-151 | two days of one Monday-to-Sunday week have the same ISO year and week number |
| Calendar.IsoWeekAfterSevenDays | tracker.py:224-226 | seven days on, the week number is one higher within an ISO year; across the turn of an ISO year it falls from 52 or 53 to 1 |
| Calendar.IsoWeekOfFollowingWeek | tracker.py:220-226 | for any day of the following week: one higher in the same ISO year, otherwise week 1 after week 52 or 53 |
| Streak.ParsePeriodicity | tracker.py:25 | only the exact texts `daily` and `weekly` pass the CHECK constraint, each to the periodicity it names |
| Streak.ParsePeriodicityText | tracker.py:25 | reading back a stored periodicity text gives the periodicity |
| Streak.Latest | tracker.py:196-197 | the first row of `ORDER BY date DESC` is a stored date no other stored date exceeds |
| Streak.SamePeriod | tracker.py:141-151 | the duplicate test: the same day for a daily habit; for a weekly one the same ISO 8601 (Thursday-rule) week number, whatever the ISO years |
| Streak.NextPeriod | tracker.py:203-229 | the adjacency test of `daily_on_streak` and `weekly_on_streak`: the next day, or an ISO 8601 (Thursday-rule) week number one higher, whatever the ISO years |
| Streak.Classify | tracker.py:136-158 | with no stored check-off the streak is continued, and a broken streak needs a stored check-off |
| Streak.ClassifyDaily | tracker.py:141-207 | daily: duplicate iff today is the day of the first stored check-off; continued iff not that and today is the day after the latest check-off; broken otherwise, including a latest check-off dated today or later |
| Streak.ClassifyWeekly | tracker.py:150-229 | weekly: duplicate iff today's ISO 8601 week number equals the first check-off's; continued iff not that and it is one above the latest check-off's; the ISO year plays no part |
| Streak.ClassifyByLatest | tracker.py:136-153 | with the duplicate test on the latest check-off, no history still continues the streak and a broken streak needs a stored check-off |
| Streak.ClassifyByLatestRule | tracker.py:141-153 | corrected decision on any non-empty history: duplicate iff today is in the latest check-off's period, continued iff not that and today is in the next period, broken otherwise |
| Streak.ClassifyByLatestDaily | tracker.py:141-148 | corrected daily decision: duplicate iff today is the latest check-off's day, continued iff it is the day after, broken on any other day |
| Streak.ClassifyByLatestWeekly | tracker.py:150-153 | corrected weekly decision: duplicate iff today's ISO 8601 week number equals the latest check-off's, continued iff it is one above; the ISO year plays no part |
| Streak.ClassifyAgreesWhenFirstIsLatest | tracker.py:136-137 | when the first stored check-off is also the latest, examining either gives the same decision |
| Streak.ClassifyAgreesOnShortHistory | tracker.py:136-137 | with at most one stored check-off the two decisions agree |
| Streak.Advance | tracker.py:160-178 | a duplicate keeps the counters; continued adds 1 to the current streak and raises the longest when overtaken; broken sets the current streak to 1 and keeps the longest; the longest never falls |
| Streak.AdvanceKeepsAgreement | tracker.py:160-178 | a non-duplicate check-off keeps `current ≤ longest ≤ check-offs` and `current ≥ 1` once checked off |
| Streak.SameWeekIsSamePeriod | tracker.py:150-151 | a weekly check-off in the same Monday-to-Sunday week as the examined one is a duplicate |
| Streak.WeeklyNextWeek | tracker.py:220-229 | a weekly check-off in the week after the latest one is never a duplicate, and is adjacent exactly when the two share an ISO year |
| Streak.WeeklyFollowingWeekVerdict | tracker.py:209-229 | one stored weekly check-off, a check-off the following week: continued within an ISO year, broken across its turn, under either duplicate test |
| HabitStore.ValidLongestCoversCurrent | tracker.py:166-176 | in a valid store no habit's current streak exceeds its longest streak |
| HabitStore.EmptyStoreValid | tracker.py:21-38 | the freshly created empty tables satisfy the invariant |
| HabitStore.FindHabit | tracker.py:129-130 | `WHERE name = ?` with `fetchone()`: the first row with the name, or none when no row has it |
| HabitStore.History | tracker.py:136 | a habit's check-off dates in storage order, never more than the stored rows |
| HabitStore.HistoryAppend | tracker.py:179-181 | storing a check-off extends a habit's history by its date exactly when it belongs to that habit |
| HabitStore.HistoryOfUnusedId | tracker.py:136 | a habit no stored row names has no check-off dates |
| HabitStore.FindHabitUnique | tracker.py:29 | with unique names, the row found is the only row with the name |
| HabitStore.CountNamed | tracker.py:72-73 | the count is 0 exactly when no row has the name, and at most 1 with unique names |
| HabitStore.UpdateNamed | tracker.py:108-109 | `UPDATE ... WHERE name = ?` rewrites every row with the name and leaves the others |
| HabitStore.InsertHabit | tracker.py:50-62 | the insert fails on the CHECK constraint before the UNIQUE one; on success one row is appended with counters 0 and the rest is unchanged |
| HabitStore.AddHabit | tracker.py:41-64 | refused exactly when the periodicity is not `daily`/`weekly` or the name is taken, with the periodicity error first; otherwise one habit with counters 0 is appended, nothing else changes, and the id counter moves on |
| HabitStore.AddHabitPreservesValid | tracker.py:21-30 | after an add the store is valid, the new habit is found under its name, its id is new and it has no check-offs |
| HabitStore.DeleteHabit | tracker.py:66-79 | not found exactly when no row has the name; otherwise only that habit's row goes, the check-off table is kept, and the name is no longer found |
| HabitStore.SelectUnnamedLength | tracker.py:76-77 | deleting by name removes exactly as many rows as have the name |
| HabitStore.DeleteHabitPreservesValid | tracker.py:72-79 | deleting keeps the store valid, even with the orphaned check-offs |
| HabitStore.ChangeName | tracker.py:81-95 | an absent old name is not found; with the old name present, any refusal is the UNIQUE error of a rename onto a name another row holds; otherwise only the name of the renamed row changes |
| HabitStore.ChangeNamePreservesValid | tracker.py:88-92 | after a rename the store is valid and the habit is found under its new name at its old row |
| HabitStore.ChangePeriodicity | tracker.py:97-113 | succeeds exactly when the name is present and the periodicity passes the CHECK constraint; an absent name is not found before the periodicity is checked; on success only the periodicity changes, never the counters, id or name |
| HabitStore.ChangePeriodicityPreservesValid | tracker.py:104-110 | changing a periodicity keeps the store valid |
| HabitStore.CheckOff | tracker.py:115-186 | unknown name: not found; otherwise the decision is taken on the stored dates, a duplicate changes nothing, any other outcome appends exactly one check-off for that habit dated today and moves its counters, and no other habit changes |
| HabitStore.Commit | tracker.py:160-182 | applying a decision: a duplicate changes nothing; otherwise the habit's counters move as the decision says, one row dated today is appended, and nothing else changes |
| HabitStore.CheckOffByLatest | tracker.py:136-153 | the same, with the duplicate test on the latest stored check-off |
| HabitStore.CommitPreservesValid | tracker.py:160-182 | applying a decision that never breaks an empty history keeps the store valid |
| HabitStore.CheckOffPreservesValid | tracker.py:115-186 | `check_off` keeps the store valid, so longest ≥ current after every check-off |
| HabitStore.CheckOffByLatestPreservesValid | tracker.py:160-182 | the corrected check-off keeps the store valid |
| HabitStore.CheckedOffHabitHasStreak | tracker.py:166-178 | a habit with any check-off has longest ≥ current ≥ 1 |
| HabitStore.GetAllByPeriodicity | tracker.py:243-258 | exactly the habits whose stored periodicity text is the given text, in table order; none for any other text |
| HabitStore.MaxCounter | tracker.py:265-267 | `MAX(counter)` bounds every habit's counter and is reached by one of them |
| HabitStore.Leaders | tracker.py:265-275 | nothing for an empty table; otherwise a non-empty selection of exactly the habits whose counter no habit exceeds, ties included, each once and in table order when the table is in id order |
| HabitStore.GetCurrentLongestStreak | tracker.py:260-275 | exactly the habits with the highest current streak, every tied one included, each once and in table order; nothing without habits |
| HabitStore.GetLongestStreak | tracker.py:277-292 | exactly the habits with the highest longest streak, every tied one included, each once and in table order; nothing without habits |
| HabitStore.AscendingSameRows | tracker.py:265-268 | two id-ordered row lists holding the same rows are equal, so a query result pinned by membership and id order is pinned exactly |
| Scenarios.ReadFirstCheckOff | tracker.py:41-64 | a new daily habit gets counters (0,0) and no check-offs; its first check-off continues the streak to (1,1) and stores one row, under either duplicate test |
| Scenarios.ReadSecondCheckOff | tracker.py:155-182 | a check-off the day after the only stored one continues the streak to (2,2), under either duplicate test |
| Scenarios.ReadThirdCheckOff | tracker.py:136-182 | a third check-off is decided on both stored dates; when broken the counters become (1,2) and the row is stored, and a duplicate under the latest-date test changes nothing |
| Scenarios.DailyReadScenario | tracker.py:115-182 | daily habit checked off on days d, d+1, d+3: each step's whole store, counters (0,0), (1,1), (2,2), then (1,2) after the gap, with the three rows stored |
| Scenarios.WeeklyFirstCheckOff | tracker.py:155-182 | the first check-off of a new weekly habit starts a streak of 1 and stores one check-off |
| Scenarios.RunOnceCheckOff | tracker.py:129-182 | a second check-off is decided on the one stored date and moves the counters to (2,2) or (1,1) |
| Scenarios.WeeklySecondCheckOff | tracker.py:209-229 | a weekly check-off in the following week gives (2,2) within an ISO year and (1,1) across its turn |
| Scenarios.WeeklyScenario | tracker.py:141-182 | weekly habit checked off in week W, then W+1: current 2; again in W+1 with the duplicate test on the latest check-off: refused, nothing changes |
| Scenarios.RunTwiceByLatest | tracker.py:141-153 | with check-offs on days m and t, a third in t's week is refused when the latest check-off is examined |
| Scenarios.TiedCurrentStreaksBothLead | tracker.py:265-275 | current streaks {0,0}: the result is exactly both habits, once each, in table order |
| Scenarios.HigherCurrentStreakLeads | tracker.py:265-275 | current streaks {1,2}: the result is exactly the one habit with 2 |
| Findings.SecondCheckOffSameDayBreaksStreak | tracker.py:136-153 | daily habit on d, d+1, d+1: the third check-off breaks the streak (2 to 1) and stores a second row for d+1 |
| Findings.SecondCheckOffSameDayRefusedByLatest | tracker.py:141-147 | the same three check-offs with the duplicate test on the latest check-off refuse the third |
| Findings.SecondCheckOffInWeekBreaksStreak | tracker.py:150-151 | weekly habit in week W, W+1, W+1: the third check-off breaks the streak of 2 |
| Findings.SecondWeeklyInWeekVerdict | tracker.py:150-158 | the decision behind it is `Broken` |
| Findings.RunTwiceCheckOff | tracker.py:129-182 | a check-off after two stored ones is decided on both dates and a broken streak keeps the longest 2 |
| HabitStore.HistoryBounded | tracker.py:135-137 | no stored date of a habit exceeds a bound on all stored dates |
| Findings.CheckOffByLatestIdempotent | tracker.py:141-153 | with the duplicate test on the latest check-off and no check-off dated after today, a second check-off the same day is refused and changes nothing |
| Findings.SqliteRowId | tracker.py:23 | the implicit row id is one more than an id present and exceeds every id present, so it is the largest id + 1; 1 in an empty table |
| Findings.AddHabitAsWritten | tracker.py:50-57 | refused as `add_habit` is, the CHECK error before the UNIQUE one; on success one row with the name, the periodicity text and counters (0,0) is appended, the check-offs are kept, and the id is SQLite's next row id, which depends only on the rows still present |
| Findings.ReusedIdBreaksLongestCoversCurrent | tracker.py:77 | add A, check off, delete A, add B, check off two days later: B reuses id 1, inherits A's check-off, and ends with current 1 > longest 0 |
| Findings.FreshIdStartsNewStreak | tracker.py:41-64 | the same steps with fresh ids: B gets id 2 and a streak of (1,1) |
| Findings.WeeklyStreakBreaksAtYearTurn | tracker.py:220-226 | 2021-12-27 is week 52 and 2022-01-03 week 1: consecutive weeks that are neither adjacent nor the same |
| Findings.WeeklyCheckOffYearLaterIsDuplicate | tracker.py:150-151 | 2023-06-05 and 2024-06-03 are both week 23: a check-off a year later counts as a duplicate |

## Left out

- The CLI in `main.py` and the `__main__` block of `tracker.py` only parse
  arguments and dispatch, so they are not part of this model.
- SQLite plumbing: connections, cursors, table creation and commits.
  `check_off` commits the counter update and the new check-off separately,
  and a failure between the two is not modelled. Only the schema's
  constraints are kept.
- All printed messages, and with them the print-only
  `get_longest_streak_by_name`.
- `get_all_habits`, which returns every habit's name, periodicity and
  creation date: the whole habits table unfiltered, which is the store's
  `habits` sequence itself.
- The `creation_date` column.
- `strftime`/`strptime` of stored dates. Dates are day ordinals, and stored
  dates are assumed to parse.
- The clock. "Today" is a parameter, so the separate `date.today()` calls in
  `check_off` and in the streak helpers are taken to agree.
- Python's `date` range stops at year 9999. The model admits any later
  ordinal.
- SQLite counters are 64-bit integers. The model's are unbounded, because
  overflow needs about 2^63 check-offs.
- A `None` name or periodicity: `NOT NULL` refuses the name, and a NULL
  periodicity passes the CHECK constraint. Names and periodicities are
  strings here.
- Exceptions. `add_habit` with an invalid periodicity re-raises the
  IntegrityError, and `change_name` onto a taken name and
  `change_periodicity` to an invalid one raise it, since neither catches
  it. Each is modelled as an `Err`
  result; the store is unchanged either way.
- Query results are full habit rows. The source returns
  (name, periodicity, creation_date) or (counter, name) tuples, selected
  columns of the same rows.
- An unordered `SELECT` is taken to return rows in row-id order, which is
  what SQLite does for these tables but does not promise.
- HabitStore.DeleteHabit: the table contents after a delete are stated only
  for unique names. With duplicate names the source deletes nothing, which
  the UNIQUE constraint makes unreachable.
- HabitStore.ChangeName: when the rename is refused is stated only for
  unique names.
- Streak.ClassifyByLatest: its own contract states only the empty-history
  and broken cases. The full corrected decision is stated by
  `Streak.ClassifyByLatestRule`, `Streak.ClassifyByLatestDaily` and
  `Streak.ClassifyByLatestWeekly`.
- HabitStore.History: its own contract bounds only the length. What a
  history holds is stated by `HabitStore.HistoryAppend`,
  `HabitStore.HistoryOfUnusedId` and `HabitStore.HistoryBounded`.
- Streak.Classify: its own contract states only the empty-history and
  broken cases. The full decision is stated by `Streak.ClassifyDaily` and
  `Streak.ClassifyWeekly`.

## Findings

| source | as written | input that shows it | evidently intended | confidence | as-written member | corrected member |
|---|---|---|---|---|---|---|
| tracker.py:136-137 | the duplicate test reads the first stored check-off of the habit (`SELECT date ... WHERE habit_id = ?` with no ORDER BY) | daily habit checked off on day d, d+1, then d+1 again: the third is taken as a broken streak, the current streak falls from 2 to 1, and a second row for d+1 is stored | test against the latest check-off, as the adjacency test does | high, not executed | Findings.SecondCheckOffSameDayBreaksStreak | HabitStore.CheckOffByLatest |
| tracker.py:23 | `habit_id INTEGER PRIMARY KEY` without AUTOINCREMENT gives a new habit the largest present id + 1, while `delete_habit` (tracker.py:77) leaves the deleted habit's check-offs in place | add A (id 1), check off on day d, delete A, add B (id 1 again), check off B on day d+2: B inherits A's check-off, the streak is judged broken, and B ends with current 1 > longest 0 | a new habit starts with no check-offs | medium, not executed | Findings.ReusedIdBreaksLongestCoversCurrent | HabitStore.AddHabit |

For the first row, `Findings.CheckOffByLatestIdempotent` proves the intended
property of `HabitStore.CheckOffByLatest`: a second check-off on the same
day is refused and changes nothing. `Scenarios.WeeklyScenario` uses it for
the weekly duplicate.

For the second row, `HabitStore.AddHabit` hands out ids from a counter that
never goes back. `HabitStore.AddHabitPreservesValid` proves that the new
habit's id is unused and that it has no check-offs, so `Valid`, and with it
longest ≥ current, survives deletes.
