/**
 * The habit store of `HabitTracker`: the habits table as a sequence of rows
 * in rowid order, the check-off table as the sequence of stored events, and
 * the operations `add_habit`, `delete_habit`, `change_name`,
 * `change_periodicity`, `check_off`, `get_all_by_periodicity`,
 * `get_current_longest_streak` and `get_longest_streak`, with "today" an
 * explicit parameter.
 */
module HabitStore {
  import opened Common
  import opened Calendar
  import opened Streak

  type HabitId = nat

  /** A row of the habits table. */
  datatype Habit = Habit(id: HabitId, name: string, periodicity: Periodicity, streaks: Streaks)

  /** A row of the check-off table. */
  datatype CheckOffEvent = CheckOffEvent(habitId: HabitId, date: Date)

  /** Both tables, and the id the next added habit receives. */
  datatype Store = Store(habits: seq<Habit>, events: seq<CheckOffEvent>, nextId: HabitId)

  /** A store with no habits and no check-offs; SQLite numbers rows from 1. */
  const EmptyStore := Store([], [], 1)

  // ---------------------------------------------------------------------
  // Store invariant
  // ---------------------------------------------------------------------

  /** Rows appear in increasing id order, as a rowid table scan returns them. */
  predicate IdsAscending(hs: seq<Habit>)
  {
    forall i, j :: 0 <= i < j < |hs| ==> hs[i].id < hs[j].id
  }

  /** The UNIQUE (name) constraint. */
  predicate NamesUnique(hs: seq<Habit>)
  {
    forall i, j :: 0 <= i < j < |hs| ==> hs[i].name != hs[j].name
  }

  /** The check-off dates of habit `id`, in the order they were stored. */
  function History(events: seq<CheckOffEvent>, id: HabitId): (r: seq<Date>)
    ensures |r| <= |events|
  {
    if |events| == 0 then []
    else
      var last := events[|events| - 1];
      History(events[..|events| - 1], id) + (if last.habitId == id then [last.date] else [])
  }

  /** Storing a check-off extends a habit's history by its date exactly
      when the check-off is that habit's. */
  lemma HistoryAppend(events: seq<CheckOffEvent>, e: CheckOffEvent, id: HabitId)
    ensures History(events + [e], id) == History(events, id) + (if e.habitId == id then [e.date] else [])
  {
    assert (events + [e])[..|events|] == events;
  }

  /** A habit no stored event names has an empty history. */
  lemma {:induction false} HistoryOfUnusedId(events: seq<CheckOffEvent>, id: HabitId)
    requires forall k :: 0 <= k < |events| ==> events[k].habitId != id
    ensures History(events, id) == []
  {
    if |events| > 0 {
      HistoryOfUnusedId(events[..|events| - 1], id);
    }
  }

  /** Every date in a history is one of the stored check-off dates, so it is
      bounded by any bound on those. */
  lemma {:induction false} HistoryBounded(events: seq<CheckOffEvent>, id: HabitId, today: Date)
    requires forall k :: 0 <= k < |events| ==> events[k].date <= today
    ensures forall j :: 0 <= j < |History(events, id)| ==> History(events, id)[j] <= today
  {
    if |events| > 0 {
      HistoryBounded(events[..|events| - 1], id, today);
    }
  }

  /** The store invariant: the schema constraints, ids never handed out
      twice, and every habit's counters in agreement with its check-offs. */
  predicate Valid(s: Store)
  {
    && IdsAscending(s.habits)
    && NamesUnique(s.habits)
    && (forall i :: 0 <= i < |s.habits| ==> s.habits[i].id < s.nextId)
    && (forall k :: 0 <= k < |s.events| ==> s.events[k].habitId < s.nextId)
    && (forall i :: 0 <= i < |s.habits| ==>
          StreaksAgree(s.habits[i].streaks, |History(s.events, s.habits[i].id)|))
  }

  /** The invariant that matters to users: no current streak exceeds the
      longest one. */
  lemma ValidLongestCoversCurrent(s: Store, i: nat)
    requires Valid(s) && i < |s.habits|
    ensures s.habits[i].streaks.longest >= s.habits[i].streaks.current
  {
  }

  lemma EmptyStoreValid()
    ensures Valid(EmptyStore)
  {
  }

  // ---------------------------------------------------------------------
  // Row selection helpers
  // ---------------------------------------------------------------------

  /** The first row named `name`, as `WHERE name = ?` and `fetchone()`. */
  function FindHabit(hs: seq<Habit>, name: string): (r: Option<nat>)
    ensures r.Some? ==> r.value < |hs| && hs[r.value].name == name
    ensures r.Some? ==> forall i :: 0 <= i < r.value ==> hs[i].name != name
    ensures r.None? ==> forall i :: 0 <= i < |hs| ==> hs[i].name != name
  {
    if |hs| == 0 then None
    else if hs[0].name == name then Some(0)
    else
      match FindHabit(hs[1..], name)
      case None => None
      case Some(k) => Some(k + 1)
  }

  /** With unique names the first row of a name is its only row. */
  lemma FindHabitUnique(hs: seq<Habit>, name: string, i: nat)
    requires NamesUnique(hs) && i < |hs| && hs[i].name == name
    ensures FindHabit(hs, name) == Some(i)
  {
  }

  /** The rows `keep` selects, in table order, as a `WHERE` clause. */
  function Select(hs: seq<Habit>, keep: Habit -> bool): (r: seq<Habit>)
    ensures |r| <= |hs|
    ensures forall h :: h in r <==> h in hs && keep(h)
    ensures IdsAscending(hs) ==> IdsAscending(r)
    ensures NamesUnique(hs) ==> NamesUnique(r)
  {
    if |hs| == 0 then []
    else
      var rest := Select(hs[1..], keep);
      assert forall h :: h in rest ==> h in hs[1..];
      assert IdsAscending(hs) ==> IdsAscending(hs[1..]);
      assert NamesUnique(hs) ==> NamesUnique(hs[1..]);
      if keep(hs[0]) then
        SelectHead(hs, rest);
        [hs[0]] + rest
      else rest
  }

  /** Putting the first row back in front of a selection of the others keeps
      ids ascending and names unique. */
  lemma SelectHead(hs: seq<Habit>, rest: seq<Habit>)
    requires |hs| > 0
    requires forall h :: h in rest ==> h in hs[1..]
    ensures IdsAscending(hs) && IdsAscending(rest) ==> IdsAscending([hs[0]] + rest)
    ensures NamesUnique(hs) && NamesUnique(rest) ==> NamesUnique([hs[0]] + rest)
  {
    var r := [hs[0]] + rest;
    forall j | 1 <= j < |r|
      ensures exists k :: 1 <= k < |hs| && r[j] == hs[k]
    {
      assert r[j] == rest[j - 1];
      assert rest[j - 1] in hs[1..];
    }
  }

  /** The number of rows named `name`, `SELECT COUNT(*) ... WHERE name = ?`. */
  function CountNamed(hs: seq<Habit>, name: string): (n: nat)
    ensures n == 0 <==> FindHabit(hs, name).None?
    ensures NamesUnique(hs) ==> n <= 1
  {
    if |hs| == 0 then 0
    else
      var rest := CountNamed(hs[1..], name);
      if hs[0].name == name then
        assert NamesUnique(hs) ==> FindHabit(hs[1..], name).None?;
        1 + rest
      else rest
  }

  /** Every row named `name` rewritten by `update`, as `UPDATE ... WHERE
      name = ?`; the other rows are untouched. */
  function UpdateNamed(hs: seq<Habit>, name: string, update: Habit -> Habit): (r: seq<Habit>)
    ensures |r| == |hs|
    ensures forall i :: 0 <= i < |hs| && hs[i].name != name ==> r[i] == hs[i]
    ensures forall i :: 0 <= i < |hs| && hs[i].name == name ==> r[i] == update(hs[i])
  {
    seq(|hs|, i requires 0 <= i < |hs| => if hs[i].name == name then update(hs[i]) else hs[i])
  }

  // ---------------------------------------------------------------------
  // add_habit
  // ---------------------------------------------------------------------

  /** A successful `add_habit`: the new store and the new habit's id. */
  datatype Added = Added(store: Store, id: HabitId)

  /** `INSERT INTO habits_table (name, periodicity)` with the given row id:
      the CHECK constraint on the periodicity is evaluated before the UNIQUE
      constraint on the name, and the counters take their default 0. */
  function InsertHabit(s: Store, name: string, periodicity: string, id: HabitId): (r: Result<Added>)
    ensures r.Err? <==> ParsePeriodicity(periodicity).None? || FindHabit(s.habits, name).Some?
    ensures ParsePeriodicity(periodicity).None? ==> r == Err(InvalidPeriodicity)
    ensures ParsePeriodicity(periodicity).Some? && r.Err? ==> r.error == DuplicateName
    ensures r.Ok? ==>
              var s' := r.value.store;
              && r.value.id == id
              && s'.events == s.events
              && |s'.habits| == |s.habits| + 1
              && s'.habits[..|s.habits|] == s.habits
              && s'.habits[|s.habits|].id == id
              && s'.habits[|s.habits|].name == name
              && PeriodicityText(s'.habits[|s.habits|].periodicity) == periodicity
              && s'.habits[|s.habits|].streaks == Streaks(0, 0)
  {
    match ParsePeriodicity(periodicity)
    case None => Err(InvalidPeriodicity)
    case Some(p) =>
      if CountNamed(s.habits, name) > 0 then Err(DuplicateName)
      else
        var row := Habit(id, name, p, Streaks(0, 0));
        assert (s.habits + [row])[..|s.habits|] == s.habits;
        Ok(Added(Store(s.habits + [row], s.events, id + 1), id))
  }

  /** `add_habit`, with ids handed out from a counter that never goes back,
      so no id is ever reused. */
  function AddHabit(s: Store, name: string, periodicity: string): (r: Result<Added>)
    ensures r.Err? <==> ParsePeriodicity(periodicity).None? || FindHabit(s.habits, name).Some?
    ensures ParsePeriodicity(periodicity).None? ==> r == Err(InvalidPeriodicity)
    ensures ParsePeriodicity(periodicity).Some? && r.Err? ==> r.error == DuplicateName
    ensures r.Ok? ==>
              var s' := r.value.store;
              && s'.events == s.events
              && s'.nextId > s.nextId
              && |s'.habits| == |s.habits| + 1
              && s'.habits[..|s.habits|] == s.habits
              && s'.habits[|s.habits|].id == r.value.id
              && s'.habits[|s.habits|].name == name
              && PeriodicityText(s'.habits[|s.habits|].periodicity) == periodicity
              && s'.habits[|s.habits|].streaks == Streaks(0, 0)
  {
    InsertHabit(s, name, periodicity, s.nextId)
  }

  /** A habit just added is found under its name, with no check-offs, and
      every id in the store is fresh, so the invariant holds after it. */
  lemma AddHabitPreservesValid(s: Store, name: string, periodicity: string)
    requires Valid(s)
    requires AddHabit(s, name, periodicity).Ok?
    ensures var a := AddHabit(s, name, periodicity).value;
            && Valid(a.store)
            && FindHabit(a.store.habits, name) == Some(|s.habits|)
            && History(a.store.events, a.id) == []
            && (forall i :: 0 <= i < |s.habits| ==> s.habits[i].id != a.id)
  {
    var a := AddHabit(s, name, periodicity).value;
    var s' := a.store;
    HistoryOfUnusedId(s.events, a.id);
    forall i | 0 <= i < |s'.habits|
      ensures StreaksAgree(s'.habits[i].streaks, |History(s'.events, s'.habits[i].id)|)
    {
      if i < |s.habits| {
        assert s'.habits[i] == s.habits[i];
      }
    }
    assert NamesUnique(s'.habits) by {
      forall i, j | 0 <= i < j < |s'.habits|
        ensures s'.habits[i].name != s'.habits[j].name
      {
        if j == |s.habits| {
          assert s'.habits[i] == s.habits[i];
        } else {
          assert s'.habits[i] == s.habits[i] && s'.habits[j] == s.habits[j];
        }
      }
    }
    assert IdsAscending(s'.habits) by {
      forall i, j | 0 <= i < j < |s'.habits|
        ensures s'.habits[i].id < s'.habits[j].id
      {
        assert s'.habits[i] == s.habits[i];
      }
    }
    FindHabitUnique(s'.habits, name, |s.habits|);
  }

  // ---------------------------------------------------------------------
  // delete_habit, change_name, change_periodicity
  // ---------------------------------------------------------------------

  /** `delete_habit`: counts the rows of the name and deletes them when
      there is exactly one. Only the habit row goes; its check-offs stay in
      the check-off table. */
  function DeleteHabit(s: Store, name: string): (r: Result<Store>)
    ensures r.Err? <==> FindHabit(s.habits, name).None?
    ensures r.Err? ==> r.error == NotFound
    ensures r.Ok? ==> r.value.events == s.events && r.value.nextId == s.nextId
    ensures r.Ok? && NamesUnique(s.habits) ==>
              && FindHabit(r.value.habits, name).None?
              && |r.value.habits| == |s.habits| - 1
              && (forall h :: h in r.value.habits <==> h in s.habits && h.name != name)
  {
    var n := CountNamed(s.habits, name);
    if n == 0 then Err(NotFound)
    else if n == 1 then
      var rest := Select(s.habits, (h: Habit) => h.name != name);
      SelectUnnamedLength(s.habits, (h: Habit) => h.name != name, name);
      Ok(s.(habits := rest))
    else
      Ok(s)
  }

  /** Selecting the rows not named `name` drops exactly the rows named it. */
  lemma {:induction false} SelectUnnamedLength(hs: seq<Habit>, keep: Habit -> bool, name: string)
    requires forall h :: keep(h) <==> h.name != name
    ensures |Select(hs, keep)| == |hs| - CountNamed(hs, name)
  {
    if |hs| > 0 {
      SelectUnnamedLength(hs[1..], keep, name);
    }
  }

  lemma DeleteHabitPreservesValid(s: Store, name: string)
    requires Valid(s)
    requires DeleteHabit(s, name).Ok?
    ensures Valid(DeleteHabit(s, name).value)
  {
    var s' := DeleteHabit(s, name).value;
    forall i | 0 <= i < |s'.habits|
      ensures s'.habits[i].id < s'.nextId
      ensures StreaksAgree(s'.habits[i].streaks, |History(s'.events, s'.habits[i].id)|)
    {
      assert s'.habits[i] in s.habits;
    }
  }

  /** `change_name`: `UPDATE habits_table SET name = new WHERE name = old`.
      No matching row means not found; a rename onto a name another row
      holds breaks the UNIQUE constraint and changes nothing. */
  function ChangeName(s: Store, oldName: string, newName: string): (r: Result<Store>)
    ensures FindHabit(s.habits, oldName).None? ==> r == Err(NotFound)
    ensures r.Err? ==> r.error == NotFound || r.error == DuplicateName
    ensures FindHabit(s.habits, oldName).Some? && r.Err? ==> r.error == DuplicateName
    ensures NamesUnique(s.habits) && FindHabit(s.habits, oldName).Some? ==>
              (r.Err? <==> newName != oldName && FindHabit(s.habits, newName).Some?)
    ensures r.Ok? ==>
              && r.value.events == s.events
              && r.value.nextId == s.nextId
              && |r.value.habits| == |s.habits|
              && (forall i :: 0 <= i < |s.habits| && s.habits[i].name != oldName ==> r.value.habits[i] == s.habits[i])
              && (forall i :: 0 <= i < |s.habits| && s.habits[i].name == oldName ==>
                    r.value.habits[i] == s.habits[i].(name := newName))
  {
    var n := CountNamed(s.habits, oldName);
    if n == 0 then Err(NotFound)
    else if newName != oldName && (CountNamed(s.habits, newName) > 0 || n > 1) then Err(DuplicateName)
    else Ok(s.(habits := UpdateNamed(s.habits, oldName, (h: Habit) => h.(name := newName))))
  }

  /** Renaming the only row of a name to a name no other row holds keeps
      the names unique. */
  lemma RenameKeepsNamesUnique(hs: seq<Habit>, hs': seq<Habit>, i: nat, newName: string)
    requires NamesUnique(hs) && i < |hs| && |hs'| == |hs|
    requires hs'[i] == hs[i].(name := newName)
    requires forall j :: 0 <= j < |hs| && j != i ==> hs'[j] == hs[j] && hs[j].name != newName
    ensures NamesUnique(hs')
  {
    forall a, b | 0 <= a < b < |hs'|
      ensures hs'[a].name != hs'[b].name
    {
      if a != i && b != i {
        assert hs'[a] == hs[a] && hs'[b] == hs[b];
      }
    }
  }

  /** After a rename the habit is found under its new name, with its id,
      periodicity and counters unchanged, and the invariant still holds. */
  lemma ChangeNamePreservesValid(s: Store, oldName: string, newName: string)
    requires Valid(s)
    requires ChangeName(s, oldName, newName).Ok?
    ensures Valid(ChangeName(s, oldName, newName).value)
    ensures var i := FindHabit(s.habits, oldName).value;
            FindHabit(ChangeName(s, oldName, newName).value.habits, newName) == Some(i)
  {
    var s' := ChangeName(s, oldName, newName).value;
    var i := FindHabit(s.habits, oldName).value;
    forall j | 0 <= j < |s.habits| && j != i
      ensures s'.habits[j] == s.habits[j] && s.habits[j].name != newName
    {
      if s.habits[j].name == oldName {
        FindHabitUnique(s.habits, oldName, j);
      }
    }
    RenameKeepsNamesUnique(s.habits, s'.habits, i, newName);
    FindHabitUnique(s'.habits, newName, i);
  }

  /** `change_periodicity`: a name no row holds is not found; otherwise the
      new periodicity must pass the CHECK constraint. Only the periodicity
      column changes: the counters are not recomputed. */
  function ChangePeriodicity(s: Store, name: string, periodicity: string): (r: Result<Store>)
    ensures FindHabit(s.habits, name).None? ==> r == Err(NotFound)
    ensures FindHabit(s.habits, name).Some? && ParsePeriodicity(periodicity).None? ==>
              r == Err(InvalidPeriodicity)
    ensures r.Ok? <==> FindHabit(s.habits, name).Some? && ParsePeriodicity(periodicity).Some?
    ensures r.Ok? ==>
              && r.value.events == s.events
              && r.value.nextId == s.nextId
              && |r.value.habits| == |s.habits|
              && (forall i :: 0 <= i < |s.habits| && s.habits[i].name != name ==> r.value.habits[i] == s.habits[i])
              && (forall i :: 0 <= i < |s.habits| && s.habits[i].name == name ==>
                    && r.value.habits[i].id == s.habits[i].id
                    && r.value.habits[i].name == name
                    && r.value.habits[i].streaks == s.habits[i].streaks
                    && PeriodicityText(r.value.habits[i].periodicity) == periodicity)
  {
    match FindHabit(s.habits, name)
    case None => Err(NotFound)
    case Some(_) =>
      match ParsePeriodicity(periodicity)
      case None => Err(InvalidPeriodicity)
      case Some(p) => Ok(s.(habits := UpdateNamed(s.habits, name, (h: Habit) => h.(periodicity := p))))
  }

  lemma ChangePeriodicityPreservesValid(s: Store, name: string, periodicity: string)
    requires Valid(s)
    requires ChangePeriodicity(s, name, periodicity).Ok?
    ensures Valid(ChangePeriodicity(s, name, periodicity).value)
  {
  }

  // ---------------------------------------------------------------------
  // check_off
  // ---------------------------------------------------------------------

  /** A successful `check_off`: the new store and the decision it took. */
  datatype CheckedOff = CheckedOff(store: Store, verdict: Verdict)

  /** Applying a decision to the habit at row i on day `today`: a duplicate
      changes nothing; otherwise the counters advance and one check-off row
      dated today is appended. */
  function Commit(s: Store, i: nat, v: Verdict, today: Date): (r: Store)
    requires i < |s.habits|
    ensures CheckOffEffect(s, i, today, CheckedOff(r, v))
  {
    if v == AlreadyCheckedOff then s
    else
      var h := s.habits[i];
      s.(habits := s.habits[i := h.(streaks := Advance(h.streaks, v))],
         events := s.events + [CheckOffEvent(h.id, today)])
  }

  /** Committing a check-off of row i leaves the lookup by name on row i. */
  lemma CommitKeepsLookup(s: Store, name: string, i: nat, v: Verdict, today: Date)
    requires FindHabit(s.habits, name) == Some(i)
    ensures FindHabit(Commit(s, i, v, today).habits, name) == Some(i)
  {
    var s' := Commit(s, i, v, today);
    forall j | 0 <= j < i
      ensures s'.habits[j].name != name
    {
      assert s'.habits[j] == s.habits[j];
    }
    assert s'.habits[i].name == name;
  }

  /** What checking off the habit at row i does to the store, whatever the
      decision: only that habit's counters and the check-off table change,
      a duplicate changes nothing, and otherwise exactly one row dated
      today is appended and the counters move as the decision says. */
  predicate CheckOffEffect(s: Store, i: nat, today: Date, c: CheckedOff)
    requires i < |s.habits|
  {
    var h := s.habits[i];
    var s' := c.store;
    && s'.nextId == s.nextId
    && |s'.habits| == |s.habits|
    && (forall j :: 0 <= j < |s.habits| && j != i ==> s'.habits[j] == s.habits[j])
    && s'.habits[i].id == h.id
    && s'.habits[i].name == h.name
    && s'.habits[i].periodicity == h.periodicity
    && (c.verdict == AlreadyCheckedOff ==> s' == s)
    && (c.verdict != AlreadyCheckedOff ==> s'.events == s.events + [CheckOffEvent(h.id, today)])
    && (c.verdict == OnStreak ==>
          && s'.habits[i].streaks.current == h.streaks.current + 1
          && s'.habits[i].streaks.longest == Max(h.streaks.longest, h.streaks.current + 1))
    && (c.verdict == Broken ==> s'.habits[i].streaks == Streaks(1, h.streaks.longest))
  }

  function Max(a: nat, b: nat): nat
  {
    if a >= b then a else b
  }

  /** `check_off` on day `today`: a name no row holds is not found;
      otherwise the habit's stored check-offs decide, by `Classify`. */
  function CheckOff(s: Store, name: string, today: Date): (r: Result<CheckedOff>)
    ensures r.Err? <==> FindHabit(s.habits, name).None?
    ensures r.Err? ==> r.error == NotFound
    ensures r.Ok? ==>
              var i := FindHabit(s.habits, name).value;
              && r.value.verdict == Classify(s.habits[i].periodicity, History(s.events, s.habits[i].id), today)
              && CheckOffEffect(s, i, today, r.value)
  {
    match FindHabit(s.habits, name)
    case None => Err(NotFound)
    case Some(i) =>
      var h := s.habits[i];
      var v := Classify(h.periodicity, History(s.events, h.id), today);
      Ok(CheckedOff(Commit(s, i, v, today), v))
  }

  /** `check_off` with the duplicate test examining the latest stored
      check-off, the one the adjacency test examines. */
  function CheckOffByLatest(s: Store, name: string, today: Date): (r: Result<CheckedOff>)
    ensures r.Err? <==> FindHabit(s.habits, name).None?
    ensures r.Err? ==> r.error == NotFound
    ensures r.Ok? ==>
              var i := FindHabit(s.habits, name).value;
              && r.value.verdict == ClassifyByLatest(s.habits[i].periodicity, History(s.events, s.habits[i].id), today)
              && CheckOffEffect(s, i, today, r.value)
  {
    match FindHabit(s.habits, name)
    case None => Err(NotFound)
    case Some(i) =>
      var h := s.habits[i];
      var v := ClassifyByLatest(h.periodicity, History(s.events, h.id), today);
      Ok(CheckedOff(Commit(s, i, v, today), v))
  }

  /** Committing a decision that never breaks an empty history keeps the
      store invariant: the new row's history grows by exactly the one
      appended row and every other habit's history is unchanged. */
  lemma CommitPreservesValid(s: Store, i: nat, v: Verdict, today: Date)
    requires Valid(s) && i < |s.habits|
    requires v == Broken ==> |History(s.events, s.habits[i].id)| > 0
    ensures Valid(Commit(s, i, v, today))
  {
    if v != AlreadyCheckedOff {
      var h := s.habits[i];
      var s' := Commit(s, i, v, today);
      var e := CheckOffEvent(h.id, today);
      forall j | 0 <= j < |s'.habits|
        ensures StreaksAgree(s'.habits[j].streaks, |History(s'.events, s'.habits[j].id)|)
      {
        HistoryAppend(s.events, e, s'.habits[j].id);
        if j == i {
          AdvanceKeepsAgreement(h.streaks, |History(s.events, h.id)|, v);
        } else {
          assert s'.habits[j].id != h.id;
        }
      }
      assert forall k :: 0 <= k < |s'.events| ==> s'.events[k].habitId < s'.nextId by {
        forall k | 0 <= k < |s'.events|
          ensures s'.events[k].habitId < s'.nextId
        {
          if k < |s.events| {
            assert s'.events[k] == s.events[k];
          }
        }
      }
    }
  }

  /** Checking off keeps the store invariant; in particular no current
      streak ever exceeds the longest one. */
  lemma CheckOffPreservesValid(s: Store, name: string, today: Date)
    requires Valid(s)
    requires CheckOff(s, name, today).Ok?
    ensures Valid(CheckOff(s, name, today).value.store)
  {
    var i := FindHabit(s.habits, name).value;
    var h := s.habits[i];
    CommitPreservesValid(s, i, Classify(h.periodicity, History(s.events, h.id), today), today);
  }

  lemma CheckOffByLatestPreservesValid(s: Store, name: string, today: Date)
    requires Valid(s)
    requires CheckOffByLatest(s, name, today).Ok?
    ensures Valid(CheckOffByLatest(s, name, today).value.store)
  {
    var i := FindHabit(s.habits, name).value;
    var h := s.habits[i];
    CommitPreservesValid(s, i, ClassifyByLatest(h.periodicity, History(s.events, h.id), today), today);
  }

  /** A habit with any check-off has a current streak, and so a longest
      streak, of at least 1. */
  lemma CheckedOffHabitHasStreak(s: Store, i: nat)
    requires Valid(s) && i < |s.habits|
    requires |History(s.events, s.habits[i].id)| > 0
    ensures s.habits[i].streaks.longest >= s.habits[i].streaks.current >= 1
  {
  }

  // ---------------------------------------------------------------------
  // Queries
  // ---------------------------------------------------------------------

  /** `get_all_by_periodicity`: the rows whose stored periodicity text is
      exactly the given text, in table order; any other text selects none. */
  function GetAllByPeriodicity(s: Store, periodicity: string): (r: seq<Habit>)
    ensures forall h :: h in r <==> h in s.habits && PeriodicityText(h.periodicity) == periodicity
    ensures ParsePeriodicity(periodicity).None? ==> r == []
    ensures IdsAscending(s.habits) ==> IdsAscending(r)
  {
    var r := Select(s.habits, (h: Habit) => PeriodicityText(h.periodicity) == periodicity);
    assert |r| > 0 ==> r[0] in r;
    r
  }

  /** The counter a streak query ranks habits by. */
  datatype Counter = Current | Longest

  function CounterOf(h: Habit, c: Counter): nat
  {
    match c
    case Current => h.streaks.current
    case Longest => h.streaks.longest
  }

  /** `SELECT MAX(counter) FROM habits_table` over a non-empty table. */
  function MaxCounter(hs: seq<Habit>, c: Counter): (m: nat)
    requires |hs| > 0
    ensures forall i :: 0 <= i < |hs| ==> CounterOf(hs[i], c) <= m
    ensures exists i :: 0 <= i < |hs| && CounterOf(hs[i], c) == m
  {
    if |hs| == 1 then CounterOf(hs[0], c)
    else
      var rest := MaxCounter(hs[1..], c);
      if CounterOf(hs[0], c) >= rest then CounterOf(hs[0], c) else rest
  }

  /** The first row of an id-ordered list is the one with the lowest id,
      so two id-ordered lists with the same rows start alike. */
  lemma AscendingSameHead(a: seq<Habit>, b: seq<Habit>)
    requires IdsAscending(a) && IdsAscending(b) && |a| > 0
    requires forall h :: h in a <==> h in b
    ensures |b| > 0 && a[0] == b[0]
  {
    assert a[0] in a;
    var k :| 0 <= k < |b| && b[k] == a[0];
    assert b[0] in b;
    var j :| 0 <= j < |a| && a[j] == b[0];
  }

  /** Dropping the common first row keeps the rows of both lists alike. */
  lemma AscendingSameTail(a: seq<Habit>, b: seq<Habit>)
    requires IdsAscending(a) && IdsAscending(b) && |a| > 0 && |b| > 0 && a[0] == b[0]
    requires forall h :: h in a <==> h in b
    ensures forall h :: h in a[1..] <==> h in b[1..]
  {
    forall h | h in a[1..]
      ensures h in b[1..]
    {
      var i :| 0 <= i < |a[1..]| && a[1..][i] == h;
      assert h == a[i + 1] && a[0].id < h.id;
      assert h in b;
      var i' :| 0 <= i' < |b| && b[i'] == h;
      assert i' != 0;
      assert b[1..][i' - 1] == h;
    }
    forall h | h in b[1..]
      ensures h in a[1..]
    {
      var i :| 0 <= i < |b[1..]| && b[1..][i] == h;
      assert h == b[i + 1] && b[0].id < h.id;
      assert h in a;
      var i' :| 0 <= i' < |a| && a[i'] == h;
      assert i' != 0;
      assert a[1..][i' - 1] == h;
    }
  }

  /** Two id-ordered row lists with the same rows are the same list: each
      row appears once, in id order. */
  lemma {:induction false} AscendingSameRows(a: seq<Habit>, b: seq<Habit>)
    requires IdsAscending(a) && IdsAscending(b)
    requires forall h :: h in a <==> h in b
    ensures a == b
    decreases |a|
  {
    if |a| > 0 {
      AscendingSameHead(a, b);
      AscendingSameTail(a, b);
      AscendingSameRows(a[1..], b[1..]);
      assert a == [a[0]] + a[1..];
      assert b == [b[0]] + b[1..];
    } else if |b| > 0 {
      AscendingSameHead(b, a);
      assert false;
    }
  }

  /** The rows whose counter equals the table maximum (the join with the
      MAX subquery), every tied row included; nothing for an empty table. */
  function Leaders(s: Store, c: Counter): (r: Option<seq<Habit>>)
    ensures r.None? <==> |s.habits| == 0
    ensures r.Some? ==> 0 < |r.value| <= |s.habits|
    ensures r.Some? ==> forall h :: h in r.value <==>
              h in s.habits && forall g :: g in s.habits ==> CounterOf(g, c) <= CounterOf(h, c)
    ensures r.Some? && IdsAscending(s.habits) ==> IdsAscending(r.value)
  {
    if |s.habits| == 0 then None
    else
      var m := MaxCounter(s.habits, c);
      var r := Select(s.habits, (h: Habit) => CounterOf(h, c) == m);
      assert |r| > 0 by {
        var i :| 0 <= i < |s.habits| && CounterOf(s.habits[i], c) == m;
        assert s.habits[i] in r;
      }
      Some(r)
  }

  /** `get_current_longest_streak`: every habit whose current streak is the
      highest, or nothing when there are no habits. */
  function GetCurrentLongestStreak(s: Store): (r: Option<seq<Habit>>)
    ensures r.None? <==> |s.habits| == 0
    ensures r.Some? ==> 0 < |r.value| <= |s.habits|
    ensures r.Some? ==> forall h :: h in r.value <==>
              h in s.habits && forall g :: g in s.habits ==> g.streaks.current <= h.streaks.current
    ensures r.Some? && IdsAscending(s.habits) ==> IdsAscending(r.value)
  {
    Leaders(s, Current)
  }

  /** `get_longest_streak`: every habit whose all-time longest streak is the
      highest, or nothing when there are no habits. */
  function GetLongestStreak(s: Store): (r: Option<seq<Habit>>)
    ensures r.None? <==> |s.habits| == 0
    ensures r.Some? ==> 0 < |r.value| <= |s.habits|
    ensures r.Some? ==> forall h :: h in r.value <==>
              h in s.habits && forall g :: g in s.habits ==> g.streaks.longest <= h.streaks.longest
    ensures r.Some? && IdsAscending(s.habits) ==> IdsAscending(r.value)
  {
    Leaders(s, Longest)
  }
}
