/**
 * The streak engine of `HabitTracker.check_off`: deciding whether a
 * check-off is a duplicate, extends the streak or breaks it, and the counter
 * update each decision makes.
 */
module Streak {
  import opened Common
  import opened Calendar

  datatype Periodicity = Daily | Weekly

  /** The text the periodicity column stores. */
  function PeriodicityText(p: Periodicity): string
  {
    match p
    case Daily => "daily"
    case Weekly => "weekly"
  }

  /** The periodicity a text names, if the column's CHECK constraint admits
      it; the constraint compares case-sensitively. */
  function ParsePeriodicity(s: string): (r: Option<Periodicity>)
    ensures r.Some? ==> PeriodicityText(r.value) == s
    ensures r.None? ==> forall p: Periodicity :: PeriodicityText(p) != s
  {
    if s == "daily" then Some(Daily)
    else if s == "weekly" then Some(Weekly)
    else None
  }

  lemma ParsePeriodicityText(p: Periodicity)
    ensures ParsePeriodicity(PeriodicityText(p)) == Some(p)
  {
  }

  /** The streak counters of a habit row. */
  datatype Streaks = Streaks(current: nat, longest: nat)

  /** What a check-off attempt amounts to. */
  datatype Verdict =
    | AlreadyCheckedOff  // same period as the examined check-off: nothing happens
    | OnStreak           // first check-off, or the period right after the latest one
    | Broken             // any other period: the streak starts again at 1

  /** The duplicate test of `check_off`: the same day for a daily habit, the
      same ISO week number for a weekly one, whatever the ISO years. */
  predicate SamePeriod(p: Periodicity, prior: Date, today: Date): (r: bool)
    ensures p == Daily ==> (r <==> today == prior)
    ensures p == Weekly ==> (r <==> ThursdayWeek(today) == ThursdayWeek(prior))
  {
    IsoWeekByThursday(prior);
    IsoWeekByThursday(today);
    match p
    case Daily => today - prior == 0
    case Weekly => IsoWeek(prior) == IsoWeek(today)
  }

  /** The adjacency test of `daily_on_streak` / `weekly_on_streak`: exactly
      one day later, or an ISO week number exactly one higher, whatever the
      ISO years. */
  predicate NextPeriod(p: Periodicity, prior: Date, today: Date): (r: bool)
    ensures p == Daily ==> (r <==> today == prior + 1)
    ensures p == Weekly ==> (r <==> ThursdayWeek(today) == ThursdayWeek(prior) + 1)
  {
    IsoWeekByThursday(prior);
    IsoWeekByThursday(today);
    match p
    case Daily => today - prior == 1
    case Weekly => IsoWeek(today) - IsoWeek(prior) == 1
  }

  /** The latest of some dates, the first row of `ORDER BY date DESC`. */
  function Latest(dates: seq<Date>): (r: Date)
    requires |dates| > 0
    ensures r in dates
    ensures forall i :: 0 <= i < |dates| ==> dates[i] <= r
  {
    if |dates| == 1 then dates[0]
    else
      var rest := Latest(dates[1..]);
      if dates[0] >= rest then dates[0] else rest
  }

  /** A date no earlier than every date of a history is the latest once
      appended. */
  lemma LatestOfAppendedMaximum(history: seq<Date>, today: Date)
    requires forall j :: 0 <= j < |history| ==> history[j] <= today
    ensures Latest(history + [today]) == today
  {
    var h := history + [today];
    assert h[|h| - 1] == today;
    assert forall j :: 0 <= j < |h| ==> h[j] <= today;
  }

  /** The decision `check_off` makes for a habit whose check-off dates, in
      the order they were stored, are `history`. The duplicate test examines
      the first stored row (the query has no ORDER BY); the adjacency test
      examines the latest date. */
  function Classify(p: Periodicity, history: seq<Date>, today: Date): (r: Verdict)
    ensures |history| == 0 ==> r == OnStreak
    ensures r == Broken ==> |history| > 0
  {
    if |history| > 0 && SamePeriod(p, history[0], today) then AlreadyCheckedOff
    else if |history| == 0 || NextPeriod(p, Latest(history), today) then OnStreak
    else Broken
  }

  /** The same decision with both tests examining the latest check-off. */
  function ClassifyByLatest(p: Periodicity, history: seq<Date>, today: Date): (r: Verdict)
    ensures |history| == 0 ==> r == OnStreak
    ensures r == Broken ==> |history| > 0
  {
    if |history| == 0 then OnStreak
    else if SamePeriod(p, Latest(history), today) then AlreadyCheckedOff
    else if NextPeriod(p, Latest(history), today) then OnStreak
    else Broken
  }

  /** The counter update of a check-off that is not a duplicate: on streak,
      the current streak grows by one and the longest follows it when
      overtaken; broken, the current streak restarts at 1 and the longest
      keeps its record. */
  function Advance(c: Streaks, v: Verdict): (r: Streaks)
    ensures v == AlreadyCheckedOff ==> r == c
    ensures v == OnStreak ==> r.current == c.current + 1
    ensures v == Broken ==> r.current == 1 && r.longest == c.longest
    ensures r.longest >= c.longest
    ensures v == OnStreak ==> r.longest >= r.current
    ensures r.longest == c.longest || r.longest == r.current
  {
    match v
    case AlreadyCheckedOff => c
    case OnStreak =>
      var updated := c.current + 1;
      if updated > c.longest then Streaks(updated, updated) else Streaks(updated, c.longest)
    case Broken => Streaks(1, c.longest)
  }

  /** Counters agree with a history of n check-offs: with any check-off the
      current streak is at least 1, it never exceeds the longest, and no
      streak is longer than the number of check-offs. */
  predicate StreaksAgree(c: Streaks, n: nat)
  {
    && (n > 0 ==> c.current >= 1)
    && c.current <= c.longest <= n
  }

  /** A check-off that is not a duplicate keeps the counters in agreement
      with the history it extends by one. */
  lemma AdvanceKeepsAgreement(c: Streaks, n: nat, v: Verdict)
    requires StreaksAgree(c, n)
    requires v != AlreadyCheckedOff
    requires v == Broken ==> n > 0
    ensures StreaksAgree(Advance(c, v), n + 1)
  {
  }

  /** Two days of one Monday-to-Sunday week are the same weekly period. */
  lemma SameWeekIsSamePeriod(prior: Date, today: Date)
    requires prior - Weekday(prior) == today - Weekday(today)
    ensures SamePeriod(Weekly, prior, today)
  {
    SameWeekSameNumber(prior, today);
  }

  /** A weekly check-off in the week after the latest one extends the streak
      inside an ISO year and breaks it across the turn of an ISO year, where
      the week number falls from 52 or 53 to 1. */
  lemma WeeklyNextWeek(prior: Date, today: Date)
    requires today - Weekday(today) == prior - Weekday(prior) + 7
    ensures IsoYear(today) == IsoYear(prior) <==> NextPeriod(Weekly, prior, today)
    ensures !SamePeriod(Weekly, prior, today)
  {
    IsoWeekOfFollowingWeek(prior, today);
  }

  /** The daily rule in days: a check-off on the day of the examined prior
      check-off is a duplicate, one on the day after the latest check-off
      extends the streak, and any other day, a later one or an earlier one,
      breaks it. */
  lemma ClassifyDaily(history: seq<Date>, today: Date)
    requires |history| > 0
    ensures Classify(Daily, history, today) == AlreadyCheckedOff <==> today == history[0]
    ensures Classify(Daily, history, today) == OnStreak <==> today != history[0] && today == Latest(history) + 1
    ensures Classify(Daily, history, today) == Broken <==>
              today != history[0] && (today >= Latest(history) + 2 || today <= Latest(history))
  {
  }

  /** The weekly rule by the ISO 8601 week numbering (week 1 holds the
      year's first Thursday): a duplicate shares the examined check-off's
      week number, a continuation has the number one above the latest
      check-off's, and the ISO year plays no part in either test. */
  lemma ClassifyWeekly(history: seq<Date>, today: Date)
    requires |history| > 0
    ensures Classify(Weekly, history, today) == AlreadyCheckedOff <==>
              ThursdayWeek(today) == ThursdayWeek(history[0])
    ensures Classify(Weekly, history, today) == OnStreak <==>
              && ThursdayWeek(today) != ThursdayWeek(history[0])
              && ThursdayWeek(today) == ThursdayWeek(Latest(history)) + 1
  {
    IsoWeekByThursday(today);
    IsoWeekByThursday(history[0]);
    IsoWeekByThursday(Latest(history));
  }

  /** The corrected decision on any non-empty history: both tests examine
      the latest check-off; a duplicate shares its period, a continuation
      falls in the period after it, and anything else is a break. */
  lemma ClassifyByLatestRule(p: Periodicity, history: seq<Date>, today: Date)
    requires |history| > 0
    ensures ClassifyByLatest(p, history, today) == AlreadyCheckedOff <==>
              SamePeriod(p, Latest(history), today)
    ensures ClassifyByLatest(p, history, today) == OnStreak <==>
              !SamePeriod(p, Latest(history), today) && NextPeriod(p, Latest(history), today)
    ensures ClassifyByLatest(p, history, today) == Broken <==>
              !SamePeriod(p, Latest(history), today) && !NextPeriod(p, Latest(history), today)
  {
  }

  /** The corrected daily rule: a duplicate is dated the day of the latest
      check-off, a continuation the day after, and any other day breaks the
      streak. */
  lemma ClassifyByLatestDaily(history: seq<Date>, today: Date)
    requires |history| > 0
    ensures ClassifyByLatest(Daily, history, today) == AlreadyCheckedOff <==> today == Latest(history)
    ensures ClassifyByLatest(Daily, history, today) == OnStreak <==> today == Latest(history) + 1
    ensures ClassifyByLatest(Daily, history, today) == Broken <==>
              today != Latest(history) && today != Latest(history) + 1
  {
  }

  /** The corrected weekly rule by the ISO 8601 week numbering: a duplicate
      shares the latest check-off's week number, a continuation has the
      number one above it, and the ISO year plays no part. */
  lemma ClassifyByLatestWeekly(history: seq<Date>, today: Date)
    requires |history| > 0
    ensures ClassifyByLatest(Weekly, history, today) == AlreadyCheckedOff <==>
              ThursdayWeek(today) == ThursdayWeek(Latest(history))
    ensures ClassifyByLatest(Weekly, history, today) == OnStreak <==>
              ThursdayWeek(today) == ThursdayWeek(Latest(history)) + 1
  {
    IsoWeekByThursday(today);
    IsoWeekByThursday(Latest(history));
  }

  /** When the examined first check-off is also the latest one (as when
      check-offs are stored in date order with none refused), the as-written
      decision and the decision on the latest check-off agree. */
  lemma ClassifyAgreesWhenFirstIsLatest(p: Periodicity, history: seq<Date>, today: Date)
    requires |history| > 0 && history[0] == Latest(history)
    ensures Classify(p, history, today) == ClassifyByLatest(p, history, today)
  {
  }

  /** With at most one stored check-off the two decisions always agree. */
  lemma {:induction false} ClassifyAgreesOnShortHistory(p: Periodicity, history: seq<Date>, today: Date)
    requires |history| <= 1
    ensures Classify(p, history, today) == ClassifyByLatest(p, history, today)
  {
    if |history| == 1 {
      assert Latest(history) == history[0];
    }
  }

  /** A weekly habit with one check-off, checked off again in the
      following Monday-to-Sunday week: the streak goes on within an ISO
      year and is broken across its turn, under either duplicate test. */
  lemma WeeklyFollowingWeekVerdict(prior: Date, today: Date)
    requires today - Weekday(today) == prior - Weekday(prior) + 7
    ensures Classify(Weekly, [prior], today) == ClassifyByLatest(Weekly, [prior], today)
    ensures Classify(Weekly, [prior], today) == (if IsoYear(today) == IsoYear(prior) then OnStreak else Broken)
  {
    WeeklyNextWeek(prior, today);
    assert Latest([prior]) == prior;
  }
}
