/**
 * Gregorian calendar arithmetic on day ordinals, and the ISO 8601 week
 * number the weekly streak rule compares (`date.isocalendar()[1]`).
 *
 * `IsoCalendar` follows the algorithm Python's `datetime` module uses;
 * `ThursdayYear`/`ThursdayWeek` state the rule of section 3.2.2 of
 * ISO 8601:2004 directly (weeks run Monday to Sunday, and a week belongs to
 * the year that holds its Thursday, so week 1 is the one holding the year's
 * first Thursday). `IsoCalendarFollowsThursdayRule` proves the two agree.
 */
module Calendar {

  /** A calendar date as a proleptic Gregorian day ordinal, numbered as
      Python's `date.toordinal()`: ordinal 1 is 0001-01-01, a Monday. */
  type Date = d: int | d >= 1 witness 1

  predicate IsLeapYear(y: int)
  {
    y % 4 == 0 && (y % 100 != 0 || y % 400 == 0)
  }

  /** The length of year y in days. */
  function YearDays(y: int): int
  {
    if IsLeapYear(y) then 366 else 365
  }

  /** The ordinal of 1 January of year y: year 1 starts on ordinal 1 and
      every year starts where the one before it ends. */
  function NewYear(y: int): int
    requires y >= 1
    decreases y
  {
    if y == 1 then 1 else NewYear(y - 1) + YearDays(y - 1)
  }

  /** The number of days in the years 1 .. y-1 in closed form, as
      `_days_before_year` in Python's `datetime`. */
  function DaysBeforeYear(y: int): int
    requires y >= 1
  {
    var p := y - 1;
    p * 365 + p / 4 - p / 100 + p / 400
  }

  /** The year-by-year count and the closed form agree. */
  lemma {:induction false} NewYearClosedForm(y: int)
    requires y >= 1
    ensures NewYear(y) == DaysBeforeYear(y) + 1
    decreases y
  {
    if y > 1 {
      NewYearClosedForm(y - 1);
      ClosedFormStep(y - 1);
    }
  }

  /** The closed form grows by the length of each year. */
  lemma ClosedFormStep(y: int)
    requires y >= 1
    ensures DaysBeforeYear(y + 1) == DaysBeforeYear(y) + YearDays(y)
  {
    StepDiv(y - 1, 4);
    StepDiv(y - 1, 100);
    StepDiv(y - 1, 400);
    DivisibleChain(y);
  }

  lemma YearLength(y: int)
    requires y >= 1
    ensures NewYear(y + 1) - NewYear(y) == if IsLeapYear(y) then 366 else 365
  {
  }

  lemma YearLengthBounds(y: int)
    requires y >= 1
    ensures 365 <= NewYear(y + 1) - NewYear(y) <= 366
  {
    YearLength(y);
  }

  lemma StepDiv(p: int, k: int)
    requires p >= 0 && (k == 4 || k == 100 || k == 400)
    ensures (p + 1) / k - p / k == if (p + 1) % k == 0 then 1 else 0
  {
  }

  lemma DivisibleChain(y: int)
    ensures y % 400 == 0 ==> y % 100 == 0
    ensures y % 100 == 0 ==> y % 4 == 0
  {
  }

  lemma {:induction false} NewYearMonotone(a: int, b: int)
    requires 1 <= a <= b
    ensures NewYear(b) - NewYear(a) >= 365 * (b - a)
    decreases b - a
  {
    if a < b {
      NewYearMonotone(a, b - 1);
      YearLength(b - 1);
    }
  }

  /** No year starts later than 366 days per elapsed year. */
  lemma {:induction false} NewYearUpperBound(y: int)
    requires y >= 1
    ensures NewYear(y) <= 366 * (y - 1) + 1
    decreases y
  {
    if y > 1 {
      NewYearUpperBound(y - 1);
    }
  }

  /** The Gregorian year holding day d, found by counting up from a year
      that cannot lie after it. */
  function YearOf(d: Date): (y: int)
    ensures y >= 1 && NewYear(y) <= d < NewYear(y + 1)
  {
    var start := (d - 1) / 366 + 1;
    NewYearUpperBound(start);
    YearFrom(d, start)
  }

  function YearFrom(d: Date, y: int): (r: int)
    requires y >= 1 && NewYear(y) <= d
    ensures r >= y && NewYear(r) <= d < NewYear(r + 1)
    decreases d - NewYear(y)
  {
    YearLength(y);
    if d < NewYear(y + 1) then y else YearFrom(d, y + 1)
  }

  /** Years do not overlap: the year holding d is the only one whose
      1 January is at or before d and whose successor's is after it. */
  lemma YearOfUnique(d: Date, y: int)
    requires y >= 1 && NewYear(y) <= d < NewYear(y + 1)
    ensures YearOf(d) == y
  {
    var r := YearOf(d);
    if r < y {
      NewYearMonotone(r + 1, y);
    } else if r > y {
      NewYearMonotone(y + 1, r);
    }
  }

  /** Day of the week, 0 = Monday … 6 = Sunday, as `date.weekday()`. */
  function Weekday(d: int): int
  {
    (d + 6) % 7
  }

  /** Two days with the same weekday lie a whole number of weeks apart. */
  lemma SameWeekdayApart(a: int, b: int)
    requires Weekday(a) == Weekday(b) && a < b
    ensures a + 7 <= b
    ensures (b - a) % 7 == 0
  {
  }

  /** The Monday of ISO week 1 of year y (`_isoweek1monday` in Python's
      `datetime`): the Monday on or before 1 January when 1 January falls
      on Monday to Thursday, and the Monday after it otherwise. */
  function Week1Monday(y: int): int
    requires y >= 1
  {
    var firstDay := NewYear(y);
    var firstWeekday := (firstDay + 6) % 7;
    var monday := firstDay - firstWeekday;
    if firstWeekday > 3 then monday + 7 else monday
  }

  lemma Week1MondayFacts(y: int)
    requires y >= 1
    ensures Weekday(Week1Monday(y)) == 0
    ensures NewYear(y) <= Week1Monday(y) + 3 <= NewYear(y) + 6
  {
    MondayOfWeek(NewYear(y));
  }

  /** The Monday on or before a day, and the Monday after that, are
      Mondays. */
  lemma MondayOfWeek(f: int)
    ensures 0 <= Weekday(f) <= 6
    ensures Weekday(f - Weekday(f)) == 0
    ensures Weekday(f - Weekday(f) + 7) == 0
  {
    assert f + 6 == 7 * ((f + 6) / 7) + Weekday(f);
    assert f - Weekday(f) + 6 == 7 * ((f + 6) / 7);
  }

  /** 0001-01-01 is a Monday, so ISO year 1 starts on it. */
  lemma Week1MondayOfYearOne()
    ensures Week1Monday(1) == 1
  {
  }

  /** Consecutive ISO years are 52 or 53 weeks long. */
  lemma Week1MondaySpacing(y: int)
    requires y >= 1
    ensures Week1Monday(y) + 364 <= Week1Monday(y + 1)
  {
    var a, b := Week1Monday(y), Week1Monday(y + 1);
    Week1MondayFacts(y);
    Week1MondayFacts(y + 1);
    YearLengthBounds(y);
    assert b - a >= 359;
    SameWeekdayApart(a, b);
    WholeWeeks(b - a);
  }

  /** A whole number of weeks of at least 359 days is at least 52 weeks. */
  lemma WholeWeeks(n: int)
    requires n >= 359 && n % 7 == 0
    ensures n >= 364
  {
    assert n == 7 * (n / 7);
  }


  /** ISO year, week number (1-based) and weekday (1 = Monday). */
  datatype IsoDate = IsoDate(year: int, week: int, weekday: int)

  /** `date.isocalendar()`, following the `datetime` module's algorithm:
      count whole weeks from the week-1 Monday of the date's own year, and
      step to the previous or next ISO year when the date falls before that
      Monday or on or after the next year's. */
  function IsoCalendar(d: Date): IsoDate
  {
    var year := YearOf(d);
    var w1 := Week1Monday(year);
    var week := (d - w1) / 7;
    if week < 0 then
      assert d < w1;
      Week1MondayOfYearOne();
      assert year != 1;
      var w0 := Week1Monday(year - 1);
      IsoDate(year - 1, (d - w0) / 7 + 1, (d - w0) % 7 + 1)
    else if week >= 52 && d >= Week1Monday(year + 1) then
      IsoDate(year + 1, 1, (d - w1) % 7 + 1)
    else
      IsoDate(year, week + 1, (d - w1) % 7 + 1)
  }

  /** The ISO 8601 week-numbering year, `date.isocalendar()[0]`. */
  function IsoYear(d: Date): int
  {
    IsoCalendar(d).year
  }

  /** The ISO 8601 week number, `date.isocalendar()[1]`. */
  function IsoWeek(d: Date): int
  {
    IsoCalendar(d).week
  }

  /** The Thursday of the Monday-to-Sunday week holding d. */
  function Thursday(d: Date): Date
  {
    assert Weekday(d) <= d - 1;
    d - Weekday(d) + 3
  }

  /** ISO 8601: a week belongs to the year that holds its Thursday. */
  function ThursdayYear(d: Date): int
  {
    YearOf(Thursday(d))
  }

  /** ISO 8601: a week's number counts the Thursdays of its year up to and
      including its own. */
  function ThursdayWeek(d: Date): int
  {
    (Thursday(d) - NewYear(ThursdayYear(d))) / 7 + 1
  }

  /** Week arithmetic behind the Thursday rule: when the Thursday of d's
      week falls in a year starting at ny and ending before ny', d lies
      between that year's week-1 Monday w and the next one w', and counting
      weeks from w or Thursdays from ny gives the same number. */
  lemma WeekBracket(d: int, ny: int, ny': int, w: int, w': int)
    requires ny <= d - Weekday(d) + 3 < ny'
    requires Weekday(w) == 0 && ny <= w + 3 <= ny + 6
    requires Weekday(w') == 0 && ny' <= w' + 3 <= ny' + 6
    ensures w <= d < w'
    ensures (d - w) / 7 == (d - Weekday(d) + 3 - ny) / 7
  {
    var m := d - Weekday(d);
    assert Weekday(m) == 0;
    if m < w {
      SameWeekdayApart(m, w);
    } else if w < m {
      SameWeekdayApart(w, m);
    }
    if m < w' {
      SameWeekdayApart(m, w');
    } else if w' < m {
      SameWeekdayApart(w', m);
    }
    var k := (m - w) / 7;
    assert m - w == 7 * k;
    assert d - w == 7 * k + Weekday(d);
    assert m + 3 - ny == 7 * k + (w + 3 - ny);
  }

  /** The week-1 Monday of the Thursday year is on or before d, the next
      year's is after it, and whole weeks counted from it give the
      Thursday-rule week number. */
  lemma ThursdayYearBrackets(d: Date)
    ensures Week1Monday(ThursdayYear(d)) <= d < Week1Monday(ThursdayYear(d) + 1)
    ensures (d - Week1Monday(ThursdayYear(d))) / 7 + 1 == ThursdayWeek(d)
  {
    var y := ThursdayYear(d);
    Week1MondayFacts(y);
    Week1MondayFacts(y + 1);
    WeekBracket(d, NewYear(y), NewYear(y + 1), Week1Monday(y), Week1Monday(y + 1));
  }

  /** Counting from a Monday leaves the weekday as the remainder. */
  lemma RemainderFromMonday(d: int, w: int)
    requires Weekday(w) == 0
    ensures (d - w) % 7 == Weekday(d)
  {
  }

  /** `IsoCalendar` puts d in ISO year y whenever d lies between the
      week-1 Mondays of y and y + 1, whichever Gregorian year holds d. */
  lemma IsoCalendarByBracket(d: Date, y: int)
    requires y >= 1 && Week1Monday(y) <= d < Week1Monday(y + 1)
    ensures IsoCalendar(d) == IsoDate(y, (d - Week1Monday(y)) / 7 + 1, Weekday(d) + 1)
  {
    var y0 := YearOf(d);
    Week1MondayFacts(y);
    Week1MondayFacts(y + 1);
    YearLength(y);
    if y0 >= y + 2 {
      NewYearMonotone(y + 1, y0);
      assert false;
    } else if y0 <= y - 2 {
      NewYearMonotone(y0 + 1, y);
      assert false;
    } else if y0 == y + 1 {
      BracketInLaterYear(d, y);
    } else if y0 == y - 1 {
      BracketInEarlierYear(d, y);
    } else {
      BracketInSameYear(d, y);
    }
  }

  lemma BracketInSameYear(d: Date, y: int)
    requires y >= 1 && Week1Monday(y) <= d < Week1Monday(y + 1)
    requires YearOf(d) == y
    ensures IsoCalendar(d) == IsoDate(y, (d - Week1Monday(y)) / 7 + 1, Weekday(d) + 1)
  {
    Week1MondayFacts(y);
    RemainderFromMonday(d, Week1Monday(y));
    assert (d - Week1Monday(y)) / 7 >= 0;
  }

  /** d precedes the week-1 Monday of its own Gregorian year. */
  lemma BracketInLaterYear(d: Date, y: int)
    requires y >= 1 && Week1Monday(y) <= d < Week1Monday(y + 1)
    requires YearOf(d) == y + 1
    ensures IsoCalendar(d) == IsoDate(y, (d - Week1Monday(y)) / 7 + 1, Weekday(d) + 1)
  {
    Week1MondayFacts(y);
    RemainderFromMonday(d, Week1Monday(y));
    assert (d - Week1Monday(y + 1)) / 7 < 0;
  }

  /** d is on or after the week-1 Monday of the year after its own. */
  lemma BracketInEarlierYear(d: Date, y: int)
    requires y >= 2 && Week1Monday(y) <= d < Week1Monday(y + 1)
    requires YearOf(d) == y - 1
    ensures IsoCalendar(d) == IsoDate(y, (d - Week1Monday(y)) / 7 + 1, Weekday(d) + 1)
  {
    var y0 := y - 1;
    var w0, w := Week1Monday(y0), Week1Monday(y);
    Week1MondayFacts(y);
    Week1MondayFacts(y0);
    Week1MondaySpacing(y0);
    assert d < NewYear(y);
    RemainderFromMonday(d, w0);
    LargeQuotient(d - w0);
    SmallQuotient(d - w);
    IsoCalendarOfNextYear(d);
  }

  /** The branch of `IsoCalendar` for a day on or after the week-1 Monday
      of the year after its own. */
  lemma IsoCalendarOfNextYear(d: Date)
    requires (d - Week1Monday(YearOf(d))) / 7 >= 52
    requires d >= Week1Monday(YearOf(d) + 1)
    ensures IsoCalendar(d) == IsoDate(YearOf(d) + 1, 1, (d - Week1Monday(YearOf(d))) % 7 + 1)
  {
  }

  lemma LargeQuotient(x: int)
    requires x >= 364
    ensures x / 7 >= 52
  {
  }

  /** `IsoCalendar` agrees with the ISO 8601 Thursday rule on every date. */
  lemma IsoCalendarFollowsThursdayRule(d: Date)
    ensures IsoCalendar(d).year == ThursdayYear(d)
    ensures IsoCalendar(d).week == ThursdayWeek(d)
    ensures IsoCalendar(d).weekday == Weekday(d) + 1
  {
    ThursdayYearBrackets(d);
    IsoCalendarByBracket(d, ThursdayYear(d));
  }

  lemma ThursdayShift(d: Date)
    ensures Thursday(d + 7) == Thursday(d) + 7
  {
    assert Weekday(d + 7) == Weekday(d);
  }

  lemma ThursdayWeekFormula(e: Date, t: int, y: int)
    requires t == Thursday(e) && y == ThursdayYear(e)
    ensures ThursdayWeek(e) == (t - NewYear(y)) / 7 + 1
  {
  }

  lemma SmallQuotient(x: int)
    requires 0 <= x < 7
    ensures x / 7 == 0
  {
  }

  /** Seven days on inside one Thursday year: the next week number. */
  lemma ThursdayNextWeekSameYear(d: Date)
    requires Thursday(d) + 7 < NewYear(ThursdayYear(d) + 1)
    ensures ThursdayYear(d + 7) == ThursdayYear(d)
    ensures ThursdayWeek(d + 7) == ThursdayWeek(d) + 1
  {
    var t, y := Thursday(d), ThursdayYear(d);
    ThursdayShift(d);
    YearOfUnique(t + 7, y);
    assert (t + 7 - NewYear(y)) / 7 == (t - NewYear(y)) / 7 + 1;
  }

  /** Seven days on across the turn of a Thursday year: the next year. */
  lemma ThursdayYearTurns(d: Date)
    requires Thursday(d) + 7 >= NewYear(ThursdayYear(d) + 1)
    ensures ThursdayYear(d + 7) == ThursdayYear(d) + 1
  {
    var t, y := Thursday(d), ThursdayYear(d);
    assert y == YearOf(t);
    assert y >= 1 && t < NewYear(y + 1);
    ThursdayShift(d);
    var t7 := Thursday(d + 7);
    assert t7 == t + 7;
    NextYearHolds(t7, y + 1);
    assert ThursdayYear(d + 7) == YearOf(t7);
  }

  /** A day less than a year after 1 January of year y lies in year y. */
  lemma NextYearHolds(x: Date, y: int)
    requires y >= 1 && NewYear(y) <= x < NewYear(y) + 365
    ensures YearOf(x) == y
  {
    YearLengthBounds(y);
    YearOfUnique(x, y);
  }

  /** Seven days on across the turn of a Thursday year: week 1 of the next
      year. */
  lemma ThursdayNextWeekNewYear(d: Date)
    requires Thursday(d) + 7 >= NewYear(ThursdayYear(d) + 1)
    ensures ThursdayYear(d + 7) == ThursdayYear(d) + 1
    ensures ThursdayWeek(d + 7) == 1
  {
    var t, y := Thursday(d), ThursdayYear(d);
    ThursdayYearTurns(d);
    ThursdayShift(d);
    ThursdayWeekFormula(d + 7, t + 7, y + 1);
    SmallQuotient(t + 7 - NewYear(y + 1));
  }

  /** A week whose successor starts a new Thursday year is week 52 or 53. */
  lemma ThursdayLastWeek(d: Date)
    requires Thursday(d) + 7 >= NewYear(ThursdayYear(d) + 1)
    ensures ThursdayWeek(d) >= 52
  {
    var t, y := Thursday(d), ThursdayYear(d);
    YearLengthBounds(y);
    assert t - NewYear(y) >= 358;
  }

  /** The ISO year and week number by the Thursday rule. */
  lemma IsoWeekByThursday(d: Date)
    ensures IsoYear(d) == ThursdayYear(d)
    ensures IsoWeek(d) == ThursdayWeek(d)
  {
    IsoCalendarFollowsThursdayRule(d);
  }

  /** ISO week numbers run from 1 to 53. */
  lemma IsoWeekRange(d: Date)
    ensures 1 <= IsoWeek(d) <= 53
  {
    IsoWeekByThursday(d);
    YearLengthBounds(ThursdayYear(d));
  }

  /** Two days of the same Monday-to-Sunday week get the same ISO year and
      week number. */
  lemma SameWeekSameNumber(a: Date, b: Date)
    requires a - Weekday(a) == b - Weekday(b)
    ensures IsoYear(a) == IsoYear(b)
    ensures IsoWeek(a) == IsoWeek(b)
  {
    assert Thursday(a) == Thursday(b);
    IsoWeekByThursday(a);
    IsoWeekByThursday(b);
  }

  lemma IsoPairByThursday(d: Date)
    ensures IsoYear(d) == ThursdayYear(d) && IsoWeek(d) == ThursdayWeek(d)
    ensures IsoYear(d + 7) == ThursdayYear(d + 7) && IsoWeek(d + 7) == ThursdayWeek(d + 7)
  {
    IsoWeekByThursday(d);
    IsoWeekByThursday(d + 7);
  }

  lemma IsoNextWeekSameYear(d: Date)
    requires Thursday(d) + 7 < NewYear(ThursdayYear(d) + 1)
    ensures IsoYear(d + 7) == IsoYear(d)
    ensures IsoWeek(d + 7) == IsoWeek(d) + 1
  {
    IsoPairByThursday(d);
    ThursdayNextWeekSameYear(d);
  }

  lemma IsoNextWeekNewYear(d: Date)
    requires Thursday(d) + 7 >= NewYear(ThursdayYear(d) + 1)
    ensures IsoYear(d + 7) == IsoYear(d) + 1
    ensures IsoWeek(d + 7) == 1
    ensures IsoWeek(d) >= 52
  {
    IsoPairByThursday(d);
    ThursdayNextWeekNewYear(d);
    ThursdayLastWeek(d);
  }

  /** Seven days on, the week number grows by one inside an ISO year; across
      the turn of an ISO year it falls from 52 or 53 back to 1. */
  lemma IsoWeekAfterSevenDays(d: Date)
    ensures IsoYear(d + 7) == IsoYear(d) ==> IsoWeek(d + 7) == IsoWeek(d) + 1
    ensures IsoYear(d + 7) != IsoYear(d) ==>
              && IsoYear(d + 7) == IsoYear(d) + 1
              && IsoWeek(d + 7) == 1
              && IsoWeek(d) >= 52
  {
    if Thursday(d) + 7 < NewYear(ThursdayYear(d) + 1) {
      IsoNextWeekSameYear(d);
    } else {
      IsoNextWeekNewYear(d);
    }
  }

  /** The Thursday rule for any day of the following Monday-to-Sunday week. */
  lemma ThursdayFollowingWeek(prior: Date, today: Date)
    requires today - Weekday(today) == prior - Weekday(prior) + 7
    ensures ThursdayYear(today) == ThursdayYear(prior) ==> ThursdayWeek(today) == ThursdayWeek(prior) + 1
    ensures ThursdayYear(today) != ThursdayYear(prior) ==> ThursdayWeek(today) == 1 && ThursdayWeek(prior) >= 52
  {
    ThursdayShift(prior);
    SameThursday(today, prior + 7);
    if Thursday(prior) + 7 < NewYear(ThursdayYear(prior) + 1) {
      ThursdayNextWeekSameYear(prior);
    } else {
      ThursdayNextWeekNewYear(prior);
      ThursdayLastWeek(prior);
    }
  }

  /** Days of one week share their Thursday, and so its year and number. */
  lemma SameThursday(a: Date, b: Date)
    requires Thursday(a) == Thursday(b)
    ensures ThursdayYear(a) == ThursdayYear(b)
    ensures ThursdayWeek(a) == ThursdayWeek(b)
  {
  }

  /** The same for any day of the following Monday-to-Sunday week. */
  lemma IsoWeekOfFollowingWeek(prior: Date, today: Date)
    requires today - Weekday(today) == prior - Weekday(prior) + 7
    ensures IsoYear(today) == IsoYear(prior) ==> IsoWeek(today) == IsoWeek(prior) + 1
    ensures IsoYear(today) != IsoYear(prior) ==> IsoWeek(today) == 1 && IsoWeek(prior) >= 52
  {
    IsoWeekByThursday(prior);
    IsoWeekByThursday(today);
    ThursdayFollowingWeek(prior, today);
  }
}
