/** The proleptic Gregorian calendar as Python's `datetime` uses it (years 1
    to 9999), with time measured in whole seconds from 0001-01-01T00:00:00.
    Also the two `strftime` layouts the script emits and the subset of
    `datetime.fromisoformat` that reads the timestamps the source API sends. */
module Calendar {
  import opened Basics

  const SecondsPerDay: int := 86400
  const MaxYear: int := 9999

  predicate IsLeapYear(y: int) {
    y % 4 == 0 && (y % 100 != 0 || y % 400 == 0)
  }

  function DaysInYear(y: int): int {
    if IsLeapYear(y) then 366 else 365
  }

  function DaysInMonth(y: int, m: int): int
    requires 1 <= m <= 12
  {
    if m == 2 then (if IsLeapYear(y) then 29 else 28)
    else if m == 4 || m == 6 || m == 9 || m == 11 then 30
    else 31
  }

  /** Days from 0001-01-01 to January 1st of year y (`date(y, 1, 1).toordinal() - 1`). */
  function DaysBeforeYear(y: int): int
    requires y >= 1
  {
    var p := y - 1;
    365 * p + p / 4 - p / 100 + p / 400
  }

  lemma DaysBeforeNextYear(y: int)
    requires y >= 1
    ensures DaysBeforeYear(y + 1) == DaysBeforeYear(y) + DaysInYear(y)
  {
    StepsOf4(y);
    StepsOf100(y);
    StepsOf400(y);
  }

  /** How many multiples of 4 (100, 400) the year y adds to those below it. */
  lemma StepsOf4(y: int)
    ensures y / 4 - (y - 1) / 4 == if y % 4 == 0 then 1 else 0
  {
    var q, r := (y - 1) / 4, (y - 1) % 4;
    assert y == 4 * q + r + 1;
    if r == 3 {
      assert y == 4 * (q + 1);
    }
  }

  lemma StepsOf100(y: int)
    ensures y / 100 - (y - 1) / 100 == if y % 100 == 0 then 1 else 0
  {
    var q, r := (y - 1) / 100, (y - 1) % 100;
    assert y == 100 * q + r + 1;
    if r == 99 {
      assert y == 100 * (q + 1);
    }
  }

  lemma StepsOf400(y: int)
    ensures y / 400 - (y - 1) / 400 == if y % 400 == 0 then 1 else 0
  {
    var q, r := (y - 1) / 400, (y - 1) % 400;
    assert y == 400 * q + r + 1;
    if r == 399 {
      assert y == 400 * (q + 1);
    }
  }

  lemma {:induction false} DaysBeforeYearGrows(a: int, b: int)
    requires 1 <= a <= b
    ensures DaysBeforeYear(a) + 365 * (b - a) <= DaysBeforeYear(b)
    decreases b - a
  {
    if a < b {
      DaysBeforeYearGrows(a, b - 1);
      DaysBeforeNextYear(b - 1);
    }
  }

  /** Days from January 1st to the first of month m (m == 13 is the next year). */
  function DaysBeforeMonth(y: int, m: int): nat
    requires 1 <= m <= 13
  {
    if m == 1 then 0 else DaysBeforeMonth(y, m - 1) + DaysInMonth(y, m - 1)
  }

  lemma MonthsFillYear(y: int)
    ensures DaysBeforeMonth(y, 13) == DaysInYear(y)
  {
    var feb := if IsLeapYear(y) then 29 else 28;
    assert DaysBeforeMonth(y, 2) == 31;
    assert DaysBeforeMonth(y, 3) == 31 + feb;
    assert DaysBeforeMonth(y, 4) == 62 + feb;
    assert DaysBeforeMonth(y, 5) == 92 + feb;
    assert DaysBeforeMonth(y, 6) == 123 + feb;
    assert DaysBeforeMonth(y, 7) == 153 + feb;
    assert DaysBeforeMonth(y, 8) == 184 + feb;
    assert DaysBeforeMonth(y, 9) == 215 + feb;
    assert DaysBeforeMonth(y, 10) == 245 + feb;
    assert DaysBeforeMonth(y, 11) == 276 + feb;
    assert DaysBeforeMonth(y, 12) == 306 + feb;
    assert DaysBeforeMonth(y, 13) == 337 + feb;
  }

  /** The first day count past 9999-12-31, `DaysBeforeYear(MaxYear + 1)`
      (see `MaxDaysEndsYear9999`). Written out, like the other day and
      second counts below, so that the solver's arithmetic stays linear. */
  const MaxDays: int := 3652059

  lemma MaxDaysEndsYear9999()
    ensures MaxDays == DaysBeforeYear(MaxYear + 1)
  {
  }

  /** The first second past 9999-12-31T23:59:59: `MaxDays * SecondsPerDay`. */
  const MaxSeconds: int := 315537897600

  datatype Civil = Civil(year: int, month: int, day: int, hour: int, minute: int, second: int)

  /** A wall-clock reading `datetime` accepts. */
  predicate ValidCivil(c: Civil) {
    && 1 <= c.year <= MaxYear
    && 1 <= c.month <= 12
    && 1 <= c.day <= DaysInMonth(c.year, c.month)
    && 0 <= c.hour < 24 && 0 <= c.minute < 60 && 0 <= c.second < 60
  }

  function DayNumber(c: Civil): int
    requires ValidCivil(c)
  {
    DaysBeforeYear(c.year) + DaysBeforeMonth(c.year, c.month) + c.day - 1
  }

  function SecondsOf(c: Civil): (t: int)
    requires ValidCivil(c)
    ensures 0 <= t < MaxSeconds
  {
    DaysBeforeNextYear(c.year);
    DaysBeforeYearGrows(c.year + 1, MaxYear + 1);
    MaxDaysEndsYear9999();
    MonthsFillYear(c.year);
    MonthDaysBelowYear(c.year, c.month);
    DayNumber(c) * 86400 + c.hour * 3600 + c.minute * 60 + c.second
  }

  lemma MonthDaysBelowYear(y: int, m: int)
    requires 1 <= m <= 12
    ensures 0 <= DaysBeforeMonth(y, m) && DaysBeforeMonth(y, m) + DaysInMonth(y, m) <= DaysInYear(y)
  {
    MonthsFillYear(y);
    MonthPrefixGrows(y, m + 1, 13);
  }

  lemma {:induction false} MonthPrefixGrows(y: int, a: int, b: int)
    requires 1 <= a <= b <= 13
    ensures DaysBeforeMonth(y, a) <= DaysBeforeMonth(y, b)
    decreases b - a
  {
    if a < b {
      MonthPrefixGrows(y, a, b - 1);
    }
  }

  /** The year holding day d (counted from January 1st of year y) and the day within it. */
  function SplitYears(d: int, y: int): (r: (int, int))
    requires y >= 1 && 0 <= d && DaysBeforeYear(y) + d < MaxDays
    ensures y <= r.0 <= MaxYear && 0 <= r.1 < DaysInYear(r.0)
    ensures DaysBeforeYear(r.0) + r.1 == DaysBeforeYear(y) + d
    decreases d
  {
    DaysBeforeNextYear(y);
    if d < DaysInYear(y) then
      if y > MaxYear then
        DaysBeforeYearGrows(MaxYear + 1, y);
        assert false;
        (y, d)
      else (y, d)
    else SplitYears(d - DaysInYear(y), y + 1)
  }

  /** The month holding day d of year y (counted from the first of month m) and the day within it. */
  function SplitMonths(d: int, y: int, m: int): (r: (int, int))
    requires 1 <= m <= 12 && 0 <= d && DaysBeforeMonth(y, m) + d < DaysInYear(y)
    ensures m <= r.0 <= 12 && 0 <= r.1 < DaysInMonth(y, r.0)
    ensures DaysBeforeMonth(y, r.0) + r.1 == DaysBeforeMonth(y, m) + d
    decreases d
  {
    if d < DaysInMonth(y, m) then (m, d)
    else
      MonthsFillYear(y);
      if m == 12 then
        assert false;
        (m, d)
      else SplitMonths(d - DaysInMonth(y, m), y, m + 1)
  }

  /** The wall-clock reading t seconds after 0001-01-01T00:00:00. */
  function CivilOf(t: int): (c: Civil)
    requires 0 <= t < MaxSeconds
    ensures ValidCivil(c) && SecondsOf(c) == t
  {
    var days := t / 86400;
    var secs := t % 86400;
    var (y, dayOfYear) := SplitYears(days, 1);
    var (m, dayOfMonth) := SplitMonths(dayOfYear, y, 1);
    Civil(y, m, dayOfMonth + 1, secs / 3600, secs % 3600 / 60, secs % 60)
  }

  lemma YearOrder(y1: int, r1: int, y2: int, r2: int)
    requires 1 <= y1 < y2 && 0 <= r1 < DaysInYear(y1) && 0 <= r2
    ensures DaysBeforeYear(y1) + r1 < DaysBeforeYear(y2) + r2
  {
    DaysBeforeNextYear(y1);
    DaysBeforeYearGrows(y1 + 1, y2);
  }

  /** A day count splits into a year and a day of that year in one way only. */
  lemma YearSplitUnique(y1: int, r1: int, y2: int, r2: int)
    requires y1 >= 1 && 0 <= r1 < DaysInYear(y1)
    requires y2 >= 1 && 0 <= r2 < DaysInYear(y2)
    requires DaysBeforeYear(y1) + r1 == DaysBeforeYear(y2) + r2
    ensures y1 == y2 && r1 == r2
  {
    if y1 < y2 {
      YearOrder(y1, r1, y2, r2);
    } else if y2 < y1 {
      YearOrder(y2, r2, y1, r1);
    }
  }

  lemma MonthOrder(y: int, m1: int, r1: int, m2: int, r2: int)
    requires 1 <= m1 < m2 <= 12 && 0 <= r1 < DaysInMonth(y, m1) && 0 <= r2
    ensures DaysBeforeMonth(y, m1) + r1 < DaysBeforeMonth(y, m2) + r2
  {
    MonthPrefixGrows(y, m1 + 1, m2);
  }

  lemma MonthSplitUnique(y: int, m1: int, r1: int, m2: int, r2: int)
    requires 1 <= m1 <= 12 && 0 <= r1 < DaysInMonth(y, m1)
    requires 1 <= m2 <= 12 && 0 <= r2 < DaysInMonth(y, m2)
    requires DaysBeforeMonth(y, m1) + r1 == DaysBeforeMonth(y, m2) + r2
    ensures m1 == m2 && r1 == r2
  {
    if m1 < m2 {
      MonthOrder(y, m1, r1, m2, r2);
    } else if m2 < m1 {
      MonthOrder(y, m2, r2, m1, r1);
    }
  }

  /** Every valid wall-clock reading comes back from its second count, so
      `SecondsOf` and `CivilOf` are inverse bijections. */
  lemma CivilOfSecondsOf(c: Civil)
    requires ValidCivil(c)
    ensures CivilOf(SecondsOf(c)) == c
  {
    var t := SecondsOf(c);
    var clock := c.hour * 3600 + c.minute * 60 + c.second;
    assert t == DayNumber(c) * 86400 + clock && 0 <= clock < 86400;
    assert t / 86400 == DayNumber(c);
    assert t % 86400 == clock;
    var d := CivilOf(t);
    MonthDaysBelowYear(c.year, c.month);
    YearSplitUnique(d.year, DaysBeforeMonth(d.year, d.month) + d.day - 1,
                    c.year, DaysBeforeMonth(c.year, c.month) + c.day - 1);
    MonthSplitUnique(c.year, d.month, d.day - 1, c.month, c.day - 1);
  }
}
