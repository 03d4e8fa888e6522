// The calendar of `iso_time` (src/main.rs). The closed formula is compared with
// nothing but the calendar itself: the length of each month, the leap rule of
// RFC 3339 (section 5.7 and Appendix C) and the step from one day to the next.

module IsoTime {

  datatype Date = Date(year: int, month: int, day: int)

  datatype Time = Time(date: Date, hour: int, minute: int, second: int)

  // ----- The formula of the program -----

  function YearOfEra(doe: int): int {
    (doe - doe / 1460 + doe / 36524 - doe / 146_096) / 365
  }

  function DayOfYear(doe: int, yoe: int): int {
    doe - (365 * yoe + yoe / 4 - yoe / 100)
  }

  /** Years run from March, so the leap day comes last. */
  function MonthFromMarch(doy: int): int {
    (5 * doy + 2) / 153
  }

  function DateInEra(era: int, yoe: int, doy: int): Date {
    var mp := MonthFromMarch(doy);
    var m := if mp < 10 then mp + 3 else mp - 9;
    var d := doy - (153 * mp + 2) / 5 + 1;
    Date(yoe + era * 400 + (if m <= 2 then 1 else 0), m, d)
  }

  /** The date `days` days after 1970-01-01. Division and remainder are the
      Euclidean ones the program asks for. */
  function Civil(days: int): Date {
    var z := days + 719_468;
    var era, doe := z / 146_097, z % 146_097;
    var yoe := YearOfEra(doe);
    DateInEra(era, yoe, DayOfYear(doe, yoe))
  }

  function IsoFields(secs: int): Time {
    var days, rem := secs / 86400, secs % 86400;
    Time(Civil(days), rem / 3600, rem % 3600 / 60, rem % 60)
  }

  // ----- The calendar -----

  predicate Leap(year: int) {
    year % 4 == 0 && (year % 100 != 0 || year % 400 == 0)
  }

  function MonthLength(year: int, month: int): int {
    if month == 2 then (if Leap(year) then 29 else 28)
    else if month == 4 || month == 6 || month == 9 || month == 11 then 30
    else 31
  }

  predicate ValidDate(t: Date) {
    1 <= t.month <= 12 && 1 <= t.day <= MonthLength(t.year, t.month)
  }

  /** The day after. */
  function Next(t: Date): Date {
    if t.day < MonthLength(t.year, t.month) then Date(t.year, t.month, t.day + 1)
    else if t.month < 12 then Date(t.year, t.month + 1, 1)
    else Date(t.year + 1, 1, 1)
  }

  function After(t: Date, n: nat): Date
    decreases n
  {
    if n == 0 then t else After(Next(t), n - 1)
  }

  // ----- Finding the year -----

  /** A day of an era as centuries, leap cycles, years and days into the year. */
  datatype Cycle = Cycle(c: int, q: int, t: int, r: int) {
    ghost predicate Valid() {
      && 0 <= c < 4 && 0 <= q < 25 && 0 <= t < 4 && 0 <= r < Length()
    }

    /** The year's length: its leap day falls in the next civil year's February. */
    ghost function Length(): int {
      if t == 3 && (q < 24 || c == 3) then 366 else 365
    }

    ghost function Year(): int {
      100 * c + 4 * q + t
    }

    ghost function Day(): int {
      36524 * c + 1461 * q + 365 * t + r
    }
  }

  ghost function CycleOf(doe: int): (k: Cycle)
    requires 0 <= doe < 146_097
    ensures k.Valid() && k.Day() == doe
  {
    var c := if doe == 146_096 then 3 else doe / 36524;
    var a := doe - 36524 * c;
    var q := a / 1461;
    var b := a - 1461 * q;
    var t := if b == 1460 then 3 else b / 365;
    Cycle(c, q, t, b - 365 * t)
  }

  lemma CyclesCounted(k: Cycle)
    requires k.Valid()
    ensures k.Day() / 1460 == 25 * k.c + k.q + (if 24 * k.c + k.q + 365 * k.t + k.r >= 1460 then 1 else 0)
  {
    var e := 24 * k.c + k.q + 365 * k.t + k.r;
    assert k.Day() == 1460 * (25 * k.c + k.q) + e && 0 <= e < 2920;
  }

  lemma CenturiesCounted(k: Cycle)
    requires k.Valid()
    ensures k.Day() / 36524 - k.Day() / 146_096 == k.c
  {
    var f := 1461 * k.q + 365 * k.t + k.r;
    assert k.Day() == 36524 * k.c + f && 0 <= f <= 36524 && (f == 36524 ==> k.c == 3);
  }

  /** The formula finds the year and the day of the year. */
  lemma FormulaFindsYear(k: Cycle)
    requires k.Valid()
    ensures YearOfEra(k.Day()) == k.Year() && DayOfYear(k.Day(), k.Year()) == k.r
  {
    CyclesCounted(k);
    CenturiesCounted(k);
    var doe, e := k.Day(), if 24 * k.c + k.q + 365 * k.t + k.r >= 1460 then 1 else 0;
    assert doe - doe / 1460 + (doe / 36524 - doe / 146_096) == 365 * k.Year() + (k.r - e);
    assert k.Year() / 4 == 25 * k.c + k.q && k.Year() / 100 == k.c;
  }

  // ----- Finding the month -----

  /** Where months start in a year that begins in March. */
  ghost function MonthStart(mp: int): int {
    (153 * mp + 2) / 5
  }

  lemma MonthFound(doy: int)
    requires 0 <= doy < 366
    ensures var mp := MonthFromMarch(doy);
            0 <= mp <= 11 && MonthStart(mp) <= doy && (mp < 11 ==> doy < MonthStart(mp + 1))
  {
  }

  /** The length of each month but February, which ends the year. */
  lemma MonthLengths(mp: int, year: int)
    requires 0 <= mp < 11
    ensures MonthStart(mp + 1) - MonthStart(mp) == MonthLength(year, if mp < 10 then mp + 3 else mp - 9)
  {
    assert mp == 0 || mp == 1 || mp == 2 || mp == 3 || mp == 4 || mp == 5 || mp == 6 || mp == 7 || mp == 8
        || mp == 9 || mp == 10;
  }

  /** Two days of the same March-based year. */
  lemma DayStep(era: int, yoe: int, doy: int)
    requires 0 <= doy && doy + 1 < (if Leap(yoe + era * 400 + 1) then 366 else 365)
    ensures DateInEra(era, yoe, doy + 1) == Next(DateInEra(era, yoe, doy))
  {
    hide Leap;
    MonthFound(doy);
    MonthFound(doy + 1);
    var mp, mp' := MonthFromMarch(doy), MonthFromMarch(doy + 1);
    var year := yoe + era * 400 + (if mp < 10 then 0 else 1);
    if mp < 11 {
      MonthLengths(mp, year);
      if doy + 1 < MonthStart(mp + 1) {
        assert mp' == mp;
      } else {
        assert mp' == mp + 1 && doy + 1 == MonthStart(mp');
        assert DateInEra(era, yoe, doy) == Date(year, if mp < 10 then mp + 3 else 1, MonthStart(mp') - MonthStart(mp));
      }
    } else {
      assert mp' == 11;
    }
  }

  lemma LastDay(era: int, yoe: int, doy: int)
    requires doy + 1 == (if Leap(yoe + era * 400 + 1) then 366 else 365)
    ensures DateInEra(era, yoe, doy) == Date(yoe + era * 400 + 1, 2, if Leap(yoe + era * 400 + 1) then 29 else 28)
  {
    MonthFound(doy);
  }

  lemma DateValid(era: int, yoe: int, doy: int)
    requires 0 <= doy < (if Leap(yoe + era * 400 + 1) then 366 else 365)
    ensures ValidDate(DateInEra(era, yoe, doy))
  {
    MonthFound(doy);
    var mp := MonthFromMarch(doy);
    if mp < 11 {
      MonthLengths(mp, yoe + era * 400 + (if mp < 10 then 0 else 1));
    }
  }

  lemma ShiftMod4(x: int, era: int)
    ensures (x + 400 * era) % 4 == x % 4
  {
    assert x + 400 * era == 4 * (x / 4 + 100 * era) + x % 4;
  }

  lemma ShiftMod100(x: int, era: int)
    ensures (x + 400 * era) % 100 == x % 100
  {
    assert x + 400 * era == 100 * (x / 100 + 4 * era) + x % 100;
  }

  lemma ShiftMod400(x: int, era: int)
    ensures (x + 400 * era) % 400 == x % 400
  {
    assert x + 400 * era == 400 * (x / 400 + era) + x % 400;
  }

  lemma LeapPeriod(x: int, era: int)
    ensures Leap(x + 400 * era) == Leap(x)
  {
    ShiftMod4(x, era);
    ShiftMod100(x, era);
    ShiftMod400(x, era);
  }

  /** The leap day belongs to the civil year that ends the March-based one. */
  lemma LengthIsLeap(k: Cycle, era: int)
    requires k.Valid()
    ensures (k.Length() == 366) == Leap(k.Year() + era * 400 + 1)
  {
    var x := k.Year() + 1;
    assert (x % 4 == 0) == (k.t == 3);
    assert (x % 100 == 0) == (k.t == 3 && k.q == 24);
    assert (x % 400 == 0) == (k.t == 3 && k.q == 24 && k.c == 3);
    LeapPeriod(x, era);
  }

  // ----- The theorem -----

  lemma CivilOfCycle(era: int, k: Cycle)
    requires k.Valid()
    ensures Civil(146_097 * era + k.Day() - 719_468) == DateInEra(era, k.Year(), k.r)
  {
    FormulaFindsYear(k);
    var z := 146_097 * era + k.Day();
    assert z / 146_097 == era && z % 146_097 == k.Day();
  }

  /** Every day has a valid date, and the next day's date is the next date. */
  lemma CivilSteps(days: int)
    ensures ValidDate(Civil(days))
    ensures Civil(days + 1) == Next(Civil(days))
  {
    hide Civil;
    hide DateInEra;
    hide Leap;
    var z := days + 719_468;
    var era, doe := z / 146_097, z % 146_097;
    var k := CycleOf(doe);
    CivilOfCycle(era, k);
    LengthIsLeap(k, era);
    DateValid(era, k.Year(), k.r);
    if k.r + 1 < k.Length() {
      var k' := k.(r := k.r + 1);
      CivilOfCycle(era, k');
      DayStep(era, k.Year(), k.r);
    } else {
      LastDay(era, k.Year(), k.r);
      YearStep(era, k);
    }
  }

  /** The first day of the following March-based year. */
  lemma YearStep(era: int, k: Cycle)
    requires k.Valid() && k.r + 1 == k.Length()
    ensures Civil(146_097 * era + k.Day() + 1 - 719_468) == Date(k.Year() + era * 400 + 1, 3, 1)
  {
    hide Civil;
    if k.t < 3 {
      CivilOfCycle(era, Cycle(k.c, k.q, k.t + 1, 0));
    } else if k.q < 24 {
      CivilOfCycle(era, Cycle(k.c, k.q + 1, 0, 0));
    } else if k.c < 3 {
      CivilOfCycle(era, Cycle(k.c + 1, 0, 0, 0));
    } else {
      CivilOfCycle(era + 1, Cycle(0, 0, 0, 0));
    }
  }

  /** Counting days on the calendar from any day gives the formula's date. */
  lemma {:induction false} CivilCounts(days: int, n: nat)
    ensures After(Civil(days), n) == Civil(days + n)
    decreases n
  {
    hide Civil;
    if n > 0 {
      CivilSteps(days);
      CivilCounts(days + 1, n - 1);
    }
  }

  lemma Epoch()
    ensures Civil(0) == Date(1970, 1, 1)
  {
    assert 719_468 / 146_097 == 4 && 719_468 % 146_097 == 135_080;
  }

  /** For every second count: a valid date whose day number, counted on the
      calendar from the epoch (backwards too), is the floor of secs / 86400, and
      clock fields that give the seconds back. */
  lemma IsoTimeCorrect(secs: int)
    ensures var t := IsoFields(secs);
            var days := secs / 86400;
            && ValidDate(t.date)
            && (days >= 0 ==> After(Date(1970, 1, 1), days) == t.date)
            && (days < 0 ==> After(t.date, -days) == Date(1970, 1, 1))
            && 0 <= t.hour < 24 && 0 <= t.minute < 60 && 0 <= t.second < 60
            && secs == 86400 * days + 3600 * t.hour + 60 * t.minute + t.second
  {
    hide Civil;
    var days := secs / 86400;
    CivilSteps(days);
    Epoch();
    if days >= 0 {
      CivilCounts(0, days);
    } else {
      CivilCounts(days, -days);
    }
  }

  /** No two days share a date. */
  lemma CivilInjective(a: int, b: int)
    requires a < b
    ensures Civil(a) != Civil(b)
  {
    hide Civil;
    CivilCounts(a, b - a);
    CivilSteps(a);
    AfterLater(Civil(a), b - a);
  }

  ghost predicate Earlier(s: Date, t: Date) {
    s.year < t.year || (s.year == t.year && (s.month < t.month || (s.month == t.month && s.day < t.day)))
  }

  lemma {:induction false} AfterLater(t: Date, n: nat)
    requires ValidDate(t) && n > 0
    ensures Earlier(t, After(t, n))
    decreases n
  {
    if n > 1 {
      AfterLater(Next(t), n - 1);
    }
  }
}
