/** JavaScript dates as far as the services use them: section 21.4 of ECMA-262, with local time
    taken to be UTC. A time value is a number of milliseconds, or nothing for an invalid date. */
module JsDate {
  import opened Tables

  const MS_PER_DAY := 86_400_000
  const MAX_TIME := 8_640_000_000_000_000

  type Time = Option<int>

  // ------------------------------------------------ years and months

  predicate Leap(y: int) { y % 4 == 0 && (y % 100 != 0 || y % 400 == 0) }

  function DaysInYear(y: int): int { if Leap(y) then 366 else 365 }

  function DayFromYear(y: int): int { 365 * (y - 1970) + (y - 1969) / 4 - (y - 1901) / 100 + (y - 1601) / 400 }

  lemma YearStep(y: int)
    ensures DayFromYear(y + 1) == DayFromYear(y) + DaysInYear(y)
  {
    StepOfQuotient(y - 1969, 4);
    StepOfQuotient(y - 1901, 100);
    StepOfQuotient(y - 1601, 400);
  }

  lemma StepOfQuotient(a: int, k: int)
    requires k > 1
    ensures (a + 1) / k == a / k + if (a + 1) % k == 0 then 1 else 0
  {
    var q, r := a / k, a % k;
    assert a == k * q + r;
    if r == k - 1 {
      assert a + 1 == k * (q + 1);
      QuotientIs(a + 1, k, q + 1, 0);
    } else {
      QuotientIs(a + 1, k, q, r + 1);
    }
  }

  lemma QuotientIs(a: int, k: int, q: int, r: int)
    requires k > 0 && a == k * q + r && 0 <= r < k
    ensures a / k == q && a % k == r
  {
    var d := a / k - q;
    assert k * d == k * (a / k) - k * q;
    Multiples(k, d);
  }

  lemma Multiples(k: int, d: int)
    requires k > 0
    ensures (d >= 1 ==> k * d >= k) && (d <= -1 ==> k * d <= -k)
  {
  }

  lemma {:induction false} YearsAscend(a: int, b: int)
    requires a <= b
    ensures DayFromYear(b) - DayFromYear(a) >= 365 * (b - a)
    decreases b - a
  {
    if a < b {
      YearsAscend(a, b - 1);
      YearStep(b - 1);
    }
  }

  function YearUp(d: int, y: int): (r: int)
    requires DayFromYear(y) <= d
    ensures DayFromYear(r) <= d < DayFromYear(r + 1)
    decreases d - DayFromYear(y)
  {
    YearStep(y);
    if d < DayFromYear(y + 1) then y else YearUp(d, y + 1)
  }

  function YearDown(d: int, y: int): (r: int)
    requires d < DayFromYear(y + 1)
    ensures DayFromYear(r) <= d < DayFromYear(r + 1)
    decreases DayFromYear(y + 1) - d
  {
    YearStep(y);
    if DayFromYear(y) <= d then y else YearDown(d, y - 1)
  }

  /** The largest year that starts no later than the day. */
  function YearFromDay(d: int): (y: int)
    ensures DayFromYear(y) <= d < DayFromYear(y + 1)
  {
    if d >= 0 then YearUp(d, 1970) else YearDown(d, 1969)
  }

  lemma YearIs(d: int, y: int)
    requires DayFromYear(y) <= d < DayFromYear(y + 1)
    ensures YearFromDay(d) == y
  {
    var r := YearFromDay(d);
    hide DayFromYear, YearFromDay;
    if r < y { YearsAscend(r + 1, y); }
    if y < r { YearsAscend(y + 1, r); }
  }

  /** Days before month `m` (0 to 11; 12 is the next year). */
  function MonthOffset(leap: bool, m: nat): int
    requires m <= 12
  {
    var l := if leap then 1 else 0;
    if m == 0 then 0 else if m == 1 then 31 else if m == 2 then 59 + l else if m == 3 then 90 + l
    else if m == 4 then 120 + l else if m == 5 then 151 + l else if m == 6 then 181 + l else if m == 7 then 212 + l
    else if m == 8 then 243 + l else if m == 9 then 273 + l else if m == 10 then 304 + l else if m == 11 then 334 + l
    else 365 + l
  }

  function MonthLength(y: int, m: nat): int
    requires m < 12
  {
    MonthOffset(Leap(y), m + 1) - MonthOffset(Leap(y), m)
  }

  function MonthIn(leap: bool, dayInYear: int, m: nat): (r: nat)
    requires m < 12 && MonthOffset(leap, m) <= dayInYear < MonthOffset(leap, 12)
    ensures m <= r < 12 && MonthOffset(leap, r) <= dayInYear < MonthOffset(leap, r + 1)
    decreases 12 - m
  {
    if dayInYear < MonthOffset(leap, m + 1) then m else MonthIn(leap, dayInYear, m + 1)
  }

  // ------------------------------------------------ a day's calendar fields

  /** Months count from 0, days from 1. */
  datatype Civil = Civil(year: int, month: nat, day: int)

  predicate RealDay(c: Civil) { c.month < 12 && 1 <= c.day <= MonthLength(c.year, c.month) }

  lemma DayInYear(d: int)
    ensures var y := YearFromDay(d); MonthOffset(Leap(y), 0) <= d - DayFromYear(y) < MonthOffset(Leap(y), 12)
  {
    hide YearFromDay, DayFromYear, Leap;
    YearStep(YearFromDay(d));
  }

  function CivilOf(d: int): (c: Civil) {
    var y := YearFromDay(d);
    DayInYear(d);
    var inYear := d - DayFromYear(y);
    var m := MonthIn(Leap(y), inYear, 0);
    Civil(y, m, inYear - MonthOffset(Leap(y), m) + 1)
  }

  /** Any year, month and day number, overflowing into the neighbouring years and months. */
  function MakeDay(year: int, month: int, day: int): int {
    var y, m := year + month / 12, month % 12;
    DayFromYear(y) + MonthOffset(Leap(y), m) + day - 1
  }

  lemma MakeDayInYear(y: int, m: nat, day: int)
    requires m < 12
    ensures MakeDay(y, m, day) == DayFromYear(y) + MonthOffset(Leap(y), m) + day - 1
  {
    hide DayFromYear, MonthOffset, Leap;
  }

  lemma FieldsInRange(d: int)
    ensures var c := CivilOf(d);
            c.year == YearFromDay(d) && c.month < 12 &&
            MonthOffset(Leap(c.year), c.month) + c.day == d - DayFromYear(c.year) + 1 &&
            1 <= c.day <= MonthOffset(Leap(c.year), c.month + 1) - MonthOffset(Leap(c.year), c.month)
  {
    YearStep(YearFromDay(d));
    hide DayFromYear, YearFromDay, MonthIn, Leap;
  }

  /** Every day has real fields, and they make the day again. */
  lemma CivilFacts(d: int)
    ensures var c := CivilOf(d); RealDay(c) && MakeDay(c.year, c.month, c.day) == d
  {
    hide CivilOf, DayFromYear, YearFromDay, MonthOffset, MakeDay, Leap;
    FieldsInRange(d);
    var c := CivilOf(d);
    MakeDayInYear(c.year, c.month, c.day);
  }

  lemma MonthsAscend(leap: bool, a: nat, b: nat)
    requires a <= b <= 12
    ensures MonthOffset(leap, a) <= MonthOffset(leap, b)
  {
  }

  lemma SameMonth(leap: bool, inYear: int, a: nat, b: nat)
    requires a < 12 && b < 12 && MonthOffset(leap, a) <= inYear < MonthOffset(leap, a + 1)
    requires MonthOffset(leap, b) <= inYear < MonthOffset(leap, b + 1)
    ensures a == b
  {
  }

  lemma YearOfMakeDay(c: Civil)
    requires RealDay(c)
    ensures YearFromDay(MakeDay(c.year, c.month, c.day)) == c.year
  {
    MakeDayInYear(c.year, c.month, c.day);
    YearStep(c.year);
    MonthsAscend(Leap(c.year), 0, c.month);
    MonthsAscend(Leap(c.year), c.month + 1, 12);
    assert MonthOffset(Leap(c.year), 12) == DaysInYear(c.year) && MonthOffset(Leap(c.year), 0) == 0;
    hide DayFromYear, YearFromDay, MonthOffset, MakeDay, Leap, DaysInYear;
    YearIs(MakeDay(c.year, c.month, c.day), c.year);
  }

  /** The fields of a real day determine it, and no two real days share fields. */
  lemma CivilOfMakeDay(c: Civil)
    requires RealDay(c)
    ensures CivilOf(MakeDay(c.year, c.month, c.day)) == c
  {
    hide CivilOf, DayFromYear, YearFromDay, MonthOffset, MakeDay, Leap;
    var d := MakeDay(c.year, c.month, c.day);
    YearOfMakeDay(c);
    FieldsInRange(d);
    MakeDayInYear(c.year, c.month, c.day);
    SameMonth(Leap(c.year), d - DayFromYear(c.year), CivilOf(d).month, c.month);
  }

  lemma MonthAfter(y: int, m: int)
    ensures MakeDay(y, m + 1, 1) == MakeDay(y, m, 1) + MonthLength(y + m / 12, m % 12)
    ensures (y + (m + 1) / 12, (m + 1) % 12) == if m % 12 == 11 then (y + m / 12 + 1, 0) else (y + m / 12, m % 12 + 1)
  {
    StepOfQuotient(m, 12);
    YearStep(y + m / 12);
  }

  lemma MakeDayShift(y: int, m: int, d: int, days: int)
    ensures MakeDay(y, m, d + days) == MakeDay(y, m, d) + days
  {
    hide DayFromYear, MonthOffset, Leap;
  }

  /** How long the twelve months are. */
  predicate LastOfMonth(c: Civil) {
    c.day == if c.month == 1 then (if c.year % 4 == 0 && (c.year % 100 != 0 || c.year % 400 == 0) then 29 else 28)
             else if c.month == 3 || c.month == 5 || c.month == 8 || c.month == 10 then 30 else 31
  }

  function DayAfter(c: Civil): Civil {
    if !LastOfMonth(c) then c.(day := c.day + 1)
    else if c.month < 11 then Civil(c.year, c.month + 1, 1)
    else Civil(c.year + 1, 0, 1)
  }

  lemma LastDayIs(c: Civil)
    requires RealDay(c)
    ensures LastOfMonth(c) <==> c.day == MonthLength(c.year, c.month)
  {
  }

  lemma FirstIsReal(y: int, m: nat)
    requires m < 12
    ensures RealDay(Civil(y, m, 1))
  {
    hide Leap;
  }

  /** The first of the next month is the day after a month's last. */
  lemma NextFirst(y: int, m: nat)
    requires m < 12
    ensures var n := if m < 11 then Civil(y, m + 1, 1) else Civil(y + 1, 0, 1);
            MakeDay(n.year, n.month, 1) == MakeDay(y, m, MonthLength(y, m)) + 1
  {
    hide *;
    MonthInYear(y, m);
    if m == 11 { NextJanuary(y); }
    MakeDayShift(y, m, 1, MonthLength(y, m) - 1);
  }

  lemma MonthInYear(y: int, m: nat)
    requires m < 12
    ensures MakeDay(y, m + 1, 1) == MakeDay(y, m, 1) + MonthLength(y, m)
  {
    hide *;
    assert m / 12 == 0 && m % 12 == m && y + m / 12 == y;
    MonthAfter(y, m);
  }

  lemma NextJanuary(y: int)
    ensures MakeDay(y, 12, 1) == MakeDay(y + 1, 0, 1)
  {
    hide DayFromYear, Leap;
  }

  lemma MakeDayAfter(c: Civil)
    requires RealDay(c)
    ensures var n := DayAfter(c); RealDay(n) && MakeDay(n.year, n.month, n.day) == MakeDay(c.year, c.month, c.day) + 1
  {
    LastDayIs(c);
    hide MakeDay, MonthLength, LastOfMonth;
    if LastOfMonth(c) {
      NextFirst(c.year, c.month);
      FirstIsReal(DayAfter(c).year, DayAfter(c).month);
    } else {
      MakeDayShift(c.year, c.month, c.day, 1);
    }
  }

  lemma EpochIs()
    ensures CivilOf(0) == Civil(1970, 0, 1)
  {
    CivilOfMakeDay(Civil(1970, 0, 1));
  }

  /** Day 0 is 1 January 1970, and each day's fields are those of the calendar day after the one before it. */
  lemma CalendarSteps(d: int)
    ensures CivilOf(0) == Civil(1970, 0, 1)
    ensures CivilOf(d + 1) == DayAfter(CivilOf(d))
  {
    hide *;
    EpochIs();
    CivilFacts(d);
    MakeDayAfter(CivilOf(d));
    CivilOfMakeDay(DayAfter(CivilOf(d)));
  }

  // ------------------------------------------------ time values

  function Day(t: int): int { t / MS_PER_DAY }
  function TimeInDay(t: int): int { t % MS_PER_DAY }
  function MakeTime(day: int, timeInDay: int): int { day * MS_PER_DAY + timeInDay }

  function TimeClip(t: int): Time { if -MAX_TIME <= t <= MAX_TIME then Some(t) else None }

  predicate Valid(time: Time) { time.Some? ==> -MAX_TIME <= time.value <= MAX_TIME }

  lemma DayOfMakeTime(day: int, timeInDay: int)
    requires 0 <= timeInDay < MS_PER_DAY
    ensures Day(MakeTime(day, timeInDay)) == day && TimeInDay(MakeTime(day, timeInDay)) == timeInDay
  {
  }

  function Fields(t: int): Civil { CivilOf(Day(t)) }

  /** `setFullYear(y)`, `setMonth(m)` and `setDate(d)` keep the other fields' numbers. */
  function WithFullYear(t: int, y: int): Time {
    TimeClip(MakeTime(MakeDay(y, Fields(t).month, Fields(t).day), TimeInDay(t)))
  }

  function WithMonth(t: int, m: int): Time {
    TimeClip(MakeTime(MakeDay(Fields(t).year, m, Fields(t).day), TimeInDay(t)))
  }

  function WithDate(t: int, d: int): Time {
    TimeClip(MakeTime(MakeDay(Fields(t).year, Fields(t).month, d), TimeInDay(t)))
  }

  /** `new Date(year, month, day)`: two-digit years mean the twentieth century. */
  function NewDate(year: int, month: int, day: int): Time {
    TimeClip(MakeTime(MakeDay(if 0 <= year <= 99 then 1900 + year else year, month, day), 0))
  }

  class MutableDate {
    var time: Time

    constructor (time: Time)
      ensures this.time == time
    {
      this.time := time;
    }

    method GetDate() returns (d: Option<int>)
      ensures d == if time.Some? then Some(Fields(time.value).day) else None
    {
      d := if time.Some? then Some(Fields(time.value).day) else None;
    }

    method GetMonth() returns (m: Option<int>)
      ensures m == if time.Some? then Some(Fields(time.value).month) else None
    {
      m := if time.Some? then Some(Fields(time.value).month) else None;
    }

    method SetDate(d: Option<int>)
      modifies this
      ensures time == if old(time).Some? && d.Some? then WithDate(old(time).value, d.value) else None
    {
      time := if time.Some? && d.Some? then WithDate(time.value, d.value) else None;
    }

    method SetMonth(m: Option<int>)
      modifies this
      ensures time == if old(time).Some? && m.Some? then WithMonth(old(time).value, m.value) else None
    {
      time := if time.Some? && m.Some? then WithMonth(time.value, m.value) else None;
    }
  }
}
