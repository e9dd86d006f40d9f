/** The date-of-birth validator and the date the profile stores for what it accepts. */
module DateOfBirth {
  import opened JsDate
  import opened DateFormatter

  /** `now` is the clock. */
  predicate Validate(value: string, now: int) {
    if value == "" then true
    else if !IsDateString(value) then false
    else
      var dateOfBirth := NewDate(YearPart(value), MonthPart(value) - 1, DayPart(value));
      var thirteenYearsAgo := WithFullYear(now, Fields(now).year - 13);
      dateOfBirth.Some? && thirteenYearsAgo.Some? && dateOfBirth.value <= thirteenYearsAgo.value
  }

  // ------------------------------------------------ calendar order

  predicate NotAfter(a: Civil, b: Civil) {
    a.year < b.year || (a.year == b.year && (a.month < b.month || (a.month == b.month && a.day <= b.day)))
  }

  lemma YearEnds(y: int)
    ensures MonthOffset(Leap(y), 12) == DaysInYear(y) && MonthOffset(Leap(y), 0) == 0
  {
    hide Leap;
  }

  lemma EarlierYear(a: Civil, b: Civil)
    requires RealDay(a) && RealDay(b) && a.year < b.year
    ensures MakeDay(a.year, a.month, a.day) < MakeDay(b.year, b.month, b.day)
  {
    hide DayFromYear, MonthOffset, MakeDay, Leap, DaysInYear;
    YearStep(a.year);
    MonthsAscend(Leap(a.year), a.month + 1, 12);
    MonthsAscend(Leap(b.year), 0, b.month);
    YearEnds(a.year);
    YearEnds(b.year);
    MakeDayInYear(a.year, a.month, a.day);
    MakeDayInYear(b.year, b.month, b.day);
    YearsAscend(a.year + 1, b.year);
  }

  lemma EarlierMonth(a: Civil, b: Civil)
    requires RealDay(a) && RealDay(b) && a.year == b.year && a.month < b.month
    ensures MakeDay(a.year, a.month, a.day) < MakeDay(b.year, b.month, b.day)
  {
    hide DayFromYear, MonthOffset, MakeDay, Leap;
    MakeDayInYear(a.year, a.month, a.day);
    MakeDayInYear(b.year, b.month, b.day);
    MonthsAscend(Leap(a.year), a.month + 1, b.month);
  }

  /** Days compare as their years, months and days of the month do. */
  lemma CalendarOrder(a: Civil, b: Civil)
    requires RealDay(a) && RealDay(b)
    ensures MakeDay(a.year, a.month, a.day) <= MakeDay(b.year, b.month, b.day) <==> NotAfter(a, b)
  {
    hide DayFromYear, MonthOffset, MakeDay, Leap, MonthLength;
    if a.year < b.year { EarlierYear(a, b); }
    else if b.year < a.year { EarlierYear(b, a); }
    else if a.month < b.month { EarlierMonth(a, b); }
    else if b.month < a.month { EarlierMonth(b, a); }
    else {
      MakeDayInYear(a.year, a.month, a.day);
      MakeDayInYear(b.year, b.month, b.day);
    }
  }

  // ------------------------------------------------ thirteen years

  /** Today's date thirteen years ago; that year is never a leap year when today is 29 February, and
      the date becomes 1 March. */
  function ThirteenYearsBefore(today: Civil): Civil {
    if today.month == 1 && today.day == 29 then Civil(today.year - 13, 2, 1) else today.(year := today.year - 13)
  }

  lemma ThirteenYearsBeforeIsReal(today: Civil)
    requires RealDay(today)
    ensures var c := ThirteenYearsBefore(today);
            RealDay(c) && MakeDay(c.year, c.month, c.day) == MakeDay(today.year - 13, today.month, today.day)
  {
    hide DayFromYear;
  }

  lemma AgoDay(now: int)
    requires WithFullYear(now, Fields(now).year - 13).Some?
    ensures var c := ThirteenYearsBefore(Fields(now));
            RealDay(c) && Day(WithFullYear(now, Fields(now).year - 13).value) == MakeDay(c.year, c.month, c.day)
  {
    hide CivilOf, MakeDay, MakeTime, Day, TimeInDay, RealDay, ThirteenYearsBefore;
    var f := Fields(now);
    CivilFacts(Day(now));
    ThirteenYearsBeforeIsReal(f);
    assert 0 <= TimeInDay(now) < MS_PER_DAY by { TimeOfDay(now); }
    DayOfMakeTime(MakeDay(f.year - 13, f.month, f.day), TimeInDay(now));
  }

  lemma TimeOfDay(t: int)
    ensures 0 <= TimeInDay(t) < MS_PER_DAY
  {
  }

  lemma MidnightCompares(birth: int, t: int)
    requires TimeInDay(birth) == 0
    ensures birth <= t <==> Day(birth) <= Day(t)
  {
  }

  /** A non-empty string is accepted if and only if it has the form dd.mm.yyyy and the day it parses
      to (after Date's overflow) is not after today's date thirteen years ago. The accepted value is
      the one the profile stores. */
  lemma AcceptedIfOldEnough(value: string, now: int)
    requires value != "" && WithFullYear(now, Fields(now).year - 13).Some?
    ensures Validate(value, now) <==>
              IsDateString(value) && FromDDMMYYYY(value).Some?
              && NotAfter(Fields(FromDDMMYYYY(value).value), ThirteenYearsBefore(Fields(now)))
  {
    if IsDateString(value) {
      hide CivilOf, MakeDay, MakeTime, Day, TimeInDay, RealDay, ThirteenYearsBefore;
      hide FromDDMMYYYY, IsDateString, NotAfter, WithFullYear, NewDate;
      DateStringParts(value);
      PrintParsed(value);
      var birth, ago := FromDDMMYYYY(value).value, WithFullYear(now, Fields(now).year - 13).value;
      AgoDay(now);
      CivilFacts(Day(birth));
      BirthIsMidnight(value);
      MidnightCompares(birth, ago);
      CalendarOrder(Fields(birth), ThirteenYearsBefore(Fields(now)));
    }
  }

  lemma BirthIsMidnight(value: string)
    requires IsDateString(value) && FromDDMMYYYY(value).Some?
    ensures TimeInDay(FromDDMMYYYY(value).value) == 0
  {
    hide FromDDMMYYYY, MakeDay, IsDateString;
    DateStringParts(value);
  }
}
