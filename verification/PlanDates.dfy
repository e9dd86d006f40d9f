/** The end date of a subscription period. */
module PlanDates {
  import opened Tables
  import opened JsDate

  datatype Plan = DAY | WEEKLY | MONTHLY | OtherPlan

  /** `now` is the clock, used for an unknown plan. */
  function DateEnd(time: Time, plan: Plan, now: int): Time {
    match plan
    case OtherPlan => Some(now)
    case DAY => if time.None? then None else WithDate(time.value, Fields(time.value).day + 1)
    case WEEKLY => if time.None? then None else WithDate(time.value, Fields(time.value).day + 7)
    case MONTHLY => if time.None? then None else WithMonth(time.value, Fields(time.value).month + 1)
  }

  method HandleDateEnd(paymentDate: MutableDate, plan: Plan, now: int) returns (date: MutableDate)
    ensures fresh(date) && date.time == DateEnd(paymentDate.time, plan, now)
  {
    date := new MutableDate(paymentDate.time);
    match plan
    case DAY =>
      var d := date.GetDate();
      date.SetDate(if d.Some? then Some(d.value + 1) else None);
    case WEEKLY =>
      var d := date.GetDate();
      date.SetDate(if d.Some? then Some(d.value + 7) else None);
    case MONTHLY =>
      var m := date.GetMonth();
      date.SetMonth(if m.Some? then Some(m.value + 1) else None);
    case OtherPlan => date := new MutableDate(Some(now));
  }

  // ------------------------------------------------ in days

  lemma ShiftDays(t: int, days: int)
    ensures MakeTime(Day(t) + days, TimeInDay(t)) == t + days * MS_PER_DAY
  {
  }

  lemma NextMonthDay(c: Civil)
    requires RealDay(c)
    ensures MakeDay(c.year, c.month + 1, c.day) == MakeDay(c.year, c.month, c.day) + MonthLength(c.year, c.month)
  {
    MonthAfter(c.year, c.month);
    MakeDayShift(c.year, c.month + 1, 1, c.day - 1);
    MakeDayShift(c.year, c.month, 1, c.day - 1);
    hide MakeDay, MonthLength;
  }

  lemma MonthLengths(y: int, m: nat)
    requires m < 12
    ensures 28 <= MonthLength(y, m) <= 31
  {
    hide Leap;
  }

  /** A daily or weekly period is exactly 1 or 7 days; a monthly one exactly as many days as the
      payment's month has, also when the day is missing from the next month or the year rolls over. */
  lemma PeriodInDays(t: int, now: int)
    ensures DateEnd(Some(t), DAY, now) == TimeClip(t + 1 * MS_PER_DAY)
    ensures DateEnd(Some(t), WEEKLY, now) == TimeClip(t + 7 * MS_PER_DAY)
    ensures DateEnd(Some(t), MONTHLY, now) == TimeClip(t + MonthLength(Fields(t).year, Fields(t).month) * MS_PER_DAY)
    ensures 28 <= MonthLength(Fields(t).year, Fields(t).month) <= 31
  {
    hide CivilOf, MakeDay, MonthLength, MakeTime, Day, TimeInDay, TimeClip;
    CivilFacts(Day(t));
    var c := Fields(t);
    MakeDayShift(c.year, c.month, c.day, 1);
    MakeDayShift(c.year, c.month, c.day, 7);
    NextMonthDay(c);
    MonthLengths(c.year, c.month);
    ShiftDays(t, 1);
    ShiftDays(t, 7);
    ShiftDays(t, MonthLength(c.year, c.month));
  }

  // ------------------------------------------------ the calendar day a month later

  /** The same day of the month, `n` months on; it need not exist. */
  function MonthsLater(c: Civil, n: nat): Civil { Civil(c.year + (c.month + n) / 12, (c.month + n) % 12, c.day) }

  lemma MakeDayOfMonthsLater(c: Civil, n: nat)
    ensures var l := MonthsLater(c, n); MakeDay(l.year, l.month, l.day) == MakeDay(c.year, c.month + n, c.day)
  {
    hide DayFromYear, MonthOffset, Leap;
  }

  lemma TimeInDayRange(t: int)
    ensures 0 <= TimeInDay(t) < MS_PER_DAY
  {
  }

  lemma NextMonthFields(t: int, now: int)
    requires DateEnd(Some(t), MONTHLY, now).Some?
    ensures var e, l := DateEnd(Some(t), MONTHLY, now).value, MonthsLater(Fields(t), 1);
            Day(e) == MakeDay(l.year, l.month, l.day) && TimeInDay(e) == TimeInDay(t)
  {
    hide CivilOf, MakeDay, MakeTime, Day, TimeInDay, MonthsLater;
    var c := Fields(t);
    TimeInDayRange(t);
    MakeDayOfMonthsLater(c, 1);
    DayOfMakeTime(MakeDay(c.year, c.month + 1, c.day), TimeInDay(t));
  }

  lemma MonthsLaterIsReal(c: Civil, n: nat)
    requires RealDay(c)
    ensures var l := MonthsLater(c, n); l.month < 12 && (RealDay(l) <==> l.day <= MonthLength(l.year, l.month))
    ensures c.day <= 28 ==> RealDay(MonthsLater(c, n))
  {
    hide MonthLength;
    var l := MonthsLater(c, n);
    MonthLengths(l.year, l.month);
  }

  /** A monthly period ends on the same day of the next month if and only if that day exists. */
  lemma SameDayNextMonth(t: int, now: int)
    requires DateEnd(Some(t), MONTHLY, now).Some?
    ensures var l := MonthsLater(Fields(t), 1);
            Fields(DateEnd(Some(t), MONTHLY, now).value) == l <==> l.day <= MonthLength(l.year, l.month)
  {
    hide CivilOf, MakeDay, MonthLength, MakeTime, Day, TimeInDay, RealDay, DateEnd, MonthsLater;
    var l := MonthsLater(Fields(t), 1);
    CivilFacts(Day(t));
    NextMonthFields(t, now);
    CivilFacts(Day(DateEnd(Some(t), MONTHLY, now).value));
    MonthsLaterIsReal(Fields(t), 1);
    if RealDay(l) { CivilOfMakeDay(l); }
  }

  // ------------------------------------------------ renewing month after month

  function Renewed(t: int, n: nat, now: int): Time {
    if n == 0 then Some(t) else DateEnd(Renewed(t, n - 1, now), MONTHLY, now)
  }

  lemma MonthsCompose(c: Civil, n: nat)
    requires RealDay(c)
    ensures MonthsLater(MonthsLater(c, n), 1) == MonthsLater(c, n + 1)
    ensures MonthsLater(c, 0) == c
  {
    hide MakeDay, MonthLength;
    MonthAfter(c.year, c.month + n);
    MonthAfter(MonthsLater(c, n).year, MonthsLater(c, n).month);
  }

  /** From a day not after the 28th, `n` monthly renewals end on the same day of the month and at the
      same time of day, `n` calendar months later. */
  lemma {:induction false} RenewalsKeepTheDay(t: int, n: nat, now: int)
    requires Fields(t).day <= 28 && Renewed(t, n, now).Some?
    ensures Fields(Renewed(t, n, now).value) == MonthsLater(Fields(t), n)
    ensures TimeInDay(Renewed(t, n, now).value) == TimeInDay(t)
  {
    hide CivilOf, MakeDay, MonthLength, MakeTime, Day, TimeInDay, RealDay, MonthsLater;
    var c := Fields(t);
    CivilFacts(Day(t));
    if n == 0 {
      MonthsCompose(c, 0);
    } else {
      var previous := Renewed(t, n - 1, now);
      RenewalsKeepTheDay(t, n - 1, now);
      MonthsLaterIsReal(c, n);
      MonthsCompose(c, n - 1);
      NextMonthFields(previous.value, now);
      CivilOfMakeDay(MonthsLater(c, n));
    }
  }

  /** An unknown plan ends at the clock's instant, whatever the payment date; an invalid payment date makes an
      invalid end. */
  lemma OtherEnds(time: Time, plan: Plan, now: int)
    ensures plan == OtherPlan ==> DateEnd(time, plan, now) == Some(now)
    ensures plan != OtherPlan && time == None ==> DateEnd(time, plan, now) == None
  {
  }
}
