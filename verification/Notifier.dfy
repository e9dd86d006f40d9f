/** The nightly notifier: what it sends on one tick, and over a run of daily ticks. */
module Notifier {
  import opened Tables
  import opened JsDate
  import opened Subscriptions

  datatype Kind = SevenDays | OneDay | NextPayment
  datatype Notice = Notice(userId: Id, kind: Kind)

  /** `new Date(d.getFullYear(), d.getMonth(), d.getDate())` */
  function StartOfDay(t: int): Time { NewDate(Fields(t).year, Fields(t).month, Fields(t).day) }

  /** A null end date is the epoch. */
  function EndAt(r: Row): int { if r.endDate.Some? then r.endDate.value else 0 }

  /** `Math.floor` of the difference in days; nothing when a date is invalid. */
  function DiffInDays(now: int, end: int): Option<int> {
    var a, b := StartOfDay(now), StartOfDay(end);
    if a.Some? && b.Some? then Some((b.value - a.value) / MS_PER_DAY) else None
  }

  function NoticesFor(r: Row, now: int): seq<Notice> {
    var diff := DiffInDays(now, EndAt(r));
    (if diff == Some(7) then [Notice(r.userId, SevenDays)] else []) +
    (if diff == Some(1) then (if r.autoRenewal then [Notice(r.userId, NextPayment)] else [])
      + [Notice(r.userId, OneDay)] else [])
  }

  /** One tick: the notices of the live rows, in order. */
  function NoticesOf(rows: seq<Row>, now: int): seq<Notice> {
    if rows == [] then []
    else (if Live(rows[0]) then NoticesFor(rows[0], now) else []) + NoticesOf(rows[1..], now)
  }

  predicate IsLive(r: Row) { Live(r) }

  method CheckAndNotifySubscriptionEnd(rows: seq<Row>, date: int) returns (data: seq<Notice>)
    ensures data == NoticesOf(rows, date)
  {
    hide DiffInDays, Filter, NoticesOf, NoticesOfLive;
    var subscriptions := Filter(IsLive, rows);
    data := [];
    var i := 0;
    LiveOnly(rows, date);
    NoNotices(subscriptions, date);
    while i < |subscriptions|
      invariant 0 <= i <= |subscriptions|
      invariant data == NoticesOfLive(subscriptions[..i], date)
    {
      var subscription := subscriptions[i];
      var diffInDays := DiffInDays(date, EndAt(subscription));
      NextNotices(subscriptions, i, date);
      if diffInDays == Some(7) {
        data := data + [Notice(subscription.userId, SevenDays)];
      }
      if diffInDays == Some(1) {
        if subscription.autoRenewal {
          data := data + [Notice(subscription.userId, NextPayment)];
        }
        data := data + [Notice(subscription.userId, OneDay)];
      }
      i := i + 1;
    }
    assert subscriptions[..i] == subscriptions;
  }

  function NoticesOfLive(rows: seq<Row>, now: int): seq<Notice> {
    if rows == [] then [] else NoticesOfLive(rows[..|rows| - 1], now) + NoticesFor(rows[|rows| - 1], now)
  }

  lemma NoNotices(rows: seq<Row>, now: int)
    ensures NoticesOfLive(rows[..0], now) == []
  {
  }

  lemma NextNotices(rows: seq<Row>, i: nat, now: int)
    requires i < |rows|
    ensures NoticesOfLive(rows[..i + 1], now) == NoticesOfLive(rows[..i], now) + NoticesFor(rows[i], now)
  {
    hide NoticesFor;
    assert rows[..i + 1][..i] == rows[..i];
  }

  lemma {:induction false} LiveAppend(a: seq<Row>, b: seq<Row>, now: int)
    ensures NoticesOfLive(a + b, now) == NoticesOfLive(a, now) + NoticesOfLive(b, now)
    decreases |b|
  {
    hide NoticesFor;
    if b == [] {
      assert a + b == a;
    } else {
      var m := |b| - 1;
      assert (a + b)[..|a + b| - 1] == a + b[..m];
      LiveAppend(a, b[..m], now);
    }
  }

  lemma LiveOne(r: Row, now: int)
    ensures NoticesOfLive([r], now) == NoticesFor(r, now) && NoticesOfLive([], now) == []
  {
    hide NoticesFor;
    assert [r][..0] == [];
  }

  lemma {:induction false} LiveOnly(rows: seq<Row>, now: int)
    ensures NoticesOfLive(Filter(IsLive, rows), now) == NoticesOf(rows, now)
  {
    hide NoticesFor, NoticesOfLive;
    if rows == [] {
      LiveOne(Row("", "", STRIPE, None, Pending, false, None, None, None), now);
    } else {
      LiveOnly(rows[1..], now);
      LiveOne(rows[0], now);
      LiveAppend(if IsLive(rows[0]) then [rows[0]] else [], Filter(IsLive, rows[1..]), now);
    }
  }

  // ------------------------------------------------ calendar days

  predicate Modern(t: int) { Valid(Some(t)) && !(0 <= Fields(t).year <= 99) }

  /** The three spans of dates the start of a day treats alike: years outside 0 to 99; of the years 0 to
      99, which it reads as 1900 to 1999, January and February of the leap year 0; and the others. */
  function Span(t: int): nat {
    var c := Fields(t);
    if !(0 <= c.year <= 99) then 0 else if c.year == 0 && c.month < 2 then 1 else 2
  }

  /** How many days the start of the day is off. */
  function Shift(span: nat): int { if span == 0 then 0 else if span == 1 then 693_961 else 693_960 }

  lemma ShiftQuotient(a: int, k: int, c: int)
    requires k > 0
    ensures (a + k * c) / k == a / k + c
  {
    assert a + k * c == k * (a / k + c) + a % k;
    QuotientIs(a + k * c, k, a / k + c, a % k);
  }

  lemma FourCenturies(y: int)
    requires 0 <= y <= 99
    ensures (y + 299) / 400 == 0 && (y - 1601) / 400 == if y == 0 then -5 else -4
  {
  }

  lemma DaysOfYear(y: int)
    ensures DayFromYear(y) == 365 * (y - 1970) + (y - 1969) / 4 - (y - 1901) / 100 + (y - 1601) / 400
  {
  }

  lemma CenturyOfYear(y: int)
    requires 0 <= y <= 99
    ensures DayFromYear(1900 + y) - DayFromYear(y) == if y == 0 then 693_961 else 693_960
  {
    hide *;
    DaysOfYear(y);
    DaysOfYear(1900 + y);
    ShiftQuotient(y - 1969, 4, 475);
    ShiftQuotient(y - 1901, 100, 19);
    FourCenturies(y);
  }

  lemma LeapInCentury(y: int)
    requires 0 <= y <= 99
    ensures Leap(1900 + y) == (Leap(y) && y != 0) && Leap(0)
  {
  }

  lemma MonthOffsets(leap: bool, m: nat)
    requires m < 12
    ensures MonthOffset(leap, m) == MonthOffset(false, m) + if leap && m >= 2 then 1 else 0
  {
  }

  lemma CenturyLater(c: Civil)
    requires 0 <= c.year <= 99 && c.month < 12
    ensures MakeDay(1900 + c.year, c.month, c.day) - MakeDay(c.year, c.month, c.day)
         == if c.year == 0 && c.month < 2 then 693_961 else 693_960
  {
    hide *;
    CenturyOfYear(c.year);
    LeapInCentury(c.year);
    MakeDayInYear(c.year, c.month, c.day);
    MakeDayInYear(1900 + c.year, c.month, c.day);
    MonthOffsets(Leap(c.year), c.month);
    MonthOffsets(Leap(1900 + c.year), c.month);
  }

  lemma ClipDay(t: int)
    requires Valid(Some(t))
    ensures TimeClip(MakeTime(Day(t), 0)) == Some(MakeTime(Day(t), 0))
  {
  }

  lemma EarlyYear(y: int)
    requires 0 <= y <= 99
    ensures -800_000 <= DayFromYear(y) <= 0
  {
    hide *;
    DaysOfYear(y);
    assert -493 <= (y - 1969) / 4 <= 0 && -20 <= (y - 1901) / 100 <= 0 && -5 <= (y - 1601) / 400 <= 0;
  }

  lemma MonthBounds(leap: bool, m: nat)
    requires m < 12
    ensures 0 <= MonthOffset(leap, m) <= 366 && MonthOffset(leap, m + 1) - MonthOffset(leap, m) <= 31
  {
  }

  lemma EarlyDay(d: int)
    requires 0 <= CivilOf(d).year <= 99
    ensures -800_000 <= d <= 400
  {
    hide *;
    FieldsInRange(d);
    var c := CivilOf(d);
    MonthBounds(Leap(c.year), c.month);
    EarlyYear(c.year);
  }

  lemma ClipCentury(d: int)
    requires 0 <= CivilOf(d).year <= 99
    ensures TimeClip(MakeTime(d + 693_960, 0)) == Some(MakeTime(d + 693_960, 0))
    ensures TimeClip(MakeTime(d + 693_961, 0)) == Some(MakeTime(d + 693_961, 0))
  {
    hide CivilOf;
    EarlyDay(d);
  }

  lemma StartMade(t: int)
    ensures var c := Fields(t);
            StartOfDay(t)
            == TimeClip(MakeTime(MakeDay(if 0 <= c.year <= 99 then 1900 + c.year else c.year, c.month, c.day), 0))
  {
    hide CivilOf, MakeDay, MakeTime, TimeClip;
  }

  lemma DayMade(t: int)
    ensures var c := Fields(t);
            c == CivilOf(Day(t)) && c.month < 12 &&
            MakeDay(if 0 <= c.year <= 99 then 1900 + c.year else c.year, c.month, c.day) == Day(t) + Shift(Span(t))
  {
    var c := Fields(t);
    CivilFacts(Day(t));
    hide CivilOf, MakeDay, Day;
    if 0 <= c.year <= 99 { CenturyLater(c); }
  }

  lemma StartIs(t: int)
    requires Valid(Some(t))
    ensures StartOfDay(t) == Some(MakeTime(Day(t) + Shift(Span(t)), 0))
  {
    StartMade(t);
    DayMade(t);
    ClipDay(t);
    if 0 <= Fields(t).year <= 99 { ClipCentury(Day(t)); }
    hide StartOfDay, Fields, CivilOf, MakeDay, TimeClip, MakeTime, Day;
  }

  lemma DiffIs(now: int, end: int, a: int, b: int)
    requires StartOfDay(now) == Some(MakeTime(a, 0)) && StartOfDay(end) == Some(MakeTime(b, 0))
    ensures DiffInDays(now, end) == Some(b - a)
  {
    hide StartOfDay, MakeTime;
    DaysApart(a, b);
  }

  lemma ShiftsDiffer(i: nat, j: nat)
    requires i <= 2 && j <= 2
    ensures Shift(i) == Shift(j) <==> i == j
  {
  }

  /** The difference counts calendar days if and only if both dates lie in the same of the three spans. */
  lemma DiffIsDays(now: int, end: int)
    requires Valid(Some(now)) && Valid(Some(end))
    ensures DiffInDays(now, end) == Some(Day(end) - Day(now)) <==> Span(now) == Span(end)
  {
    hide *;
    StartIs(now);
    StartIs(end);
    DiffIs(now, end, Day(now) + Shift(Span(now)), Day(end) + Shift(Span(end)));
    SpanIs(now);
    SpanIs(end);
    ShiftsDiffer(Span(now), Span(end));
  }

  lemma SpanIs(t: int)
    ensures Span(t) <= 2 && (Modern(t) ==> Span(t) == 0)
  {
    hide CivilOf;
  }

  lemma ModernDiffers(now: int, end: int)
    requires Modern(now) && Modern(end)
    ensures DiffInDays(now, end) == Some(Day(end) - Day(now))
  {
    SpanIs(now);
    SpanIs(end);
    hide Day, DiffInDays, Span, Fields;
    DiffIsDays(now, end);
  }

  lemma DaysApart(a: int, b: int)
    ensures (MakeTime(b, 0) - MakeTime(a, 0)) / MS_PER_DAY == b - a
  {
  }

  // ------------------------------------------------ one user's notices

  function LiveOf(u: Id): Row -> bool { (r: Row) => Live(r) && r.userId == u }

  /** How often the notices of live rows contain one. */
  function CountOf(rows: seq<Row>, now: int, n: Notice): nat { multiset(NoticesOf(rows, now))[n] }

  lemma CountCons(r: Row, rest: seq<Row>, now: int, n: Notice)
    ensures CountOf([r] + rest, now, n) == (if Live(r) then multiset(NoticesFor(r, now))[n] else 0)
            + CountOf(rest, now, n)
  {
    hide NoticesFor;
    assert ([r] + rest)[1..] == rest;
  }

  lemma {:induction false} OthersDoNotCount(rows: seq<Row>, now: int, n: Notice)
    ensures CountOf(rows, now, n) == CountOf(Filter(LiveOf(n.userId), rows), now, n)
  {
    if rows == [] {
    } else {
      hide NoticesFor, CountOf, Filter;
      var r, rest := rows[0], rows[1..];
      assert rows == [r] + rest;
      OthersDoNotCount(rest, now, n);
      ForOwnUser(r, now, n);
      FilterCons(LiveOf(n.userId), r, rest);
      CountCons(r, rest, now, n);
      CountCons(r, Filter(LiveOf(n.userId), rest), now, n);
    }
  }

  lemma ForOwnUser(r: Row, now: int, n: Notice)
    ensures n.userId != r.userId ==> multiset(NoticesFor(r, now))[n] == 0
  {
    hide DiffInDays;
  }

  /** How often one row's notices contain a kind. */
  function Times(r: Row, days: int, kind: Kind): nat {
    match kind
    case SevenDays => if days == 7 then 1 else 0
    case OneDay => if days == 1 then 1 else 0
    case NextPayment => if days == 1 && r.autoRenewal then 1 else 0
  }

  lemma RowCounts(r: Row, now: int, kind: Kind, days: int)
    requires DiffInDays(now, EndAt(r)) == Some(days)
    ensures multiset(NoticesFor(r, now))[Notice(r.userId, kind)] == Times(r, days, kind)
  {
    hide DiffInDays, EndAt;
  }

  lemma OneRow(r: Row, now: int)
    requires Live(r)
    ensures NoticesOf([r], now) == NoticesFor(r, now)
  {
    hide NoticesFor;
    assert [r][1..] == [];
  }

  lemma TickCounts(rows: seq<Row>, now: int, r: Row, kind: Kind)
    requires Filter(LiveOf(r.userId), rows) == [r] && Live(r) && Modern(now) && Modern(EndAt(r))
    ensures CountOf(rows, now, Notice(r.userId, kind)) == Times(r, Day(EndAt(r)) - Day(now), kind)
  {
    hide *;
    OthersDoNotCount(rows, now, Notice(r.userId, kind));
    ModernDiffers(now, EndAt(r));
    OneRow(r, now);
    CountOfOne(r, now, Notice(r.userId, kind));
    RowCounts(r, now, kind, Day(EndAt(r)) - Day(now));
  }

  lemma CountOfOne(r: Row, now: int, n: Notice)
    requires NoticesOf([r], now) == NoticesFor(r, now)
    ensures CountOf([r], now, n) == multiset(NoticesFor(r, now))[n]
  {
    hide NoticesFor, NoticesOf;
  }

  // ------------------------------------------------ runs

  /** One nightly tick: the table and the clock. */
  datatype Tick = Tick(rows: seq<Row>, now: int)

  function AllNotices(ticks: seq<Tick>): seq<Notice> {
    if ticks == [] then []
    else
      var last := ticks[|ticks| - 1];
      AllNotices(ticks[..|ticks| - 1]) + NoticesOf(last.rows, last.now)
  }

  /** One tick per calendar day. */
  ghost predicate Daily(ticks: seq<Tick>, first: int) {
    forall k :: 0 <= k < |ticks| ==> Modern(ticks[k].now) && Day(ticks[k].now) == first + k
  }

  /** At every tick `subs[k]` is the user's only live row, always with the same end date. */
  ghost predicate Steady(ticks: seq<Tick>, subs: seq<Row>, u: Id, end: int) {
    |subs| == |ticks| && Modern(end) &&
    forall k :: 0 <= k < |ticks| ==>
      Filter(LiveOf(u), ticks[k].rows) == [subs[k]] && Live(subs[k]) && subs[k].userId == u && EndAt(subs[k]) == end
  }

  /** The tick that falls `days` calendar days before the end. */
  function TickBefore(first: int, end: int, days: int): int { Day(end) - days - first }

  ghost predicate Happens(ticks: seq<Tick>, subs: seq<Row>, first: int, end: int, kind: Kind)
    requires |subs| == |ticks|
  {
    var k := TickBefore(first, end, if kind == SevenDays then 7 else 1);
    0 <= k < |ticks| && (kind == NextPayment ==> subs[k].autoRenewal)
  }

  /** How often the run's notices contain one. */
  function CountAll(ticks: seq<Tick>, n: Notice): nat { multiset(AllNotices(ticks))[n] }

  lemma CountLast(ticks: seq<Tick>, n: Notice)
    requires ticks != []
    ensures var m := |ticks| - 1;
            CountAll(ticks, n) == CountAll(ticks[..m], n) + CountOf(ticks[m].rows, ticks[m].now, n)
  {
    hide NoticesOf;
  }

  lemma CountNone(n: Notice)
    ensures CountAll([], n) == 0
  {
  }

  lemma DailyInit(ticks: seq<Tick>, first: int)
    requires ticks != [] && Daily(ticks, first)
    ensures Daily(ticks[..|ticks| - 1], first)
  {
    hide Modern, Day;
  }

  lemma SteadyInit(ticks: seq<Tick>, subs: seq<Row>, u: Id, end: int)
    requires ticks != [] && Steady(ticks, subs, u, end)
    ensures |subs| == |ticks| && Steady(ticks[..|ticks| - 1], subs[..|subs| - 1], u, end)
  {
    hide Modern, Filter, EndAt;
  }

  lemma LastTickCounts(ticks: seq<Tick>, subs: seq<Row>, u: Id, first: int, end: int, kind: Kind)
    requires ticks != [] && Daily(ticks, first) && Steady(ticks, subs, u, end)
    ensures var m := |ticks| - 1;
            CountAll(ticks, Notice(u, kind)) == CountAll(ticks[..m], Notice(u, kind))
              + Times(subs[m], Day(end) - (first + m), kind)
  {
    hide Modern, Filter, EndAt, Day, Times, CountAll, CountOf, Live;
    var m := |ticks| - 1;
    CountLast(ticks, Notice(u, kind));
    TickCounts(ticks[m].rows, ticks[m].now, subs[m], kind);
  }

  lemma OneMoreCount(ticks: seq<Tick>, subs: seq<Row>, u: Id, first: int, end: int, kind: Kind)
    requires ticks != [] && |subs| == |ticks| && Daily(ticks, first) && Steady(ticks, subs, u, end)
    requires var m := |ticks| - 1;
             CountAll(ticks[..m], Notice(u, kind)) == if Happens(ticks[..m], subs[..m], first, end, kind) then 1 else 0
    ensures CountAll(ticks, Notice(u, kind)) == if Happens(ticks, subs, first, end, kind) then 1 else 0
  {
    hide *;
    LastTickCounts(ticks, subs, u, first, end, kind);
    OneMoreTick(ticks, subs, first, end, kind);
  }

  lemma NoTicks(ticks: seq<Tick>, subs: seq<Row>, u: Id, first: int, end: int, kind: Kind)
    requires |subs| == |ticks| == 0
    ensures CountAll(ticks, Notice(u, kind)) == if Happens(ticks, subs, first, end, kind) then 1 else 0
  {
    hide *;
    CountNone(Notice(u, kind));
    NeverHappens(subs, first, end, kind);
  }

  /** With one tick a day and an unchanged end date, a live subscription gets exactly one 7-day and one
      1-day notice if those days are within the run, and one next-payment notice exactly when
      auto-renewal is on at the 1-day tick. */
  lemma {:induction false} NoticesOverRun(ticks: seq<Tick>, subs: seq<Row>, u: Id, first: int, end: int, kind: Kind)
    requires Daily(ticks, first) && Steady(ticks, subs, u, end)
    ensures CountAll(ticks, Notice(u, kind)) == if Happens(ticks, subs, first, end, kind) then 1 else 0
    decreases |ticks|
  {
    hide *;
    SameLength(ticks, subs, u, end);
    if ticks == [] {
      NoTicks(ticks, subs, u, first, end, kind);
    } else {
      var m := |ticks| - 1;
      DailyInit(ticks, first);
      SteadyInit(ticks, subs, u, end);
      NoticesOverRun(ticks[..m], subs[..m], u, first, end, kind);
      OneMoreCount(ticks, subs, u, first, end, kind);
    }
  }

  lemma SameLength(ticks: seq<Tick>, subs: seq<Row>, u: Id, end: int)
    requires Steady(ticks, subs, u, end)
    ensures |subs| == |ticks|
  {
  }

  lemma NeverHappens(subs: seq<Row>, first: int, end: int, kind: Kind)
    requires |subs| == 0
    ensures !Happens([], subs, first, end, kind)
  {
  }

  lemma OneMoreTick(ticks: seq<Tick>, subs: seq<Row>, first: int, end: int, kind: Kind)
    requires ticks != [] && |subs| == |ticks|
    ensures var m := |ticks| - 1;
            (if Happens(ticks, subs, first, end, kind) then 1 else 0)
            == (if Happens(ticks[..m], subs[..m], first, end, kind) then 1 else 0)
               + Times(subs[m], Day(end) - (first + m), kind)
  {
    hide Day;
  }

  // ------------------------------------------------ one row, by columns

  lemma NoticesAre(r: Row, now: int, days: int)
    requires DiffInDays(now, EndAt(r)) == Some(days)
    ensures NoticesFor(r, now)
            == if days == 7 then [Notice(r.userId, SevenDays)]
               else if days == 1 && r.autoRenewal then [Notice(r.userId, NextPayment), Notice(r.userId, OneDay)]
               else if days == 1 then [Notice(r.userId, OneDay)] else []
  {
    hide DiffInDays, EndAt;
  }

  lemma EndIs(r: Row)
    ensures EndAt(r) == if r.endDate.Some? then r.endDate.value else 0
  {
  }

  /** Outside the years 0 to 99 a live row's owner is notified seven calendar days and one calendar day before
      the end, and the day before also of the next payment when renewal is on; a row without an end date counts
      as ending on 1 January 1970. */
  lemma RowNotices(r: Row, now: int, end: int)
    requires end == (if r.endDate.Some? then r.endDate.value else 0) && Modern(now) && Modern(end)
    ensures var days := Day(end) - Day(now);
            NoticesFor(r, now)
            == if days == 7 then [Notice(r.userId, SevenDays)]
               else if days == 1 && r.autoRenewal then [Notice(r.userId, NextPayment), Notice(r.userId, OneDay)]
               else if days == 1 then [Notice(r.userId, OneDay)] else []
  {
    hide *;
    EndIs(r);
    ModernDiffers(now, end);
    NoticesAre(r, now, Day(end) - Day(now));
  }
}
