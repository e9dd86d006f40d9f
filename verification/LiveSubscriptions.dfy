/** At most one live subscription per user, over every run of provider webhooks, renewal switches
    and nightly passes. */
module LiveSubscriptions {
  import opened Tables
  import opened Subscriptions

  /** No user has two live rows; ids are the primary key. */
  ghost predicate OneLive(rows: seq<Row>) {
    forall x, y :: x in rows && y in rows && Live(x) && Live(y) && x.userId == y.userId ==> x.id == y.id
  }

  function FindById(rows: seq<Row>, id: Id): Option<Row> {
    if rows == [] then None else if rows[0].id == id then Some(rows[0]) else FindById(rows[1..], id)
  }

  // ------------------------------------------------ entity updates

  /** A date is overwritten only by a date. */
  function Dated(r: Row, paidAt: Option<int>, endDate: Option<int>): Row {
    r.(paidAt := if paidAt.Some? then paidAt else r.paidAt, endDate := if endDate.Some? then endDate else r.endDate)
  }

  function Activate(r: Row, paidAt: Option<int>, endDate: Option<int>, now: int): Row {
    Dated(r, paidAt, endDate).(updatedAt := Some(now), status := Active, autoRenewal := true)
  }

  /** Activated with the dates of the subscription it replaces. */
  function Replacing(r: Row, replaced: Option<Row>, now: int): Row {
    if replaced.Some? then Activate(r, replaced.value.paidAt, replaced.value.endDate, now)
      else Activate(r, None, None, now)
  }

  function Suspend(r: Row, now: int): Row { r.(updatedAt := Some(now), status := Suspended, autoRenewal := false) }

  /** `update` without an "autoRenewal" argument defaults it to true. */
  function Update(r: Row, paidAt: Option<int>, endDate: Option<int>, status: Status, now: int): Row {
    Dated(r, paidAt, endDate).(updatedAt := Some(now), status := status, autoRenewal := true)
  }

  // ------------------------------------------------ the steps

  /** `id` is the row the handler's lookup returned: by primary key, or any row with the provider's
      subscription id. The booleans say which external calls return. */
  datatype Event =
    | Created(id: Id, userId: Id, system: System, subId: Option<Id>)
    | PayPalActivated(id: Id, cancelOk: bool, now: int)
    | PayPalSuspended(id: Id, now: int)
    | SubscriptionCancelled(id: Id, now: int)
    | PayPalPaid(id: Id, custom: Id, cancelOk: bool, plansOk: bool, paidAt: Option<int>, endDate: Option<int>, now: int)
    | PayPalPaymentFailed(id: Id, paidAt: Option<int>, now: int)
    | StripeCheckoutCompleted(id: Id, subId: Option<Id>, cancelOk: bool, now: int)
    | StripeInvoice(id: Id, paidAt: Option<int>, endDate: Option<int>)
    | SwitchAutoRenewal(userId: Id, on: bool, providerOk: bool, now: int)
    | NightlyPass(now: int, payPalOk: bool)

  /** The handler's work on the row its lookup found. */
  function Handle(rows: seq<Row>, r: Row, e: Event): seq<Row> {
    match e
    case PayPalActivated(_, cancelOk, now) =>
      if r.status == Pending then
        match HandleActive(rows, r.userId, r.id, cancelOk, now)
        case Threw => rows
        case Done(others, replaced) =>
          WriteRow(others, Replacing(r, replaced, now))
      else if r.status == Suspended then WriteRow(rows, Activate(r, None, None, now))
      else rows
    case PayPalSuspended(_, now) =>
      if r.status == Suspended && !r.autoRenewal then rows else WriteRow(rows, Suspend(r, now))
    case SubscriptionCancelled(_, now) => if r.status == Canceled then rows else WriteRow(rows, AsCanceled(r, now))
    case PayPalPaid(_, custom, cancelOk, plansOk, paidAt, endDate, now) =>
      (match HandleActive(rows, custom, r.id, cancelOk, now)
       case Threw => rows
       case Done(others, _) => if plansOk then WriteRow(others, Update(r, paidAt, endDate, Active, now)) else others)
    case PayPalPaymentFailed(_, paidAt, now) => WriteRow(rows, Update(r, paidAt, r.endDate, Canceled, now))
    case StripeCheckoutCompleted(_, subId, cancelOk, now) =>
      (match HandleActive(rows, r.userId, r.id, cancelOk, now)
       case Threw => rows
       case Done(others, _) => WriteRow(others, r.(updatedAt := Some(now), subId := subId, status := Active)))
    case StripeInvoice(_, paidAt, endDate) => WriteRow(rows, r.(paidAt := paidAt, endDate := endDate))
    case _ => rows
  }

  function Switch(r: Row, on: bool, now: int): Row {
    if r.system == PAYPAL then (if on then Activate(r, None, None, now) else Suspend(r, now))
    else r.(updatedAt := Some(now), autoRenewal := on)
  }

  function Step(rows: seq<Row>, e: Event): seq<Row> {
    match e
    case Created(id, userId, system, subId) =>
      if FindById(rows, id).Some? then rows
      else rows + [Row(id, userId, system, subId, Pending, true, None, None, None)]
    case SwitchAutoRenewal(userId, on, providerOk, now) =>
      var r := FindLive(rows, userId);
      if r.None? || r.value.autoRenewal == on || !providerOk then rows else WriteRow(rows, Switch(r.value, on, now))
    case NightlyPass(now, payPalOk) => CancelPass(rows, now, payPalOk).rows
    case _ =>
      var r := FindById(rows, e.id);
      if r.None? then rows else Handle(rows, r.value, e)
  }

  function Run(events: seq<Event>): seq<Row> {
    if events == [] then [] else Step(Run(events[..|events| - 1]), events[|events| - 1])
  }

  // ------------------------------------------------ when a step is safe

  predicate HasOtherLive(rows: seq<Row>, r: Row) {
    exists y :: y in rows && Live(y) && y.userId == r.userId && y.id != r.id
  }

  /** The live row the lookup by user finds is another one than this. */
  predicate HasLiveOther(rows: seq<Row>, userId: Id, id: Id) {
    var active := FindLive(rows, userId);
    active.Some? && active.value.id != id
  }

  /** Two webhooks make a row live without making room for it. A suspension webhook for a row whose
      user has another live row (say a cancelled one's late webhook), and a payment whose "custom"
      user is not the row's user while the row's user has another live row. */
  predicate Safe(rows: seq<Row>, e: Event) {
    match e
    case PayPalSuspended(id, _) =>
      var r := FindById(rows, id);
      r.None? || !HasOtherLive(rows, r.value)
    case PayPalPaid(id, custom, cancelOk, plansOk, _, _, _) =>
      var r := FindById(rows, id);
      r.None? || custom == r.value.userId || !HasOtherLive(rows, r.value)
      || !plansOk || (!cancelOk && HasLiveOther(rows, custom, id))
    case _ => true
  }

  // ------------------------------------------------ writing one row

  lemma {:induction false} FindByIdSound(rows: seq<Row>, id: Id)
    ensures match FindById(rows, id)
            case None => forall r :: r in rows ==> r.id != id
            case Some(r) => r in rows && r.id == id
  {
    if rows != [] { FindByIdSound(rows[1..], id); }
  }

  lemma {:induction false} FindLiveSound(rows: seq<Row>, userId: Id)
    ensures match FindLive(rows, userId)
            case None => forall r :: r in rows ==> !(Live(r) && r.userId == userId)
            case Some(r) => r in rows && Live(r) && r.userId == userId
  {
    if rows != [] { FindLiveSound(rows[1..], userId); }
  }

  lemma WrittenRows(rows: seq<Row>, r: Row)
    ensures forall x :: x in WriteRow(rows, r) ==> x == r || (x in rows && x.id != r.id)
    ensures forall x :: x in rows && x.id != r.id ==> x in WriteRow(rows, r)
    ensures (exists x :: x in rows && x.id == r.id) ==> r in WriteRow(rows, r)
  {
    var w := WriteRow(rows, r);
    forall x | x in w ensures x == r || (x in rows && x.id != r.id) { var i :| 0 <= i < |w| && w[i] == x; }
    forall x | x in rows && x.id != r.id ensures x in w { var i :| 0 <= i < |rows| && rows[i] == x; assert w[i] == x; }
    if x :| x in rows && x.id == r.id { var i :| 0 <= i < |rows| && rows[i] == x; assert w[i] == r; }
  }

  lemma WriteKeepsIds(rows: seq<Row>, r: Row)
    requires DistinctIds(rows)
    ensures DistinctIds(WriteRow(rows, r))
  {
  }

  lemma SameRow(rows: seq<Row>, x: Row, y: Row)
    requires DistinctIds(rows) && x in rows && y in rows && x.id == y.id
    ensures x == y
  {
    var i :| 0 <= i < |rows| && rows[i] == x;
    var j :| 0 <= j < |rows| && rows[j] == y;
  }

  /** Writing a row of the table keeps one live row per user if and only if the row is not live or
      its user has no other live row. */
  lemma WriteKeepsOneLive(rows: seq<Row>, was: Row, r: Row)
    requires OneLive(rows) && was in rows && was.id == r.id && was.userId == r.userId
    ensures OneLive(WriteRow(rows, r)) <==> !Live(r) || !HasOtherLive(rows, r)
  {
    WrittenRows(rows, r);
    hide WriteRow;
    if Live(r) && HasOtherLive(rows, r) {
      var y :| y in rows && Live(y) && y.userId == r.userId && y.id != r.id;
      assert r in WriteRow(rows, r) && y in WriteRow(rows, r);
    }
  }

  /** Cancelling `active` leaves the other users' live rows, and none of its own user's but itself. */
  lemma OthersAfterCancel(rows: seq<Row>, active: Row, processed: Row, now: int)
    requires DistinctIds(rows) && active in rows && Live(active) && active.id != processed.id && OneLive(rows)
    ensures var others := WriteRow(rows, AsCanceled(active, now));
            if active.userId == processed.userId then !HasOtherLive(others, processed)
            else HasOtherLive(others, processed) <==> HasOtherLive(rows, processed)
  {
    var r := AsCanceled(active, now);
    WrittenRows(rows, r);
    hide WriteRow;
    if active.userId != processed.userId && HasOtherLive(rows, processed) {
      var y :| y in rows && Live(y) && y.userId == processed.userId && y.id != processed.id;
      if y.id == active.id { SameRow(rows, y, active); }
    }
  }

  lemma CancelOther(rows: seq<Row>, active: Row, processed: Row, now: int)
    requires DistinctIds(rows) && OneLive(rows) && active in rows && Live(active) && processed in rows
             && active.id != processed.id
    ensures Room(rows, WriteRow(rows, AsCanceled(active, now)), active.userId, processed)
  {
    var r := AsCanceled(active, now);
    WriteKeepsOneLive(rows, active, r);
    WriteKeepsIds(rows, r);
    WrittenRows(rows, r);
    hide WriteRow, OneLive, HasOtherLive, DistinctIds;
    OthersAfterCancel(rows, active, processed, now);
  }

  /** What making room for `processed` leaves. */
  ghost predicate Room(rows: seq<Row>, others: seq<Row>, userId: Id, processed: Row) {
    DistinctIds(others) && OneLive(others) && processed in others &&
    (userId == processed.userId ==> !HasOtherLive(others, processed)) &&
    (userId != processed.userId ==> (HasOtherLive(others, processed) <==> HasOtherLive(rows, processed)))
  }

  lemma NoLiveNoOther(rows: seq<Row>, userId: Id, processed: Row)
    requires OneLive(rows) && DistinctIds(rows) && processed in rows
    requires FindLive(rows, userId).None? || FindLive(rows, userId).value.id == processed.id
    ensures Room(rows, rows, userId, processed)
  {
    FindLiveSound(rows, userId);
    hide FindLive, DistinctIds;
  }

  /** `handleActiveSubscription` leaves the user no other live row than the processed one. */
  lemma HandleActiveMakesRoom(rows: seq<Row>, userId: Id, processed: Row, cancelOk: bool, now: int)
    requires DistinctIds(rows) && OneLive(rows) && processed in rows
    ensures var h := HandleActive(rows, userId, processed.id, cancelOk, now);
            h.Done? ==> Room(rows, h.rows, userId, processed)
  {
    hide OneLive, DistinctIds, Room, WriteRow, FindLive;
    FindLiveSound(rows, userId);
    var active := FindLive(rows, userId);
    if active.None? || active.value.id == processed.id { NoLiveNoOther(rows, userId, processed); }
    else { CancelOther(rows, active.value, processed, now); }
  }

  // ------------------------------------------------ steps and runs

  lemma HandleKeeps(rows: seq<Row>, r: Row, e: Event)
    requires DistinctIds(rows) && OneLive(rows) && r in rows && FindById(rows, r.id) == Some(r)
    requires !e.Created? && !e.SwitchAutoRenewal? && !e.NightlyPass? && e.id == r.id
    ensures DistinctIds(Handle(rows, r, e))
    ensures OneLive(Handle(rows, r, e)) <==> Safe(rows, e)
  {
    hide OneLive, DistinctIds, HandleActive, WriteRow, HasOtherLive, FindById;
    match e
    case PayPalActivated(_, cancelOk, now) =>
      HandleActiveMakesRoom(rows, r.userId, r, cancelOk, now);
      if r.status == Pending {
        var h := HandleActive(rows, r.userId, r.id, cancelOk, now);
        if h.Done? {
          Written(h.rows, r, Replacing(r, h.replaced, now));
        }
      } else if r.status == Suspended {
        LiveIsAlone(rows, r);
        Written(rows, r, Activate(r, None, None, now));
      }
    case PayPalSuspended(_, now) =>
      if Live(r) { LiveIsAlone(rows, r); }
      Written(rows, r, Suspend(r, now));
    case SubscriptionCancelled(_, now) => Written(rows, r, AsCanceled(r, now));
    case PayPalPaid(_, custom, cancelOk, plansOk, paidAt, endDate, now) =>
      HandleActiveMakesRoom(rows, custom, r, cancelOk, now);
      ThrewIff(rows, custom, r.id, cancelOk, now);
      var h := HandleActive(rows, custom, r.id, cancelOk, now);
      if h.Done? { Written(h.rows, r, Update(r, paidAt, endDate, Active, now)); }
    case PayPalPaymentFailed(_, paidAt, now) => Written(rows, r, Update(r, paidAt, r.endDate, Canceled, now));
    case StripeCheckoutCompleted(_, subId, cancelOk, now) =>
      HandleActiveMakesRoom(rows, r.userId, r, cancelOk, now);
      var h := HandleActive(rows, r.userId, r.id, cancelOk, now);
      if h.Done? { Written(h.rows, r, r.(updatedAt := Some(now), subId := subId, status := Active)); }
    case StripeInvoice(_, paidAt, endDate) =>
      if Live(r) { LiveIsAlone(rows, r); }
      Written(rows, r, r.(paidAt := paidAt, endDate := endDate));
  }

  lemma ThrewIff(rows: seq<Row>, userId: Id, id: Id, cancelOk: bool, now: int)
    ensures HandleActive(rows, userId, id, cancelOk, now).Threw? <==> !cancelOk && HasLiveOther(rows, userId, id)
  {
  }

  lemma LiveIsAlone(rows: seq<Row>, r: Row)
    requires OneLive(rows) && r in rows && Live(r)
    ensures !HasOtherLive(rows, r)
  {
  }

  lemma Written(rows: seq<Row>, was: Row, r: Row)
    requires DistinctIds(rows) && OneLive(rows) && was in rows && was.id == r.id && was.userId == r.userId
    ensures DistinctIds(WriteRow(rows, r)) && (OneLive(WriteRow(rows, r)) <==> !Live(r) || !HasOtherLive(rows, was))
  {
    WriteKeepsIds(rows, r);
    WriteKeepsOneLive(rows, was, r);
    hide OneLive, DistinctIds, WriteRow;
  }

  lemma PassKeeps(rows: seq<Row>, now: int, payPalOk: bool)
    requires DistinctIds(rows) && OneLive(rows)
    ensures DistinctIds(CancelPass(rows, now, payPalOk).rows) && OneLive(CancelPass(rows, now, payPalOk).rows)
  {
    hide Filter, PSTHour, AskPayPal;
    var after := CancelPass(rows, now, payPalOk).rows;
    assert |after| == |rows|;
    forall i | 0 <= i < |rows|
      ensures after[i].id == rows[i].id && after[i].userId == rows[i].userId && (Live(after[i]) ==> after[i] == rows[i])
    {
      assert after[i] == rows[i] || after[i] == Settle(rows[i], now);
    }
    hide CancelPass;
    forall x, y | x in after && y in after && Live(x) && Live(y) && x.userId == y.userId ensures x.id == y.id {
      var i :| 0 <= i < |after| && after[i] == x;
      var j :| 0 <= j < |after| && after[j] == y;
      assert x in rows && y in rows;
    }
  }

  lemma CreateKeeps(rows: seq<Row>, r: Row)
    requires DistinctIds(rows) && OneLive(rows) && FindById(rows, r.id).None? && !Live(r)
    ensures DistinctIds(rows + [r]) && OneLive(rows + [r])
  {
    FindByIdSound(rows, r.id);
    hide FindById;
    forall i | 0 <= i < |rows| ensures rows[i].id != r.id { assert rows[i] in rows; }
  }

  /** One step keeps at most one live row per user if and only if it is safe. */
  lemma StepKeepsOneLiveIffSafe(rows: seq<Row>, e: Event)
    requires DistinctIds(rows) && OneLive(rows)
    ensures DistinctIds(Step(rows, e))
    ensures OneLive(Step(rows, e)) <==> Safe(rows, e)
  {
    hide OneLive, DistinctIds, HandleActive, WriteRow, HasOtherLive, FindById, Handle, CancelPass;
    match e
    case Created(id, userId, system, subId) =>
      if FindById(rows, id).None? {
        CreateKeeps(rows, Row(id, userId, system, subId, Pending, true, None, None, None));
      }
    case SwitchAutoRenewal(userId, on, providerOk, now) =>
      FindLiveSound(rows, userId);
      var r := FindLive(rows, userId);
      if r.Some? {
        LiveIsAlone(rows, r.value);
        Written(rows, r.value, Switch(r.value, on, now));
      }
    case NightlyPass(now, payPalOk) => PassKeeps(rows, now, payPalOk);
    case _ =>
      FindByIdSound(rows, e.id);
      var r := FindById(rows, e.id);
      if r.Some? { HandleKeeps(rows, r.value, e); } else { NotFoundIsSafe(rows, e); }
  }

  lemma NotFoundIsSafe(rows: seq<Row>, e: Event)
    requires !e.Created? && !e.SwitchAutoRenewal? && !e.NightlyPass? && FindById(rows, e.id).None?
    ensures Safe(rows, e)
  {
  }

  lemma OnlyLive(rows: seq<Row>, r: Row)
    requires DistinctIds(rows) && OneLive(rows) && r in rows && Live(r)
    ensures FindLive(rows, r.userId) == Some(r)
  {
    FindLiveSound(rows, r.userId);
    SameRow(rows, r, FindLive(rows, r.userId).value);
  }

  /** Activating a pending subscription in place of another live one hands its paid period over: the
      user's live row is now the activated one, with the dates of the one replaced. */
  lemma ActivationKeepsThePeriod(rows: seq<Row>, r: Row, active: Row, now: int)
    requires DistinctIds(rows) && OneLive(rows) && r in rows && FindById(rows, r.id) == Some(r) && r.status == Pending
    requires FindLive(rows, r.userId) == Some(active)
    ensures var t := FindLive(Step(rows, PayPalActivated(r.id, true, now)), r.userId);
            t.Some? && t.value.id == r.id && t.value.status == Active && t.value.autoRenewal &&
            t.value.paidAt == (if active.paidAt.Some? then active.paidAt else r.paidAt) &&
            t.value.endDate == (if active.endDate.Some? then active.endDate else r.endDate)
  {
    FindLiveSound(rows, r.userId);
    SwitchTo(rows, r, active, now);
  }

  lemma SwitchTo(rows: seq<Row>, r: Row, active: Row, now: int)
    requires DistinctIds(rows) && OneLive(rows) && r in rows && FindById(rows, r.id) == Some(r) && r.status == Pending
    requires FindLive(rows, r.userId) == Some(active) && active in rows && Live(active) && active.userId == r.userId
    ensures FindLive(Step(rows, PayPalActivated(r.id, true, now)), r.userId)
         == Some(Activate(r, active.paidAt, active.endDate, now))
  {
    hide OneLive, DistinctIds, WriteRow, FindLive, FindById;
    if active.id == r.id { SameRow(rows, active, r); }
    var e := PayPalActivated(r.id, true, now);
    var others := WriteRow(rows, AsCanceled(active, now));
    var a := Activate(r, active.paidAt, active.endDate, now);
    HandleActiveMakesRoom(rows, r.userId, r, true, now);
    assert Step(rows, e) == WriteRow(others, a);
    Written(others, r, a);
    WrittenRows(others, a);
    OnlyLive(WriteRow(others, a), a);
  }

  ghost predicate AllSafe(events: seq<Event>) {
    forall k :: 0 <= k < |events| ==> Safe(Run(events[..k]), events[k])
  }

  lemma AllSafeInit(events: seq<Event>)
    requires events != [] && AllSafe(events)
    ensures AllSafe(events[..|events| - 1]) && Safe(Run(events[..|events| - 1]), events[|events| - 1])
  {
    var before := events[..|events| - 1];
    forall k | 0 <= k < |before| ensures Safe(Run(before[..k]), before[k]) { assert before[..k] == events[..k]; }
  }

  /** In every run of safe steps no user ever has two live subscriptions. */
  lemma {:induction false} RunKeepsOneLive(events: seq<Event>)
    requires AllSafe(events)
    ensures DistinctIds(Run(events)) && OneLive(Run(events))
    decreases |events|
  {
    if events != [] {
      hide AllSafe, OneLive, DistinctIds, Safe, Step;
      AllSafeInit(events);
      RunKeepsOneLive(events[..|events| - 1]);
      StepKeepsOneLiveIffSafe(Run(events[..|events| - 1]), events[|events| - 1]);
    }
  }

  // ------------------------------------------------ runs that are not safe

  /** A PayPal subscription of user "u" without dates. */
  function Plain(id: Id, status: Status, autoRenewal: bool, updatedAt: Option<int>): Row {
    Row(id, "u", PAYPAL, Some(id), status, autoRenewal, updatedAt, None, None)
  }

  lemma RunSnoc(events: seq<Event>, e: Event)
    ensures Run(events + [e]) == Step(Run(events), e)
  {
    hide Step;
    assert (events + [e])[..|events|] == events;
  }

  lemma LookUpTwo(a: Row, b: Row)
    requires a.id != b.id
    ensures FindById([a, b], a.id) == Some(a) && FindById([a, b], b.id) == Some(b)
    ensures forall u :: FindLive([a, b], u)
                     == if Live(a) && a.userId == u then Some(a) else if Live(b) && b.userId == u then Some(b) else None
  {
    assert [a, b][1..] == [b] && [b][1..] == [];
    assert FindById([b], b.id) == Some(b);
    assert forall u :: FindLive([b], u) == if Live(b) && b.userId == u then Some(b) else None;
  }

  lemma WriteTwo(a: Row, b: Row, r: Row)
    ensures WriteRow([a, b], r) == [if r.id == a.id then r else a, if r.id == b.id then r else b]
  {
  }

  lemma LookUpOne(a: Row)
    ensures forall i :: FindById([a], i) == if a.id == i then Some(a) else None
    ensures forall u :: FindLive([a], u) == if Live(a) && a.userId == u then Some(a) else None
    ensures forall r: Row :: r.id == a.id ==> WriteRow([a], r) == [r]
  {
    assert [a][1..] == [];
    forall r: Row | r.id == a.id ensures WriteRow([a], r) == [r] {}
  }

  lemma TwoLive(a: Row, b: Row)
    requires Live(a) && Live(b) && a.userId == b.userId && a.id != b.id
    ensures !OneLive([a, b])
  {
    assert a in [a, b] && b in [a, b];
  }

  lemma FirstActivated(a: Row, now: int)
    requires a.status == Pending
    ensures Step([a], PayPalActivated(a.id, true, now)) == [Activate(a, None, None, now)]
  {
    LookUpOne(a);
    hide FindById, FindLive, WriteRow;
  }

  lemma SecondCreated(a: Row, b: Row)
    requires a.id != b.id && b == Row(b.id, b.userId, b.system, b.subId, Pending, true, None, None, None)
    ensures Step([a], Created(b.id, b.userId, b.system, b.subId)) == [a, b]
  {
    LookUpOne(a);
    hide FindById;
  }

  lemma SecondActivated(a: Row, b: Row, now: int)
    requires a.id != b.id && a.userId == b.userId && a.status == Active && b.status == Pending
    requires a.paidAt.None? && a.endDate.None?
    ensures Step([a, b], PayPalActivated(b.id, true, now)) == [AsCanceled(a, now), Activate(b, None, None, now)]
  {
    LookUpTwo(a, b);
    WriteTwo(a, b, AsCanceled(a, now));
    WriteTwo(AsCanceled(a, now), b, Activate(b, None, None, now));
    hide FindById, FindLive, WriteRow;
  }

  /** One subscription activated, then a second one of the same user in its place. */
  function Replaced(): seq<Event> {
    [Created("a", "u", PAYPAL, Some("a")), PayPalActivated("a", true, 1), Created("b", "u", PAYPAL, Some("b"))]
    + [PayPalActivated("b", true, 2)]
  }

  lemma RunReplaced()
    ensures Run(Replaced()) == [Plain("a", Canceled, false, Some(2)), Plain("b", Active, true, Some(2))]
  {
    var e1, e2, e3 := Created("a", "u", PAYPAL, Some("a")), PayPalActivated("a", true, 1),
      Created("b", "u", PAYPAL, Some("b"));
    var a0, a1, b0 := Plain("a", Pending, true, None), Plain("a", Active, true, Some(1)),
      Plain("b", Pending, true, None);
    assert "a"[0] != "b"[0];
    assert Replaced() == [e1, e2, e3] + [PayPalActivated("b", true, 2)];
    assert Run([]) == [] && Step([], e1) == [a0];
    assert Activate(a0, None, None, 1) == a1;
    FirstActivated(a0, 1);
    SecondCreated(a1, b0);
    SecondActivated(a1, b0, 2);
    hide Run, Step, Replaced;
    RunSnoc([], e1);
    RunSnoc([e1], e2);
    RunSnoc([e1, e2], e3);
    RunSnoc([e1, e2, e3], PayPalActivated("b", true, 2));
    assert [] + [e1] == [e1] && [e1] + [e2] == [e1, e2] && [e1, e2] + [e3] == [e1, e2, e3];
  }

  lemma SuspendFirst(a: Row, b: Row, now: int)
    requires a.id != b.id && a.status == Canceled
    ensures Step([a, b], PayPalSuspended(a.id, now)) == [Suspend(a, now), b]
  {
    LookUpTwo(a, b);
    WriteTwo(a, b, Suspend(a, now));
    hide FindById, WriteRow;
  }

  lemma PayFirst(a: Row, b: Row, custom: Id, paidAt: Option<int>, endDate: Option<int>, now: int)
    requires a.id != b.id && a.userId != custom && b.userId != custom
    ensures Step([a, b], PayPalPaid(a.id, custom, true, true, paidAt, endDate, now))
            == [Update(a, paidAt, endDate, Active, now), b]
  {
    LookUpTwo(a, b);
    WriteTwo(a, b, Update(a, paidAt, endDate, Active, now));
    hide FindById, FindLive, WriteRow;
  }

  /** The cancelled subscription's late suspension webhook makes it live beside the new one. */
  lemma LateSuspensionRun()
    ensures !OneLive(Run(Replaced() + [PayPalSuspended("a", 3)]))
  {
    hide Run, Step, Replaced, OneLive;
    var a, b := Plain("a", Canceled, false, Some(2)), Plain("b", Active, true, Some(2));
    assert "a"[0] != "b"[0];
    RunReplaced();
    RunSnoc(Replaced(), PayPalSuspended("a", 3));
    SuspendFirst(a, b, 3);
    TwoLive(Suspend(a, 3), b);
  }

  /** So does a payment of the cancelled subscription that names another user. */
  lemma ForeignPaymentRun(paidAt: Option<int>, endDate: Option<int>)
    ensures !OneLive(Run(Replaced() + [PayPalPaid("a", "v", true, true, paidAt, endDate, 3)]))
  {
    hide Run, Step, Replaced, OneLive;
    var a, b := Plain("a", Canceled, false, Some(2)), Plain("b", Active, true, Some(2));
    assert "a"[0] != "b"[0] && "u"[0] != "v"[0];
    RunReplaced();
    RunSnoc(Replaced(), PayPalPaid("a", "v", true, true, paidAt, endDate, 3));
    PayFirst(a, b, "v", paidAt, endDate, 3);
    TwoLive(Update(a, paidAt, endDate, Active, 3), b);
  }
}
