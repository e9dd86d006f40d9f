/** What each webhook, the renewal switch and a new subscription make of the table, by columns. */
module SubscriptionOutcomes {
  import opened Tables
  import opened Subscriptions
  import opened LiveSubscriptions

  // ------------------------------------------------ reading and writing rows

  predicate IsLiveOf(r: Row, userId: Id) { r.userId == userId && (r.status == Active || r.status == Suspended) }

  /** The first live row of the user, in table order. */
  predicate FirstLive(rows: seq<Row>, userId: Id, y: Row) {
    exists i :: 0 <= i < |rows| && rows[i] == y && IsLiveOf(y, userId)
                && forall j :: 0 <= j < i ==> !IsLiveOf(rows[j], userId)
  }

  /** The first live row of the user is another one than this. */
  predicate FirstOther(rows: seq<Row>, userId: Id, id: Id, y: Row) { FirstLive(rows, userId, y) && y.id != id }

  ghost predicate NoOther(rows: seq<Row>, userId: Id, id: Id) { forall y :: FirstLive(rows, userId, y) ==> y.id == id }

  lemma {:induction false} FindLiveIs(rows: seq<Row>, userId: Id, y: Row)
    ensures FindLive(rows, userId) == Some(y) <==> FirstLive(rows, userId, y)
  {
    if rows != [] {
      FindLiveIs(rows[1..], userId, y);
      if IsLiveOf(rows[0], userId) {
        HeadIsFirst(rows, userId, y);
      } else {
        SkipHead(rows, userId, y);
      }
      hide FirstLive;
    }
  }

  lemma HeadIsFirst(rows: seq<Row>, userId: Id, y: Row)
    requires rows != [] && IsLiveOf(rows[0], userId)
    ensures FirstLive(rows, userId, y) <==> y == rows[0]
  {
  }

  lemma SkipHead(rows: seq<Row>, userId: Id, y: Row)
    requires rows != [] && !IsLiveOf(rows[0], userId)
    ensures FirstLive(rows, userId, y) <==> FirstLive(rows[1..], userId, y)
  {
    var rest := rows[1..];
    if FirstLive(rows, userId, y) {
      var i :| 0 <= i < |rows| && rows[i] == y && IsLiveOf(y, userId) && forall j :: 0 <= j < i ==>
          !IsLiveOf(rows[j], userId);
      assert rest[i - 1] == y;
    }
    if FirstLive(rest, userId, y) {
      var i :| 0 <= i < |rest| && rest[i] == y && IsLiveOf(y, userId) && forall j :: 0 <= j < i ==>
          !IsLiveOf(rest[j], userId);
      assert rows[i + 1] == y;
      forall j | 0 <= j < i + 1 ensures !IsLiveOf(rows[j], userId) { if j > 0 { assert rows[j] == rest[j - 1]; } }
    }
  }

  /** Only `r` changed, to `w`. */
  ghost predicate OnlyBecame(rows: seq<Row>, t: seq<Row>, r: Row, w: Row) {
    |t| == |rows| && forall i :: 0 <= i < |rows| ==> t[i] == if rows[i] == r then w else rows[i]
  }

  /** Only `r` and `y` changed, to `w` and `z`. */
  ghost predicate BothBecame(rows: seq<Row>, t: seq<Row>, r: Row, w: Row, y: Row, z: Row) {
    |t| == |rows| && forall i :: 0 <= i < |rows| ==>
        t[i] == if rows[i] == r then w else if rows[i] == y then z else rows[i]
  }

  lemma FoundIs(rows: seq<Row>, r: Row)
    requires DistinctIds(rows) && r in rows
    ensures FindById(rows, r.id) == Some(r)
  {
    FindByIdSound(rows, r.id);
    SameRow(rows, r, FindById(rows, r.id).value);
  }

  lemma Wrote(rows: seq<Row>, r: Row, w: Row)
    requires DistinctIds(rows) && r in rows && w.id == r.id
    ensures OnlyBecame(rows, WriteRow(rows, w), r, w)
  {
    forall i | 0 <= i < |rows| ensures rows[i].id == w.id <==> rows[i] == r {
      if rows[i].id == w.id { SameRow(rows, rows[i], r); }
    }
  }

  lemma WroteBoth(rows: seq<Row>, r: Row, w: Row, y: Row, z: Row)
    requires DistinctIds(rows) && r in rows && w.id == r.id && y in rows && z.id == y.id && r.id != y.id
    ensures BothBecame(rows, WriteRow(WriteRow(rows, z), w), r, w, y, z)
  {
    forall i | 0 <= i < |rows|
      ensures (rows[i].id == w.id <==> rows[i] == r) && (rows[i].id == z.id <==> rows[i] == y)
    {
      if rows[i].id == w.id { SameRow(rows, rows[i], r); }
      if rows[i].id == z.id { SameRow(rows, rows[i], y); }
    }
  }

  lemma FirstLiveIn(rows: seq<Row>, userId: Id, y: Row)
    requires FirstLive(rows, userId, y)
    ensures y in rows && IsLiveOf(y, userId)
  {
  }

  lemma {:induction false} LookUp(rows: seq<Row>, userId: Id)
    ensures FindLive(rows, userId).Some? ==> FirstLive(rows, userId, FindLive(rows, userId).value)
    ensures forall y :: FirstLive(rows, userId, y) ==> FindLive(rows, userId) == Some(y)
  {
    hide FindLive, FirstLive;
    forall y ensures FindLive(rows, userId) == Some(y) <==> FirstLive(rows, userId, y) { FindLiveIs(rows, userId, y); }
  }

  // ------------------------------------------------ columns after a change

  /** The subscription with these columns, updated at `at`. */
  function Now(r: Row, status: Status, autoRenewal: bool, paidAt: Option<int>, endDate: Option<int>, at: int): Row {
    Row(r.id, r.userId, r.system, r.subId, status, autoRenewal, Some(at), paidAt, endDate)
  }

  function Or(a: Option<int>, b: Option<int>): Option<int> { if a == None then b else a }

  // ------------------------------------------------ events about one row

  /** A new subscription waits for its provider; a taken id stores nothing. */
  lemma CreationOutcome(rows: seq<Row>, id: Id, userId: Id, system: System, subId: Option<Id>)
    ensures var t := Step(rows, Created(id, userId, system, subId));
            t == if exists r :: r in rows && r.id == id then rows
                 else rows + [Row(id, userId, system, subId, Pending, true, None, None, None)]
  {
    FindByIdSound(rows, id);
    hide FindById;
  }

  /** A webhook about an unknown subscription stores nothing. */
  lemma UnknownOutcome(rows: seq<Row>, e: Event)
    requires !e.Created? && !e.SwitchAutoRenewal? && !e.NightlyPass? && forall r :: r in rows ==> r.id != e.id
    ensures Step(rows, e) == rows
  {
    FindByIdSound(rows, e.id);
    hide FindById, Handle;
  }

  /** PayPal's suspension suspends a subscription of any status and turns its renewal off. */
  lemma SuspensionOutcome(rows: seq<Row>, r: Row, now: int)
    requires DistinctIds(rows) && r in rows
    ensures var t := Step(rows, PayPalSuspended(r.id, now));
            if r.status == Suspended && !r.autoRenewal then t == rows
            else OnlyBecame(rows, t, r, Now(r, Suspended, false, r.paidAt, r.endDate, now))
  {
    FoundIs(rows, r);
    Wrote(rows, r, Now(r, Suspended, false, r.paidAt, r.endDate, now));
    hide WriteRow, FindById, DistinctIds, OnlyBecame;
  }

  /** A cancellation cancels a subscription of any other status and turns its renewal off. */
  lemma CancellationOutcome(rows: seq<Row>, r: Row, now: int)
    requires DistinctIds(rows) && r in rows
    ensures var t := Step(rows, SubscriptionCancelled(r.id, now));
            if r.status == Canceled then t == rows
            else OnlyBecame(rows, t, r, Now(r, Canceled, false, r.paidAt, r.endDate, now))
  {
    FoundIs(rows, r);
    Wrote(rows, r, Now(r, Canceled, false, r.paidAt, r.endDate, now));
    hide WriteRow, FindById, DistinctIds, OnlyBecame;
  }

  /** A failed payment cancels the subscription, keeps its end and leaves its renewal on. */
  lemma FailedPaymentOutcome(rows: seq<Row>, r: Row, paidAt: Option<int>, now: int)
    requires DistinctIds(rows) && r in rows
    ensures OnlyBecame(rows, Step(rows, PayPalPaymentFailed(r.id, paidAt, now)), r,
                       Now(r, Canceled, true, Or(paidAt, r.paidAt), r.endDate, now))
  {
    FoundIs(rows, r);
    Wrote(rows, r, Now(r, Canceled, true, Or(paidAt, r.paidAt), r.endDate, now));
    hide WriteRow, FindById, DistinctIds, OnlyBecame;
  }

  /** Stripe's invoice sets the paid period and nothing else. */
  lemma InvoiceOutcome(rows: seq<Row>, r: Row, paidAt: Option<int>, endDate: Option<int>)
    requires DistinctIds(rows) && r in rows
    ensures OnlyBecame(rows, Step(rows, StripeInvoice(r.id, paidAt, endDate)), r,
                       Row(r.id, r.userId, r.system, r.subId, r.status, r.autoRenewal, r.updatedAt, paidAt, endDate))
  {
    FoundIs(rows, r);
    Wrote(rows, r, r.(paidAt := paidAt, endDate := endDate));
    hide WriteRow, FindById, DistinctIds, OnlyBecame;
  }

  /** The switch changes the renewal of the user's first live subscription, if the provider accepts: at PayPal
      on makes it active and off suspends it, at Stripe its status stays. */
  lemma SwitchOutcome(rows: seq<Row>, userId: Id, on: bool, providerOk: bool, now: int, r: Row)
    requires DistinctIds(rows) && FirstLive(rows, userId, r)
    ensures var t := Step(rows, SwitchAutoRenewal(userId, on, providerOk, now));
            if r.autoRenewal == on || !providerOk then t == rows
            else
              var status := if r.system == STRIPE then r.status else if on then Active else Suspended;
              OnlyBecame(rows, t, r, Now(r, status, on, r.paidAt, r.endDate, now))
  {
    FindLiveIs(rows, userId, r);
    FirstLiveIn(rows, userId, r);
    var status := if r.system == STRIPE then r.status else if on then Active else Suspended;
    Wrote(rows, r, Now(r, status, on, r.paidAt, r.endDate, now));
    hide WriteRow, FindLive, FirstLive, DistinctIds, OnlyBecame;
  }

  lemma SwitchNobody(rows: seq<Row>, userId: Id, on: bool, providerOk: bool, now: int)
    requires forall r :: r in rows ==> !IsLiveOf(r, userId)
    ensures Step(rows, SwitchAutoRenewal(userId, on, providerOk, now)) == rows
  {
    FindLiveSound(rows, userId);
    hide FindLive;
  }

  // ------------------------------------------------ events that make room

  lemma NoRoomNeeded(rows: seq<Row>, userId: Id, id: Id, cancelOk: bool, now: int)
    requires NoOther(rows, userId, id)
    ensures HandleActive(rows, userId, id, cancelOk, now) == Done(rows, None)
  {
    LookUp(rows, userId);
    hide FindLive, FirstLive, WriteRow;
  }

  lemma RoomMade(rows: seq<Row>, userId: Id, id: Id, cancelOk: bool, now: int, y: Row)
    requires FirstOther(rows, userId, id, y)
    ensures HandleActive(rows, userId, id, cancelOk, now)
         == if cancelOk then Done(WriteRow(rows, Now(y, Canceled, false, y.paidAt, y.endDate, now)), Some(y)) else Threw
  {
    LookUp(rows, userId);
    hide FindLive, FirstLive, WriteRow;
  }

  lemma OtherIn(rows: seq<Row>, userId: Id, id: Id, y: Row)
    requires FirstOther(rows, userId, id, y)
    ensures y in rows && y.id != id
  {
  }

  /** An activation of a pending subscription makes it active and renewing. */
  lemma ActivationAlone(rows: seq<Row>, r: Row, cancelOk: bool, now: int)
    requires DistinctIds(rows) && r in rows && r.status == Pending && NoOther(rows, r.userId, r.id)
    ensures OnlyBecame(rows, Step(rows, PayPalActivated(r.id, cancelOk, now)), r,
                       Now(r, Active, true, r.paidAt, r.endDate, now))
  {
    FoundIs(rows, r);
    NoRoomNeeded(rows, r.userId, r.id, cancelOk, now);
    hide WriteRow, FindById, DistinctIds, OnlyBecame, HandleActive, FirstOther, NoOther;
    Wrote(rows, r, Now(r, Active, true, r.paidAt, r.endDate, now));
  }

  /** The user's other live subscription is cancelled first and hands its dates over; if the provider refuses
      that, nothing is stored. */
  lemma ActivationInPlaceOf(rows: seq<Row>, r: Row, y: Row, cancelOk: bool, now: int)
    requires DistinctIds(rows) && r in rows && r.status == Pending && FirstOther(rows, r.userId, r.id, y)
    ensures var t := Step(rows, PayPalActivated(r.id, cancelOk, now));
            if !cancelOk then t == rows
            else BothBecame(rows, t, r, Now(r, Active, true, Or(y.paidAt, r.paidAt), Or(y.endDate, r.endDate), now),
                            y, Now(y, Canceled, false, y.paidAt, y.endDate, now))
  {
    FoundIs(rows, r);
    OtherIn(rows, r.userId, r.id, y);
    RoomMade(rows, r.userId, r.id, cancelOk, now, y);
    hide WriteRow, FindById, DistinctIds, BothBecame, HandleActive, FirstOther, NoOther;
    var w := Now(r, Active, true, Or(y.paidAt, r.paidAt), Or(y.endDate, r.endDate), now);
    WroteBoth(rows, r, w, y, Now(y, Canceled, false, y.paidAt, y.endDate, now));
  }

  /** A suspended subscription is made active and renewing again; one that is active or cancelled stays. */
  lemma ReactivationOutcome(rows: seq<Row>, r: Row, cancelOk: bool, now: int)
    requires DistinctIds(rows) && r in rows && r.status != Pending
    ensures var t := Step(rows, PayPalActivated(r.id, cancelOk, now));
            if r.status == Suspended then OnlyBecame(rows, t, r, Now(r, Active, true, r.paidAt, r.endDate, now))
            else t == rows
  {
    FoundIs(rows, r);
    Wrote(rows, r, Now(r, Active, true, r.paidAt, r.endDate, now));
    hide WriteRow, FindById, DistinctIds, OnlyBecame, HandleActive;
  }

  /** A payment makes the subscription active and renewing with the new period; an unknown plan stores nothing. */
  lemma PaymentAlone(rows: seq<Row>, r: Row, custom: Id, cancelOk: bool, plansOk: bool, paidAt: Option<int>,
      endDate: Option<int>, now: int)
    requires DistinctIds(rows) && r in rows && NoOther(rows, custom, r.id)
    ensures var t := Step(rows, PayPalPaid(r.id, custom, cancelOk, plansOk, paidAt, endDate, now));
            if plansOk then OnlyBecame(rows, t, r,
              Paid(r, paidAt, endDate, now))
            else t == rows
  {
    FoundIs(rows, r);
    NoRoomNeeded(rows, custom, r.id, cancelOk, now);
    hide WriteRow, FindById, DistinctIds, OnlyBecame, HandleActive, FirstOther, NoOther;
    Wrote(rows, r, Paid(r, paidAt, endDate, now));
  }

  function Paid(r: Row, paidAt: Option<int>, endDate: Option<int>, now: int): Row {
    Now(r, Active, true, Or(paidAt, r.paidAt), Or(endDate, r.endDate), now)
  }

  lemma PaidIs(r: Row, paidAt: Option<int>, endDate: Option<int>, now: int)
    ensures Update(r, paidAt, endDate, Active, now) == Paid(r, paidAt, endDate, now)
  {
  }

  lemma PaymentSteps(rows: seq<Row>, r: Row, custom: Id, cancelOk: bool, plansOk: bool, paidAt: Option<int>,
      endDate: Option<int>, now: int)
    requires FindById(rows, r.id) == Some(r)
    ensures var t, h := Step(rows, PayPalPaid(r.id, custom, cancelOk, plansOk, paidAt, endDate, now)),
                        HandleActive(rows, custom, r.id, cancelOk, now);
            t == if h.Threw? then rows
                 else if plansOk then WriteRow(h.rows, Update(r, paidAt, endDate, Active, now)) else h.rows
  {
    hide WriteRow, FindById, HandleActive, Update;
  }

  /** The other live subscription of the user the payment names is cancelled first; an unknown plan leaves that
      cancellation alone. */
  lemma PaymentInPlaceOf(rows: seq<Row>, r: Row, y: Row, custom: Id, cancelOk: bool, plansOk: bool, paidAt: Option<int>,
      endDate: Option<int>, now: int)
    requires DistinctIds(rows) && r in rows && FirstOther(rows, custom, r.id, y)
    ensures var t := Step(rows, PayPalPaid(r.id, custom, cancelOk, plansOk, paidAt, endDate, now));
            var gone := Now(y, Canceled, false, y.paidAt, y.endDate, now);
            if !cancelOk then t == rows
            else if !plansOk then OnlyBecame(rows, t, y, gone)
            else BothBecame(rows, t, r, Paid(r, paidAt, endDate, now), y, gone)
  {
    var gone := Now(y, Canceled, false, y.paidAt, y.endDate, now);
    assert gone.id == y.id && Paid(r, paidAt, endDate, now).id == r.id;
    hide *;
    FoundIs(rows, r);
    OtherIn(rows, custom, r.id, y);
    RoomMade(rows, custom, r.id, cancelOk, now, y);
    PaymentSteps(rows, r, custom, cancelOk, plansOk, paidAt, endDate, now);
    PaidIs(r, paidAt, endDate, now);
    Wrote(rows, y, gone);
    WroteBoth(rows, r, Paid(r, paidAt, endDate, now), y, gone);
  }

  function CheckedOut(r: Row, subId: Option<Id>, now: int): Row {
    Row(r.id, r.userId, r.system, subId, Active, r.autoRenewal, Some(now), r.paidAt, r.endDate)
  }

  lemma CheckoutSteps(rows: seq<Row>, r: Row, subId: Option<Id>, cancelOk: bool, now: int)
    requires FindById(rows, r.id) == Some(r)
    ensures var t, h := Step(rows, StripeCheckoutCompleted(r.id, subId, cancelOk, now)),
                        HandleActive(rows, r.userId, r.id, cancelOk, now);
            t == if h.Threw? then rows else WriteRow(h.rows, CheckedOut(r, subId, now))
  {
    hide WriteRow, FindById, HandleActive;
  }

  /** Stripe's checkout makes the subscription active with the provider's id; its renewal and dates stay. */
  lemma CheckoutAlone(rows: seq<Row>, r: Row, subId: Option<Id>, cancelOk: bool, now: int)
    requires DistinctIds(rows) && r in rows && NoOther(rows, r.userId, r.id)
    ensures OnlyBecame(rows, Step(rows, StripeCheckoutCompleted(r.id, subId, cancelOk, now)), r,
            CheckedOut(r, subId, now))
  {
    FoundIs(rows, r);
    NoRoomNeeded(rows, r.userId, r.id, cancelOk, now);
    hide WriteRow, FindById, DistinctIds, OnlyBecame, HandleActive, FirstOther, NoOther;
    Wrote(rows, r, CheckedOut(r, subId, now));
  }

  /** The user's other live subscription is cancelled first; if the provider refuses, nothing is stored. */
  lemma CheckoutInPlaceOf(rows: seq<Row>, r: Row, y: Row, subId: Option<Id>, cancelOk: bool, now: int)
    requires DistinctIds(rows) && r in rows && FirstOther(rows, r.userId, r.id, y)
    ensures var t := Step(rows, StripeCheckoutCompleted(r.id, subId, cancelOk, now));
            if !cancelOk then t == rows
            else BothBecame(rows, t, r, CheckedOut(r, subId, now), y, Now(y, Canceled, false, y.paidAt, y.endDate, now))
  {
    var gone := Now(y, Canceled, false, y.paidAt, y.endDate, now);
    assert gone.id == y.id && CheckedOut(r, subId, now).id == r.id;
    hide *;
    FoundIs(rows, r);
    OtherIn(rows, r.userId, r.id, y);
    RoomMade(rows, r.userId, r.id, cancelOk, now, y);
    CheckoutSteps(rows, r, subId, cancelOk, now);
    WroteBoth(rows, r, CheckedOut(r, subId, now), y, gone);
  }
}
