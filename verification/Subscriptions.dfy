/** The subscription table, the entity the payments service mutates, and its nightly cancel pass. */
module Subscriptions {
  import opened Tables
  import opened JsDate

  datatype Status = Active | Canceled | Suspended | Pending
  datatype System = PAYPAL | STRIPE

  datatype Row = Row(id: Id, userId: Id, system: System, subId: Option<Id>, status: Status, autoRenewal: bool,
                     updatedAt: Option<int>, paidAt: Option<int>, endDate: Option<int>)

  predicate Live(r: Row) { r.status == Active || r.status == Suspended }

  ghost predicate DistinctIds(rows: seq<Row>) {
    forall i, j :: 0 <= i < j < |rows| ==> rows[i].id != rows[j].id
  }

  // ------------------------------------------------ what cancelling does to a row

  function AsCanceled(r: Row, now: int): Row { r.(updatedAt := Some(now), status := Canceled, autoRenewal := false) }

  const MS_PER_HOUR := 3_600_000

  /** The hour eight hours behind UTC. */
  function PSTHour(now: int): int { TimeInDay(now - 8 * MS_PER_HOUR) / MS_PER_HOUR }

  predicate ExpiredLive(r: Row, now: int) { Live(r) && r.endDate.Some? && r.endDate.value < now }

  predicate ToCancel(r: Row, now: int) { ExpiredLive(r, now) && (r.system == PAYPAL ==> PSTHour(now) > 6) }

  function Fetched(now: int): Row -> bool { (r: Row) => ExpiredLive(r, now) }
  function Due(now: int): Row -> bool { (r: Row) => ToCancel(r, now) }
  function Settle(r: Row, now: int): Row { if ToCancel(r, now) then AsCanceled(r, now) else r }
  function Settled(now: int): Row -> Row { (r: Row) => Settle(r, now) }

  datatype Report = Report(userId: Id, endDate: Option<int>)

  function ToReport(r: Row): Report { Report(r.userId, r.endDate) }
  function SubIdOf(r: Row): Option<Id> { r.subId }
  predicate AskPayPal(r: Row) { r.system == PAYPAL && r.status == Suspended }

  /** The rows after a pass, the provider ids it asked PayPal to cancel and what it reported. */
  datatype Pass = Pass(rows: seq<Row>, asked: seq<Option<Id>>, reported: seq<Report>)

  /** Due rows are cancelled and reported in order, PayPal is asked about those that were suspended;
      if PayPal throws, nothing is stored or reported. */
  function CancelPass(rows: seq<Row>, now: int, payPalOk: bool): Pass {
    var due := Filter(Due(now), rows);
    var asked := Map(SubIdOf, Filter(AskPayPal, due));
    if asked != [] && !payPalOk then Pass(rows, asked, [])
    else Pass(Map(Settled(now), rows), asked, Map(ToReport, due))
  }

  // ------------------------------------------------ storing entities by id

  function WriteRow(rows: seq<Row>, r: Row): (w: seq<Row>)
    ensures |w| == |rows|
    ensures forall i :: 0 <= i < |rows| ==> w[i] == if rows[i].id == r.id then r else rows[i]
  {
    if rows == [] then [] else [if rows[0].id == r.id then r else rows[0]] + WriteRow(rows[1..], r)
  }

  function WriteAll(rows: seq<Row>, updates: seq<Row>): (w: seq<Row>)
    ensures |w| == |rows|
    decreases |updates|
  {
    if updates == [] then rows else WriteRow(WriteAll(rows, updates[..|updates| - 1]), updates[|updates| - 1])
  }

  lemma NoWrites(rows: seq<Row>, updates: seq<Row>)
    ensures WriteAll(rows, updates[..0]) == rows
  {
  }

  lemma NextWrite(rows: seq<Row>, updates: seq<Row>, i: nat)
    requires i < |updates|
    ensures WriteAll(rows, updates[..i + 1]) == WriteRow(WriteAll(rows, updates[..i]), updates[i])
  {
    assert updates[..i + 1][..i] == updates[..i];
  }

  /** A stored row is the update with its id, or as it was. */
  lemma {:induction false} WrittenRow(rows: seq<Row>, updates: seq<Row>, i: nat)
    requires i < |rows| && DistinctIds(updates)
    ensures WriteAll(rows, updates)[i].id == rows[i].id
    ensures forall k :: 0 <= k < |updates| && updates[k].id == rows[i].id ==> WriteAll(rows, updates)[i] == updates[k]
    ensures (forall k :: 0 <= k < |updates| ==> updates[k].id != rows[i].id) ==> WriteAll(rows, updates)[i] == rows[i]
    decreases |updates|
  {
    if updates != [] { WrittenRow(rows, updates[..|updates| - 1], i); }
  }

  lemma {:induction false} FilterKeepsIds(p: Row -> bool, rows: seq<Row>)
    requires DistinctIds(rows)
    ensures DistinctIds(Filter(p, rows))
  {
    if rows != [] {
      FilterKeepsIds(p, rows[1..]);
      FilterMembers(p, rows[1..]);
      var rest := Filter(p, rows[1..]);
      forall j | 0 <= j < |rest| ensures rest[j].id != rows[0].id { assert rest[j] in rows[1..]; }
    }
  }

  lemma UpdatedRow(rows: seq<Row>, fetched: seq<Row>, now: int, i: nat)
    requires i < |rows| && DistinctIds(fetched) && rows[i] in fetched
    ensures WriteAll(rows, Map(Settled(now), fetched))[i] == Settled(now)(rows[i])
  {
    hide WriteAll;
    var updates := Map(Settled(now), fetched);
    assert DistinctIds(updates);
    var k :| 0 <= k < |fetched| && fetched[k] == rows[i];
    WrittenRow(rows, updates, i);
    assert updates[k].id == rows[i].id;
  }

  lemma UntouchedRow(rows: seq<Row>, fetched: seq<Row>, now: int, i: nat)
    requires i < |rows| && DistinctIds(fetched) && forall r :: r in fetched ==> r.id != rows[i].id
    ensures WriteAll(rows, Map(Settled(now), fetched))[i] == rows[i]
  {
    hide WriteAll;
    var updates := Map(Settled(now), fetched);
    assert DistinctIds(updates);
    forall k | 0 <= k < |updates| ensures updates[k].id != rows[i].id { assert fetched[k] in fetched; }
    WrittenRow(rows, updates, i);
  }

  lemma SettledRow(rows: seq<Row>, now: int, i: nat)
    requires DistinctIds(rows) && i < |rows|
    ensures WriteAll(rows, Map(Settled(now), Filter(Fetched(now), rows)))[i] == Settled(now)(rows[i])
  {
    hide Filter, Map, WriteAll;
    var fetched := Filter(Fetched(now), rows);
    FilterKeepsIds(Fetched(now), rows);
    FilterMembers(Fetched(now), rows);
    if ExpiredLive(rows[i], now) {
      UpdatedRow(rows, fetched, now, i);
    } else {
      forall r | r in fetched ensures r.id != rows[i].id {
        var j :| 0 <= j < |rows| && rows[j] == r;
        assert j != i;
      }
      UntouchedRow(rows, fetched, now, i);
    }
  }

  /** Storing the fetched entities after the pass settles exactly the due rows. */
  lemma WrittenIsSettled(rows: seq<Row>, now: int)
    requires DistinctIds(rows)
    ensures WriteAll(rows, Map(Settled(now), Filter(Fetched(now), rows))) == Map(Settled(now), rows)
  {
    hide WriteAll, Filter;
    forall i | 0 <= i < |rows|
      ensures WriteAll(rows, Map(Settled(now), Filter(Fetched(now), rows)))[i] == Map(Settled(now), rows)[i]
    {
      SettledRow(rows, now, i);
    }
  }

  // ------------------------------------------------ making room for another subscription

  function FindLive(rows: seq<Row>, userId: Id): Option<Row> {
    if rows == [] then None
    else if Live(rows[0]) && rows[0].userId == userId then Some(rows[0])
    else FindLive(rows[1..], userId)
  }

  /** The provider call threw, or the rows afterwards and the dates of the subscription replaced. */
  datatype Handled = Threw | Done(rows: seq<Row>, replaced: Option<Row>)

  function HandleActive(rows: seq<Row>, userId: Id, processedSubId: Id, cancelOk: bool, now: int): Handled {
    match FindLive(rows, userId)
    case None => Done(rows, None)
    case Some(active) =>
      if active.id == processedSubId then Done(rows, None)
      else if !cancelOk then Threw
      else Done(WriteRow(rows, AsCanceled(active, now)), Some(active))
  }

  // ------------------------------------------------ the entity and its repository

  class SubscriptionEntity {
    const id: Id
    const userId: Id
    const system: System
    const subId: Option<Id>
    const paidAt: Option<int>
    const endDate: Option<int>
    var status: Status
    var autoRenewal: bool
    var updatedAt: Option<int>

    constructor (r: Row)
      ensures Contents() == r
    {
      id, userId, system, subId, paidAt, endDate := r.id, r.userId, r.system, r.subId, r.paidAt, r.endDate;
      status, autoRenewal, updatedAt := r.status, r.autoRenewal, r.updatedAt;
    }

    function Contents(): Row
      reads this
    {
      Row(id, userId, system, subId, status, autoRenewal, updatedAt, paidAt, endDate)
    }

    static method CancelSubscription(subscription: SubscriptionEntity, now: int)
      modifies subscription
      ensures subscription.Contents() == AsCanceled(old(subscription.Contents()), now)
    {
      subscription.updatedAt := Some(now);
      subscription.status := Canceled;
      subscription.autoRenewal := false;
    }
  }

  function Snapshot(subs: seq<SubscriptionEntity>): (rows: seq<Row>)
    reads subs
    ensures |rows| == |subs| && forall i :: 0 <= i < |subs| ==> rows[i] == subs[i].Contents()
  {
    if subs == [] then [] else [subs[0].Contents()] + Snapshot(subs[1..])
  }

  class PaymentsRepository {
    var rows: seq<Row>

    constructor (rows: seq<Row>)
      ensures this.rows == rows
    {
      this.rows := rows;
    }

    /** Fresh entities, one per row. */
    method ToEntities(found: seq<Row>) returns (subs: seq<SubscriptionEntity>)
      ensures Snapshot(subs) == found && fresh(subs) && Distinct(subs)
    {
      subs := [];
      var i := 0;
      while i < |found|
        invariant 0 <= i <= |found| && |subs| == i
        invariant fresh(subs) && Distinct(subs)
        invariant forall k :: 0 <= k < i ==> subs[k].Contents() == found[k]
      {
        var s := new SubscriptionEntity(found[i]);
        assert s !in subs;
        subs := subs + [s];
        i := i + 1;
      }
    }

    method GetActiveSubscriptionByUserId(userId: Id) returns (sub: SubscriptionEntity?)
      ensures sub == null <==> FindLive(rows, userId).None?
      ensures sub != null ==> fresh(sub) && FindLive(rows, userId) == Some(sub.Contents())
    {
      sub := null;
      var i := 0;
      while i < |rows|
        invariant 0 <= i <= |rows| && FindLive(rows, userId) == FindLive(rows[i..], userId)
      {
        if Live(rows[i]) && rows[i].userId == userId {
          sub := new SubscriptionEntity(rows[i]);
          return;
        }
        i := i + 1;
      }
    }

    method UpdateSub(sub: SubscriptionEntity)
      modifies this
      ensures rows == WriteRow(old(rows), sub.Contents())
    {
      rows := WriteRow(rows, sub.Contents());
    }

    method GetActiveSubscriptionsByDate(date: int) returns (subs: seq<SubscriptionEntity>)
      ensures Snapshot(subs) == Filter(Fetched(date), rows) && fresh(subs) && Distinct(subs)
    {
      subs := ToEntities(Filter(Fetched(date), rows));
    }

    method UpdateManySub(subs: seq<SubscriptionEntity>)
      modifies this
      ensures rows == WriteAll(old(rows), Snapshot(subs))
    {
      hide *;
      ghost var all := Snapshot(subs);
      var i := 0;
      NoWrites(rows, all);
      while i < |subs|
        invariant 0 <= i <= |subs|
        invariant Snapshot(subs) == all
        invariant rows == WriteAll(old(rows), all[..i])
      {
        NextWrite(old(rows), all, i);
        rows := WriteRow(rows, subs[i].Contents());
        i := i + 1;
      }
      assert all[..|subs|] == all;
    }
  }

  // ------------------------------------------------ the nightly pass

  /** What the loop has collected after the first rows. */
  function ReportedOf(rows: seq<Row>, now: int): seq<Report> { Map(ToReport, Filter(Due(now), rows)) }

  function AskedOf(rows: seq<Row>, now: int): seq<Option<Id>> {
    Map(SubIdOf, Filter(AskPayPal, Filter(Due(now), rows)))
  }

  /** What it adds for one row. */
  function ReportedFor(r: Row, now: int): seq<Report> { if ToCancel(r, now) then [ToReport(r)] else [] }
  function AskedFor(r: Row, now: int): seq<Option<Id>> { if ToCancel(r, now) && AskPayPal(r) then [r.subId] else [] }

  lemma OneFiltered(p: Row -> bool, r: Row)
    ensures Filter(p, [r]) == (if p(r) then [r] else []) && Filter(p, []) == []
  {
    assert [r][1..] == [];
  }

  lemma CollectNone(rows: seq<Row>, now: int)
    ensures ReportedOf(rows[..0], now) == [] && AskedOf(rows[..0], now) == []
  {
    assert rows[..0] == [];
  }

  lemma CollectNext(rows: seq<Row>, now: int, i: nat)
    requires i < |rows| && ExpiredRow(rows, i, now)
    ensures ReportedOf(rows[..i + 1], now) == ReportedOf(rows[..i], now) + ReportedFor(rows[i], now)
    ensures AskedOf(rows[..i + 1], now) == AskedOf(rows[..i], now) + AskedFor(rows[i], now)
    ensures ExpiredLive(rows[i], now)
  {
    hide Filter, ToCancel, Map;
    assert rows[..i + 1] == rows[..i] + [rows[i]];
    var one := if ToCancel(rows[i], now) then [rows[i]] else [];
    OneFiltered(Due(now), rows[i]);
    OneFiltered(AskPayPal, rows[i]);
    var earlier := Filter(Due(now), rows[..i]);
    FilterAppend(Due(now), rows[..i], [rows[i]]);
    FilterAppend(AskPayPal, earlier, one);
    MapAppend(ToReport, earlier, one);
    MapAppend(SubIdOf, Filter(AskPayPal, earlier), Filter(AskPayPal, one));
  }

  ghost predicate ExpiredRow(rows: seq<Row>, i: nat, now: int)
    requires i < |rows|
  {
    ExpiredLive(rows[i], now)
  }

  lemma SettledSnapshot(after: seq<Row>, was: seq<Row>, now: int)
    requires |after| == |was| && forall k :: 0 <= k < |was| ==> after[k] == Settle(was[k], now)
    ensures after == Map(Settled(now), was)
  {
    hide Settle;
  }

  /** The pass in terms of the fetched entities. */
  lemma PassOfFetched(rows: seq<Row>, now: int, payPalOk: bool)
    requires DistinctIds(rows)
    ensures var fetched := Filter(Fetched(now), rows);
            var asked, reported := AskedOf(fetched, now), ReportedOf(fetched, now);
            CancelPass(rows, now, payPalOk)
            == if |asked| > 0 && !payPalOk then Pass(rows, asked, [])
               else Pass(WriteAll(rows, Map(Settled(now), fetched)), asked, reported)
    ensures var fetched := Filter(Fetched(now), rows); forall i :: 0 <= i < |fetched| ==> ExpiredRow(fetched, i, now)
  {
    hide Filter, Map, WriteAll, PSTHour;
    FilterOfFilter(Fetched(now), Due(now), rows);
    FilterMembers(Fetched(now), rows);
    WrittenIsSettled(rows, now);
    var fetched := Filter(Fetched(now), rows);
    forall i | 0 <= i < |fetched| ensures ExpiredRow(fetched, i, now) { assert fetched[i] in fetched; }
  }

  class PaymentService {
    const paymentsRepository: PaymentsRepository

    constructor (repository: PaymentsRepository)
      ensures paymentsRepository == repository
    {
      paymentsRepository := repository;
    }

    /** `now` is the clock and `payPalOk` whether PayPal's cancel call returns. */
    method DisableSubscription(now: int, payPalOk: bool) returns (asked: seq<Option<Id>>, reported: seq<Report>)
      requires DistinctIds(paymentsRepository.rows)
      modifies paymentsRepository
      ensures Pass(paymentsRepository.rows, asked, reported) == CancelPass(old(paymentsRepository.rows), now, payPalOk)
    {
      hide *;
      PassOfFetched(paymentsRepository.rows, now, payPalOk);
      var subscriptions := paymentsRepository.GetActiveSubscriptionsByDate(now);
      asked, reported := [], [];
      var i := 0;
      ghost var was := Snapshot(subscriptions);
      CollectNone(was, now);
      while i < |subscriptions|
        invariant 0 <= i <= |subscriptions| && paymentsRepository.rows == old(paymentsRepository.rows)
        invariant asked == AskedOf(was[..i], now) && reported == ReportedOf(was[..i], now)
        invariant forall k :: 0 <= k < i ==> subscriptions[k].Contents() == Settle(was[k], now)
        invariant forall k :: i <= k < |subscriptions| ==> subscriptions[k].Contents() == was[k]
      {
        CollectNext(was, now, i);
        var ask, report := Visit(subscriptions[i], now);
        asked, reported := asked + ask, reported + report;
        i := i + 1;
      }
      assert was[..i] == was;
      SettledSnapshot(Snapshot(subscriptions), was, now);
      if |asked| > 0 && !payPalOk { return asked, []; }
      paymentsRepository.UpdateManySub(subscriptions);
    }

    /** The body of the loop over the fetched subscriptions. */
    method Visit(subscription: SubscriptionEntity, now: int) returns (ask: seq<Option<Id>>, report: seq<Report>)
      requires ExpiredLive(subscription.Contents(), now)
      modifies subscription
      ensures subscription.Contents() == Settle(old(subscription.Contents()), now)
      ensures ask == AskedFor(old(subscription.Contents()), now)
              && report == ReportedFor(old(subscription.Contents()), now)
    {
      hide PSTHour;
      ask, report := [], [];
      if subscription.system == PAYPAL {
        if ShouldCancelPayPalSubscription(subscription.Contents(), now) {
          if subscription.status == Suspended { ask := [subscription.subId]; }
          report := [Report(subscription.userId, subscription.endDate)];
          SubscriptionEntity.CancelSubscription(subscription, now);
        }
      } else {
        report := [Report(subscription.userId, subscription.endDate)];
        SubscriptionEntity.CancelSubscription(subscription, now);
      }
    }

    /** Cancels the user's other live subscription; `cancelOk` is whether the provider call returns. */
    method HandleActiveSubscription(userId: Id, processedSubId: Id, cancelOk: bool,
        now: int) returns (threw: bool, replaced: Option<Row>)
      modifies paymentsRepository
      ensures var h := HandleActive(old(paymentsRepository.rows), userId, processedSubId, cancelOk, now);
              threw == h.Threw? &&
              if threw then paymentsRepository.rows == old(paymentsRepository.rows)
              else paymentsRepository.rows == h.rows && replaced == h.replaced
    {
      threw, replaced := false, None;
      var activeSubscription := paymentsRepository.GetActiveSubscriptionByUserId(userId);
      if activeSubscription != null && activeSubscription.id != processedSubId {
        if !cancelOk { return true, None; }
        replaced := Some(activeSubscription.Contents());
        SubscriptionEntity.CancelSubscription(activeSubscription, now);
        paymentsRepository.UpdateSub(activeSubscription);
      }
    }

    predicate ShouldCancelPayPalSubscription(r: Row, now: int) {
      r.endDate.Some? && r.endDate.value < now && PSTHour(now) > 6
    }
  }
}
