/** A cancel pass read off the rows' columns and the clock, and which subscriptions PayPal is asked about. */
module PassOutcomes {
  import opened Tables
  import opened Subscriptions
  import opened CancelPasses

  // ------------------------------------------------ one pass

  /** From seven in the morning on, eight hours behind UTC. */
  predicate Morning(now: int) { (now - 28_800_000) % 86_400_000 >= 25_200_000 }

  /** An active or suspended subscription that ended before now; PayPal's only in the morning. */
  predicate Expires(r: Row, now: int) {
    (r.status == Active || r.status == Suspended) && r.endDate.Some? && r.endDate.value < now
    && (r.system == PAYPAL ==> Morning(now))
  }

  /** Such a subscription at PayPal, suspended. */
  predicate AtPayPal(r: Row, now: int) { Expires(r, now) && r.system == PAYPAL && r.status == Suspended }

  function ExpiresAt(now: int): Row -> bool { (r: Row) => Expires(r, now) }
  function AtPayPalAt(now: int): Row -> bool { (r: Row) => AtPayPal(r, now) }

  lemma GateIsMorning(now: int)
    ensures PSTHour(now) > 6 <==> Morning(now)
  {
  }

  lemma ToCancelIs(r: Row, now: int)
    ensures ToCancel(r, now) <==> Expires(r, now)
  {
    GateIsMorning(now);
    hide PSTHour, Morning;
  }

  lemma DueAre(rows: seq<Row>, now: int)
    ensures Filter(Due(now), rows) == Filter(ExpiresAt(now), rows)
    ensures Filter(AskPayPal, Filter(Due(now), rows)) == Filter(AtPayPalAt(now), rows)
  {
    hide PSTHour, Morning, ToCancel, Expires;
    forall i | 0 <= i < |rows| ensures Due(now)(rows[i]) == ExpiresAt(now)(rows[i]) { ToCancelIs(rows[i], now); }
    FilterAgree(Due(now), ExpiresAt(now), rows);
    FilterTwice(rows, now);
  }

  lemma {:induction false} FilterTwice(rows: seq<Row>, now: int)
    ensures Filter(AskPayPal, Filter(Due(now), rows)) == Filter(AtPayPalAt(now), rows)
  {
    if rows != [] {
      hide PSTHour, Morning, ToCancel, Expires;
      FilterTwice(rows[1..], now);
      ToCancelIs(rows[0], now);
      OneFiltered(AskPayPal, rows[0]);
      FilterAppend(AskPayPal, if Due(now)(rows[0]) then [rows[0]] else [], Filter(Due(now), rows[1..]));
    }
  }

  /** PayPal's call throws. */
  predicate Throws(rows: seq<Row>, now: int, payPalOk: bool) { !payPalOk && exists r :: r in rows && AtPayPal(r, now) }

  lemma StoredIs(rows: seq<Row>, now: int, payPalOk: bool)
    ensures Stored(rows, now, payPalOk) <==> !Throws(rows, now, payPalOk)
  {
    hide Expires, ToCancel;
    forall r | r in rows ensures ToCancel(r, now) <==> Expires(r, now) { ToCancelIs(r, now); }
  }

  /** PayPal is asked, in row order, about the provider ids of exactly the suspended PayPal subscriptions that
      expired. Unless that call throws, exactly the expired rows are cancelled without renewal and reported, in
      row order, and every other row stays; otherwise nothing is stored or reported. */
  lemma PassByColumns(rows: seq<Row>, now: int, payPalOk: bool)
    ensures var p, due, ask := CancelPass(rows, now, payPalOk), Filter(ExpiresAt(now), rows),
            Filter(AtPayPalAt(now), rows);
            |p.asked| == |ask| && (forall k :: 0 <= k < |ask| ==> p.asked[k] == ask[k].subId) &&
            if Throws(rows, now, payPalOk) then p.rows == rows && p.reported == []
            else
              |p.reported| == |due| &&
              (forall k :: 0 <= k < |due| ==> p.reported[k] == Report(due[k].userId, due[k].endDate)) &&
              |p.rows| == |rows| &&
              forall i :: 0 <= i < |rows| ==>
                p.rows[i] == if Expires(rows[i], now)
                  then rows[i].(status := Canceled, autoRenewal := false, updatedAt := Some(now)) else rows[i]
  {
    DueAre(rows, now);
    StoredIs(rows, now, payPalOk);
    StoredOrNothing(rows, now, payPalOk);
    hide PSTHour, Morning, ToCancel, Expires, Filter, AtPayPal, Stored, Throws, Live;
    forall i | 0 <= i < |rows| ensures ToCancel(rows[i], now) <==> Expires(rows[i], now) { ToCancelIs(rows[i], now); }
  }

  // ------------------------------------------------ runs of passes

  /** Some pass that went through found the row expired. */
  lemma EndsIs(r: Row, nows: seq<int>)
    ensures Ends(r, nows) <==> exists now :: now in nows && Expires(r, now)
  {
    hide ToCancel, Expires;
    forall now ensures ToCancel(r, now) <==> Expires(r, now) { ToCancelIs(r, now); }
    if now :| now in nows && Expires(r, now) { var k :| 0 <= k < |nows| && nows[k] == now; }
  }

  lemma NotLiveNotAsked(r: Row, now: int)
    requires !Live(r)
    ensures !AtPayPal(r, now)
  {
  }

  /** On the k-th night PayPal is asked about a subscription if and only if it is a suspended PayPal one, expired
      that night, and no earlier pass that went through found it expired: a night on which PayPal threw is
      tried again. */
  lemma AskedAboutIff(rows: seq<Row>, nights: seq<Night>, k: nat, i: nat)
    requires k < |nights| && i < |rows|
    ensures var table, now := TableAfter(rows, nights[..k]), nights[k].now;
            |table| == |rows| &&
            (AtPayPal(table[i], now) <==>
               AtPayPal(rows[i], now) && !exists t :: t in StoredNows(rows, nights[..k]) && Expires(rows[i], t)) &&
            (AtPayPal(table[i], now) ==> table[i] == rows[i])
  {
    hide *;
    var table := TableAfter(rows, nights[..k]);
    CancelledIffDue(rows, nights[..k], i);
    EndsIs(rows[i], StoredNows(rows, nights[..k]));
    if Ends(rows[i], StoredNows(rows, nights[..k])) { NotLiveNotAsked(table[i], nights[k].now); }
  }

  /** How many of the passes that went through asked PayPal about the i-th subscription. */
  function StoredAsks(rows: seq<Row>, nights: seq<Night>, i: nat): nat {
    if nights == [] then 0
    else
      var before, last := nights[..|nights| - 1], nights[|nights| - 1];
      var table := TableAfter(rows, before);
      StoredAsks(rows, before, i) +
      if !Throws(table, last.now, last.payPalOk) && i < |table| && AtPayPal(table[i], last.now) then 1 else 0
  }

  lemma AsksSnoc(rows: seq<Row>, nights: seq<Night>, i: nat)
    requires nights != []
    ensures var before, last := nights[..|nights| - 1], nights[|nights| - 1];
            var table := TableAfter(rows, before);
            var stored := Stored(table, last.now, last.payPalOk);
            StoredAsks(rows, nights, i) == StoredAsks(rows, before, i)
              + (if stored && i < |table| && AtPayPal(table[i], last.now) then 1 else 0) &&
            StoredNows(rows, nights) == StoredNows(rows, before) + if stored then [last.now] else []
  {
    var before, last := nights[..|nights| - 1], nights[|nights| - 1];
    StoredIs(TableAfter(rows, before), last.now, last.payPalOk);
    hide Stored, Throws, AtPayPal, TableAfter;
  }

  predicate SuspendedAtPayPal(r: Row) { r.system == PAYPAL && r.status == Suspended }

  lemma AsksStep(rows: seq<Row>, nights: seq<Night>, i: nat)
    requires nights != [] && i < |rows|
    ensures var before, last := nights[..|nights| - 1], nights[|nights| - 1];
            var table := TableAfter(rows, before);
            i < |table| &&
            (AtPayPal(table[i], last.now) <==>
               SuspendedAtPayPal(rows[i]) && ToCancel(rows[i], last.now) && !Ends(rows[i], StoredNows(rows, before)))
  {
    var m := |nights| - 1;
    AskedAboutIff(rows, nights, m, i);
    EndsIs(rows[i], StoredNows(rows, nights[..m]));
    ToCancelIs(rows[i], nights[m].now);
    hide Expires, ToCancel, Ends, StoredNows, TableAfter;
  }

  lemma EndsSnoc(r: Row, nows: seq<int>, now: int)
    ensures Ends(r, nows + [now]) <==> Ends(r, nows) || ToCancel(r, now)
  {
    hide Ends, ToCancel;
    assert (nows + [now])[..|nows|] == nows;
    EndsLast(r, nows + [now]);
  }

  lemma NoAsks(rows: seq<Row>, i: nat)
    requires i < |rows|
    ensures StoredAsks(rows, [], i) == 0 && !Ends(rows[i], StoredNows(rows, []))
  {
  }

  lemma {:induction false} AsksAreEnds(rows: seq<Row>, nights: seq<Night>, i: nat)
    requires i < |rows|
    ensures StoredAsks(rows, nights, i)
            == if SuspendedAtPayPal(rows[i]) && Ends(rows[i], StoredNows(rows, nights)) then 1 else 0
    decreases |nights|
  {
    hide *;
    if nights == [] {
      NoAsks(rows, i);
    } else {
      var before, last := nights[..|nights| - 1], nights[|nights| - 1];
      AsksAreEnds(rows, before, i);
      AsksSnoc(rows, nights, i);
      AsksStep(rows, nights, i);
      EndsSnoc(rows[i], StoredNows(rows, before), last.now);
      assert StoredNows(rows, before) + [] == StoredNows(rows, before);
    }
  }

  /** Over any run of nights the passes that went through ask PayPal exactly once about each suspended PayPal
      subscription some of them found expired, and never about any other. */
  lemma AskedOnce(rows: seq<Row>, nights: seq<Night>, i: nat)
    requires i < |rows|
    ensures var found := exists now :: now in StoredNows(rows, nights) && Expires(rows[i], now);
            StoredAsks(rows, nights, i) == if SuspendedAtPayPal(rows[i]) && found then 1 else 0
  {
    AsksAreEnds(rows, nights, i);
    EndsIs(rows[i], StoredNows(rows, nights));
    hide Ends, Expires, StoredNows, StoredAsks;
  }
}
