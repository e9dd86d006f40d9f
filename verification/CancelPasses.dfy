/** What one cancel pass does to the table, and what a run of passes reports. */
module CancelPasses {
  import opened Tables
  import opened Subscriptions

  // ------------------------------------------------ one pass

  /** The pass went through: PayPal was not needed or did not throw. */
  predicate Stored(rows: seq<Row>, now: int, payPalOk: bool) {
    payPalOk || forall r :: r in rows && ToCancel(r, now) ==> !AskPayPal(r)
  }

  /** Row by row: exactly the due rows become cancelled without renewal, every other row is as it was;
      a pass whose provider call throws changes no row and reports nothing. */
  lemma PassRows(rows: seq<Row>, now: int, payPalOk: bool)
    ensures var p := CancelPass(rows, now, payPalOk);
            if Stored(rows, now, payPalOk) then
              |p.rows| == |rows| && p.reported == Map(ToReport, Filter(Due(now), rows)) &&
              forall i :: 0 <= i < |rows| ==>
                (p.rows[i] != rows[i] <==> ToCancel(rows[i], now)) &&
                (ToCancel(rows[i], now) ==>
                  p.rows[i].status == Canceled && !p.rows[i].autoRenewal && p.rows[i].id == rows[i].id
                  && p.rows[i].userId == rows[i].userId && p.rows[i].endDate == rows[i].endDate)
            else p.rows == rows && p.reported == []
  {
    hide PSTHour;
    var due := Filter(Due(now), rows);
    FilterMembers(Due(now), rows);
    FilterMembers(AskPayPal, due);
    hide Filter;
    var asked := Filter(AskPayPal, due);
    if asked != [] { assert asked[0] in asked; }
  }

  /** With the gate open nothing expired stays live, so a pass at the same instant finds nothing. */
  lemma NothingLeft(rows: seq<Row>, now: int, payPalOk: bool, r: Row)
    requires Stored(rows, now, payPalOk) && PSTHour(now) > 6 && r in CancelPass(rows, now, payPalOk).rows
    ensures !ExpiredLive(r, now)
  {
    PassRows(rows, now, payPalOk);
    hide PSTHour, CancelPass;
    var p := CancelPass(rows, now, payPalOk);
    var i :| 0 <= i < |p.rows| && p.rows[i] == r;
    assert ToCancel(rows[i], now) || p.rows[i] == rows[i];
  }

  /** After an open-gate pass, a later one reports only what expired in between. */
  lemma LaterPassReportsNewlyExpired(rows: seq<Row>, now: int, later: int, firstOk: bool, laterOk: bool)
    requires Stored(rows, now, firstOk) && PSTHour(now) > 6 && now <= later
    ensures var after := CancelPass(rows, now, firstOk).rows;
            forall r :: r in Filter(Due(later), after) ==> r.endDate.Some? && now <= r.endDate.value < later
    ensures var after := CancelPass(rows, now, firstOk).rows;
            later == now ==> CancelPass(after, later, laterOk) == Pass(after, [], [])
  {
    var after := CancelPass(rows, now, firstOk).rows;
    FilterMembers(Due(later), after);
    forall r | r in after ensures !ExpiredLive(r, now) { NothingLeft(rows, now, firstOk, r); }
    if later == now {
      FilterNone(Due(later), after);
      hide PSTHour, Filter;
      OneFiltered(AskPayPal, Row("", "", STRIPE, None, Pending, false, None, None, None));
      forall i | 0 <= i < |after| ensures Settled(later)(after[i]) == after[i] { assert after[i] in after; }
      assert Map(Settled(later), after) == after;
    }
  }

  // ------------------------------------------------ runs of passes

  /** One night: when the pass ran and whether PayPal's cancel call would have returned. */
  datatype Night = Night(now: int, payPalOk: bool)

  function TableAfter(rows: seq<Row>, nights: seq<Night>): seq<Row> {
    if nights == [] then rows
    else
      var last := nights[|nights| - 1];
      CancelPass(TableAfter(rows, nights[..|nights| - 1]), last.now, last.payPalOk).rows
  }

  function ReportsOf(rows: seq<Row>, nights: seq<Night>): seq<Report> {
    if nights == [] then []
    else
      var before, last := nights[..|nights| - 1], nights[|nights| - 1];
      ReportsOf(rows, before) + CancelPass(TableAfter(rows, before), last.now, last.payPalOk).reported
  }

  /** The instants of the passes that went through. */
  function StoredNows(rows: seq<Row>, nights: seq<Night>): seq<int> {
    if nights == [] then []
    else
      var before, last := nights[..|nights| - 1], nights[|nights| - 1];
      StoredNows(rows, before) + if Stored(TableAfter(rows, before), last.now, last.payPalOk) then [last.now] else []
  }

  /** The rows and the reports if only those passes had run. */
  function RowsAfter(rows: seq<Row>, nows: seq<int>): seq<Row> {
    if nows == [] then rows else CancelPass(RowsAfter(rows, nows[..|nows| - 1]), nows[|nows| - 1], true).rows
  }

  function AllReports(rows: seq<Row>, nows: seq<int>): seq<Report> {
    if nows == [] then []
    else
      var before, now := nows[..|nows| - 1], nows[|nows| - 1];
      AllReports(rows, before) + CancelPass(RowsAfter(rows, before), now, true).reported
  }

  lemma StoredOrNothing(rows: seq<Row>, now: int, payPalOk: bool)
    ensures var p := CancelPass(rows, now, payPalOk);
            if Stored(rows, now, payPalOk) then p == CancelPass(rows, now, true) else p.rows == rows && p.reported == []
  {
    hide PSTHour;
    var due := Filter(Due(now), rows);
    FilterMembers(Due(now), rows);
    FilterMembers(AskPayPal, due);
    hide Filter;
    var asked := Filter(AskPayPal, due);
    if asked != [] { assert asked[0] in asked; }
  }

  lemma AfterSnoc(rows: seq<Row>, nows: seq<int>, now: int)
    ensures RowsAfter(rows, nows + [now]) == CancelPass(RowsAfter(rows, nows), now, true).rows
    ensures AllReports(rows, nows + [now]) == AllReports(rows, nows)
            + CancelPass(RowsAfter(rows, nows), now, true).reported
  {
    hide CancelPass;
    assert (nows + [now])[..|nows|] == nows;
  }

  lemma NightsSnoc(rows: seq<Row>, nights: seq<Night>)
    requires nights != []
    ensures var before, last := nights[..|nights| - 1], nights[|nights| - 1];
            var p := CancelPass(TableAfter(rows, before), last.now, last.payPalOk);
            TableAfter(rows, nights) == p.rows && ReportsOf(rows, nights) == ReportsOf(rows, before) + p.reported &&
            StoredNows(rows, nights)
            == StoredNows(rows, before) + if Stored(TableAfter(rows, before), last.now, last.payPalOk) then [last.now]
               else []
  {
    hide CancelPass, Stored;
  }

  /** A pass whose provider call throws leaves no trace: the next night starts from the same rows. */
  lemma {:induction false} OnlyStoredCount(rows: seq<Row>, nights: seq<Night>)
    ensures TableAfter(rows, nights) == RowsAfter(rows, StoredNows(rows, nights))
    ensures ReportsOf(rows, nights) == AllReports(rows, StoredNows(rows, nights))
    decreases |nights|
  {
    if nights != [] {
      hide *;
      var before, last := nights[..|nights| - 1], nights[|nights| - 1];
      NightsSnoc(rows, nights);
      OnlyStoredCount(rows, before);
      StoredOrNothing(TableAfter(rows, before), last.now, last.payPalOk);
      AfterSnoc(rows, StoredNows(rows, before), last.now);
      assert StoredNows(rows, before) + [] == StoredNows(rows, before);
      assert ReportsOf(rows, before) + [] == ReportsOf(rows, before);
    }
  }

  /** Some pass finds the row due. */
  predicate Ends(r: Row, nows: seq<int>) { exists k :: 0 <= k < |nows| && ToCancel(r, nows[k]) }
  function EndsBy(nows: seq<int>): Row -> bool { (r: Row) => Ends(r, nows) }

  /** The row after the passes: cancelled at the first one that found it due. */
  function Ended(r: Row, nows: seq<int>): Row {
    if nows == [] then r else Settle(Ended(r, nows[..|nows| - 1]), nows[|nows| - 1])
  }

  lemma {:induction false} EndedRow(r: Row, nows: seq<int>)
    ensures ToReport(Ended(r, nows)) == ToReport(r) && Ended(r, nows).id == r.id
    ensures if Ends(r, nows) then !Live(Ended(r, nows)) else Ended(r, nows) == r
    decreases |nows|
  {
    hide ToCancel, ExpiredLive;
    if nows != [] {
      var m := |nows| - 1;
      EndedRow(r, nows[..m]);
      SettledNotLive(Ended(r, nows[..m]), nows[m]);
      EndsLast(r, nows);
    }
  }

  lemma SettledNotLive(r: Row, now: int)
    ensures ToCancel(r, now) ==> Live(r) && !Live(AsCanceled(r, now))
  {
    hide PSTHour;
  }

  lemma EndsLast(r: Row, nows: seq<int>)
    requires nows != []
    ensures Ends(r, nows) <==> Ends(r, nows[..|nows| - 1]) || ToCancel(r, nows[|nows| - 1])
  {
    hide ToCancel;
    var m := |nows| - 1;
    if Ends(r, nows) && !ToCancel(r, nows[m]) {
      var k :| 0 <= k < |nows| && ToCancel(r, nows[k]);
      assert nows[..m][k] == nows[k];
    }
  }

  lemma {:induction false} RowsAfterIs(rows: seq<Row>, nows: seq<int>)
    ensures |RowsAfter(rows, nows)| == |rows|
    ensures forall i :: 0 <= i < |rows| ==> RowsAfter(rows, nows)[i] == Ended(rows[i], nows)
    decreases |nows|
  {
    if nows != [] { RowsAfterIs(rows, nows[..|nows| - 1]); }
    hide Settle, Filter;
  }

  /** The rows a pass finds due now, in terms of the rows at the start. */
  function NowDue(nows: seq<int>, now: int): Row -> bool { (r: Row) => !Ends(r, nows) && ToCancel(r, now) }

  lemma {:induction false} DueAfter(rows: seq<Row>, after: seq<Row>, nows: seq<int>, now: int)
    requires |after| == |rows| && forall i :: 0 <= i < |rows| ==> after[i] == Ended(rows[i], nows)
    ensures Map(ToReport, Filter(Due(now), after)) == Map(ToReport, Filter(NowDue(nows, now), rows))
  {
    if rows != [] {
      hide Ends, ToCancel, Ended, Map;
      DueAfter(rows[1..], after[1..], nows, now);
      EndedRow(rows[0], nows);
      SettledNotLive(after[0], now);
      SettledNotLive(rows[0], now);
      assert Due(now)(after[0]) == NowDue(nows, now)(rows[0]);
      var a, b := if Due(now)(after[0]) then [after[0]] else [], if NowDue(nows, now)(rows[0]) then [rows[0]] else [];
      MapAppend(ToReport, a, Filter(Due(now), after[1..]));
      MapAppend(ToReport, b, Filter(NowDue(nows, now), rows[1..]));
      assert Map(ToReport, a) == Map(ToReport, b);
    }
  }

  lemma {:induction false} SplitByEnd(rows: seq<Row>, nows: seq<int>)
    requires nows != []
    ensures var m := |nows| - 1;
            multiset(Filter(EndsBy(nows), rows))
            == multiset(Filter(EndsBy(nows[..m]), rows)) + multiset(Filter(NowDue(nows[..m], nows[m]), rows))
  {
    if rows != [] {
      hide Ends, ToCancel;
      SplitByEnd(rows[1..], nows);
      EndsLast(rows[0], nows);
    }
  }

  lemma {:induction false} StoredReportedOnce(rows: seq<Row>, nows: seq<int>)
    ensures multiset(AllReports(rows, nows)) == multiset(Map(ToReport, Filter(EndsBy(nows), rows)))
    decreases |nows|
  {
    if nows == [] {
      FilterNone(EndsBy(nows), rows);
    } else {
      var m := |nows| - 1;
      var before, now := nows[..m], nows[m];
      StoredReportedOnce(rows, before);
      RowsAfterIs(rows, before);
      LastReports(rows, nows);
      hide *;
      DueAfter(rows, RowsAfter(rows, before), before, now);
      SplitByEnd(rows, nows);
      var x, y := Filter(EndsBy(before), rows), Filter(NowDue(before, now), rows);
      MapAppend(ToReport, x, y);
      assert multiset(x + y) == multiset(x) + multiset(y);
      MapMultiset(ToReport, Filter(EndsBy(nows), rows), x + y);
    }
  }

  lemma LastReports(rows: seq<Row>, nows: seq<int>)
    requires nows != []
    ensures var m := |nows| - 1;
            AllReports(rows, nows) == AllReports(rows, nows[..m])
              + Map(ToReport, Filter(Due(nows[m]), RowsAfter(rows, nows[..m])))
  {
    hide Filter, Map, Due;
  }

  /** Over any run of nightly passes, whichever of them fail at PayPal, every subscription that some
      stored pass found due is reported exactly once, and nothing else is reported. */
  lemma ReportedOnce(rows: seq<Row>, nights: seq<Night>)
    ensures multiset(ReportsOf(rows, nights)) == multiset(Map(ToReport, Filter(EndsBy(StoredNows(rows, nights)), rows)))
  {
    OnlyStoredCount(rows, nights);
    StoredReportedOnce(rows, StoredNows(rows, nights));
  }

  /** The rows after such a run: each is cancelled exactly when some stored pass found it due. */
  lemma CancelledIffDue(rows: seq<Row>, nights: seq<Night>, i: nat)
    requires i < |rows|
    ensures |TableAfter(rows, nights)| == |rows| && TableAfter(rows, nights)[i].id == rows[i].id
    ensures if Ends(rows[i], StoredNows(rows, nights)) then !Live(TableAfter(rows, nights)[i])
            else TableAfter(rows, nights)[i] == rows[i]
  {
    OnlyStoredCount(rows, nights);
    RowsAfterIs(rows, StoredNows(rows, nights));
    EndedRow(rows[i], StoredNows(rows, nights));
  }
}
