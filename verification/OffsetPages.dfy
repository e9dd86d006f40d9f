/** Skip/limit paging of a sorted result: when consecutive pages show every row exactly once. */
module OffsetPages {
  import opened Tables
  import opened Ordering
  import opened Paginator

  /** `limit pageSize offset (pageNumber - 1) * pageSize`. */
  function PageAt<T>(ordered: seq<T>, pageNumber: nat, pageSize: nat): (page: seq<T>)
    requires pageNumber > 0
  {
    var skip := (pageNumber - 1) * pageSize;
    if skip <= |ordered| then Limit(ordered[skip..], pageSize) else []
  }

  /** Pages 1 to |orders|; request `i` met the order `orders[i]`. */
  function FirstPages<T>(orders: seq<seq<T>>, pageSize: nat): seq<T> {
    if orders == [] then []
    else
      var m := |orders| - 1;
      FirstPages(orders[..m], pageSize) + PageAt(orders[m], m + 1, pageSize)
  }

  ghost predicate AllOrdersOf<T>(le: (T, T) -> bool, rows: seq<T>, orders: seq<seq<T>>) {
    forall i :: 0 <= i < |orders| ==> IsOrderBy(le, rows, orders[i])
  }

  function Covered(pageSize: nat, pages: nat, total: nat): (k: nat)
    ensures k <= total
  {
    if pageSize * pages <= total then pageSize * pages else total
  }

  lemma PageStep<T>(s: seq<T>, pages: nat, pageSize: nat)
    ensures s[..Covered(pageSize, pages, |s|)] + PageAt(s, pages + 1, pageSize)
            == s[..Covered(pageSize, pages + 1, |s|)]
  {
    assert pageSize * (pages + 1) == pageSize * pages + pageSize;
    assert pages * pageSize == pageSize * pages;
  }

  /** Without ties pages cut one list: the first pages are a prefix of it. */
  lemma {:induction false} PagesArePrefix<T>(le: (T, T) -> bool, s: seq<T>, orders: seq<seq<T>>, pageSize: nat)
    requires SortedBy(le, s) && StrictOn(le, s) && AllOrdersOf(le, s, orders)
    ensures FirstPages(orders, pageSize) == s[..Covered(pageSize, |orders|, |s|)]
    decreases |orders|
  {
    hide SortedBy, StrictOn;
    if orders != [] {
      var m := |orders| - 1;
      PagesArePrefix(le, s, orders[..m], pageSize);
      assert SortedBy(le, orders[m]) && multiset(s) == multiset(orders[m]);
      OrderUnique(le, s, orders[m]);
      PageStep(s, m, pageSize);
    }
  }

  lemma PageNotEmpty<T>(ordered: seq<T>, i: nat, pages: nat, pageSize: nat)
    requires pageSize > 0 && i < pages && pages == PagesCount(|ordered|, pageSize)
    ensures PageAt(ordered, i + 1, pageSize) != []
  {
    PagesCountBounds(|ordered|, pageSize);
    PageBeforeLast(|ordered|, pageSize, i, pages);
  }

  lemma CoversAll(pageSize: nat, total: nat)
    requires pageSize > 0
    ensures Covered(pageSize, PagesCount(total, pageSize), total) == total
  {
    PagesCountBounds(total, pageSize);
  }

  /** Pages 1 to `pagesCount` are the whole sorted list. */
  lemma PagesAreWhole<T>(le: (T, T) -> bool, s: seq<T>, orders: seq<seq<T>>, pageSize: nat)
    requires SortedBy(le, s) && StrictOn(le, s) && AllOrdersOf(le, s, orders)
    requires pageSize > 0 && |orders| == PagesCount(|s|, pageSize)
    ensures FirstPages(orders, pageSize) == s
  {
    hide SortedBy, StrictOn, AllOrdersOf;
    PagesArePrefix(le, s, orders, pageSize);
    CoversAll(pageSize, |s|);
  }

  /** A result without ties: the pages are its one sorted list, and none of them is empty. */
  lemma PagesOfSort<T(!new)>(le: (T, T) -> bool, rows: seq<T>, orders: seq<seq<T>>, pageSize: nat)
    requires TotalPreorder(le) && StrictOn(le, rows) && AllOrdersOf(le, rows, orders)
    requires pageSize > 0 && |orders| == PagesCount(|rows|, pageSize)
    ensures FirstPages(orders, pageSize) == Sort(le, rows) && IsOrderBy(le, rows, Sort(le, rows))
    ensures forall i :: 0 <= i < |orders| ==> PageAt(orders[i], i + 1, pageSize) != []
  {
    var s := Sort(le, rows);
    SortIsOrderBy(le, rows);
    hide TotalPreorder, StrictOn, Sort, SortedBy, PagesCount, FirstPages, PageAt;
    OrdersOfSame(le, rows, s, orders);
    StrictSame(le, s, rows);
    PagesAreWhole(le, s, orders, pageSize);
    forall i | 0 <= i < |orders| ensures PageAt(orders[i], i + 1, pageSize) != [] {
      SameMembers(rows, orders[i]);
      PageNotEmpty(orders[i], i, |orders|, pageSize);
    }
  }

  lemma PageBeforeLast(total: nat, pageSize: nat, i: nat, pages: nat)
    requires pageSize > 0 && i < pages && pageSize * pages < total + pageSize
    ensures i * pageSize < total
  {
    assert pageSize * pages == pageSize * (pages - 1) + pageSize;
    assert (pages - 1 - i) * pageSize >= 0;
    assert (pages - 1) * pageSize == i * pageSize + (pages - 1 - i) * pageSize;
  }

  // ------------------------------------------------ with ties

  /** Some page ends between two rows that compare equal. */
  ghost predicate TieAcrossPages<T>(le: (T, T) -> bool, s: seq<T>, pageSize: nat) {
    exists k: nat :: TieAt(le, s, k * pageSize)
  }

  lemma PageBetween<T>(t: seq<T>, pages: nat, pageSize: nat)
    ensures multiset(t[..Covered(pageSize, pages, |t|)]) + multiset(PageAt(t, pages + 1, pageSize))
         == multiset(t[..Covered(pageSize, pages + 1, |t|)])
  {
    PageStep(t, pages, pageSize);
  }

  lemma NoTieAtCovered<T>(le: (T, T) -> bool, s: seq<T>, pageSize: nat, pages: nat)
    requires !TieAcrossPages(le, s, pageSize)
    ensures !TieAt(le, s, Covered(pageSize, pages, |s|))
  {
    assert !TieAt(le, s, pages * pageSize);
    assert pages * pageSize == pageSize * pages;
  }

  lemma {:induction false} PagesCover<T(!new)>(le: (T, T) -> bool, s: seq<T>, orders: seq<seq<T>>, pageSize: nat)
    requires TotalPreorder(le) && SortedBy(le, s) && AllOrdersOf(le, s, orders) && !TieAcrossPages(le, s, pageSize)
    ensures multiset(FirstPages(orders, pageSize)) == multiset(s[..Covered(pageSize, |orders|, |s|)])
    decreases |orders|
  {
    if orders != [] {
      var m := |orders| - 1;
      var t := orders[m];
      assert FirstPages(orders, pageSize) == FirstPages(orders[..m], pageSize) + PageAt(t, m + 1, pageSize);
      assert AllOrdersOf(le, s, orders[..m]) && IsOrderBy(le, s, t);
      hide *;
      PagesCover(le, s, orders[..m], pageSize);
      NoTieAtCovered(le, s, pageSize, m);
      NoTieAtCovered(le, s, pageSize, m + 1);
      SamePrefix(le, s, t, Covered(pageSize, m, |s|));
      SamePrefix(le, s, t, Covered(pageSize, m + 1, |s|));
      PageBetween(t, m, pageSize);
    } else {
      assert Covered(pageSize, 0, |s|) == 0;
    }
  }

  // ------------------------------------------------ a tie across pages repeats a row

  function Swapped<T>(s: seq<T>, at: nat): seq<T>
    requires 0 < at < |s|
  {
    s[at - 1 := s[at]][at := s[at - 1]]
  }

  lemma SwappedIsOrder<T(!new)>(le: (T, T) -> bool, s: seq<T>, at: nat)
    requires TotalPreorder(le) && SortedBy(le, s) && TieAt(le, s, at)
    ensures IsOrderBy(le, s, Swapped(s, at))
  {
    var t := Swapped(s, at);
    assert s == s[..at - 1] + [s[at - 1], s[at]] + s[at + 1..];
    assert t == s[..at - 1] + [s[at], s[at - 1]] + s[at + 1..];
    forall i, j | 0 <= i < j < |t| ensures le(t[i], t[j]) {
      var a := if i == at - 1 then at else if i == at then at - 1 else i;
      var b := if j == at - 1 then at else if j == at then at - 1 else j;
      assert t[i] == s[a] && t[j] == s[b];
      assert (a < b && le(s[a], s[b])) || (a == at && b == at - 1);
    }
  }

  /** The first `k` pages met the order `s`, the others the order with the tied rows swapped. */
  function Mixed<T>(s: seq<T>, t: seq<T>, k: nat, pages: nat): (orders: seq<seq<T>>)
    ensures |orders| == pages
    ensures forall i :: 0 <= i < pages ==> orders[i] == if i < k then s else t
  {
    if pages == 0 then [] else Mixed(s, t, k, pages - 1) + [if pages - 1 < k then s else t]
  }

  lemma {:induction false} FirstPagesAppend<T>(orders: seq<seq<T>>, pageSize: nat, m: nat, x: T)
    requires m <= |orders|
    ensures multiset(FirstPages(orders, pageSize))[x] >= multiset(FirstPages(orders[..m], pageSize))[x]
    decreases |orders|
  {
    if m == |orders| {
      assert orders[..m] == orders;
    } else {
      var l := |orders| - 1;
      assert orders[..l][..m] == orders[..m];
      FirstPagesAppend(orders[..l], pageSize, m, x);
    }
  }

  lemma {:induction false} SamePages<T>(s: seq<T>, orders: seq<seq<T>>, pageSize: nat)
    requires forall i :: 0 <= i < |orders| ==> orders[i] == s
    ensures FirstPages(orders, pageSize) == s[..Covered(pageSize, |orders|, |s|)]
    decreases |orders|
  {
    if orders != [] {
      var m := |orders| - 1;
      SamePages(s, orders[..m], pageSize);
      PageStep(s, m, pageSize);
    }
  }

  lemma BoundaryBeforeEnd(pageSize: nat, k: nat, total: nat)
    requires 0 < k * pageSize < total
    ensures pageSize > 0 && 0 < k < PagesCount(total, pageSize) && Covered(pageSize, k, total) == k * pageSize
  {
    assert pageSize > 0 && k > 0;
    PagesCountBounds(total, pageSize);
    assert forall c: nat :: c <= k ==> pageSize * c <= pageSize * k;
  }

  /** Page `k` in order `s` ends with the row page `k + 1` starts with in order `t`. */
  lemma RowOnBothPages<T>(s: seq<T>, t: seq<T>, k: nat, pageSize: nat, firsts: seq<seq<T>>, orders: seq<seq<T>>)
    requires 0 < k * pageSize < |s| && |t| == |s| && t[k * pageSize] == s[k * pageSize - 1] && pageSize > 0
    requires |firsts| == k && (forall i :: 0 <= i < k ==> firsts[i] == s) && orders == firsts + [t]
    requires Covered(pageSize, k, |s|) == k * pageSize
    ensures multiset(FirstPages(orders, pageSize))[s[k * pageSize - 1]] >= 2
  {
    var at := k * pageSize;
    SamePages(s, firsts, pageSize);
    assert orders[..k] == firsts;
    var first, next := FirstPages(firsts, pageSize), PageAt(t, k + 1, pageSize);
    assert FirstPages(orders, pageSize) == first + next;
    hide FirstPages;
    assert first == s[..at] && first[at - 1] == s[at - 1];
    assert next[0] == t[at];
    TwoOf(first, next, s[at - 1]);
  }

  lemma TieRepeats<T(!new)>(le: (T, T) -> bool, s: seq<T>, k: nat, pageSize: nat) returns (orders: seq<seq<T>>)
    requires TotalPreorder(le) && SortedBy(le, s) && TieAt(le, s, k * pageSize) && pageSize > 0
    ensures |orders| == PagesCount(|s|, pageSize) && AllOrdersOf(le, s, orders)
    ensures multiset(FirstPages(orders, pageSize))[s[k * pageSize - 1]] >= 2
  {
    var t := Swapped(s, k * pageSize);
    BoundaryBeforeEnd(pageSize, k, |s|);
    SwappedIsOrder(le, s, k * pageSize);
    orders := Mixed(s, t, k, PagesCount(|s|, pageSize));
    hide TotalPreorder, SortedBy, PagesCount, FirstPages, PageAt, Covered;
    assert orders[..k + 1] == orders[..k] + [t];
    RowOnBothPages(s, t, k, pageSize, orders[..k], orders[..k + 1]);
    FirstPagesAppend(orders, pageSize, k + 1, s[k * pageSize - 1]);
  }

  lemma TwoOf<T>(a: seq<T>, b: seq<T>, x: T)
    requires x in a && x in b
    ensures multiset(a + b)[x] >= 2
  {
    assert x in multiset(a) && x in multiset(b);
  }

  ghost predicate ShowsEachOnce<T>(le: (T, T) -> bool, rows: seq<T>, pageSize: nat, orders: seq<seq<T>>)
    requires pageSize > 0
  {
    |orders| == PagesCount(|rows|, pageSize) && AllOrdersOf(le, rows, orders) ==>
      multiset(FirstPages(orders, pageSize)) == multiset(rows)
  }

  lemma OrdersOfSame<T>(le: (T, T) -> bool, rows: seq<T>, s: seq<T>, orders: seq<seq<T>>)
    requires multiset(rows) == multiset(s)
    ensures |rows| == |s| && (AllOrdersOf(le, rows, orders) <==> AllOrdersOf(le, s, orders))
  {
    SameMembers(rows, s);
  }

  /** Pages 1 to `pagesCount` show every row exactly once, whatever orders the database picks from
      request to request, if and only if no page ends between two rows that compare equal. */
  lemma PagesExact<T(!new)>(le: (T, T) -> bool, rows: seq<T>, s: seq<T>, pageSize: nat)
    requires TotalPreorder(le) && IsOrderBy(le, rows, s) && Distinct(rows) && pageSize > 0
    ensures (forall orders :: ShowsEachOnce(le, rows, pageSize, orders)) <==> !TieAcrossPages(le, s, pageSize)
  {
    if TieAcrossPages(le, s, pageSize) {
      var k: nat :| TieAt(le, s, k * pageSize);
      var orders := TieRepeats(le, s, k, pageSize);
      OrdersOfSame(le, rows, s, orders);
      assert multiset(rows)[s[k * pageSize - 1]] <= 1 by { DistinctCount(rows); }
      assert !ShowsEachOnce(le, rows, pageSize, orders);
    } else {
      hide TieAcrossPages, TotalPreorder, Distinct, PagesCount, FirstPages, AllOrdersOf;
      forall orders ensures ShowsEachOnce(le, rows, pageSize, orders) {
        OrdersOfSame(le, rows, s, orders);
        if |orders| == PagesCount(|rows|, pageSize) && AllOrdersOf(le, rows, orders) {
          PagesCover(le, s, orders, pageSize);
          CoversAll(pageSize, |s|);
          assert s[..|s|] == s;
        }
      }
    }
  }
}
