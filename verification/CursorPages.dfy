/** Paging by a cursor that may stand for another number than its row's own key: which rows come again
    and which are missed. */
module CursorPages {
  import opened Tables
  import opened Ordering
  import opened Keyset
  import opened KeysetExact

  function Last<T>(page: seq<T>): T
    requires page != []
  {
    page[|page| - 1]
  }

  /** Each page after the first holds the rows with keys below what the last row before stands for;
      `rows` are in the order of their keys, greatest first. */
  ghost predicate Follow<T>(rows: seq<T>, key: T -> int, bound: T -> int, pages: seq<seq<T>>, n: nat) {
    |pages| <= 1 ||
    var m := |pages| - 1;
    Follow(rows, key, bound, pages[..m], n) && pages[m - 1] != []
    && pages[m] == PageAfter(rows, key, bound, pages[m - 1], n)
  }

  function PageAfter<T>(rows: seq<T>, key: T -> int, bound: T -> int, before: seq<T>, n: nat): seq<T>
    requires before != []
  {
    Limit(After(rows, key, Some(bound(Last(before)))), n)
  }

  function Flat<T>(pages: seq<seq<T>>): seq<T> {
    if pages == [] then [] else Flat(pages[..|pages| - 1]) + pages[|pages| - 1]
  }

  lemma LastPage<T>(rows: seq<T>, key: T -> int, bound: T -> int, pages: seq<seq<T>>, n: nat)
    requires Follow(rows, key, bound, pages, n) && |pages| > 1
    ensures var m := |pages| - 1;
            Follow(rows, key, bound, pages[..m], n) && pages[m - 1] != [] && pages[..m] != []
            && Last(pages[..m]) == pages[m - 1]
            && pages[..m][0] == pages[0]
            && pages[m] == PageAfter(rows, key, bound, pages[m - 1], n) && Flat(pages) == Flat(pages[..m]) + pages[m]
  {
    hide PageAfter;
  }

  lemma OnePage<T>(page: seq<T>)
    ensures Flat([page]) == page
  {
    assert [page][..0] == [];
  }

  /** The rows below a number are the rest of the order from some place on. */
  lemma {:induction false} Cut<T>(rows: seq<T>, key: T -> int, at: int) returns (j: nat)
    requires StrictlyDescending(key, rows)
    ensures j <= |rows| && After(rows, key, Some(at)) == rows[j..]
    ensures forall i :: 0 <= i < |rows| ==> (key(rows[i]) < at <==> j <= i)
  {
    if rows == [] {
      j := 0;
    } else if key(rows[0]) < at {
      j := 0;
      forall i | 0 <= i < |rows| ensures key(rows[i]) < at { assert i == 0 || key(rows[0]) > key(rows[i]); }
      FilterAll(Below(key, Some(at)), rows);
    } else {
      var rest := rows[1..];
      var i := Cut(rest, key, at);
      j := i + 1;
      assert After(rows, key, Some(at)) == After(rest, key, Some(at));
      hide Filter;
      forall i | 0 <= i < |rows| ensures key(rows[i]) < at <==> j <= i { assert i == 0 || rows[i] == rest[i - 1]; }
    }
  }

  /** A page starts right after place `r` when what its cursor stands for lies between the keys there. */
  lemma PageFrom<T>(rows: seq<T>, key: T -> int, at: int, r: nat)
    requires StrictlyDescending(key, rows) && 0 < r <= |rows| && at <= key(rows[r - 1])
    requires r < |rows| ==> key(rows[r]) < at
    ensures After(rows, key, Some(at)) == rows[r..]
  {
    var j := Cut(rows, key, at);
    assert !(key(rows[r - 1]) < at);
  }

  lemma StrictDistinct<T>(key: T -> int, rows: seq<T>)
    requires StrictlyDescending(key, rows)
    ensures Distinct(rows)
  {
  }

  // ------------------------------------------------ cursors that stand for greater numbers

  /** After `k` pages the last row's own key is what it stands for. */
  predicate ExactAt<T>(rows: seq<T>, key: T -> int, bound: T -> int, n: nat, k: nat) {
    var r := Reached(n, k, |rows|);
    r > 0 ==> key(rows[r - 1]) == bound(rows[r - 1])
  }

  predicate ExactBefore<T>(rows: seq<T>, key: T -> int, bound: T -> int, n: nat, m: nat) {
    forall k: nat :: 0 < k < m ==> ExactAt(rows, key, bound, n, k)
  }

  lemma ExactSnoc<T>(rows: seq<T>, key: T -> int, bound: T -> int, n: nat, m: nat)
    requires m > 0
    ensures ExactBefore(rows, key, bound, n, m + 1)
       <==> ExactBefore(rows, key, bound, n, m) && ExactAt(rows, key, bound, n, m)
  {
    hide ExactAt;
  }

  /** From a page that ended at place `r`, the next one goes on when the cursor is exact; else its first row
      has been shown. */
  lemma NextOrAgain<T(!new)>(rows: seq<T>, key: T -> int, bound: T -> int, n: nat, r: nat)
    requires StrictlyDescending(key, rows) && 0 < r <= |rows| && key(rows[r - 1]) <= bound(rows[r - 1])
    ensures var page := Limit(After(rows, key, Some(bound(rows[r - 1]))), n);
            if key(rows[r - 1]) == bound(rows[r - 1]) then page == Limit(rows[r..], n)
            else n > 0 ==> exists x :: x in rows[..r] && x in page
  {
    var at := bound(rows[r - 1]);
    var page := Limit(After(rows, key, Some(at)), n);
    if key(rows[r - 1]) == at {
      SplitAtCursor(key, rows, r);
    } else {
      var j := Cut(rows, key, at);
      assert j <= r - 1;
      assert n > 0 ==> page[0] == rows[j] && rows[..r][j] in rows[..r];
    }
  }

  lemma LastShown<T>(shown: seq<T>, before: seq<T>, page: seq<T>, rows: seq<T>, r: nat)
    requires shown == before + page && page != [] && r <= |rows| && shown == rows[..r]
    ensures r > 0 && Last(page) == rows[r - 1]
  {
    assert Last(page) == shown[|shown| - 1];
  }

  lemma FlatLast<T>(pages: seq<seq<T>>)
    requires pages != []
    ensures Flat(pages) == Flat(pages[..|pages| - 1]) + Last(pages)
  {
  }

  lemma FirstReached(n: nat, total: nat)
    ensures Reached(n, 1, total) == if n <= total then n else total
  {
    assert Reached(n, 0, total) == 0;
  }

  /** While its cursors are exact a walk shows the rows in order; the first one that is not shows a row again. */
  lemma {:induction false} InOrderOrAgain<T(!new)>(rows: seq<T>, key: T -> int, bound: T -> int, pages: seq<seq<T>>,
      n: nat)
    requires StrictlyDescending(key, rows) && forall x :: x in rows ==> key(x) <= bound(x)
    requires Follow(rows, key, bound, pages, n) && pages != [] && pages[0] == Limit(rows, n)
    ensures if ExactBefore(rows, key, bound, n, |pages|) then Flat(pages) == rows[..Reached(n, |pages|, |rows|)]
            else !Distinct(Flat(pages))
    decreases |pages|
  {
    if |pages| == 1 {
      assert pages == [pages[0]];
      OnePage(pages[0]);
      FirstReached(n, |rows|);
    } else {
      var m := |pages| - 1;
      var before := pages[..m];
      LastPage(rows, key, bound, pages, n);
      InOrderOrAgain(rows, key, bound, before, n);
      ExactSnoc(rows, key, bound, n, m);
      hide Distinct, StrictlyDescending, Follow;
      if ExactBefore(rows, key, bound, n, m) {
        AgainStep(rows, key, bound, before, n);
      } else {
        assert !Distinct(Flat(before));
        PrefixRepeats(Flat(before), pages[m]);
      }
    }
  }

  lemma PrefixRepeats<T>(a: seq<T>, b: seq<T>)
    requires !Distinct(a)
    ensures !Distinct(a + b)
  {
    if Distinct(a + b) { DistinctHeadPart(a, b); }
  }

  lemma NonEmptyStep<T>(before: seq<seq<T>>, rows: seq<T>, key: T -> int, bound: T -> int, n: nat)
    requires Follow(rows, key, bound, before, n) && before != [] && before[0] == Limit(rows, n) && Last(before) != []
    ensures n > 0
  {
  }

  lemma OnOrAgain<T(!new)>(rows: seq<T>, key: T -> int, bound: T -> int, n: nat, r: nat)
    requires StrictlyDescending(key, rows) && 0 < r <= |rows| && key(rows[r - 1]) <= bound(rows[r - 1]) && n > 0
    ensures var page := Limit(After(rows, key, Some(bound(rows[r - 1]))), n);
            if key(rows[r - 1]) == bound(rows[r - 1])
              then rows[..r] + page == rows[..if r + n <= |rows| then r + n else |rows|]
            else !Distinct(rows[..r] + page)
  {
    NextOrAgain(rows, key, bound, n, r);
    LimitStep(rows, r, n);
    hide StrictlyDescending, Distinct, After;
    var page := Limit(After(rows, key, Some(bound(rows[r - 1]))), n);
    if key(rows[r - 1]) != bound(rows[r - 1]) {
      var x :| x in rows[..r] && x in page;
      CommonRepeats(rows[..r], page, x);
    }
  }

  lemma StopsAt<T>(rows: seq<T>, key: T -> int, bound: T -> int, before: seq<seq<T>>, n: nat)
    requires Follow(rows, key, bound, before, n) && before != [] && before[0] == Limit(rows, n) && Last(before) != []
    requires Flat(before) == rows[..Reached(n, |before|, |rows|)]
    ensures n > 0 && var r := Reached(n, |before|, |rows|); r > 0 && Last(Last(before)) == rows[r - 1]
  {
    NonEmptyStep(before, rows, key, bound, n);
    FlatLast(before);
    LastShown(Flat(before), Flat(before[..|before| - 1]), Last(before), rows, Reached(n, |before|, |rows|));
  }

  lemma AgainStep<T(!new)>(rows: seq<T>, key: T -> int, bound: T -> int, before: seq<seq<T>>, n: nat)
    requires StrictlyDescending(key, rows) && forall x :: x in rows ==> key(x) <= bound(x)
    requires Follow(rows, key, bound, before, n) && before != [] && before[0] == Limit(rows, n) && Last(before) != []
    requires Flat(before) == rows[..Reached(n, |before|, |rows|)]
    ensures var page := PageAfter(rows, key, bound, Last(before), n);
            if ExactAt(rows, key, bound, n, |before|)
              then Flat(before) + page == rows[..Reached(n, |before| + 1, |rows|)]
            else !Distinct(Flat(before) + page)
  {
    var r := Reached(n, |before|, |rows|);
    StopsAt(rows, key, bound, before, n);
    assert rows[r - 1] in rows;
    assert Reached(n, |before| + 1, |rows|) == if r + n <= |rows| then r + n else |rows|;
    hide Flat, StrictlyDescending, Distinct, Follow, After, Reached;
    OnOrAgain(rows, key, bound, n, r);
  }

  /** When cursors may stand for greater numbers than their rows' keys, a walk shows no row twice if and
      only if each row it stopped at stands for its own key. */
  lemma RepeatsIff<T(!new)>(rows: seq<T>, key: T -> int, bound: T -> int, pages: seq<seq<T>>, n: nat)
    requires StrictlyDescending(key, rows) && forall x :: x in rows ==> key(x) <= bound(x)
    requires Follow(rows, key, bound, pages, n) && pages != [] && pages[0] == Limit(rows, n)
    ensures Distinct(Flat(pages)) <==> ExactBefore(rows, key, bound, n, |pages|)
    ensures ExactBefore(rows, key, bound, n, |pages|) ==> Flat(pages) == rows[..Reached(n, |pages|, |rows|)]
  {
    hide *;
    InOrderOrAgain(rows, key, bound, pages, n);
    PrefixDistinct(rows, key, Reached(n, |pages|, |rows|));
  }

  lemma PrefixDistinct<T>(rows: seq<T>, key: T -> int, r: nat)
    requires StrictlyDescending(key, rows) && r <= |rows|
    ensures Distinct(rows[..r])
  {
    StrictDistinct(key, rows);
    assert rows == rows[..r] + rows[r..];
    DistinctHeadPart(rows[..r], rows[r..]);
  }

  // ------------------------------------------------ cursors that stand for smaller numbers

  /** The first page may begin with rows `z` that have no key. After `k` pages the next row lies below
      what the last row stands for. */
  predicate TightAt<T>(z: seq<T>, rows: seq<T>, key: T -> int, bound: T -> int, n: nat, k: nat) {
    var r := n * k - |z|;
    0 < r < |rows| ==> key(rows[r]) < bound(rows[r - 1])
  }

  predicate TightBefore<T>(z: seq<T>, rows: seq<T>, key: T -> int, bound: T -> int, n: nat, m: nat) {
    forall k: nat :: 0 < k < m ==> TightAt(z, rows, key, bound, n, k)
  }

  ghost predicate Tight<T>(z: seq<T>, rows: seq<T>, key: T -> int, bound: T -> int, n: nat) {
    forall k: nat :: k > 0 ==> TightAt(z, rows, key, bound, n, k)
  }

  ghost predicate BoundsLow<T>(rows: seq<T>, key: T -> int, bound: T -> int) {
    forall x :: x in rows ==> bound(x) <= key(x)
  }

  ghost predicate BoundsBelow<T>(z: seq<T>, rows: seq<T>, key: T -> int, bound: T -> int) {
    BoundsLow(rows, key, bound) && forall x :: x in rows ==> x !in z
  }

  /** The place in `rows` a walk reaches with `k` pages while nothing is missed. */
  function Place<T>(z: seq<T>, rows: seq<T>, n: nat, k: nat): (r: int)
    ensures r <= |rows|
  {
    Reached(n, k, |z| + |rows|) - |z|
  }

  lemma NextPlace<T>(z: seq<T>, rows: seq<T>, n: nat, k: nat)
    requires Place(z, rows, n, k) > 0
    ensures var r := Place(z, rows, n, k); Place(z, rows, n, k + 1) == if r + n <= |rows| then r + n else |rows|
  {
  }

  lemma PlaceOne<T>(z: seq<T>, rows: seq<T>, n: nat)
    requires |z| < n && rows != []
    ensures var r := Place(z, rows, n, 1); r > 0 && Limit(rows, n - |z|) == rows[..r]
  {
    FirstReached(n, |z| + |rows|);
  }

  /** A walk whose first page shows `z` and then the first rows; a later cursor stands for its row's key or less. */
  ghost predicate StartsWith<T(!new)>(z: seq<T>, rows: seq<T>, key: T -> int, bound: T -> int, pages: seq<seq<T>>,
      n: nat)
  {
    StrictlyDescending(key, rows) && BoundsBelow(z, rows, key, bound) && rows != [] && |z| < n
    && Follow(rows, key, bound, pages, n) && pages != [] && pages[0] == z + Limit(rows, n - |z|)
  }

  lemma StartsBefore<T(!new)>(z: seq<T>, rows: seq<T>, key: T -> int, bound: T -> int, pages: seq<seq<T>>, n: nat)
    requires StartsWith(z, rows, key, bound, pages, n) && |pages| > 1
    ensures var m := |pages| - 1;
            StartsWith(z, rows, key, bound, pages[..m], n) && pages[m - 1] != [] && Last(pages[..m]) == pages[m - 1]
            && pages[m] == PageAfter(rows, key, bound, pages[m - 1], n) && Flat(pages) == Flat(pages[..m]) + pages[m]
  {
    LastPage(rows, key, bound, pages, n);
  }

  lemma FirstOnly<T(!new)>(z: seq<T>, rows: seq<T>, key: T -> int, bound: T -> int, pages: seq<seq<T>>, n: nat)
    requires StartsWith(z, rows, key, bound, pages, n) && |pages| == 1
    ensures var r := Place(z, rows, n, 1); r > 0 && Flat(pages) == z + rows[..r] && Last(pages) == Flat(pages)
  {
    assert pages == [pages[0]];
    hide Flat, Place, StrictlyDescending, BoundsBelow, Limit;
    OnePage(pages[0]);
    PlaceOne(z, rows, n);
  }

  lemma PageOn<T>(rows: seq<T>, key: T -> int, bound: T -> int, n: nat, r: nat)
    requires StrictlyDescending(key, rows) && 0 < r <= |rows| && bound(rows[r - 1]) <= key(rows[r - 1])
    requires r < |rows| ==> key(rows[r]) < bound(rows[r - 1])
    ensures rows[..r] + Limit(After(rows, key, Some(bound(rows[r - 1]))), n)
            == rows[..if r + n <= |rows| then r + n else |rows|]
  {
    PageFrom(rows, key, bound(rows[r - 1]), r);
    LimitStep(rows, r, n);
  }

  lemma LastAt<T>(shown: seq<T>, before: seq<T>, page: seq<T>, z: seq<T>, rows: seq<T>, r: nat)
    requires shown == before + page && page != [] && 0 < r <= |rows| && shown == z + rows[..r]
    ensures Last(page) == rows[r - 1]
  {
    assert Last(page) == shown[|shown| - 1];
  }

  lemma TightHere<T>(z: seq<T>, rows: seq<T>, key: T -> int, bound: T -> int, n: nat, k: nat)
    requires TightAt(z, rows, key, bound, n, k)
    ensures var r := Place(z, rows, n, k); 0 < r < |rows| ==> key(rows[r]) < bound(rows[r - 1])
  {
    ReachedIs(n, k, |z| + |rows|);
  }

  lemma BoundAt<T(!new)>(z: seq<T>, rows: seq<T>, key: T -> int, bound: T -> int, i: nat)
    requires BoundsBelow(z, rows, key, bound) && i < |rows|
    ensures bound(rows[i]) <= key(rows[i])
  {
  }

  lemma Regroup<T>(a: seq<T>, b: seq<T>, c: seq<T>)
    ensures a + b + c == a + (b + c)
  {
  }

  lemma TightStep<T(!new)>(z: seq<T>, rows: seq<T>, key: T -> int, bound: T -> int, n: nat, m: nat)
    requires StrictlyDescending(key, rows) && BoundsBelow(z, rows, key, bound)
    requires TightAt(z, rows, key, bound, n, m) && Place(z, rows, n, m) > 0
    ensures var r, next := Place(z, rows, n, m), Place(z, rows, n, m + 1);
            next > 0 && z + rows[..r] + Limit(After(rows, key, Some(bound(rows[r - 1]))), n) == z + rows[..next]
  {
    hide *;
    var r := Place(z, rows, n, m);
    NextPlace(z, rows, n, m);
    BoundAt(z, rows, key, bound, r - 1);
    TightHere(z, rows, key, bound, n, m);
    PageOn(rows, key, bound, n, r);
    Regroup(z, rows[..r], Limit(After(rows, key, Some(bound(rows[r - 1]))), n));
  }

  lemma TightSnoc<T>(z: seq<T>, rows: seq<T>, key: T -> int, bound: T -> int, n: nat, m: nat)
    requires TightBefore(z, rows, key, bound, n, m + 1) && m > 0
    ensures TightBefore(z, rows, key, bound, n, m) && TightAt(z, rows, key, bound, n, m)
  {
    hide TightAt;
  }

  /** Where a walk stands: it has shown the rows up to its place, and stopped at the one before it. */
  ghost predicate StandsAt<T>(z: seq<T>, rows: seq<T>, pages: seq<seq<T>>, n: nat)
    requires pages != []
  {
    var r := Place(z, rows, n, |pages|);
    r > 0 && Flat(pages) == z + rows[..r] && (Last(pages) != [] ==> Last(Last(pages)) == rows[r - 1])
  }

  lemma StandsAfter<T>(z: seq<T>, rows: seq<T>, pages: seq<seq<T>>, n: nat)
    requires pages != [] && Place(z, rows, n, |pages|) > 0 && Flat(pages) == z + rows[..Place(z, rows, n, |pages|)]
    ensures StandsAt(z, rows, pages, n)
  {
    FlatLast(pages);
    hide Flat, Place;
    if Last(pages) != [] {
      LastAt(Flat(pages), Flat(pages[..|pages| - 1]), Last(pages), z, rows, Place(z, rows, n, |pages|));
    }
  }

  lemma StandsStep<T(!new)>(z: seq<T>, rows: seq<T>, key: T -> int, bound: T -> int, pages: seq<seq<T>>, n: nat)
    requires StartsWith(z, rows, key, bound, pages, n) && |pages| > 1
    requires StandsAt(z, rows, pages[..|pages| - 1], n) && TightAt(z, rows, key, bound, n, |pages| - 1)
    ensures StandsAt(z, rows, pages, n)
  {
    var m := |pages| - 1;
    StartsBefore(z, rows, key, bound, pages, n);
    hide Place, Flat, Follow, TightAt, StrictlyDescending, BoundsBelow, After, Limit;
    TightStep(z, rows, key, bound, n, m);
    StandsAfter(z, rows, pages, n);
  }

  lemma StandsFirst<T(!new)>(z: seq<T>, rows: seq<T>, key: T -> int, bound: T -> int, pages: seq<seq<T>>, n: nat)
    requires StartsWith(z, rows, key, bound, pages, n) && |pages| == 1
    ensures StandsAt(z, rows, pages, n)
  {
    hide *;
    FirstOnly(z, rows, key, bound, pages, n);
    StandsAfter(z, rows, pages, n);
  }

  lemma StartsNonEmpty<T(!new)>(z: seq<T>, rows: seq<T>, key: T -> int, bound: T -> int, pages: seq<seq<T>>, n: nat)
    requires StartsWith(z, rows, key, bound, pages, n)
    ensures pages != []
  {
    hide Follow, BoundsBelow, StrictlyDescending;
  }

  lemma StartsInit<T(!new)>(z: seq<T>, rows: seq<T>, key: T -> int, bound: T -> int, pages: seq<seq<T>>, n: nat)
    requires StartsWith(z, rows, key, bound, pages, n) && |pages| > 1
    ensures StartsWith(z, rows, key, bound, pages[..|pages| - 1], n) && pages[..|pages| - 1] != []
  {
    hide *;
    StartsBefore(z, rows, key, bound, pages, n);
  }

  /** Until the first gap a walk shows the rows in order. */
  lemma {:induction false} InOrderUntilGap<T(!new)>(z: seq<T>, rows: seq<T>, key: T -> int, bound: T -> int,
      pages: seq<seq<T>>, n: nat)
    requires StartsWith(z, rows, key, bound, pages, n) && TightBefore(z, rows, key, bound, n, |pages|)
    ensures pages != [] && StandsAt(z, rows, pages, n)
    decreases |pages|
  {
    hide *;
    StartsNonEmpty(z, rows, key, bound, pages, n);
    if |pages| == 1 {
      StandsFirst(z, rows, key, bound, pages, n);
    } else {
      StartsInit(z, rows, key, bound, pages, n);
      TightSnoc(z, rows, key, bound, n, |pages| - 1);
      InOrderUntilGap(z, rows, key, bound, pages[..|pages| - 1], n);
      StandsStep(z, rows, key, bound, pages, n);
    }
  }

  // ------------------------------------------------ a row in a gap is not shown

  /** Every row a page holds lies below what its cursor stands for. */
  lemma PageIsBelow<T(!new)>(rows: seq<T>, key: T -> int, at: int, n: nat)
    ensures forall y :: y in Limit(After(rows, key, Some(at)), n) ==> y in rows && key(y) < at
  {
    var range := After(rows, key, Some(at));
    FilterMembers(Below(key, Some(at)), rows);
    forall y | y in Limit(range, n) ensures y in range { }
  }

  /** The next cursor stands for no more than that row's key either, and the row is not on the page. */
  lemma PageSkips<T(!new)>(rows: seq<T>, key: T -> int, bound: T -> int, before: seq<T>, n: nat, x: T)
    requires BoundsLow(rows, key, bound) && before != [] && bound(Last(before)) <= key(x)
    ensures var page := PageAfter(rows, key, bound, before, n);
            x !in page && (page != [] ==> bound(Last(page)) <= key(x))
  {
    var page := PageAfter(rows, key, bound, before, n);
    PageIsBelow(rows, key, bound(Last(before)), n);
    hide After, Limit;
    if page != [] { assert Last(page) in page; }
  }

  /** The row has not been shown, and the next cursor stands for no more than its key. */
  ghost predicate Skipped<T>(key: T -> int, bound: T -> int, pages: seq<seq<T>>, x: T)
    requires pages != []
  {
    x !in Flat(pages) && (Last(pages) != [] ==> bound(Last(Last(pages))) <= key(x))
  }

  lemma SkippedNext<T(!new)>(rows: seq<T>, key: T -> int, bound: T -> int, pages: seq<seq<T>>, n: nat, x: T)
    requires Follow(rows, key, bound, pages, n) && BoundsLow(rows, key, bound) && |pages| > 1
    requires Skipped(key, bound, pages[..|pages| - 1], x)
    ensures Skipped(key, bound, pages, x)
  {
    var m := |pages| - 1;
    LastPage(rows, key, bound, pages, n);
    hide Follow, Flat, PageAfter, BoundsLow;
    PageSkips(rows, key, bound, pages[m - 1], n, x);
    assert Last(pages) == pages[m];
  }

  lemma InitPrefix<T>(pages: seq<T>, k: nat)
    requires 0 < k < |pages|
    ensures var before := pages[..|pages| - 1];
            before != [] && k <= |before| < |pages| && before[..k] == pages[..k] && pages[..k] != []
            && before[k - 1] == pages[k - 1]
  {
  }

  lemma WholePrefix<T>(pages: seq<T>)
    ensures pages[..|pages|] == pages
  {
  }

  lemma FollowInit<T>(rows: seq<T>, key: T -> int, bound: T -> int, pages: seq<seq<T>>, n: nat)
    requires Follow(rows, key, bound, pages, n) && |pages| > 1
    ensures Follow(rows, key, bound, pages[..|pages| - 1], n) && pages[|pages| - 2] != []
  {
    hide PageAfter;
  }

  /** Once a cursor stands for no more than a row's key, the row is not shown any more. */
  lemma {:induction false} NotShownLater<T(!new)>(rows: seq<T>, key: T -> int, bound: T -> int, pages: seq<seq<T>>,
      n: nat, k: nat, x: T)
    requires Follow(rows, key, bound, pages, n) && BoundsLow(rows, key, bound)
    requires 0 < k <= |pages| && Skipped(key, bound, pages[..k], x)
    ensures Skipped(key, bound, pages, x)
    decreases |pages|
  {
    hide *;
    if k == |pages| {
      WholePrefix(pages);
    } else {
      InitPrefix(pages, k);
      FollowInit(rows, key, bound, pages, n);
      NotShownLater(rows, key, bound, pages[..|pages| - 1], n, k, x);
      SkippedNext(rows, key, bound, pages, n, x);
    }
  }

  lemma {:induction false} FollowPrefix<T>(rows: seq<T>, key: T -> int, bound: T -> int, pages: seq<seq<T>>, n: nat,
      k: nat)
    requires Follow(rows, key, bound, pages, n) && 0 < k <= |pages|
    ensures Follow(rows, key, bound, pages[..k], n) && (k < |pages| ==> pages[k - 1] != [])
    decreases |pages|
  {
    hide *;
    if k == |pages| {
      WholePrefix(pages);
    } else {
      InitPrefix(pages, k);
      FollowInit(rows, key, bound, pages, n);
      FollowPrefix(rows, key, bound, pages[..|pages| - 1], n, k);
    }
  }

  lemma StartsPrefix<T(!new)>(z: seq<T>, rows: seq<T>, key: T -> int, bound: T -> int, pages: seq<seq<T>>, n: nat,
      k: nat)
    requires StartsWith(z, rows, key, bound, pages, n) && 0 < k < |pages|
    ensures StartsWith(z, rows, key, bound, pages[..k], n) && Last(pages[..k]) == pages[k - 1] && pages[k - 1] != []
  {
    hide Follow;
    FollowPrefix(rows, key, bound, pages, n, k);
  }

  lemma GapPlace<T>(z: seq<T>, rows: seq<T>, key: T -> int, bound: T -> int, n: nat, k: nat)
    requires !TightAt(z, rows, key, bound, n, k)
    ensures var r := Place(z, rows, n, k); 0 < r < |rows| && key(rows[r]) >= bound(rows[r - 1])
  {
    ReachedIs(n, k, |z| + |rows|);
  }

  lemma NotYetShown<T(!new)>(z: seq<T>, rows: seq<T>, key: T -> int, bound: T -> int, r: nat)
    requires StrictlyDescending(key, rows) && BoundsBelow(z, rows, key, bound) && r < |rows|
    ensures rows[r] !in z + rows[..r]
  {
    assert rows[r] in rows;
    forall i | 0 <= i < r ensures rows[i] != rows[r] { assert key(rows[i]) > key(rows[r]); }
  }

  lemma LowIs<T(!new)>(z: seq<T>, rows: seq<T>, key: T -> int, bound: T -> int, pages: seq<seq<T>>, n: nat)
    requires StartsWith(z, rows, key, bound, pages, n)
    ensures Follow(rows, key, bound, pages, n) && BoundsLow(rows, key, bound)
    ensures StrictlyDescending(key, rows) && BoundsBelow(z, rows, key, bound)
  {
    hide Follow, BoundsLow, StrictlyDescending;
  }

  lemma SkippedAtGap<T(!new)>(z: seq<T>, rows: seq<T>, key: T -> int, bound: T -> int, pages: seq<seq<T>>, n: nat)
    requires pages != [] && StandsAt(z, rows, pages, n)
    requires StrictlyDescending(key, rows) && BoundsBelow(z, rows, key, bound)
    requires var r := Place(z, rows, n, |pages|); 0 < r < |rows| && key(rows[r]) >= bound(rows[r - 1])
    ensures Skipped(key, bound, pages, rows[Place(z, rows, n, |pages|)])
  {
    hide Flat, Place, StrictlyDescending, BoundsBelow;
    NotYetShown(z, rows, key, bound, Place(z, rows, n, |pages|));
  }

  lemma SkippedIs<T>(key: T -> int, bound: T -> int, pages: seq<seq<T>>, rows: seq<T>, r: nat)
    requires pages != [] && r < |rows| && Skipped(key, bound, pages, rows[r])
    ensures rows[r] in rows && rows[r] !in Flat(pages)
  {
    hide Flat;
  }

  /** The row behind the first gap is never shown. */
  lemma GapLosesRow<T(!new)>(z: seq<T>, rows: seq<T>, key: T -> int, bound: T -> int, pages: seq<seq<T>>, n: nat,
      k: nat) returns (x: T)
    requires StartsWith(z, rows, key, bound, pages, n) && 0 < k < |pages|
    requires TightBefore(z, rows, key, bound, n, k) && !TightAt(z, rows, key, bound, n, k)
    ensures x in rows && x !in Flat(pages)
  {
    hide *;
    GapPlace(z, rows, key, bound, n, k);
    StartsPrefix(z, rows, key, bound, pages, n, k);
    LowIs(z, rows, key, bound, pages, n);
    InitPrefix(pages, k);
    InOrderUntilGap(z, rows, key, bound, pages[..k], n);
    SkippedAtGap(z, rows, key, bound, pages[..k], n);
    x := rows[Place(z, rows, n, k)];
    NotShownLater(rows, key, bound, pages, n, k, x);
    SkippedIs(key, bound, pages, rows, Place(z, rows, n, k));
  }

  lemma {:induction false} FirstGap<T>(z: seq<T>, rows: seq<T>, key: T -> int, bound: T -> int, n: nat, m: nat)
    returns (k: nat)
    requires !TightBefore(z, rows, key, bound, n, m)
    ensures 0 < k < m && TightBefore(z, rows, key, bound, n, k) && !TightAt(z, rows, key, bound, n, k)
    decreases m
  {
    hide TightAt;
    if m > 0 && !TightBefore(z, rows, key, bound, n, m - 1) {
      k := FirstGap(z, rows, key, bound, n, m - 1);
    } else {
      k := m - 1;
    }
  }

  // ------------------------------------------------ finished walks

  lemma ShortPageEnds<T(!new)>(z: seq<T>, rows: seq<T>, key: T -> int, bound: T -> int, pages: seq<seq<T>>, n: nat)
    requires StartsWith(z, rows, key, bound, pages, n) && |Last(pages)| < n
             && TightBefore(z, rows, key, bound, n, |pages|)
    ensures Reached(n, |pages|, |z| + |rows|) == |z| + |rows| && Flat(pages) == z + rows
  {
    hide StrictlyDescending, Follow, TightAt, BoundsBelow;
    var m, total := |pages| - 1, |z| + |rows|;
    var c := Reached(n, m, total);
    assert Reached(n, |pages|, total) == if c + n <= total then c + n else total;
    InOrderUntilGap(z, rows, key, bound, pages, n);
    FlatLast(pages);
    if m == 0 {
      assert Flat(pages[..0]) == [];
    } else {
      StartsBefore(z, rows, key, bound, pages, n);
      assert TightBefore(z, rows, key, bound, n, m);
      hide Reached, Flat, StartsWith;
      InOrderUntilGap(z, rows, key, bound, pages[..m], n);
    }
    assert |Flat(pages)| == |Flat(pages[..m])| + |Last(pages)|;
    assert rows[..|rows|] == rows;
  }

  lemma NoGapLater<T>(z: seq<T>, rows: seq<T>, key: T -> int, bound: T -> int, n: nat, m: nat, k: nat)
    requires n * m >= |z| + |rows| && k >= m
    ensures TightAt(z, rows, key, bound, n, k)
  {
    assert n * k == n * m + n * (k - m);
  }

  lemma NoGapAtEnd<T>(z: seq<T>, rows: seq<T>, key: T -> int, bound: T -> int, n: nat, m: nat)
    requires Reached(n, m, |z| + |rows|) == |z| + |rows| && TightBefore(z, rows, key, bound, n, m)
    ensures Tight(z, rows, key, bound, n)
  {
    ReachedIs(n, m, |z| + |rows|);
    hide Reached, TightAt;
    forall k: nat | k > 0 ensures TightAt(z, rows, key, bound, n, k) {
      if k >= m { NoGapLater(z, rows, key, bound, n, m, k); }
    }
  }

  lemma MissesOne<T>(shown: seq<T>, all: seq<T>, x: T)
    requires x in all && x !in shown
    ensures multiset(shown) != multiset(all)
  {
    assert x in multiset(all) && x !in multiset(shown);
  }

  /** When cursors may stand for smaller numbers than their rows' keys, a finished walk has shown every row
      if and only if behind no page end the next row lies at or above what the page's last row stands for. */
  lemma CompleteIff<T(!new)>(z: seq<T>, rows: seq<T>, key: T -> int, bound: T -> int, pages: seq<seq<T>>, n: nat)
    requires StartsWith(z, rows, key, bound, pages, n) && |Last(pages)| < n
    ensures multiset(Flat(pages)) == multiset(z + rows) <==> Tight(z, rows, key, bound, n)
  {
    hide *;
    if TightBefore(z, rows, key, bound, n, |pages|) {
      ShortPageEnds(z, rows, key, bound, pages, n);
      NoGapAtEnd(z, rows, key, bound, n, |pages|);
    } else {
      var k := FirstGap(z, rows, key, bound, n, |pages|);
      var x := GapLosesRow(z, rows, key, bound, pages, n, k);
      MissesOne(Flat(pages), z + rows, x);
      NotTight(z, rows, key, bound, n, k);
    }
  }

  lemma NotTight<T>(z: seq<T>, rows: seq<T>, key: T -> int, bound: T -> int, n: nat, k: nat)
    requires !TightAt(z, rows, key, bound, n, k) && k > 0
    ensures !Tight(z, rows, key, bound, n)
  {
  }

  /** Everything shown so far is one of `z` or a row at or above the page's last. */
  ghost predicate AllAboveLast<T(!new)>(z: seq<T>, key: T -> int, shown: seq<T>, page: seq<T>) {
    page != [] ==> forall x :: x in shown ==> x in z || key(x) >= key(Last(page))
  }

  lemma NextIsNew<T(!new)>(z: seq<T>, rows: seq<T>, key: T -> int, bound: T -> int, shown: seq<T>, before: seq<T>,
      n: nat)
    requires StrictlyDescending(key, rows) && BoundsBelow(z, rows, key, bound)
    requires before != [] && Last(before) in rows && Distinct(shown) && AllAboveLast(z, key, shown, before)
    ensures var page := PageAfter(rows, key, bound, before, n);
            Distinct(shown + page) && AllAboveLast(z, key, shown + page, page) && (forall x :: x in page ==> x in rows)
  {
    var at := bound(Last(before));
    var j := Cut(rows, key, at);
    var page := PageAfter(rows, key, bound, before, n);
    PageIsBelow(rows, key, at, n);
    StrictDistinct(key, rows);
    assert page == rows[j..j + |page|];
    assert Distinct(page);
    hide After, Distinct, PageAfter;
    DistinctAppend(shown, page);
    if page != [] {
      assert Last(page) == rows[j + |page| - 1];
      forall x | x in page ensures key(x) >= key(Last(page)) {
        var i :| 0 <= i < |page| && page[i] == x;
        assert rows[j + i] == x;
      }
      assert Last(page) in page;
    }
  }

  lemma PrefixIsNew<T(!new)>(z: seq<T>, rows: seq<T>, key: T -> int, bound: T -> int, r: nat)
    requires StrictlyDescending(key, rows) && BoundsBelow(z, rows, key, bound) && 0 < r <= |rows| && Distinct(z)
    ensures Distinct(z + rows[..r]) && forall x :: x in z + rows[..r] ==> x in z || key(x) >= key(rows[r - 1])
  {
    StrictDistinct(key, rows);
    assert rows == rows[..r] + rows[r..];
    DistinctHeadPart(rows[..r], rows[r..]);
    hide Distinct;
    forall x | x in rows[..r] ensures x in rows && key(x) >= key(rows[r - 1]) {
      var i :| 0 <= i < r && rows[i] == x;
      assert i == r - 1 || key(rows[i]) > key(rows[r - 1]);
    }
    DistinctAppend(z, rows[..r]);
  }

  lemma NewFrom<T(!new)>(z: seq<T>, rows: seq<T>, key: T -> int, r: nat, page: seq<T>)
    requires 0 < r <= |rows| && page == z + rows[..r]
    requires forall x :: x in page ==> x in z || key(x) >= key(rows[r - 1])
    ensures AllAboveLast(z, key, page, page) && page != [] && Last(page) in rows
  {
    assert Last(page) == rows[r - 1];
  }

  lemma FirstIsNew<T(!new)>(z: seq<T>, rows: seq<T>, key: T -> int, bound: T -> int, pages: seq<seq<T>>, n: nat)
    requires StartsWith(z, rows, key, bound, pages, n) && |pages| == 1 && Distinct(z)
    ensures Distinct(Flat(pages)) && AllAboveLast(z, key, Flat(pages), Last(pages)) && Last(pages) != []
            && Last(Last(pages)) in rows
  {
    hide *;
    var r := Place(z, rows, n, 1);
    LowIs(z, rows, key, bound, pages, n);
    FirstOnly(z, rows, key, bound, pages, n);
    PrefixIsNew(z, rows, key, bound, r);
    NewFrom(z, rows, key, r, Flat(pages));
  }

  /** Such a walk shows no row twice. */
  lemma {:induction false} NoneTwice<T(!new)>(z: seq<T>, rows: seq<T>, key: T -> int, bound: T -> int,
      pages: seq<seq<T>>, n: nat)
    requires StartsWith(z, rows, key, bound, pages, n) && Distinct(z)
    ensures Distinct(Flat(pages)) && AllAboveLast(z, key, Flat(pages), Last(pages))
    ensures Last(pages) != [] ==> Last(Last(pages)) in rows
    decreases |pages|
  {
    if |pages| == 1 {
      FirstIsNew(z, rows, key, bound, pages, n);
    } else {
      var m := |pages| - 1;
      StartsBefore(z, rows, key, bound, pages, n);
      hide Flat, Follow, StrictlyDescending, Distinct, AllAboveLast, PageAfter;
      NoneTwice(z, rows, key, bound, pages[..m], n);
      NextIsNew(z, rows, key, bound, Flat(pages[..m]), pages[m - 1], n);
      if pages[m] != [] { assert Last(pages[m]) in pages[m]; }
    }
  }
}
