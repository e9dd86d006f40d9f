/** Keyset paging of a fixed table with equal timestamps: exactly when a walk misses no row. */
module KeysetExact {
  import opened Tables
  import opened Ordering
  import opened Keyset

  lemma NewestFirstIsTotal<T(!new)>(key: T -> int)
    ensures TotalPreorder(NewestFirst(key))
  {
  }

  function Descending(a: int, b: int): bool { a >= b }

  /** All orders of the same rows agree on the timestamp at each place. */
  lemma SameKeys<T(!new)>(key: T -> int, s: seq<T>, t: seq<T>)
    requires multiset(s) == multiset(t) && SortedBy(NewestFirst(key), s) && SortedBy(NewestFirst(key), t)
    ensures |s| == |t| && forall i :: 0 <= i < |s| ==> key(s[i]) == key(t[i])
  {
    var a, b := Map(key, s), Map(key, t);
    MapMultiset(key, s, t);
    forall i, j | 0 <= i < j < |s| ensures Descending(a[i], a[j]) { assert NewestFirst(key)(s[i], s[j]); }
    forall i, j | 0 <= i < j < |t| ensures Descending(b[i], b[j]) { assert NewestFirst(key)(t[i], t[j]); }
    OrderUnique(Descending, a, b);
  }

  // ------------------------------------------------ one page

  /** Up to `n` more rows from place `c` of `total`. */
  function Upto(c: nat, n: nat, total: nat): (d: nat)
    requires c <= total
    ensures c <= d <= total
  {
    if c + n <= total then c + n else total
  }

  function CursorAt<T>(key: T -> int, s: seq<T>, c: nat): Option<int>
    requires c <= |s|
  {
    if c == 0 then None else Some(key(s[c - 1]))
  }

  /** A cursor at a boundary without a tie cuts the order there. */
  lemma CutAtBoundary<T>(key: T -> int, s: seq<T>, c: nat)
    requires SortedBy(NewestFirst(key), s) && c <= |s| && !TieAt(NewestFirst(key), s, c)
    ensures After(s, key, CursorAt(key, s, c)) == s[c..]
  {
    var p := Below(key, CursorAt(key, s, c));
    if c == 0 {
      FilterAll(p, s);
    } else {
      assert s == s[..c] + s[c..];
      forall i | 0 <= i < c ensures !p(s[..c][i]) { assert i == c - 1 || NewestFirst(key)(s[i], s[c - 1]); }
      forall i | 0 <= i < |s[c..]| ensures p(s[c..][i]) { assert i == 0 || NewestFirst(key)(s[c], s[c + i]); }
      hide SortedBy, TieAt;
      FilterAppend(p, s[..c], s[c..]);
      FilterNone(p, s[..c]);
      FilterAll(p, s[c..]);
    }
  }

  lemma SortedSlice<T>(le: (T, T) -> bool, s: seq<T>, c: nat)
    requires SortedBy(le, s) && c <= |s|
    ensures SortedBy(le, s[c..])
  {
  }

  lemma RequestFromBoundary<T(!new)>(key: T -> int, s: seq<T>, r: Request<T>, c: nat)
    requires SortedBy(NewestFirst(key), s) && c <= |s| && !TieAt(NewestFirst(key), s, c)
    requires multiset(r.table) == multiset(s) && Answered(r, key, CursorAt(key, s, c))
    ensures IsOrderBy(NewestFirst(key), s[c..], r.ordered)
  {
    CutAtBoundary(key, s, c);
    hide Filter;
    FilterMultiset(Below(key, CursorAt(key, s, c)), r.table, s);
  }

  /** The first `w` rows of any order of sorted rows. */
  lemma FirstOfOrder<T(!new)>(key: T -> int, rest: seq<T>, t: seq<T>, w: nat)
    requires SortedBy(NewestFirst(key), rest) && IsOrderBy(NewestFirst(key), rest, t) && w <= |rest|
    ensures |t| == |rest| && (w > 0 ==> PageEnd(t[..w], key) == Some(key(rest[w - 1])))
    ensures !TieAt(NewestFirst(key), rest, w) ==> multiset(t[..w]) == multiset(rest[..w])
  {
    SameKeys(key, rest, t);
    hide SortedBy, TieAt;
    if !TieAt(NewestFirst(key), rest, w) {
      NewestFirstIsTotal(key);
      SamePrefix(NewestFirst(key), rest, t, w);
    }
  }

  lemma SliceTies<T>(le: (T, T) -> bool, s: seq<T>, c: nat, d: nat)
    requires c <= d <= |s|
    ensures s[c..][..d - c] == s[c..d] && (d > c ==> s[c..][d - c - 1] == s[d - 1])
    ensures !TieAt(le, s, d) ==> !TieAt(le, s[c..], d - c)
  {
  }

  lemma PageIsPrefix<T>(ordered: seq<T>, c: nat, n: nat, total: nat)
    requires c + |ordered| == total
    ensures Limit(ordered, n) == ordered[..Upto(c, n, total) - c]
  {
  }

  /** From a boundary without a tie the next page has the rows up to the next boundary, or as many with
      the same last timestamp when that boundary is a tie. */
  lemma PageFromBoundary<T(!new)>(key: T -> int, s: seq<T>, r: Request<T>, c: nat, n: nat)
    requires SortedBy(NewestFirst(key), s) && c <= |s| && !TieAt(NewestFirst(key), s, c)
    requires multiset(r.table) == multiset(s) && Answered(r, key, CursorAt(key, s, c))
    ensures var d, p := Upto(c, n, |s|), Page(r, n);
            |p| == d - c && (d > c ==> PageEnd(p, key) == Some(key(s[d - 1]))) &&
            (!TieAt(NewestFirst(key), s, d) ==> multiset(p) == multiset(s[c..d]))
  {
    var d, rest := Upto(c, n, |s|), s[c..];
    RequestFromBoundary(key, s, r, c);
    SortedSlice(NewestFirst(key), s, c);
    hide SortedBy, Answered, Upto, TieAt, PageEnd, IsOrderBy;
    FirstOfOrder(key, rest, r.ordered, d - c);
    PageIsPrefix(r.ordered, c, n, |s|);
    SliceTies(NewestFirst(key), s, c, d);
  }

  // ------------------------------------------------ until the first tie

  /** None of the first `m` pages begins inside a run of equal timestamps. */
  ghost predicate NoTieBefore<T>(key: T -> int, s: seq<T>, n: nat, m: nat) {
    forall j: nat :: j < m ==> !TieAt(NewestFirst(key), s, Reached(n, j, |s|))
  }

  lemma ReachedNext(n: nat, m: nat, total: nat)
    ensures Reached(n, m + 1, total) == Upto(Reached(n, m, total), n, total)
  {
  }

  /** Where a walk stands after its first pages. */
  ghost predicate Stands<T>(key: T -> int, s: seq<T>, n: nat, walk: seq<Request<T>>) {
    var c := Reached(n, |walk|, |s|);
    |Returned(walk, n)| == c &&
    (walk != [] && Page(walk[|walk| - 1], n) != [] ==> c > 0 && CursorAfter(walk, key, n) == Some(key(s[c - 1]))) &&
    (!TieAt(NewestFirst(key), s, c) ==> multiset(Returned(walk, n)) == multiset(s[..c]))
  }

  lemma SnocIs<T>(key: T -> int, before: seq<Request<T>>, r: Request<T>, n: nat)
    ensures var walk := before + [r];
            walk[|walk| - 1] == r && Returned(walk, n) == Returned(before, n) + Page(r, n)
            && CursorAfter(walk, key, n) == PageEnd(Page(r, n), key)
  {
    assert (before + [r])[..|before|] == before;
  }

  lemma SameParts<T>(s: seq<T>, c: nat, d: nat, a: seq<T>, b: seq<T>)
    requires c <= d <= |s| && multiset(a) == multiset(s[..c]) && multiset(b) == multiset(s[c..d])
    ensures multiset(a + b) == multiset(s[..d])
  {
    assert s[..d] == s[..c] + s[c..d];
  }

  lemma StandsIs<T>(key: T -> int, s: seq<T>, n: nat, walk: seq<Request<T>>)
    requires Stands(key, s, n, walk)
    ensures var c := Reached(n, |walk|, |s|);
            |Returned(walk, n)| == c &&
            (!TieAt(NewestFirst(key), s, c) ==> multiset(Returned(walk, n)) == multiset(s[..c]))
  {
    hide TieAt, Returned, Reached, CursorAfter;
  }

  lemma StandsIf<T>(key: T -> int, s: seq<T>, n: nat, walk: seq<Request<T>>, d: nat, p: seq<T>)
    requires walk != [] && Reached(n, |walk|, |s|) == d && d <= |s| && |Returned(walk, n)| == d
    requires Page(walk[|walk| - 1], n) == p && CursorAfter(walk, key, n) == PageEnd(p, key)
    requires p != [] ==> d > 0 && PageEnd(p, key) == Some(key(s[d - 1]))
    requires !TieAt(NewestFirst(key), s, d) ==> multiset(Returned(walk, n)) == multiset(s[..d])
    ensures Stands(key, s, n, walk)
  {
    hide TieAt, Returned, Reached, CursorAfter, PageEnd, Page;
  }

  lemma StandsFrom<T>(key: T -> int, s: seq<T>, n: nat, before: seq<Request<T>>, r: Request<T>, d: nat)
    requires Stands(key, s, n, before) && !TieAt(NewestFirst(key), s, Reached(n, |before|, |s|))
    requires Reached(n, |before| + 1, |s|) == d && Reached(n, |before|, |s|) <= d
    requires var c, p := Reached(n, |before|, |s|), Page(r, n);
             |p| == d - c && (d > c ==> PageEnd(p, key) == Some(key(s[d - 1]))) &&
             (!TieAt(NewestFirst(key), s, d) ==> multiset(p) == multiset(s[c..d]))
    ensures Stands(key, s, n, before + [r])
  {
    hide *;
    var c := Reached(n, |before|, |s|);
    SnocIs(key, before, r, n);
    StandsIs(key, s, n, before);
    if !TieAt(NewestFirst(key), s, d) { SameParts(s, c, d, Returned(before, n), Page(r, n)); }
    StandsIf(key, s, n, before + [r], d, Page(r, n));
  }

  lemma StandsNext<T(!new)>(key: T -> int, s: seq<T>, n: nat, before: seq<Request<T>>, r: Request<T>)
    requires SortedBy(NewestFirst(key), s) && Stands(key, s, n, before)
    requires !TieAt(NewestFirst(key), s, Reached(n, |before|, |s|)) && multiset(r.table) == multiset(s)
    requires (before != [] ==> Page(before[|before| - 1], n) != []) && Answered(r, key, CursorAfter(before, key, n))
    ensures Stands(key, s, n, before + [r])
  {
    hide *;
    var c := Reached(n, |before|, |s|);
    StandsCursor(key, s, n, before);
    PageFromBoundary(key, s, r, c, n);
    ReachedNext(n, |before|, |s|);
    StandsFrom(key, s, n, before, r, Upto(c, n, |s|));
  }

  lemma StandsCursor<T>(key: T -> int, s: seq<T>, n: nat, before: seq<Request<T>>)
    requires Stands(key, s, n, before) && (before != [] ==> Page(before[|before| - 1], n) != [])
    ensures CursorAfter(before, key, n) == CursorAt(key, s, Reached(n, |before|, |s|))
  {
    hide Returned;
  }

  lemma SeesOnlyLast<T>(walk: seq<Request<T>>, rows: seq<T>)
    requires walk != [] && SeesOnly(walk, rows)
    ensures SeesOnly(walk[..|walk| - 1], rows) && multiset(walk[|walk| - 1].table) == multiset(rows)
  {
  }

  lemma StandsAtStart<T>(key: T -> int, s: seq<T>, n: nat)
    ensures Stands(key, s, n, [])
  {
  }

  lemma NoTieLast<T>(key: T -> int, s: seq<T>, n: nat, m: nat)
    requires NoTieBefore(key, s, n, m + 1)
    ensures !TieAt(NewestFirst(key), s, Reached(n, m, |s|))
  {
  }

  lemma StandsLast<T(!new)>(rows: seq<T>, key: T -> int, s: seq<T>, n: nat, walk: seq<Request<T>>)
    requires IsOrderBy(NewestFirst(key), rows, s) && walk != [] && IsWalk(walk, key, n) && SeesOnly(walk, rows)
    requires NoTieBefore(key, s, n, |walk|) && Stands(key, s, n, walk[..|walk| - 1])
    ensures Stands(key, s, n, walk)
  {
    hide *;
    var m := |walk| - 1;
    assert walk == walk[..m] + [walk[m]];
    OrderOf(NewestFirst(key), rows, s);
    LastStep(walk, key, n);
    SeesOnlyLast(walk, rows);
    NoTieLast(key, s, n, m);
    StandsNext(key, s, n, walk[..m], walk[m]);
  }

  lemma NoTieInit<T>(key: T -> int, s: seq<T>, n: nat, m: nat)
    requires NoTieBefore(key, s, n, m + 1)
    ensures NoTieBefore(key, s, n, m)
  {
    hide TieAt;
  }

  lemma {:induction false} WalkStands<T(!new)>(rows: seq<T>, key: T -> int, s: seq<T>, n: nat, walk: seq<Request<T>>)
    requires IsOrderBy(NewestFirst(key), rows, s) && IsWalk(walk, key, n) && SeesOnly(walk, rows)
    requires NoTieBefore(key, s, n, |walk|)
    ensures Stands(key, s, n, walk)
    decreases |walk|
  {
    hide *;
    if walk == [] {
      StandsAtStart(key, s, n);
    } else {
      LastStep(walk, key, n);
      SeesOnlyLast(walk, rows);
      NoTieInit(key, s, n, |walk| - 1);
      WalkStands(rows, key, s, n, walk[..|walk| - 1]);
      StandsLast(rows, key, s, n, walk);
    }
  }

  // ------------------------------------------------ after a tie

  function AtLeast<T>(key: T -> int, v: int): T -> bool { (x: T) => key(x) >= v }

  ghost predicate CursorNotAbove(cursor: Option<int>, v: int) { cursor.Some? && cursor.value <= v }

  lemma NothingAtLeast<T(!new)>(r: Request<T>, key: T -> int, cursor: Option<int>, n: nat, v: int)
    requires Answered(r, key, cursor) && CursorNotAbove(cursor, v)
    ensures Filter(AtLeast(key, v), Page(r, n)) == []
    ensures Page(r, n) != [] ==> CursorNotAbove(PageEnd(Page(r, n), key), v)
  {
    AnswerBelowCursor(r, key, cursor);
    var p := Page(r, n);
    forall i | 0 <= i < |p| ensures !AtLeast(key, v)(p[i]) {
      assert p[i] == r.ordered[i] && r.ordered[i] in r.ordered && Below(key, cursor)(r.ordered[i]);
    }
    FilterNone(AtLeast(key, v), p);
  }

  /** The walk goes on below a timestamp, having returned these rows as new as that. */
  ghost predicate GoneBelow<T>(key: T -> int, n: nat, walk: seq<Request<T>>, v: int, rows: seq<T>) {
    Filter(AtLeast(key, v), Returned(walk, n)) == rows &&
    ((walk != [] ==> Page(walk[|walk| - 1], n) != []) ==> CursorNotAbove(CursorAfter(walk, key, n), v))
  }

  lemma GoneNext<T(!new)>(key: T -> int, n: nat, walk: seq<Request<T>>, v: int, rows: seq<T>)
    requires walk != [] && IsWalk(walk, key, n) && GoneBelow(key, n, walk[..|walk| - 1], v, rows)
    ensures GoneBelow(key, n, walk, v, rows)
  {
    var m := |walk| - 1;
    var before := walk[..m];
    LastStep(walk, key, n);
    assert Returned(walk, n) == Returned(before, n) + Page(walk[m], n);
    assert CursorAfter(walk, key, n) == PageEnd(Page(walk[m], n), key);
    hide Filter, Returned, Page, CursorAfter, PageEnd, IsWalk, Answered, CursorNotAbove;
    NothingAtLeast(walk[m], key, CursorAfter(before, key, n), n, v);
    FilterAppend(AtLeast(key, v), Returned(before, n), Page(walk[m], n));
  }

  lemma WholeWalk<T>(walk: seq<T>)
    ensures walk[..|walk|] == walk
  {
  }

  lemma InitOf<T>(walk: seq<T>, k: nat)
    requires k < |walk|
    ensures var before := walk[..|walk| - 1]; k <= |before| < |walk| && before[..k] == walk[..k]
  {
  }

  /** Once its cursor is at a timestamp, a walk returns no more rows as new as that. */
  lemma {:induction false} NoneAfterCursor<T(!new)>(key: T -> int, n: nat, walk: seq<Request<T>>, k: nat, v: int,
      rows: seq<T>)
    requires IsWalk(walk, key, n) && k <= |walk| && GoneBelow(key, n, walk[..k], v, rows)
    ensures GoneBelow(key, n, walk, v, rows)
    decreases |walk|
  {
    hide *;
    if k == |walk| {
      WholeWalk(walk);
    } else {
      LastStep(walk, key, n);
      InitOf(walk, k);
      NoneAfterCursor(key, n, walk[..|walk| - 1], k, v, rows);
      GoneNext(key, n, walk, v, rows);
    }
  }

  lemma GoneFrom<T>(key: T -> int, n: nat, walk: seq<Request<T>>, v: int)
    requires CursorNotAbove(CursorAfter(walk, key, n), v)
    ensures GoneBelow(key, n, walk, v, Filter(AtLeast(key, v), Returned(walk, n)))
  {
  }

  lemma GoneRows<T>(key: T -> int, n: nat, walk: seq<Request<T>>, v: int, rows: seq<T>)
    requires GoneBelow(key, n, walk, v, rows)
    ensures Filter(AtLeast(key, v), Returned(walk, n)) == rows
  {
  }

  lemma AtLeastMany<T>(key: T -> int, s: seq<T>, at: nat)
    requires SortedBy(NewestFirst(key), s) && TieAt(NewestFirst(key), s, at)
    ensures |Filter(AtLeast(key, key(s[at - 1])), s)| > at
  {
    var p := AtLeast(key, key(s[at - 1]));
    var head := s[..at + 1];
    forall i | 0 <= i < |head| ensures p(head[i]) { assert i >= at - 1 || NewestFirst(key)(s[i], s[at - 1]); }
    assert s == head + s[at + 1..];
    FilterAppend(p, head, s[at + 1..]);
    FilterAll(p, head);
  }

  lemma SizeOfSame<T>(a: seq<T>, b: seq<T>)
    requires multiset(a) == multiset(b)
    ensures |a| == |b|
  {
    SameMembers(a, b);
  }

  lemma {:induction false} PrefixOfWalk<T>(walk: seq<Request<T>>, key: T -> int, n: nat, rows: seq<T>, k: nat)
    requires IsWalk(walk, key, n) && SeesOnly(walk, rows) && k <= |walk|
    ensures IsWalk(walk[..k], key, n) && SeesOnly(walk[..k], rows)
    ensures 0 < k < |walk| ==> Page(walk[k - 1], n) != []
    decreases |walk|
  {
    hide *;
    if k == |walk| {
      assert walk[..k] == walk;
    } else {
      var before := walk[..|walk| - 1];
      assert before[..k] == walk[..k];
      LastStep(walk, key, n);
      SeesOnlyLast(walk, rows);
      PrefixOfWalk(before, key, n, rows, k);
      assert 0 < k ==> before[k - 1] == walk[k - 1];
    }
  }

  lemma StandsAtTie<T>(key: T -> int, s: seq<T>, n: nat, walk: seq<Request<T>>, at: nat)
    requires Stands(key, s, n, walk) && at == Reached(n, |walk|, |s|) && TieAt(NewestFirst(key), s, at)
    requires walk != [] && Page(walk[|walk| - 1], n) != []
    ensures |Returned(walk, n)| == at && CursorNotAbove(CursorAfter(walk, key, n), key(s[at - 1]))
  {
    hide Returned, CursorAfter;
  }

  lemma FewerAtLeast<T(!new)>(rows: seq<T>, s: seq<T>, returned: seq<T>, first: seq<T>, p: T -> bool, at: nat)
    requires multiset(rows) == multiset(s) && |Filter(p, s)| > at && |first| == at
    requires Filter(p, returned) == Filter(p, first)
    ensures multiset(returned) != multiset(rows)
  {
    hide Filter;
    if multiset(returned) == multiset(rows) {
      FilterMultiset(p, returned, s);
      SizeOfSame(Filter(p, returned), Filter(p, s));
    }
  }

  lemma LastOfPrefix<T>(walk: seq<Request<T>>, k: nat)
    requires 0 < k < |walk|
    ensures |walk[..k]| == k && walk[..k] != [] && walk[..k][|walk[..k]| - 1] == walk[k - 1]
  {
  }

  lemma OrderOf<T>(le: (T, T) -> bool, rows: seq<T>, s: seq<T>)
    requires IsOrderBy(le, rows, s)
    ensures multiset(rows) == multiset(s) && SortedBy(le, s)
  {
  }

  /** A walk that went on past a page end inside a run of equal timestamps has missed a row. */
  lemma TieLosesRow<T(!new)>(rows: seq<T>, key: T -> int, s: seq<T>, n: nat, walk: seq<Request<T>>, k: nat)
    requires IsOrderBy(NewestFirst(key), rows, s) && IsWalk(walk, key, n) && SeesOnly(walk, rows)
    requires 0 < k < |walk| && NoTieBefore(key, s, n, k) && TieAt(NewestFirst(key), s, Reached(n, k, |s|))
    ensures multiset(Returned(walk, n)) != multiset(rows)
  {
    var at := Reached(n, k, |s|);
    assert 0 < at < |s|;
    hide *;
    var v := key(s[at - 1]);
    OrderOf(NewestFirst(key), rows, s);
    PrefixOfWalk(walk, key, n, rows, k);
    LastOfPrefix(walk, k);
    AtLeastMany(key, s, at);
    WalkStands(rows, key, s, n, walk[..k]);
    StandsAtTie(key, s, n, walk[..k], at);
    GoneFrom(key, n, walk[..k], v);
    var rowsBefore := Filter(AtLeast(key, v), Returned(walk[..k], n));
    NoneAfterCursor(key, n, walk, k, v, rowsBefore);
    GoneRows(key, n, walk, v, rowsBefore);
    FewerAtLeast(rows, s, Returned(walk, n), Returned(walk[..k], n), AtLeast(key, v), at);
  }

  // ------------------------------------------------ the exact condition

  /** Some page ends between two rows with equal timestamps. */
  ghost predicate TieAtPageEnd<T>(key: T -> int, s: seq<T>, n: nat) {
    exists k: nat :: TieAt(NewestFirst(key), s, n * k)
  }

  lemma {:induction false} ReachedIs(n: nat, m: nat, total: nat)
    ensures Reached(n, m, total) == if n * m <= total then n * m else total
    decreases m
  {
    if m > 0 {
      ReachedIs(n, m - 1, total);
      assert n * m == n * (m - 1) + n;
    }
  }

  lemma NoTieAnywhere<T>(key: T -> int, s: seq<T>, n: nat, m: nat)
    requires !TieAtPageEnd(key, s, n)
    ensures NoTieBefore(key, s, n, m)
  {
    forall j: nat | j < m ensures !TieAt(NewestFirst(key), s, Reached(n, j, |s|)) {
      ReachedIs(n, j, |s|);
      assert !TieAt(NewestFirst(key), s, n * j);
    }
  }

  lemma {:induction false} FirstTie<T>(key: T -> int, s: seq<T>, n: nat, m: nat) returns (k: nat)
    requires !NoTieBefore(key, s, n, m)
    ensures 0 < k < m && NoTieBefore(key, s, n, k) && TieAt(NewestFirst(key), s, Reached(n, k, |s|))
    decreases m
  {
    hide TieAt;
    if NoTieBefore(key, s, n, m - 1) {
      k := m - 1;
      assert TieAt(NewestFirst(key), s, Reached(n, k, |s|));
      StartIsNoTie(key, s, n);
    } else {
      k := FirstTie(key, s, n, m - 1);
    }
  }

  lemma StartIsNoTie<T>(key: T -> int, s: seq<T>, n: nat)
    ensures !TieAt(NewestFirst(key), s, Reached(n, 0, |s|))
  {
  }

  lemma Finish<T(!new)>(rows: seq<T>, key: T -> int, s: seq<T>, n: nat, walk: seq<Request<T>>)
    requires IsOrderBy(NewestFirst(key), rows, s) && IsWalk(walk, key, n) && SeesOnly(walk, rows) && Ended(walk, n)
    requires NoTieBefore(key, s, n, |walk|)
    ensures Reached(n, |walk|, |s|) == |s| && multiset(Returned(walk, n)) == multiset(rows)
  {
    var m := |walk| - 1;
    LastStep(walk, key, n);
    SeesOnlyLast(walk, rows);
    assert NoTieBefore(key, s, n, m);
    assert Returned(walk, n) == Returned(walk[..m], n) + Page(walk[m], n);
    hide IsWalk, SeesOnly, SortedBy, NoTieBefore, Answered;
    WalkStands(rows, key, s, n, walk);
    WalkStands(rows, key, s, n, walk[..m]);
    ReachedNext(n, m, |s|);
    assert s[..|s|] == s;
  }

  lemma NoTieAtPage<T>(key: T -> int, s: seq<T>, n: nat, m: nat, k: nat)
    requires NoTieBefore(key, s, n, m) && n * m >= |s|
    ensures !TieAt(NewestFirst(key), s, n * k)
  {
    if k < m {
      ReachedIs(n, k, |s|);
      assert !TieAt(NewestFirst(key), s, Reached(n, k, |s|));
    } else {
      assert n * k == n * m + n * (k - m);
    }
  }

  lemma TieBeforeEnd<T>(key: T -> int, s: seq<T>, n: nat, m: nat)
    requires NoTieBefore(key, s, n, m) && Reached(n, m, |s|) == |s|
    ensures !TieAtPageEnd(key, s, n)
  {
    ReachedIs(n, m, |s|);
    hide NoTieBefore, Reached, TieAt;
    forall k: nat ensures !TieAt(NewestFirst(key), s, n * k) { NoTieAtPage(key, s, n, m, k); }
  }

  /** A finished walk over a fixed table has returned every row exactly once if and only if no page end
      of the table's order falls between two rows with equal timestamps. */
  lemma WalkExact<T(!new)>(rows: seq<T>, key: T -> int, s: seq<T>, n: nat, walk: seq<Request<T>>)
    requires IsOrderBy(NewestFirst(key), rows, s) && IsWalk(walk, key, n) && SeesOnly(walk, rows) && Ended(walk, n)
    ensures multiset(Returned(walk, n)) == multiset(rows) <==> !TieAtPageEnd(key, s, n)
  {
    hide IsWalk, SeesOnly, SortedBy, NoTieBefore, TieAtPageEnd, Returned, TieAt;
    if NoTieBefore(key, s, n, |walk|) {
      Finish(rows, key, s, n, walk);
      TieBeforeEnd(key, s, n, |walk|);
    } else {
      var k := FirstTie(key, s, n, |walk|);
      TieLosesRow(rows, key, s, n, walk, k);
      if !TieAtPageEnd(key, s, n) { NoTieAnywhere(key, s, n, |walk|); }
    }
  }
}
