/** Keyset paging: a page holds the newest rows strictly older than the cursor's timestamp,
    and the last row of a page is the cursor of the next request. */
module Keyset {
  import opened Tables
  import opened Ordering
  import opened Paginator

  function NewestFirst<T>(key: T -> int): (T, T) -> bool {
    (x: T, y: T) => key(x) >= key(y)
  }

  function Below<T>(key: T -> int, cursor: Option<int>): T -> bool {
    (x: T) => cursor.None? || key(x) < cursor.value
  }

  /** The rows a request with this cursor ranges over (and counts). */
  function After<T>(rows: seq<T>, key: T -> int, cursor: Option<int>): seq<T> {
    Filter(Below(key, cursor), rows)
  }

  /** One request: the table it saw and the order the database chose for the rows after the
      cursor. Rows with equal timestamps come in any order. */
  datatype Request<T> = Request(table: seq<T>, ordered: seq<T>)

  function Page<T>(r: Request<T>, n: nat): seq<T> {
    Limit(r.ordered, n)
  }

  ghost predicate Answered<T>(r: Request<T>, key: T -> int, cursor: Option<int>) {
    IsOrderBy(NewestFirst(key), After(r.table, key, cursor), r.ordered)
  }

  /** The cursor the client sends next: the last row of the latest page. */
  function CursorAfter<T>(walk: seq<Request<T>>, key: T -> int, n: nat): Option<int> {
    if walk == [] then None else PageEnd(Page(walk[|walk| - 1], n), key)
  }

  function PageEnd<T>(page: seq<T>, key: T -> int): Option<int> {
    if page == [] then None else Some(key(page[|page| - 1]))
  }

  /** A client's walk: it asks again only after a page that has a last row. */
  ghost predicate IsWalk<T>(walk: seq<Request<T>>, key: T -> int, n: nat) {
    walk == [] ||
    var m := |walk| - 1;
    IsWalk(walk[..m], key, n) &&
    (m > 0 ==> Page(walk[m - 1], n) != []) &&
    Answered(walk[m], key, CursorAfter(walk[..m], key, n))
  }

  /** Everything the walk returned, in order. */
  function Returned<T>(walk: seq<Request<T>>, n: nat): seq<T> {
    if walk == [] then [] else Returned(walk[..|walk| - 1], n) + Page(walk[|walk| - 1], n)
  }

  function NonEmptyPages<T>(walk: seq<Request<T>>, n: nat): nat {
    if walk == [] then 0
    else NonEmptyPages(walk[..|walk| - 1], n) + if Page(walk[|walk| - 1], n) == [] then 0 else 1
  }

  /** `table` is `rows` plus rows newer than all of them. */
  ghost predicate GrownFrom<T(!new)>(rows: seq<T>, table: seq<T>, key: T -> int) {
    multiset(rows) <= multiset(table) &&
    forall x, y :: x in multiset(table) - multiset(rows) && y in rows ==> key(x) > key(y)
  }

  /** The first request saw `rows`; newer rows may have arrived before each later one. */
  ghost predicate SeesGrowing<T(!new)>(walk: seq<Request<T>>, rows: seq<T>, key: T -> int) {
    walk == [] ||
    var m := |walk| - 1;
    SeesGrowing(walk[..m], rows, key) &&
    GrownFrom(rows, walk[m].table, key) &&
    (m == 0 ==> multiset(walk[m].table) == multiset(rows))
  }

  /** Every request saw the same rows. */
  ghost predicate SeesOnly<T>(walk: seq<Request<T>>, rows: seq<T>) {
    forall i :: 0 <= i < |walk| ==> multiset(walk[i].table) == multiset(rows)
  }

  ghost predicate StrictlyDescending<T>(key: T -> int, xs: seq<T>) {
    forall i, j :: 0 <= i < j < |xs| ==> key(xs[i]) > key(xs[j])
  }

  // ------------------------------------------------ one page of a table without ties

  lemma SplitAtCursor<T>(key: T -> int, s: seq<T>, k: nat)
    requires StrictlyDescending(key, s) && 0 < k <= |s|
    ensures After(s, key, Some(key(s[k - 1]))) == s[k..]
  {
    var p := Below(key, Some(key(s[k - 1])));
    assert s == s[..k] + s[k..];
    FilterAppend(p, s[..k], s[k..]);
    FilterNone(p, s[..k]);
    FilterAll(p, s[k..]);
  }

  lemma DescendingTail<T>(key: T -> int, s: seq<T>, k: nat)
    requires StrictlyDescending(key, s) && k <= |s|
    ensures SortedBy(NewestFirst(key), s[k..]) && StrictOn(NewestFirst(key), s[k..])
  {
    var t := s[k..];
    forall i, j | 0 <= i < j < |t| ensures NewestFirst(key)(t[i], t[j]) { assert t[i] == s[k + i] && t[j] == s[k + j]; }
    forall x, y | x in t && y in t && NewestFirst(key)(x, y) && NewestFirst(key)(y, x) ensures x == y {
      var i :| 0 <= i < |t| && t[i] == x;
      var j :| 0 <= j < |t| && t[j] == y;
      assert s[k + i] == x && s[k + j] == y;
    }
  }

  lemma PageOfSorted<T(!new)>(r: Request<T>, key: T -> int, s: seq<T>, k: nat)
    requires StrictlyDescending(key, s) && k <= |s|
    requires var c := if k == 0 then None else Some(key(s[k - 1]));
             Answered(r, key, c) && multiset(After(r.table, key, c)) == multiset(After(s, key, c))
    ensures r.ordered == s[k..]
  {
    var c := if k == 0 then None else Some(key(s[k - 1]));
    hide StrictlyDescending, SortedBy, StrictOn, Filter;
    assert After(s, key, c) == s[k..] by {
      if k == 0 { FilterAll(Below(key, c), s); } else { SplitAtCursor(key, s, k); }
    }
    DescendingTail(key, s, k);
    StrictSame(NewestFirst(key), r.ordered, s[k..]);
    OrderUnique(NewestFirst(key), r.ordered, s[k..]);
  }

  /** Newer rows do not change what lies after a cursor taken from the old ones. */
  lemma NewerRowsUnseen<T(!new)>(rows: seq<T>, table: seq<T>, key: T -> int, y: T)
    requires GrownFrom(rows, table, key) && y in rows
    ensures multiset(After(table, key, Some(key(y)))) == multiset(After(rows, key, Some(key(y))))
  {
    var p := Below(key, Some(key(y)));
    var a, b := multiset(Filter(p, table)), multiset(Filter(p, rows));
    forall x: T ensures a[x] == b[x] {
      FilterCount(p, table, x);
      FilterCount(p, rows, x);
      if multiset(rows)[x] < multiset(table)[x] { assert x in multiset(table) - multiset(rows); }
    }
    assert a == b;
  }

  /** How many of `total` rows `m` pages of up to `n` rows reach. */
  function Reached(n: nat, m: nat, total: nat): (r: nat)
    ensures r <= total
  {
    if m == 0 then 0
    else var k := Reached(n, m - 1, total); if k + n <= total then k + n else total
  }

  lemma CursorIsLastReturned<T>(key: T -> int, s: seq<T>, k: nat, walk: seq<Request<T>>, n: nat)
    requires k <= |s| && Returned(walk, n) == s[..k]
    requires walk != [] ==> Page(walk[|walk| - 1], n) != []
    ensures CursorAfter(walk, key, n) == if k == 0 then None else Some(key(s[k - 1]))
  {
    if walk != [] {
      var f, l := Returned(walk, n), Page(walk[|walk| - 1], n);
      assert f == Returned(walk[..|walk| - 1], n) + l;
      assert f[|f| - 1] == l[|l| - 1];
    }
  }

  lemma LimitStep<T>(s: seq<T>, k: nat, n: nat)
    requires k <= |s|
    ensures s[..k] + Limit(s[k..], n) == s[..if k + n <= |s| then k + n else |s|]
  {
  }

  lemma NextPage<T(!new)>(rows: seq<T>, key: T -> int, s: seq<T>, k: nat, n: nat, walk: seq<Request<T>>, r: Request<T>)
    requires multiset(rows) == multiset(s) && StrictlyDescending(key, s)
    requires GrownFrom(rows, r.table, key) && (walk == [] ==> multiset(r.table) == multiset(rows))
    requires k <= |s| && Returned(walk, n) == s[..k]
    requires walk != [] ==> Page(walk[|walk| - 1], n) != []
    requires Answered(r, key, CursorAfter(walk, key, n))
    ensures Page(r, n) == Limit(s[k..], n)
  {
    CursorIsLastReturned(key, s, k, walk, n);
    var c := CursorAfter(walk, key, n);
    FilterMultiset(Below(key, c), rows, s);
    SameMembers(rows, s);
    if walk == [] {
      FilterMultiset(Below(key, c), r.table, rows);
    } else {
      assert s[k - 1] in s;
      NewerRowsUnseen(rows, r.table, key, s[k - 1]);
    }
    PageOfSorted(r, key, s, k);
  }

  lemma LastRequest<T(!new)>(walk: seq<Request<T>>, key: T -> int, n: nat, rows: seq<T>)
    requires walk != [] && IsWalk(walk, key, n) && SeesGrowing(walk, rows, key)
    ensures var m := |walk| - 1;
            var before := walk[..m];
            IsWalk(before, key, n) && SeesGrowing(before, rows, key) && GrownFrom(rows, walk[m].table, key)
            && (before == [] ==> multiset(walk[m].table) == multiset(rows))
            && (before != [] ==> Page(before[|before| - 1], n) != [])
            && Answered(walk[m], key, CursorAfter(before, key, n))
  {
  }

  /** Without ties a walk returns a prefix of the rows present at its start, newest first,
      even while newer rows arrive. */
  lemma {:induction false} WalkPrefix<T(!new)>(rows: seq<T>, key: T -> int, s: seq<T>, n: nat, walk: seq<Request<T>>)
    requires multiset(rows) == multiset(s) && StrictlyDescending(key, s)
    requires IsWalk(walk, key, n) && SeesGrowing(walk, rows, key)
    ensures Returned(walk, n) == s[..Reached(n, |walk|, |s|)]
    decreases |walk|
  {
    if walk != [] {
      var m := |walk| - 1;
      var before := walk[..m];
      LastRequest(walk, key, n, rows);
      assert Returned(walk, n) == Returned(before, n) + Page(walk[m], n);
      var k := Reached(n, m, |s|);
      assert Reached(n, m + 1, |s|) == if k + n <= |s| then k + n else |s|;
      hide *;
      WalkPrefix(rows, key, s, n, before);
      NextPage(rows, key, s, k, n, before, walk[m]);
      LimitStep(s, k, n);
    }
  }

  // ------------------------------------------------ how many pages

  lemma {:induction false} ReachedByCount(n: nat, m: nat, total: nat)
    requires n > 0
    ensures Reached(n, m, total) == (if m < PagesCount(total, n) then n * m else total)
    ensures m < PagesCount(total, n) ==> n * m < total
    decreases m
  {
    var c := PagesCount(total, n);
    PagesCountBounds(total, n);
    if m < c { Monotone(n, m + 1, c); }
    if m > 0 {
      ReachedByCount(n, m - 1, total);
      assert n * m == n * (m - 1) + n;
      if m == c { } else if m < c { }
    }
  }

  lemma Monotone(n: nat, a: nat, b: nat)
    requires a <= b
    ensures n * a <= n * b && n * a == n * (a - 1) + n
  {
    assert n * b == n * a + n * (b - a);
    assert n * (b - a) >= 0;
  }

  lemma {:induction false} PagesOfWalk<T(!new)>(rows: seq<T>, key: T -> int, s: seq<T>, n: nat, walk: seq<Request<T>>)
    requires multiset(rows) == multiset(s) && StrictlyDescending(key, s) && n > 0
    requires IsWalk(walk, key, n) && SeesGrowing(walk, rows, key)
    ensures var c := PagesCount(|s|, n); NonEmptyPages(walk, n) == if |walk| < c then |walk| else c
    decreases |walk|
  {
    if walk != [] {
      var m := |walk| - 1;
      var before := walk[..m];
      LastRequest(walk, key, n, rows);
      assert NonEmptyPages(walk, n) == NonEmptyPages(before, n) + if Page(walk[m], n) == [] then 0 else 1;
      hide *;
      var k := Reached(n, m, |s|);
      PagesOfWalk(rows, key, s, n, before);
      WalkPrefix(rows, key, s, n, before);
      NextPage(rows, key, s, k, n, before, walk[m]);
      ReachedByCount(n, m, |s|);
      assert n > 0 && |Limit(s[k..], n)| == 0 <==> k == |s|;
    }
  }

  // ------------------------------------------------ complete walks

  ghost predicate NoTies<T>(key: T -> int, rows: seq<T>) {
    forall i, j :: 0 <= i < j < |rows| ==> key(rows[i]) != key(rows[j])
  }

  ghost predicate AllAbove<T>(key: T -> int, x: T, xs: seq<T>) {
    forall i :: 0 <= i < |xs| ==> key(x) > key(xs[i])
  }

  ghost predicate NoneTied<T>(key: T -> int, x: T, xs: seq<T>) {
    forall y :: y in xs ==> key(y) != key(x)
  }

  lemma ConsStrict<T>(key: T -> int, x: T, xs: seq<T>)
    requires StrictlyDescending(key, xs) && AllAbove(key, x, xs)
    ensures StrictlyDescending(key, [x] + xs)
  {
    var r := [x] + xs;
    forall i, j | 0 <= i < j < |r| ensures key(r[i]) > key(r[j]) {
      assert r[j] == xs[j - 1];
      if i > 0 { assert r[i] == xs[i - 1]; }
    }
  }

  lemma HeadAboveInsert<T>(key: T -> int, x: T, xs: seq<T>)
    requires StrictlyDescending(key, xs) && xs != [] && key(x) < key(xs[0])
    ensures AllAbove(key, xs[0], Insert(NewestFirst(key), x, xs[1..]))
  {
    var t := Insert(NewestFirst(key), x, xs[1..]);
    InsertMembers(NewestFirst(key), x, xs[1..]);
    hide Insert;
    forall k | 0 <= k < |t| ensures key(xs[0]) > key(t[k]) {
      assert t[k] in multiset(t);
      if t[k] != x {
        assert t[k] in xs[1..];
        var i :| 0 <= i < |xs[1..]| && xs[1..][i] == t[k];
        assert xs[i + 1] == t[k];
      }
    }
  }

  lemma HeadAboveTail<T>(key: T -> int, x: T, xs: seq<T>)
    requires StrictlyDescending(key, xs) && xs != [] && key(x) > key(xs[0])
    ensures AllAbove(key, x, xs)
  {
    forall i | 0 <= i < |xs| ensures key(x) > key(xs[i]) {
      if i > 0 { assert key(xs[0]) > key(xs[i]); }
    }
  }

  lemma StrictRest<T>(key: T -> int, xs: seq<T>)
    requires StrictlyDescending(key, xs) && xs != []
    ensures StrictlyDescending(key, xs[1..])
  {
  }

  lemma {:induction false} InsertStrict<T>(key: T -> int, x: T, xs: seq<T>)
    requires StrictlyDescending(key, xs) && NoneTied(key, x, xs)
    ensures StrictlyDescending(key, Insert(NewestFirst(key), x, xs))
  {
    hide StrictlyDescending, AllAbove;
    if xs == [] {
      assert StrictlyDescending(key, [x]) by { OneStrict(key, x); }
    } else if key(x) >= key(xs[0]) {
      assert xs[0] in xs;
      HeadAboveTail(key, x, xs);
      ConsStrict(key, x, xs);
    } else {
      assert forall y :: y in xs[1..] ==> y in xs;
      StrictRest(key, xs);
      InsertStrict(key, x, xs[1..]);
      HeadAboveInsert(key, x, xs);
      ConsStrict(key, xs[0], Insert(NewestFirst(key), x, xs[1..]));
    }
  }

  lemma OneStrict<T>(key: T -> int, x: T)
    ensures StrictlyDescending(key, [x])
  {
  }

  lemma NoTiesTail<T>(key: T -> int, rows: seq<T>)
    requires NoTies(key, rows) && rows != []
    ensures NoTies(key, rows[1..]) && NoneTied(key, rows[0], rows[1..])
  {
    forall y | y in rows[1..] ensures key(y) != key(rows[0]) {
      var j :| 0 <= j < |rows[1..]| && rows[1..][j] == y;
      assert rows[j + 1] == y;
    }
  }

  /** A table without ties has one newest-first order. */
  lemma {:induction false} StrictOrder<T>(key: T -> int, rows: seq<T>) returns (s: seq<T>)
    requires NoTies(key, rows)
    ensures s == Sort(NewestFirst(key), rows)
    ensures multiset(s) == multiset(rows) && StrictlyDescending(key, s)
  {
    s := Sort(NewestFirst(key), rows);
    if rows != [] {
      assert s == Insert(NewestFirst(key), rows[0], Sort(NewestFirst(key), rows[1..]));
      hide NoTies, StrictlyDescending, Insert;
      NoTiesTail(key, rows);
      var t := StrictOrder(key, rows[1..]);
      assert rows == [rows[0]] + rows[1..];
      SameMembers(t, rows[1..]);
      InsertStrict(key, rows[0], t);
      InsertMembers(NewestFirst(key), rows[0], t);
    }
  }

  /** A walk has ended when a page comes back short. */
  ghost predicate Ended<T>(walk: seq<Request<T>>, n: nat) {
    walk != [] && |Page(walk[|walk| - 1], n)| < n
  }

  lemma EndedReachesAll<T(!new)>(rows: seq<T>, key: T -> int, s: seq<T>, n: nat, walk: seq<Request<T>>)
    requires multiset(rows) == multiset(s) && StrictlyDescending(key, s)
    requires IsWalk(walk, key, n) && SeesGrowing(walk, rows, key) && Ended(walk, n)
    ensures Reached(n, |walk|, |s|) == |s|
  {
    var m := |walk| - 1;
    WalkPrefix(rows, key, s, n, walk[..m]);
    NextPage(rows, key, s, Reached(n, m, |s|), n, walk[..m], walk[m]);
  }

  lemma EndedByCount<T(!new)>(rows: seq<T>, key: T -> int, s: seq<T>, n: nat, walk: seq<Request<T>>)
    requires multiset(rows) == multiset(s) && StrictlyDescending(key, s)
    requires IsWalk(walk, key, n) && SeesGrowing(walk, rows, key) && Ended(walk, n)
    ensures Returned(walk, n) == s && NonEmptyPages(walk, n) == PagesCount(|s|, n)
  {
    EndedReachesAll(rows, key, s, n, walk);
    ReachedByCount(n, |walk|, |s|);
    WalkPrefix(rows, key, s, n, walk);
    PagesOfWalk(rows, key, s, n, walk);
  }

  /** Without ties a finished walk has returned every row present at its start exactly once,
      newest first, in `PagesCount` non-empty pages, however many newer rows arrived meanwhile. */
  lemma WalkIsComplete<T(!new)>(rows: seq<T>, key: T -> int, n: nat, walk: seq<Request<T>>)
    requires NoTies(key, rows) && IsWalk(walk, key, n) && SeesGrowing(walk, rows, key) && Ended(walk, n)
    ensures Returned(walk, n) == Sort(NewestFirst(key), rows)
    ensures multiset(Returned(walk, n)) == multiset(rows) && StrictlyDescending(key, Returned(walk, n))
    ensures NonEmptyPages(walk, n) == PagesCount(|rows|, n)
  {
    var s := StrictOrder(key, rows);
    assert |multiset(s)| == |s| && |multiset(rows)| == |rows|;
    EndedByCount(rows, key, s, n, walk);
  }

  lemma WalkSnoc<T>(walk: seq<Request<T>>, r: Request<T>, key: T -> int, n: nat)
    requires IsWalk(walk, key, n) && Answered(r, key, CursorAfter(walk, key, n))
    requires walk != [] ==> Page(walk[|walk| - 1], n) != []
    ensures IsWalk(walk + [r], key, n) && Returned(walk + [r], n) == Returned(walk, n) + Page(r, n)
  {
    assert (walk + [r])[..|walk|] == walk;
  }

  lemma {:induction false} SeesFixed<T(!new)>(walk: seq<Request<T>>, rows: seq<T>, key: T -> int)
    requires forall i :: 0 <= i < |walk| ==> walk[i].table == rows
    ensures SeesGrowing(walk, rows, key)
    decreases |walk|
  {
    if walk != [] { SeesFixed(walk[..|walk| - 1], rows, key); }
  }

  // ------------------------------------------------ with ties

  ghost predicate TablesDistinct<T>(walk: seq<Request<T>>) {
    forall i :: 0 <= i < |walk| ==> Distinct(walk[i].table)
  }

  lemma AnswerBelowCursor<T(!new)>(r: Request<T>, key: T -> int, cursor: Option<int>)
    requires Answered(r, key, cursor)
    ensures forall x :: x in r.ordered <==> x in r.table && Below(key, cursor)(x)
    ensures Distinct(r.table) ==> Distinct(r.ordered)
  {
    SameMembers(After(r.table, key, cursor), r.ordered);
    FilterMembers(Below(key, cursor), r.table);
    if Distinct(r.table) {
      FilterDistinct(Below(key, cursor), r.table);
      DistinctCount(After(r.table, key, cursor));
      CountDistinct(r.ordered);
    }
  }

  lemma PageDescends<T>(r: Request<T>, key: T -> int, cursor: Option<int>, n: nat)
    requires Answered(r, key, cursor) && Page(r, n) != []
    ensures var p := Page(r, n);
            var last := key(p[|p| - 1]);
            (forall x :: x in p ==> key(x) >= last) &&
            (forall x :: x in r.ordered && x !in p ==> key(x) <= last)
  {
    var p := Page(r, n);
    forall x | x in r.ordered ensures x in p || key(x) <= key(p[|p| - 1]) {
      var i :| 0 <= i < |r.ordered| && r.ordered[i] == x;
      if i < |p| { assert p[i] == x; }
    }
  }

  lemma DistinctAppend<T>(a: seq<T>, b: seq<T>)
    requires Distinct(a) && Distinct(b) && forall x :: x in b ==> x !in a
    ensures Distinct(a + b)
  {
    var c := a + b;
    forall i, j | 0 <= i < j < |c| ensures c[i] != c[j] {
      if i >= |a| { assert c[i] == b[i - |a|] && c[j] == b[j - |a|]; }
      else if j >= |a| { assert c[j] == b[j - |a|] && b[j - |a|] in b; }
    }
  }

  lemma DistinctParts<T(!new)>(a: seq<T>, b: seq<T>)
    requires Distinct(b)
    ensures Distinct(a + b) <==> Distinct(a) && !exists x :: x in a && x in b
  {
    if Distinct(a + b) {
      DistinctHeadPart(a, b);
      forall x | x in a && x in b ensures false { CommonRepeats(a, b, x); }
    } else if Distinct(a) && !exists x :: x in a && x in b {
      DistinctAppend(a, b);
    }
  }

  lemma DistinctHeadPart<T>(a: seq<T>, b: seq<T>)
    requires Distinct(a + b)
    ensures Distinct(a)
  {
    var c := a + b;
    forall i, j | 0 <= i < j < |a| ensures a[i] != a[j] { assert c[i] == a[i] && c[j] == a[j]; }
  }

  lemma CommonRepeats<T>(a: seq<T>, b: seq<T>, x: T)
    requires x in a && x in b
    ensures !Distinct(a + b)
  {
    var c := a + b;
    var i :| 0 <= i < |a| && a[i] == x;
    var j :| 0 <= j < |b| && b[j] == x;
    assert c[i] == c[|a| + j];
  }

  ghost predicate AllAtLeast<T>(key: T -> int, cursor: Option<int>, xs: seq<T>) {
    cursor.Some? ==> forall x :: x in xs ==> key(x) >= cursor.value
  }

  lemma NextPageIsNew<T(!new)>(r: Request<T>, key: T -> int, cursor: Option<int>, n: nat, had: seq<T>)
    requires Answered(r, key, cursor) && Distinct(r.table) && Distinct(had)
    requires AllAtLeast(key, cursor, had) && (cursor.None? ==> had == [])
    ensures Distinct(had + Page(r, n))
    ensures AllAtLeast(key, PageEnd(Page(r, n), key), had + Page(r, n))
  {
    var p := Page(r, n);
    AnswerBelowCursor(r, key, cursor);
    forall x | x in p ensures Below(key, cursor)(x) {
      var i :| 0 <= i < |p| && p[i] == x;
      assert r.ordered[i] == x && x in r.ordered;
    }
    DistinctAppend(had, p);
    if p != [] {
      PageDescends(r, key, cursor, n);
      PageEndBelowCursor(r, key, cursor, n);
    }
  }

  /** However the tables change between requests and however ties are ordered, a walk never
      returns the same row twice, and everything it returned is at or above its cursor. */
  lemma {:induction false} WalkNeverRepeats<T(!new)>(key: T -> int, n: nat, walk: seq<Request<T>>)
    requires IsWalk(walk, key, n) && TablesDistinct(walk)
    ensures Distinct(Returned(walk, n))
    ensures AllAtLeast(key, CursorAfter(walk, key, n), Returned(walk, n))
    decreases |walk|
  {
    if walk != [] {
      var m := |walk| - 1;
      var before := walk[..m];
      LastStep(walk, key, n);
      FirstCursor(before, key, n);
      assert TablesDistinct(before) && Distinct(walk[m].table);
      assert Returned(walk, n) == Returned(before, n) + Page(walk[m], n);
      assert CursorAfter(walk, key, n) == PageEnd(Page(walk[m], n), key);
      hide *;
      WalkNeverRepeats(key, n, before);
      NextPageIsNew(walk[m], key, CursorAfter(before, key, n), n, Returned(before, n));
    }
  }

  lemma LastStep<T>(walk: seq<Request<T>>, key: T -> int, n: nat)
    requires walk != [] && IsWalk(walk, key, n)
    ensures var before := walk[..|walk| - 1];
            IsWalk(before, key, n) && (before != [] ==> Page(before[|before| - 1], n) != [])
            && Answered(walk[|walk| - 1], key, CursorAfter(before, key, n))
  {
  }

  lemma FirstCursor<T>(walk: seq<Request<T>>, key: T -> int, n: nat)
    requires walk != [] ==> Page(walk[|walk| - 1], n) != []
    ensures CursorAfter(walk, key, n).None? ==> Returned(walk, n) == []
  {
  }

  // ------------------------------------------------ the count beside a page

  lemma {:induction false} CountBelow<T>(key: T -> int, c: int, xs: seq<T>)
    ensures |Filter(Below(key, Some(c)), xs)| <= |xs|
    ensures |Filter(Below(key, Some(c)), xs)| == |xs| <==> forall x :: x in xs ==> key(x) < c
  {
    if xs != [] {
      assert xs == [xs[0]] + xs[1..];
      CountBelow(key, c, xs[1..]);
    }
  }

  ghost predicate NoTieLeft<T>(rest: seq<T>, key: T -> int, at: int) {
    forall x :: x in rest ==> key(x) != at
  }

  /** The count reported with the next page is this count minus this page's length, if and only
      if no row off the page shares the timestamp of the page's last row. */
  lemma CountDropsByPage<T(!new)>(r: Request<T>, key: T -> int, cursor: Option<int>, n: nat)
    requires Answered(r, key, cursor) && Page(r, n) != []
    ensures var p := Page(r, n);
            var next := Some(key(p[|p| - 1]));
            |After(r.table, key, next)| == |After(r.table, key, cursor)| - |p|
            <==> NoTieLeft(r.ordered[|p|..], key, next.value)
  {
    var p := Page(r, n);
    var c := key(p[|p| - 1]);
    PageEndBelowCursor(r, key, cursor, n);
    CountOfOrdered(r, key, cursor, c);
    BelowPageEnd(r, key, cursor, n);
    CountBelow(key, c, r.ordered[|p|..]);
    forall x | x in r.ordered[|p|..] ensures key(x) <= c {
      var i :| 0 <= i < |r.ordered| - |p| && r.ordered[|p|..][i] == x;
      assert x == r.ordered[|p| + i];
    }
  }

  lemma PageEndBelowCursor<T(!new)>(r: Request<T>, key: T -> int, cursor: Option<int>, n: nat)
    requires Answered(r, key, cursor) && Page(r, n) != []
    ensures cursor.Some? ==> key(Page(r, n)[|Page(r, n)| - 1]) < cursor.value
  {
    AnswerBelowCursor(r, key, cursor);
    var p := Page(r, n);
    var x := r.ordered[|p| - 1];
    assert p[|p| - 1] == x && x in r.ordered && Below(key, cursor)(x);
  }

  lemma CountOfOrdered<T(!new)>(r: Request<T>, key: T -> int, cursor: Option<int>, c: int)
    requires Answered(r, key, cursor) && (cursor.Some? ==> c <= cursor.value)
    ensures |After(r.table, key, Some(c))| == |Filter(Below(key, Some(c)), r.ordered)|
    ensures |After(r.table, key, cursor)| == |r.ordered|
  {
    var a0 := After(r.table, key, cursor);
    BelowTighter(r, key, cursor, c);
    FilterMultiset(Below(key, Some(c)), a0, r.ordered);
    var x, y := Filter(Below(key, Some(c)), a0), Filter(Below(key, Some(c)), r.ordered);
    assert |multiset(x)| == |x| && |multiset(y)| == |y|;
    assert |multiset(a0)| == |a0| && |multiset(r.ordered)| == |r.ordered|;
  }

  lemma BelowPageEnd<T>(r: Request<T>, key: T -> int, cursor: Option<int>, n: nat)
    requires Answered(r, key, cursor) && Page(r, n) != []
    ensures var p := Page(r, n);
            var q := Below(key, Some(key(p[|p| - 1])));
            Filter(q, r.ordered) == Filter(q, r.ordered[|p|..])
  {
    var p := Page(r, n);
    var q := Below(key, Some(key(p[|p| - 1])));
    var rest := r.ordered[|p|..];
    assert r.ordered == p + rest;
    FilterAppend(q, p, rest);
    forall i | 0 <= i < |p| ensures !q(p[i]) { assert p[i] == r.ordered[i]; }
    FilterNone(q, p);
    assert [] + Filter(q, rest) == Filter(q, rest);
  }

  lemma BelowTighter<T(!new)>(r: Request<T>, key: T -> int, cursor: Option<int>, c: int)
    requires cursor.Some? ==> c <= cursor.value
    ensures Filter(Below(key, Some(c)), After(r.table, key, cursor)) == After(r.table, key, Some(c))
  {
    FilterOfFilter(Below(key, cursor), Below(key, Some(c)), r.table);
  }
}
