/** Listing posts by their update date. Listing all posts or one user's, the raw clause compares update
    dates with the cursor's creation date, its count with the cursor's update date. */
module PostUpdatedSort {
  import opened Tables
  import opened Ordering
  import opened Keyset
  import opened CursorPages
  import opened Likes
  import opened PostListing
  import opened PostWalk

  // ------------------------------------------------ the page and its count

  lemma {:induction false} NestedSizes<T>(p: T -> bool, q: T -> bool, xs: seq<T>)
    requires forall x :: x in xs && p(x) ==> q(x)
    ensures |Filter(p, xs)| <= |Filter(q, xs)|
    ensures |Filter(p, xs)| == |Filter(q, xs)| <==> forall x :: x in xs ==> p(x) == q(x)
  {
    if xs != [] {
      assert xs == [xs[0]] + xs[1..];
      NestedSizes(p, q, xs[1..]);
    }
  }

  /** A post last updated between the cursor post's two dates, the later one excluded in descending order
      and the earlier one in ascending order. */
  predicate UpdatedBetween(dir: Direction, c: Post, p: Post)
    requires c.updatedAt.Some?
  {
    var at := c.updatedAt.value;
    var from, until := if c.createdAt <= at then c.createdAt else at, if c.createdAt <= at then at else c.createdAt;
    p.updatedAt.Some? &&
    if dir == Desc then from <= p.updatedAt.value < until else from < p.updatedAt.value <= until
  }

  /** The cursor both the select and the count go by; none when the post was never updated. */
  predicate HasCursor(c: Option<Post>) { c.Some? && c.value.updatedAt.Some? }

  lemma SizesAgreeIff(scope: Scope, dir: Direction, c: Post, posts: seq<Post>)
    requires c.updatedAt.Some?
    ensures |Filter(UpdatedSelect(scope, dir, Some(c)), posts)| == |Filter(UpdatedCount(dir, Some(c)), posts)|
       <==> scope.ByUsers? || forall p :: p in posts ==> !UpdatedBetween(dir, c, p)
  {
    var p, q := UpdatedSelect(scope, dir, Some(c)), UpdatedCount(dir, Some(c));
    if scope.ByUsers? {
      FilterAgree(p, q, posts);
    } else {
      forall x | x in posts ensures p(x) == q(x) <==> !UpdatedBetween(dir, c, x) { }
      hide Filter;
      if (c.createdAt <= c.updatedAt.value) == (dir == Desc) {
        NestedSizes(p, q, posts);
      } else {
        NestedSizes(q, p, posts);
      }
    }
  }

  /** The rows past the cursor are as many as the count says if and only if several users' posts are
      listed, or there is no cursor, or no visible post was last updated between the cursor's two dates. */
  lemma SelectMatchesCountIff(db: Db, scope: Scope, viewer: Option<Id>, dir: Direction, endCursorPostId: Option<Id>)
    requires SchemaOk(db) && OneLikeEach(db.likes)
    ensures var c := CursorPost(db, scope, endCursorPostId);
            |ListingOf(db, scope, viewer, UpdatedSelect(scope, dir, c))| == CountWhere(db, scope, UpdatedCount(dir, c))
            <==> scope.ByUsers? || !HasCursor(c)
                 || forall p :: p in VisiblePosts(db, scope) ==> !UpdatedBetween(dir, c.value, p)
  {
    var c := CursorPost(db, scope, endCursorPostId);
    var visible := VisiblePosts(db, scope);
    hide SchemaOk, OneLikeEach, ListingOf, CountWhere, VisiblePosts, CursorPost, Filter;
    ListingIsDirect(db, scope, viewer, UpdatedSelect(scope, dir, c));
    CountIsVisible(db, scope, UpdatedSelect(scope, dir, c));
    CountIsVisible(db, scope, UpdatedCount(dir, c));
    if HasCursor(c) {
      SizesAgreeIff(scope, dir, c.value, visible);
    } else {
      FilterAll(UpdatedSelect(scope, dir, c), visible);
      FilterAll(UpdatedCount(dir, c), visible);
    }
  }

  // ------------------------------------------------ the order and its walks

  /** Rows never updated come last in ascending order and first in descending order. */
  predicate UpdatedFirst(dir: Direction, p: Post, q: Post) {
    if dir == Asc then q.updatedAt.None? || (p.updatedAt.Some? && p.updatedAt.value <= q.updatedAt.value)
    else p.updatedAt.None? || (q.updatedAt.Some? && p.updatedAt.value >= q.updatedAt.value)
  }

  function ByUpdate(dir: Direction): (Post, Post) -> bool { (p: Post, q: Post) => UpdatedFirst(dir, p, q) }

  function ViewsByUpdate(dir: Direction): (View, View) -> bool { (a: View, b: View) => UpdatedFirst(dir, a.p, b.p) }

  /** `ordered` is an order the database may choose for the rows of one request. */
  ghost predicate OrderedByUpdate(db: Db, scope: Scope, viewer: Option<Id>, dir: Direction, endCursorPostId: Option<Id>,
      ordered: seq<View>)
  {
    IsOrderBy(ViewsByUpdate(dir),
      ListingOf(db, scope, viewer, UpdatedSelect(scope, dir, CursorPost(db, scope, endCursorPostId))),
              ordered)
  }

  /** Users, bans and posts stay as in `base`; likes may change between requests. */
  ghost predicate IsUpdatedWalk(base: Db, walk: seq<Visit>, scope: Scope, viewer: Option<Id>, dir: Direction, n: nat) {
    walk == [] ||
    var m := |walk| - 1;
    IsUpdatedWalk(base, walk[..m], scope, viewer, dir, n) && NextVisit(base, walk[..m], walk[m], scope, viewer, dir, n)
  }

  ghost predicate NextVisit(base: Db, walk: seq<Visit>, v: Visit, scope: Scope, viewer: Option<Id>, dir: Direction,
      n: nat)
  {
    (walk != [] ==> PageOf(walk[|walk| - 1], n) != []) &&
    v.db == base.(likes := v.db.likes) && OneLikeEach(v.db.likes) &&
    OrderedByUpdate(v.db, scope, viewer, dir, LastPostId(walk, n), v.ordered)
  }

  /** A post is not updated before it is created. */
  ghost predicate Dated(db: Db) {
    forall p :: p in db.posts && p.updatedAt.Some? ==> p.createdAt <= p.updatedAt.value
  }

  function IsUpdated(): Post -> bool { (p: Post) => p.updatedAt.Some? }
  function NotUpdated(): Post -> bool { (p: Post) => p.updatedAt.None? }
  function UpdatedPosts(db: Db, scope: Scope): seq<Post> { Filter(IsUpdated(), VisiblePosts(db, scope)) }
  function NeverUpdated(db: Db, scope: Scope): seq<Post> { Filter(NotUpdated(), VisiblePosts(db, scope)) }

  /** The update date, counted downwards in ascending order. */
  function UpdatedKey(dir: Direction): Post -> int {
    (p: Post) => var at := Coalesce(p.updatedAt, 0); if dir == Desc then at else -at
  }

  /** The date the raw clause compares with when the post is the cursor, counted likewise. */
  function StandsFor(scope: Scope, dir: Direction): Post -> int {
    (p: Post) => var at := if p.updatedAt.None? then 0 else UpdatedBound(scope, p); if dir == Desc then at else -at
  }

  /** `u` is the visible updated posts in the listing's order, with distinct update dates. */
  ghost predicate InUpdateOrder(db: Db, scope: Scope, dir: Direction, u: seq<Post>) {
    multiset(u) == multiset(UpdatedPosts(db, scope)) && StrictlyDescending(UpdatedKey(dir), u)
  }

  // ------------------------------------------------ the rows of one request

  lemma SameCursor(base: Db, db: Db, scope: Scope, id: Option<Id>)
    requires db == base.(likes := db.likes)
    ensures CursorPost(db, scope, id) == CursorPost(base, scope, id)
  {
  }

  lemma SortedPosts(dir: Direction, ordered: seq<View>)
    requires SortedBy(ViewsByUpdate(dir), ordered)
    ensures SortedBy(ByUpdate(dir), Map(PostOf, ordered))
  {
    var ps := Map(PostOf, ordered);
    forall i, j | 0 <= i < j < |ps|
      ensures ByUpdate(dir)(ps[i], ps[j])
    {
      assert ViewsByUpdate(dir)(ordered[i], ordered[j]);
    }
  }

  lemma SelectedPosts(db: Db, scope: Scope, viewer: Option<Id>, dir: Direction, id: Option<Id>, ordered: seq<View>)
    requires SchemaOk(db) && OneLikeEach(db.likes) && OrderedByUpdate(db, scope, viewer, dir, id, ordered)
    ensures IsOrderBy(ByUpdate(dir),
            Filter(UpdatedSelect(scope, dir, CursorPost(db, scope, id)), VisiblePosts(db, scope)),
                      Map(PostOf, ordered))
  {
    var keep := UpdatedSelect(scope, dir, CursorPost(db, scope, id));
    var rows := ListingOf(db, scope, viewer, keep);
    ListingIsDirect(db, scope, viewer, keep);
    assert Map(PostOf, rows) == Filter(keep, VisiblePosts(db, scope));
    hide ListingOf, VisiblePosts, Filter, UpdatedSelect, CursorPost, SchemaOk, Map, SortedBy, OneLikeEach;
    MapMultiset(PostOf, rows, ordered);
    SortedPosts(dir, ordered);
  }

  lemma VisitFacts(base: Db, walk: seq<Visit>, v: Visit, scope: Scope, viewer: Option<Id>, dir: Direction, n: nat)
    requires SchemaOk(base) && NextVisit(base, walk, v, scope, viewer, dir, n)
    ensures v.db == base.(likes := v.db.likes) && SchemaOk(v.db) && OneLikeEach(v.db.likes)
    ensures OrderedByUpdate(v.db, scope, viewer, dir, LastPostId(walk, n), v.ordered)
    ensures walk != [] ==> PageOf(walk[|walk| - 1], n) != []
  {
    hide OneLikeEach, OrderedByUpdate, PageOf, LastPostId;
  }

  /** The posts of a request: the visible ones its select keeps, in its order. */
  lemma RequestPosts(base: Db, walk: seq<Visit>, v: Visit, scope: Scope, viewer: Option<Id>, dir: Direction, n: nat)
    requires SchemaOk(base) && NextVisit(base, walk, v, scope, viewer, dir, n)
    ensures var keep := UpdatedSelect(scope, dir, CursorPost(base, scope, LastPostId(walk, n)));
            IsOrderBy(ByUpdate(dir), Filter(keep, VisiblePosts(base, scope)), Map(PostOf, v.ordered))
  {
    hide *;
    VisitFacts(base, walk, v, scope, viewer, dir, n);
    SelectedPosts(v.db, scope, viewer, dir, LastPostId(walk, n), v.ordered);
    SameCursor(base, v.db, scope, LastPostId(walk, n));
    SameVisible(base, v.db, scope);
  }

  lemma PagePosts(v: Visit, n: nat)
    ensures Map(PostOf, PageOf(v, n)) == Limit(Map(PostOf, v.ordered), n)
  {
  }

  /** Past an updated cursor post lie the updated posts below what it stands for, in the one order. */
  lemma PastCursor(base: Db, scope: Scope, dir: Direction, u: seq<Post>, c: Post, ps: seq<Post>)
    requires InUpdateOrder(base, scope, dir, u) && c.updatedAt.Some?
    requires IsOrderBy(ByUpdate(dir), Filter(UpdatedSelect(scope, dir, Some(c)), VisiblePosts(base, scope)), ps)
    ensures ps == After(u, UpdatedKey(dir), Some(StandsFor(scope, dir)(c)))
  {
    var visible, key, at := VisiblePosts(base, scope), UpdatedKey(dir), Some(StandsFor(scope, dir)(c));
    var keep := UpdatedSelect(scope, dir, Some(c));
    hide VisiblePosts;
    forall x ensures keep(x) == (IsUpdated()(x) && Below(key, at)(x)) { }
    FilterBoth(IsUpdated(), Below(key, at), keep, visible);
    FilterMultiset(Below(key, at), u, UpdatedPosts(base, scope));
    FilterMembers(keep, visible);
    SameMembers(Filter(keep, visible), ps);
    SortedUpdated(dir, ps);
    var j := Cut(u, key, at.value);
    DescendingTail(key, u, j);
    hide Filter, SortedBy, StrictOn, StrictlyDescending;
    OrderUnique(NewestFirst(key), u[j..], ps);
  }

  lemma SortedUpdated(dir: Direction, ps: seq<Post>)
    requires SortedBy(ByUpdate(dir), ps) && forall p :: p in ps ==> p.updatedAt.Some?
    ensures SortedBy(NewestFirst(UpdatedKey(dir)), ps)
  {
    forall i, j | 0 <= i < j < |ps| ensures NewestFirst(UpdatedKey(dir))(ps[i], ps[j]) {
      assert ps[i] in ps && ps[j] in ps && ByUpdate(dir)(ps[i], ps[j]);
    }
  }

  /** Without a cursor the request ranges over all visible posts. */
  lemma NoCursor(scope: Scope, dir: Direction, c: Option<Post>, posts: seq<Post>)
    requires !HasCursor(c)
    ensures Filter(UpdatedSelect(scope, dir, c), posts) == posts
  {
    FilterAll(UpdatedSelect(scope, dir, c), posts);
  }

  lemma NullsTogether(dir: Direction, ps: seq<Post>)
    requires SortedBy(ByUpdate(dir), ps)
    ensures var us, zs := Filter(IsUpdated(), ps), Filter(NotUpdated(), ps);
            ps == if dir == Asc then us + zs else zs + us
  {
    if dir == Asc {
      forall i, j | 0 <= i < j < |ps| && IsUpdated()(ps[j])
        ensures IsUpdated()(ps[i])
      {
        assert ByUpdate(dir)(ps[i], ps[j]);
      }
      hide SortedBy;
      PartFirst(IsUpdated(), NotUpdated(), ps);
    } else {
      forall i, j | 0 <= i < j < |ps| && NotUpdated()(ps[j])
        ensures NotUpdated()(ps[i])
      {
        assert ByUpdate(dir)(ps[i], ps[j]);
      }
      hide SortedBy;
      PartFirst(NotUpdated(), IsUpdated(), ps);
    }
  }

  lemma SortedParts<T>(le: (T, T) -> bool, a: seq<T>, b: seq<T>)
    requires SortedBy(le, a + b)
    ensures SortedBy(le, a) && SortedBy(le, b)
  {
    var c := a + b;
    forall i, j | 0 <= i < j < |a| ensures le(a[i], a[j]) { assert le(c[i], c[j]); }
    forall i, j | 0 <= i < j < |b| ensures le(b[i], b[j]) { assert c[|a| + i] == b[i] && c[|a| + j] == b[j]; }
  }

  /** All visible posts in the listing's order: the updated ones in their one order, and the others. */
  lemma AllInOrder(base: Db, scope: Scope, dir: Direction, u: seq<Post>, ps: seq<Post>) returns (z: seq<Post>)
    requires InUpdateOrder(base, scope, dir, u) && IsOrderBy(ByUpdate(dir), VisiblePosts(base, scope), ps)
    ensures multiset(z) == multiset(NeverUpdated(base, scope)) && ps == if dir == Asc then u + z else z + u
  {
    var visible, key := VisiblePosts(base, scope), UpdatedKey(dir);
    hide VisiblePosts;
    var us := Filter(IsUpdated(), ps);
    z := Filter(NotUpdated(), ps);
    NullsTogether(dir, ps);
    FilterMultiset(IsUpdated(), ps, visible);
    FilterMultiset(NotUpdated(), ps, visible);
    FilterMembers(IsUpdated(), ps);
    DescendingTail(key, u, 0);
    assert u[0..] == u;
    hide Filter, SortedBy, StrictOn, StrictlyDescending, ByUpdate;
    if dir == Asc { SortedParts(ByUpdate(dir), us, z); } else { SortedParts(ByUpdate(dir), z, us); }
    SortedUpdated(dir, us);
    OrderUnique(NewestFirst(key), u, us);
  }
}
