/** The post listing sorted by creation date, read off the rows' columns. */
module PostColumns {
  import opened Tables
  import opened Ordering
  import opened Keyset
  import opened Likes
  import opened PostListing
  import opened PostWalk

  /** An unbanned user's post, of the one user or one of the users asked for. */
  predicate BelongsTo(db: Db, scope: Scope, p: Post) {
    p in db.posts && p.userId !in db.banned &&
    match scope
    case Everyone => true
    case ByUser(userId) => p.userId == userId
    case ByUsers(userIds) => p.userId in userIds
  }

  /** `c` is the post whose id was sent as the cursor, and its owner's ban does not hide it. */
  predicate IsCursor(db: Db, scope: Scope, id: Option<Id>, c: Post) {
    c in db.posts && id == Some(c.id) && (scope.ByUsers? || c.userId !in db.banned)
  }

  /** In descending order the posts created before the cursor post, in ascending order those created after. */
  predicate IsBeyond(dir: Direction, c: Post, p: Post) {
    if dir == Desc then p.createdAt < c.createdAt else p.createdAt > c.createdAt
  }

  /** Beyond the cursor post, if there is one. */
  ghost predicate BeyondCursor(db: Db, scope: Scope, dir: Direction, id: Option<Id>, p: Post) {
    forall c :: IsCursor(db, scope, id, c) ==> IsBeyond(dir, c, p)
  }

  ghost predicate DatesDiffer(db: Db, scope: Scope) {
    forall p, q :: BelongsTo(db, scope, p) && BelongsTo(db, scope, q) && p != q ==> p.createdAt != q.createdAt
  }

  lemma VisibleBelong(db: Db, scope: Scope)
    ensures forall p :: p in VisiblePosts(db, scope) <==> BelongsTo(db, scope, p)
  {
    FilterMembers(Visible(db, scope), db.posts);
  }

  lemma {:induction false} FindPostSound(posts: seq<Post>, id: Id)
    ensures match FindPost(posts, id)
            case None => forall p :: p in posts ==> p.id != id
            case Some(p) => p in posts && p.id == id
  {
    if posts != [] { FindPostSound(posts[1..], id); }
  }

  lemma CursorIs(db: Db, scope: Scope, id: Option<Id>, c: Post)
    requires SchemaOk(db)
    ensures CursorPost(db, scope, id) == Some(c) <==> IsCursor(db, scope, id, c)
  {
    if id.Some? { FindPostSound(db.posts, id.value); }
    if IsCursor(db, scope, id, c) { FindPostIs(db.posts, c); }
    assert c in db.posts ==> c.id != "";
    hide SchemaOk, FindPost;
  }

  lemma BeyondIsBelow(dir: Direction, c: Post, p: Post)
    ensures Below(SortKey(dir), Some(SortKey(dir)(c)))(p) <==> IsBeyond(dir, c, p)
  {
  }

  lemma BelowByFields(db: Db, scope: Scope, dir: Direction, id: Option<Id>, p: Post)
    requires SchemaOk(db)
    ensures Below(SortKey(dir), CursorKey(db, scope, dir, id))(p) <==> BeyondCursor(db, scope, dir, id, p)
  {
    forall c
      ensures CursorPost(db, scope, id) == Some(c) <==> IsCursor(db, scope, id, c)
    {
      CursorIs(db, scope, id, c);
    }
    var c := CursorPost(db, scope, id);
    hide SchemaOk, IsCursor, CursorPost, SortKey, IsBeyond;
    if c.Some? { BeyondIsBelow(dir, c.value, p); }
  }

  /** The kept rows of the visible posts are the posts that belong and that the comparison keeps, each once. */
  lemma KeptPosts(db: Db, scope: Scope, keep: Post -> bool)
    requires SchemaOk(db)
    ensures Distinct(Filter(keep, VisiblePosts(db, scope)))
    ensures forall p :: p in Filter(keep, VisiblePosts(db, scope)) <==> BelongsTo(db, scope, p) && keep(p)
  {
    hide *;
    PostsDistinct(db, scope, keep);
    FilterMembers(keep, VisiblePosts(db, scope));
    VisibleBelong(db, scope);
  }

  lemma ListingKeeps(db: Db, scope: Scope, viewer: Option<Id>, dir: Direction, id: Option<Id>)
    requires SchemaOk(db) && OneLikeEach(db.likes)
    ensures var keep := Below(SortKey(dir), CursorKey(db, scope, dir, id));
            Map(PostOf, Listing(db, scope, viewer, dir, CursorKey(db, scope, dir, id)))
            == Filter(keep, VisiblePosts(db, scope))
            && Count(db, scope, dir, CursorKey(db, scope, dir, id)) == |Filter(keep, VisiblePosts(db, scope))|
  {
    ListingIsDirect(db, scope, viewer, Below(SortKey(dir), CursorKey(db, scope, dir, id)));
    CountIsAfter(db, scope, dir, CursorKey(db, scope, dir, id));
  }

  /** The listing sorted by creation date lists each post once, and exactly those that belong to it and lie
      beyond the cursor post, if there is one. */
  lemma ListedByColumns(db: Db, scope: Scope, viewer: Option<Id>, dir: Direction, id: Option<Id>)
    requires SchemaOk(db) && OneLikeEach(db.likes)
    ensures var listed := Map(PostOf, Listing(db, scope, viewer, dir, CursorKey(db, scope, dir, id)));
            Distinct(listed) && Count(db, scope, dir, CursorKey(db, scope, dir, id)) == |listed| &&
            forall p :: p in listed <==> BelongsTo(db, scope, p) && BeyondCursor(db, scope, dir, id, p)
  {
    hide *;
    var keep := Below(SortKey(dir), CursorKey(db, scope, dir, id));
    ListingKeeps(db, scope, viewer, dir, id);
    KeptPosts(db, scope, keep);
    forall p ensures keep(p) <==> BeyondCursor(db, scope, dir, id, p) { BelowByFields(db, scope, dir, id, p); }
  }

  lemma PostsDistinct(db: Db, scope: Scope, keep: Post -> bool)
    requires SchemaOk(db)
    ensures Distinct(Filter(keep, VisiblePosts(db, scope)))
  {
    assert Distinct(db.posts);
    FilterDistinct(Visible(db, scope), db.posts);
    FilterDistinct(keep, VisiblePosts(db, scope));
  }

  lemma LaterBeyond(dir: Direction, xs: seq<Post>, i: nat, j: nat)
    requires StrictlyDescending(SortKey(dir), xs) && i < j < |xs|
    ensures IsBeyond(dir, xs[i], xs[j])
  {
    assert SortKey(dir)(xs[i]) > SortKey(dir)(xs[j]);
  }

  /** A finished walk has shown exactly the posts that belong to the listing, each once, later in descending
      order being created earlier and in ascending order later. */
  lemma PostWalkByColumns(base: Db, walk: seq<Visit>, scope: Scope, viewer: Option<Id>, dir: Direction, n: nat)
    requires SchemaOk(base) && IsPostWalk(base, walk, scope, viewer, dir, n)
    requires DatesDiffer(base, scope)
    requires walk != [] && |PageOf(walk[|walk| - 1], n)| < n
    ensures forall p :: p in Shown(walk, n) <==> BelongsTo(base, scope, p)
    ensures forall i, j :: 0 <= i < j < |Shown(walk, n)| ==> IsBeyond(dir, Shown(walk, n)[i], Shown(walk, n)[j])
  {
    VisibleBelong(base, scope);
    NoTiedPosts(base, scope, dir);
    hide SchemaOk, IsPostWalk, VisiblePosts, BelongsTo, NoTies, DatesDiffer, IsBeyond, Shown, StrictlyDescending;
    PostWalkIsComplete(base, walk, scope, viewer, dir, n);
    SameMembers(Shown(walk, n), VisiblePosts(base, scope));
    forall i, j | 0 <= i < j < |Shown(walk, n)| ensures IsBeyond(dir, Shown(walk, n)[i], Shown(walk, n)[j]) {
      LaterBeyond(dir, Shown(walk, n), i, j);
    }
  }

  lemma NoTiedPosts(base: Db, scope: Scope, dir: Direction)
    requires SchemaOk(base)
    requires DatesDiffer(base, scope)
    ensures NoTies(SortKey(dir), VisiblePosts(base, scope))
  {
    var ps := VisiblePosts(base, scope);
    VisibleBelong(base, scope);
    assert Distinct(base.posts);
    FilterDistinct(Visible(base, scope), base.posts);
    hide SchemaOk, VisiblePosts, BelongsTo;
    forall i, j | 0 <= i < j < |ps| ensures SortKey(dir)(ps[i]) != SortKey(dir)(ps[j]) {
      assert ps[i] in ps && ps[j] in ps && ps[i] != ps[j];
    }
  }

  // ------------------------------------------------ sorted by update date

  /** Sorted by update date a cursor post never updated is none. Listing several users' posts the dates compared
      are both update dates; else a post's update date is compared with the cursor post's creation date. */
  predicate IsUpdatedBeyond(scope: Scope, dir: Direction, c: Post, p: Post) {
    c.updatedAt.Some? ==>
      p.updatedAt.Some? &&
      var at := if scope.ByUsers? then c.updatedAt.value else c.createdAt;
      if dir == Desc then p.updatedAt.value < at else p.updatedAt.value > at
  }

  /** The count compares both update dates. */
  predicate IsCountedBeyond(dir: Direction, c: Post, p: Post) {
    c.updatedAt.Some? ==>
      p.updatedAt.Some? &&
      if dir == Desc then p.updatedAt.value < c.updatedAt.value else p.updatedAt.value > c.updatedAt.value
  }

  ghost predicate UpdatedBeyondCursor(db: Db, scope: Scope, dir: Direction, id: Option<Id>, p: Post) {
    forall c :: IsCursor(db, scope, id, c) ==> IsUpdatedBeyond(scope, dir, c, p)
  }

  ghost predicate CountedBeyondCursor(db: Db, scope: Scope, dir: Direction, id: Option<Id>, p: Post) {
    forall c :: IsCursor(db, scope, id, c) ==> IsCountedBeyond(dir, c, p)
  }

  ghost function CountedPosts(db: Db, scope: Scope, dir: Direction, id: Option<Id>): set<Post> {
    set p | p in db.posts && BelongsTo(db, scope, p) && CountedBeyondCursor(db, scope, dir, id, p)
  }

  lemma UpdatedByFields(db: Db, scope: Scope, dir: Direction, id: Option<Id>, p: Post)
    requires SchemaOk(db)
    ensures UpdatedSelect(scope, dir, CursorPost(db, scope, id))(p) <==> UpdatedBeyondCursor(db, scope, dir, id, p)
    ensures UpdatedCount(dir, CursorPost(db, scope, id))(p) <==> CountedBeyondCursor(db, scope, dir, id, p)
  {
    forall c
      ensures CursorPost(db, scope, id) == Some(c) <==> IsCursor(db, scope, id, c)
    {
      CursorIs(db, scope, id, c);
    }
    hide SchemaOk, IsCursor, CursorPost;
  }

  lemma UpdatedListingKeeps(db: Db, scope: Scope, viewer: Option<Id>, keep: Post -> bool)
    requires SchemaOk(db) && OneLikeEach(db.likes)
    ensures Map(PostOf, ListingOf(db, scope, viewer, keep)) == Filter(keep, VisiblePosts(db, scope))
  {
    ListingIsDirect(db, scope, viewer, keep);
  }

  /** The listing sorted by update date lists each post once, and exactly those; its count is that of the posts
      its own comparison keeps. */
  lemma UpdatedListedByColumns(db: Db, scope: Scope, viewer: Option<Id>, dir: Direction, id: Option<Id>)
    requires SchemaOk(db) && OneLikeEach(db.likes)
    ensures var listed := Map(PostOf,
            ListingOf(db, scope, viewer, UpdatedSelect(scope, dir, CursorPost(db, scope, id))));
            Distinct(listed) &&
            forall p :: p in listed <==> BelongsTo(db, scope, p) && UpdatedBeyondCursor(db, scope, dir, id, p)
    ensures CountWhere(db, scope, UpdatedCount(dir, CursorPost(db, scope, id)))
            == |CountedPosts(db, scope, dir, id)|
  {
    hide *;
    var keep := UpdatedSelect(scope, dir, CursorPost(db, scope, id));
    UpdatedListingKeeps(db, scope, viewer, keep);
    KeptPosts(db, scope, keep);
    CountedByColumns(db, scope, dir, id);
    forall p ensures keep(p) <==> UpdatedBeyondCursor(db, scope, dir, id, p) {
      UpdatedByFields(db, scope, dir, id, p);
    }
  }

  lemma CountedPostsMembers(db: Db, scope: Scope, dir: Direction, id: Option<Id>)
    ensures forall p :: p in CountedPosts(db, scope, dir, id) <==>
      BelongsTo(db, scope, p) && CountedBeyondCursor(db, scope, dir, id, p)
  {
    hide CountedBeyondCursor;
  }

  lemma CountedByColumns(db: Db, scope: Scope, dir: Direction, id: Option<Id>)
    requires SchemaOk(db)
    ensures CountWhere(db, scope, UpdatedCount(dir, CursorPost(db, scope, id)))
            == |CountedPosts(db, scope, dir, id)|
  {
    hide *;
    var keep := UpdatedCount(dir, CursorPost(db, scope, id));
    var rows := Filter(keep, VisiblePosts(db, scope));
    CountIsVisible(db, scope, keep);
    KeptPosts(db, scope, keep);
    DistinctSize(rows);
    forall p ensures keep(p) <==> CountedBeyondCursor(db, scope, dir, id, p) { UpdatedByFields(db, scope, dir, id, p); }
    CountedPostsMembers(db, scope, dir, id);
    assert (set p | p in rows) == CountedPosts(db, scope, dir, id);
  }
}
