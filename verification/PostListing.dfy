/** The post listings: like counts, the viewer's status, the last three likers and the keyset
    cursor, with a separate count. */
module PostListing {
  import opened Tables
  import opened Ordering
  import opened Keyset
  import opened Likes

  datatype Post = Post(id: Id, userId: Id, createdAt: int, updatedAt: Option<int>, description: Option<string>)
  datatype Db = Db(users: seq<User>, banned: seq<Id>, posts: seq<Post>, likes: seq<LikeRow>)

  /** All posts, one user's posts, or the posts of several users. */
  datatype Scope = Everyone | ByUser(userId: Id) | ByUsers(userIds: seq<Id>)

  predicate InScope(scope: Scope, p: Post) {
    match scope
    case Everyone => true
    case ByUser(userId) => p.userId == userId
    case ByUsers(userIds) => p.userId in userIds
  }

  // ------------------------------------------------ the cursor

  /** Descending order pages by "createdAt", ascending order by its negation. */
  function SortKey(dir: Direction): Post -> int {
    (p: Post) => if dir == Desc then p.createdAt else -p.createdAt
  }

  function FindPost(posts: seq<Post>, id: Id): Option<Post> {
    if posts == [] then None else if posts[0].id == id then Some(posts[0]) else FindPost(posts[1..], id)
  }

  /** The post a cursor id stands for. Except when listing several users' posts, a cursor post whose
      owner is banned is not found, and a cursor that is not found is ignored. */
  function CursorPost(db: Db, scope: Scope, endCursorPostId: Option<Id>): Option<Post> {
    if endCursorPostId.None? || endCursorPostId.value == "" then None
    else
      var p := FindPost(db.posts, endCursorPostId.value);
      if p.None? || (!scope.ByUsers? && p.value.userId in db.banned) then None else p
  }

  /** Its creation date, in the direction of the listing. */
  function CursorKey(db: Db, scope: Scope, dir: Direction, endCursorPostId: Option<Id>): Option<int> {
    var p := CursorPost(db, scope, endCursorPostId);
    if p.None? then None else Some(SortKey(dir)(p.value))
  }

  // ------------------------------------------------ the raw select

  datatype JoinRow = JoinRow(p: Post, likes: Option<nat>, mine: Option<LikeRow>, author: Option<User>, ban: Option<Id>)

  function ToJoinRow(p: Post): JoinRow { JoinRow(p, None, None, None, None) }

  predicate OnGroup(r: JoinRow, g: Group) { g.0 == r.p.id }
  function AttachLikes(r: JoinRow, g: Option<Group>): JoinRow { r.(likes := CountOf(g)) }
  function OnMine(viewer: Option<Id>): (JoinRow, LikeRow) -> bool {
    (r: JoinRow, l: LikeRow) => viewer == Some(l.userId) && l.targetId == r.p.id
  }
  function AttachMine(r: JoinRow, l: Option<LikeRow>): JoinRow { r.(mine := l) }
  predicate OnAuthor(r: JoinRow, u: User) { u.id == r.p.userId }
  function AttachAuthor(r: JoinRow, u: Option<User>): JoinRow { r.(author := u) }
  predicate OnAuthorBan(r: JoinRow, banned: Id) { r.author.Some? && banned == r.author.value.id }
  function AttachAuthorBan(r: JoinRow, banned: Option<Id>): JoinRow { r.(ban := banned) }

  function Joined(from: seq<Post>, db: Db, viewer: Option<Id>): seq<JoinRow> {
    var counted := LeftJoin(Map(ToJoinRow, from), LikeGroups(db.likes, db.banned, Like), OnGroup, AttachLikes);
    var mine := LeftJoin(counted, db.likes, OnMine(viewer), AttachMine);
    var authors := LeftJoin(mine, db.users, OnAuthor, AttachAuthor);
    LeftJoin(authors, db.banned, OnAuthorBan, AttachAuthorBan)
  }

  /** The where clause: scope, no ban row, and the cursor's inequality on the post's dates. */
  function Where(scope: Scope, keep: Post -> bool): JoinRow -> bool {
    (r: JoinRow) => InScope(scope, r.p) && r.ban.None? && keep(r.p)
  }

  datatype GroupKey = GroupKey(p: Post, username: Option<string>, status: Option<LikeStatus>, likes: Option<nat>)

  function ByGroup(r: JoinRow): GroupKey {
    GroupKey(r.p, if r.author.Some? then Some(r.author.value.username) else None,
             if r.mine.Some? then Some(r.mine.value.status) else None, r.likes)
  }

  datatype View = View(p: Post, username: Option<string>, myStatus: LikeStatus, likes: nat)

  function ToView(g: (GroupKey, seq<JoinRow>)): View {
    View(g.0.p, g.0.username, Coalesce(g.0.status, NoStatus), Coalesce(g.0.likes, 0))
  }

  function ViewsFrom(from: seq<Post>, db: Db, scope: Scope, viewer: Option<Id>, keep: Post -> bool): seq<View> {
    Map(ToView, GroupBy(Filter(Where(scope, keep), Joined(from, db, viewer)), ByGroup))
  }

  /** The rows of the select before "order by". */
  function ListingOf(db: Db, scope: Scope, viewer: Option<Id>, keep: Post -> bool): seq<View> {
    ViewsFrom(db.posts, db, scope, viewer, keep)
  }

  /** The count's own where object. */
  function Counted(db: Db, scope: Scope, keep: Post -> bool): Post -> bool {
    (p: Post) => InScope(scope, p) && (exists u :: u in db.users && u.id == p.userId) && p.userId !in db.banned
      && keep(p)
  }

  function CountWhere(db: Db, scope: Scope, keep: Post -> bool): nat {
    |Filter(Counted(db, scope, keep), db.posts)|
  }

  // ------------------------------------------------ the cursor's inequality

  /** The operator of the raw clause, and the "gt" or "lt" of the count's object. */
  predicate Past(dir: Direction, at: int, bound: int) { if dir == Asc then at > bound else at < bound }

  /** Sorted by "createdAt". The key counts downwards in ascending order. */
  function Listing(db: Db, scope: Scope, viewer: Option<Id>, dir: Direction, cursor: Option<int>): seq<View> {
    ListingOf(db, scope, viewer, Below(SortKey(dir), cursor))
  }

  function CreatedCount(dir: Direction, cursor: Option<int>): Post -> bool {
    (p: Post) => cursor.None? || Past(dir, p.createdAt, if dir == Asc then -cursor.value else cursor.value)
  }

  function Count(db: Db, scope: Scope, dir: Direction, cursor: Option<int>): nat {
    CountWhere(db, scope, CreatedCount(dir, cursor))
  }

  /** Sorted by "updatedAt". A cursor post never updated is no cursor, and a post never updated is past
      none. Listing all posts or one user's, the raw clause compares with the cursor's creation date;
      listing several users' it compares with its update date, as the count does everywhere. */
  function UpdatedSelect(scope: Scope, dir: Direction, cursor: Option<Post>): Post -> bool {
    (p: Post) =>
      cursor.None? || cursor.value.updatedAt.None?
      || (p.updatedAt.Some? && Past(dir, p.updatedAt.value, UpdatedBound(scope, cursor.value)))
  }

  function UpdatedBound(scope: Scope, c: Post): int
    requires c.updatedAt.Some?
  {
    if scope.ByUsers? then c.updatedAt.value else c.createdAt
  }

  function UpdatedCount(dir: Direction, cursor: Option<Post>): Post -> bool {
    (p: Post) =>
      cursor.None? || cursor.value.updatedAt.None?
      || (p.updatedAt.Some? && Past(dir, p.updatedAt.value, cursor.value.updatedAt.value))
  }

  // ------------------------------------------------ the last likers

  function UpdatedAt(r: BanJoin): int { r.like.updatedAt }

  /** `ids` is an answer of the correlated sub-select: the likers of the post, latest update
      first, at most three; `ordered` is the order the database chose. */
  ghost predicate IsLastLiked(db: Db, postId: Id, ordered: seq<BanJoin>, ids: seq<Id>) {
    IsOrderBy(NewestFirst(UpdatedAt), WithKey(CountedLikes(db.likes, db.banned, Like), ByTarget, postId), ordered)
    && ids == Map(Liker, Limit(ordered, 3))
  }

  // ------------------------------------------------ table assumptions and column meanings

  ghost predicate SchemaOk(db: Db) {
    (forall i, j :: 0 <= i < j < |db.users| ==> db.users[i].id != db.users[j].id) &&
    Distinct(db.banned) &&
    (forall i, j :: 0 <= i < j < |db.posts| ==> db.posts[i].id != db.posts[j].id) &&
    (forall p :: p in db.posts ==> p.id != "" && exists i :: 0 <= i < |db.users| && db.users[i].id == p.userId)
  }

  ghost predicate Correct(db: Db, viewer: Option<Id>, v: View) {
    && v.p in db.posts
    && v.username.Some? && User(v.p.userId, v.username.value) in db.users
    && v.likes == |Voters(db.likes, db.banned, Like, v.p.id)|
    && (forall l :: l in db.likes && viewer == Some(l.userId) && l.targetId == v.p.id ==> v.myStatus == l.status)
    && ((forall l :: l in db.likes ==> !(viewer == Some(l.userId) && l.targetId == v.p.id)) ==> v.myStatus == NoStatus)
  }

  function Visible(db: Db, scope: Scope): Post -> bool {
    (p: Post) => InScope(scope, p) && p.userId !in db.banned
  }

  /** The posts a listing with this scope shows, in table order. */
  function VisiblePosts(db: Db, scope: Scope): seq<Post> { Filter(Visible(db, scope), db.posts) }

  function PostOf(v: View): Post { v.p }

  /** Exactly the visible posts past the cursor, in table order, each correct. */
  ghost predicate ListsVisible(db: Db, scope: Scope, viewer: Option<Id>, keep: Post -> bool,
      from: seq<Post>, views: seq<View>)
  {
    && Map(PostOf, views) == Filter(keep, Filter(Visible(db, scope), from))
    && forall i :: 0 <= i < |views| ==> Correct(db, viewer, views[i])
  }

  // ------------------------------------------------ one post's row

  ghost predicate IsMine(likes: seq<LikeRow>, viewer: Option<Id>, postId: Id, mine: Option<LikeRow>) {
    match mine
    case None => forall l :: l in likes ==> !(viewer == Some(l.userId) && l.targetId == postId)
    case Some(m) => m in likes && viewer == Some(m.userId) && m.targetId == postId
                    && forall l :: l in likes && viewer == Some(l.userId) && l.targetId == postId ==> l == m
  }

  lemma MineOfOne(r: JoinRow, likes: seq<LikeRow>, viewer: Option<Id>) returns (mine: Option<LikeRow>)
    requires OneLikeEach(likes)
    ensures LeftJoin([r], likes, OnMine(viewer), AttachMine) == [r.(mine := mine)]
            && IsMine(likes, viewer, r.p.id, mine)
  {
    LeftJoinOne(r, likes, OnMine(viewer), AttachMine);
    if k :| 0 <= k < |likes| && OnMine(viewer)(r, likes[k]) {
      OneMatch(r, likes, OnMine(viewer), k);
      mine := Some(likes[k]);
    } else {
      NoMatch(r, likes, OnMine(viewer));
      mine := None;
    }
  }

  lemma AuthorOfOne(r: JoinRow, db: Db) returns (u: User)
    requires SchemaOk(db) && r.p in db.posts
    ensures u in db.users && u.id == r.p.userId
    ensures LeftJoin([r], db.users, OnAuthor, AttachAuthor) == [r.(author := Some(u))]
  {
    var k :| 0 <= k < |db.users| && db.users[k].id == r.p.userId;
    u := db.users[k];
    OneMatch(r, db.users, OnAuthor, k);
    LeftJoinOne(r, db.users, OnAuthor, AttachAuthor);
  }

  lemma BanOfOne(r: JoinRow, banned: seq<Id>)
    requires r.author.Some? && Distinct(banned)
    ensures LeftJoin([r], banned, OnAuthorBan, AttachAuthorBan)
         == [r.(ban := if r.author.value.id in banned then Some(r.author.value.id) else None)]
  {
    LeftJoinOne(r, banned, OnAuthorBan, AttachAuthorBan);
    if r.author.value.id in banned {
      var i :| 0 <= i < |banned| && banned[i] == r.author.value.id;
      OneMatch(r, banned, OnAuthorBan, i);
    } else {
      NoMatch(r, banned, OnAuthorBan);
    }
  }

  lemma JoinedOne(p: Post, db: Db, viewer: Option<Id>) returns (u: User, mine: Option<LikeRow>)
    requires SchemaOk(db) && OneLikeEach(db.likes) && p in db.posts
    ensures u in db.users && u.id == p.userId && IsMine(db.likes, viewer, p.id, mine)
    ensures Joined([p], db, viewer) == [JoinRow(p, NullIfZero(|Voters(db.likes, db.banned, Like, p.id)|), mine, Some(u),
                                                if u.id in db.banned then Some(u.id) else None)]
  {
    var r0 := ToJoinRow(p);
    assert [p][1..] == [] && Map(ToJoinRow, [p]) == [r0];
    GroupSizeIsVoters(db.likes, db.banned, Like, p.id);
    JoinGroup(r0, CountedLikes(db.likes, db.banned, Like), ByTarget, p.id, OnGroup, AttachLikes);
    LeftJoinOne(r0, LikeGroups(db.likes, db.banned, Like), OnGroup, AttachLikes);
    var r1 := r0.(likes := NullIfZero(|Voters(db.likes, db.banned, Like, p.id)|));
    mine := MineOfOne(r1, db.likes, viewer);
    u := AuthorOfOne(r1.(mine := mine), db);
    BanOfOne(r1.(mine := mine, author := Some(u)), db.banned);
  }

  lemma JoinedAppend(a: seq<Post>, b: seq<Post>, db: Db, viewer: Option<Id>)
    ensures Joined(a + b, db, viewer) == Joined(a, db, viewer) + Joined(b, db, viewer)
  {
    hide Map, LeftJoin, LikeGroups;
    var a0, b0 := Map(ToJoinRow, a), Map(ToJoinRow, b);
    MapAppend(ToJoinRow, a, b);
    var g := LikeGroups(db.likes, db.banned, Like);
    LeftJoinAppend(a0, b0, g, OnGroup, AttachLikes);
    var a1, b1 := LeftJoin(a0, g, OnGroup, AttachLikes), LeftJoin(b0, g, OnGroup, AttachLikes);
    LeftJoinAppend(a1, b1, db.likes, OnMine(viewer), AttachMine);
    var a2, b2 := LeftJoin(a1, db.likes, OnMine(viewer), AttachMine),
      LeftJoin(b1, db.likes, OnMine(viewer), AttachMine);
    LeftJoinAppend(a2, b2, db.users, OnAuthor, AttachAuthor);
    LeftJoinAppend(LeftJoin(a2, db.users, OnAuthor, AttachAuthor), LeftJoin(b2, db.users, OnAuthor, AttachAuthor),
                   db.banned, OnAuthorBan, AttachAuthorBan);
  }

  ghost predicate RowsFrom(rows: seq<JoinRow>, from: seq<Post>) {
    forall r :: r in rows ==> r.p in from
  }

  lemma NoRows(db: Db, viewer: Option<Id>)
    ensures Joined([], db, viewer) == []
  {
  }

  lemma RowsFromCons(r: JoinRow, rows: seq<JoinRow>, p: Post, rest: seq<Post>)
    requires r.p == p && RowsFrom(rows, rest)
    ensures RowsFrom([r] + rows, [p] + rest)
  {
  }

  lemma {:induction false} JoinedFrom(from: seq<Post>, db: Db, viewer: Option<Id>)
    requires SchemaOk(db) && OneLikeEach(db.likes) && forall p :: p in from ==> p in db.posts
    ensures RowsFrom(Joined(from, db, viewer), from)
  {
    hide *;
    if from == [] {
      NoRows(db, viewer);
      assert RowsFrom([], []) by { EmptyRows(); }
    } else {
      var p, rest := from[0], from[1..];
      assert from == [p] + rest;
      JoinedAppend([p], rest, db, viewer);
      JoinedFrom(rest, db, viewer);
      var u, mine := JoinedOne(p, db, viewer);
      RowsFromCons(Joined([p], db, viewer)[0], Joined(rest, db, viewer), p, rest);
    }
  }

  lemma EmptyRows()
    ensures RowsFrom([], [])
  {
  }

  // ------------------------------------------------ all posts

  predicate Passes(db: Db, scope: Scope, keep: Post -> bool, p: Post) { Visible(db, scope)(p) && keep(p) }

  lemma ShownCons(db: Db, scope: Scope, keep: Post -> bool, p: Post, rest: seq<Post>)
    ensures Filter(keep, Filter(Visible(db, scope), [p] + rest))
         == (if Passes(db, scope, keep, p) then [p] else []) + Filter(keep, Filter(Visible(db, scope), rest))
  {
    assert ([p] + rest)[1..] == rest && [p][1..] == [];
    FilterAppend(keep, if Visible(db, scope)(p) then [p] else [], Filter(Visible(db, scope), rest));
  }

  lemma CorrectCons(db: Db, viewer: Option<Id>, head: seq<View>, tail: seq<View>)
    requires forall i :: 0 <= i < |head| ==> Correct(db, viewer, head[i])
    requires forall i :: 0 <= i < |tail| ==> Correct(db, viewer, tail[i])
    ensures forall i :: 0 <= i < |head + tail| ==> Correct(db, viewer, (head + tail)[i])
  {
    hide *;
    var all := head + tail;
    forall i | 0 <= i < |all| ensures Correct(db, viewer, all[i]) {
      if i >= |head| { assert all[i] == tail[i - |head|]; }
    }
  }

  lemma ListsCons(db: Db, scope: Scope, viewer: Option<Id>, keep: Post -> bool, p: Post,
      rest: seq<Post>, head: seq<View>, tail: seq<View>)
    requires ListsVisible(db, scope, viewer, keep, rest, tail)
    requires if Passes(db, scope, keep, p) then |head| == 1 && head[0].p == p && Correct(db, viewer, head[0])
             else head == []
    ensures ListsVisible(db, scope, viewer, keep, [p] + rest, head + tail)
  {
    hide Correct, Passes, Filter;
    ShownCons(db, scope, keep, p, rest);
    MapAppend(PostOf, head, tail);
    assert Map(PostOf, head) == if Passes(db, scope, keep, p) then [p] else [];
    CorrectCons(db, viewer, head, tail);
  }

  lemma NoViews(db: Db, scope: Scope, viewer: Option<Id>, keep: Post -> bool)
    ensures ListsVisible(db, scope, viewer, keep, [], ViewsFrom([], db, scope, viewer, keep))
  {
    NoRows(db, viewer);
  }

  lemma {:induction false} ViewsAreDirect(from: seq<Post>, db: Db, scope: Scope, viewer: Option<Id>, keep: Post -> bool)
    requires SchemaOk(db) && OneLikeEach(db.likes) && Distinct(from) && forall p :: p in from ==> p in db.posts
    ensures ListsVisible(db, scope, viewer, keep, from, ViewsFrom(from, db, scope, viewer, keep))
  {
    if from == [] {
      NoViews(db, scope, viewer, keep);
    } else {
      var p, rest := from[0], from[1..];
      assert from == [p] + rest;
      var w := Where(scope, keep);
      assert ViewsFrom(from, db, scope, viewer, keep)
             == Map(ToView, GroupBy(Filter(w, Joined(from, db, viewer)), ByGroup));
      assert ViewsFrom(rest, db, scope, viewer, keep)
             == Map(ToView, GroupBy(Filter(w, Joined(rest, db, viewer)), ByGroup));
      hide *;
      DistinctHead(p, rest);
      ViewsAreDirect(rest, db, scope, viewer, keep);
      var r, u, mine := RowsCons(p, rest, db, scope, viewer, keep);
      AddRow(db, scope, viewer, keep, p, rest, r, Filter(w, Joined(rest, db, viewer)), u, mine);
    }
  }

  ghost predicate IsRow(db: Db, viewer: Option<Id>, p: Post, r: JoinRow, u: User, mine: Option<LikeRow>) {
    && u in db.users && u.id == p.userId && IsMine(db.likes, viewer, p.id, mine)
    && r == JoinRow(p, NullIfZero(|Voters(db.likes, db.banned, Like, p.id)|), mine, Some(u),
                    if u.id in db.banned then Some(u.id) else None)
  }

  lemma RowsCons(p: Post, rest: seq<Post>, db: Db, scope: Scope, viewer: Option<Id>, keep: Post -> bool)
    returns (r: JoinRow, u: User, mine: Option<LikeRow>)
    requires SchemaOk(db) && OneLikeEach(db.likes) && p in db.posts && forall x :: x in rest ==> x in db.posts
    ensures IsRow(db, viewer, p, r, u, mine)
    ensures var w := Where(scope, keep);
            Filter(w, Joined([p] + rest, db, viewer)) == Filter(w, [r]) + Filter(w, Joined(rest, db, viewer))
            && RowsFrom(Filter(w, Joined(rest, db, viewer)), rest)
  {
    var w := Where(scope, keep);
    JoinedAppend([p], rest, db, viewer);
    JoinedFrom(rest, db, viewer);
    FilterAppend(w, Joined([p], db, viewer), Joined(rest, db, viewer));
    FilterMembers(w, Joined(rest, db, viewer));
    u, mine := JoinedOne(p, db, viewer);
    hide SchemaOk, OneLikeEach, Joined, Filter;
    r := Joined([p], db, viewer)[0];
  }

  lemma ViewIsCorrect(db: Db, viewer: Option<Id>, p: Post, r: JoinRow, u: User, mine: Option<LikeRow>)
    requires p in db.posts && IsRow(db, viewer, p, r, u, mine)
    ensures var v := ToView((ByGroup(r), [r])); v.p == p && Correct(db, viewer, v)
  {
    assert User(p.userId, u.username) == u;
  }

  lemma WhereOne(db: Db, scope: Scope, viewer: Option<Id>, keep: Post -> bool, p: Post, r: JoinRow,
      u: User, mine: Option<LikeRow>)
    requires IsRow(db, viewer, p, r, u, mine)
    ensures Filter(Where(scope, keep), [r]) == if Passes(db, scope, keep, p) then [r] else []
    ensures r.p == p
  {
    assert [r][1..] == [];
  }

  lemma OtherKeys(tail: seq<JoinRow>, rest: seq<Post>, r: JoinRow)
    requires RowsFrom(tail, rest) && r.p !in rest
    ensures forall i :: 0 <= i < |tail| ==> ByGroup(tail[i]) != ByGroup(r)
  {
    forall i | 0 <= i < |tail| ensures ByGroup(tail[i]) != ByGroup(r) { assert tail[i] in tail; }
  }

  lemma AddedView(tail: seq<JoinRow>, rest: seq<Post>, r: JoinRow)
    requires RowsFrom(tail, rest) && r.p !in rest
    ensures Map(ToView, GroupBy([r] + tail, ByGroup)) == [ToView((ByGroup(r), [r]))]
            + Map(ToView, GroupBy(tail, ByGroup))
  {
    OtherKeys(tail, rest, r);
    var key := ByGroup(r);
    hide *;
    GroupBlock([r], tail, ByGroup, key);
    MapAppend(ToView, [(key, [r])], GroupBy(tail, ByGroup));
    MapOne(ToView, (key, [r]));
  }

  lemma AddRow(db: Db, scope: Scope, viewer: Option<Id>, keep: Post -> bool, p: Post, rest: seq<Post>,
               r: JoinRow, tail: seq<JoinRow>, u: User, mine: Option<LikeRow>)
    requires p in db.posts && p !in rest && IsRow(db, viewer, p, r, u, mine) && RowsFrom(tail, rest)
    requires ListsVisible(db, scope, viewer, keep, rest, Map(ToView, GroupBy(tail, ByGroup)))
    ensures ListsVisible(db, scope, viewer, keep, [p] + rest,
                         Map(ToView, GroupBy(Filter(Where(scope, keep), [r]) + tail, ByGroup)))
  {
    hide *;
    var views := Map(ToView, GroupBy(tail, ByGroup));
    WhereOne(db, scope, viewer, keep, p, r, u, mine);
    ViewIsCorrect(db, viewer, p, r, u, mine);
    AddedView(tail, rest, r);
    if Passes(db, scope, keep, p) {
      ListsCons(db, scope, viewer, keep, p, rest, [ToView((ByGroup(r), [r]))], views);
    } else {
      assert [] + tail == tail && [] + views == views;
      ListsCons(db, scope, viewer, keep, p, rest, [], views);
    }
  }

  /** With at most one like row per user and post, the select gives exactly one row per visible
      post past the cursor, whichever dates the cursor's inequality compares, every column correct. */
  lemma ListingIsDirect(db: Db, scope: Scope, viewer: Option<Id>, keep: Post -> bool)
    requires SchemaOk(db) && OneLikeEach(db.likes)
    ensures ListsVisible(db, scope, viewer, keep, db.posts, ListingOf(db, scope, viewer, keep))
    ensures |ListingOf(db, scope, viewer, keep)| == CountWhere(db, scope, keep)
  {
    ViewsAreDirect(db.posts, db, scope, viewer, keep);
    CountIsVisible(db, scope, keep);
  }

  /** The count's where object selects the visible posts past its own cursor. */
  lemma CountIsVisible(db: Db, scope: Scope, keep: Post -> bool)
    requires SchemaOk(db)
    ensures CountWhere(db, scope, keep) == |Filter(keep, VisiblePosts(db, scope))|
  {
    var both := (p: Post) => Visible(db, scope)(p) && keep(p);
    forall i | 0 <= i < |db.posts| ensures Counted(db, scope, keep)(db.posts[i]) == both(db.posts[i]) {
      var k :| 0 <= k < |db.users| && db.users[k].id == db.posts[i].userId;
      var u := db.users[k];
      assert u in db.users && u.id == db.posts[i].userId;
      assert Visible(db, scope)(db.posts[i]) == (InScope(scope, db.posts[i]) && db.posts[i].userId !in db.banned);
    }
    FilterAgree(Counted(db, scope, keep), both, db.posts);
    FilterBoth(Visible(db, scope), keep, both, db.posts);
  }

  /** Sorted by creation date, select and count use the same inequality. */
  lemma CountIsAfter(db: Db, scope: Scope, dir: Direction, cursor: Option<int>)
    requires SchemaOk(db)
    ensures Count(db, scope, dir, cursor) == |After(VisiblePosts(db, scope), SortKey(dir), cursor)|
  {
    CountIsVisible(db, scope, CreatedCount(dir, cursor));
    hide VisiblePosts;
    FilterAgree(CreatedCount(dir, cursor), Below(SortKey(dir), cursor), VisiblePosts(db, scope));
  }

  lemma {:induction false} FilterBoth<T>(p: T -> bool, q: T -> bool, both: T -> bool, xs: seq<T>)
    requires forall x :: both(x) == (p(x) && q(x))
    ensures Filter(q, Filter(p, xs)) == Filter(both, xs)
  {
    if xs != [] {
      FilterBoth(p, q, both, xs[1..]);
      assert [xs[0]][1..] == [];
      FilterAppend(q, if p(xs[0]) then [xs[0]] else [], Filter(p, xs[1..]));
    }
  }
}
