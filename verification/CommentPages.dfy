/** Skip/limit pages of a comment listing: the viewer's own comments first, then by date. */
module CommentPages {
  import opened Tables
  import opened Ordering
  import opened Paginator
  import opened OffsetPages
  import opened Likes
  import opened CommentListing
  import opened CommentListingFacts
  import opened CommentLikes

  // ------------------------------------------------ the comment order

  /** `case when c."commentatorId" = viewer then 0 else 1 end`. */
  function OwnRank(viewer: Option<Id>, v: View): int {
    if viewer == Some(v.c.commentatorId) then 0 else 1
  }

  function DateKey(dir: Direction, v: View): int { if dir == Asc then v.c.createdAt else -v.c.createdAt }

  function OwnFirst(viewer: Option<Id>, dir: Direction): (View, View) -> bool {
    (a: View, b: View) =>
      OwnRank(viewer, a) < OwnRank(viewer, b)
      || (OwnRank(viewer, a) == OwnRank(viewer, b) && DateKey(dir, a) <= DateKey(dir, b))
  }

  /** The viewer's own comments come before all others, and within each part the dates ascend or descend. */
  predicate MayPrecede(viewer: Option<Id>, dir: Direction, a: Comment, b: Comment) {
    (viewer == Some(b.commentatorId) ==> viewer == Some(a.commentatorId)) &&
    ((viewer == Some(a.commentatorId) <==> viewer == Some(b.commentatorId)) ==>
       if dir == Asc then a.createdAt <= b.createdAt else a.createdAt >= b.createdAt)
  }

  /** What the order means, on the rows' columns alone. */
  ghost predicate OwnThenByDate(viewer: Option<Id>, dir: Direction, shown: seq<View>) {
    forall i, j :: 0 <= i < j < |shown| ==> MayPrecede(viewer, dir, shown[i].c, shown[j].c)
  }

  lemma RankIs(viewer: Option<Id>, v: View)
    ensures OwnRank(viewer, v) == if viewer == Some(v.c.commentatorId) then 0 else 1
  {
  }

  lemma KeysIs(dir: Direction, x: View, y: View)
    ensures DateKey(dir, x) <= DateKey(dir, y) <==>
      if dir == Asc then x.c.createdAt <= y.c.createdAt else x.c.createdAt >= y.c.createdAt
  {
  }

  lemma OwnFirstByFields(viewer: Option<Id>, dir: Direction, x: View, y: View)
    ensures OwnFirst(viewer, dir)(x, y) <==> MayPrecede(viewer, dir, x.c, y.c)
  {
    RankIs(viewer, x);
    RankIs(viewer, y);
    KeysIs(dir, x, y);
    hide OwnRank, DateKey;
  }

  /** A list is in the listing's order if and only if it reads like that. */
  lemma SortedIsOwnThenByDate(viewer: Option<Id>, dir: Direction, shown: seq<View>)
    ensures SortedBy(OwnFirst(viewer, dir), shown) <==> OwnThenByDate(viewer, dir, shown)
  {
    var le := OwnFirst(viewer, dir);
    forall i, j | 0 <= i < j < |shown|
      ensures le(shown[i], shown[j]) <==> MayPrecede(viewer, dir, shown[i].c, shown[j].c)
    {
      OwnFirstByFields(viewer, dir, shown[i], shown[j]);
    }
    hide OwnFirst, MayPrecede;
  }

  /** An unbanned user's top-level comment of the post, or answer to the comment. */
  predicate BelongsTo(db: Db, scope: Scope, c: Comment) {
    c in db.comments && c.commentatorId !in db.banned &&
    match scope
    case TopLevel(postId) => c.answerFor == None && c.postId == postId
    case AnswersTo(commentId) => c.answerFor == Some(commentId)
  }

  lemma VisibleBelongs(db: Db, scope: Scope)
    ensures forall c :: c in VisibleComments(db, scope) <==> BelongsTo(db, scope, c)
  {
    FilterMembers(VisibleTest(db, scope), db.comments);
  }

  function VisibleComments(db: Db, scope: Scope): seq<Comment> { Filter(VisibleTest(db, scope), db.comments) }

  ghost predicate DistinctDates(comments: seq<Comment>) {
    forall i, j :: 0 <= i < j < |comments| ==> comments[i].createdAt != comments[j].createdAt
  }

  lemma TiedDates(viewer: Option<Id>, dir: Direction, x: View, y: View)
    requires OwnFirst(viewer, dir)(x, y) && OwnFirst(viewer, dir)(y, x)
    ensures ViewComment(x).createdAt == ViewComment(y).createdAt
  {
  }

  lemma SameDateSame(views: seq<View>, i: nat, j: nat)
    requires DistinctDates(Map(ViewComment, views)) && i < |views| && j < |views|
    requires ViewComment(views[i]).createdAt == ViewComment(views[j]).createdAt
    ensures i == j
  {
    var cs := Map(ViewComment, views);
    hide ViewComment, Map;
    assert cs[i].createdAt == cs[j].createdAt;
  }

  lemma NoTiedViews(viewer: Option<Id>, dir: Direction, views: seq<View>)
    requires DistinctDates(Map(ViewComment, views))
    ensures StrictOn(OwnFirst(viewer, dir), views)
  {
    var le := OwnFirst(viewer, dir);
    hide OwnFirst, DistinctDates, ViewComment, Map;
    forall x, y | x in views && y in views && le(x, y) && le(y, x) ensures x == y {
      TiedDates(viewer, dir, x, y);
      var i :| 0 <= i < |views| && views[i] == x;
      var j :| 0 <= j < |views| && views[j] == y;
      SameDateSame(views, i, j);
    }
  }

  lemma OwnFirstIsTotal(viewer: Option<Id>, dir: Direction)
    ensures TotalPreorder(OwnFirst(viewer, dir))
  {
  }

  /** Requests for pages 1 to `pagesCount` of unchanged tables. */
  ghost predicate AllPages(db: Db, scope: Scope, viewer: Option<Id>, dir: Direction, pageSize: nat,
      orders: seq<seq<View>>)
    requires pageSize > 0
  {
    |orders| == PagesCount(Count(db, scope), pageSize)
    && AllOrdersOf(OwnFirst(viewer, dir), Listing(db, scope, viewer), orders)
  }

  /** With distinct creation dates, the pages from 1 to the reported `pagesCount` show every visible
      comment exactly once, the viewer's own first and each part by date; no page is empty. */
  lemma PagesShowAll(db: Db, scope: Scope, viewer: Option<Id>, dir: Direction, pageSize: nat, orders: seq<seq<View>>)
    requires SchemaOk(db) && OneLikeEach(db.likes) && DistinctDates(VisibleComments(db, scope))
    requires pageSize > 0 && AllPages(db, scope, viewer, dir, pageSize, orders)
    ensures var shown := FirstPages(orders, pageSize);
            multiset(Map(ViewComment, shown)) == multiset(VisibleComments(db, scope))
            && OwnThenByDate(viewer, dir, shown)
            && (forall c :: c in Map(ViewComment, shown) <==> BelongsTo(db, scope, c))
            && forall v :: v in shown ==> Correct(db, viewer, v)
    ensures forall i :: 0 <= i < |orders| ==> PageAt(orders[i], i + 1, pageSize) != []
  {
    var le, rows := OwnFirst(viewer, dir), Listing(db, scope, viewer);
    ListingIsDirect(db, scope, viewer);
    NoTiedViews(viewer, dir, rows);
    OwnFirstIsTotal(viewer, dir);
    hide Sort, Listing, SchemaOk, OneLikeEach, OwnFirst, Correct, TotalPreorder, Count, StrictOn, FirstPages, Map,
         BelongsTo, VisibleComments, OwnThenByDate;
    PagesOfSort(le, rows, orders, pageSize);
    SameMembers(rows, Sort(le, rows));
    MapMultiset(ViewComment, rows, Sort(le, rows));
    SortedIsOwnThenByDate(viewer, dir, FirstPages(orders, pageSize));
    VisibleBelongs(db, scope);
    SameMembers(VisibleComments(db, scope), Map(ViewComment, FirstPages(orders, pageSize)));
  }

  lemma ListingIsDistinct(db: Db, scope: Scope, viewer: Option<Id>)
    requires SchemaOk(db) && OneLikeEach(db.likes)
    ensures Distinct(Listing(db, scope, viewer))
  {
    var rows := Listing(db, scope, viewer);
    ListingIsDirect(db, scope, viewer);
    FilterDistinct(VisibleTest(db, scope), db.comments);
    var cs := Map(ViewComment, rows);
    hide Listing, SchemaOk, OneLikeEach, Correct;
    forall i, j | 0 <= i < j < |rows| ensures rows[i] != rows[j] { assert cs[i] != cs[j]; }
  }

  /** With equal dates allowed: the pages show every visible comment exactly once, whatever order
      the database gives equal rows in each request, if and only if no page ends inside such a run. */
  lemma PagesShowEachOnceIff(db: Db, scope: Scope, viewer: Option<Id>, dir: Direction, pageSize: nat, sorted: seq<View>)
    requires SchemaOk(db) && OneLikeEach(db.likes) && pageSize > 0
    requires IsOrderBy(OwnFirst(viewer, dir), Listing(db, scope, viewer), sorted)
    ensures (forall orders :: ShowsEachOnce(OwnFirst(viewer, dir), Listing(db, scope, viewer), pageSize, orders))
            <==> !TieAcrossPages(OwnFirst(viewer, dir), sorted, pageSize)
    ensures |Listing(db, scope, viewer)| == Count(db, scope)
  {
    ListingIsDistinct(db, scope, viewer);
    ListingIsDirect(db, scope, viewer);
    OwnFirstIsTotal(viewer, dir);
    hide *;
    PagesExact(OwnFirst(viewer, dir), Listing(db, scope, viewer), sorted, pageSize);
  }

  // ------------------------------------------------ the answers column

  ghost function VisibleAnswers(db: Db, commentId: Id): set<Comment> {
    set a | a in AnswersOf(db, commentId) && a.commentatorId !in db.banned
  }

  lemma CountIsVisibleAnswers(db: Db, commentId: Id)
    requires SchemaOk(db)
    ensures Count(db, AnswersTo(commentId)) == |VisibleAnswers(db, commentId)|
  {
    var p := Counted(db, AnswersTo(commentId));
    var rows := Filter(p, db.comments);
    FilterDistinct(p, db.comments);
    FilterMembers(p, db.comments);
    DistinctSize(rows);
    forall a | a in VisibleAnswers(db, commentId) ensures a in rows {
      var i :| 0 <= i < |db.users| && db.users[i].id == a.commentatorId;
      assert db.users[i] in db.users;
    }
    assert VisibleAnswers(db, commentId) == set a | a in rows;
  }

  lemma {:induction false} SubsetSize<T>(a: set<T>, b: set<T>)
    requires a <= b
    ensures |a| <= |b| && (|a| == |b| <==> a == b)
  {
    assert b == a + (b - a) && |b| == |a| + |b - a|;
    if a != b { assert b - a != {}; }
  }

  /** A listed comment's "answersCount" equals the number of answers its own listing shows if and
      only if none of the answers is by a banned user: the count skips the ban filter. */
  lemma AnswersCountAgrees(db: Db, viewer: Option<Id>, v: View)
    requires SchemaOk(db) && Correct(db, viewer, v)
    ensures v.answersCount >= Count(db, AnswersTo(v.c.id))
    ensures v.answersCount == Count(db, AnswersTo(v.c.id))
            <==> forall a :: a in AnswersOf(db, v.c.id) ==> a.commentatorId !in db.banned
  {
    CountIsVisibleAnswers(db, v.c.id);
    hide SchemaOk, Count;
    SubsetSize(VisibleAnswers(db, v.c.id), AnswersOf(db, v.c.id));
  }

  // ------------------------------------------------ a run where the two disagree

  /** A comment, an answer to it by another user, and a ban of that user. */
  function BannedAnswerer(): seq<Event> {
    [Post(Comment("c", "", "u", "p", 1, None)), Post(Comment("a", "", "v", "p", 2, Some("c"))), Ban("v")]
  }

  lemma BannedAnswererTables(db: Db)
    requires db == Db([User("u", "u"), User("v", "v")], [], [], [])
    ensures Run(db, BannedAnswerer())
         == db.(comments := [Comment("c", "", "u", "p", 1, None), Comment("a", "", "v", "p", 2, Some("c"))],
            banned := ["v"])
  {
    var es := BannedAnswerer();
    assert es[..1][..0] == [] && es[..2][..1] == es[..1] && es[..3] == es && es[..|es| - 1] == es[..2];
    assert db.users[0] in db.users && db.users[1] in db.users;
    assert Run(db, es[..1]) == db.(comments := [es[0].comment]);
    assert Run(db, es[..2]) == db.(comments := [es[0].comment, es[1].comment]);
  }

  lemma ListedOnce(db: Db, scope: Scope, c: Comment) returns (v: View)
    requires SchemaOk(db) && OneLikeEach(db.likes) && c in db.comments && Visible(db, scope, c)
    ensures v in Listing(db, scope, None) && v.c == c && Correct(db, None, v)
  {
    ListingIsDirect(db, scope, None);
    FilterMember(VisibleTest(db, scope), db.comments, c);
    var views := Listing(db, scope, None);
    hide Listing, Filter, Correct, SchemaOk, OneLikeEach;
    var i :| 0 <= i < |views| && Map(ViewComment, views)[i] == c;
    v := views[i];
  }

  lemma AnswererIsBanned(end: Db)
    requires end.banned == ["v"]
    requires end.comments == [Comment("c", "", "u", "p", 1, None), Comment("a", "", "v", "p", 2, Some("c"))]
    ensures Visible(end, TopLevel("p"), end.comments[0]) && end.comments[1] in AnswersOf(end, "c")
  {
    assert "u"[0] != "v"[0];
  }

  lemma BannedAnswererEnd(db: Db)
    requires db == Db([User("u", "u"), User("v", "v")], [], [], [])
    ensures var end := Run(db, BannedAnswerer());
            SchemaOk(end) && OneLikeEach(end.likes) && |end.comments| == 2 && end.comments[0].id == "c"
            && Visible(end, TopLevel("p"), end.comments[0]) && end.comments[1] in AnswersOf(end, "c")
            && end.comments[1].commentatorId in end.banned
  {
    BannedAnswererSchema(db);
    hide *;
    BannedAnswererTables(db);
    RunInvariant(db, BannedAnswerer(), "", "");
    AnswererIsBanned(Run(db, BannedAnswerer()));
  }

  lemma BannedAnswererSchema(db: Db)
    requires db == Db([User("u", "u"), User("v", "v")], [], [], [])
    ensures SchemaOk(db)
  {
    assert "u"[0] != "v"[0];
  }

  /** The listing of that run's post shows the comment with one answer, while the listing of its answers
      counts none. */
  lemma BannedAnswererRun(db: Db) returns (v: View)
    requires db == Db([User("u", "u"), User("v", "v")], [], [], [])
    ensures var end := Run(db, BannedAnswerer());
            v in Listing(end, TopLevel("p"), None) && v.c.id == "c" && v.answersCount > Count(end, AnswersTo("c"))
  {
    hide *;
    BannedAnswererEnd(db);
    var end := Run(db, BannedAnswerer());
    v := ListedOnce(end, TopLevel("p"), end.comments[0]);
    AnswersCountAgrees(end, None, v);
  }
}
