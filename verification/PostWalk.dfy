/** Walking the post listing page by page, with the last post of a page as the next cursor. */
module PostWalk {
  import opened Tables
  import opened Ordering
  import opened Keyset
  import opened KeysetExact
  import opened Paginator
  import opened Likes
  import opened PostListing

  function ViewKey(dir: Direction): View -> int {
    (v: View) => SortKey(dir)(v.p)
  }

  /** `ordered` is an order the database may choose for the rows of one request. */
  ghost predicate Ordered(db: Db, scope: Scope, viewer: Option<Id>, dir: Direction, endCursorPostId: Option<Id>,
      ordered: seq<View>)
  {
    IsOrderBy(NewestFirst(ViewKey(dir)), Listing(db, scope, viewer, dir, CursorKey(db, scope, dir, endCursorPostId)),
      ordered)
  }

  /** One request of a walk: the tables it saw and the order chosen for its rows. */
  datatype Visit = Visit(db: Db, ordered: seq<View>)

  function PageOf(v: Visit, n: nat): seq<View> { Limit(v.ordered, n) }

  function LastPostId(walk: seq<Visit>, n: nat): Option<Id> {
    if walk == [] then None
    else
      var p := PageOf(walk[|walk| - 1], n);
      if p == [] then None else Some(p[|p| - 1].p.id)
  }

  /** Users, bans and posts stay as in `base`; likes may change between requests. */
  ghost predicate IsPostWalk(base: Db, walk: seq<Visit>, scope: Scope, viewer: Option<Id>, dir: Direction, n: nat) {
    walk == [] ||
    var m := |walk| - 1;
    IsPostWalk(base, walk[..m], scope, viewer, dir, n) &&
    (m > 0 ==> PageOf(walk[m - 1], n) != []) &&
    walk[m].db == base.(likes := walk[m].db.likes) && OneLikeEach(walk[m].db.likes) &&
    Ordered(walk[m].db, scope, viewer, dir, LastPostId(walk[..m], n), walk[m].ordered)
  }

  function Shown(walk: seq<Visit>, n: nat): seq<Post> {
    if walk == [] then [] else Shown(walk[..|walk| - 1], n) + Map(PostOf, PageOf(walk[|walk| - 1], n))
  }

  // ------------------------------------------------ a post walk is a keyset walk

  function ToRequest(base: Db, scope: Scope, v: Visit): Request<Post> {
    Request(VisiblePosts(base, scope), Map(PostOf, v.ordered))
  }

  lemma PageAnswered(db: Db, scope: Scope, viewer: Option<Id>, dir: Direction, endCursorPostId: Option<Id>,
      ordered: seq<View>)
    requires SchemaOk(db) && OneLikeEach(db.likes) && Ordered(db, scope, viewer, dir, endCursorPostId, ordered)
    ensures Answered(Request(VisiblePosts(db, scope), Map(PostOf, ordered)), SortKey(dir),
            CursorKey(db, scope, dir, endCursorPostId))
  {
    var c := CursorKey(db, scope, dir, endCursorPostId);
    var rows := Listing(db, scope, viewer, dir, c);
    ListingIsDirect(db, scope, viewer, Below(SortKey(dir), c));
    MapMultiset(PostOf, rows, ordered);
    var ps := Map(PostOf, ordered);
    forall i, j | 0 <= i < j < |ps| ensures NewestFirst(SortKey(dir))(ps[i], ps[j]) {
      assert NewestFirst(ViewKey(dir))(ordered[i], ordered[j]);
    }
  }

  lemma {:induction false} FindPostIs(posts: seq<Post>, p: Post)
    requires (forall i, j :: 0 <= i < j < |posts| ==> posts[i].id != posts[j].id) && p in posts
    ensures FindPost(posts, p.id) == Some(p)
  {
    if posts[0] != p { FindPostIs(posts[1..], p); }
  }

  /** A visible post's id, sent back as the cursor, stands for that post's own date. */
  lemma CursorOfShown(db: Db, scope: Scope, dir: Direction, p: Post)
    requires SchemaOk(db) && p in VisiblePosts(db, scope)
    ensures CursorKey(db, scope, dir, Some(p.id)) == Some(SortKey(dir)(p))
  {
    FilterMember(Visible(db, scope), db.posts, p);
    FindPostIs(db.posts, p);
  }

  lemma PageIsVisible(db: Db, scope: Scope, dir: Direction, cursor: Option<int>, r: Request<Post>)
    requires r.table == VisiblePosts(db, scope) && Answered(r, SortKey(dir), cursor)
    ensures forall p :: p in r.ordered ==> p in VisiblePosts(db, scope)
  {
    AnswerBelowCursor(r, SortKey(dir), cursor);
  }

  lemma VisitAnswered(base: Db, v: Visit, scope: Scope, viewer: Option<Id>, dir: Direction, endCursorPostId: Option<Id>)
    requires SchemaOk(base) && v.db == base.(likes := v.db.likes) && OneLikeEach(v.db.likes)
    requires Ordered(v.db, scope, viewer, dir, endCursorPostId, v.ordered)
    ensures Answered(ToRequest(base, scope, v), SortKey(dir), CursorKey(base, scope, dir, endCursorPostId))
  {
    PageAnswered(v.db, scope, viewer, dir, endCursorPostId, v.ordered);
    SameVisible(base, v.db, scope);
  }

  lemma VisitCursor(base: Db, v: Visit, scope: Scope, dir: Direction, cursor: Option<int>, n: nat)
    requires SchemaOk(base) && Answered(ToRequest(base, scope, v), SortKey(dir), cursor)
    ensures Page(ToRequest(base, scope, v), n) == Map(PostOf, PageOf(v, n))
    ensures var p := PageOf(v, n);
            p != [] ==> CursorKey(base, scope, dir, Some(p[|p| - 1].p.id)) == Some(SortKey(dir)(p[|p| - 1].p))
  {
    hide SchemaOk, Answered, VisiblePosts, CursorKey;
    var r, p := ToRequest(base, scope, v), PageOf(v, n);
    PageIsVisible(base, scope, dir, cursor, r);
    if p != [] {
      assert r.ordered[|p| - 1] == p[|p| - 1].p;
      CursorOfShown(base, scope, dir, p[|p| - 1].p);
    }
  }

  function KeysetOf(base: Db, scope: Scope, walk: seq<Visit>): seq<Request<Post>> {
    if walk == [] then [] else KeysetOf(base, scope, walk[..|walk| - 1]) + [ToRequest(base, scope, walk[|walk| - 1])]
  }

  /** The keyset walk so far agrees with the post walk: what it showed and where its cursor is. */
  ghost predicate Tracks(base: Db, scope: Scope, dir: Direction, walk: seq<Visit>, ks: seq<Request<Post>>, n: nat) {
    IsWalk(ks, SortKey(dir), n) && Returned(ks, n) == Shown(walk, n) && (ks == [] <==> walk == []) &&
    (walk != [] && PageOf(walk[|walk| - 1], n) != [] ==>
       Page(ks[|ks| - 1], n) != []
       && CursorKey(base, scope, dir, LastPostId(walk, n)) == CursorAfter(ks, SortKey(dir), n))
  }

  lemma TracksSnoc(base: Db, scope: Scope, viewer: Option<Id>, dir: Direction, walk: seq<Visit>,
      ks: seq<Request<Post>>, v: Visit, n: nat)
    requires SchemaOk(base) && Tracks(base, scope, dir, walk, ks, n)
    requires walk != [] ==> PageOf(walk[|walk| - 1], n) != []
    requires v.db == base.(likes := v.db.likes) && OneLikeEach(v.db.likes)
    requires Ordered(v.db, scope, viewer, dir, LastPostId(walk, n), v.ordered)
    ensures Tracks(base, scope, dir, walk + [v], ks + [ToRequest(base, scope, v)], n)
  {
    hide *;
    SnocFacts(base, scope, dir, walk, ks, v, n);
    VisitAnswered(base, v, scope, viewer, dir, LastPostId(walk, n));
    TracksFacts(base, scope, dir, walk, ks, n);
    VisitCursor(base, v, scope, dir, CursorAfter(ks, SortKey(dir), n), n);
    WalkSnoc(ks, ToRequest(base, scope, v), SortKey(dir), n);
    TracksFromFacts(base, scope, dir, walk, ks, v, n);
  }

  lemma SnocFacts(base: Db, scope: Scope, dir: Direction, walk: seq<Visit>, ks: seq<Request<Post>>, v: Visit, n: nat)
    ensures Shown(walk + [v], n) == Shown(walk, n) + Map(PostOf, PageOf(v, n))
    ensures LastPostId(walk + [v], n) == if PageOf(v, n) == [] then None
            else Some(PageOf(v, n)[|PageOf(v, n)| - 1].p.id)
    ensures CursorAfter(ks + [ToRequest(base, scope, v)], SortKey(dir), n)
         == PageEnd(Page(ToRequest(base, scope, v), n), SortKey(dir))
  {
    hide Map, VisiblePosts, SortKey;
    assert (walk + [v])[..|walk|] == walk;
  }

  lemma TracksFacts(base: Db, scope: Scope, dir: Direction, walk: seq<Visit>, ks: seq<Request<Post>>, n: nat)
    requires Tracks(base, scope, dir, walk, ks, n) && (walk != [] ==> PageOf(walk[|walk| - 1], n) != [])
    ensures CursorKey(base, scope, dir, LastPostId(walk, n)) == CursorAfter(ks, SortKey(dir), n)
    ensures IsWalk(ks, SortKey(dir), n) && Returned(ks, n) == Shown(walk, n)
    ensures ks != [] ==> Page(ks[|ks| - 1], n) != []
  {
    hide IsWalk, VisiblePosts, SortKey;
  }

  lemma TracksFromFacts(base: Db, scope: Scope, dir: Direction, walk: seq<Visit>, ks: seq<Request<Post>>, v: Visit,
      n: nat)
    requires var r, p := ToRequest(base, scope, v), PageOf(v, n);
             IsWalk(ks + [r], SortKey(dir), n) && Returned(ks + [r], n) == Returned(ks, n) + Page(r, n)
             && Page(r, n) == Map(PostOf, p) && Returned(ks, n) == Shown(walk, n)
             && (p != [] ==> CursorKey(base, scope, dir, Some(p[|p| - 1].p.id)) == Some(SortKey(dir)(p[|p| - 1].p)))
    ensures Tracks(base, scope, dir, walk + [v], ks + [ToRequest(base, scope, v)], n)
  {
    SnocFacts(base, scope, dir, walk, ks, v, n);
    hide IsWalk, VisiblePosts, SortKey, CursorKey, Shown, Returned, LastPostId, CursorAfter, ToRequest;
  }

  lemma TracksEmpty(base: Db, scope: Scope, dir: Direction, n: nat)
    ensures Tracks(base, scope, dir, [], KeysetOf(base, scope, []), n)
  {
  }

  lemma LastVisit(base: Db, walk: seq<Visit>, scope: Scope, viewer: Option<Id>, dir: Direction, n: nat)
    requires walk != [] && IsPostWalk(base, walk, scope, viewer, dir, n)
    ensures var before, v := walk[..|walk| - 1], walk[|walk| - 1];
            IsPostWalk(base, before, scope, viewer, dir, n) && (before != [] ==> PageOf(before[|before| - 1], n) != [])
            && v.db == base.(likes := v.db.likes) && OneLikeEach(v.db.likes)
            && Ordered(v.db, scope, viewer, dir, LastPostId(before, n), v.ordered)
  {
    hide Ordered, OneLikeEach;
  }

  lemma {:induction false} WalkIsKeyset(base: Db, walk: seq<Visit>, scope: Scope, viewer: Option<Id>, dir: Direction,
      n: nat)
    requires SchemaOk(base) && IsPostWalk(base, walk, scope, viewer, dir, n)
    ensures Tracks(base, scope, dir, walk, KeysetOf(base, scope, walk), n)
    decreases |walk|
  {
    hide *;
    if walk == [] {
      TracksEmpty(base, scope, dir, n);
    } else {
      var m := |walk| - 1;
      var before, v := walk[..m], walk[m];
      assert walk == before + [v];
      LastVisit(base, walk, scope, viewer, dir, n);
      KeysetSnoc(base, scope, walk);
      WalkIsKeyset(base, before, scope, viewer, dir, n);
      TracksSnoc(base, scope, viewer, dir, before, KeysetOf(base, scope, before), v, n);
    }
  }

  lemma KeysetSnoc(base: Db, scope: Scope, walk: seq<Visit>)
    requires walk != []
    ensures KeysetOf(base, scope, walk) == KeysetOf(base, scope, walk[..|walk| - 1])
            + [ToRequest(base, scope, walk[|walk| - 1])]
  {
  }

  lemma SameVisible(a: Db, b: Db, scope: Scope)
    requires b == a.(likes := b.likes)
    ensures VisiblePosts(a, scope) == VisiblePosts(b, scope)
  {
    FilterAgree(Visible(a, scope), Visible(b, scope), a.posts);
  }

  /** With distinct creation dates and fixed posts and bans, a finished walk in either direction
      has shown every visible post exactly once, in order, in `PagesCount` non-empty pages. */
  lemma PostWalkIsComplete(base: Db, walk: seq<Visit>, scope: Scope, viewer: Option<Id>, dir: Direction, n: nat)
    requires SchemaOk(base) && IsPostWalk(base, walk, scope, viewer, dir, n)
    requires NoTies(SortKey(dir), VisiblePosts(base, scope))
    requires walk != [] && |PageOf(walk[|walk| - 1], n)| < n
    ensures Shown(walk, n) == Sort(NewestFirst(SortKey(dir)), VisiblePosts(base, scope))
    ensures multiset(Shown(walk, n)) == multiset(VisiblePosts(base, scope))
            && StrictlyDescending(SortKey(dir), Shown(walk, n))
    ensures NonEmptyPages(KeysetOf(base, scope, walk), n) == PagesCount(|VisiblePosts(base, scope)|, n)
  {
    WalkIsKeyset(base, walk, scope, viewer, dir, n);
    FixedWalk(base, walk, scope, dir, n);
  }

  lemma {:induction false} KeysetTables(base: Db, scope: Scope, walk: seq<Visit>)
    ensures |KeysetOf(base, scope, walk)| == |walk|
    ensures forall i :: 0 <= i < |walk| ==> KeysetOf(base, scope, walk)[i] == ToRequest(base, scope, walk[i])
    decreases |walk|
  {
    if walk != [] { KeysetTables(base, scope, walk[..|walk| - 1]); }
  }

  lemma FixedWalk(base: Db, walk: seq<Visit>, scope: Scope, dir: Direction, n: nat)
    requires NoTies(SortKey(dir), VisiblePosts(base, scope))
    requires walk != [] && |PageOf(walk[|walk| - 1], n)| < n
    requires IsWalk(KeysetOf(base, scope, walk), SortKey(dir), n)
    ensures var ks, rows := KeysetOf(base, scope, walk), VisiblePosts(base, scope);
            Returned(ks, n) == Sort(NewestFirst(SortKey(dir)), rows)
            && multiset(Returned(ks, n)) == multiset(rows) && StrictlyDescending(SortKey(dir), Returned(ks, n))
            && NonEmptyPages(ks, n) == PagesCount(|rows|, n)
  {
    var ks := KeysetOf(base, scope, walk);
    KeysetTables(base, scope, walk);
    SeesFixed(ks, VisiblePosts(base, scope), SortKey(dir));
    assert |Page(ks[|ks| - 1], n)| == |PageOf(walk[|walk| - 1], n)|;
    WalkIsComplete(VisiblePosts(base, scope), SortKey(dir), n, ks);
  }

  /** With fixed posts and bans a finished walk has shown every visible post exactly once if and only if
      no page end of their order falls between two posts with equal creation dates. */
  lemma PostWalkExact(base: Db, walk: seq<Visit>, scope: Scope, viewer: Option<Id>, dir: Direction, n: nat,
      sorted: seq<Post>)
    requires SchemaOk(base) && IsPostWalk(base, walk, scope, viewer, dir, n)
    requires IsOrderBy(NewestFirst(SortKey(dir)), VisiblePosts(base, scope), sorted)
    requires walk != [] && |PageOf(walk[|walk| - 1], n)| < n
    ensures multiset(Shown(walk, n)) == multiset(VisiblePosts(base, scope)) <==> !TieAtPageEnd(SortKey(dir), sorted, n)
  {
    var ks, rows := KeysetOf(base, scope, walk), VisiblePosts(base, scope);
    WalkIsKeyset(base, walk, scope, viewer, dir, n);
    KeysetTables(base, scope, walk);
    assert SeesOnly(ks, rows);
    assert |Page(ks[|ks| - 1], n)| == |PageOf(walk[|walk| - 1], n)|;
    hide IsPostWalk, KeysetOf, SeesOnly, IsWalk, Returned, Shown, TieAtPageEnd, VisiblePosts;
    WalkExact(rows, SortKey(dir), sorted, n, ks);
  }

  /** The count reported with the next page is this page's count minus its length, if and only if
      no post left over shares the creation date of the page's last post. */
  lemma NextCount(db: Db, scope: Scope, viewer: Option<Id>, dir: Direction, endCursorPostId: Option<Id>,
      ordered: seq<View>, n: nat)
    requires SchemaOk(db) && OneLikeEach(db.likes) && Ordered(db, scope, viewer, dir, endCursorPostId, ordered)
    requires Limit(ordered, n) != []
    ensures var page := Limit(ordered, n);
            var last := page[|page| - 1].p;
            Count(db, scope, dir, CursorKey(db, scope, dir, Some(last.id)))
              == Count(db, scope, dir, CursorKey(db, scope, dir, endCursorPostId)) - |page|
            <==> NoTieLeft(Map(PostOf, ordered)[|page|..], SortKey(dir), SortKey(dir)(last))
  {
    hide *;
    var c, v := CursorKey(db, scope, dir, endCursorPostId), Visit(db, ordered);
    var r := ToRequest(db, scope, v);
    RequestOf(db, scope, ordered, n);
    PageAnswered(db, scope, viewer, dir, endCursorPostId, ordered);
    LastOfPage(db, scope, dir, c, ordered, n);
    CountIsAfter(db, scope, dir, c);
    CountDropsByPage(r, SortKey(dir), c, n);
  }

  lemma LastOfPage(db: Db, scope: Scope, dir: Direction, cursor: Option<int>, ordered: seq<View>, n: nat)
    requires SchemaOk(db) && Answered(ToRequest(db, scope, Visit(db, ordered)), SortKey(dir), cursor)
             && Limit(ordered, n) != []
    ensures var page, p := Limit(ordered, n), Page(ToRequest(db, scope, Visit(db, ordered)), n);
            var last := page[|page| - 1].p;
            |p| == |page| && p[|p| - 1] == last
            && Count(db, scope, dir, CursorKey(db, scope, dir, Some(last.id)))
            == |After(VisiblePosts(db, scope), SortKey(dir), Some(SortKey(dir)(last)))|
  {
    hide SchemaOk, Answered, VisiblePosts, CursorKey, Count, After, SortKey;
    var page := Limit(ordered, n);
    var last := page[|page| - 1].p;
    VisitCursor(db, Visit(db, ordered), scope, dir, cursor, n);
    CountIsAfter(db, scope, dir, Some(SortKey(dir)(last)));
  }

  lemma RequestOf(db: Db, scope: Scope, ordered: seq<View>, n: nat)
    ensures ToRequest(db, scope, Visit(db, ordered)) == Request(VisiblePosts(db, scope), Map(PostOf, ordered))
    ensures PageOf(Visit(db, ordered), n) == Limit(ordered, n)
  {
  }
}
