/** The joined and grouped comment select yields one row per visible comment, and every column
    says what it should. */
module CommentListingFacts {
  import opened Tables
  import opened Likes
  import opened CommentListing

  // ------------------------------------------------ each join on one row

  ghost function Counts(db: Db, status: LikeStatus, c: Comment): Option<nat> {
    NullIfZero(|Voters(db.likes, db.banned, status, c.id)|)
  }

  lemma CountsOfOne(c: Comment, db: Db)
    requires OneLikeEach(db.likes)
    ensures WithCounts([c], db) == [ToJoinRow(c).(likes := Counts(db, Like, c), dislikes := Counts(db, Dislike, c))]
  {
    var r0 := ToJoinRow(c);
    assert [c][1..] == [] && Map(ToJoinRow, [c]) == [r0];
    GroupSizeIsVoters(db.likes, db.banned, Like, c.id);
    GroupSizeIsVoters(db.likes, db.banned, Dislike, c.id);
    JoinGroup(r0, CountedLikes(db.likes, db.banned, Like), ByTarget, c.id, OnGroup, AttachLikes);
    LeftJoinOne(r0, LikeGroups(db.likes, db.banned, Like), OnGroup, AttachLikes);
    var r1 := r0.(likes := Counts(db, Like, c));
    assert LeftJoin([r0], LikeGroups(db.likes, db.banned, Like), OnGroup, AttachLikes) == [r1];
    JoinGroup(r1, CountedLikes(db.likes, db.banned, Dislike), ByTarget, c.id, OnGroup, AttachDislikes);
    LeftJoinOne(r1, LikeGroups(db.likes, db.banned, Dislike), OnGroup, AttachDislikes);
  }

  ghost predicate IsMine(db: Db, viewer: Option<Id>, c: Comment, mine: Option<LikeRow>) {
    match mine
    case None => forall l :: l in db.likes ==> !(viewer == Some(l.userId) && l.targetId == c.id)
    case Some(m) => m in db.likes && viewer == Some(m.userId) && m.targetId == c.id
                    && forall l :: l in db.likes && viewer == Some(l.userId) && l.targetId == c.id ==> l == m
  }

  lemma MineOfOne(r: JoinRow, db: Db, viewer: Option<Id>) returns (mine: Option<LikeRow>)
    requires OneLikeEach(db.likes)
    ensures WithMine([r], db, viewer) == [r.(mine := mine)] && IsMine(db, viewer, r.c, mine)
  {
    LeftJoinOne(r, db.likes, OnMine(viewer), AttachMine);
    if k :| 0 <= k < |db.likes| && OnMine(viewer)(r, db.likes[k]) {
      OneMatch(r, db.likes, OnMine(viewer), k);
      mine := Some(db.likes[k]);
    } else {
      NoMatch(r, db.likes, OnMine(viewer));
      mine := None;
    }
  }

  lemma AuthorOfOne(r: JoinRow, db: Db) returns (u: User)
    requires SchemaOk(db) && r.c in db.comments
    ensures u in db.users && u.id == r.c.commentatorId
    ensures WithAuthor([r], db) == [r.(author := Some(u), ban := if u.id in db.banned then Some(u.id) else None)]
  {
    var k := AuthorIndex(db, r.c);
    u := db.users[k];
    OneMatch(r, db.users, OnAuthor, k);
    LeftJoinOne(r, db.users, OnAuthor, AttachAuthor);
    BanOfOne(r.(author := Some(u)), db.banned);
  }

  lemma AuthorIndex(db: Db, c: Comment) returns (k: nat)
    requires SchemaOk(db) && c in db.comments
    ensures k < |db.users| && db.users[k].id == c.commentatorId
    ensures forall i :: 0 <= i < |db.users| && i != k ==> db.users[i].id != c.commentatorId
  {
    k :| 0 <= k < |db.users| && db.users[k].id == c.commentatorId;
  }

  lemma BanOfOne(r: JoinRow, banned: seq<Id>)
    requires r.author.Some? && Distinct(banned)
    ensures LeftJoin([r], banned, OnAuthorBan, AttachAuthorBan)
         == [r.(ban := if r.author.value.id in banned then Some(r.author.value.id) else None)]
  {
    LeftJoinOne(r, banned, OnAuthorBan, AttachAuthorBan);
    if r.author.value.id in banned {
      var i :| 0 <= i < |banned| && banned[i] == r.author.value.id;
      OneMatch(r, banned, OnAuthorBan, i);
    } else {
      NoMatch(r, banned, OnAuthorBan);
    }
  }

  // ------------------------------------------------ the answers join and its count

  lemma MatchesAreAnswers(r: JoinRow, db: Db)
    requires SchemaOk(db)
    ensures |Matches(r, db.comments, OnAnswer)| == |AnswersOf(db, r.c.id)|
  {
    var ms := Matches(r, db.comments, OnAnswer);
    assert Distinct(db.comments);
    MatchesDistinct(r, db.comments, OnAnswer);
    DistinctSize(ms);
    MatchesSound(r, db.comments, OnAnswer);
    forall a | a in AnswersOf(db, r.c.id) ensures a in ms { MatchesComplete(r, db.comments, OnAnswer, a); }
    assert (set x | x in ms) == AnswersOf(db, r.c.id);
  }

  lemma {:induction false} CountAttached(r: JoinRow, answers: seq<Comment>)
    ensures CountAnswers(AttachAll(r, answers, AttachAnswer)) == |answers|
  {
    if answers != [] {
      CountAttached(r, answers[1..]);
      var tail := AttachAll(r, answers[1..], AttachAnswer);
      assert ([AttachAnswer(r, Some(answers[0]))] + tail)[1..] == tail;
    }
  }

  /** Joining the answers multiplies a row but changes nothing but its answer, and the count of
      the answers is the comment's number of answers. */
  lemma AnswersOfOne(r: JoinRow, db: Db)
    requires SchemaOk(db) && r.answer.None?
    ensures var rows := WithAnswers([r], db);
            rows != [] && (forall i :: 0 <= i < |rows| ==> rows[i].(answer := None) == r) &&
            CountAnswers(rows) == |AnswersOf(db, r.c.id)|
  {
    LeftJoinOne(r, db.comments, OnAnswer, AttachAnswer);
    MatchesAreAnswers(r, db);
    CountAttached(r, Matches(r, db.comments, OnAnswer));
    var rows := WithAnswers([r], db);
    if Matches(r, db.comments, OnAnswer) == [] { assert rows[1..] == []; }
  }

  // ------------------------------------------------ one comment, then all of them

  /** The group key of all of a visible comment's rows. */
  ghost function KeyOf(db: Db, c: Comment, u: User, mine: Option<LikeRow>): GroupKey {
    GroupKey(c, Some(u.username), if mine.Some? then Some(mine.value.status) else None,
             Counts(db, Like, c), Counts(db, Dislike, c))
  }

  predicate Visible(db: Db, scope: Scope, c: Comment) {
    InScope(scope, c) && c.commentatorId !in db.banned
  }

  /** The rows of one comment: none if it is not visible; otherwise all with one group key. */
  ghost predicate IsBlock(db: Db, scope: Scope, c: Comment, rows: seq<JoinRow>, key: GroupKey) {
    if !Visible(db, scope, c) then rows == []
    else
      && rows != []
      && (forall i :: 0 <= i < |rows| ==> ByGroup(rows[i]) == key)
      && CountAnswers(rows) == |AnswersOf(db, c.id)|
  }

  lemma BlockFrom(r: JoinRow, db: Db, scope: Scope) returns (u: User)
    requires SchemaOk(db) && r.c in db.comments && r.answer.None?
    ensures u in db.users && u.id == r.c.commentatorId
    ensures IsBlock(db, scope, r.c, Filter(Where(scope), WithAnswers(WithAuthor([r], db), db)),
                    ByGroup(r.(author := Some(u))))
  {
    u := AuthorOfOne(r, db);
    var r1 := r.(author := Some(u), ban := if u.id in db.banned then Some(u.id) else None);
    AnswersOfOne(r1, db);
    BlockOfCopies(r1, db, scope, WithAnswers([r1], db));
  }

  /** Rows that differ from `r` in their answer only all pass or all fail the where clause. */
  lemma BlockOfCopies(r: JoinRow, db: Db, scope: Scope, rows: seq<JoinRow>)
    requires r.ban.None? <==> r.c.commentatorId !in db.banned
    requires rows != [] && (forall i :: 0 <= i < |rows| ==> rows[i].(answer := None) == r)
    requires CountAnswers(rows) == |AnswersOf(db, r.c.id)|
    ensures IsBlock(db, scope, r.c, Filter(Where(scope), rows), ByGroup(r))
  {
    hide CountAnswers, AnswersOf;
    forall i | 0 <= i < |rows| ensures rows[i].c == r.c && rows[i].ban == r.ban && ByGroup(rows[i]) == ByGroup(r) {
      assert rows[i].(answer := None) == r;
    }
    if Visible(db, scope, r.c) { FilterAll(Where(scope), rows); } else { FilterNone(Where(scope), rows); }
  }

  lemma UserBlock(db: Db, scope: Scope, viewer: Option<Id>,
      c: Comment) returns (key: GroupKey, u: User, mine: Option<LikeRow>)
    requires SchemaOk(db) && OneLikeEach(db.likes) && c in db.comments
    ensures key == KeyOf(db, c, u, mine) && u in db.users && u.id == c.commentatorId && IsMine(db, viewer, c, mine)
    ensures IsBlock(db, scope, c, UserRows([c], db, scope, viewer), key)
  {
    CountsOfOne(c, db);
    var r := WithCounts([c], db)[0];
    mine := MineOfOne(r, db, viewer);
    u := BlockFrom(r.(mine := mine), db, scope);
    key := KeyOf(db, c, u, mine);
  }

  lemma AdminBlock(db: Db, scope: Scope, c: Comment) returns (key: GroupKey, u: User)
    requires SchemaOk(db) && OneLikeEach(db.likes) && c in db.comments
    ensures key == KeyOf(db, c, u, None) && u in db.users && u.id == c.commentatorId
    ensures IsBlock(db, scope, c, AdminRows([c], db, scope), key)
  {
    CountsOfOne(c, db);
    u := BlockFrom(WithCounts([c], db)[0], db, scope);
    key := KeyOf(db, c, u, None);
  }

  lemma UserRowsAppend(a: seq<Comment>, b: seq<Comment>, db: Db, scope: Scope, viewer: Option<Id>)
    ensures UserRows(a + b, db, scope, viewer) == UserRows(a, db, scope, viewer) + UserRows(b, db, scope, viewer)
  {
    hide LeftJoin, Filter, WithCounts, WithAuthor, WithAnswers;
    WithCountsAppend(a, b, db);
    LeftJoinAppend(WithCounts(a, db), WithCounts(b, db), db.likes, OnMine(viewer), AttachMine);
    TailAppend(WithMine(WithCounts(a, db), db, viewer), WithMine(WithCounts(b, db), db, viewer), db, scope);
  }

  lemma WithCountsAppend(a: seq<Comment>, b: seq<Comment>, db: Db)
    ensures WithCounts(a + b, db) == WithCounts(a, db) + WithCounts(b, db)
  {
    hide Map, LeftJoin, LikeGroups;
    var a0, b0 := Map(ToJoinRow, a), Map(ToJoinRow, b);
    var likes, dislikes := LikeGroups(db.likes, db.banned, Like), LikeGroups(db.likes, db.banned, Dislike);
    MapAppend(ToJoinRow, a, b);
    LeftJoinAppend(a0, b0, likes, OnGroup, AttachLikes);
    LeftJoinAppend(LeftJoin(a0, likes, OnGroup, AttachLikes), LeftJoin(b0, likes, OnGroup, AttachLikes),
                   dislikes, OnGroup, AttachDislikes);
  }

  lemma TailAppend(a: seq<JoinRow>, b: seq<JoinRow>, db: Db, scope: Scope)
    ensures Filter(Where(scope), WithAnswers(WithAuthor(a + b, db), db))
         == Filter(Where(scope), WithAnswers(WithAuthor(a, db), db))
            + Filter(Where(scope), WithAnswers(WithAuthor(b, db), db))
  {
    hide LeftJoin, Filter;
    LeftJoinAppend(a, b, db.users, OnAuthor, AttachAuthor);
    LeftJoinAppend(LeftJoin(a, db.users, OnAuthor, AttachAuthor), LeftJoin(b, db.users, OnAuthor, AttachAuthor),
                   db.banned, OnAuthorBan, AttachAuthorBan);
    LeftJoinAppend(WithAuthor(a, db), WithAuthor(b, db), db.comments, OnAnswer, AttachAnswer);
    FilterAppend(Where(scope), WithAnswers(WithAuthor(a, db), db), WithAnswers(WithAuthor(b, db), db));
  }

  lemma AdminRowsAppend(a: seq<Comment>, b: seq<Comment>, db: Db, scope: Scope)
    ensures AdminRows(a + b, db, scope) == AdminRows(a, db, scope) + AdminRows(b, db, scope)
  {
    hide LeftJoin, Filter, WithCounts, WithAuthor, WithAnswers;
    WithCountsAppend(a, b, db);
    TailAppend(WithCounts(a, db), WithCounts(b, db), db, scope);
  }

  lemma BlockRows(db: Db, scope: Scope, c: Comment, rows: seq<JoinRow>, key: GroupKey)
    requires IsBlock(db, scope, c, rows, key) && key.c == c
    ensures forall i :: 0 <= i < |rows| ==> rows[i].c == c
  {
    forall i | 0 <= i < |rows| ensures rows[i].c == c { assert ByGroup(rows[i]) == key; }
  }

  ghost predicate RowsFrom(rows: seq<JoinRow>, from: seq<Comment>) {
    forall i :: 0 <= i < |rows| ==> rows[i].c in from
  }

  lemma RowsFromCons(block: seq<JoinRow>, rows: seq<JoinRow>, c: Comment, rest: seq<Comment>)
    requires (forall i :: 0 <= i < |block| ==> block[i].c == c) && RowsFrom(rows, rest)
    ensures RowsFrom(block + rows, [c] + rest)
  {
    var all := block + rows;
    forall i | 0 <= i < |all| ensures all[i].c in [c] + rest {
      if i >= |block| { assert all[i] == rows[i - |block|]; }
    }
  }

  lemma NoRows(db: Db, scope: Scope, viewer: Option<Id>)
    ensures UserRows([], db, scope, viewer) == [] && AdminRows([], db, scope) == []
  {
  }

  /** The comment of a row comes from the select's own table. */
  lemma {:induction false} UserRowsFrom(from: seq<Comment>, db: Db, scope: Scope, viewer: Option<Id>)
    requires SchemaOk(db) && OneLikeEach(db.likes) && forall c :: c in from ==> c in db.comments
    ensures RowsFrom(UserRows(from, db, scope, viewer), from)
  {
    if from == [] {
      NoRows(db, scope, viewer);
    } else {
      var c, rest := from[0], from[1..];
      assert from == [c] + rest;
      var key, u, mine := UserBlock(db, scope, viewer, c);
      BlockRows(db, scope, c, UserRows([c], db, scope, viewer), key);
      hide *;
      UserRowsAppend([c], rest, db, scope, viewer);
      UserRowsFrom(rest, db, scope, viewer);
      RowsFromCons(UserRows([c], db, scope, viewer), UserRows(rest, db, scope, viewer), c, rest);
    }
  }

  lemma {:induction false} AdminRowsFrom(from: seq<Comment>, db: Db, scope: Scope)
    requires SchemaOk(db) && OneLikeEach(db.likes) && forall c :: c in from ==> c in db.comments
    ensures RowsFrom(AdminRows(from, db, scope), from)
  {
    if from == [] {
      NoRows(db, scope, None);
    } else {
      var c, rest := from[0], from[1..];
      assert from == [c] + rest;
      var key, u := AdminBlock(db, scope, c);
      BlockRows(db, scope, c, AdminRows([c], db, scope), key);
      hide *;
      AdminRowsAppend([c], rest, db, scope);
      AdminRowsFrom(rest, db, scope);
      RowsFromCons(AdminRows([c], db, scope), AdminRows(rest, db, scope), c, rest);
    }
  }

  function VisibleTest(db: Db, scope: Scope): Comment -> bool {
    (c: Comment) => Visible(db, scope, c)
  }

  function ViewComment(v: View): Comment { v.c }

  /** The rows are exactly the visible comments, in table order, and each is correct. */
  ghost predicate ListsVisible(db: Db, scope: Scope, viewer: Option<Id>, from: seq<Comment>, views: seq<View>) {
    && Map(ViewComment, views) == Filter(VisibleTest(db, scope), from)
    && forall i :: 0 <= i < |views| ==> Correct(db, viewer, views[i])
  }

  lemma ViewIsCorrect(db: Db, viewer: Option<Id>, c: Comment, u: User, mine: Option<LikeRow>, rows: seq<JoinRow>)
    requires c in db.comments && u in db.users && u.id == c.commentatorId && IsMine(db, viewer, c, mine)
    requires CountAnswers(rows) == |AnswersOf(db, c.id)|
    ensures var v := ToView((KeyOf(db, c, u, mine), rows)); v.c == c && Correct(db, viewer, v)
  {
    assert User(c.commentatorId, u.username) == u;
  }

  lemma AllAppend<T>(p: T -> bool, a: seq<T>, b: seq<T>)
    requires (forall i :: 0 <= i < |a| ==> p(a[i])) && (forall i :: 0 <= i < |b| ==> p(b[i]))
    ensures forall i :: 0 <= i < |a + b| ==> p((a + b)[i])
  {
  }

  lemma ListsCons(db: Db, scope: Scope, viewer: Option<Id>, c: Comment, rest: seq<Comment>, head: seq<View>,
      tail: seq<View>)
    requires ListsVisible(db, scope, viewer, rest, tail)
    requires if Visible(db, scope, c) then |head| == 1 && head[0].c == c && Correct(db, viewer, head[0]) else head == []
    ensures ListsVisible(db, scope, viewer, [c] + rest, head + tail)
  {
    assert ([c] + rest)[1..] == rest;
    AllAppend((v: View) => Correct(db, viewer, v), head, tail);
    MapAppend(ViewComment, head, tail);
    assert Map(ViewComment, head) == if Visible(db, scope, c) then [c] else [];
  }

  lemma NoListing(db: Db, scope: Scope, viewer: Option<Id>)
    ensures ListsVisible(db, scope, viewer, [], Map(ToView, GroupBy([], ByGroup)))
  {
  }

  lemma {:induction false} UserListing(db: Db, scope: Scope, viewer: Option<Id>, from: seq<Comment>)
    requires SchemaOk(db) && OneLikeEach(db.likes) && (forall c :: c in from ==> c in db.comments) && Distinct(from)
    ensures ListsVisible(db, scope, viewer, from, Map(ToView, GroupBy(UserRows(from, db, scope, viewer), ByGroup)))
  {
    hide *;
    if from == [] {
      NoRows(db, scope, viewer);
      NoListing(db, scope, viewer);
    } else {
      var c, rest := from[0], from[1..];
      assert from == [c] + rest;
      DistinctHead(c, rest);
      UserListing(db, scope, viewer, rest);
      UserRowsAppend([c], rest, db, scope, viewer);
      UserRowsFrom(rest, db, scope, viewer);
      var key, u, mine := UserBlock(db, scope, viewer, c);
      AddBlock(db, scope, viewer, c, rest, u, mine, UserRows([c], db, scope, viewer), UserRows(rest, db, scope, viewer),
        key);
    }
  }

  /** Putting one comment's block in front of the others' rows lists one more comment. */
  lemma AddBlock(db: Db, scope: Scope, viewer: Option<Id>, c: Comment, rest: seq<Comment>, u: User,
      mine: Option<LikeRow>, block: seq<JoinRow>, tail: seq<JoinRow>, key: GroupKey)
    requires c in db.comments && c !in rest && u in db.users && u.id == c.commentatorId && IsMine(db, viewer, c, mine)
    requires key == KeyOf(db, c, u, mine) && IsBlock(db, scope, c, block, key)
    requires RowsFrom(tail, rest)
    requires ListsVisible(db, scope, viewer, rest, Map(ToView, GroupBy(tail, ByGroup)))
    ensures ListsVisible(db, scope, viewer, [c] + rest, Map(ToView, GroupBy(block + tail, ByGroup)))
  {
    var views := Map(ToView, GroupBy(tail, ByGroup));
    if Visible(db, scope, c) {
      forall i | 0 <= i < |tail| ensures ByGroup(tail[i]) != key { assert tail[i].c in rest; }
      GroupBlock(block, tail, ByGroup, key);
      ViewIsCorrect(db, viewer, c, u, mine, block);
      MapAppend(ToView, [(key, block)], GroupBy(tail, ByGroup));
      ListsCons(db, scope, viewer, c, rest, [ToView((key, block))], views);
    } else {
      assert block + tail == tail && [] + views == views;
      ListsCons(db, scope, viewer, c, rest, [], views);
    }
  }

  lemma {:induction false} AdminListingOf(db: Db, scope: Scope, from: seq<Comment>)
    requires SchemaOk(db) && OneLikeEach(db.likes) && (forall c :: c in from ==> c in db.comments) && Distinct(from)
    ensures ListsVisible(db, scope, None, from, Map(ToView, GroupBy(AdminRows(from, db, scope), ByGroup)))
  {
    hide *;
    if from == [] {
      NoRows(db, scope, None);
      NoListing(db, scope, None);
    } else {
      var c, rest := from[0], from[1..];
      assert from == [c] + rest;
      DistinctHead(c, rest);
      AdminListingOf(db, scope, rest);
      AdminRowsAppend([c], rest, db, scope);
      AdminRowsFrom(rest, db, scope);
      var key, u := AdminBlock(db, scope, c);
      NobodysLike(db, c);
      AddBlock(db, scope, None, c, rest, u, None, AdminRows([c], db, scope), AdminRows(rest, db, scope), key);
    }
  }

  lemma NobodysLike(db: Db, c: Comment)
    ensures IsMine(db, None, c, None)
  {
  }

  // ------------------------------------------------ main results

  /** With at most one like row per user and comment, the joined and grouped select gives
      exactly one row per visible comment, every column correct, and the separate count
      agrees with the number of rows. */
  lemma ListingIsDirect(db: Db, scope: Scope, viewer: Option<Id>)
    requires SchemaOk(db) && OneLikeEach(db.likes)
    ensures ListsVisible(db, scope, viewer, db.comments, Listing(db, scope, viewer))
    ensures |Listing(db, scope, viewer)| == Count(db, scope)
  {
    UserListing(db, scope, viewer, db.comments);
    FilterAgree(Counted(db, scope), VisibleTest(db, scope), db.comments);
  }

  /** The admin select gives the same rows with the viewer's status blank. */
  lemma AdminListingIsListing(db: Db, scope: Scope, viewer: Option<Id>)
    requires SchemaOk(db) && OneLikeEach(db.likes)
    ensures var mine, admin := Listing(db, scope, viewer), AdminListing(db, scope);
            |mine| == |admin| && forall i :: 0 <= i < |mine| ==> admin[i] == mine[i].(myStatus := NoStatus)
  {
    UserListing(db, scope, viewer, db.comments);
    AdminListingOf(db, scope, db.comments);
    SameViews(db, scope, viewer, Listing(db, scope, viewer), AdminListing(db, scope));
  }

  lemma SameViews(db: Db, scope: Scope, viewer: Option<Id>, mine: seq<View>, admin: seq<View>)
    requires SchemaOk(db) && ListsVisible(db, scope, viewer, db.comments, mine)
             && ListsVisible(db, scope, None, db.comments, admin)
    ensures |mine| == |admin| && forall i :: 0 <= i < |mine| ==> admin[i] == mine[i].(myStatus := NoStatus)
  {
    assert |Map(ViewComment, mine)| == |Map(ViewComment, admin)|;
    forall i | 0 <= i < |mine| ensures admin[i] == mine[i].(myStatus := NoStatus) {
      assert Map(ViewComment, mine)[i] == Map(ViewComment, admin)[i];
      assert Correct(db, viewer, mine[i]) && Correct(db, None, admin[i]);
      hide ListsVisible, SchemaOk;
      SameUser(db, mine[i].c, mine[i].username.value, admin[i].username.value);
    }
  }

  lemma SameUser(db: Db, c: Comment, a: string, b: string)
    requires SchemaOk(db) && User(c.commentatorId, a) in db.users && User(c.commentatorId, b) in db.users
    ensures a == b
  {
    var i :| 0 <= i < |db.users| && db.users[i] == User(c.commentatorId, a);
    var j :| 0 <= j < |db.users| && db.users[j] == User(c.commentatorId, b);
    assert i == j;
  }
}
