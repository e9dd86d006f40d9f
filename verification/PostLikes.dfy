/** Liking posts: the toggle, and what a listing reports after any run of likes and bans. */
module PostLikes {
  import opened Tables
  import opened Ordering
  import opened Keyset
  import opened Likes
  import opened LikeTable
  import opened PostListing

  // ------------------------------------------------ one step, as a function of the tables

  /** The post exists and its owner is not banned. */
  predicate CanLike(posts: seq<Post>, banned: seq<Id>, postId: Id) {
    exists p :: p in posts && p.id == postId && p.userId !in banned
  }

  function Toggled(status: LikeStatus): LikeStatus { if status == Like then NoStatus else Like }

  /** The rows and the answer after a user likes or unlikes a post. */
  function LikePost(db: Db, userId: Id, postId: Id, now: int, rowId: Id): (seq<LikeRow>, Answer) {
    if !CanLike(db.posts, db.banned, postId) then (db.likes, NotFound)
    else
      match FindLike(db.likes, userId, postId)
      case Some(l) => (Overwrite(db.likes, l.id, Toggled(l.status), now), Success)
      case None =>
        var row := LikeRow(rowId, Like, postId, userId, now, now);
        if HasUser(db.users, userId) && CanInsert(db.likes, row) then (db.likes + [row], Success)
          else (db.likes, InternalError)
  }

  class AddLikePostUseCase {
    var users: seq<User>
    var banned: seq<Id>
    var posts: seq<Post>
    const likes: LikesRepository

    constructor (users: seq<User>, banned: seq<Id>, posts: seq<Post>, likes: LikesRepository)
      ensures this.users == users && this.banned == banned && this.posts == posts && this.likes == likes
    {
      this.users, this.banned, this.posts, this.likes := users, banned, posts, likes;
    }

    function Tables(): Db
      reads this, likes
    {
      Db(users, banned, posts, likes.rows)
    }

    /** `now` is the clock and `rowId` the id the database generates. */
    method Execute(userId: Id, postId: Id, now: int, rowId: Id) returns (answer: Answer)
      modifies likes
      ensures (likes.rows, answer) == old(LikePost(Tables(), userId, postId, now, rowId))
    {
      var userLike := likes.GetLike(postId, userId);
      if !CanLike(posts, banned, postId) { return NotFound; }
      if userLike == null {
        answer := CreateNewLike(postId, userId, now, rowId);
      } else {
        UpdateCurrentLike(userLike, now);
        answer := Success;
      }
    }

    method CreateNewLike(postId: Id, userId: Id, now: int, rowId: Id) returns (answer: Answer)
      modifies likes
      ensures var row := LikeRow(rowId, Like, postId, userId, now, now);
              var ok := HasUser(users, userId) && CanInsert(old(likes.rows), row);
              answer == (if ok then Success else InternalError)
              && likes.rows == if ok then old(likes.rows) + [row] else old(likes.rows)
    {
      // The foreign key to the user row makes the insert throw.
      if !HasUser(users, userId) { return InternalError; }
      var ok := likes.AddLike(LikeRow(rowId, Like, postId, userId, now, now));
      answer := if ok then Success else InternalError;
    }

    method UpdateCurrentLike(like: LikeEntity, now: int)
      modifies like, likes
      ensures likes.rows == Overwrite(old(likes.rows), like.row.id, if old(like.status) == Like then NoStatus
              else Like, now)
    {
      var status: LikeStatus;
      if like.status == Like {
        status := NoStatus;
      } else {
        status := Like;
      }
      like.UpdateLike(status, now);
      likes.UpdateLike(like);
    }
  }

  // ------------------------------------------------ runs

  datatype Event =
    | Press(userId: Id, postId: Id, now: int, rowId: Id)
    | Publish(post: Post)
    | Ban(userId: Id)
    | Unban(userId: Id)

  predicate CanPublish(db: Db, p: Post) {
    p.id != "" && HasUser(db.users, p.userId) && forall q :: q in db.posts ==> q.id != p.id
  }

  function Step(db: Db, e: Event): Db {
    match e
    case Press(userId, postId, now, rowId) => db.(likes := LikePost(db, userId, postId, now, rowId).0)
    case Publish(p) => if CanPublish(db, p) then db.(posts := db.posts + [p]) else db
    case Ban(userId) =>
      if HasUser(db.users, userId) && userId !in db.banned then db.(banned := db.banned + [userId]) else db
    case Unban(userId) => db.(banned := Without(db.banned, userId))
  }

  function Run(db: Db, events: seq<Event>): Db {
    if events == [] then db else Step(Run(db, events[..|events| - 1]), events[|events| - 1])
  }

  predicate Succeeds(db: Db, e: Event, userId: Id, postId: Id) {
    e.Press? && e.userId == userId && e.postId == postId && LikePost(db, userId, postId, e.now, e.rowId).1 == Success
  }

  /** How many of the user's calls on the post succeeded. */
  function Presses(db: Db, events: seq<Event>, userId: Id, postId: Id): nat {
    if events == [] then 0
    else
      var before := events[..|events| - 1];
      Presses(db, before, userId, postId) + if Succeeds(Run(db, before), events[|events| - 1], userId, postId) then 1
        else 0
  }

  /** When the latest of them happened. */
  function LastPress(db: Db, events: seq<Event>, userId: Id, postId: Id): int {
    if events == [] then 0
    else
      var before, e := events[..|events| - 1], events[|events| - 1];
      if Succeeds(Run(db, before), e, userId, postId) then e.now else LastPress(db, before, userId, postId)
  }

  ghost predicate Reachable(db: Db) {
    SchemaOk(db) && Keyed(db.likes) && KnownUsers(db.users, db.likes)
  }

  /** A user's row on a post after `n` successful calls, the latest at `at`. */
  predicate RowAfter(l: Option<LikeRow>, n: nat, at: int) {
    if n == 0 then l.None?
    else l.Some? && l.value.status == (if n % 2 == 1 then Like else NoStatus) && l.value.updatedAt == at
  }

  lemma OverwriteEffect(db: Db, l: LikeRow, status: LikeStatus, now: int, u: Id, p: Id)
    requires Reachable(db) && l in db.likes
    ensures var rows := Overwrite(db.likes, l.id, status, now);
            Reachable(db.(likes := rows)) &&
            FindLike(rows, u, p) == if IsLikeOf(l, u, p) then Some(l.(status := status, updatedAt := now))
              else FindLike(db.likes, u, p)
    ensures FindLike(db.likes, l.userId, l.targetId) == Some(l)
  {
    hide *;
    var rows := Overwrite(db.likes, l.id, status, now);
    ReachableFacts(db);
    KeyedFacts(db.likes);
    OverwriteKeepsKeyed(db.likes, l.id, status, now);
    OverwriteKeepsUsers(db.users, db.likes, l.id, status, now);
    ReachableFromFacts(db, rows);
    FindAfterOverwrite(db.likes, l, status, now, u, p);
    FindLikeIs(db.likes, l);
  }

  lemma ReachableFacts(db: Db)
    requires Reachable(db)
    ensures SchemaOk(db) && Keyed(db.likes) && KnownUsers(db.users, db.likes)
  {
  }

  lemma ReachableFromFacts(db: Db, rows: seq<LikeRow>)
    requires SchemaOk(db) && Keyed(rows) && KnownUsers(db.users, rows)
    ensures Reachable(db.(likes := rows))
  {
    hide Keyed;
    assert SchemaOk(db.(likes := rows));
    hide SchemaOk;
  }

  lemma AddEffect(db: Db, row: LikeRow, u: Id, p: Id)
    requires Reachable(db) && FindLike(db.likes, row.userId, row.targetId).None?
    requires CanInsert(db.likes, row) && HasUser(db.users, row.userId)
    ensures var rows := db.likes + [row];
            Reachable(db.(likes := rows)) &&
            FindLike(rows, u, p) == if IsLikeOf(row, u, p) then Some(row) else FindLike(db.likes, u, p)
  {
    AddKeepsKeyed(db.likes, row);
    FindAfterAdd(db.likes, row, u, p);
    hide Keyed, SchemaOk, FindLike;
  }

  /** What one call changes: it moves the caller's row on the post one press further, and leaves
      every other row alone. */
  lemma LikePostEffect(db: Db, userId: Id, postId: Id, now: int, rowId: Id, u: Id, p: Id, n: nat, at: int)
    requires Reachable(db) && RowAfter(FindLike(db.likes, u, p), n, at)
    ensures var (rows, answer) := LikePost(db, userId, postId, now, rowId);
            Reachable(db.(likes := rows)) &&
            if answer == Success && u == userId && p == postId then RowAfter(FindLike(rows, u, p), n + 1, now)
            else RowAfter(FindLike(rows, u, p), n, at)
  {
    FindLikeSound(db.likes, userId, postId);
    hide Reachable;
    match FindLike(db.likes, userId, postId)
    case Some(l) => OverwriteEffect(db, l, Toggled(l.status), now, u, p);
    case None =>
      var row := LikeRow(rowId, Like, postId, userId, now, now);
      if CanInsert(db.likes, row) && HasUser(db.users, userId) { AddEffect(db, row, u, p); }
  }

  lemma LikePostAnswers(db: Db, userId: Id, postId: Id, now: int, rowId: Id)
    requires Reachable(db)
    ensures var (rows, answer) := LikePost(db, userId, postId, now, rowId);
            var known := exists p :: p in db.posts && p.id == postId && p.userId !in db.banned;
            var rated := exists l :: l in db.likes && l.userId == userId && l.targetId == postId;
            var free := forall l :: l in db.likes ==> l.id != rowId;
            (answer == NotFound <==> !known) &&
            (answer == Success <==> known && (rated || (free && exists u :: u in db.users && u.id == userId))) &&
            (answer == Success || answer == NotFound || answer == InternalError) &&
            (answer != Success ==> rows == db.likes)
  {
    FindLikeSound(db.likes, userId, postId);
    InsertIsFree(db.likes, LikeRow(rowId, Like, postId, userId, now, now));
    hide CanInsert, FindLike, Reachable;
  }

  /** What a successful call makes of a row: the user's own one on the post changes between like and none. */
  predicate Pressed(was: LikeRow, row: LikeRow, userId: Id, postId: Id, now: int) {
    if was.userId == userId && was.targetId == postId then
      row == LikeRow(was.id, if was.status == Like then NoStatus
        else Like, was.targetId, was.userId, was.createdAt, now)
    else row == was
  }

  lemma LikePostOverwrites(db: Db, userId: Id, postId: Id, now: int, rowId: Id, l: LikeRow)
    requires Reachable(db) && FindLike(db.likes, userId, postId) == Some(l)
    requires LikePost(db, userId, postId, now, rowId).1 == Success
    ensures var rows := LikePost(db, userId, postId, now, rowId).0;
            |rows| == |db.likes| && forall i :: 0 <= i < |rows| ==> Pressed(db.likes[i], rows[i], userId, postId, now)
  {
    FindLikeSound(db.likes, userId, postId);
    var rows := LikePost(db, userId, postId, now, rowId).0;
    assert Keyed(db.likes);
    hide FindLike, Reachable, Keyed;
    forall i | 0 <= i < |rows| ensures Pressed(db.likes[i], rows[i], userId, postId, now) {
      OnlyMine(db.likes, l, i);
    }
  }

  /** A call succeeds exactly when an unbanned user's post has the id and the caller has a row on it or can be
      given one. A like becomes no status, any other status a like, dated now; a new row is a like; every
      other row stays. */
  lemma LikePostOutcome(db: Db, userId: Id, postId: Id, now: int, rowId: Id)
    requires Reachable(db)
    ensures var (rows, answer) := LikePost(db, userId, postId, now, rowId);
            var known := exists p :: p in db.posts && p.id == postId && p.userId !in db.banned;
            var rated := exists l :: l in db.likes && l.userId == userId && l.targetId == postId;
            var free := forall l :: l in db.likes ==> l.id != rowId;
            (answer == NotFound <==> !known) &&
            (answer == Success <==> known && (rated || (free && exists u :: u in db.users && u.id == userId))) &&
            (answer == Success || answer == NotFound || answer == InternalError) &&
            if answer != Success then rows == db.likes
            else if rated then
              |rows| == |db.likes| && forall i :: 0 <= i < |rows| ==> Pressed(db.likes[i], rows[i], userId, postId, now)
            else rows == db.likes + [LikeRow(rowId, Like, postId, userId, now, now)]
  {
    LikePostAnswers(db, userId, postId, now, rowId);
    FindLikeSound(db.likes, userId, postId);
    if LikePost(db, userId, postId, now, rowId).1 == Success && FindLike(db.likes, userId, postId).Some? {
      LikePostOverwrites(db, userId, postId, now, rowId, FindLike(db.likes, userId, postId).value);
    }
    hide CanInsert, FindLike, Reachable, Overwrite, Pressed;
  }

  lemma StepKeepsReachable(db: Db, e: Event)
    requires Reachable(db)
    ensures Reachable(Step(db, e))
  {
    match e
    case Press(userId, postId, now, rowId) =>
      var l := FindLike(db.likes, "", "");
      if l.None? { LikePostEffect(db, userId, postId, now, rowId, "", "", 0, 0); }
      else if l.value.status == Like { LikePostEffect(db, userId, postId, now, rowId, "", "", 1, l.value.updatedAt); }
      else { PressReachable(db, userId, postId, now, rowId); }
    case Publish(p) => if CanPublish(db, p) { PublishKeepsSchema(db, p); }
    case Ban(userId) =>
    case Unban(userId) => WithoutKeepsDistinct(db.banned, userId);
  }

  lemma PressReachable(db: Db, userId: Id, postId: Id, now: int, rowId: Id)
    requires Reachable(db)
    ensures Reachable(db.(likes := LikePost(db, userId, postId, now, rowId).0))
  {
    FindLikeSound(db.likes, userId, postId);
    hide Reachable;
    match FindLike(db.likes, userId, postId)
    case Some(l) => OverwriteEffect(db, l, Toggled(l.status), now, "", "");
    case None =>
      var row := LikeRow(rowId, Like, postId, userId, now, now);
      if CanInsert(db.likes, row) && HasUser(db.users, userId) { AddEffect(db, row, "", ""); }
  }

  lemma PublishKeepsSchema(db: Db, p: Post)
    requires SchemaOk(db) && CanPublish(db, p)
    ensures SchemaOk(db.(posts := db.posts + [p]))
  {
    var all := db.posts + [p];
    forall x | x in all ensures x.id != "" && exists i :: 0 <= i < |db.users| && db.users[i].id == x.userId {
      if x !in db.posts {
        var u :| u in db.users && u.id == p.userId;
        var i :| 0 <= i < |db.users| && db.users[i] == u;
      }
    }
    forall i, j | 0 <= i < j < |all| ensures all[i].id != all[j].id { assert all[i] in db.posts; }
  }

  lemma StepRow(db: Db, e: Event, u: Id, p: Id, n: nat, at: int)
    requires Reachable(db) && RowAfter(FindLike(db.likes, u, p), n, at)
    ensures var l := FindLike(Step(db, e).likes, u, p);
            if Succeeds(db, e, u, p) then RowAfter(l, n + 1, e.now) else RowAfter(l, n, at)
  {
    hide Reachable, FindLike, LikePost, RowAfter;
    if e.Press? { LikePostEffect(db, e.userId, e.postId, e.now, e.rowId, u, p, n, at); }
  }

  lemma RunOfNone(db: Db, u: Id, p: Id)
    requires SchemaOk(db) && db.likes == []
    ensures Run(db, []) == db && Reachable(db)
    ensures RowAfter(FindLike(db.likes, u, p), Presses(db, [], u, p), LastPress(db, [], u, p))
  {
  }

  lemma LastOfRun(db: Db, events: seq<Event>, u: Id, p: Id)
    requires events != []
    ensures var before, e := events[..|events| - 1], events[|events| - 1];
            Run(db, events) == Step(Run(db, before), e) &&
            if Succeeds(Run(db, before), e, u, p) then
              Presses(db, events, u, p) == Presses(db, before, u, p) + 1 && LastPress(db, events, u, p) == e.now
            else
              Presses(db, events, u, p) == Presses(db, before, u, p)
              && LastPress(db, events, u, p) == LastPress(db, before, u, p)
  {
    hide Step, Succeeds;
  }

  /** In every run at most one like row per user and post exists; the row exists once a call
      succeeded, says "like" exactly after an odd number of them, and is dated by the latest. */
  lemma {:induction false} RunInvariant(db: Db, events: seq<Event>, u: Id, p: Id)
    requires SchemaOk(db) && db.likes == []
    ensures Reachable(Run(db, events))
    ensures RowAfter(FindLike(Run(db, events).likes, u, p), Presses(db, events, u, p), LastPress(db, events, u, p))
    decreases |events|
  {
    hide *;
    if events == [] {
      RunOfNone(db, u, p);
    } else {
      var before, e := events[..|events| - 1], events[|events| - 1];
      RunInvariant(db, before, u, p);
      LastOfRun(db, events, u, p);
      StepKeepsReachable(Run(db, before), e);
      StepRow(Run(db, before), e, u, p, Presses(db, before, u, p), LastPress(db, before, u, p));
    }
  }

  // ------------------------------------------------ the likers a listing counts

  predicate IsOdd(n: nat) { n % 2 == 1 }

  /** The unbanned users whose successful calls on the post are odd in number. */
  ghost function OddLikers(db: Db, events: seq<Event>, postId: Id): set<Id> {
    var end := Run(db, events);
    set u | u in end.users && u.id !in end.banned && IsOdd(Presses(db, events, u.id, postId)) :: u.id
  }

  lemma VoterIsOdd(db: Db, events: seq<Event>, postId: Id, l: LikeRow)
    requires SchemaOk(db) && db.likes == []
    requires var end := Run(db, events); l in end.likes && Votes(l, end.banned, Like) && l.targetId == postId
    ensures l.userId in OddLikers(db, events, postId)
  {
    hide Run, SchemaOk, FindLike, Presses, LastPress;
    var end := Run(db, events);
    RunInvariant(db, events, l.userId, postId);
    FindLikeIs(end.likes, l);
    var k :| 0 <= k < |end.likes| && end.likes[k] == l;
    var u :| u in end.users && u.id == l.userId;
  }

  lemma OddIsVoter(db: Db, events: seq<Event>, postId: Id, x: Id)
    requires SchemaOk(db) && db.likes == [] && x in OddLikers(db, events, postId)
    ensures var end := Run(db, events); x in Voters(end.likes, end.banned, Like, postId)
  {
    hide Reachable, Run, SchemaOk, FindLike, Presses, LastPress;
    RunInvariant(db, events, x, postId);
    FindLikeSound(Run(db, events).likes, x, postId);
  }

  lemma VotersAreOdd(db: Db, events: seq<Event>, postId: Id)
    requires SchemaOk(db) && db.likes == []
    ensures var end := Run(db, events);
            Voters(end.likes, end.banned, Like, postId) == OddLikers(db, events, postId)
  {
    var end := Run(db, events);
    var vs, os := Voters(end.likes, end.banned, Like, postId), OddLikers(db, events, postId);
    forall x | x in vs ensures x in os {
      var l :| l in end.likes && l.status == Like && l.targetId == postId && l.userId !in end.banned && l.userId == x;
      VoterIsOdd(db, events, postId, l);
    }
    hide *;
    forall x | x in os ensures x in vs { OddIsVoter(db, events, postId, x); }
  }

  /** A listed row's count is the number of odd likers, its status the parity of the viewer's calls. */
  ghost predicate CountsPresses(db: Db, events: seq<Event>, viewer: Option<Id>, v: View) {
    v.likes == |OddLikers(db, events, v.p.id)| &&
    (viewer.Some? ==> (v.myStatus == Like <==> IsOdd(Presses(db, events, viewer.value, v.p.id))))
  }

  lemma MyStatusIsParity(db: Db, events: seq<Event>, viewer: Id, v: View)
    requires SchemaOk(db) && db.likes == [] && Correct(Run(db, events), Some(viewer), v)
    ensures v.myStatus == Like <==> IsOdd(Presses(db, events, viewer, v.p.id))
  {
    hide Reachable, Run, Presses, LastPress, Voters, SchemaOk, FindLike;
    RunInvariant(db, events, viewer, v.p.id);
    FindLikeSound(Run(db, events).likes, viewer, v.p.id);
  }

  lemma CorrectCountsPresses(db: Db, events: seq<Event>, viewer: Option<Id>, v: View)
    requires SchemaOk(db) && db.likes == [] && Correct(Run(db, events), viewer, v)
    ensures CountsPresses(db, events, viewer, v)
  {
    VotersAreOdd(db, events, v.p.id);
    if viewer.Some? { MyStatusIsParity(db, events, viewer.value, v); }
    hide Run, OddLikers, Presses, Voters, SchemaOk;
  }

  /** Whichever dates the listing is sorted and cut by, the like count of every listed post is the
      number of its odd likers, and the viewer's status is "like" exactly when the viewer's own calls
      are odd in number. */
  lemma RunListing(db: Db, events: seq<Event>, scope: Scope, viewer: Option<Id>, keep: Post -> bool)
    requires SchemaOk(db) && db.likes == []
    ensures var end := Run(db, events);
            ListsVisible(end, scope, viewer, keep, end.posts, ListingOf(end, scope, viewer, keep)) &&
            forall i :: 0 <= i < |ListingOf(end, scope, viewer, keep)| ==>
              CountsPresses(db, events, viewer, ListingOf(end, scope, viewer, keep)[i])
  {
    var end := Run(db, events);
    ReachableRun(db, events);
    hide *;
    ListingIsDirect(end, scope, viewer, keep);
    var views := ListingOf(end, scope, viewer, keep);
    forall i | 0 <= i < |views| ensures CountsPresses(db, events, viewer, views[i]) {
      ListedCorrect(end, scope, viewer, keep, views, i);
      CorrectCountsPresses(db, events, viewer, views[i]);
    }
  }

  lemma ReachableRun(db: Db, events: seq<Event>)
    requires SchemaOk(db) && db.likes == []
    ensures SchemaOk(Run(db, events)) && OneLikeEach(Run(db, events).likes)
  {
    RunInvariant(db, events, "", "");
  }

  lemma ListedCorrect(db: Db, scope: Scope, viewer: Option<Id>, keep: Post -> bool,
      views: seq<View>, i: nat)
    requires ListsVisible(db, scope, viewer, keep, db.posts, views) && i < |views|
    ensures Correct(db, viewer, views[i])
  {
    hide Correct;
  }

  // ------------------------------------------------ the last three likers

  lemma LastLikedFacts(db: Db, postId: Id, ordered: seq<BanJoin>, ids: seq<Id>)
    requires OneLikeEach(db.likes) && IsLastLiked(db, postId, ordered, ids)
    ensures Distinct(ids) && |ids| == (if |ordered| < 3 then |ordered| else 3)
    ensures |ordered| == |Voters(db.likes, db.banned, Like, postId)|
    ensures forall r :: r in ordered <==> CountsFor(r, db.likes, db.banned, Like, postId)
    ensures SortedBy(NewestFirst(UpdatedAt), ordered) && forall i :: 0 <= i < |ids| ==> ids[i] == Liker(ordered[i])
  {
    var rows := WithKey(CountedLikes(db.likes, db.banned, Like), ByTarget, postId);
    GroupRows(db.likes, db.banned, Like, postId);
    GroupSizeIsVoters(db.likes, db.banned, Like, postId);
    SameMembers(rows, ordered);
    MapMultiset(Liker, rows, ordered);
    DistinctCount(Map(Liker, rows));
    CountDistinct(Map(Liker, ordered));
    hide OneLikeEach, WithKey, CountedLikes, Voters;
    forall i | 0 <= i < |ids| ensures ids[i] == Map(Liker, ordered)[i] {}
  }

  /** The last-liked list after any run: no repeats, at most three (all likers when there are
      fewer), odd likers only, latest call first, and nobody left out is more recent. */
  lemma RunLastLiked(db: Db, events: seq<Event>, postId: Id, ordered: seq<BanJoin>, ids: seq<Id>)
    requires SchemaOk(db) && db.likes == [] && IsLastLiked(Run(db, events), postId, ordered, ids)
    ensures Distinct(ids) && |ids|
            == (if |OddLikers(db, events, postId)| < 3 then |OddLikers(db, events, postId)| else 3)
    ensures forall x :: x in ids ==> x in OddLikers(db, events, postId)
    ensures forall i, j :: 0 <= i < j < |ids| ==>
              LastPress(db, events, ids[i], postId) >= LastPress(db, events, ids[j], postId)
    ensures forall x, i :: x in OddLikers(db, events, postId) && x !in ids && 0 <= i < |ids| ==>
              LastPress(db, events, ids[i], postId) >= LastPress(db, events, x, postId)
  {
    var end := Run(db, events);
    RunInvariant(db, events, "", "");
    LastLikedFacts(end, postId, ordered, ids);
    VotersAreOdd(db, events, postId);
    hide IsLastLiked, OddLikers, LastPress, Presses;
    forall i | 0 <= i < |ordered|
      ensures Liker(ordered[i]) in OddLikers(db, events, postId)
      ensures LastPress(db, events, Liker(ordered[i]), postId) == UpdatedAt(ordered[i])
    {
      DatedByLastPress(db, events, postId, ordered[i]);
    }
    forall k | 0 <= k < |ids| ensures Liker(ordered[k]) in ids { assert ids[k] == Liker(ordered[k]); }
    forall x, i | x in OddLikers(db, events, postId) && x !in ids && 0 <= i < |ids|
      ensures LastPress(db, events, ids[i], postId) >= LastPress(db, events, x, postId)
    {
      var l :| l in end.likes && l.userId == x && CountsFor(BanJoin(l, None), end.likes, end.banned, Like, postId);
      var k :| 0 <= k < |ordered| && ordered[k] == BanJoin(l, None);
      assert Liker(ordered[k]) == x;
      assert NewestFirst(UpdatedAt)(ordered[i], ordered[k]);
    }
    forall i, j | 0 <= i < j < |ids|
      ensures LastPress(db, events, ids[i], postId) >= LastPress(db, events, ids[j], postId)
    {
      assert NewestFirst(UpdatedAt)(ordered[i], ordered[j]);
    }
  }

  lemma DatedByLastPress(db: Db, events: seq<Event>, postId: Id, r: BanJoin)
    requires SchemaOk(db) && db.likes == []
    requires var end := Run(db, events); CountsFor(r, end.likes, end.banned, Like, postId)
    ensures LastPress(db, events, Liker(r), postId) == UpdatedAt(r)
    ensures Liker(r) in Voters(Run(db, events).likes, Run(db, events).banned, Like, postId)
  {
    var end := Run(db, events);
    RunInvariant(db, events, Liker(r), postId);
    FindLikeIs(end.likes, r.like);
  }

  /** A row of the select with all its columns. */
  datatype Card = Card(view: View, lastLikedUserIds: seq<Id>)

  function ViewOf(c: Card): View { c.view }

  /** `cards` are the select's rows, each with some answer of its correlated sub-select. */
  ghost predicate AreCards(db: Db, scope: Scope, viewer: Option<Id>, keep: Post -> bool, cards: seq<Card>) {
    Map(ViewOf, cards) == ListingOf(db, scope, viewer, keep) && forall c :: c in cards ==> HasLastLiked(db, c)
  }

  ghost predicate HasLastLiked(db: Db, c: Card) {
    exists ordered :: IsLastLiked(db, c.view.p.id, ordered, c.lastLikedUserIds)
  }

  /** Every column after a run: the like count and status by the calls, and the last likers as many as the
      count up to three, odd likers only, none twice, latest call first, nobody left out more recent. */
  ghost predicate CardIsRight(db: Db, events: seq<Event>, viewer: Option<Id>, c: Card) {
    var ids, postId := c.lastLikedUserIds, c.view.p.id;
    CountsPresses(db, events, viewer, c.view) &&
    Distinct(ids) && |ids| == (if c.view.likes < 3 then c.view.likes else 3) &&
    (forall x :: x in ids ==> x in OddLikers(db, events, postId)) &&
    (forall i, j :: 0 <= i < j < |ids| ==>
       LastPress(db, events, ids[i], postId) >= LastPress(db, events, ids[j], postId)) &&
    forall x, i :: x in OddLikers(db, events, postId) && x !in ids && 0 <= i < |ids| ==>
      LastPress(db, events, ids[i], postId) >= LastPress(db, events, x, postId)
  }

  lemma CardFromRun(db: Db, events: seq<Event>, viewer: Option<Id>, c: Card)
    requires SchemaOk(db) && db.likes == []
    requires HasLastLiked(Run(db, events), c) && CountsPresses(db, events, viewer, c.view)
    ensures CardIsRight(db, events, viewer, c)
  {
    hide Run, SchemaOk, OddLikers, LastPress, Presses, IsLastLiked, Distinct;
    var ordered :| IsLastLiked(Run(db, events), c.view.p.id, ordered, c.lastLikedUserIds);
    RunLastLiked(db, events, c.view.p.id, ordered, c.lastLikedUserIds);
  }

  /** After any run the select lists each visible post once, and every column of every row is right. */
  lemma RunCards(db: Db, events: seq<Event>, scope: Scope, viewer: Option<Id>, keep: Post -> bool, cards: seq<Card>)
    requires SchemaOk(db) && db.likes == [] && AreCards(Run(db, events), scope, viewer, keep, cards)
    ensures var end := Run(db, events);
            ListsVisible(end, scope, viewer, keep, end.posts, Map(ViewOf, cards)) &&
            forall i :: 0 <= i < |cards| ==> CardIsRight(db, events, viewer, cards[i])
  {
    hide Run, SchemaOk, ListsVisible, CountsPresses, CardIsRight, ListingOf, HasLastLiked;
    RunListing(db, events, scope, viewer, keep);
    forall i | 0 <= i < |cards| ensures CardIsRight(db, events, viewer, cards[i]) {
      assert cards[i] in cards && Map(ViewOf, cards)[i] == cards[i].view;
      CardFromRun(db, events, viewer, cards[i]);
    }
  }
}
