/** Liking and disliking comments: the use case, and what the listing reports after any run. */
module CommentLikes {
  import opened Tables
  import opened Likes
  import opened LikeTable
  import opened CommentListing
  import opened CommentListingFacts

  // ------------------------------------------------ one step, as a function of the tables

  predicate HasComment(comments: seq<Comment>, commentId: Id) { exists c :: c in comments && c.id == commentId }
  /** The rows and the answer after a user sets a status on a comment. */
  function SetStatus(db: Db, userId: Id, commentId: Id, status: LikeStatus, now: int,
      rowId: Id): (seq<LikeRow>, Answer)
  {
    if !HasComment(db.comments, commentId) then (db.likes, NotFound)
    else
      match FindLike(db.likes, userId, commentId)
      case Some(l) =>
        (if l.status == status then db.likes else Overwrite(db.likes, l.id, status, now), Success)
      case None =>
        var row := LikeRow(rowId, status, commentId, userId, now, now);
        if HasUser(db.users, userId) && CanInsert(db.likes, row) then (db.likes + [row], Success)
          else (db.likes, InternalError)
  }

  class AddLikeDislikeCommentUseCase {
    var users: seq<User>
    var banned: seq<Id>
    var comments: seq<Comment>
    const likes: LikesRepository

    constructor (users: seq<User>, banned: seq<Id>, comments: seq<Comment>, likes: LikesRepository)
      ensures this.users == users && this.banned == banned && this.comments == comments && this.likes == likes
    {
      this.users, this.banned, this.comments, this.likes := users, banned, comments, likes;
    }

    function Tables(): Db
      reads this, likes
    {
      Db(users, banned, comments, likes.rows)
    }

    /** `now` is the clock and `rowId` the id the database generates. */
    method Execute(userId: Id, commentId: Id, status: LikeStatus, now: int, rowId: Id) returns (answer: Answer)
      modifies likes
      ensures (likes.rows, answer) == old(SetStatus(Tables(), userId, commentId, status, now, rowId))
    {
      var userLike := likes.GetLike(commentId, userId);
      if !HasComment(comments, commentId) { return NotFound; }
      if userLike == null {
        answer := CreateNewLike(commentId, userId, status, now, rowId);
      } else {
        UpdateCurrentLike(userLike, status, now);
        answer := Success;
      }
    }

    method CreateNewLike(commentId: Id, userId: Id, status: LikeStatus, now: int, rowId: Id) returns (answer: Answer)
      modifies likes
      ensures var row := LikeRow(rowId, status, commentId, userId, now, now);
              var ok := HasUser(users, userId) && CanInsert(old(likes.rows), row);
              answer == (if ok then Success else InternalError)
              && likes.rows == if ok then old(likes.rows) + [row] else old(likes.rows)
    {
      // The foreign key to the user row makes the insert throw.
      if !HasUser(users, userId) { return InternalError; }
      var ok := likes.AddLike(LikeRow(rowId, status, commentId, userId, now, now));
      answer := if ok then Success else InternalError;
    }

    method UpdateCurrentLike(like: LikeEntity, status: LikeStatus, now: int)
      requires like.status == like.row.status
      modifies like, likes
      ensures likes.rows
           == if old(like.status) == status then old(likes.rows)
              else Overwrite(old(likes.rows), like.row.id, status, now)
    {
      if like.status == status { return; }
      like.UpdateLike(status, now);
      likes.UpdateLike(like);
    }
  }

  // ------------------------------------------------ runs

  datatype Event =
    | Set(userId: Id, commentId: Id, status: LikeStatus, now: int, rowId: Id)
    | Post(comment: Comment)
    | Ban(userId: Id)
    | Unban(userId: Id)

  function Step(db: Db, e: Event): Db {
    match e
    case Set(userId, commentId, status, now, rowId) =>
      db.(likes := SetStatus(db, userId, commentId, status, now, rowId).0)
    case Post(c) =>
      if HasUser(db.users, c.commentatorId) && !HasComment(db.comments, c.id) then db.(comments := db.comments + [c])
        else db
    case Ban(userId) =>
      if HasUser(db.users, userId) && userId !in db.banned then db.(banned := db.banned + [userId]) else db
    case Unban(userId) => db.(banned := Without(db.banned, userId))
  }

  function Run(db: Db, events: seq<Event>): Db {
    if events == [] then db else Step(Run(db, events[..|events| - 1]), events[|events| - 1])
  }

  predicate Succeeds(db: Db, e: Event) {
    e.Set? && SetStatus(db, e.userId, e.commentId, e.status, e.now, e.rowId).1 == Success
  }

  /** The status of the user's latest successful call on the comment, if any. */
  function LastStatus(db: Db, events: seq<Event>, userId: Id, commentId: Id): Option<LikeStatus> {
    if events == [] then None
    else
      var before, e := events[..|events| - 1], events[|events| - 1];
      if Succeeds(Run(db, before), e) && e.userId == userId && e.commentId == commentId then Some(e.status)
      else LastStatus(db, before, userId, commentId)
  }

  function StatusIn(rows: seq<LikeRow>, userId: Id, commentId: Id): Option<LikeStatus> {
    var l := FindLike(rows, userId, commentId);
    if l.Some? then Some(l.value.status) else None
  }

  ghost predicate Reachable(db: Db) {
    SchemaOk(db) && Keyed(db.likes) && KnownUsers(db.users, db.likes)
  }

  /** What one call changes: the caller's status on the comment, and nothing else. */
  lemma SetStatusEffect(db: Db, userId: Id, commentId: Id, status: LikeStatus, now: int, rowId: Id, u: Id, c: Id)
    requires Reachable(db)
    ensures var (rows, answer) := SetStatus(db, userId, commentId, status, now, rowId);
            Reachable(db.(likes := rows)) &&
            StatusIn(rows, u, c)
            == if answer == Success && u == userId && c == commentId then Some(status) else StatusIn(db.likes, u, c)
  {
    FindLikeSound(db.likes, userId, commentId);
    match FindLike(db.likes, userId, commentId)
    case Some(l) => OverwriteEffect(db, l, status, now, u, c);
    case None =>
      var row := LikeRow(rowId, status, commentId, userId, now, now);
      if CanInsert(db.likes, row) && HasUser(db.users, userId) { AddEffect(db, row, u, c); }
  }

  lemma SetStatusAnswers(db: Db, userId: Id, commentId: Id, status: LikeStatus, now: int, rowId: Id)
    requires Reachable(db)
    ensures var (rows, answer) := SetStatus(db, userId, commentId, status, now, rowId);
            var known := exists c :: c in db.comments && c.id == commentId;
            var rated := exists l :: l in db.likes && l.userId == userId && l.targetId == commentId;
            var free := forall l :: l in db.likes ==> l.id != rowId;
            (answer == NotFound <==> !known) &&
            (answer == Success <==> known && (rated || (free && exists u :: u in db.users && u.id == userId))) &&
            (answer == Success || answer == NotFound || answer == InternalError) &&
            (answer != Success ==> rows == db.likes)
  {
    FindLikeSound(db.likes, userId, commentId);
    InsertIsFree(db.likes, LikeRow(rowId, status, commentId, userId, now, now));
    hide CanInsert, FindLike, Reachable;
  }

  /** What a successful call makes of a row: the user's own one on the comment takes a new status, dated now. */
  predicate Rated(was: LikeRow, row: LikeRow, userId: Id, commentId: Id, status: LikeStatus, now: int) {
    if was.userId == userId && was.targetId == commentId && was.status != status
    then row == LikeRow(was.id, status, was.targetId, was.userId, was.createdAt, now) else row == was
  }

  lemma SetStatusOverwrites(db: Db, userId: Id, commentId: Id, status: LikeStatus, now: int, rowId: Id, l: LikeRow)
    requires Reachable(db) && FindLike(db.likes, userId, commentId) == Some(l)
    requires SetStatus(db, userId, commentId, status, now, rowId).1 == Success
    ensures var rows := SetStatus(db, userId, commentId, status, now, rowId).0;
            |rows| == |db.likes| && forall i :: 0 <= i < |rows| ==>
                Rated(db.likes[i], rows[i], userId, commentId, status, now)
  {
    FindLikeSound(db.likes, userId, commentId);
    var rows := SetStatus(db, userId, commentId, status, now, rowId).0;
    assert Keyed(db.likes);
    hide FindLike, Reachable, Keyed;
    forall i | 0 <= i < |rows| ensures Rated(db.likes[i], rows[i], userId, commentId, status, now) {
      OnlyMine(db.likes, l, i);
    }
  }

  /** A call succeeds exactly when the comment exists and the user has a row on it or can be given one. A row
      with another status gets this one, dated now; a new row has it; every other row stays. */
  lemma SetStatusOutcome(db: Db, userId: Id, commentId: Id, status: LikeStatus, now: int, rowId: Id)
    requires Reachable(db)
    ensures var (rows, answer) := SetStatus(db, userId, commentId, status, now, rowId);
            var known := exists c :: c in db.comments && c.id == commentId;
            var rated := exists l :: l in db.likes && l.userId == userId && l.targetId == commentId;
            var free := forall l :: l in db.likes ==> l.id != rowId;
            (answer == NotFound <==> !known) &&
            (answer == Success <==> known && (rated || (free && exists u :: u in db.users && u.id == userId))) &&
            (answer == Success || answer == NotFound || answer == InternalError) &&
            if answer != Success then rows == db.likes
            else if rated then
              |rows| == |db.likes| && forall i :: 0 <= i < |rows| ==>
                  Rated(db.likes[i], rows[i], userId, commentId, status, now)
            else rows == db.likes + [LikeRow(rowId, status, commentId, userId, now, now)]
  {
    SetStatusAnswers(db, userId, commentId, status, now, rowId);
    FindLikeSound(db.likes, userId, commentId);
    if SetStatus(db, userId, commentId, status, now, rowId).1
      == Success && FindLike(db.likes, userId, commentId).Some? {
      SetStatusOverwrites(db, userId, commentId, status, now, rowId, FindLike(db.likes, userId, commentId).value);
    }
    hide CanInsert, FindLike, Reachable, Overwrite, Rated;
  }

  lemma LikesOutsideSchema(db: Db, rows: seq<LikeRow>)
    requires SchemaOk(db)
    ensures SchemaOk(db.(likes := rows))
  {
  }

  lemma OverwriteEffect(db: Db, l: LikeRow, status: LikeStatus, now: int, u: Id, c: Id)
    requires Reachable(db) && l in db.likes
    ensures var rows := Overwrite(db.likes, l.id, status, now);
            Reachable(db.(likes := rows)) &&
            StatusIn(rows, u, c) == if IsLikeOf(l, u, c) then Some(status) else StatusIn(db.likes, u, c)
    ensures StatusIn(db.likes, l.userId, l.targetId) == Some(l.status)
  {
    hide SchemaOk, Keyed, KnownUsers, FindLike, Overwrite;
    KeyedFacts(db.likes);
    OverwriteKeepsKeyed(db.likes, l.id, status, now);
    OverwriteKeepsUsers(db.users, db.likes, l.id, status, now);
    LikesOutsideSchema(db, Overwrite(db.likes, l.id, status, now));
    FindAfterOverwrite(db.likes, l, status, now, u, c);
    FindLikeIs(db.likes, l);
  }

  lemma AddEffect(db: Db, row: LikeRow, u: Id, c: Id)
    requires Reachable(db) && FindLike(db.likes, row.userId, row.targetId).None?
    requires CanInsert(db.likes, row) && HasUser(db.users, row.userId)
    ensures var rows := db.likes + [row];
            Reachable(db.(likes := rows)) &&
            StatusIn(rows, u, c) == if IsLikeOf(row, u, c) then Some(row.status) else StatusIn(db.likes, u, c)
  {
    AddKeepsKeyed(db.likes, row);
    FindAfterAdd(db.likes, row, u, c);
  }

  lemma StepKeepsReachable(db: Db, e: Event)
    requires Reachable(db)
    ensures Reachable(Step(db, e))
  {
    match e
    case Set(userId, commentId, status, now, rowId) =>
      SetStatusEffect(db, userId, commentId, status, now, rowId, "", "");
    case Post(c) =>
      if HasUser(db.users, c.commentatorId) && !HasComment(db.comments, c.id) { PostKeepsSchema(db, c); }
    case Ban(userId) =>
    case Unban(userId) => WithoutKeepsDistinct(db.banned, userId);
  }

  lemma PostKeepsSchema(db: Db, c: Comment)
    requires SchemaOk(db) && HasUser(db.users, c.commentatorId) && !HasComment(db.comments, c.id)
    ensures SchemaOk(db.(comments := db.comments + [c]))
  {
    var all := db.comments + [c];
    forall x | x in all ensures exists i :: 0 <= i < |db.users| && db.users[i].id == x.commentatorId {
      if x !in db.comments {
        var u :| u in db.users && u.id == c.commentatorId;
        var i :| 0 <= i < |db.users| && db.users[i] == u;
      }
    }
    forall i, j | 0 <= i < j < |all| ensures all[i].id != all[j].id {
      assert all[i] in db.comments;
    }
  }

  /** In every run at most one like row per user and comment exists, and a user's row holds the
      status of the latest successful call. */
  lemma {:induction false} RunInvariant(db: Db, events: seq<Event>, u: Id, c: Id)
    requires SchemaOk(db) && db.likes == []
    ensures Reachable(Run(db, events))
    ensures StatusIn(Run(db, events).likes, u, c) == LastStatus(db, events, u, c)
    decreases |events|
  {
    if events != [] {
      var before, e := events[..|events| - 1], events[|events| - 1];
      RunInvariant(db, before, u, c);
      StepKeepsReachable(Run(db, before), e);
      if e.Set? { SetStatusEffect(Run(db, before), e.userId, e.commentId, e.status, e.now, e.rowId, u, c); }
    }
  }

  /** The unbanned users whose latest successful call on the comment set this status. */
  ghost function LatestVoters(db: Db, events: seq<Event>, status: LikeStatus, commentId: Id): set<Id> {
    var end := Run(db, events);
    set u | u in end.users && u.id !in end.banned && LastStatus(db, events, u.id, commentId) == Some(status) :: u.id
  }

  lemma VotersAreLatest(db: Db, events: seq<Event>, status: LikeStatus, commentId: Id)
    requires SchemaOk(db) && db.likes == []
    ensures var end := Run(db, events);
            Voters(end.likes, end.banned, status, commentId) == LatestVoters(db, events, status, commentId)
  {
    var end := Run(db, events);
    RunInvariant(db, events, "", "");
    var vs, ls := Voters(end.likes, end.banned, status, commentId), LatestVoters(db, events, status, commentId);
    forall x | x in vs ensures x in ls {
      var l :| l in end.likes && l.status == status && l.targetId == commentId && l.userId !in end.banned
        && l.userId == x;
      FindLikeIs(end.likes, l);
      RunInvariant(db, events, x, commentId);
      var u :| u in end.users && u.id == x;
    }
    forall x | x in ls ensures x in vs {
      RunInvariant(db, events, x, commentId);
      FindLikeSound(end.likes, x, commentId);
    }
  }

  /** After any run from an empty like table the listing shows each visible comment once, and its
      likes and dislikes are the numbers of unbanned users whose latest successful call said so. */
  lemma RunListing(db: Db, events: seq<Event>, scope: Scope, viewer: Option<Id>)
    requires SchemaOk(db) && db.likes == []
    ensures var end := Run(db, events);
            ListsVisible(end, scope, viewer, end.comments, Listing(end, scope, viewer)) &&
            forall v :: v in Listing(end, scope, viewer) ==>
              v.likes == |LatestVoters(db, events, Like, v.c.id)|
              && v.dislikes == |LatestVoters(db, events, Dislike, v.c.id)| &&
              (viewer.Some? ==> v.myStatus == Coalesce(LastStatus(db, events, viewer.value, v.c.id), NoStatus))
  {
    var end := Run(db, events);
    RunInvariant(db, events, "", "");
    ListingIsDirect(end, scope, viewer);
    forall v | v in Listing(end, scope, viewer)
      ensures v.likes == |LatestVoters(db, events, Like, v.c.id)|
              && v.dislikes == |LatestVoters(db, events, Dislike, v.c.id)|
      ensures viewer.Some? ==> v.myStatus == Coalesce(LastStatus(db, events, viewer.value, v.c.id), NoStatus)
    {
      assert Correct(end, viewer, v);
      VotersAreLatest(db, events, Like, v.c.id);
      VotersAreLatest(db, events, Dislike, v.c.id);
      if viewer.Some? {
        RunInvariant(db, events, viewer.value, v.c.id);
        FindLikeSound(end.likes, viewer.value, v.c.id);
      }
    }
  }
}
