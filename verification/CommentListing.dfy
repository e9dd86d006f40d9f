/** The comment listings: one select with six left joins, two grouped sub-selects and a
    group by, plus a separate count. */
module CommentListing {
  import opened Tables
  import opened Likes

  datatype Comment = Comment(id: Id, text: string, commentatorId: Id, postId: Id, createdAt: int, answerFor: Option<Id>)

  /** `banned` holds the user ids of the "UserBanInfo" rows. */
  datatype Db = Db(users: seq<User>, banned: seq<Id>, comments: seq<Comment>, likes: seq<LikeRow>)

  /** The top-level comments of a post, or the answers to a comment. */
  datatype Scope = TopLevel(postId: Id) | AnswersTo(commentId: Id)

  // ------------------------------------------------ the joined rows

  datatype JoinRow = JoinRow(c: Comment, likes: Option<nat>, dislikes: Option<nat>, mine: Option<LikeRow>,
                             author: Option<User>, ban: Option<Id>, answer: Option<Comment>)

  function ToJoinRow(c: Comment): JoinRow { JoinRow(c, None, None, None, None, None, None) }

  predicate OnGroup(r: JoinRow, g: Group) { g.0 == r.c.id }
  function AttachLikes(r: JoinRow, g: Option<Group>): JoinRow { r.(likes := CountOf(g)) }
  function AttachDislikes(r: JoinRow, g: Option<Group>): JoinRow { r.(dislikes := CountOf(g)) }

  /** A null viewer id equals nothing. */
  function OnMine(viewer: Option<Id>): (JoinRow, LikeRow) -> bool {
    (r: JoinRow, l: LikeRow) => viewer == Some(l.userId) && l.targetId == r.c.id
  }
  function AttachMine(r: JoinRow, l: Option<LikeRow>): JoinRow { r.(mine := l) }

  predicate OnAuthor(r: JoinRow, u: User) { u.id == r.c.commentatorId }
  function AttachAuthor(r: JoinRow, u: Option<User>): JoinRow { r.(author := u) }

  predicate OnAuthorBan(r: JoinRow, banned: Id) { r.author.Some? && banned == r.author.value.id }
  function AttachAuthorBan(r: JoinRow, banned: Option<Id>): JoinRow { r.(ban := banned) }

  predicate OnAnswer(r: JoinRow, pc: Comment) { pc.answerFor == Some(r.c.id) }
  function AttachAnswer(r: JoinRow, pc: Option<Comment>): JoinRow { r.(answer := pc) }

  function WithCounts(from: seq<Comment>, db: Db): seq<JoinRow> {
    LeftJoin(LeftJoin(Map(ToJoinRow, from), LikeGroups(db.likes, db.banned, Like), OnGroup, AttachLikes),
             LikeGroups(db.likes, db.banned, Dislike), OnGroup, AttachDislikes)
  }

  function WithMine(rows: seq<JoinRow>, db: Db, viewer: Option<Id>): seq<JoinRow> {
    LeftJoin(rows, db.likes, OnMine(viewer), AttachMine)
  }

  function WithAuthor(rows: seq<JoinRow>, db: Db): seq<JoinRow> {
    LeftJoin(LeftJoin(rows, db.users, OnAuthor, AttachAuthor), db.banned, OnAuthorBan, AttachAuthorBan)
  }

  function WithAnswers(rows: seq<JoinRow>, db: Db): seq<JoinRow> {
    LeftJoin(rows, db.comments, OnAnswer, AttachAnswer)
  }

  predicate InScope(scope: Scope, c: Comment) {
    match scope
    case TopLevel(postId) => c.postId == postId && c.answerFor.None?
    case AnswersTo(commentId) => c.answerFor == Some(commentId)
  }

  function Where(scope: Scope): JoinRow -> bool {
    (r: JoinRow) => InScope(scope, r.c) && r.ban.None?
  }

  function UserRows(from: seq<Comment>, db: Db, scope: Scope, viewer: Option<Id>): seq<JoinRow> {
    Filter(Where(scope), WithAnswers(WithAuthor(WithMine(WithCounts(from, db), db, viewer), db), db))
  }

  /** The admin select has no viewer join. */
  function AdminRows(from: seq<Comment>, db: Db, scope: Scope): seq<JoinRow> {
    Filter(Where(scope), WithAnswers(WithAuthor(WithCounts(from, db), db), db))
  }

  // ------------------------------------------------ group by and the output columns

  /** The group-by columns; "c.id" is the primary key, so it stands for the whole comment row. */
  datatype GroupKey = GroupKey(c: Comment, username: Option<string>, status: Option<LikeStatus>,
                               likes: Option<nat>, dislikes: Option<nat>)

  function ByGroup(r: JoinRow): GroupKey {
    GroupKey(r.c,
             if r.author.Some? then Some(r.author.value.username) else None,
             if r.mine.Some? then Some(r.mine.value.status) else None,
             r.likes, r.dislikes)
  }

  /** `count(pc.id)`: the rows whose answer is not null. */
  function CountAnswers(rows: seq<JoinRow>): nat {
    if rows == [] then 0 else (if rows[0].answer.Some? then 1 else 0) + CountAnswers(rows[1..])
  }

  datatype View = View(c: Comment, username: Option<string>, myStatus: LikeStatus,
                       likes: nat, dislikes: nat, answersCount: nat)

  function ToView(g: (GroupKey, seq<JoinRow>)): View {
    View(g.0.c, g.0.username, Coalesce(g.0.status, NoStatus), Coalesce(g.0.likes, 0), Coalesce(g.0.dislikes, 0),
         CountAnswers(g.1))
  }

  /** The listing's rows before "order by". */
  function Listing(db: Db, scope: Scope, viewer: Option<Id>): seq<View> {
    Map(ToView, GroupBy(UserRows(db.comments, db, scope, viewer), ByGroup))
  }

  function AdminListing(db: Db, scope: Scope): seq<View> {
    Map(ToView, GroupBy(AdminRows(db.comments, db, scope), ByGroup))
  }

  /** The separate count: comments in scope whose user exists and has no ban row. */
  function Counted(db: Db, scope: Scope): Comment -> bool {
    (c: Comment) => InScope(scope, c) && (exists u :: u in db.users && u.id == c.commentatorId)
      && c.commentatorId !in db.banned
  }

  function Count(db: Db, scope: Scope): nat {
    |Filter(Counted(db, scope), db.comments)|
  }

  // ------------------------------------------------ table assumptions

  /** Primary keys, unique ban rows and the foreign key of a comment's author. */
  ghost predicate SchemaOk(db: Db) {
    (forall i, j :: 0 <= i < j < |db.users| ==> db.users[i].id != db.users[j].id) &&
    Distinct(db.banned) &&
    (forall i, j :: 0 <= i < j < |db.comments| ==> db.comments[i].id != db.comments[j].id) &&
    (forall c :: c in db.comments ==> exists i :: 0 <= i < |db.users| && db.users[i].id == c.commentatorId)
  }

  // ------------------------------------------------ what the columns should say

  ghost function AnswersOf(db: Db, commentId: Id): set<Comment> {
    set a | a in db.comments && a.answerFor == Some(commentId)
  }

  /** A view row states its comment's facts. */
  ghost predicate Correct(db: Db, viewer: Option<Id>, v: View) {
    && v.c in db.comments
    && v.username.Some? && User(v.c.commentatorId, v.username.value) in db.users
    && v.likes == |Voters(db.likes, db.banned, Like, v.c.id)|
    && v.dislikes == |Voters(db.likes, db.banned, Dislike, v.c.id)|
    && v.answersCount == |AnswersOf(db, v.c.id)|
    && (forall l :: l in db.likes && viewer == Some(l.userId) && l.targetId == v.c.id ==> v.myStatus == l.status)
    && ((forall l :: l in db.likes ==> !(viewer == Some(l.userId) && l.targetId == v.c.id)) ==> v.myStatus == NoStatus)
  }
}
