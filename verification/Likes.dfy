/** Like rows of comments and posts: the entity both share, and the grouped sub-select that
    counts the rows of users who are not banned. */
module Likes {
  import opened Tables

  datatype User = User(id: Id, username: string)

  predicate HasUser(users: seq<User>, userId: Id) { exists u :: u in users && u.id == userId }

  /** The ban table after a user's row is deleted. */
  function Without(ids: seq<Id>, id: Id): seq<Id> { Filter((x: Id) => x != id, ids) }

  lemma WithoutKeepsDistinct(ids: seq<Id>, id: Id)
    requires Distinct(ids)
    ensures Distinct(Without(ids, id))
  {
    FilterDistinct((x: Id) => x != id, ids);
  }

  datatype LikeStatus = Like | Dislike | NoStatus

  /** `targetId` is the "commentId" or the "postId" column. */
  datatype LikeRow = LikeRow(id: Id, status: LikeStatus, targetId: Id, userId: Id, createdAt: int, updatedAt: int)

  /** At most one like row per user and target; no column of the schema enforces this. */
  ghost predicate OneLikeEach(likes: seq<LikeRow>) {
    forall i, j :: 0 <= i < j < |likes|
      ==> !(likes[i].userId == likes[j].userId && likes[i].targetId == likes[j].targetId)
  }

  /** The unbanned users with a row of this status on the target. */
  ghost function Voters(likes: seq<LikeRow>, banned: seq<Id>, status: LikeStatus, targetId: Id): set<Id> {
    set l | l in likes && l.status == status && l.targetId == targetId && l.userId !in banned :: l.userId
  }

  // ------------------------------------------------ the sub-select

  datatype BanJoin = BanJoin(like: LikeRow, ban: Option<Id>)

  function ToBanJoin(l: LikeRow): BanJoin { BanJoin(l, None) }
  predicate OnBan(r: BanJoin, banned: Id) { r.like.userId == banned }
  function AttachBan(r: BanJoin, banned: Option<Id>): BanJoin { r.(ban := banned) }
  function Unbanned(status: LikeStatus): BanJoin -> bool {
    (r: BanJoin) => r.like.status == status && r.ban.None?
  }
  function ByTarget(r: BanJoin): Id { r.like.targetId }

  /** "left join UserBanInfo ... where status = ? and ubi.userId is null". */
  function CountedLikes(likes: seq<LikeRow>, banned: seq<Id>, status: LikeStatus): seq<BanJoin> {
    Filter(Unbanned(status), LeftJoin(Map(ToBanJoin, likes), banned, OnBan, AttachBan))
  }

  type Group = (Id, seq<BanJoin>)

  /** "select target, count(*) ... group by target"; the count is the size of the group. */
  function LikeGroups(likes: seq<LikeRow>, banned: seq<Id>, status: LikeStatus): seq<Group> {
    GroupBy(CountedLikes(likes, banned, status), ByTarget)
  }

  function CountOf(g: Option<Group>): Option<nat> {
    if g.None? then None else Some(|g.value.1|)
  }

  lemma OneLikeCounted(l: LikeRow, banned: seq<Id>, status: LikeStatus)
    ensures Filter(Unbanned(status), LeftJoinRow(ToBanJoin(l), banned, OnBan, AttachBan))
         == if l.status == status && l.userId !in banned then [BanJoin(l, None)] else []
  {
    var r := ToBanJoin(l);
    var ms := Matches(r, banned, OnBan);
    MatchesSound(r, banned, OnBan);
    if l.userId in banned {
      var i :| 0 <= i < |banned| && banned[i] == l.userId;
      assert OnBan(r, banned[i]);
      FilterNone(Unbanned(status), AttachAll(r, ms, AttachBan));
    } else {
      NoMatch(r, banned, OnBan);
      assert [BanJoin(l, None)][1..] == [];
    }
  }

  lemma CountedCons(l: LikeRow, likes: seq<LikeRow>, banned: seq<Id>, status: LikeStatus)
    ensures CountedLikes([l] + likes, banned, status)
         == (if l.status == status && l.userId !in banned then [BanJoin(l, None)] else [])
            + CountedLikes(likes, banned, status)
  {
    var all := [l] + likes;
    assert all[1..] == likes;
    assert Map(ToBanJoin, all) == [ToBanJoin(l)] + Map(ToBanJoin, likes);
    assert Map(ToBanJoin, all)[1..] == Map(ToBanJoin, likes);
    FilterAppend(Unbanned(status), LeftJoinRow(ToBanJoin(l), banned, OnBan, AttachBan),
                 LeftJoin(Map(ToBanJoin, likes), banned, OnBan, AttachBan));
    OneLikeCounted(l, banned, status);
  }

  predicate Votes(l: LikeRow, banned: seq<Id>, status: LikeStatus) {
    l.status == status && l.userId !in banned
  }

  lemma VotersCons(l: LikeRow, rest: seq<LikeRow>, banned: seq<Id>, status: LikeStatus, targetId: Id)
    ensures Voters([l] + rest, banned, status, targetId)
         == Voters(rest, banned, status, targetId) + if Votes(l, banned, status) && l.targetId == targetId
            then {l.userId} else {}
  {
    var all := [l] + rest;
    assert forall m :: m in all <==> m == l || m in rest;
  }

  lemma NewVoter(l: LikeRow, rest: seq<LikeRow>, banned: seq<Id>, status: LikeStatus, targetId: Id)
    requires OneLikeEach([l] + rest) && l.targetId == targetId
    ensures l.userId !in Voters(rest, banned, status, targetId)
  {
    var all := [l] + rest;
    forall m | m in rest && m.targetId == targetId ensures m.userId != l.userId {
      var j :| 0 <= j < |rest| && rest[j] == m;
      assert all[j + 1] == m && all[0] == l;
    }
  }

  lemma OneLikeEachTail(l: LikeRow, rest: seq<LikeRow>)
    requires OneLikeEach([l] + rest)
    ensures OneLikeEach(rest)
  {
    var all := [l] + rest;
    forall i, j | 0 <= i < j < |rest|
      ensures !(rest[i].userId == rest[j].userId && rest[i].targetId == rest[j].targetId)
    {
      assert all[i + 1] == rest[i] && all[j + 1] == rest[j];
    }
  }

  lemma SizeOfCons(l: LikeRow, tail: seq<BanJoin>, banned: seq<Id>, status: LikeStatus, targetId: Id)
    ensures |WithKey((if Votes(l, banned, status) then [BanJoin(l, None)] else []) + tail, ByTarget, targetId)|
         == |WithKey(tail, ByTarget, targetId)| + if Votes(l, banned, status) && l.targetId == targetId then 1 else 0
  {
    assert ([BanJoin(l, None)] + tail)[1..] == tail;
    assert [] + tail == tail;
  }

  /** The size of a comment's group is the number of its unbanned voters. */
  lemma {:induction false} GroupSizeIsVoters(likes: seq<LikeRow>, banned: seq<Id>, status: LikeStatus, targetId: Id)
    requires OneLikeEach(likes)
    ensures |WithKey(CountedLikes(likes, banned, status), ByTarget, targetId)|
            == |Voters(likes, banned, status, targetId)|
  {
    if likes == [] {
      assert Voters([], banned, status, targetId) == {};
    } else {
      var l, rest := likes[0], likes[1..];
      assert likes == [l] + rest;
      OneLikeEachTail(l, rest);
      GroupSizeIsVoters(rest, banned, status, targetId);
      CountedCons(l, rest, banned, status);
      SizeOfCons(l, CountedLikes(rest, banned, status), banned, status, targetId);
      VotersCons(l, rest, banned, status, targetId);
      if l.targetId == targetId { NewVoter(l, rest, banned, status, targetId); }
    }
  }

  /** A row the sub-select counts for a target. */
  predicate CountsFor(r: BanJoin, likes: seq<LikeRow>, banned: seq<Id>, status: LikeStatus, targetId: Id) {
    r.ban.None? && r.like in likes && r.like.status == status && r.like.targetId == targetId && r.like.userId !in banned
  }

  function Liker(r: BanJoin): Id { r.like.userId }

  /** The rows of a target's group: exactly the counted ones, no two of the same user. */
  lemma {:induction false} GroupRows(likes: seq<LikeRow>, banned: seq<Id>, status: LikeStatus, targetId: Id)
    requires OneLikeEach(likes)
    ensures var rows := WithKey(CountedLikes(likes, banned, status), ByTarget, targetId);
            (forall r :: r in rows <==> CountsFor(r, likes, banned, status, targetId)) &&
            Distinct(Map(Liker, rows))
  {
    if likes != [] {
      var l, rest := likes[0], likes[1..];
      assert likes == [l] + rest;
      OneLikeEachTail(l, rest);
      GroupRows(rest, banned, status, targetId);
      CountedCons(l, rest, banned, status);
      var tail := CountedLikes(rest, banned, status);
      GroupCons(l, tail, banned, status, targetId);
      GroupRowsCons(l, rest, banned, status, targetId, WithKey(tail, ByTarget, targetId));
    }
  }

  lemma GroupCons(l: LikeRow, tail: seq<BanJoin>, banned: seq<Id>, status: LikeStatus, targetId: Id)
    ensures WithKey((if Votes(l, banned, status) then [BanJoin(l, None)] else []) + tail, ByTarget, targetId)
         == (if Votes(l, banned, status) && l.targetId == targetId then [BanJoin(l, None)] else [])
            + WithKey(tail, ByTarget, targetId)
  {
    assert ([BanJoin(l, None)] + tail)[1..] == tail;
    assert [] + tail == tail;
  }

  lemma GroupRowsCons(l: LikeRow, rest: seq<LikeRow>, banned: seq<Id>, status: LikeStatus, targetId: Id,
      tail: seq<BanJoin>)
    requires OneLikeEach([l] + rest)
    requires (forall r :: r in tail <==> CountsFor(r, rest, banned, status, targetId)) && Distinct(Map(Liker, tail))
    ensures var rows := (if Votes(l, banned, status) && l.targetId == targetId then [BanJoin(l, None)] else []) + tail;
            (forall r :: r in rows <==> CountsFor(r, [l] + rest, banned, status, targetId))
              && Distinct(Map(Liker, rows))
  {
    var head := if Votes(l, banned, status) && l.targetId == targetId then [BanJoin(l, None)] else [];
    var rows := head + tail;
    var all := [l] + rest;
    MapAppend(Liker, head, tail);
    if head != [] {
      assert Map(Liker, head) == [l.userId];
      hide Map;
      NewVoter(l, rest, banned, status, targetId);
      forall j | 0 <= j < |tail| ensures Map(Liker, tail)[j] != l.userId {
        assert tail[j] in tail;
        assert tail[j].like.userId in Voters(rest, banned, status, targetId);
      }
      DistinctCons(l.userId, Map(Liker, tail));
    } else {
      assert rows == tail;
    }
  }
}
