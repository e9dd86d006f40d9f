/** The like entity, its repository and what the two write operations do to the table. */
module LikeTable {
  import opened Tables
  import opened Likes

  predicate IsLikeOf(l: LikeRow, userId: Id, targetId: Id) {
    l.userId == userId && l.targetId == targetId
  }

  function FindLike(rows: seq<LikeRow>, userId: Id, targetId: Id): Option<LikeRow> {
    if rows == [] then None
    else if IsLikeOf(rows[0], userId, targetId) then Some(rows[0])
    else FindLike(rows[1..], userId, targetId)
  }

  /** An insert fails when the primary key is taken. */
  predicate CanInsert(rows: seq<LikeRow>, row: LikeRow) {
    forall i :: 0 <= i < |rows| ==> rows[i].id != row.id
  }

  /** Writes the status and update time of the row with this id. */
  function Overwrite(rows: seq<LikeRow>, id: Id, status: LikeStatus, updatedAt: int): (r: seq<LikeRow>)
    ensures |r| == |rows|
    ensures forall i :: 0 <= i < |rows| ==>
              r[i] == if rows[i].id == id then rows[i].(status := status, updatedAt := updatedAt) else rows[i]
  {
    if rows == [] then []
    else [if rows[0].id == id then rows[0].(status := status, updatedAt := updatedAt) else rows[0]]
         + Overwrite(rows[1..], id, status, updatedAt)
  }

  ghost predicate DistinctIds(rows: seq<LikeRow>) {
    forall i, j :: 0 <= i < j < |rows| ==> rows[i].id != rows[j].id
  }

  /** What every reachable like table satisfies. */
  ghost predicate Keyed(rows: seq<LikeRow>) {
    DistinctIds(rows) && OneLikeEach(rows)
  }

  // ------------------------------------------------ reading the table as a map

  lemma {:induction false} FindLikeSound(rows: seq<LikeRow>, userId: Id, targetId: Id)
    ensures match FindLike(rows, userId, targetId)
            case None => forall l :: l in rows ==> !IsLikeOf(l, userId, targetId)
            case Some(l) => l in rows && IsLikeOf(l, userId, targetId)
  {
    if rows != [] { FindLikeSound(rows[1..], userId, targetId); }
  }

  lemma FindLikeIs(rows: seq<LikeRow>, l: LikeRow)
    requires OneLikeEach(rows) && l in rows
    ensures FindLike(rows, l.userId, l.targetId) == Some(l)
  {
    FindLikeSound(rows, l.userId, l.targetId);
    var m := FindLike(rows, l.userId, l.targetId).value;
    var i :| 0 <= i < |rows| && rows[i] == l;
    var j :| 0 <= j < |rows| && rows[j] == m;
    assert i == j;
  }

  lemma AddKeepsKeyed(rows: seq<LikeRow>, row: LikeRow)
    requires Keyed(rows) && CanInsert(rows, row) && FindLike(rows, row.userId, row.targetId).None?
    ensures Keyed(rows + [row])
  {
    FindLikeSound(rows, row.userId, row.targetId);
    var r := rows + [row];
    forall i, j | 0 <= i < j < |r|
      ensures r[i].id != r[j].id && !(r[i].userId == r[j].userId && r[i].targetId == r[j].targetId)
    {
      assert r[i] in rows;
      if j == |rows| { assert !IsLikeOf(r[i], row.userId, row.targetId); }
    }
  }

  lemma OverwriteKeepsKeyed(rows: seq<LikeRow>, id: Id, status: LikeStatus, now: int)
    requires Keyed(rows)
    ensures Keyed(Overwrite(rows, id, status, now))
  {
    var r := Overwrite(rows, id, status, now);
    forall i, j | 0 <= i < j < |r|
      ensures r[i].id != r[j].id && !(r[i].userId == r[j].userId && r[i].targetId == r[j].targetId)
    {
      assert rows[i].id != rows[j].id && !(rows[i].userId == rows[j].userId && rows[i].targetId == rows[j].targetId);
    }
  }

  lemma {:induction false} FindAfterAdd(rows: seq<LikeRow>, row: LikeRow, userId: Id, targetId: Id)
    ensures FindLike(rows + [row], userId, targetId)
         == if FindLike(rows, userId, targetId).Some? then FindLike(rows, userId, targetId)
            else if IsLikeOf(row, userId, targetId) then Some(row) else None
  {
    var r := rows + [row];
    if rows == [] {
      assert r[1..] == [];
    } else {
      assert r[1..] == rows[1..] + [row];
      FindAfterAdd(rows[1..], row, userId, targetId);
    }
  }

  lemma FindAfterOverwrite(rows: seq<LikeRow>, l: LikeRow, status: LikeStatus, now: int, userId: Id, targetId: Id)
    requires Keyed(rows) && l in rows
    ensures FindLike(Overwrite(rows, l.id, status, now), userId, targetId)
         == if IsLikeOf(l, userId, targetId) then Some(l.(status := status, updatedAt := now))
            else FindLike(rows, userId, targetId)
  {
    var r := Overwrite(rows, l.id, status, now);
    OverwriteKeepsKeyed(rows, l.id, status, now);
    FindLikeSound(rows, userId, targetId);
    var k :| 0 <= k < |rows| && rows[k] == l;
    if IsLikeOf(l, userId, targetId) {
      assert r[k] == l.(status := status, updatedAt := now);
      FindLikeIs(r, r[k]);
    } else if FindLike(rows, userId, targetId).Some? {
      var m := FindLike(rows, userId, targetId).value;
      OverwriteOther(rows, l, m, status, now);
      FindLikeIs(r, m);
    } else {
      NoneAfterOverwrite(rows, l.id, status, now, userId, targetId);
      FindLikeSound(r, userId, targetId);
    }
  }

  lemma OverwriteOther(rows: seq<LikeRow>, l: LikeRow, m: LikeRow, status: LikeStatus, now: int)
    requires DistinctIds(rows) && l in rows && m in rows && l != m
    ensures m in Overwrite(rows, l.id, status, now)
  {
    var k :| 0 <= k < |rows| && rows[k] == l;
    var i :| 0 <= i < |rows| && rows[i] == m;
    assert i != k;
    assert Overwrite(rows, l.id, status, now)[i] == m;
  }

  lemma NoneAfterOverwrite(rows: seq<LikeRow>, id: Id, status: LikeStatus, now: int, userId: Id, targetId: Id)
    requires forall l :: l in rows ==> !IsLikeOf(l, userId, targetId)
    ensures forall l :: l in Overwrite(rows, id, status, now) ==> !IsLikeOf(l, userId, targetId)
  {
    var r := Overwrite(rows, id, status, now);
    forall m | m in r ensures !IsLikeOf(m, userId, targetId) {
      var i :| 0 <= i < |r| && r[i] == m;
      assert rows[i] in rows;
    }
  }

  lemma InsertIsFree(likes: seq<LikeRow>, row: LikeRow)
    ensures CanInsert(likes, row) <==> forall l :: l in likes ==> l.id != row.id
  {
    if CanInsert(likes, row) {
      forall l | l in likes ensures l.id != row.id { var i :| 0 <= i < |likes| && likes[i] == l; }
    }
  }

  /** With at most one row per user and target the row's id picks exactly that user's row on that target. */
  lemma OnlyMine(likes: seq<LikeRow>, l: LikeRow, i: nat)
    requires Keyed(likes) && l in likes && i < |likes|
    ensures likes[i].id == l.id <==> likes[i] == l
    ensures likes[i].userId == l.userId && likes[i].targetId == l.targetId <==> likes[i] == l
  {
    var k :| 0 <= k < |likes| && likes[k] == l;
    if i != k { assert likes[i].id != l.id; }
  }

  ghost predicate KnownUsers(users: seq<User>, rows: seq<LikeRow>) {
    forall i :: 0 <= i < |rows| ==> HasUser(users, rows[i].userId)
  }

  lemma OverwriteKeepsUsers(users: seq<User>, rows: seq<LikeRow>, id: Id, status: LikeStatus, now: int)
    requires KnownUsers(users, rows)
    ensures KnownUsers(users, Overwrite(rows, id, status, now))
  {
    hide HasUser;
  }

  lemma KeyedFacts(rows: seq<LikeRow>)
    requires Keyed(rows)
    ensures OneLikeEach(rows)
  {
  }

  // ------------------------------------------------ entity and repository

  class LikeEntity {
    const row: LikeRow
    var status: LikeStatus
    var updatedAt: int

    constructor (row: LikeRow)
      ensures this.row == row && status == row.status && updatedAt == row.updatedAt
    {
      this.row := row;
      status, updatedAt := row.status, row.updatedAt;
    }

    method UpdateLike(status: LikeStatus, now: int)
      modifies this
      ensures this.status == status && updatedAt == now
    {
      updatedAt := now;
      this.status := status;
    }
  }

  class LikesRepository {
    var rows: seq<LikeRow>

    constructor ()
      ensures rows == []
    {
      rows := [];
    }

    method AddLike(row: LikeRow) returns (ok: bool)
      modifies this
      ensures ok == CanInsert(old(rows), row)
      ensures rows == if ok then old(rows) + [row] else old(rows)
    {
      ok := CanInsert(rows, row);
      if ok { rows := rows + [row]; }
    }

    method UpdateLike(like: LikeEntity)
      modifies this
      ensures rows == Overwrite(old(rows), like.row.id, like.status, like.updatedAt)
    {
      rows := Overwrite(rows, like.row.id, like.status, like.updatedAt);
    }

    method GetLike(targetId: Id, userId: Id) returns (like: LikeEntity?)
      ensures like == null <==> FindLike(rows, userId, targetId).None?
      ensures like != null ==> fresh(like) && FindLike(rows, userId, targetId) == Some(like.row)
      ensures like != null ==> like.status == like.row.status && like.updatedAt == like.row.updatedAt
    {
      var found := FindLike(rows, userId, targetId);
      like := null;
      if found.Some? { like := new LikeEntity(found.value); }
    }
  }
}
