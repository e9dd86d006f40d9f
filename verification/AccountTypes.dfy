/** The gateway's account types: the batch update against the single one, and what a cancel pass's
    report does to them. */
module AccountTypes {
  import opened Tables
  import opened Subscriptions
  import opened CancelPasses

  datatype AccountType = Personal | Business
  datatype Account = Account(accountType: AccountType, expireAt: Option<int>)

  /** The event that tells of a user's account type. */
  datatype Published = Published(userId: Id, accountType: AccountType)

  /** The user rows by primary key. */
  type Users = map<Id, Account>

  /** `new Date(null)` is the epoch. */
  function ExpiresAt(r: Report): int { if r.endDate.Some? then r.endDate.value else 0 }

  function AccountFor(r: Report, now: int): Account {
    if ExpiresAt(r) > now then Account(Business, Some(ExpiresAt(r))) else Account(Personal, None)
  }

  // ------------------------------------------------ the single update

  /** An unknown user changes nothing, but the event for it throws. */
  function UpdateOne(users: Users, r: Report, now: int): (Users, Answer) {
    if r.userId in users then (users[r.userId := AccountFor(r, now)], Success) else (users, InternalError)
  }

  /** The single updates one after the other, each at its own instant. */
  function UpdateEach(users: Users, payload: seq<Report>, nows: seq<int>): (t: Users)
    requires |nows| == |payload|
    ensures t.Keys == users.Keys
  {
    if payload == [] then users
    else
      var m := |payload| - 1;
      var before := UpdateEach(users, payload[..m], nows[..m]);
      UpdateOne(before, payload[m], nows[m]).0
  }

  /** One event for each of the users, with the type the user has. */
  ghost predicate EachOnce(published: seq<Published>, users: Users, ids: set<Id>) {
    ids <= users.Keys && Distinct(published) &&
    forall e :: e in published <==> e.userId in ids && e.accountType == users[e.userId].accountType
  }

  lemma NextPublished(published: seq<Published>, users: Users, ids: set<Id>, id: Id)
    requires EachOnce(published, users, ids) && id in users && id !in ids
    ensures EachOnce(published + [Published(id, users[id].accountType)], users, ids + {id})
  {
  }

  // ------------------------------------------------ entities, repository and use cases

  class UserEntity {
    const id: Id
    var accountType: AccountType
    var subscriptionExpireAt: Option<int>

    constructor (id: Id, a: Account)
      ensures this.id == id && Contents() == a
    {
      this.id := id;
      accountType, subscriptionExpireAt := a.accountType, a.expireAt;
    }

    function Contents(): Account
      reads this
    {
      Account(accountType, subscriptionExpireAt)
    }

    method ChangeUserSubscription(expireAt: Option<int>, accountType: AccountType)
      modifies this
      ensures Contents() == Account(accountType, expireAt)
    {
      subscriptionExpireAt := expireAt;
      this.accountType := accountType;
    }

    /** The branch both use cases take on one payload entry. */
    method Apply(r: Report, now: int)
      modifies this
      ensures Contents() == AccountFor(r, now)
    {
      if ExpiresAt(r) > now {
        ChangeUserSubscription(Some(ExpiresAt(r)), Business);
      } else {
        ChangeUserSubscription(None, Personal);
      }
    }
  }

  /** One entity per known id, holding that user's row. */
  ghost predicate Mirrors(entities: map<Id, UserEntity>, users: Users, ids: set<Id>)
    reads entities.Values
  {
    entities.Keys == users.Keys * ids &&
    (forall id :: id in entities ==> entities[id].id == id && entities[id].Contents() == users[id])
  }

  class UsersRepository {
    var users: Users

    constructor (users: Users)
      ensures this.users == users
    {
      this.users := users;
    }

    method GetUserById(id: Id) returns (user: UserEntity?)
      ensures user == null <==> id !in users
      ensures user != null ==> fresh(user) && user.id == id && user.Contents() == users[id]
    {
      user := null;
      if id in users { user := new UserEntity(id, users[id]); }
    }

    /** The entities by id, as the caller's `new Map(...)` holds them. */
    method GetUsersByIds(ids: set<Id>) returns (found: map<Id, UserEntity>)
      ensures Mirrors(found, users, ids) && fresh(found.Values)
    {
      found := map[];
      var rest := users.Keys * ids;
      while rest != {}
        invariant rest <= users.Keys * ids
        invariant found.Keys == users.Keys * ids - rest
        invariant forall id :: id in found ==>
          fresh(found[id]) && found[id].id == id && found[id].Contents() == users[id]
        decreases rest
      {
        var id :| id in rest;
        var user := new UserEntity(id, users[id]);
        found := found[id := user];
        rest := rest - {id};
      }
    }

    method UpdateAccountType(user: UserEntity)
      requires user.id in users
      modifies this
      ensures users == old(users)[user.id := user.Contents()]
    {
      users := users[user.id := user.Contents()];
    }
  }

  class UpdateSubscriptionInfoUseCase {
    const usersRepository: UsersRepository

    constructor (repository: UsersRepository)
      ensures usersRepository == repository
    {
      usersRepository := repository;
    }

    method Execute(payload: Report, now: int) returns (answer: Answer, published: seq<Published>)
      modifies usersRepository
      ensures (usersRepository.users, answer) == UpdateOne(old(usersRepository.users), payload, now)
      ensures published == if answer == Success
              then [Published(payload.userId, usersRepository.users[payload.userId].accountType)] else []
    {
      published := [];
      var user := usersRepository.GetUserById(payload.userId);
      if user != null {
        user.Apply(payload, now);
        usersRepository.UpdateAccountType(user);
      }
      // Merging the events of a missing user throws.
      if user == null { return InternalError, []; }
      answer, published := Success, [Published(user.id, user.accountType)];
    }
  }

  function IdsOf(payload: seq<Report>): set<Id> { set r | r in payload :: r.userId }

  class UpdateSubscriptionsInfoUseCase {
    const usersRepository: UsersRepository

    constructor (repository: UsersRepository)
      ensures usersRepository == repository
    {
      usersRepository := repository;
    }

    /** The batch leaves the users the single updates leave, and publishes one event per known user it
        names, with the account type that user ends with. `nows[i]` is the clock at entry i. */
    method Execute(payload: seq<Report>, nows: seq<int>) returns (answer: Answer, published: seq<Published>)
      requires |nows| == |payload|
      modifies usersRepository
      ensures EachOnce(published, usersRepository.users, old(usersRepository.users).Keys * IdsOf(payload))
      ensures usersRepository.users == UpdateEach(old(usersRepository.users), payload, nows) && answer == Success
    {
      hide UpdateEach, IdsOf, Mirrors;
      ghost var users := usersRepository.users;
      ghost var ids := IdsOf(payload);
      var userMap := usersRepository.GetUsersByIds(IdsOf(payload));
      var i := 0;
      NoEntries(users, payload, nows);
      while i < |payload|
        invariant 0 <= i <= |payload| && usersRepository.users == users
        invariant Mirrors(userMap, UpdateEach(users, payload[..i], nows[..i]), ids)
        modifies userMap.Values
      {
        NextEntry(users, payload, nows, i);
        ApplyEntry(userMap, payload[i], nows[i], UpdateEach(users, payload[..i], nows[..i]), ids);
        i := i + 1;
      }
      assert payload[..i] == payload && nows[..i] == nows;
      OnlyListed(users, payload, nows);
      HandleUsers(userMap, UpdateEach(users, payload, nows), ids);
      published := HandleEvents(userMap, UpdateEach(users, payload, nows), ids);
      answer := Success;
    }

    /** One event per mapped entity. */
    method HandleEvents(userMap: map<Id, UserEntity>, ghost result: Users, ghost ids: set<Id>)
      returns (published: seq<Published>)
      requires Mirrors(userMap, result, ids)
      ensures EachOnce(published, result, result.Keys * ids)
    {
      published := [];
      var rest := userMap.Keys;
      while rest != {}
        invariant rest <= userMap.Keys && EachOnce(published, result, userMap.Keys - rest)
        decreases rest
      {
        var id :| id in rest;
        NextPublished(published, result, userMap.Keys - rest, id);
        published := published + [Published(id, userMap[id].accountType)];
        rest := rest - {id};
        assert userMap.Keys - rest == userMap.Keys - (rest + {id}) + {id};
      }
      assert userMap.Keys - {} == result.Keys * ids;
    }

    /** One round of the payload loop: an unknown user is skipped. */
    method ApplyEntry(userMap: map<Id, UserEntity>, item: Report, now: int, ghost before: Users, ghost ids: set<Id>)
      requires Mirrors(userMap, before, ids) && item.userId in ids
      modifies userMap.Values
      ensures Mirrors(userMap, UpdateOne(before, item, now).0, ids)
    {
      if item.userId in userMap {
        userMap[item.userId].Apply(item, now);
      }
    }

    /** Writes every entity in one transaction. */
    method HandleUsers(userMap: map<Id, UserEntity>, ghost result: Users, ghost ids: set<Id>)
      requires Mirrors(userMap, result, ids) && result.Keys == usersRepository.users.Keys
      requires forall id :: id in usersRepository.users && id !in ids ==> result[id] == usersRepository.users[id]
      modifies usersRepository
      ensures usersRepository.users == result
    {
      ghost var users := usersRepository.users;
      var rest := userMap.Keys;
      while rest != {}
        invariant rest <= userMap.Keys && usersRepository.users.Keys == users.Keys
        invariant forall id :: id in users ==>
                    usersRepository.users[id] == if id in userMap && id !in rest then result[id] else users[id]
        decreases rest
      {
        var id :| id in rest;
        usersRepository.UpdateAccountType(userMap[id]);
        rest := rest - {id};
      }
    }
  }

  lemma NoEntries(users: Users, payload: seq<Report>, nows: seq<int>)
    requires |nows| == |payload|
    ensures UpdateEach(users, payload[..0], nows[..0]) == users
  {
  }

  lemma NextEntry(users: Users, payload: seq<Report>, nows: seq<int>, i: nat)
    requires |nows| == |payload| && i < |payload|
    ensures UpdateEach(users, payload[..i + 1], nows[..i + 1])
         == UpdateOne(UpdateEach(users, payload[..i], nows[..i]), payload[i], nows[i]).0
    ensures payload[i].userId in IdsOf(payload)
  {
    assert payload[i] in payload;
    assert payload[..i + 1][..i] == payload[..i] && nows[..i + 1][..i] == nows[..i];
  }

  /** Users the payload does not name keep their accounts. */
  lemma {:induction false} OnlyListed(users: Users, payload: seq<Report>, nows: seq<int>)
    requires |nows| == |payload|
    ensures forall id :: id in users && id !in IdsOf(payload) ==> UpdateEach(users, payload, nows)[id] == users[id]
    decreases |payload|
  {
    if payload != [] {
      var m := |payload| - 1;
      OnlyListed(users, payload[..m], nows[..m]);
      assert payload[m] in payload && forall r :: r in payload[..m] ==> r in payload;
    }
  }

  /** The user's last entry in the payload decides: Business until its end date if that was still ahead
      when the entry was processed, Personal without expiry otherwise. */
  lemma {:induction false} LastEntryDecides(users: Users, payload: seq<Report>, nows: seq<int>, k: nat)
    requires |nows| == |payload| && k < |payload| && payload[k].userId in users
    requires forall j :: k < j < |payload| ==> payload[j].userId != payload[k].userId
    ensures var end, account := ExpiresAt(payload[k]), UpdateEach(users, payload, nows)[payload[k].userId];
            if end > nows[k] then account == Account(Business, Some(end)) else account == Account(Personal, None)
    decreases |payload|
  {
    var m := |payload| - 1;
    if k < m { LastEntryDecides(users, payload[..m], nows[..m], k); }
  }

  // ------------------------------------------------ after a cancel pass

  ghost predicate AllExpiredBy(payload: seq<Report>, now: int) {
    forall r :: r in payload ==> ExpiresAt(r) <= now
  }

  lemma {:induction false} ExpiredReports(users: Users, payload: seq<Report>, nows: seq<int>, ran: int)
    requires |nows| == |payload| && AllExpiredBy(payload, ran) && forall k :: 0 <= k < |nows| ==> ran <= nows[k]
    ensures forall id :: id in users ==>
              UpdateEach(users, payload, nows)[id] == if id in IdsOf(payload) then Account(Personal, None)
                else users[id]
    decreases |payload|
  {
    if payload != [] {
      var m := |payload| - 1;
      ExpiredReports(users, payload[..m], nows[..m], ran);
      assert payload == payload[..m] + [payload[m]];
      assert ExpiresAt(payload[m]) <= nows[m];
      assert IdsOf(payload) == IdsOf(payload[..m]) + {payload[m].userId};
    }
  }

  /** A cancel pass's report, processed no earlier than the pass ran, makes exactly the users of the
      cancelled subscriptions personal without expiry; all other users keep their accounts. */
  lemma PassThenBatch(users: Users, rows: seq<Row>, ran: int, payPalOk: bool, nows: seq<int>)
    requires |nows| == |CancelPass(rows, ran, payPalOk).reported| && forall k :: 0 <= k < |nows| ==> ran <= nows[k]
    ensures var t := UpdateEach(users, CancelPass(rows, ran, payPalOk).reported, nows);
            t.Keys == users.Keys &&
            forall id :: id in users ==>
              t[id] == if Stored(rows, ran, payPalOk) && HasCancelled(rows, ran, id) then Account(Personal, None)
                else users[id]
  {
    var reported := CancelPass(rows, ran, payPalOk).reported;
    PassRows(rows, ran, payPalOk);
    ReportedUsers(rows, ran);
    hide CancelPass, Filter, Map, ToCancel, UpdateEach;
    ExpiredReports(users, reported, nows, ran);
  }

  predicate HasCancelled(rows: seq<Row>, now: int, userId: Id) {
    exists r :: r in rows && ToCancel(r, now) && r.userId == userId
  }

  lemma ReportedUsers(rows: seq<Row>, now: int)
    ensures var reported := Map(ToReport, Filter(Due(now), rows));
            AllExpiredBy(reported, now) && forall id :: id in IdsOf(reported) <==> HasCancelled(rows, now, id)
  {
    hide PSTHour;
    var due := Filter(Due(now), rows);
    var reported := Map(ToReport, due);
    FilterMembers(Due(now), rows);
    hide Filter, Map;
    forall r | r in reported ensures ExpiresAt(r) <= now && HasCancelled(rows, now, r.userId) {
      var k :| 0 <= k < |reported| && reported[k] == r;
      assert due[k] in due;
    }
    forall id | HasCancelled(rows, now, id) ensures id in IdsOf(reported) {
      var r :| r in rows && ToCancel(r, now) && r.userId == id;
      assert r in due;
      var k :| 0 <= k < |due| && due[k] == r;
      assert reported[k] in reported;
    }
  }

  // ------------------------------------------------ one report

  /** One report is taken exactly for a known user, and then sets that user's type and expiry alone: Business
      until an end date in the future, else Personal without expiry. No end date counts as the epoch. */
  lemma OneReport(users: Users, r: Report, now: int)
    ensures var (t, answer) := UpdateOne(users, r, now);
            (answer == Success <==> r.userId in users) && (answer == InternalError <==> r.userId !in users) &&
            t.Keys == users.Keys && (forall id :: id in users && id != r.userId ==> t[id] == users[id]) &&
            (r.userId in users ==>
               t[r.userId] == match r.endDate
                              case Some(end) => if end > now then Account(Business, Some(end))
                                                else Account(Personal, None)
                              case None => if now < 0 then Account(Business, Some(0)) else Account(Personal, None))
  {
  }
}
