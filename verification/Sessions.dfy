/** Sessions, refresh tokens and password-reset codes: the acceptance test for a refresh token, the
    commands as functions of the tables, and the use cases that carry them out. */
module Sessions {
  import opened Tables

  /** `lastActive` is the "lastActiveDate" column in milliseconds. */
  datatype Session = Session(userId: Id, lastActive: int)
  datatype Code = Code(code: string, expiredAt: int)

  /** Users map to their password hash; sessions are keyed by device id, codes by user. */
  datatype State = State(users: map<Id, Option<string>>, banned: set<Id>, sessions: map<Id, Session>,
    codes: map<Id, Code>)

  /** The payload of a refresh token; "iat" counts seconds. Signature and expiry are checked outside. */
  datatype Refresh = Refresh(userId: Id, deviceId: Id, iat: int)

  datatype Reply = Reply(state: State, answer: Answer, issued: Option<Refresh>)

  function IssuedAt(now: int): int { now / 1000 }

  /** The refresh strategy's `validate`. */
  predicate Accepts(s: State, t: Refresh) {
    t.userId in s.users && t.userId !in s.banned && t.deviceId in s.sessions
    && s.sessions[t.deviceId].lastActive == t.iat * 1000 && s.sessions[t.deviceId].userId == t.userId
  }

  // ------------------------------------------------ sessions

  /** A login that passed its checks. The database refuses a device id in use. */
  function CreateSession(s: State, userId: Id, deviceId: Id, now: int): Reply {
    if userId !in s.users || deviceId in s.sessions then Reply(s, InternalError, None)
    else Reply(s.(sessions := s.sessions[deviceId := Session(userId, IssuedAt(now) * 1000)]), Success,
               Some(Refresh(userId, deviceId, IssuedAt(now))))
  }

  function Renew(s: State, t: Refresh, now: int): Reply {
    if !Accepts(s, t) then Reply(s, Unauthorized, None)
    else Reply(s.(sessions := s.sessions[t.deviceId := s.sessions[t.deviceId].(lastActive := IssuedAt(now) * 1000)]),
      Success,
               Some(Refresh(t.userId, t.deviceId, IssuedAt(now))))
  }

  function Logout(s: State, t: Refresh): Reply {
    if !Accepts(s, t) then Reply(s, Unauthorized, None)
    else Reply(s.(sessions := s.sessions - {t.deviceId}), Success, None)
  }

  function Terminate(s: State, t: Refresh, deviceId: Id): Reply {
    if !Accepts(s, t) then Reply(s, Unauthorized, None)
    else if deviceId !in s.sessions then Reply(s, NotFound, None)
    else if s.sessions[deviceId].userId != t.userId then Reply(s, Forbidden, None)
    else Reply(s.(sessions := s.sessions - {deviceId}), Success, None)
  }

  function DevicesOf(s: State, userId: Id): set<Id> { set d | d in s.sessions && s.sessions[d].userId == userId }

  function TerminateOthers(s: State, t: Refresh): Reply {
    if !Accepts(s, t) then Reply(s, Unauthorized, None)
    else
      var ids := DevicesOf(s, t.userId) - {t.deviceId};
      if ids == {} then Reply(s, NotFound, None) else Reply(s.(sessions := s.sessions - ids), Success, None)
  }

  // ------------------------------------------------ reset codes

  predicate CodeFree(s: State, code: string) { forall u :: u in s.codes ==> s.codes[u].code != code }

  /** `found` is the user with the email; `ttl` is the configured lifetime. */
  function AskReset(s: State, found: Option<Id>, code: string, now: int, ttl: int): Reply {
    if found.None? then Reply(s, NotFound, None)
    else if found.value in s.banned then Reply(s, Unauthorized, None)
    else if !CodeFree(s, code) then Reply(s, InternalError, None)
    else Reply(s.(codes := s.codes[found.value := Code(code, now + ttl)]), Success, None)
  }

  predicate HasCode(s: State, code: string, r: Option<Id>) {
    match r
    case None => CodeFree(s, code)
    case Some(u) => u in s.codes && s.codes[u].code == code
  }

  function ConfirmReset(s: State, hash: string, now: int, byCode: Option<Id>): Reply
    requires byCode.Some? ==> byCode.value in s.codes
  {
    if byCode.None? then Reply(s, BadRequest, None)
    else
      var u := byCode.value;
      if u in s.banned then Reply(s, Unauthorized, None)
      else if s.codes[u].expiredAt < now then Reply(s, BadRequest, None)
      else Reply(State(s.users[u := Some(hash)], s.banned, s.sessions - DevicesOf(s, u), s.codes - {u}), Success, None)
  }

  // ------------------------------------------------ repositories

  class AuthDb {
    var users: map<Id, Option<string>>
    var banned: set<Id>
    var sessions: map<Id, Session>
    var codes: map<Id, Code>

    constructor (s: State)
      ensures Tables() == s
    {
      users, banned, sessions, codes := s.users, s.banned, s.sessions, s.codes;
    }

    function Tables(): State
      reads this
    {
      State(users, banned, sessions, codes)
    }
  }

  class SessionEntity {
    const userId: Id
    const deviceId: Id
    var lastActiveDate: int

    constructor (deviceId: Id, s: Session)
      ensures this.deviceId == deviceId && userId == s.userId && lastActiveDate == s.lastActive
    {
      this.deviceId, userId, lastActiveDate := deviceId, s.userId, s.lastActive;
    }

    method RenewSession(iat: int)
      modifies this
      ensures lastActiveDate == iat
    {
      lastActiveDate := iat;
    }
  }

  class SecurityDevicesRepository {
    const db: AuthDb

    constructor (db: AuthDb)
      ensures this.db == db
    {
      this.db := db;
    }

    method CreateSession(userId: Id, deviceId: Id, iat: int) returns (ok: bool)
      modifies db`sessions
      ensures ok == (userId in db.users && deviceId !in old(db.sessions))
      ensures db.sessions == if ok then old(db.sessions)[deviceId := Session(userId, iat)] else old(db.sessions)
    {
      ok := userId in db.users && deviceId !in db.sessions;
      if ok { db.sessions := db.sessions[deviceId := Session(userId, iat)]; }
    }

    method UpdateLastActiveDate(session: SessionEntity)
      requires session.deviceId in db.sessions
      modifies db`sessions
      ensures var d := session.deviceId;
              db.sessions == old(db.sessions)[d := old(db.sessions)[d].(lastActive := session.lastActiveDate)]
    {
      var renewed := db.sessions[session.deviceId].(lastActive := session.lastActiveDate);
      db.sessions := db.sessions[session.deviceId := renewed];
    }

    method GetDeviceById(deviceId: Id) returns (session: SessionEntity?)
      ensures session == null <==> deviceId !in db.sessions
      ensures session != null ==> fresh(session) && session.deviceId == deviceId
                                  && Session(session.userId, session.lastActiveDate) == db.sessions[deviceId]
    {
      session := null;
      if deviceId in db.sessions { session := new SessionEntity(deviceId, db.sessions[deviceId]); }
    }

    method DeleteSessionsById(ids: set<Id>)
      modifies db`sessions
      ensures db.sessions == old(db.sessions) - ids
    {
      db.sessions := db.sessions - ids;
    }

    method DeleteAllSessionsForUser(userId: Id)
      modifies db`sessions
      ensures db.sessions == old(db.sessions) - DevicesOf(old(db.Tables()), userId)
    {
      db.sessions := db.sessions - DevicesOf(db.Tables(), userId);
    }

    method GetDevicesByUserId(userId: Id) returns (devices: set<Id>)
      ensures devices == DevicesOf(db.Tables(), userId)
    {
      devices := DevicesOf(db.Tables(), userId);
    }
  }

  // ------------------------------------------------ use cases

  class SessionUseCases {
    const db: AuthDb
    const devices: SecurityDevicesRepository

    constructor (db: AuthDb)
      ensures this.db == db && devices.db == db
    {
      this.db := db;
      devices := new SecurityDevicesRepository(db);
    }

    /** The guard in front of every endpoint that takes a refresh token. */
    method Validate(t: Refresh) returns (ok: bool)
      requires devices.db == db
      ensures ok == Accepts(db.Tables(), t)
    {
      if t.userId !in db.users { return false; }
      if t.userId in db.banned { return false; }
      var session := devices.GetDeviceById(t.deviceId);
      if session == null { return false; }
      if session.lastActiveDate != t.iat * 1000 { return false; }
      ok := session.userId == t.userId;
    }

    method RenewTokens(t: Refresh, now: int) returns (answer: Answer, issued: Option<Refresh>)
      requires devices.db == db
      modifies db
      ensures Reply(db.Tables(), answer, issued) == Renew(old(db.Tables()), t, now)
    {
      var ok := Validate(t);
      if !ok { return Unauthorized, None; }
      var session := devices.GetDeviceById(t.deviceId);
      if session == null { return Unauthorized, None; }
      var refreshToken := Refresh(t.userId, t.deviceId, IssuedAt(now));
      session.RenewSession(refreshToken.iat * 1000);
      devices.UpdateLastActiveDate(session);
      answer, issued := Success, Some(refreshToken);
    }

    method TerminateDevicesExcludeCurrent(t: Refresh) returns (answer: Answer)
      requires devices.db == db
      modifies db
      ensures Reply(db.Tables(), answer, None) == TerminateOthers(old(db.Tables()), t)
    {
      var ok := Validate(t);
      if !ok { return Unauthorized; }
      var sessions := devices.GetDevicesByUserId(t.userId);
      if sessions == {} { return NotFound; }
      var ids := set d | d in sessions && d != t.deviceId;
      assert ids == sessions - {t.deviceId};
      if ids == {} { return NotFound; }
      devices.DeleteSessionsById(ids);
      answer := Success;
    }

    /** Creates the user's code row or overwrites it. */
    method RestorePassword(found: Option<Id>, code: string, now: int, ttl: int) returns (answer: Answer)
      modifies db
      ensures Reply(db.Tables(), answer, None) == AskReset(old(db.Tables()), found, code, now, ttl)
    {
      if found.None? { return NotFound; }
      if found.value in db.banned { return Unauthorized; }
      if !CodeFree(db.Tables(), code) { return InternalError; }
      var expiredAt := now + ttl;
      if found.value in db.codes {
        db.codes := db.codes[found.value := db.codes[found.value].(code := code, expiredAt := expiredAt)];
      } else {
        db.codes := db.codes[found.value := Code(code, expiredAt)];
      }
      answer := Success;
    }

    method ConfirmRestore(code: string, hash: string, now: int) returns (answer: Answer, ghost byCode: Option<Id>)
      requires devices.db == db
      modifies db
      ensures HasCode(old(db.Tables()), code, byCode)
      ensures Reply(db.Tables(), answer, None) == ConfirmReset(old(db.Tables()), hash, now, byCode)
    {
      var result: Option<Id> := None;
      if u :| u in db.codes && db.codes[u].code == code { result := Some(u); }
      byCode := result;
      if result.None? { return BadRequest, byCode; }
      var user := result.value;
      if user in db.banned { return Unauthorized, byCode; }
      if db.codes[user].expiredAt < now { return BadRequest, byCode; }
      db.users := db.users[user := Some(hash)];
      db.codes := db.codes - {user};
      devices.DeleteAllSessionsForUser(user);
      answer := Success;
    }
  }
}
