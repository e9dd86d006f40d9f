/** Accounts and what signs in to them: registration, confirmation, login, and sign-in through
    Google or GitHub, as functions of the tables and as the use cases that carry them out. */
module Identities {
  import opened Tables

  datatype User = User(email: string, username: string, confirmed: bool)
  datatype Token = Token(token: string, expiredAt: int)

  /** Rows by the user they belong to; sessions by device id. Every "userId" and "deviceId" is unique in
      its table; emails, usernames and GitHub ids are not. */
  datatype State = State(users: map<Id, User>, tokens: map<Id, Token>, google: map<Id, Id>, github: map<Id, Id>,
                         banned: set<Id>, sessions: map<Id, Id>)

  const EMPTY := State(map[], map[], map[], map[], {}, map[])

  datatype Provider = Google | GitHub

  function Links(s: State, p: Provider): map<Id, Id> { if p == Google then s.google else s.github }

  function AddLink(s: State, p: Provider, u: Id, externalId: Id): State {
    if p == Google then s.(google := s.google[u := externalId]) else s.(github := s.github[u := externalId])
  }

  // ------------------------------------------------ lookups: any matching user, or none

  predicate ByEmail(s: State, email: string, r: Option<Id>) {
    match r
    case None => forall u :: u in s.users ==> s.users[u].email != email
    case Some(u) => u in s.users && s.users[u].email == email
  }

  predicate ByUsername(s: State, username: string, r: Option<Id>) {
    match r
    case None => forall u :: u in s.users ==> s.users[u].username != username
    case Some(u) => u in s.users && s.users[u].username == username
  }

  predicate ByToken(s: State, token: string, r: Option<Id>) {
    match r
    case None => forall u :: u in s.tokens ==> s.tokens[u].token != token
    case Some(u) => u in s.tokens && s.tokens[u].token == token
  }

  predicate ByLink(s: State, p: Provider, externalId: Id, r: Option<Id>) {
    match r
    case None => forall u :: u in Links(s, p) ==> Links(s, p)[u] != externalId
    case Some(u) => u in Links(s, p) && Links(s, p)[u] == externalId
  }

  // ------------------------------------------------ registration and confirmation

  /** The account to replace; a match by name wins over a different match by email. */
  function ToDelete(byEmail: Option<Id>, byName: Option<Id>): Option<Id> {
    if byName.Some? then byName else byEmail
  }

  /** Tokens, links, the ban and sessions go with their user. */
  function RemoveUser(s: State, u: Id): State {
    State(s.users - {u}, s.tokens - {u}, s.google - {u}, s.github - {u}, s.banned - {u},
          map d | d in s.sessions && s.sessions[d] != u :: s.sessions[d])
  }

  predicate TokenFree(s: State, token: string) { forall u :: u in s.tokens ==> s.tokens[u].token != token }

  predicate Confirmed(s: State, r: Option<Id>) { r.Some? && r.value in s.users && s.users[r.value].confirmed }

  /** `newId` is the id the database generates; a taken key rolls the transaction back. */
  function Register(s: State, email: string, username: string, token: Token, newId: Id, byEmail: Option<Id>,
      byName: Option<Id>): (State, Answer)
  {
    if Confirmed(s, byEmail) || Confirmed(s, byName) then (s, BadRequest)
    else
      var gone := ToDelete(byEmail, byName);
      var t := if gone.Some? then RemoveUser(s, gone.value) else s;
      if newId in t.users || !TokenFree(t, token.token) then (s, InternalError)
      else (t.(users := t.users[newId := User(email, username, false)], tokens := t.tokens[newId := token]), Success)
  }

  function ConfirmUser(s: State, u: Id): State
    requires u in s.users
  {
    s.(users := s.users[u := s.users[u].(confirmed := true)])
  }

  function Confirm(s: State, now: int, byToken: Option<Id>): (State, Answer)
    requires byToken.Some? ==> byToken.value in s.tokens && byToken.value in s.users
  {
    if byToken.None? then (s, NotFound)
    else
      var u := byToken.value;
      if u in s.banned then (s, Unauthorized)
      else if s.tokens[u].expiredAt < now then (s, BadRequest)
      else (ConfirmUser(s, u).(tokens := s.tokens - {u}), Success)
  }

  // ------------------------------------------------ signing in

  datatype SignedIn = SignedIn(state: State, answer: Answer, user: Option<Id>)

  /** A session row for the user; a taken device id throws. */
  function OpenSession(s: State, u: Id, deviceId: Id): Option<State> {
    if deviceId in s.sessions then None else Some(s.(sessions := s.sessions[deviceId := u]))
  }

  function Finish(s: State, withSession: Option<State>, u: Id): SignedIn {
    if withSession.None? then SignedIn(s, InternalError, None) else SignedIn(withSession.value, Success, Some(u))
  }

  function Login(s: State, passwordOk: bool, deviceId: Id, byEmail: Option<Id>): SignedIn {
    if !Confirmed(s, byEmail) || byEmail.value in s.banned || !passwordOk then SignedIn(s, Unauthorized, None)
    else Finish(s, OpenSession(s, byEmail.value, deviceId), byEmail.value)
  }

  /** What the provider's profile and the request bring. GitHub emails are not checked. */
  datatype Profile = Profile(provider: Provider, externalId: Id, email: string, emailVerified: bool, hasClient: bool)

  /** A new confirmed account. */
  function AddAccount(s: State, newId: Id, email: string, username: string): State {
    s.(users := s.users[newId := User(email, username, true)])
  }

  /** The link transaction: onto the account with the email, or onto a new confirmed account. */
  function LinkUser(s: State, p: Profile, newId: Id, username: string, deviceId: Id, byEmail: Option<Id>): SignedIn
    requires byEmail.Some? ==> byEmail.value in s.users
  {
    if byEmail.Some? then
      var u := byEmail.value;
      Finish(s, OpenSession(ConfirmUser(AddLink(s, p.provider, u, p.externalId), u), u, deviceId), u)
    else if newId in s.users then SignedIn(s, InternalError, None)
    else
      var t := AddLink(AddAccount(s, newId, p.email, username), p.provider, newId, p.externalId);
      Finish(s, OpenSession(t, newId, deviceId), newId)
  }

  function SignIn(s: State, p: Profile, newId: Id, username: string, deviceId: Id, byLink: Option<Id>,
      byEmail: Option<Id>): SignedIn
    requires byEmail.Some? ==> byEmail.value in s.users
  {
    if !p.hasClient || (p.provider == Google && !p.emailVerified) then SignedIn(s, BadRequest, None)
    else if byLink.Some? then
      if byLink.value in s.banned then SignedIn(s, Unauthorized, None)
      else Finish(s, OpenSession(s, byLink.value, deviceId), byLink.value)
    else if byEmail.Some? && byEmail.value in Links(s, p.provider) then SignedIn(s, BadRequest, None)
    else if byEmail.Some? && byEmail.value in s.banned then SignedIn(s, Unauthorized, None)
    else LinkUser(s, p, newId, username, deviceId, byEmail)
  }

  // ------------------------------------------------ the generated user name

  /** `email.split('@')[0]` */
  function LocalPart(email: string): string {
    if email == "" || email[0] == '@' then "" else [email[0]] + LocalPart(email[1..])
  }

  function Slice(s: string, n: nat): string { if |s| <= n then s else s[..n] }

  /** `random` is eight hexadecimal digits. */
  function GenerateUniqUserName(email: string, random: string): string {
    Slice(LocalPart(email) + "-" + random, 30)
  }

  lemma {:induction false} LocalPartIs(local: string, rest: string)
    requires '@' !in local
    ensures LocalPart(local + "@" + rest) == local && LocalPart(local) == local
  {
    if local == "" {
      assert local + "@" + rest == "@" + rest;
    } else {
      LocalPartIs(local[1..], rest);
      assert (local + "@" + rest)[1..] == local[1..] + "@" + rest;
    }
  }

  /** The name is what stands before the first "@", or the whole email without one, then a dash and the random
      characters, cut to 30. */
  lemma GeneratedNameIs(local: string, rest: string, random: string)
    requires '@' !in local
    ensures var name, whole := GenerateUniqUserName(local + "@" + rest, random), local + "-" + random;
            name == GenerateUniqUserName(local, random)
            && name == if |whole| <= 30 then whole else whole[..30]
  {
    LocalPartIs(local, rest);
  }

  /** How many random characters survive the cut. */
  function RandomKept(email: string): nat {
    if |LocalPart(email)| <= 21 then 8 else if |LocalPart(email)| <= 29 then 29 - |LocalPart(email)| else 0
  }

  /** Two names generated for one email are equal if and only if the random characters that survive
      the cut to 30 are; from 29 characters before the "@" on, none survives. */
  lemma GeneratedNamesEqualIff(email: string, a: string, b: string)
    requires |a| == 8 && |b| == 8
    ensures GenerateUniqUserName(email, a) == GenerateUniqUserName(email, b)
            <==> a[..RandomKept(email)] == b[..RandomKept(email)]
  {
    var l, k := LocalPart(email), RandomKept(email);
    var x, y := GenerateUniqUserName(email, a), GenerateUniqUserName(email, b);
    if |l| <= 29 {
      assert x == l + "-" + a[..k] && y == l + "-" + b[..k];
      assert x[|l| + 1..] == a[..k] && y[|l| + 1..] == b[..k];
    } else {
      assert x == l[..30] && y == l[..30];
    }
  }

  // ------------------------------------------------ tables and repository

  class GatewayDb {
    var users: map<Id, User>
    var tokens: map<Id, Token>
    var google: map<Id, Id>
    var github: map<Id, Id>
    var banned: set<Id>
    var sessions: map<Id, Id>

    constructor ()
      ensures Tables() == EMPTY
    {
      users, tokens, google, github, banned, sessions := map[], map[], map[], map[], {}, map[];
    }

    function Tables(): State
      reads this
    {
      State(users, tokens, google, github, banned, sessions)
    }

    /** A failed transaction leaves the tables as they were. */
    method Rollback(s: State)
      modifies this
      ensures Tables() == s
    {
      users, tokens, google, github, banned, sessions := s.users, s.tokens, s.google, s.github, s.banned, s.sessions;
    }
  }

  class UsersRepository {
    const db: GatewayDb

    constructor (db: GatewayDb)
      ensures this.db == db
    {
      this.db := db;
    }

    method GetUserByEmail(email: string) returns (r: Option<Id>)
      ensures ByEmail(db.Tables(), email, r)
    {
      if u :| u in db.users && db.users[u].email == email { r := Some(u); } else { r := None; }
    }

    method GetUserByUsername(username: string) returns (r: Option<Id>)
      ensures ByUsername(db.Tables(), username, r)
    {
      if u :| u in db.users && db.users[u].username == username { r := Some(u); } else { r := None; }
    }

    method GetUserByToken(token: string) returns (r: Option<Id>)
      ensures ByToken(db.Tables(), token, r)
    {
      if u :| u in db.tokens && db.tokens[u].token == token { r := Some(u); } else { r := None; }
    }

    method GetUserByLink(p: Provider, externalId: Id) returns (r: Option<Id>)
      ensures ByLink(db.Tables(), p, externalId, r)
    {
      var links := if p == Google then db.google else db.github;
      if u :| u in links && links[u] == externalId { r := Some(u); } else { r := None; }
    }

    method RemoveUserById(u: Id)
      modifies db
      ensures db.Tables() == RemoveUser(old(db.Tables()), u)
    {
      db.users, db.tokens := db.users - {u}, db.tokens - {u};
      db.google, db.github, db.banned := db.google - {u}, db.github - {u}, db.banned - {u};
      db.sessions := map d | d in db.sessions && db.sessions[d] != u :: db.sessions[d];
    }

    method CreateNotConfirmedUser(newId: Id, email: string, username: string, token: Token) returns (ok: bool)
      modifies db`users, db`tokens
      ensures ok == (newId !in old(db.users) && TokenFree(old(db.Tables()), token.token))
      ensures db.users == if ok then old(db.users)[newId := User(email, username, false)] else old(db.users)
      ensures db.tokens == if ok then old(db.tokens)[newId := token] else old(db.tokens)
    {
      ok := newId !in db.users && TokenFree(db.Tables(), token.token);
      if !ok { return; }
      db.users := db.users[newId := User(email, username, false)];
      db.tokens := db.tokens[newId := token];
    }

    method CreateConfirmedUser(newId: Id, email: string, username: string) returns (ok: bool)
      modifies db`users
      ensures ok == (newId !in old(db.users))
      ensures db.users == if ok then old(db.users)[newId := User(email, username, true)] else old(db.users)
    {
      ok := newId !in db.users;
      if ok { db.users := db.users[newId := User(email, username, true)]; }
    }

    method AddLinkToUser(p: Provider, u: Id, externalId: Id)
      modifies db`google, db`github
      ensures db.Tables() == AddLink(old(db.Tables()), p, u, externalId)
    {
      if p == Google { db.google := db.google[u := externalId]; } else { db.github := db.github[u := externalId]; }
    }

    method ConfirmUserById(u: Id)
      requires u in db.users
      modifies db`users
      ensures db.users == old(db.users)[u := old(db.users)[u].(confirmed := true)]
    {
      db.users := db.users[u := db.users[u].(confirmed := true)];
    }

    method CreateSession(u: Id, deviceId: Id) returns (ok: bool)
      modifies db`sessions
      ensures ok == (deviceId !in old(db.sessions))
      ensures db.sessions == if ok then old(db.sessions)[deviceId := u] else old(db.sessions)
    {
      ok := deviceId !in db.sessions;
      if ok { db.sessions := db.sessions[deviceId := u]; }
    }
  }

  // ------------------------------------------------ use cases

  class RegistrationUseCase {
    const db: GatewayDb
    const userRepository: UsersRepository

    constructor (db: GatewayDb)
      ensures this.db == db && userRepository.db == db
    {
      this.db := db;
      userRepository := new UsersRepository(db);
    }

    method Execute(email: string, username: string, token: Token, newId: Id)
      returns (answer: Answer, ghost byEmail: Option<Id>, ghost byName: Option<Id>)
      requires userRepository.db == db
      modifies db
      ensures ByEmail(old(db.Tables()), email, byEmail) && ByUsername(old(db.Tables()), username, byName)
      ensures (db.Tables(), answer) == Register(old(db.Tables()), email, username, token, newId, byEmail, byName)
    {
      var userByEmail := userRepository.GetUserByEmail(email);
      var userByUserName := userRepository.GetUserByUsername(username);
      byEmail, byName := userByEmail, userByUserName;
      if (userByEmail.Some? && db.users[userByEmail.value].confirmed)
         || (userByUserName.Some? && db.users[userByUserName.value].confirmed) {
        return BadRequest, byEmail, byName;
      }
      var userIdToDell := HandleUser(userByEmail, userByUserName);
      var ok := ExecuteTransaction(email, username, token, newId, userIdToDell);
      answer := if ok then Success else InternalError;
    }

    method ExecuteTransaction(email: string, username: string, token: Token, newId: Id,
        userIdToDell: Option<Id>) returns (ok: bool)
      requires userRepository.db == db
      modifies db
      ensures var t := if userIdToDell.Some? then RemoveUser(old(db.Tables()), userIdToDell.value)
              else old(db.Tables());
              ok == (newId !in t.users && TokenFree(t, token.token)) &&
              db.Tables() == if ok then t.(users := t.users[newId := User(email, username, false)],
                tokens := t.tokens[newId := token])
                             else old(db.Tables())
    {
      var was := db.Tables();
      if userIdToDell.Some? { userRepository.RemoveUserById(userIdToDell.value); }
      ok := userRepository.CreateNotConfirmedUser(newId, email, username, token);
      if !ok { db.Rollback(was); }
    }

    method HandleUser(userByEmail: Option<Id>, userByUserName: Option<Id>) returns (userIdToDell: Option<Id>)
      ensures userIdToDell == ToDelete(userByEmail, userByUserName)
    {
      userIdToDell := None;
      if userByEmail.Some? && userByUserName.Some? && userByEmail.value == userByUserName.value {
        userIdToDell := userByEmail;
      } else {
        if userByEmail.Some? { userIdToDell := userByEmail; }
        if userByUserName.Some? { userIdToDell := userByUserName; }
      }
    }
  }

  /** The Google and the GitHub use case, which differ in the provider and the verified-email check. */
  class ExternalSignInUseCase {
    const provider: Provider
    const db: GatewayDb
    const userRepository: UsersRepository

    constructor (provider: Provider, db: GatewayDb)
      ensures this.provider == provider && this.db == db && userRepository.db == db
    {
      this.provider, this.db := provider, db;
      userRepository := new UsersRepository(db);
    }

    method Execute(p: Profile, newId: Id, username: string, deviceId: Id)
      returns (answer: Answer, user: Option<Id>, ghost byLink: Option<Id>, ghost byEmail: Option<Id>)
      requires userRepository.db == db && p.provider == provider
      modifies db
      ensures ByLink(old(db.Tables()), provider, p.externalId, byLink) && ByEmail(old(db.Tables()), p.email, byEmail)
      ensures SignedIn(db.Tables(), answer, user)
              == SignIn(old(db.Tables()), p, newId, username, deviceId, byLink, byEmail)
    {
      var linked := userRepository.GetUserByLink(provider, p.externalId);
      var withEmail := userRepository.GetUserByEmail(p.email);
      byLink, byEmail := linked, withEmail;
      user := None;
      if !p.hasClient { return BadRequest, None, byLink, byEmail; }
      if provider == Google && !p.emailVerified { return BadRequest, None, byLink, byEmail; }
      if linked.Some? {
        if linked.value in db.banned { return Unauthorized, None, byLink, byEmail; }
        var ok := userRepository.CreateSession(linked.value, deviceId);
        if !ok { return InternalError, None, byLink, byEmail; }
        return Success, linked, byLink, byEmail;
      }
      if withEmail.Some? && withEmail.value in Links(db.Tables(), provider) {
        return BadRequest, None, byLink, byEmail;
      }
      if withEmail.Some? && withEmail.value in db.banned { return Unauthorized, None, byLink, byEmail; }
      answer, user := HandleUser(p, newId, username, deviceId, withEmail);
    }

    method HandleUser(p: Profile, newId: Id, username: string, deviceId: Id,
        withEmail: Option<Id>) returns (answer: Answer, user: Option<Id>)
      requires userRepository.db == db && p.provider == provider && (withEmail.Some? ==> withEmail.value in db.users)
      modifies db
      ensures SignedIn(db.Tables(), answer, user) == LinkUser(old(db.Tables()), p, newId, username, deviceId, withEmail)
    {
      var was := db.Tables();
      var userId := newId;
      if withEmail.Some? {
        userId := withEmail.value;
        userRepository.AddLinkToUser(provider, userId, p.externalId);
        if !db.users[userId].confirmed { userRepository.ConfirmUserById(userId); }
        assert db.Tables() == ConfirmUser(AddLink(was, provider, userId, p.externalId), userId);
      } else {
        var created := userRepository.CreateConfirmedUser(newId, p.email, username);
        if !created { return InternalError, None; }
        userRepository.AddLinkToUser(provider, newId, p.externalId);
      }
      var ok := userRepository.CreateSession(userId, deviceId);
      if !ok {
        db.Rollback(was);
        return InternalError, None;
      }
      answer, user := Success, Some(userId);
    }
  }

  class RegistrationConfirmationUseCase {
    const db: GatewayDb
    const userRepository: UsersRepository

    constructor (db: GatewayDb)
      ensures this.db == db && userRepository.db == db
    {
      this.db := db;
      userRepository := new UsersRepository(db);
    }

    method Execute(token: string, now: int) returns (answer: Answer, ghost byToken: Option<Id>)
      requires userRepository.db == db && db.tokens.Keys <= db.users.Keys
      modifies db
      ensures ByToken(old(db.Tables()), token, byToken)
      ensures (db.Tables(), answer) == Confirm(old(db.Tables()), now, byToken)
    {
      var result := userRepository.GetUserByToken(token);
      byToken := result;
      if result.None? { return NotFound, byToken; }
      var u := result.value;
      if u in db.banned { return Unauthorized, byToken; }
      if db.tokens[u].expiredAt < now { return BadRequest, byToken; }
      userRepository.ConfirmUserById(u);
      db.tokens := db.tokens - {u};
      answer := Success;
    }
  }
}
