/** When registering, confirming and signing in succeed, what each then stores, and where every session
    and link of a run comes from. */
module IdentityOutcomes {
  import opened Tables
  import opened Identities
  import opened IdentityRuns

  // ------------------------------------------------ registration and confirmation

  /** Nobody found by email or by name is confirmed; the new id and token are free once the account found
      by name, or else the one found by email, is gone. */
  ghost predicate MayRegister(s: State, token: string, newId: Id, byEmail: Option<Id>, byName: Option<Id>) {
    (forall u :: u in s.users && (byEmail == Some(u) || byName == Some(u)) ==> !s.users[u].confirmed) &&
    (newId in s.users ==> byName == Some(newId) || (byName == None && byEmail == Some(newId))) &&
    forall u :: u in s.tokens && s.tokens[u].token == token ==>
      byName == Some(u) || (byName == None && byEmail == Some(u))
  }

  /** `t` is `s` without everything of `gone`, an account without links and sessions, and with the new one. */
  ghost predicate Registered(s: State, t: State, gone: Option<Id>, newId: Id, user: User, token: Token) {
    t.users.Keys == (if gone.Some? then s.users.Keys - {gone.value} else s.users.Keys) + {newId} &&
    t.tokens.Keys == (if gone.Some? then s.tokens.Keys - {gone.value} else s.tokens.Keys) + {newId} &&
    t.users[newId] == user && t.tokens[newId] == token &&
    (forall u :: u in s.users && gone != Some(u) && u != newId ==> t.users[u] == s.users[u]) &&
    (forall u :: u in s.tokens && gone != Some(u) && u != newId ==> t.tokens[u] == s.tokens[u]) &&
    t.google == s.google && t.github == s.github && t.sessions == s.sessions &&
    t.banned == if gone.Some? then s.banned - {gone.value} else s.banned
  }

  lemma TokenFreeAfter(s: State, gone: Id, token: string)
    ensures TokenFree(RemoveUser(s, gone), token) <==>
      forall u :: u in s.tokens && s.tokens[u].token == token ==> u == gone
  {
    var t := RemoveUser(s, gone);
    assert forall u :: u in t.tokens <==> u in s.tokens && u != gone;
  }

  lemma RegistrationSuccess(s: State, email: string, username: string, token: Token, newId: Id, byEmail: Option<Id>,
      byName: Option<Id>)
    requires ByEmail(s, email, byEmail) && ByUsername(s, username, byName)
    ensures Register(s, email, username, token, newId, byEmail, byName).1 == Success
            <==> MayRegister(s, token.token, newId, byEmail, byName)
  {
    var gone := if byName.Some? then byName else byEmail;
    if gone.Some? { TokenFreeAfter(s, gone.value, token.token); }
    assert Confirmed(s, byEmail) || Confirmed(s, byName)
           <==> exists u :: u in s.users && (byEmail == Some(u) || byName == Some(u)) && s.users[u].confirmed;
    hide TokenFree;
  }

  lemma RegistrationRefused(s: State, email: string, username: string, token: Token, newId: Id, byEmail: Option<Id>,
      byName: Option<Id>)
    requires ByEmail(s, email, byEmail) && ByUsername(s, username, byName)
    ensures var (t, answer) := Register(s, email, username, token, newId, byEmail, byName);
            (answer == BadRequest <==> (byEmail.Some? && s.users[byEmail.value].confirmed)
                                       || (byName.Some? && s.users[byName.value].confirmed)) &&
            (answer != Success ==> t == s)
  {
    hide TokenFree, RemoveUser;
  }

  lemma RegistrationStores(s: State, email: string, username: string, token: Token, newId: Id, byEmail: Option<Id>,
      byName: Option<Id>)
    requires Reachable(s) && ByEmail(s, email, byEmail) && ByUsername(s, username, byName)
    requires Register(s, email, username, token, newId, byEmail, byName).1 == Success
    ensures var t := Register(s, email, username, token, newId, byEmail, byName).0;
            Registered(s, t, if byName.Some? then byName else byEmail, newId, User(email, username, false), token)
  {
    var gone := if byName.Some? then byName else byEmail;
    if gone.Some? { NothingElseGoes(s, gone.value); }
    hide Reachable, TokenFree;
  }

  /** A registration goes through exactly then. It replaces the account found by name, or else the one
      found by email; a confirmed one refuses it; and a refusal stores nothing. */
  lemma RegistrationOutcome(s: State, email: string, username: string, token: Token, newId: Id, byEmail: Option<Id>,
      byName: Option<Id>)
    requires Reachable(s) && ByEmail(s, email, byEmail) && ByUsername(s, username, byName)
    ensures var (t, answer) := Register(s, email, username, token, newId, byEmail, byName);
            (answer == Success <==> MayRegister(s, token.token, newId, byEmail, byName)) &&
            (answer == BadRequest <==> (byEmail.Some? && s.users[byEmail.value].confirmed)
                                       || (byName.Some? && s.users[byName.value].confirmed)) &&
            (answer != Success ==> t == s) &&
            (answer == Success ==>
               Registered(s, t, if byName.Some? then byName else byEmail, newId, User(email, username, false), token))
  {
    hide MayRegister, Reachable, Register, Registered;
    RegistrationSuccess(s, email, username, token, newId, byEmail, byName);
    RegistrationRefused(s, email, username, token, newId, byEmail, byName);
    if Register(s, email, username, token, newId, byEmail, byName).1 == Success {
      RegistrationStores(s, email, username, token, newId, byEmail, byName);
    }
  }

  lemma NothingElseGoes(s: State, gone: Id)
    requires Reachable(s) && gone in s.users && !s.users[gone].confirmed
    ensures var t := RemoveUser(s, gone); t.google == s.google && t.github == s.github && t.sessions == s.sessions
    ensures gone !in s.google && gone !in s.github
  {
    var t := RemoveUser(s, gone);
    assert forall d :: d in s.sessions ==> s.sessions[d] != gone;
  }

  /** A confirmation succeeds exactly for an unexpired token of an unbanned user; it confirms that user, uses
      the token up and stores nothing else. Each refusal has its own answer. */
  lemma ConfirmationOutcome(s: State, token: string, now: int, byToken: Option<Id>)
    requires Reachable(s) && ByToken(s, token, byToken)
    ensures var (t, answer) := Confirm(s, now, byToken);
            (answer == NotFound <==> forall u :: u in s.tokens ==> s.tokens[u].token != token) &&
            (answer == Unauthorized <==> byToken.Some? && byToken.value in s.banned) &&
            (answer == BadRequest <==>
               byToken.Some? && byToken.value !in s.banned && s.tokens[byToken.value].expiredAt < now) &&
            (answer == Success <==>
               byToken.Some? && byToken.value !in s.banned && now <= s.tokens[byToken.value].expiredAt) &&
            if answer == Success then
              var u := byToken.value;
              t.users == s.users[u := User(s.users[u].email, s.users[u].username, true)]
              && t.tokens == s.tokens - {u} &&
              (t.google, t.github, t.banned, t.sessions) == (s.google, s.github, s.banned, s.sessions)
            else t == s
  {
    hide LinkedConfirmed, OneOwner;
  }

  // ------------------------------------------------ signing in

  /** A login succeeds exactly for the right password of a confirmed unbanned account on a free device id, and
      then opens one session. */
  lemma LoginOutcome(s: State, email: string, passwordOk: bool, deviceId: Id, byEmail: Option<Id>)
    requires ByEmail(s, email, byEmail)
    ensures var r := Login(s, passwordOk, deviceId, byEmail);
            (r.answer == Success <==>
               passwordOk && byEmail.Some? && s.users[byEmail.value].confirmed && byEmail.value !in s.banned
               && deviceId !in s.sessions) &&
            (r.answer == InternalError <==>
               passwordOk && byEmail.Some? && s.users[byEmail.value].confirmed && byEmail.value !in s.banned
               && deviceId in s.sessions) &&
            (r.answer == Success || r.answer == InternalError || r.answer == Unauthorized) &&
            if r.answer == Success then r.user == byEmail && OnlySession(s, r.state, deviceId, byEmail.value)
            else r.user == None && r.state == s
  {
  }

  ghost predicate OnlySession(s: State, t: State, deviceId: Id, u: Id) {
    t.sessions == s.sessions[deviceId := u] && t.users == s.users && t.tokens == s.tokens && t.google == s.google
    && t.github == s.github && t.banned == s.banned
  }

  /** The request carries its client data and, from Google, a verified email. */
  predicate InOrder(p: Profile) { p.hasClient && (p.provider == Google ==> p.emailVerified) }

  function LinksOf(s: State, p: Provider): map<Id, Id> {
    match p
    case Google => s.google
    case GitHub => s.github
  }

  /** Whoever the external id or else the email belongs to is unbanned, an account found only by email has no
      link of the provider yet, and the keys to be stored are free. */
  predicate MaySignIn(s: State, p: Profile, newId: Id, deviceId: Id, byLink: Option<Id>, byEmail: Option<Id>) {
    InOrder(p) && deviceId !in s.sessions &&
    match (byLink, byEmail)
    case (Some(u), _) => u !in s.banned
    case (None, Some(u)) => u !in s.banned && u !in LinksOf(s, p.provider)
    case (None, None) => newId !in s.users
  }

  /** What a sign-in then stores: one session; for an unknown external id also its link, and the account
      confirmed or created. */
  ghost predicate SignedInStores(s: State, t: State, p: Profile, username: string, deviceId: Id, linked: bool,
      known: bool, u: Id)
    requires known ==> u in s.users
  {
    t.sessions == s.sessions[deviceId := u] && t.tokens == s.tokens && t.banned == s.banned &&
    t.google == (if p.provider == Google && !linked then s.google[u := p.externalId] else s.google) &&
    t.github == (if p.provider == GitHub && !linked then s.github[u := p.externalId] else s.github) &&
    t.users == if linked then s.users
               else if known then s.users[u := User(s.users[u].email, s.users[u].username, true)]
               else s.users[u := User(p.email, username, true)]
  }

  function SignedInUser(newId: Id, byLink: Option<Id>, byEmail: Option<Id>): Id {
    if byLink.Some? then byLink.value else if byEmail.Some? then byEmail.value else newId
  }

  lemma SignInSuccess(s: State, p: Profile, newId: Id, username: string, deviceId: Id, byLink: Option<Id>,
      byEmail: Option<Id>)
    requires Reachable(s) && ByLink(s, p.provider, p.externalId, byLink) && ByEmail(s, p.email, byEmail)
    ensures var r := SignIn(s, p, newId, username, deviceId, byLink, byEmail);
            (r.answer == Success <==> MaySignIn(s, p, newId, deviceId, byLink, byEmail)) &&
            (r.answer != Success ==> r.state == s && r.user == None)
  {
    hide Reachable;
  }

  lemma LinkedIsUser(s: State, p: Profile, u: Id)
    requires Reachable(s) && ByLink(s, p.provider, p.externalId, Some(u))
    ensures u in s.users
  {
    hide OneOwner, TokensUnique;
    assert IsConfirmed(s, u);
  }

  /** A sign-in through a provider succeeds if and only if the request is in order and nobody and nothing
      refuses it; it stores exactly that, and a refusal stores nothing. */
  lemma SignInOutcome(s: State, p: Profile, newId: Id, username: string, deviceId: Id, byLink: Option<Id>,
      byEmail: Option<Id>)
    requires Reachable(s) && ByLink(s, p.provider, p.externalId, byLink) && ByEmail(s, p.email, byEmail)
    ensures var r, u := SignIn(s, p, newId, username, deviceId, byLink, byEmail), SignedInUser(newId, byLink, byEmail);
            (r.answer == Success <==> MaySignIn(s, p, newId, deviceId, byLink, byEmail)) &&
            (byLink.Some? || byEmail.Some? ==> u in s.users) &&
            if r.answer == Success then
              r.user == Some(u) &&
              SignedInStores(s, r.state, p, username, deviceId, byLink.Some?, byLink.Some? || byEmail.Some?, u)
            else r.state == s && r.user == None
  {
    SignInSuccess(s, p, newId, username, deviceId, byLink, byEmail);
    if byLink.Some? { LinkedIsUser(s, p, byLink.value); }
    hide Reachable;
  }

  /** Which refusal is answered: a bad request when the request is out of order or the account found by email
      has another link of the provider; unauthorized for a banned user; else a taken key. */
  lemma SignInRefusals(s: State, p: Profile, newId: Id, username: string, deviceId: Id, byLink: Option<Id>,
      byEmail: Option<Id>)
    requires Reachable(s) && ByLink(s, p.provider, p.externalId, byLink) && ByEmail(s, p.email, byEmail)
    ensures var answer := SignIn(s, p, newId, username, deviceId, byLink, byEmail).answer;
            var otherLink := byLink.None? && byEmail.Some? && byEmail.value in LinksOf(s, p.provider);
            var u := SignedInUser(newId, byLink, byEmail);
            (answer == BadRequest <==> !InOrder(p) || otherLink) &&
            (answer == Unauthorized <==>
               InOrder(p) && !otherLink && (byLink.Some? || byEmail.Some?) && u in s.banned) &&
            (answer == Success || answer == BadRequest || answer == Unauthorized || answer == InternalError)
  {
    hide Reachable;
  }

  // ------------------------------------------------ where sessions and links come from

  lemma {:induction false} StatesAt(states: seq<State>, events: seq<Event>, k: nat)
    requires IsRun(states, events) && k < |events|
    ensures k + 1 < |states| && Reachable(states[k]) && Looked(states[k], events[k])
    ensures states[k + 1] == Step(states[k], events[k]).0
  {
    hide *;
    RunSteps(states, events, k);
    RunIsReachable(states, events, k);
    StepIs(states[k], events[k], states[k + 1]);
  }

  /** The event signs `u` in on the device: with the password of the confirmed account whose email it gives, or
      through a profile in order whose external id is linked to `u` from then on. */
  ghost predicate Opens(s: State, e: Event, t: State, device: Id, u: Id) {
    match e
    case LogsIn(email, passwordOk, deviceId, _) =>
      deviceId == device && passwordOk && u in s.users && s.users[u].email == email && s.users[u].confirmed
      && u !in s.banned
    case SignsIn(p, _, _, deviceId, _, _) =>
      deviceId == device && InOrder(p) && u !in s.banned && u in LinksOf(t, p.provider)
      && LinksOf(t, p.provider)[u] == p.externalId
    case _ => false
  }

  lemma SignInOpens(s: State, e: Event, device: Id)
    requires Reachable(s) && Looked(s, e) && e.SignsIn? && device in Step(s, e).0.sessions
    ensures var t := Step(s, e).0;
            (device in s.sessions && s.sessions[device] == t.sessions[device])
            || Opens(s, e, t, device, t.sessions[device])
  {
    var p := e.profile;
    SignInOutcome(s, p, e.newId, e.username, e.deviceId, e.byLink, e.byEmail);
    NewIsUnbanned(s, e);
    hide SignIn, Reachable;
  }

  lemma NewIsUnbanned(s: State, e: Event)
    requires Reachable(s) && e.SignsIn?
    ensures e.newId !in s.users ==> e.newId !in s.banned
  {
    hide LinkedConfirmed, OneOwner, TokensUnique;
  }

  lemma StepOpens(s: State, e: Event, device: Id)
    requires Reachable(s) && Looked(s, e) && device in Step(s, e).0.sessions
    ensures var t := Step(s, e).0;
            (device in s.sessions && s.sessions[device] == t.sessions[device])
            || Opens(s, e, t, device, t.sessions[device])
  {
    hide SignIn, Register, Confirm;
    match e
    case Registers(email, username, token, newId, byEmail, byName) =>
      RegisterKeeps(s, email, username, token, newId, byEmail, byName, "");
      hide Reachable;
    case Confirms(token, now, byToken) =>
      ConfirmationOutcome(s, token, now, byToken);
      hide Reachable;
    case LogsIn(email, passwordOk, deviceId, byEmail) =>
      LoginOutcome(s, email, passwordOk, deviceId, byEmail);
      hide Login, Reachable;
    case SignsIn(_, _, _, _, _, _) =>
      SignInOpens(s, e, device);
      hide Reachable;
    case _ => hide Reachable;
  }

  /** The k-th event opened that session. */
  ghost predicate OpensAt(states: seq<State>, events: seq<Event>, k: nat, device: Id, u: Id) {
    k < |events| && k + 1 < |states| && Opens(states[k], events[k], states[k + 1], device, u)
  }

  /** A state with a session or a Google link has a step before it. */
  lemma StateBefore(states: seq<State>, events: seq<Event>, j: nat)
    requires IsRun(states, events) && j < |states| && (states[j].sessions != map[] || states[j].google != map[])
    ensures 0 < j <= |events| && |states| == |events| + 1
    ensures Reachable(states[j - 1]) && Looked(states[j - 1], events[j - 1])
    ensures states[j] == Step(states[j - 1], events[j - 1]).0
  {
    RunLength(states, events);
    StartsEmpty(states, events);
    hide *;
    if j > 0 { StatesAt(states, events, j - 1); }
  }

  lemma OpenedLast(states: seq<State>, events: seq<Event>, j: nat, device: Id)
    requires IsRun(states, events) && j < |states| && device in states[j].sessions
    ensures 0 < j <= |events| && |states| == |events| + 1
    ensures Opens(states[j - 1], events[j - 1], states[j], device, states[j].sessions[device])
            || (device in states[j - 1].sessions && states[j - 1].sessions[device] == states[j].sessions[device])
  {
    hide *;
    StateBefore(states, events, j);
    StepOpens(states[j - 1], events[j - 1], device);
  }

  /** Every session of a run was opened by an earlier login with the account's password, or by an earlier
      sign-in through a link of the account with, from Google, a verified email; the user was not banned. */
  lemma {:induction false} SessionOrigin(states: seq<State>, events: seq<Event>, j: nat, device: Id) returns (k: nat)
    requires IsRun(states, events) && j < |states| && device in states[j].sessions
    ensures k < j && OpensAt(states, events, k, device, states[j].sessions[device])
  {
    hide Opens, IsRun;
    OpenedLast(states, events, j, device);
    k := j - 1;
    if !OpensAt(states, events, k, device, states[j].sessions[device]) {
      k := SessionOrigin(states, events, j - 1, device);
    }
  }

  lemma RunLength(states: seq<State>, events: seq<Event>)
    requires IsRun(states, events)
    ensures |states| == |events| + 1
  {
    hide IsStep;
  }

  lemma StartsEmpty(states: seq<State>, events: seq<Event>)
    requires IsRun(states, events)
    ensures |states| > 0 && states[0].sessions == map[] && states[0].google == map[]
  {
    hide IsStep;
  }

  /** The event links the Google id to `u` by a verified email that is the account's. */
  ghost predicate LinksGoogle(e: Event, u: Id, sub: Id, email: string) {
    e.SignsIn? && e.profile.provider == Google && e.profile.externalId == sub && e.profile.emailVerified
    && e.profile.hasClient && e.profile.email == email
  }

  ghost predicate SameGoogle(s: State, t: State, u: Id)
    requires u in t.google
  {
    u in s.google && s.google[u] == t.google[u] && u in s.users && u in t.users && t.users[u].email == s.users[u].email
  }

  lemma SignInGoogle(s: State, e: Event, u: Id)
    requires Reachable(s) && Looked(s, e) && e.SignsIn? && u in Step(s, e).0.google
    ensures var t := Step(s, e).0;
            u in t.users && (SameGoogle(s, t, u) || LinksGoogle(e, u, t.google[u], t.users[u].email))
  {
    var p := e.profile;
    SignInOutcome(s, p, e.newId, e.username, e.deviceId, e.byLink, e.byEmail);
    if u in s.google { GoogleIsUser(s, u); }
    hide SignIn, Reachable;
  }

  lemma GoogleIsUser(s: State, u: Id)
    requires Reachable(s) && u in s.google
    ensures u in s.users && s.users[u].confirmed
  {
    assert IsConfirmed(s, u);
  }

  lemma RegisterGoogle(s: State, e: Event, u: Id)
    requires Reachable(s) && Looked(s, e) && e.Registers? && u in Step(s, e).0.google
    ensures u in Step(s, e).0.users && SameGoogle(s, Step(s, e).0, u)
  {
    RegistrationOutcome(s, e.email, e.username, e.newToken, e.newId, e.byEmail, e.byName);
    var t := Step(s, e).0;
    var gone := if e.byName.Some? then e.byName else e.byEmail;
    hide Register;
    assert u in s.google;
    GoogleIsUser(s, u);
    hide Reachable;
  }

  lemma StepGoogle(s: State, e: Event, u: Id)
    requires Reachable(s) && Looked(s, e) && u in Step(s, e).0.google
    ensures var t := Step(s, e).0;
            u in t.users && (SameGoogle(s, t, u) || LinksGoogle(e, u, t.google[u], t.users[u].email))
  {
    if e.Registers? {
      RegisterGoogle(s, e, u);
    } else if e.SignsIn? {
      SignInGoogle(s, e, u);
    } else {
      if u in s.google { GoogleIsUser(s, u); }
      if e.Confirms? { ConfirmationOutcome(s, e.token, e.now, e.byToken); }
      if e.LogsIn? { LoginOutcome(s, e.email, e.passwordOk, e.deviceId, e.byEmail); }
      hide Reachable, Register, SignIn, Confirm, Login;
    }
  }

  ghost predicate LinksGoogleAt(events: seq<Event>, k: nat, u: Id, sub: Id, email: string) {
    k < |events| && LinksGoogle(events[k], u, sub, email)
  }

  ghost predicate LinkedFrom(s: State, e: Event, t: State, u: Id) {
    u in t.google && u in t.users &&
    (LinksGoogle(e, u, t.google[u], t.users[u].email)
     || (u in s.google && s.google[u] == t.google[u] && u in s.users && s.users[u].email == t.users[u].email))
  }

  lemma StepLinks(s: State, e: Event, u: Id)
    requires Reachable(s) && Looked(s, e) && u in Step(s, e).0.google
    ensures LinkedFrom(s, e, Step(s, e).0, u)
  {
    StepGoogle(s, e, u);
    hide Reachable, Looked, Step, LinksGoogle;
  }

  lemma LinkedLast(states: seq<State>, events: seq<Event>, j: nat, u: Id)
    requires IsRun(states, events) && j < |states| && u in states[j].google
    ensures 0 < j <= |events| && |states| == |events| + 1
    ensures LinkedFrom(states[j - 1], events[j - 1], states[j], u)
  {
    hide *;
    StateBefore(states, events, j);
    StepLinks(states[j - 1], events[j - 1], u);
  }

  /** Every Google link of a run came from an earlier sign-in whose profile had that sub and, verified, the very
      email the account has now. */
  lemma {:induction false} GoogleOrigin(states: seq<State>, events: seq<Event>, j: nat, u: Id) returns (k: nat)
    requires IsRun(states, events) && j < |states| && u in states[j].google
    ensures u in states[j].users
    ensures k < j && LinksGoogleAt(events, k, u, states[j].google[u], states[j].users[u].email)
  {
    hide LinksGoogle, IsRun;
    LinkedLast(states, events, j, u);
    k := j - 1;
    if !LinksGoogleAt(events, k, u, states[j].google[u], states[j].users[u].email) {
      k := GoogleOrigin(states, events, j - 1, u);
    }
  }
}
