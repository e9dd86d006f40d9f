/** What every run of registrations, confirmations, sign-ins, bans and ended sessions keeps. */
module IdentityRuns {
  import opened Tables
  import opened Identities

  /** The lookups an event carries are what the queries returned. */
  datatype Event =
    | Registers(email: string, username: string, newToken: Token, newId: Id, byEmail: Option<Id>, byName: Option<Id>)
    | Confirms(token: string, now: int, byToken: Option<Id>)
    | LogsIn(email: string, passwordOk: bool, deviceId: Id, byEmail: Option<Id>)
    | SignsIn(profile: Profile, newId: Id, username: string, deviceId: Id, byLink: Option<Id>, byEmail: Option<Id>)
    | Bans(user: Id)
    | Unbans(user: Id)
    | EndsSession(deviceId: Id)

  ghost predicate Looked(s: State, e: Event) {
    match e
    case Registers(email, username, _, _, byEmail, byName) =>
      ByEmail(s, email, byEmail) && ByUsername(s, username, byName)
    case Confirms(token, _, byToken) => ByToken(s, token, byToken)
    case LogsIn(email, _, _, byEmail) => ByEmail(s, email, byEmail)
    case SignsIn(p, _, _, _, byLink, byEmail) =>
      ByLink(s, p.provider, p.externalId, byLink) && ByEmail(s, p.email, byEmail)
    case _ => true
  }

  // ------------------------------------------------ the invariant

  predicate IsConfirmed(s: State, u: Id) { u in s.users && s.users[u].confirmed }

  /** Tokens, links, bans and sessions belong to users. */
  ghost predicate RefsOk(s: State) {
    s.tokens.Keys <= s.users.Keys && s.banned <= s.users.Keys
  }

  /** Whoever has a link or a session is confirmed. */
  ghost predicate LinkedConfirmed(s: State) {
    (forall u :: u in s.google ==> IsConfirmed(s, u)) &&
    (forall u :: u in s.github ==> IsConfirmed(s, u)) &&
    (forall d :: d in s.sessions ==> IsConfirmed(s, s.sessions[d]))
  }

  ghost predicate OneOwner(links: map<Id, Id>) {
    forall u, v :: u in links && v in links && links[u] == links[v] ==> u == v
  }

  ghost predicate TokensUnique(s: State) {
    forall u, v :: u in s.tokens && v in s.tokens && s.tokens[u].token == s.tokens[v].token ==> u == v
  }

  ghost predicate Reachable(s: State) {
    RefsOk(s) && LinkedConfirmed(s) && OneOwner(s.google) && OneOwner(s.github) && TokensUnique(s)
  }

  function Step(s: State, e: Event): (State, Answer, Option<Id>)
    requires RefsOk(s) && Looked(s, e)
  {
    match e
    case Registers(email, username, token, newId, byEmail, byName) =>
      var (t, answer) := Register(s, email, username, token, newId, byEmail, byName); (t, answer, None)
    case Confirms(_, now, byToken) => var (t, answer) := Confirm(s, now, byToken); (t, answer, None)
    case LogsIn(_, passwordOk, deviceId, byEmail) =>
      var r := Login(s, passwordOk, deviceId, byEmail); (r.state, r.answer, r.user)
    case SignsIn(p, newId, username, deviceId, byLink, byEmail) =>
      var r := SignIn(s, p, newId, username, deviceId, byLink, byEmail); (r.state, r.answer, r.user)
    case Bans(u) => (if u in s.users then s.(banned := s.banned + {u}) else s, Success, None)
    case Unbans(u) => (s.(banned := s.banned - {u}), Success, None)
    case EndsSession(d) => (s.(sessions := s.sessions - {d}), Success, None)
  }

  // ------------------------------------------------ the steps

  /** `u` keeps its account, its confirmation and its links. */
  ghost predicate Keeps(s: State, t: State, u: Id) {
    IsConfirmed(s, u) ==>
      IsConfirmed(t, u) &&
      (forall p: Provider :: u in Links(s, p) ==> u in Links(t, p) && Links(t, p)[u] == Links(s, p)[u])
  }

  lemma RemoveUnconfirmed(s: State, gone: Id, u: Id)
    requires Reachable(s) && !IsConfirmed(s, gone)
    ensures Reachable(RemoveUser(s, gone))
    ensures Keeps(s, RemoveUser(s, gone), u) && RemoveUser(s, gone).sessions == s.sessions
  {
    var t := RemoveUser(s, gone);
    assert forall d :: d in s.sessions ==> s.sessions[d] != gone;
    assert t.sessions == s.sessions;
  }

  lemma AddUnconfirmed(s: State, newId: Id, user: User, token: Token, u: Id)
    requires Reachable(s) && newId !in s.users && TokenFree(s, token.token)
    ensures var t := s.(users := s.users[newId := user], tokens := s.tokens[newId := token]);
            Reachable(t) && Keeps(s, t, u)
  {
  }

  /** Registration never removes a confirmed account, nor, therefore, a linked one or one with a
      session: links and sessions of all others stay as they are. */
  lemma RegisterKeeps(s: State, email: string, username: string, token: Token, newId: Id, byEmail: Option<Id>,
      byName: Option<Id>, u: Id)
    requires Reachable(s) && ByEmail(s, email, byEmail) && ByUsername(s, username, byName)
    ensures var t := Register(s, email, username, token, newId, byEmail, byName).0;
            Reachable(t) && Keeps(s, t, u) && t.sessions == s.sessions
  {
    if !Confirmed(s, byEmail) && !Confirmed(s, byName) {
      var gone := ToDelete(byEmail, byName);
      var r := if gone.Some? then RemoveUser(s, gone.value) else s;
      if gone.Some? { RemoveUnconfirmed(s, gone.value, u); }
      hide Reachable, RemoveUser;
      if newId !in r.users && TokenFree(r, token.token) {
        AddUnconfirmed(r, newId, User(email, username, false), token, u);
      }
    }
  }

  lemma ConfirmKeeps(s: State, now: int, byToken: Option<Id>, u: Id)
    requires Reachable(s) && (byToken.Some? ==> byToken.value in s.tokens)
    ensures var t := Confirm(s, now, byToken).0; Reachable(t) && Keeps(s, t, u)
  {
    hide OneOwner;
  }

  lemma SessionKeeps(s: State, v: Id, deviceId: Id, u: Id)
    requires Reachable(s) && IsConfirmed(s, v) && deviceId !in s.sessions
    ensures var t := OpenSession(s, v, deviceId).value; Reachable(t) && Keeps(s, t, u)
  {
  }

  lemma LoginKeeps(s: State, passwordOk: bool, deviceId: Id, byEmail: Option<Id>, u: Id)
    requires Reachable(s)
    ensures var t := Login(s, passwordOk, deviceId, byEmail).state; Reachable(t) && Keeps(s, t, u)
  {
    hide Reachable, Keeps;
    KeepsSelf(s, u);
    if Confirmed(s, byEmail) && deviceId !in s.sessions { SessionKeeps(s, byEmail.value, deviceId, u); }
  }

  lemma KeepsSelf(s: State, u: Id)
    ensures Keeps(s, s, u)
  {
  }

  lemma KeepsTrans(a: State, b: State, c: State, u: Id)
    requires Keeps(a, b, u) && Keeps(b, c, u)
    ensures Keeps(a, c, u)
  {
    hide Links;
  }

  lemma LinkKeepsConfirmed(s: State, p: Provider, v: Id, externalId: Id)
    requires LinkedConfirmed(s) && v in s.users
    ensures LinkedConfirmed(ConfirmUser(AddLink(s, p, v, externalId), v))
  {
    var t := ConfirmUser(AddLink(s, p, v, externalId), v);
    assert forall u :: IsConfirmed(s, u) ==> IsConfirmed(t, u);
  }

  lemma LinkKeepsOwners(s: State, p: Provider, v: Id, externalId: Id)
    requires OneOwner(s.google) && OneOwner(s.github) && v in s.users && v !in Links(s, p)
             && ByLink(s, p, externalId, None)
    ensures var t := ConfirmUser(AddLink(s, p, v, externalId), v); OneOwner(t.google) && OneOwner(t.github)
  {
    if p == Google { OwnerAdded(s.google, v, externalId); } else { OwnerAdded(s.github, v, externalId); }
    hide OneOwner;
  }

  lemma LinkKeepsUser(s: State, p: Provider, v: Id, externalId: Id, u: Id)
    requires v in s.users && v !in Links(s, p)
    ensures var t := ConfirmUser(AddLink(s, p, v, externalId), v);
            Keeps(s, t, u) && IsConfirmed(t, v) && v in Links(t, p) && Links(t, p)[v] == externalId
  {
  }

  lemma AddLinkKeeps(s: State, p: Provider, v: Id, externalId: Id, u: Id)
    requires Reachable(s) && v in s.users && v !in Links(s, p) && ByLink(s, p, externalId, None)
    ensures var t := ConfirmUser(AddLink(s, p, v, externalId), v);
            Reachable(t) && Keeps(s, t, u) && IsConfirmed(t, v) && v in Links(t, p) && Links(t, p)[v] == externalId
  {
    hide LinkedConfirmed, OneOwner, Keeps, IsConfirmed;
    LinkKeepsConfirmed(s, p, v, externalId);
    LinkKeepsOwners(s, p, v, externalId);
    LinkKeepsUser(s, p, v, externalId, u);
  }

  lemma OwnerAdded(links: map<Id, Id>, v: Id, externalId: Id)
    requires OneOwner(links) && v !in links && forall u :: u in links ==> links[u] != externalId
    ensures OneOwner(links[v := externalId])
  {
  }

  lemma AddConfirmed(s: State, newId: Id, email: string, username: string, u: Id)
    requires Reachable(s) && newId !in s.users
    ensures var t := AddAccount(s, newId, email, username);
            Reachable(t) && Keeps(s, t, u) && newId !in t.google && newId !in t.github
  {
  }

  /** What a sign-in that ends in a session owes: `r.user` owns the external id. */
  ghost predicate Owed(s: State, r: SignedIn, p: Provider, externalId: Id, u: Id) {
    Reachable(r.state) && Keeps(s, r.state, u) && (r.answer == Success <==> r.user.Some?) &&
    (r.user.Some? ==> ByLink(r.state, p, externalId, r.user))
  }

  lemma FinishOwed(s: State, t: State, v: Id, deviceId: Id, p: Provider, externalId: Id, u: Id)
    requires Reachable(s) && Reachable(t) && Keeps(s, t, u) && IsConfirmed(t, v) && ByLink(t, p, externalId, Some(v))
    ensures Owed(s, Finish(s, OpenSession(t, v, deviceId), v), p, externalId, u)
  {
    hide Reachable, Keeps;
    KeepsSelf(s, u);
    if deviceId !in t.sessions {
      SessionKeeps(t, v, deviceId, u);
      KeepsTrans(s, t, OpenSession(t, v, deviceId).value, u);
    }
  }

  lemma LinkNewKeeps(s: State, p: Profile, newId: Id, username: string, u: Id)
    requires Reachable(s) && newId !in s.users && ByLink(s, p.provider, p.externalId, None)
    ensures var t := AddLink(AddAccount(s, newId, p.email, username), p.provider, newId, p.externalId);
            Reachable(t) && Keeps(s, t, u) && IsConfirmed(t, newId) && ByLink(t, p.provider, p.externalId, Some(newId))
  {
    hide Reachable, Keeps, Links;
    var a := AddAccount(s, newId, p.email, username);
    var t := AddLink(a, p.provider, newId, p.externalId);
    AddConfirmed(s, newId, p.email, username, u);
    SameLinks(s, a, p.provider, newId);
    AddLinkKeeps(a, p.provider, newId, p.externalId, u);
    AlreadyConfirmed(t, newId);
    KeepsTrans(s, a, t, u);
  }

  lemma SameLinks(s: State, a: State, p: Provider, newId: Id)
    requires a.google == s.google && a.github == s.github
    ensures Links(a, p) == Links(s, p)
    ensures newId !in a.google && newId !in a.github ==> newId !in Links(a, p)
  {
  }

  lemma AlreadyConfirmed(t: State, u: Id)
    requires IsConfirmed(t, u)
    ensures ConfirmUser(t, u) == t
  {
    assert t.users[u := t.users[u]] == t.users;
  }

  lemma LinkUserKeeps(s: State, p: Profile, newId: Id, username: string, deviceId: Id, byEmail: Option<Id>, u: Id)
    requires Reachable(s) && ByEmail(s, p.email, byEmail) && ByLink(s, p.provider, p.externalId, None)
    requires byEmail.Some? ==> byEmail.value !in Links(s, p.provider)
    ensures Owed(s, LinkUser(s, p, newId, username, deviceId, byEmail), p.provider, p.externalId, u)
  {
    hide Reachable, Keeps, OpenSession, Finish;
    if byEmail.Some? {
      AddLinkKeeps(s, p.provider, byEmail.value, p.externalId, u);
      var t := ConfirmUser(AddLink(s, p.provider, byEmail.value, p.externalId), byEmail.value);
      FinishOwed(s, t, byEmail.value, deviceId, p.provider, p.externalId, u);
    } else if newId !in s.users {
      LinkNewKeeps(s, p, newId, username, u);
      var t := AddLink(AddAccount(s, newId, p.email, username), p.provider, newId, p.externalId);
      FinishOwed(s, t, newId, deviceId, p.provider, p.externalId, u);
    } else {
      KeepsSelf(s, u);
    }
  }

  /** A successful sign-in answers the one user the external id is linked to. */
  lemma SignInKeeps(s: State, p: Profile, newId: Id, username: string, deviceId: Id, byLink: Option<Id>,
      byEmail: Option<Id>, u: Id)
    requires Reachable(s) && ByLink(s, p.provider, p.externalId, byLink) && ByEmail(s, p.email, byEmail)
    ensures var r := SignIn(s, p, newId, username, deviceId, byLink, byEmail);
            Owed(s, r, p.provider, p.externalId, u) && (r.user.Some? && byLink.Some? ==> r.user == byLink)
  {
    KeepsSelf(s, u);
    if byLink.Some? {
      assert IsConfirmed(s, byLink.value);
      hide Reachable, Keeps;
      FinishOwed(s, s, byLink.value, deviceId, p.provider, p.externalId, u);
    } else if byEmail.Some? ==> byEmail.value !in Links(s, p.provider) {
      hide Reachable, Keeps, LinkUser;
      LinkUserKeeps(s, p, newId, username, deviceId, byEmail, u);
    }
  }

  lemma StepKeeps(s: State, e: Event, u: Id)
    requires Reachable(s) && Looked(s, e)
    ensures var t := Step(s, e).0; Reachable(t) && Keeps(s, t, u)
  {
    hide Register, Confirm, Login, SignIn, LinkedConfirmed, OneOwner, TokensUnique, Keeps;
    match e
    case Registers(email, username, token, newId, byEmail, byName) =>
      RegisterKeeps(s, email, username, token, newId, byEmail, byName, u);
    case Confirms(_, now, byToken) => ConfirmKeeps(s, now, byToken, u);
    case LogsIn(_, passwordOk, deviceId, byEmail) => LoginKeeps(s, passwordOk, deviceId, byEmail, u);
    case SignsIn(p, newId, username, deviceId, byLink, byEmail) =>
      SignInKeeps(s, p, newId, username, deviceId, byLink, byEmail, u);
    case Bans(v) => BanKeeps(s, Step(s, e).0, u);
    case Unbans(v) => BanKeeps(s, Step(s, e).0, u);
    case EndsSession(d) => EndKeeps(s, d, u);
  }

  lemma BanKeeps(s: State, t: State, u: Id)
    requires Reachable(s) && t == s.(banned := t.banned) && t.banned <= s.users.Keys
    ensures Reachable(t) && Keeps(s, t, u)
  {
  }

  lemma EndKeeps(s: State, d: Id, u: Id)
    requires Reachable(s)
    ensures var t := s.(sessions := s.sessions - {d}); Reachable(t) && Keeps(s, t, u)
  {
  }

  /** A sign-in either changes nothing, or opens one new session for a user who is then confirmed and
      was not banned. */
  ghost predicate OpensOneSession(s: State, r: SignedIn, deviceId: Id) {
    (r.answer == Success <==> r.user.Some?) &&
    (r.answer != Success ==> r.state == s) &&
    (r.user.Some? ==> deviceId !in s.sessions && r.state.sessions == s.sessions[deviceId := r.user.value]
                      && r.user.value !in s.banned && IsConfirmed(r.state, r.user.value))
  }

  lemma LoginOpensOneSession(s: State, passwordOk: bool, deviceId: Id, byEmail: Option<Id>)
    ensures OpensOneSession(s, Login(s, passwordOk, deviceId, byEmail), deviceId)
  {
  }

  lemma SignInOpensOneSession(s: State, p: Profile, newId: Id, username: string, deviceId: Id, byLink: Option<Id>,
      byEmail: Option<Id>)
    requires Reachable(s) && ByLink(s, p.provider, p.externalId, byLink) && ByEmail(s, p.email, byEmail)
    ensures OpensOneSession(s, SignIn(s, p, newId, username, deviceId, byLink, byEmail), deviceId)
  {
    hide TokensUnique, OneOwner;
  }

  /** A confirmation token works once, before its expiry, for the unbanned user it was made for, and
      confirms that user alone. */
  lemma ConfirmsOnce(s: State, token: string, now: int, byToken: Option<Id>)
    requires Reachable(s) && ByToken(s, token, byToken)
    ensures var (t, answer) := Confirm(s, now, byToken);
            (answer == Success <==>
               byToken.Some? && byToken.value !in s.banned && now <= s.tokens[byToken.value].expiredAt) &&
            (answer == Success ==> TokenFree(t, token) && IsConfirmed(t, byToken.value)) &&
            (forall u :: u in s.users && byToken != Some(u) ==> u in t.users && t.users[u] == s.users[u]) &&
            (answer != Success ==> t == s)
  {
    hide LinkedConfirmed, OneOwner;
  }

  // ------------------------------------------------ runs

  /** The states of a run, starting empty: each event's lookups were answered by the state before it. */
  ghost predicate IsRun(states: seq<State>, events: seq<Event>) {
    |states| == |events| + 1 && states[0] == EMPTY &&
    forall k :: 0 <= k < |events| ==> IsStep(states[k], events[k], states[k + 1])
  }

  ghost predicate IsStep(s: State, e: Event, t: State) { RefsOk(s) && Looked(s, e) && t == Step(s, e).0 }

  lemma RunStarts(states: seq<State>, events: seq<Event>)
    requires IsRun(states, events)
    ensures |states| == |events| + 1 && Reachable(states[0])
  {
  }

  lemma RunSteps(states: seq<State>, events: seq<Event>, k: nat)
    requires IsRun(states, events) && k < |events|
    ensures |states| == |events| + 1 && IsStep(states[k], events[k], states[k + 1])
  {
    hide IsStep;
  }

  lemma StepIs(s: State, e: Event, t: State)
    requires IsStep(s, e, t)
    ensures Looked(s, e) && t == Step(s, e).0
  {
    hide Looked, Step;
  }

  /** In every run linked users and users with a session are confirmed, and no external id belongs to
      two users. */
  lemma {:induction false} RunIsReachable(states: seq<State>, events: seq<Event>, k: nat)
    requires IsRun(states, events) && k <= |events|
    ensures k < |states| && Reachable(states[k])
  {
    hide *;
    RunStarts(states, events);
    if k > 0 {
      RunSteps(states, events, k - 1);
      RunIsReachable(states, events, k - 1);
      StepIs(states[k - 1], events[k - 1], states[k]);
      StepKeeps(states[k - 1], events[k - 1], "");
    }
  }

  lemma {:induction false} KeptForever(states: seq<State>, events: seq<Event>, i: nat, j: nat, u: Id)
    requires IsRun(states, events) && i <= j <= |events|
    ensures Keeps(states[i], states[j], u)
    decreases j - i
  {
    hide Keeps, Step, Reachable;
    if i == j {
      KeepsSelf(states[i], u);
    } else {
      KeptForever(states, events, i, j - 1, u);
      RunIsReachable(states, events, j - 1);
      assert IsStep(states[j - 1], events[j - 1], states[j - 1 + 1]);
      StepKeeps(states[j - 1], events[j - 1], u);
      KeepsTrans(states[i], states[j - 1], states[j], u);
    }
  }

  /** Once confirmed, an account and its links survive every later step of the run. */
  lemma ConfirmedForever(states: seq<State>, events: seq<Event>, i: nat, j: nat, u: Id)
    requires IsRun(states, events) && i <= j <= |events| && IsConfirmed(states[i], u)
    ensures IsConfirmed(states[j], u)
    ensures forall p: Provider ::
              u in Links(states[i], p) ==> u in Links(states[j], p) && Links(states[j], p)[u] == Links(states[i], p)[u]
  {
    KeptForever(states, events, i, j, u);
  }

  /** Who the k-th event, a successful sign-in, signed in. */
  ghost predicate SignedInAs(states: seq<State>, events: seq<Event>, k: nat, u: Id)
    requires IsRun(states, events)
  {
    k < |events| && events[k].SignsIn? && IsStep(states[k], events[k], states[k + 1])
    && Step(states[k], events[k]).2 == Some(u)
  }

  /** A Google sub or a GitHub id signs in as the same user whenever it signs in. */
  lemma SameUserForever(states: seq<State>, events: seq<Event>, i: nat, j: nat, u: Id, v: Id)
    requires IsRun(states, events) && i < j && SignedInAs(states, events, i, u) && SignedInAs(states, events, j, v)
    requires events[i].profile.provider == events[j].profile.provider
    requires events[i].profile.externalId == events[j].profile.externalId
    ensures u == v
  {
    var p, x := events[i].profile.provider, events[i].profile.externalId;
    RunIsReachable(states, events, i);
    RunIsReachable(states, events, i + 1);
    RunIsReachable(states, events, j);
    LinkAfterSignIn(states[i], events[i], states[i + 1], u);
    KeptForever(states, events, i + 1, j, u);
    assert u in Links(states[j], p) && Links(states[j], p)[u] == x;
    hide IsRun;
    LinkDecides(states[j], events[j], states[j + 1], u, v);
  }

  lemma LinkAfterSignIn(s: State, e: Event, t: State, u: Id)
    requires Reachable(s) && e.SignsIn? && IsStep(s, e, t) && Step(s, e).2 == Some(u)
    ensures u in Links(t, e.profile.provider) && Links(t, e.profile.provider)[u] == e.profile.externalId
            && IsConfirmed(t, u)
  {
    SignInKeeps(s, e.profile, e.newId, e.username, e.deviceId, e.byLink, e.byEmail, u);
    hide SignIn;
  }

  lemma LinkDecides(s: State, e: Event, t: State, u: Id, v: Id)
    requires Reachable(s) && e.SignsIn? && IsStep(s, e, t) && Step(s, e).2 == Some(v)
    requires u in Links(s, e.profile.provider) && Links(s, e.profile.provider)[u] == e.profile.externalId
    ensures u == v
  {
    SignInKeeps(s, e.profile, e.newId, e.username, e.deviceId, e.byLink, e.byEmail, u);
    hide SignIn;
    assert e.byLink.Some?;
  }
}
