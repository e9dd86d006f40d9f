/** What each session and reset command answers and stores, and whose password hash a run leaves. */
module SessionOutcomes {
  import opened Tables
  import opened Sessions
  import opened SessionRuns

  // ------------------------------------------------ sessions

  /** Nothing but the sessions differs, and these only on `touched`. */
  ghost predicate OnlySessions(s: State, t: State, touched: set<Id>) {
    t.users == s.users && t.banned == s.banned && t.codes == s.codes &&
    forall d :: d !in touched ==>
      (d in t.sessions <==> d in s.sessions) && (d in s.sessions ==> t.sessions[d] == s.sessions[d])
  }

  /** Opening a session needs a known user and a free device id; the token issued is the session's. */
  lemma OpeningOutcome(s: State, userId: Id, deviceId: Id, now: int)
    ensures var r := CreateSession(s, userId, deviceId, now);
            (r.answer == Success <==> userId in s.users && deviceId !in s.sessions) &&
            if r.answer == Success then
              OnlySessions(s, r.state, {deviceId}) && deviceId in r.state.sessions &&
              r.state.sessions[deviceId] == Session(userId, now / 1000 * 1000) &&
              r.issued == Some(Refresh(userId, deviceId, now / 1000))
            else r.state == s && r.issued == None
  {
  }

  /** Renewing needs an accepted token; it dates this device's session by the new token and touches no other. */
  lemma RenewalOutcome(s: State, t: Refresh, now: int)
    ensures var r := Renew(s, t, now);
            (r.answer == Success <==> Accepts(s, t)) &&
            if r.answer == Success then
              OnlySessions(s, r.state, {t.deviceId}) && t.deviceId in r.state.sessions &&
              r.state.sessions[t.deviceId] == Session(t.userId, now / 1000 * 1000) &&
              r.issued == Some(Refresh(t.userId, t.deviceId, now / 1000))
            else r.state == s && r.issued == None && r.answer == Unauthorized
  {
  }

  /** Logging out needs an accepted token and ends this device's session alone. */
  lemma LogoutOutcome(s: State, t: Refresh)
    ensures var r := Logout(s, t);
            r.issued == None && (r.answer == Success <==> Accepts(s, t)) &&
            if r.answer == Success then OnlySessions(s, r.state, {t.deviceId}) && t.deviceId !in r.state.sessions
            else r.state == s && r.answer == Unauthorized
  {
  }

  /** A user ends the session of a device only if it is the user's own: an unknown device is not found, and
      another user's is forbidden. */
  lemma TerminationOutcome(s: State, t: Refresh, deviceId: Id)
    ensures var r := Terminate(s, t, deviceId);
            r.issued == None &&
            (r.answer == Unauthorized <==> !Accepts(s, t)) &&
            (r.answer == NotFound <==> Accepts(s, t) && deviceId !in s.sessions) &&
            (r.answer == Forbidden <==>
               Accepts(s, t) && deviceId in s.sessions && s.sessions[deviceId].userId != t.userId) &&
            (r.answer == Success <==>
               Accepts(s, t) && deviceId in s.sessions && s.sessions[deviceId].userId == t.userId) &&
            if r.answer == Success then OnlySessions(s, r.state, {deviceId}) && deviceId !in r.state.sessions
            else r.state == s
  {
    hide Accepts;
  }

  function OtherDevices(s: State, t: Refresh): set<Id> {
    set d | d in s.sessions && s.sessions[d].userId == t.userId && d != t.deviceId
  }

  /** Ending the other sessions needs one; then exactly the user's sessions on other devices go. */
  lemma OthersOutcome(s: State, t: Refresh)
    ensures var r := TerminateOthers(s, t);
            r.issued == None &&
            (r.answer == Unauthorized <==> !Accepts(s, t)) &&
            (r.answer == NotFound <==> Accepts(s, t) && OtherDevices(s, t) == {}) &&
            (r.answer == Success <==> Accepts(s, t) && OtherDevices(s, t) != {}) &&
            if r.answer == Success then
              OnlySessions(s, r.state, OtherDevices(s, t)) &&
              forall d :: d in r.state.sessions ==> s.sessions[d].userId != t.userId || d == t.deviceId
            else r.state == s
  {
    hide Accepts;
    assert DevicesOf(s, t.userId) - {t.deviceId} == OtherDevices(s, t);
  }

  // ------------------------------------------------ reset codes

  /** Asking for a code needs a known unbanned user and an unused code; the user's one code is then this one. */
  lemma AskingOutcome(s: State, found: Option<Id>, code: string, now: int, ttl: int)
    ensures var r := AskReset(s, found, code, now, ttl);
            var used := exists u :: u in s.codes && s.codes[u].code == code;
            r.issued == None &&
            (r.answer == NotFound <==> found == None) &&
            (r.answer == Unauthorized <==> found.Some? && found.value in s.banned) &&
            (r.answer == Success <==> found.Some? && found.value !in s.banned && !used) &&
            if r.answer == Success then
              r.state == State(s.users, s.banned, s.sessions, s.codes[found.value := Code(code, now + ttl)])
            else r.state == s
  {
  }

  /** A user whose unexpired code is given and who is not banned. */
  predicate MayReset(s: State, now: int, byCode: Option<Id>) {
    byCode.Some? && byCode.value in s.codes && byCode.value !in s.banned && now <= s.codes[byCode.value].expiredAt
  }

  /** A reset goes through exactly then. It stores the new password hash for that user alone, uses the code up
      and ends all of the user's sessions; a refusal stores nothing. */
  lemma ResetOutcome(s: State, code: string, hash: string, now: int, byCode: Option<Id>)
    requires HasCode(s, code, byCode)
    ensures var r := ConfirmReset(s, hash, now, byCode);
            r.issued == None &&
            (r.answer == Success <==> MayReset(s, now, byCode)) &&
            (r.answer == Unauthorized <==> byCode.Some? && byCode.value in s.banned) &&
            if r.answer == Success then
              var u := byCode.value;
              r.state.users == s.users[u := Some(hash)] && r.state.banned == s.banned
              && r.state.codes == s.codes - {u} &&
              (forall d :: d in r.state.sessions <==> d in s.sessions && s.sessions[d].userId != u) &&
              (forall d :: d in r.state.sessions ==> r.state.sessions[d] == s.sessions[d])
            else r.state == s
  {
  }

  // ------------------------------------------------ the password over a run

  /** The password hash by the commands alone: the one of the latest reset that went through for the user, or
      the one given at sign-up when there was none. */
  function LatestHash(events: seq<Event>, u: Id): Option<Option<string>> {
    if events == [] then None
    else
      var before, e := events[..|events| - 1], events[|events| - 1];
      match e
      case ConfirmsReset(_, hash, byCode, now) =>
        if byCode == Some(u) && MayReset(Run(before), now, byCode) then Some(Some(hash)) else LatestHash(before, u)
      case SignsUp(v, hash, _) =>
        if v == u && LatestHash(before, u) == None then Some(hash) else LatestHash(before, u)
      case _ => LatestHash(before, u)
  }

  lemma OnlyTheseSetHashes(s: State, e: Event)
    requires !e.ConfirmsReset? && !e.SignsUp?
    ensures Step(s, e).state.users == s.users
  {
  }

  lemma HashAfter(s: State, e: Event, u: Id)
    requires e.ConfirmsReset? ==> HasCode(s, e.code, e.byCode)
    ensures var t := Step(s, e).state;
            var reset := e.ConfirmsReset? && e.byCode == Some(u) && MayReset(s, e.now, e.byCode);
            var signedUp := e.SignsUp? && e.user == u && u !in s.users;
            (u in t.users <==> reset || signedUp || u in s.users) &&
            (u in t.users ==> t.users[u] == if reset then Some(e.hash) else if signedUp then e.passwordHash
              else s.users[u])
  {
    if e.ConfirmsReset? {
      ResetOutcome(s, e.code, e.hash, e.now, e.byCode);
      hide ConfirmReset;
    } else if !e.SignsUp? {
      OnlyTheseSetHashes(s, e);
      hide Step;
    }
  }

  /** In every run a user is known exactly after a sign-up, and the stored password hash is that of the latest
      reset that went through, or else the one given at sign-up. */
  lemma {:induction false} PasswordIsLatest(events: seq<Event>, u: Id)
    requires Possible(events)
    ensures u in Run(events).users <==> LatestHash(events, u).Some?
    ensures u in Run(events).users ==> LatestHash(events, u) == Some(Run(events).users[u])
    decreases |events|
  {
    if events != [] {
      var before, e := events[..|events| - 1], events[|events| - 1];
      PossibleInit(events);
      PasswordIsLatest(before, u);
      assert Run(events) == Step(Run(before), e).state;
      hide Step, Run, Possible, MayReset;
      HashAfter(Run(before), e, u);
    }
  }

  /** No reset without the code: a user's hash changes in a step only if that step gave the user's unexpired
      code, which the user had asked for. */
  lemma HashChangesByCode(events: seq<Event>, k: nat, u: Id) returns (asked: nat)
    requires Possible(events) && k < |events| && u in Run(events[..k]).users
    requires Step(Run(events[..k]), events[k]).state.users[u] != Run(events[..k]).users[u]
    ensures events[k].ConfirmsReset? && asked < k && AskedAt(events[..k], asked, u, events[k].code)
    ensures events[k].now <= events[asked].now + events[asked].ttl
  {
    PossiblePrefix(events, k + 1);
    PossiblePrefix(events, k);
    assert events[..k + 1][..k] == events[..k];
    PossibleInit(events[..k + 1]);
    HashAfter(Run(events[..k]), events[k], u);
    hide Run, Step, Possible;
    asked := CodeOrigin(events[..k], u);
  }
}
