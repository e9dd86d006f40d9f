/** Refresh tokens and reset codes over whole runs. */
module SessionRuns {
  import opened Tables
  import opened Sessions

  datatype Event =
    | LogsIn(userId: Id, deviceId: Id, now: int)
    | Renews(token: Refresh, now: int)
    | LogsOut(token: Refresh, now: int)
    | Terminates(token: Refresh, deviceId: Id, now: int)
    | TerminatesOthers(token: Refresh, now: int)
    | AsksReset(found: Option<Id>, code: string, ttl: int, now: int)
    | ConfirmsReset(code: string, hash: string, byCode: Option<Id>, now: int)
    | Bans(user: Id, now: int)
    | Unbans(user: Id, now: int)
    | SignsUp(user: Id, passwordHash: Option<string>, now: int)

  const EMPTY := State(map[], {}, map[], map[])

  function Step(s: State, e: Event): Reply {
    match e
    case LogsIn(u, d, now) => CreateSession(s, u, d, now)
    case Renews(t, now) => Renew(s, t, now)
    case LogsOut(t, _) => Logout(s, t)
    case Terminates(t, d, _) => Terminate(s, t, d)
    case TerminatesOthers(t, _) => TerminateOthers(s, t)
    case AsksReset(found, code, ttl, now) =>
      AskReset(s, if found.Some? && found.value in s.users then found else None, code, now, ttl)
    case ConfirmsReset(_, hash, byCode, now) =>
      if byCode.Some? && byCode.value !in s.codes then Reply(s, InternalError, None)
        else ConfirmReset(s, hash, now, byCode)
    case Bans(u, _) => Reply(if u in s.users then s.(banned := s.banned + {u}) else s, Success, None)
    case Unbans(u, _) => Reply(s.(banned := s.banned - {u}), Success, None)
    case SignsUp(u, hash, _) => Reply(if u in s.users then s else s.(users := s.users[u := hash]), Success, None)
  }

  function Run(events: seq<Event>): State {
    if events == [] then EMPTY else Step(Run(events[..|events| - 1]), events[|events| - 1]).state
  }

  // ------------------------------------------------ possible runs

  predicate UsedDevice(events: seq<Event>, d: Id) {
    events != [] && (UsedDevice(events[..|events| - 1], d)
    || (events[|events| - 1].LogsIn? && events[|events| - 1].deviceId == d))
  }

  predicate UsedCode(events: seq<Event>, c: string) {
    events != [] && (UsedCode(events[..|events| - 1], c)
    || (events[|events| - 1].AsksReset? && events[|events| - 1].code == c))
  }

  /** The clock does not go back, device ids and codes are random and so fresh, and a reset code is
      looked up in the state it meets. */
  predicate Possible(events: seq<Event>) {
    events == [] ||
    (var before, e := events[..|events| - 1], events[|events| - 1];
     Possible(before) && (before != [] ==> before[|before| - 1].now <= e.now) &&
     (e.LogsIn? ==> !UsedDevice(before, e.deviceId)) && (e.AsksReset? ==> !UsedCode(before, e.code)) &&
     (e.ConfirmsReset? ==> HasCode(Run(before), e.code, e.byCode)))
  }

  /** The token was issued during the run. */
  predicate Issued(events: seq<Event>, t: Refresh) {
    events != [] && (Issued(events[..|events| - 1], t)
    || Step(Run(events[..|events| - 1]), events[|events| - 1]).issued == Some(t))
  }

  lemma PossibleInit(events: seq<Event>)
    requires events != [] && Possible(events)
    ensures var before, e := events[..|events| - 1], events[|events| - 1];
            Possible(before) && (before != [] ==> before[|before| - 1].now <= e.now) &&
            (e.LogsIn? ==> !UsedDevice(before, e.deviceId)) && (e.AsksReset? ==> !UsedCode(before, e.code)) &&
            (e.ConfirmsReset? ==> HasCode(Run(before), e.code, e.byCode))
  {
    hide Run, UsedDevice, UsedCode;
  }

  // ------------------------------------------------ tokens and sessions

  /** How an issued token relates to its device's session. */
  ghost predicate Tracked(s: State, used: bool, now: int, t: Refresh) {
    used && t.iat <= IssuedAt(now) &&
    (t.deviceId in s.sessions ==>
       s.sessions[t.deviceId].userId == t.userId && t.iat * 1000 <= s.sessions[t.deviceId].lastActive)
  }

  /** Every session's device id has been used. */
  lemma {:induction false} SessionUsed(events: seq<Event>, d: Id)
    requires d in Run(events).sessions
    ensures UsedDevice(events, d)
    decreases |events|
  {
    if events != [] {
      var before := events[..|events| - 1];
      if d in Run(before).sessions { SessionUsed(before, d); }
    }
  }

  /** One step changes a session only by renewing it, and creates one only at a login. */
  lemma StepSession(s: State, e: Event, d: Id)
    ensures var t := Step(s, e).state;
            d in t.sessions ==>
              (d in s.sessions && t.sessions[d] == s.sessions[d])
              || (e.LogsIn? && e.deviceId == d && d !in s.sessions
                 && t.sessions[d] == Session(e.userId, IssuedAt(e.now) * 1000)
                  && Step(s, e).issued == Some(Refresh(e.userId, d, IssuedAt(e.now))))
              || (e.Renews? && e.token.deviceId == d && d in s.sessions && Accepts(s, e.token)
                  && t.sessions[d] == Session(s.sessions[d].userId, IssuedAt(e.now) * 1000)
                  && Step(s, e).issued == Some(Refresh(s.sessions[d].userId, d, IssuedAt(e.now))))
  {
  }

  lemma StepIssues(s: State, e: Event, t: Refresh)
    requires Step(s, e).issued == Some(t)
    ensures t.iat == IssuedAt(e.now) && t.deviceId in Step(s, e).state.sessions
    ensures Step(s, e).state.sessions[t.deviceId] == Session(t.userId, t.iat * 1000)
    ensures (e.LogsIn? && e.deviceId == t.deviceId) || (t.deviceId in s.sessions && e.Renews?)
  {
  }

  lemma SecondsGrow(a: int, b: int)
    requires a <= b
    ensures IssuedAt(a) <= IssuedAt(b)
  {
  }

  function Now(events: seq<Event>): int { if events == [] then 0 else events[|events| - 1].now }

  lemma {:induction false} TokenTracked(events: seq<Event>, t: Refresh)
    requires Possible(events) && Issued(events, t)
    ensures Tracked(Run(events), UsedDevice(events, t.deviceId), Now(events), t)
    decreases |events|
  {
    var before, e := events[..|events| - 1], events[|events| - 1];
    PossibleInit(events);
    var s := Run(before);
    StepSession(s, e, t.deviceId);
    if Step(s, e).issued == Some(t) {
      StepIssues(s, e, t);
      if t.deviceId in s.sessions { SessionUsed(before, t.deviceId); }
    } else {
      TokenTracked(before, t);
      SecondsGrow(Now(before), e.now);
      hide Step, IssuedAt, Possible;
    }
  }

  /** A live session dates from the newest token issued for its device. */
  lemma {:induction false} SessionIsNewest(events: seq<Event>, d: Id)
    requires Possible(events) && d in Run(events).sessions
    ensures var x := Run(events).sessions[d];
            x.lastActive == x.lastActive / 1000 * 1000 && Issued(events, Refresh(x.userId, d, x.lastActive / 1000))
    decreases |events|
  {
    var before, e := events[..|events| - 1], events[|events| - 1];
    PossibleInit(events);
    StepSession(Run(before), e, d);
    hide Step, Possible;
    if d in Run(before).sessions && Run(events).sessions[d] == Run(before).sessions[d] { SessionIsNewest(before, d); }
  }

  /** The newest token issued for the device so far. */
  ghost predicate Newest(events: seq<Event>, t: Refresh) {
    Issued(events, t) && forall x :: Issued(events, x) && x.deviceId == t.deviceId ==> x.iat <= t.iat
  }

  /** In every run an issued token is accepted if and only if its session is still there, its user
      exists unbanned, and no token with a later "iat" was issued for the device. */
  lemma AcceptedIffNewest(events: seq<Event>, t: Refresh)
    requires Possible(events) && Issued(events, t)
    ensures var s := Run(events);
            Accepts(s, t) <==>
              t.deviceId in s.sessions && t.userId in s.users && t.userId !in s.banned && Newest(events, t)
  {
    var s := Run(events);
    TokenTracked(events, t);
    hide Run, Possible, Issued, UsedDevice;
    if t.deviceId in s.sessions {
      var x := s.sessions[t.deviceId];
      SessionIsNewest(events, t.deviceId);
      var newest := Refresh(x.userId, t.deviceId, x.lastActive / 1000);
      TokenTracked(events, newest);
      forall y | Issued(events, y) && y.deviceId == t.deviceId ensures y.iat <= newest.iat { TokenTracked(events, y); }
      assert x.lastActive == t.iat * 1000 <==> t.iat == newest.iat;
    }
  }

  /** The tokens a successful logout, termination or reset ends. */
  predicate Ends(e: Event, x: Refresh) {
    match e
    case LogsOut(t, _) => x.deviceId == t.deviceId
    case Terminates(_, d, _) => x.deviceId == d
    case TerminatesOthers(t, _) => x.userId == t.userId && x.deviceId != t.deviceId
    case ConfirmsReset(_, _, byCode, _) => byCode == Some(x.userId)
    case _ => false
  }

  /** Such a command ends exactly the tokens it is meant to end: all others are accepted as before. */
  lemma SignedOutExactly(s: State, e: Event, x: Refresh)
    requires e.LogsOut? || e.Terminates? || e.TerminatesOthers? || e.ConfirmsReset?
    requires Step(s, e).answer == Success
    ensures Accepts(Step(s, e).state, x) <==> Accepts(s, x) && !Ends(e, x)
  {
    hide IssuedAt;
    match e
    case LogsOut(t, _) =>
    case Terminates(t, d, _) =>
    case TerminatesOthers(t, _) =>
    case ConfirmsReset(_, _, byCode, _) =>
  }

  // ------------------------------------------------ forever

  lemma {:induction false} IssuedStays(events: seq<Event>, i: nat, t: Refresh)
    requires i <= |events| && Issued(events[..i], t)
    ensures Issued(events, t)
    decreases |events|
  {
    if i == |events| {
      assert events[..i] == events;
    } else {
      assert events[..|events| - 1][..i] == events[..i];
      IssuedStays(events[..|events| - 1], i, t);
    }
  }

  lemma {:induction false} PossiblePrefix(events: seq<Event>, i: nat)
    requires i <= |events| && Possible(events)
    ensures Possible(events[..i])
    decreases |events|
  {
    if i == |events| {
      assert events[..i] == events;
    } else {
      assert events[..|events| - 1][..i] == events[..i];
      PossibleInit(events);
      PossiblePrefix(events[..|events| - 1], i);
    }
  }

  /** Once a newer token exists for the device, an older one is never accepted again. Tokens issued in
      the same second are the same token. */
  lemma SupersededForever(events: seq<Event>, i: nat, t: Refresh, newer: Refresh)
    requires Possible(events) && i <= |events| && Issued(events[..i], t) && Issued(events[..i], newer)
    requires t.deviceId == newer.deviceId && t.iat <= newer.iat && t != newer
    ensures !Accepts(Run(events), t)
  {
    IssuedStays(events, i, t);
    IssuedStays(events, i, newer);
    PossiblePrefix(events, i);
    hide Run, Possible, Issued, UsedDevice;
    if t.deviceId in Run(events).sessions {
      TokenTracked(events, t);
      TokenTracked(events, newer);
    }
  }

  lemma {:induction false} UsedStays(events: seq<Event>, i: nat, d: Id)
    requires i <= |events| && UsedDevice(events[..i], d)
    ensures UsedDevice(events, d)
    decreases |events|
  {
    if i == |events| {
      assert events[..i] == events;
    } else {
      assert events[..|events| - 1][..i] == events[..i];
      UsedStays(events[..|events| - 1], i, d);
    }
  }

  /** A device whose session has gone never gets one again. */
  lemma {:induction false} GoneForever(events: seq<Event>, i: nat, d: Id)
    requires Possible(events) && i <= |events| && UsedDevice(events[..i], d) && d !in Run(events[..i]).sessions
    ensures d !in Run(events).sessions
    decreases |events|
  {
    if i == |events| {
      assert events[..i] == events;
    } else {
      var before, e := events[..|events| - 1], events[|events| - 1];
      assert before[..i] == events[..i];
      PossibleInit(events);
      GoneForever(before, i, d);
      UsedStays(before, i, d);
      StepSession(Run(before), e, d);
    }
  }

  /** After a logout, a termination or a password reset has ended a device's session, no token issued
      for the device before is accepted in any later state. */
  lemma EndedForever(events: seq<Event>, i: nat, t: Refresh)
    requires Possible(events) && i <= |events| && Issued(events[..i], t) && t.deviceId !in Run(events[..i]).sessions
    ensures !Accepts(Run(events), t)
  {
    PossiblePrefix(events, i);
    TokenTracked(events[..i], t);
    hide Run, Possible, Issued, UsedDevice;
    GoneForever(events, i, t.deviceId);
  }

  // ------------------------------------------------ reset codes

  /** The k-th event is a successful reset with this code. */
  predicate ResetAt(events: seq<Event>, k: nat, code: string) {
    k < |events| && events[k].ConfirmsReset? && events[k].code == code
    && Step(Run(events[..k]), events[k]).answer == Success
  }

  /** The k-th event gave the user this code. */
  predicate AskedAt(events: seq<Event>, k: nat, u: Id, code: string) {
    k < |events| && events[k].AsksReset? && events[k].found == Some(u) && events[k].code == code
    && Step(Run(events[..k]), events[k]).answer == Success
  }

  /** The ask that put the user's present code into the table; no later one replaced it. */
  lemma {:induction false} CodeOrigin(events: seq<Event>, u: Id) returns (k: nat)
    requires Possible(events) && u in Run(events).codes
    ensures var c := Run(events).codes[u];
            AskedAt(events, k, u, c.code) && c.expiredAt == events[k].now + events[k].ttl
            && (forall j :: k < j < |events| ==> !AskedAnyAt(events, j, u))
    decreases |events|
  {
    var before, e := events[..|events| - 1], events[|events| - 1];
    var m := |before|;
    PossibleInit(events);
    StepCode(Run(before), e, u);
    assert events[..m] == before;
    if e.AsksReset? && e.found == Some(u) && Step(Run(before), e).answer == Success {
      k := m;
    } else {
      k := CodeOrigin(before, u);
      hide Step, Run, Possible;
      assert events[..k] == before[..k];
      forall j | k < j < |events| ensures !AskedAnyAt(events, j, u) {
        if j < m { assert events[..j] == before[..j] && !AskedAnyAt(before, j, u); }
      }
    }
  }

  predicate AskedAnyAt(events: seq<Event>, k: nat, u: Id) {
    k < |events| && events[k].AsksReset? && events[k].found == Some(u)
    && Step(Run(events[..k]), events[k]).answer == Success
  }

  lemma StepCode(s: State, e: Event, u: Id)
    requires u in Step(s, e).state.codes
    ensures if e.AsksReset? && e.found == Some(u) && Step(s, e).answer == Success
            then Step(s, e).state.codes[u] == Code(e.code, e.now + e.ttl)
            else u in s.codes && Step(s, e).state.codes[u] == s.codes[u]
  {
  }

  /** A successful reset used the newest code issued to its user, before that code's expiry. */
  lemma ResetUsesNewest(events: seq<Event>, k: nat, code: string) returns (u: Id, asked: nat)
    requires Possible(events) && ResetAt(events, k, code)
    ensures events[k].byCode == Some(u) && asked < k && AskedAt(events[..k], asked, u, code)
    ensures events[k].now <= events[asked].now + events[asked].ttl
    ensures forall j :: asked < j < k ==> !AskedAnyAt(events[..k], j, u)
  {
    PossiblePrefix(events, k);
    PossiblePrefix(events, k + 1);
    assert events[..k + 1][..k] == events[..k];
    PossibleInit(events[..k + 1]);
    u := events[k].byCode.value;
    asked := CodeOrigin(events[..k], u);
  }

  /** A code that is not in the table was never issued, was replaced, or was used up: it stays out. */
  lemma {:induction false} CodeGone(events: seq<Event>, i: nat, code: string)
    requires Possible(events) && i <= |events| && UsedCode(events[..i], code) && CodeFree(Run(events[..i]), code)
    ensures CodeFree(Run(events), code)
    decreases |events|
  {
    if i == |events| {
      assert events[..i] == events;
    } else {
      var before, e := events[..|events| - 1], events[|events| - 1];
      assert before[..i] == events[..i];
      PossibleInit(events);
      CodeGone(before, i, code);
      UsedCodeStays(before, i, code);
      FreeAfter(Run(before), e, code);
    }
  }

  lemma FreeAfter(s: State, e: Event, code: string)
    requires CodeFree(s, code) && (e.AsksReset? ==> e.code != code)
    ensures CodeFree(Step(s, e).state, code)
  {
  }

  lemma {:induction false} UsedCodeStays(events: seq<Event>, i: nat, code: string)
    requires i <= |events| && UsedCode(events[..i], code)
    ensures UsedCode(events, code)
    decreases |events|
  {
    if i == |events| {
      assert events[..i] == events;
    } else {
      assert events[..|events| - 1][..i] == events[..i];
      UsedCodeStays(events[..|events| - 1], i, code);
    }
  }

  ghost predicate CodesUnique(s: State) {
    forall u, v :: u in s.codes && v in s.codes && s.codes[u].code == s.codes[v].code ==> u == v
  }

  lemma {:induction false} CodesAreUnique(events: seq<Event>)
    requires Possible(events)
    ensures CodesUnique(Run(events))
    decreases |events|
  {
    if events != [] {
      PossibleInit(events);
      CodesAreUnique(events[..|events| - 1]);
    }
  }

  lemma {:induction false} CodeUsed(events: seq<Event>, u: Id)
    requires u in Run(events).codes
    ensures UsedCode(events, Run(events).codes[u].code)
    decreases |events|
  {
    if events != [] {
      var before, e := events[..|events| - 1], events[|events| - 1];
      StepCode(Run(before), e, u);
      if u in Run(before).codes && Run(events).codes[u] == Run(before).codes[u] { CodeUsed(before, u); }
    }
  }

  lemma AfterReset(s: State, e: Event)
    requires e.ConfirmsReset? && HasCode(s, e.code, e.byCode) && CodesUnique(s) && Step(s, e).answer == Success
    ensures CodeFree(Step(s, e).state, e.code)
    ensures e.byCode.Some?
    ensures forall d :: d in Step(s, e).state.sessions ==> Step(s, e).state.sessions[d].userId != e.byCode.value
  {
  }

  lemma ResetFacts(events: seq<Event>, k: nat, code: string)
    requires Possible(events) && ResetAt(events, k, code)
    ensures Possible(events[..k]) && Possible(events[..k + 1]) && HasCode(Run(events[..k]), code, events[k].byCode)
    ensures Run(events[..k + 1]) == Step(Run(events[..k]), events[k]).state
    ensures events[..k + 1][..k] == events[..k]
  {
    PossiblePrefix(events, k);
    PossiblePrefix(events, k + 1);
    assert events[..k + 1][..k] == events[..k];
    PossibleInit(events[..k + 1]);
  }

  lemma FreeFails(s: State, e: Event)
    requires e.ConfirmsReset? && CodeFree(s, e.code) && HasCode(s, e.code, e.byCode)
    ensures Step(s, e).answer != Success
  {
  }

  lemma FreeAfterReset(events: seq<Event>, i: nat, j: nat, code: string)
    requires Possible(events) && i < j <= |events| && ResetAt(events, i, code)
    ensures CodeFree(Run(events[..j]), code)
  {
    ResetFacts(events, i, code);
    PossiblePrefix(events, j);
    CodesAreUnique(events[..i]);
    var s := Run(events[..i]);
    AfterReset(s, events[i]);
    CodeUsed(events[..i], events[i].byCode.value);
    assert events[..j][..i + 1] == events[..i + 1] && events[..i + 1][..i] == events[..i];
    hide Run, Possible, Step;
    UsedCodeStays(events[..i + 1], i, code);
    CodeGone(events[..j], i + 1, code);
  }

  /** A reset code succeeds at most once: after its success it fails at every later event. */
  lemma ResetOnce(events: seq<Event>, i: nat, j: nat, code: string)
    requires Possible(events) && i < j < |events| && ResetAt(events, i, code)
    ensures !ResetAt(events, j, code)
  {
    FreeAfterReset(events, i, j, code);
    PossiblePrefix(events, j + 1);
    assert events[..j + 1][..j] == events[..j];
    PossibleInit(events[..j + 1]);
    hide Run, Possible, Step, CodeFree;
    if events[j].ConfirmsReset? && events[j].code == code { FreeFails(Run(events[..j]), events[j]); }
  }

  /** After a successful reset no refresh token issued earlier to that user is ever accepted again. */
  lemma ResetEndsOldTokens(events: seq<Event>, k: nat, code: string, t: Refresh)
    requires Possible(events) && ResetAt(events, k, code) && Issued(events[..k], t)
             && events[k].byCode == Some(t.userId)
    ensures !Accepts(Run(events), t)
  {
    ResetFacts(events, k, code);
    CodesAreUnique(events[..k]);
    AfterReset(Run(events[..k]), events[k]);
    hide Run, Possible, Step, UsedDevice;
    IssuedStays(events[..k + 1], k, t);
    TokenTracked(events[..k + 1], t);
    EndedForever(events, k + 1, t);
  }
}
