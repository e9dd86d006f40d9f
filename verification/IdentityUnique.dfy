/** Emails and usernames, which no column makes unique: exactly which steps keep them so. */
module IdentityUnique {
  import opened Tables
  import opened Identities
  import opened IdentityRuns

  ghost predicate EmailsUnique(s: State) {
    forall u, v :: u in s.users && v in s.users && s.users[u].email == s.users[v].email ==> u == v
  }

  ghost predicate NamesUnique(s: State) {
    forall u, v :: u in s.users && v in s.users && s.users[u].username == s.users[v].username ==> u == v
  }

  /** The users after a successful registration. */
  lemma RegisteredUsers(s: State, email: string, username: string, token: Token, newId: Id, byEmail: Option<Id>,
      byName: Option<Id>)
    requires Register(s, email, username, token, newId, byEmail, byName).1 == Success
    ensures var t := Register(s, email, username, token, newId, byEmail, byName).0;
            var gone := ToDelete(byEmail, byName);
            var rest := if gone.Some? then s.users - {gone.value} else s.users;
            newId !in rest && t.users == rest[newId := User(email, username, false)]
  {
    hide Confirmed, TokenFree;
  }

  lemma NewUserUnique(s: State, rest: map<Id, User>, newId: Id, email: string, username: string, byEmail: Option<Id>,
      byName: Option<Id>, t: State)
    requires EmailsUnique(s) && NamesUnique(s) && ByEmail(s, email, byEmail) && ByUsername(s, username, byName)
    requires var gone := ToDelete(byEmail, byName); rest == (if gone.Some? then s.users - {gone.value} else s.users)
    requires newId !in rest && t.users == rest[newId := User(email, username, false)]
    ensures NamesUnique(t)
    ensures EmailsUnique(t) <==> !(byEmail.Some? && byName.Some? && byEmail != byName)
  {
    NewNames(s, rest, newId, email, username, byEmail, byName, t);
    if byEmail.Some? && byName.Some? && byEmail != byName {
      hide NamesUnique;
      assert byEmail.value in rest && t.users[byEmail.value].email == t.users[newId].email;
    } else {
      NewEmails(s, rest, newId, email, username, byEmail, byName, t);
      hide NamesUnique, EmailsUnique;
    }
  }

  lemma NewNames(s: State, rest: map<Id, User>, newId: Id, email: string, username: string, byEmail: Option<Id>,
      byName: Option<Id>, t: State)
    requires NamesUnique(s) && ByUsername(s, username, byName)
    requires var gone := ToDelete(byEmail, byName); rest == (if gone.Some? then s.users - {gone.value} else s.users)
    requires newId !in rest && t.users == rest[newId := User(email, username, false)]
    ensures NamesUnique(t)
  {
    assert forall u :: u in rest ==> u in s.users && rest[u] == s.users[u] && rest[u].username != username;
  }

  lemma NewEmails(s: State, rest: map<Id, User>, newId: Id, email: string, username: string, byEmail: Option<Id>,
      byName: Option<Id>, t: State)
    requires EmailsUnique(s) && ByEmail(s, email, byEmail) && !(byEmail.Some? && byName.Some? && byEmail != byName)
    requires var gone := ToDelete(byEmail, byName); rest == (if gone.Some? then s.users - {gone.value} else s.users)
    requires newId !in rest && t.users == rest[newId := User(email, username, false)]
    ensures EmailsUnique(t)
  {
    assert forall u :: u in rest ==> u in s.users && rest[u] == s.users[u] && rest[u].email != email;
  }

  /** A registration goes through exactly when nobody it meets is confirmed and its keys are free once
      the account it replaces is gone. */
  predicate GoesThrough(s: State, token: Token, newId: Id, byEmail: Option<Id>, byName: Option<Id>) {
    var gone := ToDelete(byEmail, byName);
    !Confirmed(s, byEmail) && !Confirmed(s, byName) && (newId !in s.users || gone == Some(newId)) &&
    forall u :: u in s.tokens && gone != Some(u) ==> s.tokens[u].token != token.token
  }

  lemma GoesThroughIff(s: State, email: string, username: string, token: Token, newId: Id, byEmail: Option<Id>,
      byName: Option<Id>)
    ensures Register(s, email, username, token, newId, byEmail, byName).1 == Success
            <==> GoesThrough(s, token, newId, byEmail, byName)
    ensures !GoesThrough(s, token, newId, byEmail, byName)
            ==> Register(s, email, username, token, newId, byEmail, byName).0 == s
  {
    hide Confirmed;
    var gone := ToDelete(byEmail, byName);
    if gone.Some? {
      var t := RemoveUser(s, gone.value);
      assert forall u :: u in s.tokens && u != gone.value ==> u in t.tokens && t.tokens[u] == s.tokens[u];
    }
  }

  /** Registration keeps usernames unique. It keeps emails unique if and only if it does not go through
      having met two different accounts, one by email and one by name: it replaces only the one found
      by name, and the other keeps its email. */
  lemma RegistrationUnique(s: State, email: string, username: string, token: Token, newId: Id, byEmail: Option<Id>,
      byName: Option<Id>)
    requires EmailsUnique(s) && NamesUnique(s) && ByEmail(s, email, byEmail) && ByUsername(s, username, byName)
    ensures var t := Register(s, email, username, token, newId, byEmail, byName).0;
            NamesUnique(t) &&
            (EmailsUnique(t) <==>
               !(byEmail.Some? && byName.Some? && byEmail != byName && GoesThrough(s, token, newId, byEmail, byName)))
  {
    var t := Register(s, email, username, token, newId, byEmail, byName).0;
    var gone := ToDelete(byEmail, byName);
    hide *;
    GoesThroughIff(s, email, username, token, newId, byEmail, byName);
    if GoesThrough(s, token, newId, byEmail, byName) {
      RegisteredUsers(s, email, username, token, newId, byEmail, byName);
      var rest := if gone.Some? then s.users - {gone.value} else s.users;
      NewUserUnique(s, rest, newId, email, username, byEmail, byName, t);
    }
  }

  ghost predicate SameNames(s: State, t: State) {
    t.users.Keys == s.users.Keys &&
    forall u :: u in s.users ==> t.users[u].email == s.users[u].email && t.users[u].username == s.users[u].username
  }

  lemma SameNamesUnique(s: State, t: State)
    requires SameNames(s, t) && EmailsUnique(s) && NamesUnique(s)
    ensures EmailsUnique(t) && NamesUnique(t)
  {
  }

  lemma NewNameUnique(s: State, newId: Id, email: string, username: string, t: State)
    requires EmailsUnique(s) && NamesUnique(s) && newId !in s.users && ByEmail(s, email, None)
    requires t.users == s.users[newId := User(email, username, true)]
    ensures EmailsUnique(t) && (NamesUnique(t) <==> ByUsername(s, username, None))
  {
    if u :| u in s.users && s.users[u].username == username {
      assert t.users[u].username == t.users[newId].username;
    }
  }

  /** A sign-in creates an account exactly when it finds none, by link or by email, the request is in
      order and the new keys are free. */
  predicate Creates(s: State, p: Profile, newId: Id, deviceId: Id, byLink: Option<Id>, byEmail: Option<Id>) {
    byLink.None? && byEmail.None? && p.hasClient && (p.provider == Google ==> p.emailVerified)
    && newId !in s.users && deviceId !in s.sessions
  }

  lemma LinkedUsers(s: State, p: Profile, newId: Id, username: string, deviceId: Id, byEmail: Option<Id>)
    requires byEmail.Some? ==> byEmail.value in s.users
    ensures var r := LinkUser(s, p, newId, username, deviceId, byEmail);
            if byEmail.None? && newId !in s.users && deviceId !in s.sessions
            then r.state.users == s.users[newId := User(p.email, username, true)]
            else SameNames(s, r.state)
  {
    if byEmail.Some? {
      AddLinkUsers(s, p.provider, byEmail.value, p.externalId);
      hide AddLink;
    } else {
      AddLinkUsers(AddAccount(s, newId, p.email, username), p.provider, newId, p.externalId);
      hide AddLink;
    }
  }

  lemma AddLinkUsers(s: State, p: Provider, u: Id, externalId: Id)
    ensures AddLink(s, p, u, externalId).users == s.users && AddLink(s, p, u, externalId).sessions == s.sessions
  {
  }

  lemma OpenedUsers(s: State, u: Id, deviceId: Id)
    ensures SameNames(s, Finish(s, OpenSession(s, u, deviceId), u).state) && SameNames(s, s)
  {
  }

  lemma SignInUsers(s: State, p: Profile, newId: Id, username: string, deviceId: Id, byLink: Option<Id>,
      byEmail: Option<Id>)
    requires ByLink(s, p.provider, p.externalId, byLink) && ByEmail(s, p.email, byEmail)
    ensures var t := SignIn(s, p, newId, username, deviceId, byLink, byEmail).state;
            if Creates(s, p, newId, deviceId, byLink, byEmail)
            then t.users == s.users[newId := User(p.email, username, true)]
            else SameNames(s, t)
  {
    hide LinkUser, Links, Finish, OpenSession, SameNames;
    if byLink.Some? { OpenedUsers(s, byLink.value, deviceId); } else { OpenedUsers(s, "", deviceId); }
    LinkedUsers(s, p, newId, username, deviceId, byEmail);
  }

  /** Signing in keeps emails unique; usernames stay unique if and only if no account was created with
      a generated name already taken. */
  lemma SignInUnique(s: State, p: Profile, newId: Id, username: string, deviceId: Id, byLink: Option<Id>,
      byEmail: Option<Id>)
    requires EmailsUnique(s) && NamesUnique(s) && ByLink(s, p.provider, p.externalId, byLink)
             && ByEmail(s, p.email, byEmail)
    ensures var t := SignIn(s, p, newId, username, deviceId, byLink, byEmail).state;
            EmailsUnique(t) &&
            (NamesUnique(t) <==> !Creates(s, p, newId, deviceId, byLink, byEmail) || ByUsername(s, username, None))
  {
    var t := SignIn(s, p, newId, username, deviceId, byLink, byEmail).state;
    SignInUsers(s, p, newId, username, deviceId, byLink, byEmail);
    hide SignIn, SameNames, EmailsUnique, NamesUnique;
    if Creates(s, p, newId, deviceId, byLink, byEmail) { NewNameUnique(s, newId, p.email, username, t); }
    else { SameNamesUnique(s, t); }
  }

  /** A registration that goes through having met two different accounts, and a sign-in that creates an
      account under a taken name. */
  ghost predicate Clash(s: State, e: Event) {
    match e
    case Registers(_, _, token, newId, byEmail, byName) =>
      byEmail.Some? && byName.Some? && byEmail != byName && GoesThrough(s, token, newId, byEmail, byName)
    case SignsIn(p, newId, username, deviceId, byLink, byEmail) =>
      Creates(s, p, newId, deviceId, byLink, byEmail) && !ByUsername(s, username, None)
    case _ => false
  }

  /** One step keeps emails and usernames unique if and only if it is not such a clash. */
  lemma StepUnique(s: State, e: Event)
    requires Reachable(s) && Looked(s, e) && EmailsUnique(s) && NamesUnique(s)
    ensures var t := Step(s, e).0; EmailsUnique(t) && NamesUnique(t) <==> !Clash(s, e)
  {
    match e
    case Registers(email, username, token, newId, byEmail, byName) =>
      hide EmailsUnique, NamesUnique, Reachable, Register, GoesThrough;
      RegistrationUnique(s, email, username, token, newId, byEmail, byName);
    case SignsIn(p, newId, username, deviceId, byLink, byEmail) =>
      hide EmailsUnique, NamesUnique, Reachable, SignIn, Creates;
      SignInUnique(s, p, newId, username, deviceId, byLink, byEmail);
    case _ =>
      OtherNames(s, e);
      hide EmailsUnique, NamesUnique, Reachable, Step, SameNames;
      SameNamesUnique(s, Step(s, e).0);
  }

  lemma OtherNames(s: State, e: Event)
    requires RefsOk(s) && Looked(s, e) && !e.Registers? && !e.SignsIn?
    ensures SameNames(s, Step(s, e).0)
  {
  }

  /** In every run without clashes emails and usernames are unique throughout. */
  lemma {:induction false} RunUnique(states: seq<State>, events: seq<Event>, k: nat)
    requires IsRun(states, events) && k <= |events|
    requires forall i :: 0 <= i < k ==> !Clash(states[i], events[i])
    ensures EmailsUnique(states[k]) && NamesUnique(states[k])
  {
    if k > 0 {
      RunUnique(states, events, k - 1);
      RunIsReachable(states, events, k - 1);
      hide Reachable, Step, Clash, EmailsUnique, NamesUnique;
      assert IsStep(states[k - 1], events[k - 1], states[k - 1 + 1]);
      StepUnique(states[k - 1], events[k - 1]);
    }
  }

  // ------------------------------------------------ runs that clash

  lemma RunSnoc(states: seq<State>, events: seq<Event>, e: Event, t: State)
    requires IsRun(states, events) && IsStep(states[|events|], e, t)
    ensures IsRun(states + [t], events + [e])
  {
    hide IsStep;
    var ss, es := states + [t], events + [e];
    forall k | 0 <= k < |es| ensures IsStep(ss[k], es[k], ss[k + 1]) {
      if k < |events| { assert IsStep(states[k], events[k], states[k + 1]); }
    }
  }

  lemma EmptyRun()
    ensures IsRun([EMPTY], [])
  {
  }

  /** Two unconfirmed accounts "a@m", "n" and "b@m", "m"; registering "a@m" as "m" replaces the second and
      leaves two accounts with the email of the first. */
  lemma DuplicateEmailRun() returns (states: seq<State>, events: seq<Event>)
    ensures IsRun(states, events) && |events| == 3 && !EmailsUnique(states[3])
  {
    var e1 := Registers("a@m", "n", Token("1", 0), "u", None, None);
    var e2 := Registers("b@m", "m", Token("2", 0), "v", None, None);
    var e3 := Registers("a@m", "m", Token("3", 0), "w", Some("u"), Some("v"));
    var s1 := EMPTY.(users := map["u" := User("a@m", "n", false)], tokens := map["u" := Token("1", 0)]);
    var s2 := s1.(users := s1.users["v" := User("b@m", "m", false)], tokens := s1.tokens["v" := Token("2", 0)]);
    var s3 := s1.(users := s1.users["w" := User("a@m", "m", false)], tokens := s1.tokens["w" := Token("3", 0)]);
    FirstRegisters(e1, s1);
    SecondRegisters(s1, e2, s2);
    ThirdRegisters(s1, s2, e3, s3);
    states, events := [EMPTY, s1, s2, s3], [e1, e2, e3];
    hide *;
    EmptyRun();
    RunSnoc([EMPTY], [], e1, s1);
    assert [EMPTY] + [s1] == [EMPTY, s1] && [] + [e1] == [e1];
    RunSnoc([EMPTY, s1], [e1], e2, s2);
    assert [EMPTY, s1] + [s2] == [EMPTY, s1, s2] && [e1] + [e2] == [e1, e2];
    RunSnoc([EMPTY, s1, s2], [e1, e2], e3, s3);
    assert states == [EMPTY, s1, s2] + [s3] && events == [e1, e2] + [e3];
  }

  lemma FirstRegisters(e1: Event, s1: State)
    requires e1 == Registers("a@m", "n", Token("1", 0), "u", None, None)
    requires s1 == EMPTY.(users := map["u" := User("a@m", "n", false)], tokens := map["u" := Token("1", 0)])
    ensures IsStep(EMPTY, e1, s1)
  {
  }

  lemma SecondRegisters(s1: State, e2: Event, s2: State)
    requires s1 == EMPTY.(users := map["u" := User("a@m", "n", false)], tokens := map["u" := Token("1", 0)])
    requires e2 == Registers("b@m", "m", Token("2", 0), "v", None, None)
    requires s2 == s1.(users := s1.users["v" := User("b@m", "m", false)], tokens := s1.tokens["v" := Token("2", 0)])
    ensures IsStep(s1, e2, s2)
  {
    assert "a@m"[0] != "b@m"[0] && "n"[0] != "m"[0] && "u"[0] != "v"[0] && "1"[0] != "2"[0];
  }

  lemma ThirdRegisters(s1: State, s2: State, e3: Event, s3: State)
    requires s1 == EMPTY.(users := map["u" := User("a@m", "n", false)], tokens := map["u" := Token("1", 0)])
    requires s2 == s1.(users := s1.users["v" := User("b@m", "m", false)], tokens := s1.tokens["v" := Token("2", 0)])
    requires e3 == Registers("a@m", "m", Token("3", 0), "w", Some("u"), Some("v"))
    requires s3 == s1.(users := s1.users["w" := User("a@m", "m", false)], tokens := s1.tokens["w" := Token("3", 0)])
    ensures IsStep(s2, e3, s3) && !EmailsUnique(s3)
  {
    assert "u"[0] != "v"[0] && "u"[0] != "w"[0] && "v"[0] != "w"[0] && "1"[0] != "3"[0];
    assert RemoveUser(s2, "v") == s1;
    assert Step(s2, e3).0 == s3;
    assert s3.users["u"].email == s3.users["w"].email;
  }

  lemma {:induction false} LocalPartOf(local: string, domain: string)
    requires forall i :: 0 <= i < |local| ==> local[i] != '@'
    ensures LocalPart(local + "@" + domain) == local
  {
    var email := local + "@" + domain;
    if local != "" {
      assert email[1..] == local[1..] + "@" + domain;
      LocalPartOf(local[1..], domain);
    }
  }

  /** Two Google users whose emails share a local part of 30 or more characters get the same user name,
      whatever random digits were drawn. */
  lemma TakenNameRun(local: string, random: string, other: string) returns (states: seq<State>, events: seq<Event>)
    requires |local| >= 30 && forall i :: 0 <= i < |local| ==> local[i] != '@'
    ensures IsRun(states, events) && |events| == 2 && !NamesUnique(states[2])
    ensures events[0].SignsIn? && events[0].username == GenerateUniqUserName(local + "@m", random)
    ensures events[1].SignsIn? && events[1].username == GenerateUniqUserName(local + "@n", other)
  {
    LocalPartOf(local, "m");
    LocalPartOf(local, "n");
    assert local + "@" + "m" == local + "@m" && local + "@" + "n" == local + "@n";
    var name := local[..30];
    assert (local + "-" + random)[..30] == name && (local + "-" + other)[..30] == name;
    assert GenerateUniqUserName(local + "@m", random) == name && GenerateUniqUserName(local + "@n", other) == name;
    hide GenerateUniqUserName;
    var m, n := local + "@m", local + "@n";
    assert m[|m| - 1] != n[|n| - 1];
    var e1 := SignsIn(Profile(Google, "1", m, true, true), "u", name, "d", None, None);
    var e2 := SignsIn(Profile(Google, "2", n, true, true), "v", name, "e", None, None);
    var s1 := EMPTY.(users := map["u" := User(m, name, true)], google := map["u" := "1"], sessions := map["d" := "u"]);
    var s2 := s1.(users := s1.users["v" := User(n, name, true)], google := s1.google["v" := "2"],
      sessions := s1.sessions["e" := "v"]);
    EmptyRun();
    assert Step(EMPTY, e1).0 == s1;
    RunSnoc([EMPTY], [], e1, s1);
    assert Step(s1, e2).0 == s2;
    RunSnoc([EMPTY, s1], [e1], e2, s2);
    states, events := [EMPTY, s1, s2], [e1, e2];
    assert states == [EMPTY, s1] + [s2] && events == [e1] + [e2];
    assert s2.users["u"].username == s2.users["v"].username;
  }
}
