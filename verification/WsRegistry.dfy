/** The registry of connected sockets: two indexes that must stay inverse while authentications are
    pending and sockets come and go. */
module WsRegistry {
  import opened Tables

  // ------------------------------------------------ the two indexes as values

  datatype Registry<S> = Registry(clients: map<S, Id>, userSockets: map<Id, set<S>>)

  function Without<K, V>(m: map<K, V>, k: K): map<K, V> { m - {k} }

  /** `clearClient` */
  function Clear<S(==)>(r: Registry<S>, client: S): Registry<S> {
    if client !in r.clients || r.clients[client] == "" then r
    else
      var userId := r.clients[client];
      var clients := Without(r.clients, client);
      if userId !in r.userSockets then Registry(clients, r.userSockets)
      else
        var sockets := r.userSockets[userId] - {client};
        Registry(clients, if sockets == {} then Without(r.userSockets, userId) else r.userSockets[userId := sockets])
  }

  /** The rest of `handleConnection` once authentication has answered a user id. */
  function Register<S(==)>(r: Registry<S>, client: S, userId: Id): Registry<S> {
    if userId == "" then r
    else
      var sockets := if userId in r.userSockets then r.userSockets[userId] else {};
      Registry(r.clients[client := userId], r.userSockets[userId := sockets + {client}])
  }

  /** Each index is the other read backwards; no user has an empty set and nobody is "". */
  ghost predicate Inverse<S>(r: Registry<S>) {
    (forall s :: s in r.clients
      ==> r.clients[s] != "" && r.clients[s] in r.userSockets && s in r.userSockets[r.clients[s]]) &&
    (forall u, s :: u in r.userSockets && s in r.userSockets[u] ==> s in r.clients && r.clients[s] == u) &&
    (forall u :: u in r.userSockets ==> r.userSockets[u] != {})
  }

  predicate RegisteredTo<S(==)>(r: Registry<S>, s: S, u: Id) { s in r.clients && r.clients[s] == u }

  // ------------------------------------------------ the gateway

  datatype Message = Message(event: string, payload: string)

  const UNAUTHORIZED := Message("error", "Unauthorized exception")

  class Socket {
    var received: seq<Message>
    var connected: bool

    constructor ()
      ensures received == [] && connected
    {
      received, connected := [], true;
    }

    method Emit(m: Message)
      modifies `received
      ensures received == old(received) + [m]
    {
      received := received + [m];
    }

    method Disconnect()
      modifies `connected
      ensures !connected
    {
      connected := false;
    }
  }

  /** What verifying the header's token gave, and what looking the user up gave. */
  datatype Token = NoToken | Invalid | Verified(userId: Id)
  datatype LookUp = Found(banned: bool) | Missing | Threw

  /** The user id `authConnection` answers, if it does not force a disconnect. */
  function AuthOutcome(token: Token, user: LookUp): Option<Id> {
    if token.Verified? && user == Found(false) then Some(token.userId) else None
  }

  class WsGateway {
    var clients: map<Socket, Id>
    var userSockets: map<Id, set<Socket>>

    constructor ()
      ensures clients == map[] && userSockets == map[]
    {
      clients, userSockets := map[], map[];
    }

    ghost function Indexes(): Registry<Socket>
      reads this
    {
      Registry(clients, userSockets)
    }

    method ClearClient(client: Socket)
      modifies this
      ensures Indexes() == Clear(old(Indexes()), client)
    {
      if client !in clients || clients[client] == "" { return; }
      var userId := clients[client];
      clients := Without(clients, client);
      if userId in userSockets {
        userSockets := userSockets[userId := userSockets[userId] - {client}];
        if userSockets[userId] == {} { userSockets := Without(userSockets, userId); }
      }
    }

    method ForceDisconnect(client: Socket, payload: Message)
      modifies this, client
      ensures Indexes() == Clear(old(Indexes()), client)
      ensures client.received == old(client.received) + [payload] && !client.connected
    {
      ClearClient(client);
      client.Emit(payload);
      client.Disconnect();
    }

    method AuthConnection(client: Socket, token: Token, user: LookUp) returns (userId: Option<Id>)
      modifies this, client
      ensures userId == AuthOutcome(token, user)
      ensures userId.Some? ==> Indexes() == old(Indexes())
      ensures userId.Some? ==> client.received == old(client.received) && client.connected == old(client.connected)
      ensures userId.None? ==> Indexes() == Clear(old(Indexes()), client)
                               && client.received == old(client.received) + [UNAUTHORIZED] && !client.connected
    {
      if !token.Verified? || user != Found(false) {
        ForceDisconnect(client, UNAUTHORIZED);
        return None;
      }
      userId := Some(token.userId);
    }

    /** What `handleConnection` does when the awaited authentication answers. */
    method CompleteConnection(client: Socket, token: Token, user: LookUp)
      modifies this, client
      ensures var u := AuthOutcome(token, user);
              Indexes() == if u.Some? then Register(old(Indexes()), client, u.value) else Clear(old(Indexes()), client)
    {
      var userId := AuthConnection(client, token, user);
      if userId.None? || userId.value == "" { return; }
      clients := clients[client := userId.value];
      if userId.value !in userSockets { userSockets := userSockets[userId.value := {}]; }
      userSockets := userSockets[userId.value := userSockets[userId.value] + {client}];
    }

    method HandleDisconnect(client: Socket)
      modifies this
      ensures Indexes() == Clear(old(Indexes()), client)
    {
      ClearClient(client);
    }

    /** Every socket of the user gets the message exactly once, no other socket gets anything. */
    method EmitMessageByUserId(userId: Id, m: Message) returns (answer: Answer)
      modifies if userId in userSockets then userSockets[userId] else {}
      ensures answer == if userId in userSockets && userSockets[userId] != {} then Success else NotFound
      ensures userId in userSockets ==> forall c :: c in userSockets[userId] ==>
                c.received == old(c.received) + [m] && c.connected == old(c.connected)
    {
      if userId !in userSockets || userSockets[userId] == {} { return NotFound; }
      var rest := userSockets[userId];
      while rest != {}
        invariant rest <= userSockets[userId]
        invariant forall c :: c in userSockets[userId] ==>
                    c.connected == old(c.connected) &&
                    c.received == if c in rest then old(c.received) else old(c.received) + [m]
        decreases rest
      {
        var c :| c in rest;
        c.Emit(m);
        rest := rest - {c};
      }
      answer := Success;
    }
  }

  // ------------------------------------------------ runs

  /** `handleConnection` runs up to the wait, the user lookup answers, or a socket disconnects. */
  datatype Event<S> =
    | Connects(socket: S, token: Token)
    | Answers(socket: S, user: LookUp)
    | Disconnects(socket: S)

  /** `started` sockets have connected; `pending` ones wait with a verified token. */
  datatype State<S> = State(indexes: Registry<S>, started: set<S>, pending: map<S, Token>)

  function Initially<S(==)>(): State<S> { State(Registry(map[], map[]), {}, map[]) }

  /** A socket connects once; a lookup answers only when it was asked. */
  predicate Enabled<S(==)>(s: State<S>, e: Event<S>) {
    match e
    case Connects(c, _) => c !in s.started
    case Answers(c, _) => c in s.pending
    case Disconnects(_) => true
  }

  function Complete<S(==)>(r: Registry<S>, c: S, outcome: Option<Id>): Registry<S> {
    if outcome.Some? then Register(r, c, outcome.value) else Clear(r, c)
  }

  function Step<S(==)>(s: State<S>, e: Event<S>): State<S> {
    match e
    case Connects(c, token) =>
      var t := s.(started := s.started + {c});
      if token.Verified? then t.(pending := s.pending[c := token]) else t.(indexes := Complete(s.indexes, c, None))
    case Answers(c, user) =>
      if c !in s.pending then s
      else s.(indexes := Complete(s.indexes, c, AuthOutcome(s.pending[c], user)), pending := Without(s.pending, c))
    case Disconnects(c) => s.(indexes := Clear(s.indexes, c))
  }

  function Run<S(==)>(events: seq<Event<S>>): State<S> {
    if events == [] then Initially() else Step(Run(events[..|events| - 1]), events[|events| - 1])
  }

  predicate Possible<S(==)>(events: seq<Event<S>>) {
    events == [] ||
    (Possible(events[..|events| - 1]) && Enabled(Run(events[..|events| - 1]), events[|events| - 1]))
  }

  /** The user of a socket's last completed event, if that was a successful authentication. Waiting
      is not a completed event. */
  function LastAuth<S(==)>(events: seq<Event<S>>, c: S): Option<Id> {
    if events == [] then None
    else
      var before, e := events[..|events| - 1], events[|events| - 1];
      if e.socket != c then LastAuth(before, c)
      else
        match e
        case Connects(_, token) => if token.Verified? then LastAuth(before, c) else None
        case Answers(_, user) =>
          if c in Run(before).pending then Named(AuthOutcome(Run(before).pending[c], user)) else LastAuth(before, c)
        case Disconnects(_) => None
  }

  /** An empty user id registers nobody. */
  function Named(u: Option<Id>): Option<Id> { if u == Some("") then None else u }

  // ------------------------------------------------ the steps

  ghost predicate OthersKept<S>(r: Registry<S>, t: Registry<S>, c: S) {
    (forall s :: s in t.clients && s != c ==> s in r.clients) &&
    (forall s :: s in r.clients && s != c ==> s in t.clients && t.clients[s] == r.clients[s])
  }

  lemma ClearKeepsInverse<S>(r: Registry<S>, c: S)
    requires Inverse(r)
    ensures Inverse(Clear(r, c)) && c !in Clear(r, c).clients
    ensures OthersKept(r, Clear(r, c), c)
  {
    if c in r.clients {
      var u := r.clients[c];
      var t := Clear(r, c);
      assert r.userSockets[u] - {c} != {} ==> u in t.userSockets && t.userSockets[u] == r.userSockets[u] - {c};
    }
  }

  lemma RegisterKeepsInverse<S>(r: Registry<S>, c: S, u: Id)
    requires Inverse(r) && u != "" && (c in r.clients ==> r.clients[c] == u)
    ensures Inverse(Register(r, c, u))
  {
    var t := Register(r, c, u);
    assert t.userSockets[u] == (if u in r.userSockets then r.userSockets[u] else {}) + {c};
  }

  /** Registering keeps the indexes inverse if and only if the socket was not registered to somebody
      else: nothing takes it out of the other user's set. */
  lemma RegisterInverseIff<S>(r: Registry<S>, c: S, u: Id)
    requires Inverse(r) && u != ""
    ensures Inverse(Register(r, c, u)) <==> (c in r.clients ==> r.clients[c] == u)
  {
    if c in r.clients && r.clients[c] != u {
      var v := r.clients[c];
      var t := Register(r, c, u);
      assert c in t.userSockets[v] && t.clients[c] == u;
    } else {
      RegisterKeepsInverse(r, c, u);
    }
  }

  /** Only sockets that finished waiting are registered. */
  ghost predicate Tidy<S>(s: State<S>) {
    Inverse(s.indexes) &&
    (forall c :: c in s.pending ==> c in s.started && c !in s.indexes.clients && s.pending[c].Verified?) &&
    (forall c :: c in s.indexes.clients ==> c in s.started)
  }

  lemma CompleteKeepsInverse<S>(r: Registry<S>, c: S, outcome: Option<Id>)
    requires Inverse(r) && c !in r.clients
    ensures var t := Complete(r, c, outcome);
            Inverse(t) && OthersKept(r, t, c) &&
            (c in t.clients <==> Named(outcome).Some?) && (c in t.clients ==> t.clients[c] == outcome.value)
  {
    if outcome.None? { ClearKeepsInverse(r, c); }
    else if outcome.value != "" { RegisterKeepsInverse(r, c, outcome.value); }
  }

  lemma StepKeepsTidy<S>(s: State<S>, e: Event<S>)
    requires Tidy(s) && Enabled(s, e)
    ensures Tidy(Step(s, e))
  {
    hide Inverse, Clear, Complete;
    match e
    case Connects(c, token) => CompleteKeepsInverse(s.indexes, c, None);
    case Answers(c, user) =>
      CompleteKeepsInverse(s.indexes, c, AuthOutcome(s.pending[c], user));
    case Disconnects(c) => ClearKeepsInverse(s.indexes, c);
  }

  /** What one step does to one socket's registration. */
  lemma StepRegisters<S>(s: State<S>, e: Event<S>, c: S, u: Id)
    requires Tidy(s) && Enabled(s, e)
    ensures RegisteredTo(Step(s, e).indexes, c, u) <==>
      if e.socket != c then RegisteredTo(s.indexes, c, u)
      else match e
           case Connects(_, token) => token.Verified? && RegisteredTo(s.indexes, c, u)
           case Answers(_, user) => Named(AuthOutcome(s.pending[c], user)) == Some(u)
           case Disconnects(_) => false
  {
    hide Inverse, Clear, Complete;
    match e
    case Connects(d, token) => CompleteKeepsInverse(s.indexes, d, None);
    case Answers(d, user) => CompleteKeepsInverse(s.indexes, d, AuthOutcome(s.pending[d], user));
    case Disconnects(d) => ClearKeepsInverse(s.indexes, d);
  }

  /** Under every interleaving the two indexes are inverse without empty sets, and a socket is
      registered to a user exactly when its last completed event is a successful authentication as
      that user. */
  lemma {:induction false} RunInvariant<S>(events: seq<Event<S>>, c: S, u: Id)
    requires Possible(events)
    ensures Tidy(Run(events))
    ensures RegisteredTo(Run(events).indexes, c, u) <==> LastAuth(events, c) == Some(u)
    decreases |events|
  {
    if events == [] {
    } else {
      var before, e := events[..|events| - 1], events[|events| - 1];
      RunInvariant(before, c, u);
      hide Tidy, Inverse, RegisteredTo;
      StepKeepsTidy(Run(before), e);
      StepRegisters(Run(before), e, c, u);
    }
  }

  /** Who an emit reaches after a run: exactly the sockets last authenticated as that user; there is
      an entry for the user if and only if there is such a socket. */
  lemma EmitReaches<S>(events: seq<Event<S>>, c: S, u: Id)
    requires Possible(events)
    ensures var r := Run(events).indexes;
            ((u in r.userSockets && c in r.userSockets[u]) <==> LastAuth(events, c) == Some(u)) &&
            (u in r.userSockets ==> r.userSockets[u] != {})
  {
    RunInvariant(events, c, u);
    hide Run, LastAuth;
  }

  /** A socket that disconnects while its authentication is pending ends up registered if the
      authentication then succeeds, with no later event to take it out. */
  lemma LateRegistration<S>(events: seq<Event<S>>, c: S, u: Id)
    requires Possible(events) && u != "" && c in Run(events).pending && Run(events).pending[c] == Verified(u)
    ensures var late := events + [Disconnects(c), Answers(c, Found(false))];
            Possible(late) && RegisteredTo(Run(late).indexes, c, u)
  {
    var one := events + [Disconnects(c)];
    var late := events + [Disconnects(c), Answers(c, Found(false))];
    assert one[..|events|] == events && late[..|events| + 1] == one;
    assert Run(one).pending == Run(events).pending;
    RunInvariant(late, c, u);
  }

  // ------------------------------------------------ who is registered

  /** Only a verified token of a known, unbanned user authenticates. */
  lemma AuthenticatesIff(token: Token, user: LookUp, u: Id)
    ensures AuthOutcome(token, user) == Some(u) <==> token == Verified(u) && user == Found(false)
  {
  }

  predicate ConnectedAt<S(==)>(events: seq<Event<S>>, i: nat, c: S, token: Token) {
    i < |events| && events[i] == Connects(c, token)
  }

  /** A pending token is the one the socket connected with. */
  lemma {:induction false} PendingOrigin<S>(events: seq<Event<S>>, c: S) returns (i: nat)
    requires c in Run(events).pending
    ensures ConnectedAt(events, i, c, Run(events).pending[c])
    decreases |events|
  {
    var before, e := events[..|events| - 1], events[|events| - 1];
    if c in Run(before).pending && Run(events).pending[c] == Run(before).pending[c] {
      i := PendingOrigin(before, c);
    } else {
      hide Complete, Clear;
      i := |events| - 1;
    }
  }

  lemma {:induction false} AuthOrigin<S>(events: seq<Event<S>>, c: S, u: Id) returns (i: nat, j: nat)
    requires LastAuth(events, c) == Some(u)
    ensures i < j < |events| && ConnectedAt(events, i, c, Verified(u)) && events[j] == Answers(c, Found(false))
    decreases |events|
  {
    var before, e := events[..|events| - 1], events[|events| - 1];
    if e.socket == c && e.Answers? && c in Run(before).pending {
      AuthenticatesIff(Run(before).pending[c], e.user, u);
      i := PendingOrigin(before, c);
      j := |events| - 1;
      hide Run, AuthOutcome;
    } else {
      hide Run, AuthOutcome;
      i, j := AuthOrigin(before, c, u);
    }
  }

  /** A socket registered to a user connected with that user's verified token, whose lookup was then answered
      by an unbanned user row. */
  lemma RegisteredOrigin<S>(events: seq<Event<S>>, c: S, u: Id) returns (i: nat, j: nat)
    requires Possible(events) && RegisteredTo(Run(events).indexes, c, u)
    ensures i < j < |events| && events[i] == Connects(c, Verified(u)) && events[j] == Answers(c, Found(false))
  {
    RunInvariant(events, c, u);
    hide Run, LastAuth;
    i, j := AuthOrigin(events, c, u);
  }
}
