/** What every run of sends, reads and removals keeps. */
module MessengerRuns {
  import opened Tables
  import opened Messenger

  datatype Event =
    | Sent(sender: Id, receiver: Id, content: string, now: int, newChatId: Id, messageId: Id)
    | WasRead(messageId: Id, userId: Id)
    | Removed(messageIds: seq<Id>, userId: Id)

  function Apply(s: Store, e: Event): (Store, Outcome) {
    match e
    case Sent(a, b, content, now, c, m) => Send(s, a, b, content, now, c, m)
    case WasRead(m, u) => Read(s, m, u)
    case Removed(ms, u) => Remove(s, ms, u)
  }

  function Run(events: seq<Event>): Store {
    if events == [] then EMPTY else Apply(Run(events[..|events| - 1]), events[|events| - 1]).0
  }

  // ------------------------------------------------ the invariant

  function InChat(chatId: Id): Participant -> bool { (p: Participant) => p.chatId == chatId }

  function Rows(participants: seq<Participant>, chatId: Id): seq<Participant> { Filter(InChat(chatId), participants) }

  /** Every chat has two participant rows, every participant row a chat. */
  ghost predicate ChatsPaired(s: Store) {
    Distinct(s.chats) &&
    (forall c :: c in s.chats ==> |Rows(s.participants, c)| == 2) &&
    (forall p :: p in s.participants ==> p.chatId in s.chats)
  }

  /** No two chats share two different users. */
  ghost predicate OneChatPerPair(s: Store) {
    forall c, d, a, b ::
      c in s.chats && d in s.chats && a != b && Both(s.participants, c, a, b) && Both(s.participants, d, a, b) ==>
        c == d
  }

  /** A message's author takes part in its chat and has marked it read. */
  ghost predicate MessagesOk(s: Store) {
    DistinctMessages(s.messages) &&
    forall m :: m in s.messages
      ==> Participant(m.chatId, m.userId) in s.participants && ReadMark(m.id, m.userId) in s.marks
  }

  /** At most one mark per user and message, of an existing message, by a participant of its chat. */
  ghost predicate MarksOk(s: Store) {
    Distinct(s.marks) &&
    forall r :: r in s.marks ==> MarkOk(s, r)
  }

  ghost predicate MarkOk(s: Store, r: ReadMark) {
    var m := FindMessage(s.messages, r.messageId);
    m.Some? && Participant(m.value.chatId, r.userId) in s.participants
  }

  ghost predicate Reachable(s: Store) {
    ChatsPaired(s) && OneChatPerPair(s) && MessagesOk(s) && MarksOk(s)
  }

  // ------------------------------------------------ lookups

  lemma {:induction false} FindChatSound(chats: seq<Id>, ps: seq<Participant>, a: Id, b: Id)
    ensures match FindChat(chats, ps, a, b)
            case None => forall c :: c in chats ==> !Both(ps, c, a, b)
            case Some(c) => c in chats && Both(ps, c, a, b)
  {
    if chats != [] { FindChatSound(chats[1..], ps, a, b); }
  }

  lemma {:induction false} FindMessageSound(messages: seq<Message>, id: Id)
    ensures match FindMessage(messages, id)
            case None => forall m :: m in messages ==> m.id != id
            case Some(m) => m in messages && m.id == id
  {
    if messages != [] { FindMessageSound(messages[1..], id); }
  }

  lemma {:induction false} OtherSound(ps: seq<Participant>, chatId: Id, userId: Id)
    ensures match OtherParticipant(ps, chatId, userId)
            case None => forall p :: p in ps && p.chatId == chatId ==> p.userId == userId
            case Some(u) => Participant(chatId, u) in ps && u != userId
  {
    if ps != [] {
      OtherSound(ps[1..], chatId, userId);
      assert ps[0] == Participant(ps[0].chatId, ps[0].userId);
    }
  }

  lemma {:induction false} FindAfterAdd(messages: seq<Message>, m: Message, id: Id)
    ensures FindMessage(messages + [m], id)
         == if FindMessage(messages, id).Some? then FindMessage(messages, id) else if m.id == id then Some(m) else None
  {
    var r := messages + [m];
    if messages == [] {
      assert r[1..] == [];
    } else {
      assert r[1..] == messages[1..] + [m];
      FindAfterAdd(messages[1..], m, id);
    }
  }

  lemma {:induction false} FindAfterRemove(messages: seq<Message>, ids: seq<Id>, id: Id)
    ensures FindMessage(Filter(NotListed(ids), messages), id) == if id in ids then None else FindMessage(messages, id)
  {
    if messages != [] {
      FindAfterRemove(messages[1..], ids, id);
      var rest := Filter(NotListed(ids), messages[1..]);
      assert ([messages[0]] + rest)[1..] == rest && [] + rest == rest;
    }
  }

  /** For two different users the lookup does not depend on who sends. */
  lemma FindChatIs(s: Store, a: Id, b: Id, c: Id)
    requires OneChatPerPair(s) && a != b && c in s.chats && Both(s.participants, c, a, b)
    ensures FindChat(s.chats, s.participants, a, b) == Some(c) && FindChat(s.chats, s.participants, b, a) == Some(c)
  {
    FindChatSound(s.chats, s.participants, a, b);
    FindChatSound(s.chats, s.participants, b, a);
  }

  // ------------------------------------------------ the steps keep the invariant

  lemma NewChatRows(s: Store, chatId: Id, sender: Id, receiver: Id, c: Id)
    requires ChatsPaired(s) && chatId !in s.chats
    ensures Rows(AddChat(s, chatId, sender, receiver).participants, c)
         == if c == chatId then [Participant(chatId, receiver), Participant(chatId, sender)]
            else Rows(s.participants, c)
  {
    var two := [Participant(chatId, receiver), Participant(chatId, sender)];
    FilterAppend(InChat(c), s.participants, two);
    if c == chatId {
      FilterNone(InChat(c), s.participants);
      FilterAll(InChat(c), two);
    } else {
      FilterNone(InChat(c), two);
    }
  }

  lemma AddChatKeepsPaired(s: Store, chatId: Id, sender: Id, receiver: Id)
    requires ChatsPaired(s) && chatId !in s.chats
    ensures ChatsPaired(AddChat(s, chatId, sender, receiver))
  {
    var t := AddChat(s, chatId, sender, receiver);
    forall c | c in t.chats ensures |Rows(t.participants, c)| == 2 { NewChatRows(s, chatId, sender, receiver, c); }
    hide Rows;
  }

  lemma AddChatKeepsPairs(s: Store, chatId: Id, sender: Id, receiver: Id)
    requires ChatsPaired(s) && OneChatPerPair(s) && chatId !in s.chats
    requires FindChat(s.chats, s.participants, sender, receiver).None?
    ensures OneChatPerPair(AddChat(s, chatId, sender, receiver))
  {
    var t := AddChat(s, chatId, sender, receiver);
    FindChatSound(s.chats, s.participants, sender, receiver);
    hide FindChat, Rows;
    forall c, d, a, b | c in t.chats && d in t.chats && a != b && Both(t.participants, c, a, b)
    && Both(t.participants, d, a, b)
      ensures c == d
    {
      BothAfterAdd(s, chatId, sender, receiver, c, a, b);
      BothAfterAdd(s, chatId, sender, receiver, d, a, b);
    }
  }

  lemma BothAfterAdd(s: Store, chatId: Id, sender: Id, receiver: Id, c: Id, a: Id, b: Id)
    requires ChatsPaired(s) && chatId !in s.chats && a != b
    requires Both(AddChat(s, chatId, sender, receiver).participants, c, a, b)
    ensures if c == chatId then {a, b} == {sender, receiver} else Both(s.participants, c, a, b)
  {
    hide Rows;
    if c == chatId {
      assert Participant(c, a) !in s.participants && Participant(c, b) !in s.participants;
    }
  }

  lemma AddMessageKeeps(s: Store, m: Message)
    requires Reachable(s) && CanCreate(s, m.id, m.userId) && Participant(m.chatId, m.userId) in s.participants
    ensures Reachable(AddMessage(s, m))
  {
    var t := AddMessage(s, m);
    FindMessageSound(s.messages, m.id);
    hide FindMessage, Rows;
    assert ChatsPaired(t) && OneChatPerPair(t);
    forall i, j | 0 <= i < j < |t.messages|
      ensures t.messages[i].id != t.messages[j].id
    {
      assert t.messages[i] in s.messages;
    }
    assert MessagesOk(t);
    hide ChatsPaired, OneChatPerPair, MessagesOk;
    forall r | r in t.marks ensures MarkOk(t, r) { FindAfterAdd(s.messages, m, r.messageId); }
    assert Distinct(t.marks);
  }

  lemma AddChatKeeps(s: Store, chatId: Id, sender: Id, receiver: Id)
    requires Reachable(s) && chatId !in s.chats && FindChat(s.chats, s.participants, sender, receiver).None?
    ensures Reachable(AddChat(s, chatId, sender, receiver))
  {
    var t := AddChat(s, chatId, sender, receiver);
    AddChatKeepsPaired(s, chatId, sender, receiver);
    AddChatKeepsPairs(s, chatId, sender, receiver);
    hide ChatsPaired, OneChatPerPair, FindChat, FindMessage;
    assert forall p :: p in s.participants ==> p in t.participants;
    assert MessagesOk(t);
    forall r | r in t.marks ensures MarkOk(t, r) { assert MarkOk(s, r); }
  }

  lemma SendKeeps(s: Store, a: Id, b: Id, content: string, now: int, newChatId: Id, messageId: Id)
    requires Reachable(s)
    ensures Reachable(Send(s, a, b, content, now, newChatId, messageId).0)
  {
    FindChatSound(s.chats, s.participants, a, b);
    hide Reachable, FindMessage;
    match FindChat(s.chats, s.participants, a, b)
    case Some(c) => if CanCreate(s, messageId, a) { AddMessageKeeps(s, Message(messageId, c, a, content, now)); }
    case None =>
      if newChatId !in s.chats && CanCreate(s, messageId, a) {
        AddChatKeeps(s, newChatId, a, b);
        AddMessageKeeps(AddChat(s, newChatId, a, b), Message(messageId, newChatId, a, content, now));
      }
  }

  lemma ReadKeeps(s: Store, messageId: Id, userId: Id)
    requires Reachable(s)
    ensures Reachable(Read(s, messageId, userId).0)
  {
    var t := Read(s, messageId, userId).0;
    FindMessageSound(s.messages, messageId);
    hide OtherParticipant, Rows;
    assert ChatsPaired(t) && OneChatPerPair(t) && MessagesOk(t);
    hide ChatsPaired, OneChatPerPair, MessagesOk;
    forall r | r in t.marks ensures MarkOk(t, r) { assert r in s.marks ==> MarkOk(s, r); }
    assert Distinct(t.marks);
  }

  lemma RemoveKeeps(s: Store, ids: seq<Id>, userId: Id)
    requires Reachable(s)
    ensures Reachable(Remove(s, ids, userId).0)
  {
    var t := Remove(s, ids, userId).0;
    if t != s {
      FilterMembers(NotListed(ids), s.messages);
      FilterMembers(MarkNotListed(ids), s.marks);
      FilterDistinct(MarkNotListed(ids), s.marks);
      KeepsDistinctMessages(s.messages, ids);
      hide Filter, Rows, FindMessage;
      assert ChatsPaired(t) && OneChatPerPair(t);
      hide ChatsPaired, OneChatPerPair;
      assert MessagesOk(t);
      forall r | r in t.marks ensures MarkOk(t, r) {
        assert MarkOk(s, r);
        FindAfterRemove(s.messages, ids, r.messageId);
      }
    }
  }

  lemma {:induction false} KeepsDistinctMessages(messages: seq<Message>, ids: seq<Id>)
    requires DistinctMessages(messages)
    ensures DistinctMessages(Filter(NotListed(ids), messages))
  {
    if messages != [] {
      KeepsDistinctMessages(messages[1..], ids);
      FilterMembers(NotListed(ids), messages[1..]);
      var rest := Filter(NotListed(ids), messages[1..]);
      forall j | 0 <= j < |rest| ensures rest[j].id != messages[0].id {
        assert rest[j] in messages[1..];
      }
    }
  }

  /** In every run: one chat per pair of different users, two participants per chat, authors take
      part in their chats and have read their messages, one mark per user and message. */
  lemma {:induction false} RunIsReachable(events: seq<Event>)
    ensures Reachable(Run(events))
    decreases |events|
  {
    if events == [] {
    } else {
      var before, e := events[..|events| - 1], events[|events| - 1];
      RunIsReachable(before);
      hide Reachable;
      var s := Run(before);
      match e
      case Sent(a, b, content, now, c, m) => SendKeeps(s, a, b, content, now, c, m);
      case WasRead(m, u) => ReadKeeps(s, m, u);
      case Removed(ms, u) => RemoveKeeps(s, ms, u);
    }
  }

  // ------------------------------------------------ routing

  /** What the k-th command of a run answered. */
  function OutcomeAt(events: seq<Event>, k: nat): Outcome
    requires k < |events|
  {
    Apply(Run(events[..k]), events[k]).1
  }

  predicate Between(e: Event, a: Id, b: Id) {
    e.Sent? && ((e.sender == a && e.receiver == b) || (e.sender == b && e.receiver == a))
  }

  ghost predicate HasChat(s: Store, c: Id, a: Id, b: Id) {
    c in s.chats && Both(s.participants, c, a, b)
  }

  lemma ApplyKeepsChat(s: Store, e: Event, c: Id, a: Id, b: Id)
    requires HasChat(s, c, a, b)
    ensures HasChat(Apply(s, e).0, c, a, b)
  {
  }

  lemma {:induction false} RunKeepsChat(events: seq<Event>, k: nat, c: Id, a: Id, b: Id)
    requires k <= |events| && HasChat(Run(events[..k]), c, a, b)
    ensures HasChat(Run(events), c, a, b)
    decreases |events|
  {
    hide Apply, HasChat;
    if k == |events| {
      assert events[..k] == events;
    } else {
      var m := |events| - 1;
      assert events[..m][..k] == events[..k];
      RunKeepsChat(events[..m], k, c, a, b);
      ApplyKeepsChat(Run(events[..m]), events[m], c, a, b);
    }
  }

  lemma SendMakesChat(s: Store, e: Event, a: Id, b: Id)
    requires Between(e, a, b) && Apply(s, e).1.answer == Success
    ensures var (t, out) := Apply(s, e); out.chatId.Some? && HasChat(t, out.chatId.value, a, b)
  {
    FindChatSound(s.chats, s.participants, e.sender, e.receiver);
  }

  lemma SendUsesChat(s: Store, e: Event, a: Id, b: Id, c: Id)
    requires Reachable(s) && a != b && Between(e, a, b) && Apply(s, e).1.answer == Success && HasChat(s, c, a, b)
    ensures Apply(s, e).1.chatId == Some(c)
  {
    FindChatIs(s, a, b, c);
  }

  /** Whatever happens in between, all messages two different users send each other, in either
      direction, land in one chat. */
  lemma MessagesLandInOneChat(events: seq<Event>, i: nat, j: nat, a: Id, b: Id)
    requires i < j < |events| && a != b && Between(events[i], a, b) && Between(events[j], a, b)
    requires OutcomeAt(events, i).answer == Success && OutcomeAt(events, j).answer == Success
    ensures OutcomeAt(events, j).chatId == OutcomeAt(events, i).chatId
  {
    var s := Run(events[..i]);
    SendMakesChat(s, events[i], a, b);
    var c := OutcomeAt(events, i).chatId.value;
    assert events[..i + 1][..i] == events[..i] && Run(events[..i + 1]) == Apply(s, events[i]).0;
    assert events[..j][..i + 1] == events[..i + 1];
    hide *;
    RunKeepsChat(events[..j], i + 1, c, a, b);
    RunIsReachable(events[..j]);
    assert OutcomeAt(events, j) == Apply(Run(events[..j]), events[j]).1 by { OutcomeIs(events, j); }
    SendUsesChat(Run(events[..j]), events[j], a, b, c);
  }

  lemma OutcomeIs(events: seq<Event>, k: nat)
    requires k < |events|
    ensures OutcomeAt(events, k) == Apply(Run(events[..k]), events[k]).1
  {
  }

  lemma {:induction false} TwoRows(ps: seq<Participant>, chatId: Id, p: Participant, q: Participant)
    requires |Rows(ps, chatId)| == 2 && p in ps && q in ps && p != q && p.chatId == chatId && q.chatId == chatId
    ensures forall r :: r in ps && r.chatId == chatId ==> r == p || r == q
  {
    FilterMembers(InChat(chatId), ps);
    var rows := Rows(ps, chatId);
    assert p in rows && q in rows;
    hide Rows;
    forall r | r in rows ensures r == p || r == q { assert rows == [rows[0], rows[1]]; }
  }

  /** A chat that two different users share is theirs alone. */
  lemma ChatIsPrivate(s: Store, c: Id, a: Id, b: Id)
    requires Reachable(s) && a != b && c in s.chats && Both(s.participants, c, a, b)
    ensures forall p :: p in s.participants && p.chatId == c ==> p.userId == a || p.userId == b
  {
    TwoRows(s.participants, c, Participant(c, a), Participant(c, b));
  }

  /** A send succeeds if and only if its keys are free. Then exactly one message by the sender is
      stored, read by its sender alone, in a chat of the two; the receiver is notified and every other
      chat, message and mark stays. */
  lemma SendDelivers(s: Store, sender: Id, receiver: Id, content: string, now: int, newChatId: Id, messageId: Id)
    requires Reachable(s)
    ensures var (t, out) := Send(s, sender, receiver, content, now, newChatId, messageId);
            (out.answer == Success <==>
               FindMessage(s.messages, messageId).None?
               && (newChatId !in s.chats || exists c :: c in s.chats && Both(s.participants, c, sender, receiver))) &&
            (out.answer != Success ==> t == s) &&
            (out.answer == Success ==>
               out.notified == Some(receiver) && out.chatId.Some? && HasChat(t, out.chatId.value, sender, receiver) &&
               t.messages == s.messages + [Message(messageId, out.chatId.value, sender, content, now)] &&
               t.marks == s.marks + [ReadMark(messageId, sender)] && s.chats <= t.chats
               && s.participants <= t.participants)
  {
    FindChatSound(s.chats, s.participants, sender, receiver);
    assert ReadMark(messageId, sender) in s.marks ==> MarkOk(s, ReadMark(messageId, sender));
    hide Reachable, FindChat, FindMessage;
  }

  // ------------------------------------------------ reading

  /** In every reachable state a read never fails for want of another participant: whoever may read
      an unread message has exactly one counterpart in the chat, who is notified. */
  lemma ReadFindsTheOther(events: seq<Event>, messageId: Id, userId: Id)
    ensures var s := Run(events);
            var (t, out) := Read(s, messageId, userId);
            out.answer != InternalError &&
            (t != s ==> var m := FindMessage(s.messages, messageId);
               m.Some? && out.notified.Some? && out.notified.value != userId &&
               (forall p :: p in s.participants && p.chatId == m.value.chatId
                 ==> p.userId == userId || p.userId == out.notified.value))
  {
    var s := Run(events);
    RunIsReachable(events);
    FindMessageSound(s.messages, messageId);
    match FindMessage(s.messages, messageId)
    case None =>
    case Some(m) =>
      OtherSound(s.participants, m.chatId, userId);
      hide Run, FindMessage;
      match OtherParticipant(s.participants, m.chatId, userId)
      case None => assert m.userId == userId by { assert Participant(m.chatId, m.userId) in s.participants; }
      case Some(o) => if Participant(m.chatId, userId) in s.participants { ChatIsPrivate(s, m.chatId, userId, o); }
  }

  /** Reading twice changes nothing more and notifies nobody. */
  lemma ReadIsIdempotent(s: Store, messageId: Id, userId: Id)
    requires Read(s, messageId, userId).1.answer == Success
    ensures var t := Read(s, messageId, userId).0; Read(t, messageId, userId) == (t, Outcome(Success, None, None))
  {
  }

  /** What a user has read according to the commands alone: the author's own message, or one read by
      command, since the message was last created. */
  predicate HasRead(events: seq<Event>, messageId: Id, userId: Id) {
    if events == [] then false
    else
      var before, e := events[..|events| - 1], events[|events| - 1];
      if Apply(Run(before), e).1.answer != Success then HasRead(before, messageId, userId)
      else
        match e
        case Sent(a, b, content, now, c, m) =>
          if m == messageId then a == userId else HasRead(before, messageId, userId)
        case WasRead(m, u) => (m == messageId && u == userId) || HasRead(before, messageId, userId)
        case Removed(ms, u) => messageId !in ms && HasRead(before, messageId, userId)
  }

  lemma MarksAfter(s: Store, e: Event, messageId: Id, userId: Id)
    requires Reachable(s)
    ensures var (t, out) := Apply(s, e);
            ReadMark(messageId, userId) in t.marks <==>
              if out.answer != Success then ReadMark(messageId, userId) in s.marks
              else match e
                   case Sent(a, b, content, now, c, m) =>
                     if m == messageId then a == userId else ReadMark(messageId, userId) in s.marks
                   case WasRead(m, u) => (m == messageId && u == userId) || ReadMark(messageId, userId) in s.marks
                   case Removed(ms, u) => messageId !in ms && ReadMark(messageId, userId) in s.marks
  {
    hide FindChat, OtherParticipant, Rows, FindMessage;
    match e
    case Sent(a, b, content, now, c, m) =>
      assert ReadMark(messageId, userId) in s.marks ==> MarkOk(s, ReadMark(messageId, userId));
    case WasRead(m, u) => FindMessageSound(s.messages, m);
    case Removed(ms, u) => FilterMember(MarkNotListed(ms), s.marks, ReadMark(messageId, userId));
  }

  /** After any run the read marks are exactly those. */
  lemma {:induction false} MarksAreHistory(events: seq<Event>, messageId: Id, userId: Id)
    ensures ReadMark(messageId, userId) in Run(events).marks <==> HasRead(events, messageId, userId)
    decreases |events|
  {
    if events != [] {
      var before, e := events[..|events| - 1], events[|events| - 1];
      MarksAreHistory(before, messageId, userId);
      RunIsReachable(before);
      assert Run(events) == Apply(Run(before), e).0;
      hide Run, Reachable, Apply;
      MarksAfter(Run(before), e, messageId, userId);
    }
  }

  // ------------------------------------------------ removing

  ghost predicate AllOwn(s: Store, ids: seq<Id>, userId: Id) {
    forall m :: m in s.messages && m.id in ids ==> m.userId == userId
  }

  ghost predicate SomeExist(s: Store, ids: seq<Id>) {
    exists m :: m in s.messages && m.id in ids
  }

  /** Removal succeeds exactly when some listed message exists and all existing ones are the caller's
      own; then precisely they and their marks are gone, otherwise nothing changes. */
  lemma RemoveIsAllOrNothing(s: Store, ids: seq<Id>, userId: Id)
    ensures var (t, out) := Remove(s, ids, userId);
            (out.answer == Success <==> SomeExist(s, ids) && AllOwn(s, ids, userId)) &&
            (out.answer != Success ==> t == s) &&
            (out.answer == Success ==>
               t.chats == s.chats && t.participants == s.participants &&
               (forall m :: m in t.messages <==> m in s.messages && m.id !in ids) &&
               (forall r :: r in t.marks <==> r in s.marks && r.messageId !in ids))
  {
    var found := Filter(Listed(ids), s.messages);
    FilterMembers(Listed(ids), s.messages);
    FilterMembers(NotListed(ids), s.messages);
    FilterMembers(MarkNotListed(ids), s.marks);
    if found != [] { assert found[0] in found; }
    hide Filter;
  }
}
