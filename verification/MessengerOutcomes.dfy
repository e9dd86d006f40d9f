/** When sending, reading and removing messages succeed, and what each answers and stores in every run. */
module MessengerOutcomes {
  import opened Tables
  import opened Messenger
  import opened MessengerRuns

  // ------------------------------------------------ reading

  predicate Takes(s: Store, chatId: Id, userId: Id) { Participant(chatId, userId) in s.participants }

  /** Someone else takes part in the chat, and nobody besides the two. */
  ghost predicate OtherUser(s: Store, chatId: Id, userId: Id, other: Id) {
    Takes(s, chatId, other) && other != userId &&
    forall p :: p in s.participants && p.chatId == chatId ==> p.userId == userId || p.userId == other
  }

  lemma MessageOf(s: Store, m: Message)
    requires Reachable(s) && m in s.messages
    ensures FindMessage(s.messages, m.id) == Some(m)
  {
    FindMessageSound(s.messages, m.id);
    var x := FindMessage(s.messages, m.id).value;
    hide FindMessage, ChatsPaired, OneChatPerPair, MarksOk;
    var i :| 0 <= i < |s.messages| && s.messages[i] == m;
    var j :| 0 <= j < |s.messages| && s.messages[j] == x;
    assert i == j;
  }

  lemma UnreadHasOther(s: Store, m: Message, userId: Id)
    requires Reachable(s) && m in s.messages && Takes(s, m.chatId, userId) && ReadMark(m.id, userId) !in s.marks
    ensures var o := OtherParticipant(s.participants, m.chatId, userId);
            o.Some? && OtherUser(s, m.chatId, userId, o.value)
  {
    OtherSound(s.participants, m.chatId, userId);
    assert m.userId != userId;
    assert Participant(m.chatId, m.userId) in s.participants;
    var o := OtherParticipant(s.participants, m.chatId, userId);
    assert m.chatId in s.chats;
    hide OtherParticipant, Reachable;
    ChatIsPrivate(s, m.chatId, userId, o.value);
  }

  /** What reading a message answers and stores: not found without it, forbidden outside its chat, else
      success. A first read adds exactly this mark and notifies the chat's other user; a later one does nothing. */
  ghost predicate ReadAnswered(s: Store, t: Store, out: Outcome, messageId: Id, userId: Id) {
    if forall m :: m in s.messages ==> m.id != messageId then t == s && out == Outcome(NotFound, None, None)
    else if forall m :: m in s.messages && m.id == messageId ==> Participant(m.chatId, userId) !in s.participants then
      t == s && out == Outcome(Forbidden, None, None)
    else
      out.answer == Success && out.chatId == None &&
      if ReadMark(messageId, userId) in s.marks then t == s && out.notified == None
      else
        t.marks == s.marks + [ReadMark(messageId, userId)] && t.messages == s.messages && t.chats == s.chats
        && t.participants == s.participants && out.notified.Some?
        && forall m :: m in s.messages && m.id == messageId ==> OtherUser(s, m.chatId, userId, out.notified.value)
  }

  lemma ReadInState(s: Store, messageId: Id, userId: Id)
    requires Reachable(s)
    ensures var (t, out) := Apply(s, WasRead(messageId, userId)); ReadAnswered(s, t, out, messageId, userId)
  {
    FindMessageSound(s.messages, messageId);
    match FindMessage(s.messages, messageId)
    case None =>
    case Some(m) =>
      OnlyOne(s, m);
      if Takes(s, m.chatId, userId) && ReadMark(messageId, userId) !in s.marks { UnreadHasOther(s, m, userId); }
      hide Reachable, FindMessage, OtherParticipant, OtherUser;
  }

  lemma OnlyOne(s: Store, m: Message)
    requires Reachable(s) && m in s.messages
    ensures forall x :: x in s.messages && x.id == m.id ==> x == m
  {
    forall x | x in s.messages && x.id == m.id ensures x == m {
      MessageOf(s, m);
      MessageOf(s, x);
    }
  }

  /** So in every run, whoever reads whatever. */
  lemma ReadOutcome(events: seq<Event>, messageId: Id, userId: Id)
    ensures var s := Run(events);
            var (t, out) := Apply(s, WasRead(messageId, userId));
            ReadAnswered(s, t, out, messageId, userId)
  {
    RunIsReachable(events);
    hide Run, Apply, Reachable, ReadAnswered;
    ReadInState(Run(events), messageId, userId);
  }

  // ------------------------------------------------ sending

  /** A send fails exactly when its message id is taken, or when the two share no chat and the new chat's id is
      taken; there is no other refusal. Without a shared chat the new one has the two as participants. */
  lemma SendOutcome(events: seq<Event>, e: Event)
    requires e.Sent?
    ensures var s := Run(events);
            var (t, out) := Apply(s, e);
            var shared := exists c :: c in s.chats && Takes(s, c, e.sender) && Takes(s, c, e.receiver);
            var taken := (exists m :: m in s.messages && m.id == e.messageId) || (!shared && e.newChatId in s.chats);
            if taken then t == s && out == Outcome(InternalError, None, None)
            else
              out.answer == Success && out.notified == Some(e.receiver) && out.chatId.Some? &&
              t.messages == s.messages + [Message(e.messageId, out.chatId.value, e.sender, e.content, e.now)] &&
              t.marks == s.marks + [ReadMark(e.messageId, e.sender)] &&
              if shared then
                t.chats == s.chats && t.participants == s.participants && out.chatId.value in s.chats
                && Takes(s, out.chatId.value, e.sender) && Takes(s, out.chatId.value, e.receiver)
              else
                out.chatId == Some(e.newChatId) && t.chats == s.chats + [e.newChatId] &&
                t.participants
                == s.participants + [Participant(e.newChatId, e.receiver), Participant(e.newChatId, e.sender)]
  {
    RunIsReachable(events);
    var s := Run(events);
    hide Run;
    FindChatSound(s.chats, s.participants, e.sender, e.receiver);
    FindMessageSound(s.messages, e.messageId);
    assert ReadMark(e.messageId, e.sender) in s.marks ==> MarkOk(s, ReadMark(e.messageId, e.sender));
    hide Reachable, FindChat, FindMessage;
  }

  // ------------------------------------------------ removing

  /** Which refusal is answered: not found when no listed message exists, forbidden when one is another user's. */
  lemma RemovalRefusals(s: Store, ids: seq<Id>, userId: Id)
    ensures var (t, out) := Apply(s, Removed(ids, userId));
            out.chatId == None && out.notified == None &&
            (out.answer == NotFound <==> forall m :: m in s.messages ==> m.id !in ids) &&
            (out.answer == Forbidden <==> exists m :: m in s.messages && m.id in ids && m.userId != userId) &&
            (out.answer == Success || out.answer == NotFound || out.answer == Forbidden)
  {
    var found := Filter(Listed(ids), s.messages);
    FilterMembers(Listed(ids), s.messages);
    if found != [] { assert found[0] in found; }
    hide Filter;
  }

  // ------------------------------------------------ from the send to the read

  /** Nothing lists the message for removal from the i-th event on. */
  predicate NotRemoved(events: seq<Event>, i: nat, messageId: Id) {
    forall k :: i <= k < |events| && events[k].Removed? ==> messageId !in events[k].messageIds
  }

  lemma MessageStays(s: Store, e: Event, m: Message)
    requires m in s.messages && (e.Removed? ==> m.id !in e.messageIds)
    ensures m in Apply(s, e).0.messages
  {
    if e.Removed? { FilterMembers(NotListed(e.messageIds), s.messages); }
  }

  lemma ParticipantStays(s: Store, e: Event, p: Participant)
    requires p in s.participants
    ensures p in Apply(s, e).0.participants
  {
  }

  lemma {:induction false} StaysInRun(events: seq<Event>, i: nat, m: Message, p: Participant)
    requires i <= |events| && m in Run(events[..i]).messages && p in Run(events[..i]).participants
    requires NotRemoved(events, i, m.id)
    ensures m in Run(events).messages && p in Run(events).participants
    decreases |events|
  {
    if i == |events| {
      assert events[..i] == events;
    } else {
      var before, e := events[..|events| - 1], events[|events| - 1];
      assert before[..i] == events[..i] && NotRemoved(before, i, m.id);
      assert Run(events) == Apply(Run(before), e).0;
      hide Run, Apply, NotRemoved;
      StaysInRun(before, i, m, p);
      MessageStays(Run(before), e, m);
      ParticipantStays(Run(before), e, p);
    }
  }

  lemma SentIsThere(events: seq<Event>, i: nat)
    requires i < |events| && events[i].Sent? && OutcomeAt(events, i).answer == Success
    ensures var e, out := events[i], OutcomeAt(events, i);
            out.chatId.Some? &&
            Message(e.messageId, out.chatId.value, e.sender, e.content, e.now) in Run(events[..i + 1]).messages &&
            Participant(out.chatId.value, e.receiver) in Run(events[..i + 1]).participants
  {
    var e := events[i];
    assert events[..i + 1][..i] == events[..i];
    assert Run(events[..i + 1]) == Apply(Run(events[..i]), e).0 && OutcomeAt(events, i) == Apply(Run(events[..i]), e).1;
    hide Run, Apply, OutcomeAt;
    SendOutcome(events[..i], e);
    var s, t, out := Run(events[..i]), Run(events[..i + 1]), OutcomeAt(events, i);
    var m := Message(e.messageId, out.chatId.value, e.sender, e.content, e.now);
    assert t.messages[|s.messages|] == m;
    if !Takes(s, out.chatId.value, e.receiver) {
      assert t.participants[|s.participants|] == Participant(e.newChatId, e.receiver);
    }
  }

  /** The receiver of a message that was sent can read it ever after, until it is removed: the read succeeds,
      and the first time it marks the message and notifies the sender. */
  lemma ReceiverCanRead(events: seq<Event>, i: nat)
    requires i < |events| && events[i].Sent? && OutcomeAt(events, i).answer == Success
    requires NotRemoved(events, i + 1, events[i].messageId) && events[i].sender != events[i].receiver
    ensures var e, s := events[i], Run(events);
            var (t, out) := Apply(s, WasRead(e.messageId, e.receiver));
            out.answer == Success && ReadMark(e.messageId, e.receiver) in t.marks &&
            out.notified == if ReadMark(e.messageId, e.receiver) in s.marks then None else Some(e.sender)
  {
    var e := events[i];
    var c := OutcomeAt(events, i).chatId;
    hide *;
    SentIsThere(events, i);
    var m := Message(e.messageId, c.value, e.sender, e.content, e.now);
    StaysInRun(events, i + 1, m, Participant(c.value, e.receiver));
    RunIsReachable(events);
    ReadOutcome(events, e.messageId, e.receiver);
    OnlyOne(Run(events), m);
    var (t, out) := Apply(Run(events), WasRead(e.messageId, e.receiver));
    ReadByReceiver(Run(events), t, out, m, e.receiver);
  }

  lemma ReadByReceiver(s: Store, t: Store, out: Outcome, m: Message, receiver: Id)
    requires Reachable(s) && m in s.messages && Participant(m.chatId, receiver) in s.participants
             && m.userId != receiver
    requires ReadAnswered(s, t, out, m.id, receiver)
    ensures out.answer == Success && ReadMark(m.id, receiver) in t.marks
    ensures out.notified == if ReadMark(m.id, receiver) in s.marks then None else Some(m.userId)
  {
    assert Participant(m.chatId, m.userId) in s.participants;
    hide Reachable;
    if ReadMark(m.id, receiver) !in s.marks { assert t.marks[|s.marks|] == ReadMark(m.id, receiver); }
  }
}
