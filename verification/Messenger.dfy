/** Chats, messages and read marks: the tables, the three commands as functions of the tables, and
    the repositories and use cases that carry them out. */
module Messenger {
  import opened Tables

  datatype Participant = Participant(chatId: Id, userId: Id)
  datatype Message = Message(id: Id, chatId: Id, userId: Id, content: string, createdAt: int)
  datatype ReadMark = ReadMark(messageId: Id, userId: Id)

  /** `chats` holds the chat ids. */
  datatype Store = Store(chats: seq<Id>, participants: seq<Participant>, messages: seq<Message>, marks: seq<ReadMark>)

  const EMPTY := Store([], [], [], [])

  /** The primary key. */
  ghost predicate DistinctMessages(messages: seq<Message>) {
    forall i, j :: 0 <= i < j < |messages| ==> messages[i].id != messages[j].id
  }

  // ------------------------------------------------ reading the tables

  predicate Both(participants: seq<Participant>, chatId: Id, a: Id, b: Id) {
    Participant(chatId, a) in participants && Participant(chatId, b) in participants
  }

  /** The first chat with some participant `a` and some participant `b`. */
  function FindChat(chats: seq<Id>, participants: seq<Participant>, a: Id, b: Id): Option<Id> {
    if chats == [] then None
    else if Both(participants, chats[0], a, b) then Some(chats[0])
    else FindChat(chats[1..], participants, a, b)
  }

  function FindMessage(messages: seq<Message>, id: Id): Option<Message> {
    if messages == [] then None
    else if messages[0].id == id then Some(messages[0])
    else FindMessage(messages[1..], id)
  }

  /** `participants.find((p) => p.userId !== userId)` among the chat's participants. */
  function OtherParticipant(participants: seq<Participant>, chatId: Id, userId: Id): Option<Id> {
    if participants == [] then None
    else if participants[0].chatId == chatId && participants[0].userId != userId then Some(participants[0].userId)
    else OtherParticipant(participants[1..], chatId, userId)
  }

  function Listed(ids: seq<Id>): Message -> bool { (m: Message) => m.id in ids }
  function NotListed(ids: seq<Id>): Message -> bool { (m: Message) => m.id !in ids }
  function MarkNotListed(ids: seq<Id>): ReadMark -> bool { (r: ReadMark) => r.messageId !in ids }

  /** Whether inserting the message and its author's mark violates no key. */
  predicate CanCreate(s: Store, messageId: Id, userId: Id) {
    FindMessage(s.messages, messageId).None? && ReadMark(messageId, userId) !in s.marks
  }

  // ------------------------------------------------ the commands

  /** What a command answers: `notified` is the user its event goes to. */
  datatype Outcome = Outcome(answer: Answer, chatId: Option<Id>, notified: Option<Id>)

  const FAILED := Outcome(InternalError, None, None)

  function AddMessage(s: Store, m: Message): Store {
    s.(messages := s.messages + [m], marks := s.marks + [ReadMark(m.id, m.userId)])
  }

  function AddChat(s: Store, chatId: Id, sender: Id, receiver: Id): Store {
    s.(chats := s.chats + [chatId], participants := s.participants
      + [Participant(chatId, receiver), Participant(chatId, sender)])
  }

  /** `newChatId` and `messageId` are the ids the database would generate. */
  function Send(s: Store, sender: Id, receiver: Id, content: string, now: int, newChatId: Id,
      messageId: Id): (Store, Outcome)
  {
    match FindChat(s.chats, s.participants, sender, receiver)
    case Some(c) =>
      if !CanCreate(s, messageId, sender) then (s, FAILED)
      else (AddMessage(s, Message(messageId, c, sender, content, now)), Outcome(Success, Some(c), Some(receiver)))
    case None =>
      if newChatId in s.chats || !CanCreate(s, messageId, sender) then (s, FAILED)
      else (AddMessage(AddChat(s, newChatId, sender, receiver), Message(messageId, newChatId, sender, content, now)),
            Outcome(Success, Some(newChatId), Some(receiver)))
  }

  function Read(s: Store, messageId: Id, userId: Id): (Store, Outcome) {
    match FindMessage(s.messages, messageId)
    case None => (s, Outcome(NotFound, None, None))
    case Some(m) =>
      if Participant(m.chatId, userId) !in s.participants then (s, Outcome(Forbidden, None, None))
      else if ReadMark(messageId, userId) in s.marks then (s, Outcome(Success, None, None))
      else
        match OtherParticipant(s.participants, m.chatId, userId)
        case None => (s, FAILED)
        case Some(other) => (s.(marks := s.marks + [ReadMark(messageId, userId)]), Outcome(Success, None, Some(other)))
  }

  /** Read marks go with their message. */
  function Remove(s: Store, messageIds: seq<Id>, userId: Id): (Store, Outcome) {
    var found := Filter(Listed(messageIds), s.messages);
    if found == [] then (s, Outcome(NotFound, None, None))
    else if exists m :: m in found && m.userId != userId then (s, Outcome(Forbidden, None, None))
    else (s.(messages := Filter(NotListed(messageIds), s.messages),
      marks := Filter(MarkNotListed(messageIds), s.marks)),
          Outcome(Success, None, None))
  }

  // ------------------------------------------------ repositories

  class MessengerDb {
    var chats: seq<Id>
    var participants: seq<Participant>
    var messages: seq<Message>
    var marks: seq<ReadMark>

    constructor ()
      ensures Tables() == EMPTY
    {
      chats, participants, messages, marks := [], [], [], [];
    }

    function Tables(): Store
      reads this
    {
      Store(chats, participants, messages, marks)
    }
  }

  class ChatRepository {
    const db: MessengerDb

    constructor (db: MessengerDb)
      ensures this.db == db
    {
      this.db := db;
    }

    method GetChatByUserIds(currentUserId: Id, participantId: Id) returns (chat: Option<Id>)
      ensures chat == FindChat(db.chats, db.participants, currentUserId, participantId)
    {
      var i := 0;
      while i < |db.chats|
        invariant 0 <= i <= |db.chats|
        invariant FindChat(db.chats, db.participants, currentUserId, participantId)
               == FindChat(db.chats[i..], db.participants, currentUserId, participantId)
      {
        if Both(db.participants, db.chats[i], currentUserId, participantId) { return Some(db.chats[i]); }
        i := i + 1;
      }
      chat := None;
    }

    /** One nested create: the chat, both participants, the message and the author's mark. */
    method CreateChatWithParticipants(currentParticipantId: Id, participantId: Id, content: string, now: int,
        chatId: Id, messageId: Id)
      returns (ok: bool)
      modifies db
      ensures ok == (chatId !in old(db.chats) && CanCreate(old(db.Tables()), messageId, currentParticipantId))
      ensures db.Tables() ==
        if ok then AddMessage(AddChat(old(db.Tables()), chatId, currentParticipantId, participantId),
                              Message(messageId, chatId, currentParticipantId, content, now))
        else old(db.Tables())
    {
      ok := chatId !in db.chats && CanCreate(db.Tables(), messageId, currentParticipantId);
      if !ok { return; }
      db.chats := db.chats + [chatId];
      db.participants := db.participants
        + [Participant(chatId, participantId), Participant(chatId, currentParticipantId)];
      db.messages := db.messages + [Message(messageId, chatId, currentParticipantId, content, now)];
      db.marks := db.marks + [ReadMark(messageId, currentParticipantId)];
    }
  }

  class MessageRepository {
    const db: MessengerDb

    constructor (db: MessengerDb)
      ensures this.db == db
    {
      this.db := db;
    }

    method CreateMessage(m: Message) returns (ok: bool)
      modifies db
      ensures ok == CanCreate(old(db.Tables()), m.id, m.userId)
      ensures db.Tables() == if ok then AddMessage(old(db.Tables()), m) else old(db.Tables())
    {
      ok := CanCreate(db.Tables(), m.id, m.userId);
      if !ok { return; }
      db.messages := db.messages + [m];
      db.marks := db.marks + [ReadMark(m.id, m.userId)];
    }

    method CreateMessageReadStatus(messageId: Id, userId: Id) returns (ok: bool)
      modifies db`marks
      ensures ok == (ReadMark(messageId, userId) !in old(db.marks))
      ensures db.marks == if ok then old(db.marks) + [ReadMark(messageId, userId)] else old(db.marks)
    {
      ok := ReadMark(messageId, userId) !in db.marks;
      if ok { db.marks := db.marks + [ReadMark(messageId, userId)]; }
    }

    method GetMessagesByIds(messageIds: seq<Id>) returns (found: seq<Message>)
      ensures found == Filter(Listed(messageIds), db.messages)
    {
      found := Filter(Listed(messageIds), db.messages);
    }

    method RemoveMessagesByIds(messageIds: seq<Id>)
      modifies db`messages, db`marks
      ensures db.messages == Filter(NotListed(messageIds), old(db.messages))
      ensures db.marks == Filter(MarkNotListed(messageIds), old(db.marks))
    {
      db.messages := Filter(NotListed(messageIds), db.messages);
      db.marks := Filter(MarkNotListed(messageIds), db.marks);
    }
  }

  // ------------------------------------------------ use cases

  class SendMessageUseCase {
    const db: MessengerDb
    const chatRepository: ChatRepository
    const messageRepository: MessageRepository

    constructor (db: MessengerDb)
      ensures this.db == db && chatRepository.db == db && messageRepository.db == db
    {
      this.db := db;
      this.chatRepository := new ChatRepository(db);
      this.messageRepository := new MessageRepository(db);
    }

    method Execute(currentParticipantId: Id, participantId: Id, content: string, now: int, newChatId: Id, messageId: Id)
      returns (outcome: Outcome)
      requires chatRepository.db == db && messageRepository.db == db
      modifies db
      ensures (db.Tables(), outcome)
              == Send(old(db.Tables()), currentParticipantId, participantId, content, now, newChatId, messageId)
    {
      var chat := chatRepository.GetChatByUserIds(currentParticipantId, participantId);
      var ok, chatId := false, newChatId;
      if chat.None? {
        ok := chatRepository.CreateChatWithParticipants(currentParticipantId, participantId, content, now, newChatId,
          messageId);
      } else {
        chatId := chat.value;
        ok := messageRepository.CreateMessage(Message(messageId, chatId, currentParticipantId, content, now));
      }
      outcome := if ok then Outcome(Success, Some(chatId), Some(participantId)) else FAILED;
    }
  }

  class ReadMessageUseCase {
    const db: MessengerDb
    const messageRepository: MessageRepository

    constructor (db: MessengerDb)
      ensures this.db == db && messageRepository.db == db
    {
      this.db := db;
      this.messageRepository := new MessageRepository(db);
    }

    method Execute(messageId: Id, userId: Id) returns (outcome: Outcome)
      requires messageRepository.db == db
      modifies db
      ensures (db.Tables(), outcome) == Read(old(db.Tables()), messageId, userId)
    {
      var message := FindMessage(db.messages, messageId);
      if message.None? { return Outcome(NotFound, None, None); }
      if Participant(message.value.chatId, userId) !in db.participants { return Outcome(Forbidden, None, None); }
      if ReadMark(messageId, userId) in db.marks { return Outcome(Success, None, None); }
      var second := OtherParticipant(db.participants, message.value.chatId, userId);
      // Reading "userId" of undefined throws.
      if second.None? { return FAILED; }
      var ok := messageRepository.CreateMessageReadStatus(messageId, userId);
      outcome := if ok then Outcome(Success, None, second) else FAILED;
    }
  }

  class RemoveMessagesUseCase {
    const db: MessengerDb
    const messageRepository: MessageRepository

    constructor (db: MessengerDb)
      ensures this.db == db && messageRepository.db == db
    {
      this.db := db;
      this.messageRepository := new MessageRepository(db);
    }

    method Execute(messageIds: seq<Id>, currentUserId: Id) returns (outcome: Outcome)
      requires messageRepository.db == db
      modifies db
      ensures (db.Tables(), outcome) == Remove(old(db.Tables()), messageIds, currentUserId)
    {
      var messages := messageRepository.GetMessagesByIds(messageIds);
      if messages == [] { return Outcome(NotFound, None, None); }
      if exists m :: m in messages && m.userId != currentUserId { return Outcome(Forbidden, None, None); }
      messageRepository.RemoveMessagesByIds(messageIds);
      outcome := Outcome(Success, None, None);
    }
  }
}
