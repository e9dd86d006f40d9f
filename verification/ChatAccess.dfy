/** Who is shown a chat's messages. */
module ChatAccess {
  import opened Tables
  import opened Paginator
  import opened Keyset
  import opened Messenger
  import opened MessengerRuns
  import opened ChatPages

  datatype ChatAnswer = Refused(answer: Answer) | Page(page: Pagination<Message>)

  /** The query's answer; `ordered` is the order the database chose for the rows. */
  function GetChatMessages(s: Store, userId: Id, chatId: Id, pageNumber: int, n: nat, ordered: seq<Message>): ChatAnswer
    requires n > 0
  {
    if chatId !in s.chats then Refused(NotFound)
    else if Participant(chatId, userId) !in s.participants then Refused(Forbidden)
    else ChatAnswer.Page(ToPagination(Visit(s.messages, ordered), chatId, pageNumber, n))
  }

  lemma RowsAreOfChat(v: Visit, chatId: Id, cursor: Id, m: Message)
    requires IsAnswer(v, chatId, cursor) && m in v.ordered
    ensures m in v.messages && m.chatId == chatId
  {
    AnswerBelowCursor(ToRequest(chatId, v), SentAt, CursorDate(v.messages, cursor));
    FilterMember(OfChat(chatId), v.messages, m);
    hide CursorDate, Below;
  }

  lemma AuthorSharesChat(s: Store, m: Message, userId: Id)
    requires Reachable(s) && m in s.messages && m.chatId in s.chats && Participant(m.chatId, userId) in s.participants
    ensures forall p :: p in s.participants && p.chatId == m.chatId && m.userId != userId ==>
              p.userId == userId || p.userId == m.userId
  {
    if m.userId != userId { ChatIsPrivate(s, m.chatId, userId, m.userId); }
  }

  /** In every run a user is only shown messages of a chat the user takes part in, each written by the
      user or by the chat's only other participant, at most a page of them. */
  lemma ShownToParticipants(events: seq<Event>, userId: Id, chatId: Id, pageNumber: int, n: nat, cursor: Id,
      ordered: seq<Message>, m: Message)
    requires n > 0 && IsAnswer(Visit(Run(events).messages, ordered), chatId, cursor)
    requires var a := GetChatMessages(Run(events), userId, chatId, pageNumber, n, ordered); a.Page? && m in a.page.items
    ensures var s, a := Run(events), GetChatMessages(Run(events), userId, chatId, pageNumber, n, ordered);
            |a.page.items| <= n && m in s.messages && m.chatId == chatId
            && Participant(chatId, userId) in s.participants &&
            forall p :: p in s.participants && p.chatId == chatId && m.userId != userId ==>
              p.userId == userId || p.userId == m.userId
  {
    RunIsReachable(events);
    hide Run, Reachable, IsAnswer, PagesCount;
    var page := GetChatMessages(Run(events), userId, chatId, pageNumber, n, ordered).page.items;
    var i :| 0 <= i < |page| && page[i] == m;
    assert ordered[i] == m;
    RowsAreOfChat(Visit(Run(events).messages, ordered), chatId, cursor, m);
    AuthorSharesChat(Run(events), m, userId);
  }

  function Sent(messages: seq<Message>, chatId: Id): set<Message> { set m | m in messages && m.chatId == chatId }

  lemma CountOfChat(messages: seq<Message>, chatId: Id)
    requires DistinctMessages(messages)
    ensures |ChatRows(messages, chatId)| == |Sent(messages, chatId)|
  {
    var rows := ChatRows(messages, chatId);
    DistinctRows(messages);
    FilterDistinct(OfChat(chatId), messages);
    FilterMembers(OfChat(chatId), messages);
    DistinctSize(rows);
    assert Sent(messages, chatId) == set m | m in rows;
  }

  /** Whom the query refuses, and what it answers a participant: the first messages of its order on a record
      whose total is the number of the chat's messages and whose page count is the ceiling. */
  lemma QueryOutcome(s: Store, userId: Id, chatId: Id, pageNumber: int, n: nat, ordered: seq<Message>)
    requires n > 0 && DistinctMessages(s.messages)
    ensures var a := GetChatMessages(s, userId, chatId, pageNumber, n, ordered);
            (a == Refused(NotFound) <==> chatId !in s.chats) &&
            (a == Refused(Forbidden) <==> chatId in s.chats && Participant(chatId, userId) !in s.participants) &&
            (a.Page? <==> chatId in s.chats && Participant(chatId, userId) in s.participants) &&
            (a.Page? ==>
               var total := |Sent(s.messages, chatId)|;
               a.page.pageNumber == pageNumber && a.page.pageSize == n && a.page.totalCount == total
               && total <= n * a.page.pagesCount < total + n
               && a.page.items == if |ordered| <= n then ordered else ordered[..n])
  {
    CountOfChat(s.messages, chatId);
    PagesCountBounds(|Sent(s.messages, chatId)|, n);
    hide DistinctMessages, PagesCount, ChatRows, Sent;
  }

  lemma CursorByFields(messages: seq<Message>, cursor: Id, m: Message)
    requires DistinctMessages(messages)
    ensures Below(SentAt, CursorDate(messages, cursor))(m) <==>
      forall c :: c in messages && c.id == cursor && cursor != "" ==> m.createdAt < c.createdAt
  {
    assert SentAt(m) == m.createdAt;
    FindMessageSound(messages, cursor);
    forall c | c in messages && c.id == cursor ensures FindMessage(messages, cursor) == Some(c) { FindIs(messages, c); }
    hide DistinctMessages, FindMessage;
  }

  lemma NewerByFields(x: Message, y: Message)
    requires NewestFirst(SentAt)(x, y)
    ensures x.createdAt >= y.createdAt
  {
    assert SentAt(x) == x.createdAt && SentAt(y) == y.createdAt;
  }

  /** The rows of a request: exactly the chat's messages sent before the cursor message, or all when there is no
      such message, newest first. */
  lemma OrderedByFields(v: Visit, chatId: Id, cursor: Id)
    requires IsAnswer(v, chatId, cursor) && DistinctMessages(v.messages)
    ensures forall m :: m in v.ordered <==>
              m in v.messages && m.chatId == chatId
              && forall c :: c in v.messages && c.id == cursor && cursor != "" ==> m.createdAt < c.createdAt
    ensures forall i, j :: 0 <= i < j < |v.ordered| ==> v.ordered[i].createdAt >= v.ordered[j].createdAt
  {
    AnswerBelowCursor(ToRequest(chatId, v), SentAt, CursorDate(v.messages, cursor));
    FilterMembers(OfChat(chatId), v.messages);
    forall i, j | 0 <= i < j < |v.ordered| ensures v.ordered[i].createdAt >= v.ordered[j].createdAt {
      NewerByFields(v.ordered[i], v.ordered[j]);
    }
    hide DistinctMessages, CursorDate, Below, IsAnswer;
    forall m
      ensures Below(SentAt, CursorDate(v.messages, cursor))(m) <==>
        forall c :: c in v.messages && c.id == cursor && cursor != "" ==> m.createdAt < c.createdAt
    {
      CursorByFields(v.messages, cursor, m);
    }
  }
}
