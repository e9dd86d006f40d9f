/** Walking a chat's messages page by page, with the id of a page's last message as the next cursor. */
module ChatPages {
  import opened Tables
  import opened Ordering
  import opened Paginator
  import opened Keyset
  import opened KeysetExact
  import opened Messenger

  function SentAt(m: Message): int { m.createdAt }

  function OfChat(chatId: Id): Message -> bool { (m: Message) => m.chatId == chatId }

  function ChatRows(messages: seq<Message>, chatId: Id): seq<Message> { Filter(OfChat(chatId), messages) }

  /** The cursor message is looked up in the whole table; an empty or unknown id is no cursor. */
  function CursorDate(messages: seq<Message>, endCursorMessageId: Id): Option<int> {
    if endCursorMessageId == "" then None
    else
      var m := FindMessage(messages, endCursorMessageId);
      if m.Some? then Some(m.value.createdAt) else None
  }

  /** One request: the message table it saw and the order the database chose for its rows. */
  datatype Visit = Visit(messages: seq<Message>, ordered: seq<Message>)

  function ToRequest(chatId: Id, v: Visit): Request<Message> { Request(ChatRows(v.messages, chatId), v.ordered) }

  /** `ordered` is an answer of `findMany`: the chat's messages before the cursor, newest first. */
  ghost predicate IsAnswer(v: Visit, chatId: Id, endCursorMessageId: Id) {
    Answered(ToRequest(chatId, v), SentAt, CursorDate(v.messages, endCursorMessageId))
  }

  function PageOf(v: Visit, n: nat): seq<Message> { Limit(v.ordered, n) }

  /** What the query answers a participant; the total counts the whole chat. */
  function ToPagination(v: Visit, chatId: Id, pageNumber: int, n: nat): Pagination<Message>
    requires n > 0
  {
    Create(pageNumber, n, |ChatRows(v.messages, chatId)|, PageOf(v, n))
  }

  function LastId(walk: seq<Visit>, n: nat): Id {
    if walk == [] then ""
    else
      var p := PageOf(walk[|walk| - 1], n);
      if p == [] then "" else p[|p| - 1].id
  }

  /** A client's walk: message ids are unique and not empty, and the message sent as cursor has not
      been removed when the next request arrives. */
  ghost predicate IsChatWalk(walk: seq<Visit>, chatId: Id, n: nat) {
    walk == [] ||
    var m := |walk| - 1;
    IsChatWalk(walk[..m], chatId, n) && NextVisit(walk[..m], walk[m], chatId, n)
  }

  ghost predicate NextVisit(walk: seq<Visit>, v: Visit, chatId: Id, n: nat) {
    Asks(walk, v, chatId, n) && (walk != [] ==> CursorKept(walk[|walk| - 1], v, n))
  }

  /** The next request: the last shown message is its cursor, whether or not it still exists. */
  ghost predicate Asks(walk: seq<Visit>, v: Visit, chatId: Id, n: nat) {
    (walk != [] ==> PageOf(walk[|walk| - 1], n) != []) && IsTable(v.messages) && IsAnswer(v, chatId, LastId(walk, n))
  }

  /** Message ids are unique and not empty. */
  ghost predicate IsTable(messages: seq<Message>) {
    DistinctMessages(messages) && forall x :: x in messages ==> x.id != ""
  }

  ghost predicate CursorKept(v: Visit, next: Visit, n: nat)
    requires PageOf(v, n) != []
  {
    var p := PageOf(v, n);
    p[|p| - 1] in next.messages
  }

  function KeysetOf(chatId: Id, walk: seq<Visit>): seq<Request<Message>> {
    if walk == [] then [] else KeysetOf(chatId, walk[..|walk| - 1]) + [ToRequest(chatId, walk[|walk| - 1])]
  }

  /** Everything the walk answered, page after page. */
  function Shown(walk: seq<Visit>, n: nat): seq<Message> {
    if walk == [] then [] else Shown(walk[..|walk| - 1], n) + PageOf(walk[|walk| - 1], n)
  }

  // ------------------------------------------------ a chat walk is a keyset walk

  lemma {:induction false} FindIs(messages: seq<Message>, x: Message)
    requires DistinctMessages(messages) && x in messages
    ensures FindMessage(messages, x.id) == Some(x)
  {
    if messages[0] != x {
      DistinctTail(messages);
      FindIs(messages[1..], x);
    }
  }

  lemma DistinctTail(messages: seq<Message>)
    requires DistinctMessages(messages) && messages != []
    ensures DistinctMessages(messages[1..]) && forall x :: x in messages[1..] ==> x.id != messages[0].id
  {
    forall x | x in messages[1..] ensures x.id != messages[0].id {
      var i :| 0 <= i < |messages[1..]| && messages[1..][i] == x;
      assert messages[i + 1] == x;
    }
  }

  /** The keyset walk so far: same pages, and its cursor is the date of the last message shown. */
  ghost predicate Tracks(chatId: Id, walk: seq<Visit>, ks: seq<Request<Message>>, n: nat) {
    IsWalk(ks, SentAt, n) && Returned(ks, n) == Shown(walk, n) && |ks| == |walk| &&
    (walk != [] ==> Page(ks[|ks| - 1], n) == PageOf(walk[|walk| - 1], n))
  }

  lemma NextCursor(chatId: Id, walk: seq<Visit>, ks: seq<Request<Message>>, v: Visit, n: nat)
    requires Tracks(chatId, walk, ks, n) && NextVisit(walk, v, chatId, n)
    ensures CursorDate(v.messages, LastId(walk, n)) == CursorAfter(ks, SentAt, n)
  {
    if walk != [] {
      var p := PageOf(walk[|walk| - 1], n);
      FindIs(v.messages, p[|p| - 1]);
    }
  }

  lemma ShownSnoc(walk: seq<Visit>, v: Visit, n: nat)
    ensures Shown(walk + [v], n) == Shown(walk, n) + PageOf(v, n)
  {
    hide PageOf;
    assert (walk + [v])[..|walk|] == walk;
  }

  lemma TracksSnoc(chatId: Id, walk: seq<Visit>, ks: seq<Request<Message>>, v: Visit, n: nat)
    requires Tracks(chatId, walk, ks, n) && NextVisit(walk, v, chatId, n)
    ensures Tracks(chatId, walk + [v], ks + [ToRequest(chatId, v)], n)
  {
    hide CursorDate, IsWalk, LastId, CursorAfter, Returned, Shown, ChatRows, DistinctMessages, CursorKept, Answered;
    NextCursor(chatId, walk, ks, v, n);
    ShownSnoc(walk, v, n);
    WalkSnoc(ks, ToRequest(chatId, v), SentAt, n);
  }

  lemma LastVisit(walk: seq<Visit>, chatId: Id, n: nat)
    requires walk != [] && IsChatWalk(walk, chatId, n)
    ensures IsChatWalk(walk[..|walk| - 1], chatId, n) && NextVisit(walk[..|walk| - 1], walk[|walk| - 1], chatId, n)
  {
    hide NextVisit;
  }

  lemma KeysetSnoc(chatId: Id, walk: seq<Visit>)
    requires walk != []
    ensures KeysetOf(chatId, walk) == KeysetOf(chatId, walk[..|walk| - 1]) + [ToRequest(chatId, walk[|walk| - 1])]
  {
    hide ToRequest;
  }

  lemma TracksEmpty(chatId: Id, n: nat)
    ensures Tracks(chatId, [], KeysetOf(chatId, []), n)
  {
  }

  lemma TracksLast(chatId: Id, walk: seq<Visit>, n: nat)
    requires walk != [] && Tracks(chatId, walk[..|walk| - 1], KeysetOf(chatId, walk[..|walk| - 1]), n)
    requires NextVisit(walk[..|walk| - 1], walk[|walk| - 1], chatId, n)
    ensures Tracks(chatId, walk, KeysetOf(chatId, walk), n)
  {
    hide *;
    var before, v := walk[..|walk| - 1], walk[|walk| - 1];
    assert walk == before + [v];
    KeysetSnoc(chatId, walk);
    TracksSnoc(chatId, before, KeysetOf(chatId, before), v, n);
  }

  lemma {:induction false} WalkIsKeyset(walk: seq<Visit>, chatId: Id, n: nat)
    requires IsChatWalk(walk, chatId, n)
    ensures Tracks(chatId, walk, KeysetOf(chatId, walk), n)
    decreases |walk|
  {
    hide *;
    if walk == [] {
      TracksEmpty(chatId, n);
    } else {
      LastVisit(walk, chatId, n);
      WalkIsKeyset(walk[..|walk| - 1], chatId, n);
      TracksLast(chatId, walk, n);
    }
  }

  // ------------------------------------------------ main results

  /** The first request saw the chat as `rows`; later ones the same messages plus newer ones. */
  ghost predicate ChatGrows(walk: seq<Visit>, chatId: Id, rows: seq<Message>) {
    SeesGrowing(KeysetOf(chatId, walk), rows, SentAt)
  }

  ghost predicate Finished(walk: seq<Visit>, n: nat) {
    walk != [] && |PageOf(walk[|walk| - 1], n)| < n
  }

  /** With distinct timestamps a finished walk has shown every message present at its start exactly
      once, newest first, even if newer messages arrived meanwhile; and on the way it answered exactly
      as many non-empty pages as the first answer's `pagesCount` announced. */
  lemma ChatWalkIsComplete(walk: seq<Visit>, chatId: Id, rows: seq<Message>, pageNumber: int, n: nat)
    requires IsChatWalk(walk, chatId, n) && Finished(walk, n) && n > 0
    requires ChatGrows(walk, chatId, rows) && NoTies(SentAt, rows) && rows == ChatRows(walk[0].messages, chatId)
    ensures multiset(Shown(walk, n)) == multiset(rows) && StrictlyDescending(SentAt, Shown(walk, n))
    ensures NonEmptyPages(KeysetOf(chatId, walk), n) == ToPagination(walk[0], chatId, pageNumber, n).pagesCount
  {
    WalkIsKeyset(walk, chatId, n);
    var ks := KeysetOf(chatId, walk);
    assert Ended(ks, n);
    hide IsChatWalk, KeysetOf, ChatRows, NoTies, SeesGrowing, StrictlyDescending, IsWalk, Returned, Shown;
    WalkIsComplete(rows, SentAt, n, ks);
  }

  lemma {:induction false} KeysetTables(walk: seq<Visit>, chatId: Id, n: nat)
    requires IsChatWalk(walk, chatId, n)
    ensures TablesDistinct(KeysetOf(chatId, walk))
    decreases |walk|
  {
    if walk != [] {
      LastVisit(walk, chatId, n);
      var v := walk[|walk| - 1];
      KeysetTables(walk[..|walk| - 1], chatId, n);
      DistinctRows(v.messages);
      FilterDistinct(OfChat(chatId), v.messages);
    }
  }

  lemma DistinctRows(messages: seq<Message>)
    requires DistinctMessages(messages)
    ensures Distinct(messages)
  {
  }

  /** Equal timestamps, messages arriving anywhere, even other messages being removed: a walk still
      never shows a message twice. */
  lemma ChatWalkNeverRepeats(walk: seq<Visit>, chatId: Id, n: nat)
    requires IsChatWalk(walk, chatId, n)
    ensures Distinct(Shown(walk, n))
  {
    WalkIsKeyset(walk, chatId, n);
    KeysetTables(walk, chatId, n);
    hide IsChatWalk, TablesDistinct, IsWalk;
    WalkNeverRepeats(SentAt, n, KeysetOf(chatId, walk));
  }

  /** On a fixed chat a finished walk has shown every message exactly once if and only if no page end of
      the chat's newest-first order falls between two messages with equal timestamps. */
  lemma ChatWalkExact(walk: seq<Visit>, chatId: Id, rows: seq<Message>, sorted: seq<Message>, n: nat)
    requires IsChatWalk(walk, chatId, n) && Finished(walk, n) && IsOrderBy(NewestFirst(SentAt), rows, sorted)
    requires forall i :: 0 <= i < |walk| ==> multiset(ChatRows(walk[i].messages, chatId)) == multiset(rows)
    ensures multiset(Shown(walk, n)) == multiset(rows) <==> !TieAtPageEnd(SentAt, sorted, n)
  {
    WalkIsKeyset(walk, chatId, n);
    KeysetIndexed(walk, chatId);
    var ks := KeysetOf(chatId, walk);
    assert SeesOnly(ks, rows) && Ended(ks, n);
    hide IsChatWalk, KeysetOf, SeesOnly, IsWalk, Returned, Shown, TieAtPageEnd;
    WalkExact(rows, SentAt, sorted, n, ks);
  }

  lemma {:induction false} KeysetIndexed(walk: seq<Visit>, chatId: Id)
    ensures |KeysetOf(chatId, walk)| == |walk|
    ensures forall i :: 0 <= i < |walk| ==> KeysetOf(chatId, walk)[i] == ToRequest(chatId, walk[i])
    decreases |walk|
  {
    hide ToRequest;
    if walk != [] { KeysetIndexed(walk[..|walk| - 1], chatId); }
  }
}
