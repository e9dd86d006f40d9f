/** Walking a chat while messages are removed: exactly when a message is shown again. */
module ChatRemoval {
  import opened Tables
  import opened Ordering
  import opened Keyset
  import opened Messenger
  import opened MessengerRuns
  import opened ChatPages

  // ------------------------------------------------ a message's place on a page

  function NewerThan(x: Message): Message -> bool { (m: Message) => m.createdAt > x.createdAt }

  lemma StrictOrderIs(rows: seq<Message>, ordered: seq<Message>)
    requires NoTies(SentAt, rows) && IsOrderBy(NewestFirst(SentAt), rows, ordered)
    ensures StrictlyDescending(SentAt, ordered)
  {
    var s := StrictOrder(SentAt, rows);
    DescendingTail(SentAt, s, 0);
    assert s[0..] == s;
    hide StrictlyDescending, NoTies, Sort;
    OrderUnique(NewestFirst(SentAt), s, ordered);
  }

  lemma NewerArePrefix(ordered: seq<Message>, i: nat)
    requires StrictlyDescending(SentAt, ordered) && i < |ordered|
    ensures Filter(NewerThan(ordered[i]), ordered) == ordered[..i]
  {
    var p := NewerThan(ordered[i]);
    assert ordered == ordered[..i] + ordered[i..];
    forall j | 0 <= j < |ordered[i..]|
      ensures !p(ordered[i..][j])
    {
      assert j == 0 || SentAt(ordered[i]) > SentAt(ordered[i + j]);
    }
    forall j | 0 <= j < i ensures p(ordered[..i][j]) { assert SentAt(ordered[j]) > SentAt(ordered[i]); }
    FilterAppend(p, ordered[..i], ordered[i..]);
    FilterAll(p, ordered[..i]);
    FilterNone(p, ordered[i..]);
  }

  /** Without ties a row is on the page exactly when fewer rows than the page size are newer. */
  lemma OnPageIff(rows: seq<Message>, ordered: seq<Message>, x: Message, n: nat)
    requires NoTies(SentAt, rows) && IsOrderBy(NewestFirst(SentAt), rows, ordered) && x in rows
    ensures x in Limit(ordered, n) <==> |Filter(NewerThan(x), rows)| < n
  {
    StrictOrderIs(rows, ordered);
    SameMembers(rows, ordered);
    var i :| 0 <= i < |ordered| && ordered[i] == x;
    NewerArePrefix(ordered, i);
    FilterMultiset(NewerThan(x), rows, ordered);
    SameMembers(Filter(NewerThan(x), rows), Filter(NewerThan(x), ordered));
    InLimit(ordered, i, n);
  }

  lemma InLimit(ordered: seq<Message>, i: nat, n: nat)
    requires StrictlyDescending(SentAt, ordered) && i < |ordered|
    ensures ordered[i] in Limit(ordered, n) <==> i < n
  {
    var page := Limit(ordered, n);
    if i < n { assert page[i] == ordered[i]; }
    forall j | 0 <= j < |page| && i >= n ensures page[j] != ordered[i] {
      assert SentAt(ordered[j]) > SentAt(ordered[i]);
    }
  }

  // ------------------------------------------------ one request

  function In(shown: seq<Message>): Message -> bool { (m: Message) => m in shown }

  function Newest(ms: seq<Message>): (r: Message)
    requires ms != []
    ensures r in ms && forall m :: m in ms ==> m.createdAt <= r.createdAt
  {
    if |ms| == 1 then ms[0]
    else
      var r := Newest(ms[1..]);
      if ms[0].createdAt > r.createdAt then ms[0] else r
  }

  /** The messages a request ranges over. */
  function InRange(v: Visit, chatId: Id, cursor: Option<int>): seq<Message> {
    After(ChatRows(v.messages, chatId), SentAt, cursor)
  }

  /** Some message shown before still lies in the request's range, and fewer messages of the range than
      the page size are newer than the newest of those. */
  predicate ShowsAgain(shown: seq<Message>, v: Visit, chatId: Id, cursor: Option<int>, n: nat) {
    var range := InRange(v, chatId, cursor);
    var left := Filter(In(shown), range);
    left != [] && |Filter(NewerThan(Newest(left)), range)| < n
  }

  lemma NewerShrinks(range: seq<Message>, x: Message, y: Message)
    requires x.createdAt <= y.createdAt
    ensures |Filter(NewerThan(y), range)| <= |Filter(NewerThan(x), range)|
  {
    if range != [] { NewerShrinks(range[1..], x, y); }
  }

  lemma RangeHasNoTies(rows: seq<Message>, cursor: Option<int>)
    requires NoTies(SentAt, rows)
    ensures NoTies(SentAt, After(rows, SentAt, cursor))
  {
    if rows != [] {
      RangeHasNoTies(rows[1..], cursor);
      FilterMembers(Below(SentAt, cursor), rows[1..]);
      var rest := After(rows[1..], SentAt, cursor);
      forall j | 0 <= j < |rest| ensures SentAt(rest[j]) != SentAt(rows[0]) { assert rest[j] in rows[1..]; }
    }
  }

  /** A page repeats a message shown before exactly then. */
  lemma PageRepeatsIff(shown: seq<Message>, v: Visit, chatId: Id, cursor: Option<int>, n: nat)
    requires NoTies(SentAt, ChatRows(v.messages, chatId)) && Answered(ToRequest(chatId, v), SentAt, cursor)
    ensures (exists m :: m in PageOf(v, n) && m in shown) <==> ShowsAgain(shown, v, chatId, cursor, n)
  {
    var range := InRange(v, chatId, cursor);
    var left := Filter(In(shown), range);
    RangeHasNoTies(ChatRows(v.messages, chatId), cursor);
    FilterMembers(In(shown), range);
    SameMembers(range, v.ordered);
    hide NoTies, InRange, Filter, SortedBy;
    if m :| m in PageOf(v, n) && m in shown {
      PageInOrder(v, n, m);
      assert m in left;
      OnPageIff(range, v.ordered, m, n);
      NewerShrinks(range, m, Newest(left));
    }
    if ShowsAgain(shown, v, chatId, cursor, n) {
      OnPageIff(range, v.ordered, Newest(left), n);
    }
  }

  lemma PageInOrder(v: Visit, n: nat, m: Message)
    requires m in PageOf(v, n)
    ensures m in v.ordered
  {
    var i :| 0 <= i < |PageOf(v, n)| && PageOf(v, n)[i] == m;
    assert v.ordered[i] == m;
  }

  // ------------------------------------------------ whole walks

  /** A client's walk during which messages may come and go, also the cursor messages. */
  ghost predicate IsAskedWalk(walk: seq<Visit>, chatId: Id, n: nat) {
    walk == [] ||
    var m := |walk| - 1;
    IsAskedWalk(walk[..m], chatId, n) && Asks(walk[..m], walk[m], chatId, n)
  }

  ghost predicate NoTiesIn(walk: seq<Visit>, chatId: Id) {
    forall k :: 0 <= k < |walk| ==> NoTies(SentAt, ChatRows(walk[k].messages, chatId))
  }

  /** The k-th request's page repeats a message of an earlier page, in terms of its table and cursor. */
  predicate RepeatsAt(walk: seq<Visit>, chatId: Id, n: nat, k: nat)
    requires k < |walk|
  {
    ShowsAgain(Shown(walk[..k], n), walk[k], chatId, CursorDate(walk[k].messages, LastId(walk[..k], n)), n)
  }

  lemma PageIsDistinct(v: Visit, chatId: Id, cursor: Option<int>, n: nat)
    requires DistinctMessages(v.messages) && Answered(ToRequest(chatId, v), SentAt, cursor)
    ensures Distinct(PageOf(v, n))
  {
    DistinctRows(v.messages);
    FilterDistinct(OfChat(chatId), v.messages);
    hide DistinctMessages, Answered, ChatRows;
    AnswerBelowCursor(ToRequest(chatId, v), SentAt, cursor);
  }

  lemma LastAsk(walk: seq<Visit>, chatId: Id, n: nat)
    requires walk != [] && IsAskedWalk(walk, chatId, n) && NoTiesIn(walk, chatId)
    ensures var m := |walk| - 1;
            IsAskedWalk(walk[..m], chatId, n) && Asks(walk[..m], walk[m], chatId, n)
            && NoTiesIn(walk[..m], chatId) && NoTies(SentAt, ChatRows(walk[m].messages, chatId))
            && Shown(walk, n) == Shown(walk[..m], n) + PageOf(walk[m], n)
  {
    hide Asks, NoTies, ChatRows;
  }

  lemma StepRepeats(walk: seq<Visit>, chatId: Id, n: nat)
    requires walk != [] && IsAskedWalk(walk, chatId, n) && NoTiesIn(walk, chatId)
    ensures var m := |walk| - 1;
            Distinct(Shown(walk, n)) <==> Distinct(Shown(walk[..m], n)) && !RepeatsAt(walk, chatId, n, m)
  {
    var m := |walk| - 1;
    LastAsk(walk, chatId, n);
    var cursor := CursorDate(walk[m].messages, LastId(walk[..m], n));
    assert DistinctMessages(walk[m].messages) && Answered(ToRequest(chatId, walk[m]), SentAt, cursor);
    hide *;
    PageIsDistinct(walk[m], chatId, cursor, n);
    DistinctParts(Shown(walk[..m], n), PageOf(walk[m], n));
    PageRepeatsIff(Shown(walk[..m], n), walk[m], chatId, cursor, n);
    RepeatsAtIs(walk, chatId, n, m);
  }

  lemma RepeatsAtIs(walk: seq<Visit>, chatId: Id, n: nat, k: nat)
    requires k < |walk|
    ensures RepeatsAt(walk, chatId, n, k)
       <==> ShowsAgain(Shown(walk[..k], n), walk[k], chatId, CursorDate(walk[k].messages, LastId(walk[..k], n)), n)
  {
  }

  /** Some request of the walk repeats a message of an earlier page. */
  predicate Repeats(walk: seq<Visit>, chatId: Id, n: nat) {
    exists k :: 0 <= k < |walk| && RepeatsAt(walk, chatId, n, k)
  }

  lemma RepeatsAtInit(walk: seq<Visit>, chatId: Id, n: nat, m: nat, k: nat)
    requires k < m <= |walk|
    ensures RepeatsAt(walk[..m], chatId, n, k) == RepeatsAt(walk, chatId, n, k)
  {
    hide *;
    assert walk[..m][..k] == walk[..k];
    RepeatsAtIs(walk, chatId, n, k);
    RepeatsAtIs(walk[..m], chatId, n, k);
  }

  lemma RepeatsSnoc(walk: seq<Visit>, chatId: Id, n: nat)
    requires walk != []
    ensures var m := |walk| - 1;
            Repeats(walk, chatId, n) <==> Repeats(walk[..m], chatId, n) || RepeatsAt(walk, chatId, n, m)
  {
    var m := |walk| - 1;
    hide RepeatsAt;
    forall k | 0 <= k < m ensures RepeatsAt(walk[..m], chatId, n, k) == RepeatsAt(walk, chatId, n, k) {
      RepeatsAtInit(walk, chatId, n, m, k);
    }
  }

  lemma NoRepeatsAtStart(chatId: Id, n: nat)
    ensures !Repeats([], chatId, n) && Distinct(Shown([], n))
  {
  }

  /** Whatever is sent or removed between the requests, even the cursor messages: without ties a walk
      shows no message twice if and only if at no request a message shown before still lies in its range
      with fewer than a page of newer ones in front. */
  lemma {:induction false} WalkRepeatsIff(walk: seq<Visit>, chatId: Id, n: nat)
    requires IsAskedWalk(walk, chatId, n) && NoTiesIn(walk, chatId)
    ensures Distinct(Shown(walk, n)) <==> !Repeats(walk, chatId, n)
    decreases |walk|
  {
    hide *;
    if walk == [] {
      NoRepeatsAtStart(chatId, n);
    } else {
      LastAsk(walk, chatId, n);
      StepRepeats(walk, chatId, n);
      WalkRepeatsIff(walk[..|walk| - 1], chatId, n);
      RepeatsSnoc(walk, chatId, n);
    }
  }

  /** After a removed cursor the next page is the chat's newest again: it repeats a shown message if and
      only if some shown message is still in the chat and fewer than a page of the chat's messages are
      newer than the newest of those. */
  lemma RemovedCursorRepeatsIff(walk: seq<Visit>, v: Visit, chatId: Id, n: nat)
    requires walk != [] && Asks(walk, v, chatId, n) && NoTies(SentAt, ChatRows(v.messages, chatId))
    requires FindMessage(v.messages, LastId(walk, n)).None?
    ensures var rows, shown := ChatRows(v.messages, chatId), Shown(walk, n);
            var left := Filter(In(shown), rows);
            (exists m :: m in PageOf(v, n) && m in shown)
            <==> left != [] && |Filter(NewerThan(Newest(left)), rows)| < n
  {
    var rows := ChatRows(v.messages, chatId);
    FilterAll(Below(SentAt, None), rows);
    assert CursorDate(v.messages, LastId(walk, n)) == None;
    PageRepeatsIff(Shown(walk, n), v, chatId, None, n);
  }

  // ------------------------------------------------ a run where it happens

  function Sends(): seq<Event> {
    [Sent("a", "b", "", 1, "c", "1"), Sent("a", "b", "", 2, "c", "2"), Sent("a", "b", "", 3, "c", "3")]
  }

  function Mail(id: Id, at: int): Message { Message(id, "c", "a", "", at) }

  lemma RunNext(events: seq<Event>, e: Event)
    ensures Run(events + [e]) == Apply(Run(events), e).0
  {
    hide Apply;
    assert (events + [e])[..|events|] == events;
  }

  lemma SentFirst(e: Event)
    requires e == Sent("a", "b", "", 1, "c", "1")
    ensures var s := Apply(EMPTY, e).0;
            s == Store(["c"], [Participant("c", "b"), Participant("c", "a")], [Mail("1", 1)], [ReadMark("1", "a")])
  {
  }

  lemma SentNext(s: Store, id: Id, at: int)
    requires s.chats == ["c"] && s.participants == [Participant("c", "b"), Participant("c", "a")]
             && CanCreate(s, id, "a")
    ensures Apply(s, Sent("a", "b", "", at, "c", id)).0 == AddMessage(s, Mail(id, at))
  {
    assert Participant("c", "a") == s.participants[1] && Participant("c", "b") == s.participants[0];
    assert Both(s.participants, "c", "a", "b");
    assert FindChat(s.chats, s.participants, "a", "b") == Some("c");
  }

  lemma Distinct123()
    ensures "1" != "2" && "1" != "3" && "2" != "3"
  {
    assert "1"[0] != "2"[0] && "1"[0] != "3"[0] && "2"[0] != "3"[0];
  }

  lemma FindInOne(a: Message, id: Id)
    ensures FindMessage([a], id) == if a.id == id then Some(a) else None
  {
    assert [a][1..] == [];
  }

  lemma FindInTwo(a: Message, b: Message, id: Id)
    ensures FindMessage([a, b], id) == if a.id == id then Some(a) else if b.id == id then Some(b) else None
  {
    assert [a, b][1..] == [b];
    FindInOne(b, id);
  }

  lemma TwoSent(s: Store)
    requires s == Store(["c"], [Participant("c", "b"), Participant("c", "a")], [Mail("1", 1)], [ReadMark("1", "a")])
    ensures var t := Apply(s, Sent("a", "b", "", 2, "c", "2")).0;
            t == Store(s.chats, s.participants, [Mail("1", 1), Mail("2", 2)], [ReadMark("1", "a"), ReadMark("2", "a")])
  {
    Distinct123();
    FindInOne(Mail("1", 1), "2");
    hide Apply;
    SentNext(s, "2", 2);
  }

  lemma ThreeSent(s: Store)
    requires s.chats == ["c"] && s.participants == [Participant("c", "b"), Participant("c", "a")]
    requires s.messages == [Mail("1", 1), Mail("2", 2)] && s.marks == [ReadMark("1", "a"), ReadMark("2", "a")]
    ensures Apply(s, Sent("a", "b", "", 3, "c", "3")).0.messages == [Mail("1", 1), Mail("2", 2), Mail("3", 3)]
  {
    Distinct123();
    FindInTwo(Mail("1", 1), Mail("2", 2), "3");
    hide Apply;
    SentNext(s, "3", 3);
  }

  lemma RunOfThree(e1: Event, e2: Event, e3: Event)
    ensures Run([e1, e2, e3]) == Apply(Apply(Apply(EMPTY, e1).0, e2).0, e3).0
  {
    assert Run([]) == EMPTY;
    hide Run, Apply;
    RunNext([], e1);
    RunNext([e1], e2);
    RunNext([e1, e2], e3);
    assert [] + [e1] == [e1] && [e1] + [e2] == [e1, e2] && [e1, e2] + [e3] == [e1, e2, e3];
  }

  lemma RunOfSends()
    ensures Run(Sends()).messages == [Mail("1", 1), Mail("2", 2), Mail("3", 3)]
  {
    var e1, e2, e3 := Sends()[0], Sends()[1], Sends()[2];
    assert Sends() == [e1, e2, e3];
    hide Run, Apply, Sends;
    RunOfThree(e1, e2, e3);
    SentFirst(e1);
    TwoSent(Apply(EMPTY, e1).0);
    ThreeSent(Apply(Apply(EMPTY, e1).0, e2).0);
  }

  lemma RemoveSecond(s: Store)
    requires s.messages == [Mail("1", 1), Mail("2", 2), Mail("3", 3)]
    ensures Apply(s, Removed(["2"], "a")).0.messages == [Mail("1", 1), Mail("3", 3)]
  {
    Distinct123();
    var p, q := Listed(["2"]), NotListed(["2"]);
    assert s.messages[1..] == [Mail("2", 2), Mail("3", 3)] && s.messages[1..][1..] == [Mail("3", 3)]
           && [Mail("3", 3)][1..] == [];
    assert Filter(p, [Mail("3", 3)]) == [] && Filter(q, [Mail("3", 3)]) == [Mail("3", 3)];
    assert Filter(p, s.messages[1..]) == [Mail("2", 2)] && Filter(q, s.messages[1..]) == [Mail("3", 3)];
    assert Filter(p, s.messages) == [Mail("2", 2)] && Filter(q, s.messages) == [Mail("1", 1), Mail("3", 3)];
  }

  function FirstVisit(): Visit {
    Visit([Mail("1", 1), Mail("2", 2), Mail("3", 3)], [Mail("3", 3), Mail("2", 2), Mail("1", 1)])
  }

  function SecondVisit(): Visit { Visit([Mail("1", 1), Mail("3", 3)], [Mail("3", 3), Mail("1", 1)]) }

  lemma AnswersAll(v: Visit, cursor: Id)
    requires forall m :: m in v.messages ==> m.chatId == "c"
    requires CursorDate(v.messages, cursor) == None
    requires multiset(v.messages) == multiset(v.ordered) && SortedBy(NewestFirst(SentAt), v.ordered)
    ensures IsAnswer(v, "c", cursor)
  {
    FilterAll(OfChat("c"), v.messages);
    FilterAll(Below(SentAt, None), v.messages);
  }

  lemma NewestFirstByDate(ms: seq<Message>)
    requires forall i, j :: 0 <= i < j < |ms| ==> SentAt(ms[i]) >= SentAt(ms[j])
    ensures SortedBy(NewestFirst(SentAt), ms)
  {
  }

  lemma FirstTable()
    ensures IsTable(FirstVisit().messages) && CursorDate(FirstVisit().messages, "") == None
    ensures var v := FirstVisit();
            multiset(v.messages) == multiset(v.ordered) && SortedBy(NewestFirst(SentAt), v.ordered)
  {
    Distinct123();
    NewestFirstByDate(FirstVisit().ordered);
  }

  lemma SecondTable()
    ensures IsTable(SecondVisit().messages) && CursorDate(SecondVisit().messages, "2") == None
    ensures var v := SecondVisit();
            multiset(v.messages) == multiset(v.ordered) && SortedBy(NewestFirst(SentAt), v.ordered)
  {
    Distinct123();
    FindInTwo(Mail("1", 1), Mail("3", 3), "2");
    NewestFirstByDate(SecondVisit().ordered);
  }

  lemma Pages()
    ensures PageOf(FirstVisit(), 2) == [Mail("3", 3), Mail("2", 2)] && LastId([FirstVisit()], 2) == "2"
    ensures PageOf(SecondVisit(), 2) == [Mail("3", 3), Mail("1", 1)]
  {
  }

  lemma FirstAsks()
    ensures Asks([], FirstVisit(), "c", 2)
  {
    FirstTable();
    var v := FirstVisit();
    assert forall m :: m in v.messages ==> m.chatId == "c";
    hide FirstVisit, CursorDate, IsTable, SortedBy, IsAnswer;
    AnswersAll(v, "");
  }

  lemma SecondAsks()
    ensures Asks([FirstVisit()], SecondVisit(), "c", 2)
  {
    SecondTable();
    Pages();
    var v := SecondVisit();
    assert forall m :: m in v.messages ==> m.chatId == "c";
    hide FirstVisit, SecondVisit, CursorDate, IsTable, SortedBy, IsAnswer, PageOf, LastId;
    AnswersAll(v, "2");
  }

  lemma ShownOfTwo(a: Visit, b: Visit, n: nat)
    ensures Shown([a, b], n) == PageOf(a, n) + PageOf(b, n)
  {
    assert [a, b] == [a] + [b] && [a] == [] + [a];
    ShownSnoc([], a, n);
    ShownSnoc([a], b, n);
  }

  lemma AskedTwice(a: Visit, b: Visit, chatId: Id, n: nat)
    requires Asks([], a, chatId, n) && Asks([a], b, chatId, n)
    ensures IsAskedWalk([a, b], chatId, n)
  {
    hide Asks;
    assert [a, b][..1] == [a] && [a][..0] == [];
    assert IsAskedWalk([a], chatId, n);
  }

  /** Three sends; the first page of two shows the third and the second; the second is removed; the next
      request shows the third again. */
  lemma RemovedCursorRun() returns (first: Visit, second: Visit)
    ensures first.messages == Run(Sends()).messages && second.messages == Run(Sends() + [Removed(["2"], "a")]).messages
    ensures IsAskedWalk([first, second], "c", 2) && !Distinct(Shown([first, second], 2))
  {
    first, second := FirstVisit(), SecondVisit();
    RunOfSends();
    RunNext(Sends(), Removed(["2"], "a"));
    RemoveSecond(Run(Sends()));
    hide Run, Sends, Apply, Asks, PageOf, Shown, IsAskedWalk;
    FirstAsks();
    SecondAsks();
    Pages();
    AskedTwice(first, second, "c", 2);
    ShownOfTwo(first, second, 2);
    assert Mail("3", 3) in PageOf(first, 2) && Mail("3", 3) in PageOf(second, 2);
    CommonRepeats(PageOf(first, 2), PageOf(second, 2), Mail("3", 3));
  }
}
