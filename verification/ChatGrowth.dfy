/** A walk through a chat while messages are sent and read: what every run gives the walk's theorem. */
module ChatGrowth {
  import opened Tables
  import opened Keyset
  import opened Messenger
  import opened MessengerRuns
  import opened ChatPages
  import opened ChatAccess

  /** Every message in the table is older. */
  ghost predicate OlderThan(messages: seq<Message>, now: int) { forall m :: m in messages ==> m.createdAt < now }

  /** From event `i` on nothing is removed, and what is sent is later than all of `messages`. */
  ghost predicate OnlyAdds(events: seq<Event>, i: nat, messages: seq<Message>) {
    forall k :: i <= k < |events| ==> !events[k].Removed? && (events[k].Sent? ==> OlderThan(messages, events[k].now))
  }

  lemma EventAppends(s: Store, e: Event)
    requires !e.Removed?
    ensures var t := Apply(s, e).0;
            t.messages == s.messages ||
            (e.Sent? && exists m: Message ::
               m.createdAt == e.now && m.id == e.messageId && t.messages == s.messages + [m])
  {
  }

  /** The messages added since, all newer than `old`. */
  lemma {:induction false} Added(events: seq<Event>, i: nat, older: seq<Message>) returns (added: seq<Message>)
    requires i <= |events| && OnlyAdds(events, i, older)
    ensures Run(events).messages == Run(events[..i]).messages + added
    ensures forall x, y :: x in added && y in older ==> x.createdAt > y.createdAt
    decreases |events|
  {
    hide Apply;
    if i == |events| {
      assert events[..i] == events;
      added := [];
    } else {
      var before, e := events[..|events| - 1], events[|events| - 1];
      assert before[..i] == events[..i];
      added := Added(before, i, older);
      EventAppends(Run(before), e);
      if Run(events).messages != Run(before).messages {
        var m: Message :| m.createdAt == e.now && Run(events).messages == Run(before).messages + [m];
        added := added + [m];
        hide Run;
      }
    }
  }

  lemma GrownBy(a: seq<Message>, added: seq<Message>, chatId: Id)
    requires forall x, y :: x in added && y in a ==> x.createdAt > y.createdAt
    ensures GrownFrom(ChatRows(a, chatId), ChatRows(a + added, chatId), SentAt)
  {
    FilterAppend(OfChat(chatId), a, added);
    var rows, extra := ChatRows(a, chatId), ChatRows(added, chatId);
    FilterMembers(OfChat(chatId), a);
    FilterMembers(OfChat(chatId), added);
    hide Filter;
    assert multiset(rows + extra) - multiset(rows) == multiset(extra);
  }

  lemma OnlyAddsWithin(events: seq<Event>, i: nat, j: nat, k: nat, older: seq<Message>)
    requires OnlyAdds(events, i, older) && i <= j <= k <= |events|
    ensures OnlyAdds(events[..k], j, older) && events[..k][..j] == events[..j]
  {
  }

  /** Between two moments of the run no message goes, and the chat grows from what the earlier one had. */
  lemma ChatGrewSince(events: seq<Event>, i: nat, k: nat, chatId: Id)
    requires i <= k <= |events| && OnlyAdds(events, i, Run(events[..i]).messages)
    ensures GrownFrom(ChatRows(Run(events[..i]).messages, chatId), ChatRows(Run(events[..k]).messages, chatId), SentAt)
  {
    OnlyAddsWithin(events, i, i, k, Run(events[..i]).messages);
    var added := Added(events[..k], i, Run(events[..i]).messages);
    hide Run, ChatRows, OnlyAdds;
    GrownBy(Run(events[..i]).messages, added, chatId);
  }

  lemma MessagesStay(events: seq<Event>, i: nat, j: nat, k: nat, older: seq<Message>, m: Message)
    requires i <= j <= k <= |events| && OnlyAdds(events, i, older) && m in Run(events[..j]).messages
    ensures m in Run(events[..k]).messages
  {
    OnlyAddsWithin(events, i, j, k, older);
    var added := Added(events[..k], j, older);
    hide Run, OnlyAdds;
  }

  // ------------------------------------------------ requests between the events

  /** A request that arrives after the first `at` events, and the order the database chose for its rows. */
  datatype Ask = Ask(at: nat, ordered: seq<Message>)

  function SeenAt(events: seq<Event>, a: Ask): Visit
    requires a.at <= |events|
  {
    Visit(Run(events[..a.at]).messages, a.ordered)
  }

  /** A client walks a chat while the run goes on: each request comes no earlier than the one before,
      follows a page that had a last message, and is answered from the tables of its moment. */
  ghost predicate IsRunWalk(events: seq<Event>, asks: seq<Ask>, chatId: Id, n: nat) {
    asks == [] ||
    var m := |asks| - 1;
    IsRunWalk(events, asks[..m], chatId, n) && NextAsk(events, asks[..m], asks[m], chatId, n)
  }

  ghost predicate NextAsk(events: seq<Event>, asks: seq<Ask>, a: Ask, chatId: Id, n: nat) {
    InTime(events, asks) && a.at <= |events| && IsAnswer(SeenAt(events, a), chatId, LastId(Visits(events, asks), n)) &&
    (asks != [] ==> var b := asks[|asks| - 1]; b.at <= a.at && PageOf(SeenAt(events, b), n) != [])
  }

  predicate InTime(events: seq<Event>, asks: seq<Ask>) { forall a :: a in asks ==> a.at <= |events| }

  function Visits(events: seq<Event>, asks: seq<Ask>): (walk: seq<Visit>)
    requires InTime(events, asks)
    ensures |walk| == |asks| && forall k :: 0 <= k < |asks| ==> walk[k] == SeenAt(events, asks[k])
  {
    seq(|asks|, (k: int) requires 0 <= k < |asks| => SeenAt(events, asks[k]))
  }

  /** The database generates no empty id. */
  predicate IdsSet(events: seq<Event>) { forall e :: e in events && e.Sent? ==> e.messageId != "" }

  lemma RemoveKeepsIds(s: Store, e: Event)
    requires e.Removed?
    ensures forall m :: m in Apply(s, e).0.messages ==> m in s.messages
  {
    FilterMembers(NotListed(e.messageIds), s.messages);
  }

  lemma {:induction false} RunIds(events: seq<Event>)
    requires IdsSet(events)
    ensures forall m :: m in Run(events).messages ==> m.id != ""
    decreases |events|
  {
    if events != [] {
      var before, e := events[..|events| - 1], events[|events| - 1];
      assert e in events && IdsSet(before);
      RunIds(before);
      assert Run(events) == Apply(Run(before), e).0;
      if e.Removed? { RemoveKeepsIds(Run(before), e); } else { EventAppends(Run(before), e); }
      hide Run, Apply;
    }
  }

  lemma RunTable(events: seq<Event>, k: nat)
    requires IdsSet(events) && k <= |events|
    ensures IsTable(Run(events[..k]).messages)
  {
    RunIsReachable(events[..k]);
    assert IdsSet(events[..k]);
    RunIds(events[..k]);
    hide Run;
  }

  // ------------------------------------------------ the run's walk is a chat walk

  lemma LastVisitOf(events: seq<Event>, asks: seq<Ask>)
    requires asks != [] && InTime(events, asks[..|asks| - 1]) && asks[|asks| - 1].at <= |events|
    ensures var m := |asks| - 1;
            InTime(events, asks) && Visits(events, asks) == Visits(events, asks[..m]) + [SeenAt(events, asks[m])]
  {
    hide SeenAt;
    var m := |asks| - 1;
    assert asks == asks[..m] + [asks[m]];
  }

  lemma LastAsk(events: seq<Event>, asks: seq<Ask>, chatId: Id, n: nat)
    requires IsRunWalk(events, asks, chatId, n) && asks != []
    ensures var m := |asks| - 1;
            IsRunWalk(events, asks[..m], chatId, n) && NextAsk(events, asks[..m], asks[m], chatId, n)
            && InTime(events, asks) && Visits(events, asks) == Visits(events, asks[..m]) + [SeenAt(events, asks[m])]
  {
    hide IsAnswer, LastId, PageOf, Visits, SeenAt, InTime;
    LastVisitOf(events, asks);
  }

  lemma {:induction false} RunWalkInTime(events: seq<Event>, asks: seq<Ask>, chatId: Id, n: nat)
    requires IsRunWalk(events, asks, chatId, n)
    ensures InTime(events, asks) && (asks != [] ==> asks[0].at <= asks[|asks| - 1].at)
    decreases |asks|
  {
    hide Run, IsAnswer, LastId, PageOf, Visits;
    if asks != [] {
      LastAsk(events, asks, chatId, n);
      RunWalkInTime(events, asks[..|asks| - 1], chatId, n);
    }
  }

  lemma PageInTable(v: Visit, chatId: Id, cursor: Id, n: nat)
    requires IsAnswer(v, chatId, cursor) && PageOf(v, n) != []
    ensures var p := PageOf(v, n); p[|p| - 1] in v.messages
  {
    var p := PageOf(v, n);
    assert p[|p| - 1] == v.ordered[|p| - 1];
    RowsAreOfChat(v, chatId, cursor, p[|p| - 1]);
  }

  /** No message goes between two requests, so the cursor message is there. */
  lemma CursorStays(events: seq<Event>, asks: seq<Ask>, a: Ask, chatId: Id, n: nat)
    requires IsRunWalk(events, asks, chatId, n) && asks != [] && NextAsk(events, asks, a, chatId, n)
    requires OnlyAdds(events, asks[0].at, Run(events[..asks[0].at]).messages)
    ensures CursorKept(SeenAt(events, asks[|asks| - 1]), SeenAt(events, a), n)
  {
    hide Run, IsAnswer, LastId, PageOf, Visits, IsRunWalk, OnlyAdds;
    var b := asks[|asks| - 1];
    RunWalkInTime(events, asks, chatId, n);
    LastAsk(events, asks, chatId, n);
    var v := SeenAt(events, b);
    var m := PageOf(v, n)[|PageOf(v, n)| - 1];
    PageInTable(v, chatId, LastId(Visits(events, asks[..|asks| - 1]), n), n);
    MessagesStay(events, asks[0].at, b.at, a.at, Run(events[..asks[0].at]).messages, m);
  }

  lemma VisitIs(events: seq<Event>, asks: seq<Ask>, a: Ask, chatId: Id, n: nat)
    requires IsRunWalk(events, asks, chatId, n) && NextAsk(events, asks, a, chatId, n) && IdsSet(events)
    requires asks != [] ==> OnlyAdds(events, asks[0].at, Run(events[..asks[0].at]).messages)
    ensures NextVisit(Visits(events, asks), SeenAt(events, a), chatId, n)
  {
    RunTable(events, a.at);
    if asks != [] { CursorStays(events, asks, a, chatId, n); }
    hide Run, IsAnswer, LastId, PageOf, IsTable, OnlyAdds, CursorKept;
  }

  lemma ChatWalkSnoc(walk: seq<Visit>, v: Visit, chatId: Id, n: nat)
    requires IsChatWalk(walk, chatId, n) && NextVisit(walk, v, chatId, n)
    ensures IsChatWalk(walk + [v], chatId, n)
  {
    hide NextVisit;
    assert (walk + [v])[..|walk|] == walk;
  }

  lemma GrowsSnoc(walk: seq<Visit>, v: Visit, chatId: Id, rows: seq<Message>)
    requires ChatGrows(walk, chatId, rows) && GrownFrom(rows, ChatRows(v.messages, chatId), SentAt)
    requires walk == [] ==> ChatRows(v.messages, chatId) == rows
    ensures ChatGrows(walk + [v], chatId, rows)
  {
    hide GrownFrom, ChatRows;
    KeysetIndexed(walk, chatId);
    assert (walk + [v])[..|walk|] == walk;
    KeysetSnoc(chatId, walk + [v]);
    var ks := KeysetOf(chatId, walk);
    assert (ks + [ToRequest(chatId, v)])[..|ks|] == ks;
  }

  /** The messages of the chat when the walk's first request arrived. */
  function AtStart(events: seq<Event>, asks: seq<Ask>, chatId: Id): seq<Message>
    requires InTime(events, asks) && asks != []
  {
    ChatRows(Run(events[..asks[0].at]).messages, chatId)
  }

  lemma NoVisits(events: seq<Event>, chatId: Id, n: nat, rows: seq<Message>)
    ensures IsChatWalk(Visits(events, []), chatId, n) && ChatGrows(Visits(events, []), chatId, rows)
  {
  }

  lemma {:induction false} RunWalkIsChatWalk(events: seq<Event>, asks: seq<Ask>, at: nat, chatId: Id, n: nat)
    requires IsRunWalk(events, asks, chatId, n) && IdsSet(events) && at <= |events|
    requires (asks != [] ==> asks[0].at == at) && OnlyAdds(events, at, Run(events[..at]).messages)
    ensures InTime(events, asks) && IsChatWalk(Visits(events, asks), chatId, n)
    ensures ChatGrows(Visits(events, asks), chatId, ChatRows(Run(events[..at]).messages, chatId))
    decreases |asks|
  {
    hide *;
    var rows := ChatRows(Run(events[..at]).messages, chatId);
    if asks == [] {
      NoVisits(events, chatId, n, rows);
      assert InTime(events, []) by { NobodyAsks(events); }
    } else {
      var before, a := asks[..|asks| - 1], asks[|asks| - 1];
      LastAsk(events, asks, chatId, n);
      AskSees(events, before, a, chatId, n);
      RunWalkIsChatWalk(events, before, at, chatId, n);
      VisitIs(events, before, a, chatId, n);
      ChatWalkSnoc(Visits(events, before), SeenAt(events, a), chatId, n);
      RunWalkInTime(events, asks, chatId, n);
      ChatGrewSince(events, at, a.at, chatId);
      GrowsSnoc(Visits(events, before), SeenAt(events, a), chatId, rows);
    }
  }

  lemma NobodyAsks(events: seq<Event>)
    ensures InTime(events, [])
  {
  }

  lemma AskSees(events: seq<Event>, asks: seq<Ask>, a: Ask, chatId: Id, n: nat)
    requires NextAsk(events, asks, a, chatId, n)
    ensures a.at <= |events| && InTime(events, asks) && SeenAt(events, a).messages == Run(events[..a.at]).messages
  {
  }

  /** A client walks a chat while the run goes on with sends and reads, in this chat or in others: if the
      chat had no equal timestamps at the first request and what is sent later is newer, the finished walk
      has shown every message the chat had then exactly once, newest first, in as many non-empty pages as
      the first answer's `pagesCount` announced. */
  lemma RunWalkIsComplete(events: seq<Event>, asks: seq<Ask>, chatId: Id, pageNumber: int, n: nat)
    requires IsRunWalk(events, asks, chatId, n) && IdsSet(events) && InTime(events, asks) && asks != [] && n > 0
    requires OnlyAdds(events, asks[0].at, Run(events[..asks[0].at]).messages)
    requires NoTies(SentAt, AtStart(events, asks, chatId)) && Finished(Visits(events, asks), n)
    ensures var walk, rows := Visits(events, asks), AtStart(events, asks, chatId);
            multiset(Shown(walk, n)) == multiset(rows) && StrictlyDescending(SentAt, Shown(walk, n))
            && NonEmptyPages(KeysetOf(chatId, walk), n) == ToPagination(walk[0], chatId, pageNumber, n).pagesCount
  {
    RunWalkIsChatWalk(events, asks, asks[0].at, chatId, n);
    var walk, rows := Visits(events, asks), AtStart(events, asks, chatId);
    assert walk[0] == SeenAt(events, asks[0]);
    assert rows == ChatRows(walk[0].messages, chatId);
    hide IsRunWalk, Run, OnlyAdds, ChatRows, IsChatWalk, ChatGrows, Finished, NoTies, Shown, StrictlyDescending,
         KeysetOf,
      ToPagination, NonEmptyPages, Visits;
    ChatWalkIsComplete(walk, chatId, rows, pageNumber, n);
  }
}
