/** `order by`: every answer the database may give, and when there is only one. */
module Ordering {
  import opened Tables

  datatype Direction = Asc | Desc

  ghost predicate SortedBy<T>(le: (T, T) -> bool, xs: seq<T>) {
    forall i, j :: 0 <= i < j < |xs| ==> le(xs[i], xs[j])
  }

  /** `ordered` is one of the answers `order by` may give for `rows`: the same rows, sorted;
      rows that compare equal may come in any order. */
  ghost predicate IsOrderBy<T>(le: (T, T) -> bool, rows: seq<T>, ordered: seq<T>) {
    multiset(rows) == multiset(ordered) && SortedBy(le, ordered)
  }

  ghost predicate StrictOn<T>(le: (T, T) -> bool, xs: seq<T>) {
    forall x, y :: x in xs && y in xs && le(x, y) && le(y, x) ==> x == y
  }

  lemma SameMembers<T>(a: seq<T>, b: seq<T>)
    requires multiset(a) == multiset(b)
    ensures |a| == |b| && forall x :: x in a <==> x in b
  {
    assert |multiset(a)| == |a| && |multiset(b)| == |b|;
    forall x ensures x in a <==> x in b {
      assert x in a <==> x in multiset(a);
      assert x in b <==> x in multiset(b);
    }
  }

  lemma SortedTail<T>(le: (T, T) -> bool, xs: seq<T>)
    requires SortedBy(le, xs) && xs != []
    ensures SortedBy(le, xs[1..])
    ensures forall x :: x in xs[1..] ==> le(xs[0], x)
  {
    forall x | x in xs[1..] ensures le(xs[0], x) {
      var i :| 0 <= i < |xs[1..]| && xs[1..][i] == x;
      assert xs[i + 1] == x;
    }
  }

  lemma StrictTail<T>(le: (T, T) -> bool, xs: seq<T>)
    requires StrictOn(le, xs) && xs != []
    ensures StrictOn(le, xs[1..])
  {
  }

  lemma SameHead<T>(le: (T, T) -> bool, a: seq<T>, b: seq<T>)
    requires multiset(a) == multiset(b) && SortedBy(le, a) && SortedBy(le, b) && StrictOn(le, a) && a != []
    ensures b != [] && a[0] == b[0]
  {
    SameMembers(a, b);
    SortedTail(le, a);
    SortedTail(le, b);
    assert a == [a[0]] + a[1..] && b == [b[0]] + b[1..];
    var x, y := a[0], b[0];
    assert x in b && y in a;
    assert y == x || le(x, y);
    assert x == y || le(y, x);
  }

  lemma DropHead<T>(a: seq<T>, b: seq<T>)
    requires multiset(a) == multiset(b) && a != [] && b != [] && a[0] == b[0]
    ensures multiset(a[1..]) == multiset(b[1..])
  {
    assert a == [a[0]] + a[1..] && b == [b[0]] + b[1..];
    assert multiset(a[1..]) == multiset(a) - multiset{a[0]};
    assert multiset(b[1..]) == multiset(b) - multiset{b[0]};
  }

  /** Without ties there is exactly one answer. */
  lemma {:induction false} OrderUnique<T>(le: (T, T) -> bool, a: seq<T>, b: seq<T>)
    requires multiset(a) == multiset(b) && SortedBy(le, a) && SortedBy(le, b)
    requires StrictOn(le, a)
    ensures a == b
  {
    hide SortedBy, StrictOn;
    if a == [] {
      assert |multiset(b)| == 0;
    } else {
      SameHead(le, a, b);
      DropHead(a, b);
      SortedTail(le, a);
      SortedTail(le, b);
      StrictTail(le, a);
      OrderUnique(le, a[1..], b[1..]);
      assert a == [a[0]] + a[1..] && b == [b[0]] + b[1..];
    }
  }

  lemma StrictSame<T>(le: (T, T) -> bool, a: seq<T>, b: seq<T>)
    requires multiset(a) == multiset(b) && StrictOn(le, b)
    ensures StrictOn(le, a)
  {
    SameMembers(a, b);
  }

  // ------------------------------------------------ an answer always exists

  ghost predicate TotalPreorder<T(!new)>(le: (T, T) -> bool) {
    (forall x, y :: le(x, y) || le(y, x)) &&
    (forall x, y, z :: le(x, y) && le(y, z) ==> le(x, z))
  }

  function Insert<T>(le: (T, T) -> bool, x: T, xs: seq<T>): seq<T> {
    if xs == [] then [x]
    else if le(x, xs[0]) then [x] + xs
    else [xs[0]] + Insert(le, x, xs[1..])
  }

  function Sort<T>(le: (T, T) -> bool, xs: seq<T>): seq<T> {
    if xs == [] then [] else Insert(le, xs[0], Sort(le, xs[1..]))
  }

  lemma BelowAll<T(!new)>(le: (T, T) -> bool, x: T, xs: seq<T>)
    requires TotalPreorder(le) && SortedBy(le, xs) && xs != [] && le(x, xs[0])
    ensures forall j :: 0 <= j < |xs| ==> le(x, xs[j])
  {
    forall j | 0 <= j < |xs| ensures le(x, xs[j]) {
      if j > 0 { assert le(xs[0], xs[j]); }
    }
  }

  lemma SortedCons<T>(le: (T, T) -> bool, x: T, xs: seq<T>)
    requires SortedBy(le, xs) && forall j :: 0 <= j < |xs| ==> le(x, xs[j])
    ensures SortedBy(le, [x] + xs)
  {
    var r := [x] + xs;
    forall i, j | 0 <= i < j < |r| ensures le(r[i], r[j]) {
      assert r[j] == xs[j - 1];
      if i > 0 { assert r[i] == xs[i - 1]; }
    }
  }

  lemma {:induction false} InsertMembers<T>(le: (T, T) -> bool, x: T, xs: seq<T>)
    ensures multiset(Insert(le, x, xs)) == multiset(xs) + multiset{x}
  {
    if xs != [] {
      assert xs == [xs[0]] + xs[1..];
      InsertMembers(le, x, xs[1..]);
    }
  }

  lemma {:induction false} InsertSorted<T(!new)>(le: (T, T) -> bool, x: T, xs: seq<T>)
    requires TotalPreorder(le) && SortedBy(le, xs)
    ensures SortedBy(le, Insert(le, x, xs))
  {
    if xs == [] {
    } else if le(x, xs[0]) {
      BelowAll(le, x, xs);
      SortedCons(le, x, xs);
    } else {
      InsertSorted(le, x, xs[1..]);
      InsertMembers(le, x, xs[1..]);
      var t := Insert(le, x, xs[1..]);
      forall k | 0 <= k < |t| ensures le(xs[0], t[k]) {
        assert t[k] in multiset(t);
        if t[k] != x {
          assert t[k] in xs[1..];
          var i :| 0 <= i < |xs[1..]| && xs[1..][i] == t[k];
          assert le(xs[0], xs[i + 1]);
        }
      }
      SortedCons(le, xs[0], t);
    }
  }

  lemma {:induction false} SortIsOrderBy<T(!new)>(le: (T, T) -> bool, xs: seq<T>)
    requires TotalPreorder(le)
    ensures IsOrderBy(le, xs, Sort(le, xs))
  {
    if xs != [] {
      assert xs == [xs[0]] + xs[1..];
      SortIsOrderBy(le, xs[1..]);
      InsertSorted(le, xs[0], Sort(le, xs[1..]));
      InsertMembers(le, xs[0], Sort(le, xs[1..]));
    }
  }

  // ------------------------------------------------ what every order agrees on

  /** Two neighbours that compare equal. */
  predicate TieAt<T>(le: (T, T) -> bool, s: seq<T>, at: nat) {
    0 < at < |s| && le(s[at], s[at - 1])
  }

  function StrictlyBelow<T>(le: (T, T) -> bool, y: T): T -> bool { (x: T) => !le(y, x) }

  ghost predicate DownClosed<T>(p: T -> bool, xs: seq<T>) {
    forall i, j :: 0 <= i < j < |xs| && p(xs[j]) ==> p(xs[i])
  }

  lemma {:induction false} FilterPrefix<T>(p: T -> bool, xs: seq<T>)
    requires DownClosed(p, xs)
    ensures Filter(p, xs) == xs[..|Filter(p, xs)|]
  {
    if xs != [] {
      if p(xs[0]) {
        assert DownClosed(p, xs[1..]);
        FilterPrefix(p, xs[1..]);
      } else {
        FilterNone(p, xs);
      }
    }
  }

  /** Rows that come first by a condition, then the others. */
  lemma {:induction false} PartFirst<T>(p: T -> bool, q: T -> bool, xs: seq<T>)
    requires DownClosed(p, xs) && forall x :: x in xs ==> q(x) == !p(x)
    ensures xs == Filter(p, xs) + Filter(q, xs)
  {
    if xs != [] {
      if p(xs[0]) {
        assert DownClosed(p, xs[1..]);
        PartFirst(p, q, xs[1..]);
      } else {
        FilterNone(p, xs);
        FilterAll(q, xs);
      }
    }
  }

  lemma BelowIsDownClosed<T(!new)>(le: (T, T) -> bool, y: T, xs: seq<T>)
    requires TotalPreorder(le) && SortedBy(le, xs)
    ensures DownClosed(StrictlyBelow(le, y), xs)
  {
    forall i, j | 0 <= i < j < |xs| && !le(y, xs[j]) ensures !le(y, xs[i]) { assert le(xs[i], xs[j]); }
  }

  lemma BelowBoundary<T(!new)>(le: (T, T) -> bool, s: seq<T>, at: nat)
    requires TotalPreorder(le) && SortedBy(le, s) && 0 < at < |s| && !TieAt(le, s, at)
    ensures Filter(StrictlyBelow(le, s[at]), s) == s[..at]
  {
    var p := StrictlyBelow(le, s[at]);
    forall i | 0 <= i < at ensures p(s[..at][i]) {
      if i < at - 1 { assert le(s[i], s[at - 1]); }
    }
    forall i | 0 <= i < |s[at..]| ensures !p(s[at..][i]) {
      assert s[at..][i] == s[at + i];
      assert i == 0 || le(s[at], s[at + i]);
      assert le(s[at], s[at]);
    }
    assert s == s[..at] + s[at..];
    FilterAppend(p, s[..at], s[at..]);
    FilterAll(p, s[..at]);
    FilterNone(p, s[at..]);
  }

  /** Before a boundary without a tie every order has the same rows. */
  lemma SamePrefix<T(!new)>(le: (T, T) -> bool, s: seq<T>, t: seq<T>, at: nat)
    requires TotalPreorder(le) && SortedBy(le, s) && IsOrderBy(le, s, t) && at <= |s| && !TieAt(le, s, at)
    ensures |t| == |s| && multiset(t[..at]) == multiset(s[..at])
  {
    SameMembers(s, t);
    if at == |s| {
      assert s[..at] == s && t[..at] == t;
    } else if at > 0 {
      var p := StrictlyBelow(le, s[at]);
      BelowBoundary(le, s, at);
      BelowIsDownClosed(le, s[at], t);
      hide SortedBy, TotalPreorder, TieAt, StrictlyBelow, DownClosed;
      FilterPrefix(p, t);
      FilterMultiset(p, s, t);
      assert |multiset(Filter(p, s))| == |multiset(Filter(p, t))|;
    }
  }

  // ------------------------------------------------ limit

  function Limit<T>(xs: seq<T>, n: nat): (r: seq<T>)
    ensures r <= xs && |r| == (if |xs| <= n then |xs| else n)
  {
    if |xs| <= n then xs else xs[..n]
  }
}
