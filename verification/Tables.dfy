/** Tables as sequences of rows, and the relational operators the repositories' queries are
    made of: where, left join, group by and order by. */
module Tables {

  datatype Option<+T> = None | Some(value: T)

  /** A JavaScript or SQL identifier column. */
  type Id = string

  /** The application notifications a use case can answer with. */
  datatype Answer = Success | NotFound | BadRequest | Unauthorized | Forbidden | InternalError

  // ---------------------------------------------------------------- where

  function Filter<T>(p: T -> bool, rows: seq<T>): (r: seq<T>)
    ensures |r| <= |rows|
  {
    if rows == [] then []
    else (if p(rows[0]) then [rows[0]] else []) + Filter(p, rows[1..])
  }

  lemma FilterCons<T>(p: T -> bool, x: T, rest: seq<T>)
    ensures Filter(p, [x] + rest) == if p(x) then [x] + Filter(p, rest) else Filter(p, rest)
  {
    assert ([x] + rest)[1..] == rest;
  }

  lemma {:induction false} FilterAppend<T>(p: T -> bool, a: seq<T>, b: seq<T>)
    ensures Filter(p, a + b) == Filter(p, a) + Filter(p, b)
  {
    if a == [] {
      assert a + b == b;
    } else {
      var c := a + b;
      assert c[1..] == a[1..] + b && c[0] == a[0];
      FilterAppend(p, a[1..], b);
      var head := if p(a[0]) then [a[0]] else [];
      assert Filter(p, c) == head + (Filter(p, a[1..]) + Filter(p, b));
    }
  }

  lemma FilterMember<T>(p: T -> bool, rows: seq<T>, x: T)
    ensures x in Filter(p, rows) <==> x in rows && p(x)
  {
    if rows != [] { FilterMember(p, rows[1..], x); }
  }

  lemma FilterMembers<T(!new)>(p: T -> bool, rows: seq<T>)
    ensures forall x :: x in Filter(p, rows) <==> x in rows && p(x)
  {
    forall x ensures x in Filter(p, rows) <==> x in rows && p(x) { FilterMember(p, rows, x); }
  }

  lemma FilterAll<T>(p: T -> bool, rows: seq<T>)
    requires forall i :: 0 <= i < |rows| ==> p(rows[i])
    ensures Filter(p, rows) == rows
  {
    if rows != [] { FilterAll(p, rows[1..]); }
  }

  lemma FilterNone<T>(p: T -> bool, rows: seq<T>)
    requires forall i :: 0 <= i < |rows| ==> !p(rows[i])
    ensures Filter(p, rows) == []
  {
    if rows != [] { FilterNone(p, rows[1..]); }
  }

  /** Two conditions that agree on a table select the same rows of it. */
  lemma FilterAgree<T>(p: T -> bool, q: T -> bool, rows: seq<T>)
    requires forall i :: 0 <= i < |rows| ==> p(rows[i]) == q(rows[i])
    ensures Filter(p, rows) == Filter(q, rows)
  {
    if rows != [] { FilterAgree(p, q, rows[1..]); }
  }

  lemma FilterMultiset<T(!new)>(p: T -> bool, a: seq<T>, b: seq<T>)
    requires multiset(a) == multiset(b)
    ensures multiset(Filter(p, a)) == multiset(Filter(p, b))
  {
    var fa, fb := multiset(Filter(p, a)), multiset(Filter(p, b));
    forall x: T ensures fa[x] == fb[x] {
      FilterCount(p, a, x);
      FilterCount(p, b, x);
    }
    assert fa == fb;
  }

  lemma FilterCount<T>(p: T -> bool, a: seq<T>, x: T)
    ensures multiset(Filter(p, a))[x] == if p(x) then multiset(a)[x] else 0
  {
    if a != [] {
      assert a == [a[0]] + a[1..];
      FilterCount(p, a[1..], x);
    }
  }

  /** A filter keeps the order of the rows and their distinctness. */
  lemma FilterDistinct<T>(p: T -> bool, rows: seq<T>)
    requires Distinct(rows)
    ensures Distinct(Filter(p, rows))
  {
    if rows != [] {
      FilterDistinct(p, rows[1..]);
      FilterMember(p, rows[1..], rows[0]);
      assert rows[0] !in rows[1..];
    }
  }

  lemma DistinctCons<T>(x: T, xs: seq<T>)
    requires Distinct(xs) && forall j :: 0 <= j < |xs| ==> xs[j] != x
    ensures Distinct([x] + xs)
  {
    var r := [x] + xs;
    forall i, j | 0 <= i < j < |r| ensures r[i] != r[j] {
      assert r[j] == xs[j - 1];
      if i > 0 { assert r[i] == xs[i - 1]; }
    }
  }

  lemma DistinctHead<T>(x: T, rest: seq<T>)
    requires Distinct([x] + rest)
    ensures x !in rest && Distinct(rest)
  {
    var all := [x] + rest;
    forall i | 0 <= i < |rest| ensures rest[i] != x { assert all[i + 1] == rest[i] && all[0] == x; }
    forall i, j | 0 <= i < j < |rest|
      ensures rest[i] != rest[j]
    {
      assert all[i + 1] == rest[i] && all[j + 1] == rest[j];
    }
  }

  ghost predicate Distinct<T>(rows: seq<T>) {
    forall i, j :: 0 <= i < j < |rows| ==> rows[i] != rows[j]
  }

  lemma {:induction false} DistinctCount<T>(xs: seq<T>)
    requires Distinct(xs)
    ensures forall x :: multiset(xs)[x] <= 1
  {
    if xs != [] {
      assert xs == [xs[0]] + xs[1..];
      DistinctCount(xs[1..]);
      assert xs[0] !in xs[1..];
      assert multiset(xs[1..])[xs[0]] == 0;
    }
  }

  lemma {:induction false} CountDistinct<T>(xs: seq<T>)
    requires forall x :: multiset(xs)[x] <= 1
    ensures Distinct(xs)
  {
    if xs != [] {
      assert xs == [xs[0]] + xs[1..];
      forall x ensures multiset(xs[1..])[x] <= 1 { assert multiset(xs)[x] <= 1; }
      CountDistinct(xs[1..]);
      assert multiset(xs)[xs[0]] <= 1;
      assert xs[0] !in xs[1..];
    }
  }

  function Map<A, B>(f: A -> B, rows: seq<A>): (r: seq<B>)
    ensures |r| == |rows|
    ensures forall i :: 0 <= i < |rows| ==> r[i] == f(rows[i])
  {
    if rows == [] then [] else [f(rows[0])] + Map(f, rows[1..])
  }

  lemma {:induction false} FilterOfFilter<T>(p: T -> bool, q: T -> bool, xs: seq<T>)
    requires forall x :: x in xs && q(x) ==> p(x)
    ensures Filter(q, Filter(p, xs)) == Filter(q, xs)
  {
    if xs != [] {
      FilterOfFilter(p, q, xs[1..]);
      FilterAppend(q, if p(xs[0]) then [xs[0]] else [], Filter(p, xs[1..]));
    }
  }

  // ---------------------------------------------------------------- left join

  /** The rows of a table that a join condition pairs with one left row. */
  function Matches<R, B>(r: R, table: seq<B>, on: (R, B) -> bool): seq<B> {
    if table == [] then []
    else (if on(r, table[0]) then [table[0]] else []) + Matches(r, table[1..], on)
  }

  function AttachAll<R, B>(r: R, bs: seq<B>, attach: (R, Option<B>) -> R): (rs: seq<R>)
    ensures |rs| == |bs|
    ensures forall i :: 0 <= i < |bs| ==> rs[i] == attach(r, Some(bs[i]))
  {
    if bs == [] then [] else [attach(r, Some(bs[0]))] + AttachAll(r, bs[1..], attach)
  }

  function LeftJoinRow<R, B>(r: R, table: seq<B>, on: (R, B) -> bool, attach: (R, Option<B>) -> R): seq<R> {
    var ms := Matches(r, table, on);
    if ms == [] then [attach(r, None)] else AttachAll(r, ms, attach)
  }

  /** `rows left join table on ...`: each left row once per matching right row, or once with
      nulls when nothing matches. */
  function LeftJoin<R, B>(rows: seq<R>, table: seq<B>, on: (R, B) -> bool, attach: (R, Option<B>) -> R): seq<R> {
    if rows == [] then []
    else LeftJoinRow(rows[0], table, on, attach) + LeftJoin(rows[1..], table, on, attach)
  }

  lemma LeftJoinAppend<R, B>(a: seq<R>, b: seq<R>, table: seq<B>, on: (R, B) -> bool, attach: (R, Option<B>) -> R)
    ensures LeftJoin(a + b, table, on, attach) == LeftJoin(a, table, on, attach) + LeftJoin(b, table, on, attach)
  {
    if a == [] {
      assert a + b == b;
    } else {
      assert (a + b)[1..] == a[1..] + b;
      LeftJoinAppend(a[1..], b, table, on, attach);
    }
  }

  lemma LeftJoinOne<R, B>(r: R, table: seq<B>, on: (R, B) -> bool, attach: (R, Option<B>) -> R)
    ensures LeftJoin([r], table, on, attach) == LeftJoinRow(r, table, on, attach)
  {
    assert [r][1..] == [];
  }

  lemma NoMatch<R, B>(r: R, table: seq<B>, on: (R, B) -> bool)
    requires forall i :: 0 <= i < |table| ==> !on(r, table[i])
    ensures Matches(r, table, on) == []
  {
    if table != [] { NoMatch(r, table[1..], on); }
  }

  lemma OneMatch<R, B>(r: R, table: seq<B>, on: (R, B) -> bool, k: nat)
    requires k < |table| && on(r, table[k])
    requires forall i :: 0 <= i < |table| && i != k ==> !on(r, table[i])
    ensures Matches(r, table, on) == [table[k]]
  {
    if k == 0 {
      NoMatch(r, table[1..], on);
    } else {
      OneMatch(r, table[1..], on, k - 1);
    }
  }

  // ---------------------------------------------------------------- group by

  function WithKey<R, K(==)>(rows: seq<R>, key: R -> K, k: K): (r: seq<R>)
    ensures |r| <= |rows|
  {
    if rows == [] then []
    else (if key(rows[0]) == k then [rows[0]] else []) + WithKey(rows[1..], key, k)
  }

  function WithoutKey<R, K(==)>(rows: seq<R>, key: R -> K, k: K): (r: seq<R>)
    ensures |r| <= |rows|
    ensures rows != [] && key(rows[0]) == k ==> |r| < |rows|
  {
    if rows == [] then []
    else (if key(rows[0]) != k then [rows[0]] else []) + WithoutKey(rows[1..], key, k)
  }

  function GroupBy<R, K(==)>(rows: seq<R>, key: R -> K): (gs: seq<(K, seq<R>)>)
    decreases |rows|
  {
    if rows == [] then []
    else
      var k := key(rows[0]);
      [(k, WithKey(rows, key, k))] + GroupBy(WithoutKey(rows, key, k), key)
  }

  lemma WithKeyAfterWithout<R, K>(rows: seq<R>, key: R -> K, out: K, k: K)
    ensures WithKey(WithoutKey(rows, key, out), key, k) == if k == out then [] else WithKey(rows, key, k)
  {
    if rows != [] {
      WithKeyAfterWithout(rows[1..], key, out, k);
      var rest := WithoutKey(rows[1..], key, out);
      assert ([rows[0]] + rest)[1..] == rest && [] + rest == rest;
    }
  }

  ghost predicate NoGroup<R, K>(gs: seq<(K, seq<R>)>, k: K) {
    forall i :: 0 <= i < |gs| ==> gs[i].0 != k
  }

  ghost predicate OnlyGroup<R, K>(gs: seq<(K, seq<R>)>, j: nat, k: K) {
    j < |gs| && gs[j].0 == k && forall i :: 0 <= i < |gs| && i != j ==> gs[i].0 != k
  }

  lemma {:induction false} GroupAbsent<R, K>(rows: seq<R>, key: R -> K, k: K)
    requires WithKey(rows, key, k) == []
    ensures NoGroup(GroupBy(rows, key), k)
    decreases |rows|
  {
    if rows != [] {
      var k0 := key(rows[0]);
      var rest := WithoutKey(rows, key, k0);
      WithKeyAfterWithout(rows, key, k0, k);
      GroupAbsent(rest, key, k);
      var head := (k0, WithKey(rows, key, k0));
      NoGroupCons(head, GroupBy(rest, key), k);
    }
  }

  lemma NoGroupCons<R, K>(g: (K, seq<R>), gs: seq<(K, seq<R>)>, k: K)
    requires g.0 != k && NoGroup(gs, k)
    ensures NoGroup([g] + gs, k)
  {
  }

  lemma OnlyGroupCons<R, K>(g: (K, seq<R>), gs: seq<(K, seq<R>)>, j: nat, k: K)
    requires g.0 != k && OnlyGroup(gs, j, k)
    ensures OnlyGroup([g] + gs, j + 1, k) && ([g] + gs)[j + 1] == gs[j]
  {
    forall i | 1 <= i < |[g] + gs| && i != j + 1 ensures ([g] + gs)[i].0 != k {
      assert ([g] + gs)[i] == gs[i - 1] && gs[i - 1].0 != k;
    }
  }

  lemma GroupByIs<R, K>(rows: seq<R>, key: R -> K)
    requires rows != []
    ensures var k0 := key(rows[0]);
            GroupBy(rows, key) == [(k0, WithKey(rows, key, k0))] + GroupBy(WithoutKey(rows, key, k0), key)
            && |WithoutKey(rows, key, k0)| < |rows|
  {
  }

  lemma FirstGroup<R, K>(g: (K, seq<R>), gs: seq<(K, seq<R>)>)
    requires NoGroup(gs, g.0)
    ensures OnlyGroup([g] + gs, 0, g.0)
  {
    forall i | 1 <= i < |[g] + gs| ensures ([g] + gs)[i].0 != g.0 { assert ([g] + gs)[i] == gs[i - 1]; }
  }

  lemma NoRowsNoKey<R, K>(key: R -> K, k: K)
    ensures WithKey([], key, k) == []
  {
  }

  /** What a grouped sub-select offers a join on its key: at most one group, and it holds
      exactly the rows with that key. */
  lemma {:induction false} GroupOf<R, K>(rows: seq<R>, key: R -> K, k: K) returns (j: nat)
    requires WithKey(rows, key, k) != []
    ensures j < |GroupBy(rows, key)| && OnlyGroup(GroupBy(rows, key), j, k)
    ensures GroupBy(rows, key)[j].1 == WithKey(rows, key, k)
    decreases |rows|
  {
    hide *;
    NoRowsNoKey(key, k);
    var k0 := key(rows[0]);
    var rest := WithoutKey(rows, key, k0);
    WithKeyAfterWithout(rows, key, k0, k);
    GroupByIs(rows, key);
    var head := (k0, WithKey(rows, key, k0));
    if k == k0 {
      GroupAbsent(rest, key, k);
      FirstGroup(head, GroupBy(rest, key));
      j := 0;
    } else {
      var i := GroupOf(rest, key, k);
      OnlyGroupCons(head, GroupBy(rest, key), i, k);
      j := i + 1;
    }
  }

  /** A left join of one row with a grouped sub-select on the group's key. */
  lemma JoinGroup<Q, R, K>(q: Q, rows: seq<R>, key: R -> K, k: K, on: (Q, (K, seq<R>)) -> bool,
      attach: (Q, Option<(K, seq<R>)>) -> Q)
    requires var gs := GroupBy(rows, key); forall i :: 0 <= i < |gs| ==> (on(q, gs[i]) <==> gs[i].0 == k)
    ensures var own := WithKey(rows, key, k);
            LeftJoinRow(q, GroupBy(rows, key), on, attach) == [attach(q, if own == [] then None else Some((k, own)))]
  {
    var own := WithKey(rows, key, k);
    var gs := GroupBy(rows, key);
    if own == [] {
      GroupAbsent(rows, key, k);
      forall i | 0 <= i < |gs| ensures !on(q, gs[i]) { assert gs[i].0 != k; }
      NoMatch(q, gs, on);
    } else {
      var j := GroupOf(rows, key, k);
      forall i | 0 <= i < |gs| && i != j ensures !on(q, gs[i]) { assert gs[i].0 != k; }
      OneMatch(q, gs, on, j);
    }
  }

  lemma {:induction false} MatchesSound<R, B>(r: R, table: seq<B>, on: (R, B) -> bool)
    ensures forall i :: 0 <= i < |table| && on(r, table[i]) ==> Matches(r, table, on) != []
    ensures forall b :: b in Matches(r, table, on) ==> b in table && on(r, b)
  {
    if table != [] { MatchesSound(r, table[1..], on); }
  }

  lemma {:induction false} MatchesDistinct<R, B>(r: R, table: seq<B>, on: (R, B) -> bool)
    requires Distinct(table)
    ensures Distinct(Matches(r, table, on))
  {
    if table != [] {
      MatchesDistinct(r, table[1..], on);
      MatchesSound(r, table[1..], on);
      assert table[0] !in table[1..];
    }
  }

  lemma {:induction false} MatchesComplete<R, B>(r: R, table: seq<B>, on: (R, B) -> bool, b: B)
    requires b in table && on(r, b)
    ensures b in Matches(r, table, on)
  {
    if table[0] != b { MatchesComplete(r, table[1..], on, b); }
  }

  lemma {:induction false} DistinctSize<T>(xs: seq<T>)
    requires Distinct(xs)
    ensures |set x | x in xs| == |xs|
  {
    if xs == [] {
      assert (set x | x in xs) == {};
    } else {
      DistinctSize(xs[1..]);
      assert (set x | x in xs) == (set x | x in xs[1..]) + {xs[0]};
    }
  }

  lemma MapAppend<A, B>(f: A -> B, a: seq<A>, b: seq<A>)
    ensures Map(f, a + b) == Map(f, a) + Map(f, b)
  {
  }

  lemma MapOne<A, B>(f: A -> B, a: A)
    ensures Map(f, [a]) == [f(a)]
  {
  }

  /** Grouping a block of rows with one key in front of rows with other keys. */
  lemma GroupBlock<R, K>(block: seq<R>, rest: seq<R>, col: R -> K, key: K)
    requires block != [] && (forall i :: 0 <= i < |block| ==> col(block[i]) == key)
    requires forall i :: 0 <= i < |rest| ==> col(rest[i]) != key
    ensures GroupBy(block + rest, col) == [(key, block)] + GroupBy(rest, col)
  {
    assert (block + rest)[0] == block[0];
    WithKeyBlock(block, rest, col, key);
  }

  lemma {:induction false} KeyAbsent<R, K>(rest: seq<R>, col: R -> K, key: K)
    requires forall i :: 0 <= i < |rest| ==> col(rest[i]) != key
    ensures WithKey(rest, col, key) == [] && WithoutKey(rest, col, key) == rest
  {
    if rest != [] { KeyAbsent(rest[1..], col, key); }
  }

  lemma WithKeyCons<R, K>(x: R, rows: seq<R>, col: R -> K, key: K)
    requires col(x) == key
    ensures WithKey([x] + rows, col, key) == [x] + WithKey(rows, col, key)
    ensures WithoutKey([x] + rows, col, key) == WithoutKey(rows, col, key)
  {
    assert ([x] + rows)[1..] == rows;
  }

  lemma {:induction false} WithKeyBlock<R, K>(block: seq<R>, rest: seq<R>, col: R -> K, key: K)
    requires forall i :: 0 <= i < |block| ==> col(block[i]) == key
    requires forall i :: 0 <= i < |rest| ==> col(rest[i]) != key
    ensures WithKey(block + rest, col, key) == block && WithoutKey(block + rest, col, key) == rest
  {
    hide *;
    if block == [] {
      assert block + rest == rest;
      KeyAbsent(rest, col, key);
    } else {
      assert block + rest == [block[0]] + (block[1..] + rest) && block == [block[0]] + block[1..];
      WithKeyBlock(block[1..], rest, col, key);
      WithKeyCons(block[0], block[1..] + rest, col, key);
    }
  }

  function Coalesce<T>(v: Option<T>, default: T): T {
    if v.Some? then v.value else default
  }

  function NullIfZero(n: nat): Option<nat> { if n == 0 then None else Some(n) }

  lemma MapCons<A, B>(f: A -> B, a: seq<A>)
    requires a != []
    ensures Map(f, a) == [f(a[0])] + Map(f, a[1..])
  {
  }

  function MapsTo<A, B(==)>(f: A -> B, y: B): A -> bool { (x: A) => f(x) == y }

  lemma {:induction false} MapCount<A, B>(f: A -> B, a: seq<A>, y: B)
    ensures multiset(Map(f, a))[y] == |Filter(MapsTo(f, y), a)|
  {
    if a != [] {
      MapCons(f, a);
      MapCount(f, a[1..], y);
    }
  }

  lemma MapMultiset<A(!new), B(!new)>(f: A -> B, a: seq<A>, b: seq<A>)
    requires multiset(a) == multiset(b)
    ensures multiset(Map(f, a)) == multiset(Map(f, b))
  {
    hide Map, Filter;
    var ma, mb := multiset(Map(f, a)), multiset(Map(f, b));
    forall y: B ensures ma[y] == mb[y] {
      MapCount(f, a, y);
      MapCount(f, b, y);
      FilterMultiset(MapsTo(f, y), a, b);
      assert |multiset(Filter(MapsTo(f, y), a))| == |multiset(Filter(MapsTo(f, y), b))|;
    }
    assert ma == mb;
  }
}
