/** The batch loaders of the GraphQL resolvers: one fetched list grouped by key, then one entry per
    requested key. */
module Loaders {
  import opened Tables

  datatype FileModel = FileModel(url: string, ownerId: Id, postId: Id)

  datatype Payment = Payment(id: Id, price: int)
  datatype UserPayments = UserPayments(userId: Id, payments: seq<Payment>)

  function OwnerOf(f: FileModel): Id { f.ownerId }
  function PostOf(f: FileModel): Id { f.postId }
  function UserOf(s: UserPayments): Id { s.userId }

  function Concat(subs: seq<UserPayments>): seq<Payment> {
    if subs == [] then [] else Concat(subs[..|subs| - 1]) + subs[|subs| - 1].payments
  }

  /** What a key should get: its rows in order, or null when it has none. */
  function FilesFor(files: seq<FileModel>, key: FileModel -> Id, k: Id): Option<seq<FileModel>> {
    var own := WithKey(files, key, k);
    if own == [] then None else Some(own)
  }

  /** The payments of all the user's subscriptions; a subscription without payments still counts. */
  function PaymentsFor(subs: seq<UserPayments>, userId: Id): Option<seq<Payment>> {
    var own := WithKey(subs, UserOf, userId);
    if own == [] then None else Some(Concat(own))
  }

  lemma {:induction false} WithKeyAppend<R, K>(a: seq<R>, b: seq<R>, key: R -> K, k: K)
    ensures WithKey(a + b, key, k) == WithKey(a, key, k) + WithKey(b, key, k)
  {
    if a == [] {
      assert a + b == b;
    } else {
      var c := a + b;
      assert c[1..] == a[1..] + b && c[0] == a[0];
      WithKeyCons(a, key, k);
      WithKeyCons(c, key, k);
      hide WithKey;
      WithKeyAppend(a[1..], b, key, k);
    }
  }

  lemma WithKeyCons<R, K>(a: seq<R>, key: R -> K, k: K)
    requires a != []
    ensures WithKey(a, key, k) == (if key(a[0]) == k then [a[0]] else []) + WithKey(a[1..], key, k)
  {
  }

  lemma WithKeyNext<R, K>(rows: seq<R>, key: R -> K, k: K, i: nat)
    requires i < |rows|
    ensures WithKey(rows[..i + 1], key, k) == WithKey(rows[..i], key, k) + if key(rows[i]) == k then [rows[i]] else []
  {
    assert rows[..i + 1] == rows[..i] + [rows[i]];
    WithKeyAppend(rows[..i], [rows[i]], key, k);
    assert [rows[i]][1..] == [];
  }

  // ------------------------------------------------ files

  ghost predicate GroupsFiles(m: map<Id, seq<FileModel>>, files: seq<FileModel>, key: FileModel -> Id) {
    forall k :: if k in m then WithKey(files, key, k) == m[k] && m[k] != [] else WithKey(files, key, k) == []
  }

  lemma GroupsNext(m: map<Id, seq<FileModel>>, files: seq<FileModel>, key: FileModel -> Id, i: nat)
    requires i < |files| && GroupsFiles(m, files[..i], key)
    ensures var k := key(files[i]);
            GroupsFiles(m[k := (if k in m then m[k] else []) + [files[i]]], files[..i + 1], key)
  {
    var k0 := key(files[i]);
    var n := m[k0 := (if k0 in m then m[k0] else []) + [files[i]]];
    hide WithKey;
    forall k
      ensures if k in n then WithKey(files[..i + 1], key, k) == n[k] && n[k] != []
              else WithKey(files[..i + 1], key, k) == []
    {
      WithKeyNext(files, key, k, i);
      assert WithKey(files[..i], key, k) == if k in m then m[k] else [];
    }
  }

  /** Files by owner; no answer from the photo service means null for every key. */
  method LoadByOwner(filesData: Option<seq<FileModel>>, userIds: seq<Id>) returns (result: seq<Option<seq<FileModel>>>)
    ensures |result| == |userIds|
    ensures forall j :: 0 <= j < |userIds| ==>
              result[j] == if filesData.None? then None else FilesFor(filesData.value, OwnerOf, userIds[j])
  {
    if filesData.None? {
      result := seq(|userIds|, _ => None);
      return;
    }
    var files := filesData.value;
    var fileMap: map<Id, seq<FileModel>> := map[];
    var i := 0;
    while i < |files|
      invariant 0 <= i <= |files| && GroupsFiles(fileMap, files[..i], OwnerOf)
    {
      var file := files[i];
      GroupsNext(fileMap, files, OwnerOf, i);
      if file.ownerId !in fileMap { fileMap := fileMap[file.ownerId := []]; }
      fileMap := fileMap[file.ownerId := fileMap[file.ownerId] + [file]];
      i := i + 1;
    }
    assert files[..i] == files;
    result := seq(|userIds|, j requires 0 <= j < |userIds| => if userIds[j] in fileMap then Some(fileMap[userIds[j]])
      else None);
  }

  /** Files by post; no answer throws. */
  method LoadByPost(filesData: Option<seq<FileModel>>,
      postIds: seq<Id>) returns (threw: bool, result: seq<Option<seq<FileModel>>>)
    ensures threw == filesData.None?
    ensures !threw ==> |result| == |postIds|
    ensures !threw ==> forall j :: 0 <= j < |postIds| ==> result[j] == FilesFor(filesData.value, PostOf, postIds[j])
  {
    threw, result := filesData.None?, [];
    if threw { return; }
    var files := filesData.value;
    var fileMap: map<Id, seq<FileModel>> := map[];
    var i := 0;
    while i < |files|
      invariant 0 <= i <= |files| && GroupsFiles(fileMap, files[..i], PostOf)
    {
      var file := files[i];
      GroupsNext(fileMap, files, PostOf, i);
      if file.postId !in fileMap { fileMap := fileMap[file.postId := []]; }
      fileMap := fileMap[file.postId := fileMap[file.postId] + [file]];
      i := i + 1;
    }
    assert files[..i] == files;
    result := seq(|postIds|, j requires 0 <= j < |postIds| => if postIds[j] in fileMap then Some(fileMap[postIds[j]])
      else None);
  }

  // ------------------------------------------------ payments

  ghost predicate GroupedFor(m: map<Id, seq<Payment>>, subs: seq<UserPayments>, k: Id) {
    var own := WithKey(subs, UserOf, k);
    if k in m then own != [] && m[k] == Concat(own) else own == []
  }

  ghost predicate GroupsPayments(m: map<Id, seq<Payment>>, subs: seq<UserPayments>) {
    forall k :: GroupedFor(m, subs, k)
  }

  /** The map after creating the user's list if missing and pushing onto it. */
  function Pushed(m: map<Id, seq<Payment>>, u: Id, payments: seq<Payment>): map<Id, seq<Payment>> {
    m[u := (if u in m then m[u] else []) + payments]
  }

  lemma ConcatSnoc(subs: seq<UserPayments>, s: UserPayments)
    ensures Concat(subs + [s]) == Concat(subs) + s.payments
    ensures Concat([]) == []
  {
    assert (subs + [s])[..|subs|] == subs;
  }

  lemma GroupedNext(m: map<Id, seq<Payment>>, subs: seq<UserPayments>, i: nat, k: Id)
    requires i < |subs| && GroupedFor(m, subs[..i], k)
    ensures GroupedFor(Pushed(m, subs[i].userId, subs[i].payments), subs[..i + 1], k)
  {
    hide WithKey, Concat;
    var own := WithKey(subs[..i], UserOf, k);
    WithKeyNext(subs, UserOf, k, i);
    ConcatSnoc(own, subs[i]);
    assert own + [] == own;
  }

  lemma GroupsPaymentsNext(m: map<Id, seq<Payment>>, subs: seq<UserPayments>, i: nat)
    requires i < |subs| && GroupsPayments(m, subs[..i])
    ensures GroupsPayments(Pushed(m, subs[i].userId, subs[i].payments), subs[..i + 1])
  {
    hide GroupedFor, Pushed;
    var pushed, next := Pushed(m, subs[i].userId, subs[i].payments), subs[..i + 1];
    forall k ensures GroupedFor(pushed, next, k) {
      assert GroupedFor(m, subs[..i], k);
      GroupedNext(m, subs, i, k);
    }
  }

  /** Payments by user; a failed request means null for every key. */
  method LoadPayments(data: Option<seq<UserPayments>>, userIds: seq<Id>) returns (result: seq<Option<seq<Payment>>>)
    ensures |result| == |userIds|
    ensures forall j :: 0 <= j < |userIds| ==>
              result[j] == if data.None? then None else PaymentsFor(data.value, userIds[j])
  {
    if data.None? {
      result := seq(|userIds|, _ => None);
      return;
    }
    var subs := data.value;
    var paymentsMap: map<Id, seq<Payment>> := map[];
    var i := 0;
    while i < |subs|
      invariant 0 <= i <= |subs| && GroupsPayments(paymentsMap, subs[..i])
    {
      hide GroupsPayments;
      var s := subs[i];
      GroupsPaymentsNext(paymentsMap, subs, i);
      ghost var pushed := Pushed(paymentsMap, s.userId, s.payments);
      if s.userId !in paymentsMap { paymentsMap := paymentsMap[s.userId := []]; }
      paymentsMap := paymentsMap[s.userId := paymentsMap[s.userId] + s.payments];
      assert paymentsMap == pushed;
      i := i + 1;
    }
    assert subs[..i] == subs;
    forall j | 0 <= j < |userIds| ensures GroupedFor(paymentsMap, subs, userIds[j]) {}
    result := seq(|userIds|, j requires 0 <= j < |userIds| =>
                    if userIds[j] in paymentsMap then Some(paymentsMap[userIds[j]]) else None);
  }

  // ------------------------------------------------ what a key gets

  lemma OneRow<R, K>(row: R, key: R -> K, k: K)
    ensures WithKey([row], key, k) == if key(row) == k then [row] else []
    ensures WithKey([], key, k) == []
  {
    assert [row][1..] == [];
  }

  /** One answer after the other; null adds nothing. */
  function Joined<T>(a: Option<seq<T>>, b: Option<seq<T>>): Option<seq<T>> {
    if a.None? then b else if b.None? then a else Some(a.value + b.value)
  }

  /** Nothing without rows, a file for its own key, and the rows' order kept. */
  lemma FilesInOrder(a: seq<FileModel>, f: FileModel, b: seq<FileModel>, key: FileModel -> Id, k: Id)
    ensures FilesFor([], key, k) == None
    ensures FilesFor([f], key, k) == if key(f) == k then Some([f]) else None
    ensures FilesFor(a + b, key, k) == Joined(FilesFor(a, key, k), FilesFor(b, key, k))
  {
    OneRow(f, key, k);
    WithKeyAppend(a, b, key, k);
    hide WithKey;
    assert [] + WithKey(b, key, k) == WithKey(b, key, k) && WithKey(a, key, k) + [] == WithKey(a, key, k);
  }

  lemma {:induction false} ConcatAppend(a: seq<UserPayments>, b: seq<UserPayments>)
    ensures Concat(a + b) == Concat(a) + Concat(b)
    decreases |b|
  {
    if b == [] {
      assert a + b == a;
    } else {
      var m := |b| - 1;
      assert (a + b)[..|a + b| - 1] == a + b[..m];
      ConcatAppend(a, b[..m]);
    }
  }

  /** Nothing without subscriptions, a subscription's payments for its own user, and the order kept. */
  lemma PaymentsInOrder(a: seq<UserPayments>, s: UserPayments, b: seq<UserPayments>, u: Id)
    ensures PaymentsFor([], u) == None
    ensures PaymentsFor([s], u) == if s.userId == u then Some(s.payments) else None
    ensures PaymentsFor(a + b, u) == Joined(PaymentsFor(a, u), PaymentsFor(b, u))
  {
    OneRow(s, UserOf, u);
    OwnPayments(s);
    WithKeyAppend(a, b, UserOf, u);
    hide WithKey, Concat;
    var x, y := WithKey(a, UserOf, u), WithKey(b, UserOf, u);
    assert [] + y == y && x + [] == x;
    ConcatAppend(x, y);
  }

  lemma OwnPayments(s: UserPayments)
    ensures Concat([s]) == s.payments
  {
    assert [s][..0] == [];
  }

  // ------------------------------------------------ batching changes nothing

  /** A service's answer for a key list: its rows with one of the keys, in its own order. */
  function OneOf<R, K(==)>(key: R -> K, keys: seq<K>): R -> bool { (r: R) => key(r) in keys }
  function Fetch<R, K(==)>(table: seq<R>, key: R -> K, keys: seq<K>): seq<R> { Filter(OneOf(key, keys), table) }

  lemma {:induction false} FetchedForKey<R, K>(table: seq<R>, key: R -> K, keys: seq<K>, k: K)
    requires k in keys
    ensures WithKey(Fetch(table, key, keys), key, k) == WithKey(table, key, k)
  {
    if table != [] {
      FetchedForKey(table[1..], key, keys, k);
      var rest := Fetch(table[1..], key, keys);
      assert ([table[0]] + rest)[1..] == rest && [] + rest == rest;
    }
  }

  /** Every key gets from a batch, with duplicates or not, what loading it alone gives. */
  lemma BatchIsOneByOne(files: seq<FileModel>, key: FileModel -> Id, subs: seq<UserPayments>, keys: seq<Id>, j: nat)
    requires j < |keys|
    ensures FilesFor(Fetch(files, key, keys), key, keys[j]) == FilesFor(Fetch(files, key, [keys[j]]), key, keys[j])
    ensures PaymentsFor(Fetch(subs, UserOf, keys), keys[j]) == PaymentsFor(Fetch(subs, UserOf, [keys[j]]), keys[j])
  {
    hide WithKey, Filter;
    FetchedForKey(files, key, keys, keys[j]);
    FetchedForKey(files, key, [keys[j]], keys[j]);
    FetchedForKey(subs, UserOf, keys, keys[j]);
    FetchedForKey(subs, UserOf, [keys[j]], keys[j]);
  }
}
