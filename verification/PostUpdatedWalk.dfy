/** Walking the post listing by update date: when posts are shown again, and when they are missed. */
module PostUpdatedWalk {
  import opened Tables
  import opened Ordering
  import opened Keyset
  import opened CursorPages
  import opened Likes
  import opened PostListing
  import opened PostWalk
  import opened PostUpdatedSort

  // ------------------------------------------------ the walk's pages

  function PagesOf(walk: seq<Visit>, n: nat): seq<seq<Post>> {
    if walk == [] then [] else PagesOf(walk[..|walk| - 1], n) + [Map(PostOf, PageOf(walk[|walk| - 1], n))]
  }

  lemma {:induction false} FlatIsShown(walk: seq<Visit>, n: nat)
    ensures Flat(PagesOf(walk, n)) == Shown(walk, n) && |PagesOf(walk, n)| == |walk|
    ensures walk != [] ==> PagesOf(walk, n)[0] == Map(PostOf, PageOf(walk[0], n))
    decreases |walk|
  {
    if walk != [] {
      var m := |walk| - 1;
      FlatIsShown(walk[..m], n);
      var before, page := PagesOf(walk[..m], n), Map(PostOf, PageOf(walk[m], n));
      assert PagesOf(walk, n) == before + [page];
      assert (before + [page])[..m] == before;
    }
  }

  lemma LastOfWalk(base: Db, walk: seq<Visit>, scope: Scope, viewer: Option<Id>, dir: Direction, n: nat)
    requires walk != [] && IsUpdatedWalk(base, walk, scope, viewer, dir, n)
    ensures var m := |walk| - 1;
            IsUpdatedWalk(base, walk[..m], scope, viewer, dir, n)
            && NextVisit(base, walk[..m], walk[m], scope, viewer, dir, n)
            && PagesOf(walk, n) == PagesOf(walk[..m], n) + [Map(PostOf, PageOf(walk[m], n))]
  {
    hide NextVisit, PageOf;
  }

  lemma CursorIsLast(base: Db, scope: Scope, walk: seq<Visit>, n: nat)
    requires SchemaOk(base) && walk != [] && PageOf(walk[|walk| - 1], n) != []
    requires PostOf(Last(PageOf(walk[|walk| - 1], n))) in VisiblePosts(base, scope)
    ensures CursorPost(base, scope, LastPostId(walk, n)) == Some(PostOf(Last(PageOf(walk[|walk| - 1], n))))
  {
    var p := PostOf(Last(PageOf(walk[|walk| - 1], n)));
    FilterMember(Visible(base, scope), base.posts, p);
    FindPostIs(base.posts, p);
  }

  lemma UpdatedIsVisible(base: Db, scope: Scope, dir: Direction, u: seq<Post>)
    requires InUpdateOrder(base, scope, dir, u)
    ensures forall p :: p in u ==> p in VisiblePosts(base, scope) && p.updatedAt.Some? && p in base.posts
  {
    FilterMembers(IsUpdated(), VisiblePosts(base, scope));
    FilterMembers(Visible(base, scope), base.posts);
    SameMembers(u, UpdatedPosts(base, scope));
  }

  /** After a page that ended at an updated post, the next one is cut from the order. */
  lemma NextPosts(base: Db, walk: seq<Visit>, v: Visit, scope: Scope, viewer: Option<Id>, dir: Direction, n: nat,
      u: seq<Post>)
    requires SchemaOk(base) && NextVisit(base, walk, v, scope, viewer, dir, n) && InUpdateOrder(base, scope, dir, u)
    requires walk != [] && PageOf(walk[|walk| - 1], n) != [] && PostOf(Last(PageOf(walk[|walk| - 1], n))) in u
    ensures var before := Map(PostOf, PageOf(walk[|walk| - 1], n));
            before != [] && Last(before) in u
            && Map(PostOf, PageOf(v, n)) == PageAfter(u, UpdatedKey(dir), StandsFor(scope, dir), before, n)
  {
    var p := PageOf(walk[|walk| - 1], n);
    var c := PostOf(Last(p));
    assert Last(Map(PostOf, p)) == c;
    RequestPosts(base, walk, v, scope, viewer, dir, n);
    UpdatedIsVisible(base, scope, dir, u);
    CursorIsLast(base, scope, walk, n);
    PagePosts(v, n);
    hide NextVisit, SchemaOk, VisiblePosts, InUpdateOrder, UpdatedSelect, IsOrderBy, Map, PageOf, CursorPost,
         LastPostId;
    PastCursor(base, scope, dir, u, c, Map(PostOf, v.ordered));
  }

  lemma LastInPage(u: seq<Post>, key: Post -> int, bound: Post -> int, before: seq<Post>, n: nat)
    requires before != []
    ensures var page := PageAfter(u, key, bound, before, n); page != [] ==> Last(page) in u
  {
    PageIsBelow(u, key, bound(Last(before)), n);
  }

  lemma LastMapped(vs: seq<View>)
    ensures (vs != [] <==> Map(PostOf, vs) != []) && (vs != [] ==> Last(Map(PostOf, vs)) == PostOf(Last(vs)))
  {
  }

  /** The pages so far go through the updated posts by their cursors, and the last one ends at one of them. */
  ghost predicate Follows(walk: seq<Visit>, scope: Scope, dir: Direction, n: nat, u: seq<Post>, first: seq<Post>)
    requires walk != []
  {
    var pages, last := PagesOf(walk, n), PageOf(walk[|walk| - 1], n);
    Follow(u, UpdatedKey(dir), StandsFor(scope, dir), pages, n) && pages != [] && pages[0] == first
    && Last(pages) == Map(PostOf, last) && (last != [] ==> PostOf(Last(last)) in u)
  }

  lemma FollowsOne(walk: seq<Visit>, scope: Scope, dir: Direction, n: nat, u: seq<Post>, first: seq<Post>)
    requires |walk| == 1 && Map(PostOf, PageOf(walk[0], n)) == first && (first != [] ==> Last(first) in u)
    ensures Follows(walk, scope, dir, n, u, first)
  {
    FlatIsShown(walk, n);
    LastMapped(PageOf(walk[0], n));
    hide PageOf, Map;
  }

  lemma FollowsSnoc(walk: seq<Visit>, v: Visit, scope: Scope, dir: Direction, n: nat, u: seq<Post>, first: seq<Post>)
    requires walk != [] && Follows(walk, scope, dir, n, u, first) && PageOf(walk[|walk| - 1], n) != []
    requires var before := Map(PostOf, PageOf(walk[|walk| - 1], n));
             before != [] && Map(PostOf, PageOf(v, n))
               == PageAfter(u, UpdatedKey(dir), StandsFor(scope, dir), before, n)
    ensures Follows(walk + [v], scope, dir, n, u, first)
  {
    var page := Map(PostOf, PageOf(v, n));
    assert (walk + [v])[..|walk|] == walk;
    assert PagesOf(walk + [v], n) == PagesOf(walk, n) + [page];
    LastMapped(PageOf(v, n));
    hide UpdatedKey, StandsFor, PageOf, Map, PagesOf, PageAfter, Follow;
    LastInPage(u, UpdatedKey(dir), StandsFor(scope, dir), Last(PagesOf(walk, n)), n);
    FollowSnoc(u, UpdatedKey(dir), StandsFor(scope, dir), PagesOf(walk, n), page, n);
  }

  /** A walk whose first page ends at an updated post goes on through the updated posts by its cursors. */
  lemma {:induction false} WalkFollows(base: Db, walk: seq<Visit>, scope: Scope, viewer: Option<Id>, dir: Direction,
      n: nat, u: seq<Post>, first: seq<Post>)
    requires SchemaOk(base) && IsUpdatedWalk(base, walk, scope, viewer, dir, n) && InUpdateOrder(base, scope, dir, u)
    requires walk != [] && Map(PostOf, PageOf(walk[0], n)) == first && (first != [] ==> Last(first) in u)
    ensures walk != [] && Follows(walk, scope, dir, n, u, first)
    decreases |walk|
  {
    hide *;
    if |walk| == 1 {
      FollowsOne(walk, scope, dir, n, u, first);
    } else {
      var m := |walk| - 1;
      var before, v := walk[..m], walk[m];
      assert walk == before + [v] && before[0] == walk[0] && before != [];
      LastOfWalk(base, walk, scope, viewer, dir, n);
      VisitFacts(base, before, v, scope, viewer, dir, n);
      WalkFollows(base, before, scope, viewer, dir, n, u, first);
      FollowsLast(before, scope, dir, n, u, first);
      NextPosts(base, before, v, scope, viewer, dir, n, u);
      FollowsSnoc(before, v, scope, dir, n, u, first);
    }
  }

  lemma FollowsLast(walk: seq<Visit>, scope: Scope, dir: Direction, n: nat, u: seq<Post>, first: seq<Post>)
    requires walk != [] && Follows(walk, scope, dir, n, u, first) && PageOf(walk[|walk| - 1], n) != []
    ensures PostOf(Last(PageOf(walk[|walk| - 1], n))) in u
  {
    hide PageOf, Follow, PagesOf;
  }

  lemma FollowSnoc<T>(rows: seq<T>, key: T -> int, bound: T -> int, pages: seq<seq<T>>, page: seq<T>, n: nat)
    requires Follow(rows, key, bound, pages, n) && pages != [] && Last(pages) != []
    requires page == PageAfter(rows, key, bound, Last(pages), n)
    ensures Follow(rows, key, bound, pages + [page], n)
  {
    assert (pages + [page])[..|pages|] == pages;
  }

  // ------------------------------------------------ ascending order

  lemma FirstVisit(base: Db, walk: seq<Visit>, scope: Scope, viewer: Option<Id>, dir: Direction, n: nat)
    requires SchemaOk(base) && IsUpdatedWalk(base, walk, scope, viewer, dir, n) && walk != []
    ensures IsOrderBy(ByUpdate(dir), VisiblePosts(base, scope), Map(PostOf, walk[0].ordered))
    decreases |walk|
  {
    LastOfWalk(base, walk, scope, viewer, dir, n);
    if |walk| > 1 {
      FirstVisit(base, walk[..|walk| - 1], scope, viewer, dir, n);
    } else {
      assert walk[..0] == [] && LastPostId([], n) == None;
      hide NextVisit, SchemaOk, IsUpdatedWalk, VisiblePosts, IsOrderBy;
      RequestPosts(base, [], walk[0], scope, viewer, dir, n);
      NoCursor(scope, dir, None, VisiblePosts(base, scope));
    }
  }

  /** The post the `k`-th page ends at was last updated at its creation, or several users' posts are listed. */
  predicate EndsExact(scope: Scope, u: seq<Post>, n: nat, k: nat) {
    var r := Reached(n, k, |u|);
    r > 0 && !scope.ByUsers? ==> u[r - 1].updatedAt == Some(u[r - 1].createdAt)
  }

  lemma ExactIs(scope: Scope, u: seq<Post>, n: nat, k: nat)
    requires forall p :: p in u ==> p.updatedAt.Some?
    ensures ExactAt(u, UpdatedKey(Asc), StandsFor(scope, Asc), n, k) <==> EndsExact(scope, u, n, k)
  {
    var r := Reached(n, k, |u|);
    if r > 0 { assert u[r - 1] in u; }
  }

  lemma FirstAscending(base: Db, walk: seq<Visit>, scope: Scope, viewer: Option<Id>, n: nat, u: seq<Post>)
    requires SchemaOk(base) && IsUpdatedWalk(base, walk, scope, viewer, Asc, n) && walk != []
    requires InUpdateOrder(base, scope, Asc, u) && (NeverUpdated(base, scope) == [] || n <= |u|)
    ensures Map(PostOf, PageOf(walk[0], n)) == Limit(u, n)
  {
    hide *;
    FirstVisit(base, walk, scope, viewer, Asc, n);
    PagePosts(walk[0], n);
    var z := AllInOrder(base, scope, Asc, u, Map(PostOf, walk[0].ordered));
    SameMembers(z, NeverUpdated(base, scope));
  }

  lemma BoundsAbove(base: Db, scope: Scope, dir: Direction, u: seq<Post>)
    requires InUpdateOrder(base, scope, dir, u) && (scope.ByUsers? || Dated(base))
    ensures forall p :: p in u ==>
              if dir == Asc then UpdatedKey(dir)(p) <= StandsFor(scope, dir)(p)
                else StandsFor(scope, dir)(p) <= UpdatedKey(dir)(p)
  {
    UpdatedIsVisible(base, scope, dir, u);
  }

  /** Each page but the last ends at such a post. */
  predicate EndExact(scope: Scope, u: seq<Post>, n: nat, m: nat) {
    forall k: nat :: 0 < k < m ==> EndsExact(scope, u, n, k)
  }

  lemma ExactIsEnds(base: Db, scope: Scope, u: seq<Post>, n: nat, m: nat)
    requires InUpdateOrder(base, scope, Asc, u)
    ensures ExactBefore(u, UpdatedKey(Asc), StandsFor(scope, Asc), n, m) <==> EndExact(scope, u, n, m)
  {
    UpdatedIsVisible(base, scope, Asc, u);
    hide ExactAt, EndsExact, InUpdateOrder, VisiblePosts;
    forall k: nat | 0 < k < m
      ensures ExactAt(u, UpdatedKey(Asc), StandsFor(scope, Asc), n, k) <==> EndsExact(scope, u, n, k)
    {
      ExactIs(scope, u, n, k);
    }
  }

  lemma LimitEndsIn(u: seq<Post>, n: nat)
    ensures Limit(u, n) != [] ==> Last(Limit(u, n)) in u
  {
    if Limit(u, n) != [] { assert Last(Limit(u, n)) == u[|Limit(u, n)| - 1]; }
  }

  lemma FollowsPages(walk: seq<Visit>, scope: Scope, dir: Direction, n: nat, u: seq<Post>, first: seq<Post>)
    requires walk != [] && Follows(walk, scope, dir, n, u, first)
    ensures var pages := PagesOf(walk, n);
            Follow(u, UpdatedKey(dir), StandsFor(scope, dir), pages, n) && |pages| == |walk| && pages[0] == first
            && Flat(pages) == Shown(walk, n) && Last(pages) == Map(PostOf, PageOf(walk[|walk| - 1], n))
  {
    hide PageOf, Follow, Map;
    FlatIsShown(walk, n);
  }

  lemma InOrderIsStrict(base: Db, scope: Scope, dir: Direction, u: seq<Post>)
    requires InUpdateOrder(base, scope, dir, u)
    ensures StrictlyDescending(UpdatedKey(dir), u)
  {
  }

  /** In ascending order, when the first page ends at an updated post, a walk shows no post twice if and
      only if each page but the last ends at a post that was last updated at its creation; listing
      several users' posts it never shows one twice. Then it shows the updated posts in order. */
  lemma AscendingRepeatsIff(base: Db, walk: seq<Visit>, scope: Scope, viewer: Option<Id>, n: nat, u: seq<Post>)
    requires SchemaOk(base) && (scope.ByUsers? || Dated(base)) && IsUpdatedWalk(base, walk, scope, viewer, Asc, n)
             && walk != []
    requires InUpdateOrder(base, scope, Asc, u) && (NeverUpdated(base, scope) == [] || n <= |u|)
    ensures Distinct(Shown(walk, n)) <==> EndExact(scope, u, n, |walk|)
    ensures EndExact(scope, u, n, |walk|) ==> Shown(walk, n) == u[..Reached(n, |walk|, |u|)]
  {
    hide *;
    FirstAscending(base, walk, scope, viewer, n, u);
    LimitEndsIn(u, n);
    WalkFollows(base, walk, scope, viewer, Asc, n, u, Limit(u, n));
    FollowsPages(walk, scope, Asc, n, u, Limit(u, n));
    BoundsAbove(base, scope, Asc, u);
    InOrderIsStrict(base, scope, Asc, u);
    ExactIsEnds(base, scope, u, n, |walk|);
    RepeatsIff(u, UpdatedKey(Asc), StandsFor(scope, Asc), PagesOf(walk, n), n);
  }

  // ------------------------------------------------ starting over

  /** After a page that ended at a post never updated, the next request ranges over all posts again. */
  lemma StartsOver(base: Db, walk: seq<Visit>, v: Visit, scope: Scope, viewer: Option<Id>, dir: Direction, n: nat,
      u: seq<Post>)
    returns (z: seq<Post>)
    requires SchemaOk(base) && NextVisit(base, walk, v, scope, viewer, dir, n) && InUpdateOrder(base, scope, dir, u)
    requires walk != [] && PageOf(walk[|walk| - 1], n) != []
             ==> PostOf(Last(PageOf(walk[|walk| - 1], n))) in NeverUpdated(base, scope)
    ensures multiset(z) == multiset(NeverUpdated(base, scope))
    ensures Map(PostOf, PageOf(v, n)) == Limit(if dir == Asc then u + z else z + u, n)
  {
    var c := CursorPost(base, scope, LastPostId(walk, n));
    assert !HasCursor(c) by {
      if walk != [] {
        FilterMember(NotUpdated(), VisiblePosts(base, scope), PostOf(Last(PageOf(walk[|walk| - 1], n))));
        CursorIsLast(base, scope, walk, n);
      }
    }
    hide *;
    RequestPosts(base, walk, v, scope, viewer, dir, n);
    NoCursor(scope, dir, c, VisiblePosts(base, scope));
    PagePosts(v, n);
    z := AllInOrder(base, scope, dir, u, Map(PostOf, v.ordered));
  }

  lemma LastInSecond(u: seq<Post>, z: seq<Post>, n: nat)
    requires |u| < n && z != []
    ensures Limit(u + z, n) != [] && Last(Limit(u + z, n)) in z
  {
    var r := |Limit(u + z, n)|;
    assert Last(Limit(u + z, n)) == (u + z)[r - 1] == z[r - 1 - |u|];
  }

  lemma FirstInPage(u: seq<Post>, z: seq<Post>, n: nat)
    requires u != [] && n > 0
    ensures u[0] in Limit(u + z, n)
  {
    assert Limit(u + z, n)[0] == u[0];
  }

  lemma {:induction false} ShownPrefix(walk: seq<Visit>, n: nat, k: nat)
    requires k <= |walk| && !Distinct(Shown(walk[..k], n))
    ensures !Distinct(Shown(walk, n))
    decreases |walk|
  {
    hide *;
    if k == |walk| {
      assert walk[..k] == walk;
    } else {
      var m := |walk| - 1;
      assert walk[..m][..k] == walk[..k];
      ShownPrefix(walk[..m], n, k);
      ShownSnoc(walk, n);
      PrefixRepeats(Shown(walk[..m], n), Map(PostOf, PageOf(walk[m], n)));
    }
  }

  lemma ShownTwo(walk: seq<Visit>, n: nat)
    requires |walk| >= 2
    ensures Shown(walk[..2], n) == Map(PostOf, PageOf(walk[0], n)) + Map(PostOf, PageOf(walk[1], n))
  {
    assert walk[..2][..1] == walk[..1] && walk[..1][..0] == [];
    assert Shown(walk[..1], n) == Map(PostOf, PageOf(walk[0], n));
  }

  lemma {:induction false} WalkPrefixOf(base: Db, walk: seq<Visit>, scope: Scope, viewer: Option<Id>, dir: Direction,
      n: nat, k: nat)
    requires IsUpdatedWalk(base, walk, scope, viewer, dir, n) && k < |walk|
    ensures NextVisit(base, walk[..k], walk[k], scope, viewer, dir, n)
    decreases |walk|
  {
    var m := |walk| - 1;
    hide NextVisit;
    if k < m {
      WalkPrefixOf(base, walk[..m], scope, viewer, dir, n, k);
      assert walk[..m][..k] == walk[..k] && walk[..m][k] == walk[k];
    }
  }

  /** In ascending order, when the first page has room for a post never updated, a second request shows
      the first post again. */
  lemma AscendingStartsOver(base: Db, walk: seq<Visit>, scope: Scope, viewer: Option<Id>, n: nat, u: seq<Post>)
    requires SchemaOk(base) && IsUpdatedWalk(base, walk, scope, viewer, Asc, n) && |walk| >= 2
    requires InUpdateOrder(base, scope, Asc, u) && NeverUpdated(base, scope) != [] && 0 < |u| < n
    ensures !Distinct(Shown(walk, n))
  {
    hide *;
    WalkPrefixOf(base, walk, scope, viewer, Asc, n, 0);
    WalkPrefixOf(base, walk, scope, viewer, Asc, n, 1);
    assert walk[..0] == [] && |walk[..1]| == 1 && walk[..1][0] == walk[0];
    var z := StartsOver(base, walk[..0], walk[0], scope, viewer, Asc, n, u);
    SameMembers(z, NeverUpdated(base, scope));
    LastInSecond(u, z, n);
    LastMapped(PageOf(walk[0], n));
    var again := StartsOver(base, walk[..1], walk[1], scope, viewer, Asc, n, u);
    FirstInPage(u, z, n);
    FirstInPage(u, again, n);
    ShownTwo(walk, n);
    CommonRepeats(Map(PostOf, PageOf(walk[0], n)), Map(PostOf, PageOf(walk[1], n)), u[0]);
    ShownPrefix(walk, n, 2);
  }

  ghost predicate AllNever(posts: seq<Post>, never: seq<Post>) { forall p :: p in posts ==> p in never }

  lemma FirstPart(z: seq<Post>, u: seq<Post>, n: nat, never: seq<Post>)
    requires multiset(z) == multiset(never) && (u == [] || n <= |z|)
    ensures AllNever(Limit(z + u, n), never)
  {
    SameMembers(z, never);
    var page := Limit(z + u, n);
    forall p | p in page ensures p in never {
      var i :| 0 <= i < |page| && page[i] == p;
      assert z[i] == p;
    }
  }

  lemma AllNeverAppend(a: seq<Post>, b: seq<Post>, never: seq<Post>)
    requires AllNever(a, never) && AllNever(b, never)
    ensures AllNever(a + b, never)
  {
  }

  lemma AllNeverLast(vs: seq<View>, never: seq<Post>)
    requires AllNever(Map(PostOf, vs), never) && vs != []
    ensures PostOf(Last(vs)) in never
  {
    LastMapped(vs);
  }

  lemma ShownSnoc(walk: seq<Visit>, n: nat)
    requires walk != []
    ensures Shown(walk, n) == Shown(walk[..|walk| - 1], n) + Map(PostOf, PageOf(walk[|walk| - 1], n))
  {
  }

  lemma NothingShown(n: nat, never: seq<Post>)
    ensures AllNever(Shown([], n), never)
  {
  }

  /** In descending order, when the posts never updated fill a page, every request shows only such posts:
      however long a walk, it never reaches an updated post. */
  lemma {:induction false} DescendingStaysAtStart(base: Db, walk: seq<Visit>, scope: Scope, viewer: Option<Id>, n: nat,
      u: seq<Post>)
    requires SchemaOk(base) && IsUpdatedWalk(base, walk, scope, viewer, Desc, n) && InUpdateOrder(base, scope, Desc, u)
    requires u == [] || n <= |NeverUpdated(base, scope)|
    ensures AllNever(Shown(walk, n), NeverUpdated(base, scope))
    ensures walk != [] ==> AllNever(Map(PostOf, PageOf(walk[|walk| - 1], n)), NeverUpdated(base, scope))
    decreases |walk|
  {
    hide *;
    var never := NeverUpdated(base, scope);
    if walk == [] {
      NothingShown(n, never);
    } else {
      var m := |walk| - 1;
      LastOfWalk(base, walk, scope, viewer, Desc, n);
      DescendingStaysAtStart(base, walk[..m], scope, viewer, n, u);
      if m > 0 && PageOf(walk[..m][m - 1], n) != [] { AllNeverLast(PageOf(walk[..m][m - 1], n), never); }
      var z := StartsOver(base, walk[..m], walk[m], scope, viewer, Desc, n, u);
      SameMembers(z, never);
      FirstPart(z, u, n, never);
      ShownSnoc(walk, n);
      AllNeverAppend(Shown(walk[..m], n), Map(PostOf, PageOf(walk[m], n)), never);
    }
  }

  // ------------------------------------------------ descending order

  /** Behind the `k`-th page's end the next post was last updated before that page's last post was created
      (before it was last updated, when several users' posts are listed). `z` posts were never updated. */
  predicate NoGapAt(scope: Scope, u: seq<Post>, z: nat, n: nat, k: nat) {
    var r := n * k - z;
    0 < r < |u| && u[r].updatedAt.Some? && u[r - 1].updatedAt.Some? && !scope.ByUsers?
    ==> u[r].updatedAt.value < u[r - 1].createdAt
  }

  ghost predicate NoGap(scope: Scope, u: seq<Post>, z: nat, n: nat) {
    forall k: nat :: k > 0 ==> NoGapAt(scope, u, z, n, k)
  }

  lemma TightIs(scope: Scope, z: seq<Post>, u: seq<Post>, n: nat, k: nat)
    requires StrictlyDescending(UpdatedKey(Desc), u) && forall p :: p in u ==> p.updatedAt.Some?
    ensures TightAt(z, u, UpdatedKey(Desc), StandsFor(scope, Desc), n, k) <==> NoGapAt(scope, u, |z|, n, k)
  {
    var r := n * k - |z|;
    if 0 < r < |u| { assert u[r] in u && u[r - 1] in u && UpdatedKey(Desc)(u[r - 1]) > UpdatedKey(Desc)(u[r]); }
  }

  lemma TightIsNoGap(base: Db, scope: Scope, z: seq<Post>, u: seq<Post>, n: nat)
    requires InUpdateOrder(base, scope, Desc, u)
    ensures Tight(z, u, UpdatedKey(Desc), StandsFor(scope, Desc), n) <==> NoGap(scope, u, |z|, n)
  {
    UpdatedIsVisible(base, scope, Desc, u);
    InOrderIsStrict(base, scope, Desc, u);
    hide TightAt, NoGapAt, InUpdateOrder, VisiblePosts, StrictlyDescending;
    forall k: nat | k > 0
      ensures TightAt(z, u, UpdatedKey(Desc), StandsFor(scope, Desc), n, k) <==> NoGapAt(scope, u, |z|, n, k)
    {
      TightIs(scope, z, u, n, k);
    }
  }

  lemma FirstDescending(z: seq<Post>, u: seq<Post>, n: nat)
    requires |z| < n && u != []
    ensures Limit(z + u, n) == z + Limit(u, n - |z|) && Limit(z + u, n) != [] && Last(Limit(z + u, n)) in u
  {
    var page := Limit(z + u, n);
    assert Last(page) == u[|page| - 1 - |z|];
  }

  lemma StartsInOrder(base: Db, walk: seq<Visit>, scope: Scope, viewer: Option<Id>, n: nat, u: seq<Post>)
    returns (z: seq<Post>)
    requires SchemaOk(base) && (scope.ByUsers? || Dated(base)) && IsUpdatedWalk(base, walk, scope, viewer, Desc, n)
             && walk != []
    requires InUpdateOrder(base, scope, Desc, u) && u != [] && |NeverUpdated(base, scope)| < n
    ensures multiset(z) == multiset(NeverUpdated(base, scope)) && Flat(PagesOf(walk, n)) == Shown(walk, n)
    ensures StartsWith(z, u, UpdatedKey(Desc), StandsFor(scope, Desc), PagesOf(walk, n), n)
    ensures Last(PagesOf(walk, n)) == Map(PostOf, PageOf(walk[|walk| - 1], n))
  {
    hide *;
    FirstVisit(base, walk, scope, viewer, Desc, n);
    PagePosts(walk[0], n);
    z := AllInOrder(base, scope, Desc, u, Map(PostOf, walk[0].ordered));
    SameMembers(z, NeverUpdated(base, scope));
    FirstDescending(z, u, n);
    var first := Limit(z + u, n);
    WalkFollows(base, walk, scope, viewer, Desc, n, u, first);
    FollowsPages(walk, scope, Desc, n, u, first);
    BelowAndApart(base, scope, u, z);
    InOrderIsStrict(base, scope, Desc, u);
    StartsFrom(z, u, UpdatedKey(Desc), StandsFor(scope, Desc), PagesOf(walk, n), n);
  }

  lemma StartsFrom<T(!new)>(z: seq<T>, rows: seq<T>, key: T -> int, bound: T -> int, pages: seq<seq<T>>, n: nat)
    requires StrictlyDescending(key, rows) && BoundsBelow(z, rows, key, bound) && rows != [] && |z| < n
    requires Follow(rows, key, bound, pages, n) && pages != [] && pages[0] == z + Limit(rows, n - |z|)
    ensures StartsWith(z, rows, key, bound, pages, n)
  {
  }

  lemma BelowAndApart(base: Db, scope: Scope, u: seq<Post>, z: seq<Post>)
    requires InUpdateOrder(base, scope, Desc, u) && (scope.ByUsers? || Dated(base))
             && multiset(z) == multiset(NeverUpdated(base, scope))
    ensures BoundsBelow(z, u, UpdatedKey(Desc), StandsFor(scope, Desc))
  {
    BoundsAbove(base, scope, Desc, u);
    UpdatedIsVisible(base, scope, Desc, u);
    FilterMembers(NotUpdated(), VisiblePosts(base, scope));
    SameMembers(z, NeverUpdated(base, scope));
    hide InUpdateOrder, Dated, VisiblePosts, UpdatedKey, StandsFor, Filter;
  }

  lemma {:induction false} PartsOf<T(!new)>(p: T -> bool, q: T -> bool, xs: seq<T>)
    requires forall x :: q(x) == !p(x)
    ensures multiset(xs) == multiset(Filter(p, xs)) + multiset(Filter(q, xs))
  {
    forall x ensures multiset(xs)[x] == (multiset(Filter(p, xs)) + multiset(Filter(q, xs)))[x] {
      FilterCount(p, xs, x);
      FilterCount(q, xs, x);
    }
  }

  lemma NeverDistinct(base: Db, scope: Scope, z: seq<Post>)
    requires SchemaOk(base) && multiset(z) == multiset(NeverUpdated(base, scope))
    ensures Distinct(z)
  {
    FilterDistinct(Visible(base, scope), base.posts);
    FilterDistinct(NotUpdated(), VisiblePosts(base, scope));
    DistinctCount(NeverUpdated(base, scope));
    CountDistinct(z);
  }

  lemma AllPosts(base: Db, scope: Scope, z: seq<Post>, u: seq<Post>)
    requires InUpdateOrder(base, scope, Desc, u) && multiset(z) == multiset(NeverUpdated(base, scope))
    ensures multiset(z + u) == multiset(VisiblePosts(base, scope)) && |z| == |NeverUpdated(base, scope)|
  {
    SameMembers(z, NeverUpdated(base, scope));
    PartsOf(IsUpdated(), NotUpdated(), VisiblePosts(base, scope));
  }

  /** In descending order, when the posts never updated do not fill a page, a finished walk shows no post
      twice, and every visible post if and only if behind each page end the next post was last updated
      before the page's last post was created; listing several users' posts it shows all of them. */
  lemma DescendingShowsAllIff(base: Db, walk: seq<Visit>, scope: Scope, viewer: Option<Id>, n: nat, u: seq<Post>)
    requires SchemaOk(base) && (scope.ByUsers? || Dated(base)) && IsUpdatedWalk(base, walk, scope, viewer, Desc, n)
    requires walk != [] && |PageOf(walk[|walk| - 1], n)| < n
    requires InUpdateOrder(base, scope, Desc, u) && u != [] && |NeverUpdated(base, scope)| < n
    ensures Distinct(Shown(walk, n))
    ensures multiset(Shown(walk, n)) == multiset(VisiblePosts(base, scope))
            <==> NoGap(scope, u, |NeverUpdated(base, scope)|, n)
  {
    hide *;
    var key, bound := UpdatedKey(Desc), StandsFor(scope, Desc);
    var z := StartsInOrder(base, walk, scope, viewer, n, u);
    NeverDistinct(base, scope, z);
    NoneTwice(z, u, key, bound, PagesOf(walk, n), n);
    CompleteIff(z, u, key, bound, PagesOf(walk, n), n);
    AllPosts(base, scope, z, u);
    TightIsNoGap(base, scope, z, u, n);
  }

  lemma NoGapOfSeveral(userIds: seq<Id>, u: seq<Post>, z: nat, n: nat)
    ensures NoGap(ByUsers(userIds), u, z, n)
  {
  }

  /** Listing several users' posts by update date, descending, a finished walk shows every visible post
      exactly once. */
  lemma SeveralUsersComplete(base: Db, walk: seq<Visit>, userIds: seq<Id>, viewer: Option<Id>, n: nat, u: seq<Post>)
    requires var scope := ByUsers(userIds);
             SchemaOk(base) && IsUpdatedWalk(base, walk, scope, viewer, Desc, n)
             && InUpdateOrder(base, scope, Desc, u) && u != [] && |NeverUpdated(base, scope)| < n
    requires walk != [] && |PageOf(walk[|walk| - 1], n)| < n
    ensures multiset(Shown(walk, n)) == multiset(VisiblePosts(base, ByUsers(userIds))) && Distinct(Shown(walk, n))
  {
    hide *;
    DescendingShowsAllIff(base, walk, ByUsers(userIds), viewer, n, u);
    NoGapOfSeveral(userIds, u, |NeverUpdated(base, ByUsers(userIds))|, n);
  }

  // ------------------------------------------------ walks where it happens

  lemma UpdatesAreTotal(dir: Direction)
    ensures TotalPreorder(ViewsByUpdate(dir))
  {
  }

  lemma WalkOn(base: Db, walk: seq<Visit>, v: Visit, scope: Scope, viewer: Option<Id>, dir: Direction, n: nat)
    requires IsUpdatedWalk(base, walk, scope, viewer, dir, n) && NextVisit(base, walk, v, scope, viewer, dir, n)
    ensures IsUpdatedWalk(base, walk + [v], scope, viewer, dir, n)
  {
    hide NextVisit;
    assert (walk + [v])[..|walk|] == walk;
  }

  lemma CanOrder(db: Db, scope: Scope, viewer: Option<Id>, dir: Direction, id: Option<Id>) returns (ordered: seq<View>)
    ensures OrderedByUpdate(db, scope, viewer, dir, id, ordered)
  {
    var rows := ListingOf(db, scope, viewer, UpdatedSelect(scope, dir, CursorPost(db, scope, id)));
    ordered := Sort(ViewsByUpdate(dir), rows);
    UpdatesAreTotal(dir);
    hide ListingOf, CursorPost, Sort, IsOrderBy, TotalPreorder, ViewsByUpdate;
    SortIsOrderBy(ViewsByUpdate(dir), rows);
  }

  /** The database can always answer the next request. */
  lemma CanAsk(base: Db, walk: seq<Visit>, scope: Scope, viewer: Option<Id>, dir: Direction, n: nat) returns (v: Visit)
    requires IsUpdatedWalk(base, walk, scope, viewer, dir, n) && OneLikeEach(base.likes)
    requires walk != [] ==> PageOf(walk[|walk| - 1], n) != []
    ensures IsUpdatedWalk(base, walk + [v], scope, viewer, dir, n)
  {
    var ordered := CanOrder(base, scope, viewer, dir, LastPostId(walk, n));
    v := Visit(base, ordered);
    hide IsUpdatedWalk, OrderedByUpdate, PageOf, LastPostId, OneLikeEach;
    WalkOn(base, walk, v, scope, viewer, dir, n);
  }

  /** Two posts of one user, created at 0 and last updated at 1 and 2. */
  function Early(): Post { Post("p", "u", 0, Some(1), None) }
  function Late(): Post { Post("q", "u", 0, Some(2), None) }
  function TwoPosts(): Db { Db([User("u", "name")], [], [Early(), Late()], []) }

  lemma TwoPostsSchema()
    ensures SchemaOk(TwoPosts()) && OneLikeEach(TwoPosts().likes) && Dated(TwoPosts())
  {
    assert "p"[0] != "q"[0];
    assert TwoPosts().users[0].id == "u";
  }

  lemma TwoPostsVisible()
    ensures VisiblePosts(TwoPosts(), Everyone) == [Early(), Late()]
  {
    FilterAll(Visible(TwoPosts(), Everyone), TwoPosts().posts);
  }

  lemma TwoPostsUpdated()
    ensures UpdatedPosts(TwoPosts(), Everyone) == [Early(), Late()] && NeverUpdated(TwoPosts(), Everyone) == []
  {
    TwoPostsVisible();
    hide VisiblePosts, Filter;
    FilterAll(IsUpdated(), [Early(), Late()]);
    FilterNone(NotUpdated(), [Early(), Late()]);
  }

  lemma TwoDescend<T>(key: T -> int, a: T, b: T)
    requires key(a) > key(b)
    ensures StrictlyDescending(key, [a, b])
  {
  }

  lemma TwoInOrder()
    ensures InUpdateOrder(TwoPosts(), Everyone, Asc, [Early(), Late()])
  {
    assert UpdatedKey(Asc)(Early()) == -1 && UpdatedKey(Asc)(Late()) == -2;
    hide *;
    TwoPostsUpdated();
    InOrderFrom(Asc, Early(), Late());
  }

  lemma TwoNotExact()
    ensures !EndExact(Everyone, [Early(), Late()], 1, 2)
  {
    assert Reached(1, 0, 2) == 0 && Reached(1, 1, 2) == 1;
    hide Reached;
    assert !EndsExact(Everyone, [Early(), Late()], 1, 1);
  }

  lemma FirstOfTwo(walk: seq<Visit>, viewer: Option<Id>)
    requires IsUpdatedWalk(TwoPosts(), walk, Everyone, viewer, Asc, 1) && walk != []
    ensures PageOf(walk[0], 1) != []
  {
    hide *;
    TwoPostsSchema();
    TwoPostsUpdated();
    TwoInOrder();
    FirstAscending(TwoPosts(), walk, Everyone, viewer, 1, [Early(), Late()]);
    LastMapped(PageOf(walk[0], 1));
  }

  /** In ascending order with pages of one post the second page is the first again. */
  lemma AscendingAgainWalk(viewer: Option<Id>) returns (walk: seq<Visit>)
    ensures IsUpdatedWalk(TwoPosts(), walk, Everyone, viewer, Asc, 1) && |walk| == 2 && !Distinct(Shown(walk, 1))
  {
    hide *;
    TwoPostsSchema();
    NoWalk(TwoPosts(), Everyone, viewer, Asc, 1);
    var first := CanAsk(TwoPosts(), [], Everyone, viewer, Asc, 1);
    walk := [] + [first];
    FirstOfTwo(walk, viewer);
    var second := CanAsk(TwoPosts(), walk, Everyone, viewer, Asc, 1);
    walk := walk + [second];
    TwoPostsUpdated();
    TwoInOrder();
    TwoNotExact();
    AscendingRepeatsIff(TwoPosts(), walk, Everyone, viewer, 1, [Early(), Late()]);
  }

  lemma SwapTwo<T>(a: T, b: T)
    ensures multiset([b, a]) == multiset([a, b])
  {
    assert [b, a] == [b] + [a] && [a, b] == [a] + [b];
  }

  lemma InOrderFrom(dir: Direction, a: Post, b: Post)
    requires multiset([a, b]) == multiset(UpdatedPosts(TwoPosts(), Everyone)) && UpdatedKey(dir)(a) > UpdatedKey(dir)(b)
    ensures InUpdateOrder(TwoPosts(), Everyone, dir, [a, b])
  {
    hide UpdatedPosts, UpdatedKey, TwoPosts, StrictlyDescending;
    TwoDescend(UpdatedKey(dir), a, b);
  }

  lemma TwoDescending()
    ensures InUpdateOrder(TwoPosts(), Everyone, Desc, [Late(), Early()])
  {
    assert UpdatedKey(Desc)(Early()) == 1 && UpdatedKey(Desc)(Late()) == 2;
    hide *;
    TwoPostsUpdated();
    SwapTwo(Early(), Late());
    InOrderFrom(Desc, Late(), Early());
  }

  lemma LateFirst(walk: seq<Visit>, viewer: Option<Id>)
    requires IsUpdatedWalk(TwoPosts(), walk, Everyone, viewer, Desc, 1) && walk != []
    ensures PageOf(walk[0], 1) != [] && Map(PostOf, PageOf(walk[0], 1)) == [Late()]
  {
    hide *;
    TwoPostsSchema();
    TwoPostsUpdated();
    TwoDescending();
    FirstVisit(TwoPosts(), walk, Everyone, viewer, Desc, 1);
    PagePosts(walk[0], 1);
    var z := AllInOrder(TwoPosts(), Everyone, Desc, [Late(), Early()], Map(PostOf, walk[0].ordered));
    SameMembers(z, NeverUpdated(TwoPosts(), Everyone));
    assert z + [Late(), Early()] == [Late(), Early()];
    assert Limit([Late(), Early()], 1) == [Late()];
    LastMapped(PageOf(walk[0], 1));
  }

  lemma NothingBeforeLate()
    ensures PageAfter([Late(), Early()], UpdatedKey(Desc), StandsFor(Everyone, Desc), [Late()], 1) == []
  {
    FilterNone(Below(UpdatedKey(Desc), Some(0)), [Late(), Early()]);
  }

  lemma TwoHaveGap()
    ensures !NoGap(Everyone, [Late(), Early()], 0, 1)
  {
    assert !NoGapAt(Everyone, [Late(), Early()], 0, 1, 1);
  }

  lemma SecondIsEmpty(walk: seq<Visit>, viewer: Option<Id>)
    requires IsUpdatedWalk(TwoPosts(), walk, Everyone, viewer, Desc, 1) && |walk| == 2
    ensures PageOf(walk[1], 1) == []
  {
    hide *;
    TwoPostsSchema();
    TwoDescending();
    LateFirst(walk, viewer);
    LastMapped(PageOf(walk[0], 1));
    LastOfWalk(TwoPosts(), walk, Everyone, viewer, Desc, 1);
    assert |walk[..1]| == 1 && walk[..1][0] == walk[0];
    LateInTwo();
    NextPosts(TwoPosts(), walk[..1], walk[1], Everyone, viewer, Desc, 1, [Late(), Early()]);
    NothingBeforeLate();
    LastMapped(PageOf(walk[1], 1));
  }

  lemma LateInTwo()
    ensures Last([Late()]) == Late() && Late() in [Late(), Early()]
  {
  }

  /** In descending order with pages of one post the second page is empty, and the other post is missed. */
  lemma DescendingMissesWalk(viewer: Option<Id>) returns (walk: seq<Visit>)
    ensures IsUpdatedWalk(TwoPosts(), walk, Everyone, viewer, Desc, 1) && |walk| == 2 && PageOf(walk[1], 1) == []
    ensures multiset(Shown(walk, 1)) != multiset(VisiblePosts(TwoPosts(), Everyone))
  {
    hide *;
    TwoPostsSchema();
    NoWalk(TwoPosts(), Everyone, viewer, Desc, 1);
    var first := CanAsk(TwoPosts(), [], Everyone, viewer, Desc, 1);
    walk := [] + [first];
    LateFirst(walk, viewer);
    var second := CanAsk(TwoPosts(), walk, Everyone, viewer, Desc, 1);
    walk := walk + [second];
    SecondIsEmpty(walk, viewer);
    TwoPostsUpdated();
    TwoDescending();
    TwoHaveGap();
    DescendingShowsAllIff(TwoPosts(), walk, Everyone, viewer, 1, [Late(), Early()]);
  }

  lemma NoWalk(base: Db, scope: Scope, viewer: Option<Id>, dir: Direction, n: nat)
    ensures IsUpdatedWalk(base, [], scope, viewer, dir, n)
  {
  }
}
