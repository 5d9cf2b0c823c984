/**
 The folder table: recursive listing, moving, and recursive deletion that commits
 after every row. `limit` is the interpreter's remaining recursion depth; running
 out of it is the exception that both callers catch.
 */
module Folders {
  import opened Wrappers
  import opened Forest

  /** Whatever is deleted, the children of a deleted folder are deleted too. */
  ghost predicate ClosedBelow(rows: seq<Folder>, user: string, gone: set<string>) {
    forall f :: f in rows && f.userId == user && f.parentId.Some? && f.parentId.value in gone ==> f.id in gone
  }

  /** No row of the user that is still stored points to a folder that was deleted since `before`. */
  ghost predicate NoOrphans(before: seq<Folder>, user: string, now: seq<Folder>) {
    forall f :: f in now && f.userId == user && f.parentId.Some? && f.parentId.value in Ids(before) ==>
      f.parentId.value in Ids(now)
  }

  /** No stored row of anybody points to a folder that was deleted since `before`. */
  ghost predicate NoDangling(before: seq<Folder>, now: seq<Folder>) {
    forall f :: f in now && f.parentId.Some? && f.parentId.value in Ids(before) ==> f.parentId.value in Ids(now)
  }

  /** Somebody else's row points to a folder that was deleted since `before`. */
  ghost predicate ForeignInto(before: seq<Folder>, user: string, now: seq<Folder>) {
    exists f :: f in before && f.userId != user && f.parentId.Some?
      && f.parentId.value in Ids(before) && f.parentId.value !in Ids(now)
  }

  /** No orphan of the user, and nobody else's either unless that row already pointed into what is deleted. */
  ghost predicate SafeCommit(before: seq<Folder>, user: string, now: seq<Folder>) {
    NoOrphans(before, user, now) && (NoDangling(before, now) <==> !ForeignInto(before, user, now))
  }

  /** Every commit made since `history` is safe. */
  ghost predicate SafeCommits(
      before: seq<Folder>, user: string, commits: seq<seq<Folder>>, history: seq<seq<Folder>>)
  {
    history <= commits && forall i :: |history| <= i < |commits| ==> SafeCommit(before, user, commits[i])
  }

  /** `now` is `before` without exactly one stored row. */
  ghost predicate DropsOne(before: seq<Folder>, now: seq<Folder>) {
    exists x :: x in Ids(before) && now == Without(before, {x})
  }

  /** From `before` to `now` by the commits made since `history`, each of which dropped one row. */
  ghost predicate OneAtATime(
      before: seq<Folder>, now: seq<Folder>, commits: seq<seq<Folder>>, history: seq<seq<Folder>>)
    decreases |commits|
  {
    if |commits| <= |history| then commits == history && now == before
    else
      var n := |commits| - 1;
      && now == commits[n]
      && exists last :: DropsOne(last, now) && OneAtATime(before, last, commits[..n], history)
  }

  lemma OneMoreCommit(
      before: seq<Folder>, now: seq<Folder>, commits: seq<seq<Folder>>, history: seq<seq<Folder>>, id: string)
    requires OneAtATime(before, now, commits, history) && history <= commits && id in Ids(now)
    ensures OneAtATime(before, Without(now, {id}), commits + [Without(now, {id})], history)
  {
    var more := commits + [Without(now, {id})];
    assert more[..|commits|] == commits;
    assert DropsOne(now, Without(now, {id}));
  }

  /** Only folders of the user are deleted. */
  ghost predicate OwnRows(rows: seq<Folder>, user: string, gone: set<string>) {
    forall y :: y in gone ==> Owned(rows, user, y)
  }

  lemma CommitSafe(before: seq<Folder>, user: string, gone: set<string>)
    requires UniqueIds(before) && ClosedBelow(before, user, gone) && OwnRows(before, user, gone)
    ensures SafeCommit(before, user, Without(before, gone))
  {
    var now := Without(before, gone);
    WithoutMembers(before, gone);
    forall f | f in now && f.userId == user && f.parentId.Some? && f.parentId.value in Ids(before)
      ensures f.parentId.value in Ids(now)
    {
      var p :| p in before && p.id == f.parentId.value;
      assert p in now;
    }
    forall f | f in before && Owned(before, user, f.id) ensures f.userId == user { OwnedRow(before, user, f); }
    assert forall f :: f in before && f.userId != user ==> f in now;
  }

  lemma OwnedRow(rows: seq<Folder>, user: string, f: Folder)
    requires UniqueIds(rows) && f in rows && Owned(rows, user, f.id)
    ensures f.userId == user
  {
    var own :| own in rows && own.id == f.id && own.userId == user;
    SameIdSameRow(rows, f, own);
  }

  /** The folder exists, lies on no cycle, and what is below it fits the recursion depth. */
  ghost predicate Reaches(rows: seq<Folder>, user: string, id: string, limit: nat)
    requires UniqueIds(rows)
  {
    Owned(rows, user, id) && Grounded(rows, user, id) && Height(rows, user, id) < limit
  }

  // ---------- listing ----------

  /**
   A listing after `i` of the children, on a table without a cycle at `id`: it has
   collected them and fits the depth so far, or else what is below is too deep.
   */
  ghost predicate Collecting(
      rows: seq<Folder>, user: string, id: string, limit: nat, i: nat, folders: seq<Folder>, ok: bool, all: seq<Folder>)
    requires UniqueIds(rows)
  {
    Owned(rows, user, id) && Grounded(rows, user, id) ==>
      && i <= |Children(rows, user, id)|
      && (ok ==> all == folders + Listing(rows, user, id, i) && HeightUpTo(rows, user, id, i) < limit)
      && (!ok ==> Height(rows, user, id) >= limit)
  }

  lemma CollectingNext(
      rows: seq<Folder>, user: string, id: string, limit: nat, i: nat, folders: seq<Folder>, all: seq<Folder>,
      ok2: bool, all2: seq<Folder>)
    requires UniqueIds(rows) && limit > 0 && i < |Children(rows, user, id)|
    requires Collecting(rows, user, id, limit, i, folders, true, all)
    requires var c := Children(rows, user, id)[i];
      Collecting(rows, user, c.id, limit - 1, |Children(rows, user, c.id)|, all, ok2, all2)
    ensures Collecting(rows, user, id, limit, i + 1, folders, ok2,
                       if ok2 then all2 + [Children(rows, user, id)[i]] else all2)
  {
    if Owned(rows, user, id) && Grounded(rows, user, id) {
      var c := Children(rows, user, id)[i];
      HeightStep(rows, user, id, i + 1);
      ChildLower(rows, user, id, c, |Children(rows, user, id)|);
      ListingStep(rows, user, id, i, folders);
    }
  }

  lemma ListingStep(rows: seq<Folder>, user: string, id: string, i: nat, folders: seq<Folder>)
    requires UniqueIds(rows) && Owned(rows, user, id) && Grounded(rows, user, id) && i < |Children(rows, user, id)|
    ensures var c := Children(rows, user, id)[i];
      && Owned(rows, user, c.id) && Grounded(rows, user, c.id)
      && folders + Listing(rows, user, id, i + 1) ==
           folders + Listing(rows, user, id, i) + PostOrder(rows, user, c.id) + [c]
  {
    var c := Children(rows, user, id)[i];
    FewerBelow(rows, user, c, id);
    Regroup(folders, Listing(rows, user, id, i), PostOrder(rows, user, c.id), [c]);
  }

  // ---------- deleting ----------

  predicate Stored(rows: seq<Folder>, id: string) {
    exists f :: f in rows && f.id == id
  }

  lemma IdsAppend(a: seq<Folder>, b: seq<Folder>)
    ensures Ids(a + b) == Ids(a) + Ids(b)
    ensures IdList(a + b) == IdList(a) + IdList(b)
  {
  }

  /** The listing grows by one child's subtree and the child. */
  lemma ListingGrows(rows: seq<Folder>, user: string, x: string, i: nat)
    requires UniqueIds(rows) && Owned(rows, user, x) && Grounded(rows, user, x)
    requires i < |Children(rows, user, x)|
    ensures var c := Children(rows, user, x)[i];
      && Owned(rows, user, c.id) && Grounded(rows, user, c.id)
      && IdList(Listing(rows, user, x, i + 1)) ==
           IdList(Listing(rows, user, x, i)) + IdList(PostOrder(rows, user, c.id)) + [c.id]
      && Ids(Listing(rows, user, x, i + 1)) ==
           Ids(Listing(rows, user, x, i)) + Ids(PostOrder(rows, user, c.id)) + {c.id}
  {
    var c := Children(rows, user, x)[i];
    FewerBelow(rows, user, c, x);
    var front, below := Listing(rows, user, x, i), PostOrder(rows, user, c.id);
    IdsAppend(front, below);
    IdsAppend(front + below, [c]);
    assert Ids([c]) == {c.id} && IdList([c]) == [c.id];
  }

  /** No cycle at `x`, and nothing below it deleted yet. */
  ghost predicate Untouched(rows: seq<Folder>, user: string, gone: set<string>, x: string) {
    && Owned(rows, user, x) && Grounded(rows, user, x)
    && forall y :: Descendant(rows, user, y, x) ==> y !in gone
  }

  lemma NotListedBefore(rows: seq<Folder>, user: string, x: string, i: nat, y: string)
    requires UniqueIds(rows) && Owned(rows, user, x) && Grounded(rows, user, x) && i < |Children(rows, user, x)|
    requires AtOrBelow(rows, user, y, Children(rows, user, x)[i].id)
    ensures y !in Ids(Listing(rows, user, x, i))
  {
    forall f | f in Listing(rows, user, x, i) ensures f.id != y { EarlierApart(rows, user, x, i + 1, f); }
  }

  /** Deleting the subtrees of the first `i` children leaves the next child's subtree untouched. */
  lemma NextChildUntouched(rows: seq<Folder>, user: string, gone: set<string>, x: string, i: nat)
    requires UniqueIds(rows) && Untouched(rows, user, gone, x) && i < |Children(rows, user, x)|
    ensures var c := Children(rows, user, x)[i];
      && c.id !in gone + Ids(Listing(rows, user, x, i))
      && Untouched(rows, user, gone + Ids(Listing(rows, user, x, i)), c.id)
  {
    var c := Children(rows, user, x)[i];
    FewerBelow(rows, user, c, x);
    ChildrenMembers(rows, user, x);
    assert c in Children(rows, user, x);
    ChildIsDescendant(rows, user, c, x);
    NotListedBefore(rows, user, x, i, c.id);
    forall y | Descendant(rows, user, y, c.id) ensures y !in gone + Ids(Listing(rows, user, x, i)) {
      DescendantTrans(rows, user, y, c.id, x);
      NotListedBefore(rows, user, x, i, y);
    }
  }

  lemma UntouchedChildren(rows: seq<Folder>, user: string, gone: set<string>, x: string)
    requires UniqueIds(rows) && Untouched(rows, user, gone, x)
    ensures Children(Without(rows, gone), user, x) == Children(rows, user, x)
  {
    forall f | f in rows && f.parentId == Some(x) && f.userId == user ensures f.id !in gone {
      ChildIsDescendant(rows, user, f, x);
    }
    ChildrenOfRest(rows, gone, user, x);
  }

  /** After everything below it is deleted, the folder itself is still there to delete. */
  lemma StillStored(rows: seq<Folder>, user: string, gone: set<string>, x: string)
    requires UniqueIds(rows) && Owned(rows, user, x) && Grounded(rows, user, x) && x !in gone
    ensures Stored(Without(rows, gone + Ids(PostOrder(rows, user, x))), x)
  {
    PostOrderIds(rows, user, x);
    WithoutMembers(rows, gone + Ids(PostOrder(rows, user, x)));
    var f :| f in rows && f.id == x && f.userId == user;
    assert f in Without(rows, gone + Ids(PostOrder(rows, user, x)));
  }

  /** A deletion after `i` of the children of an untouched `id`, as `Collecting` for a listing. */
  ghost predicate Deleting(
      before: seq<Folder>, user: string, gone: set<string>, id: string, limit: nat, i: nat, ids: seq<string>, ok: bool,
      all: seq<string>, gone': set<string>)
    requires UniqueIds(before)
  {
    Untouched(before, user, gone, id) ==>
      && i <= |Children(before, user, id)|
      && (ok ==> && all == ids + IdList(Listing(before, user, id, i))
                 && gone' == gone + Ids(Listing(before, user, id, i))
                 && HeightUpTo(before, user, id, i) < limit)
      && (!ok ==> Height(before, user, id) >= limit)
  }

  /** What deleting one child does, when nothing at or below it was deleted before. */
  ghost predicate ChildDeleted(
      before: seq<Folder>, user: string, gone: set<string>, child: Folder, limit: nat, ids: seq<string>, ok: bool,
      all: seq<string>, gone': set<string>)
    requires UniqueIds(before)
  {
    Untouched(before, user, gone, child.id) && child.id !in gone ==>
      && (ok ==> && all == ids + IdList(PostOrder(before, user, child.id)) + [child.id]
                 && gone' == gone + Ids(PostOrder(before, user, child.id)) + {child.id}
                 && Height(before, user, child.id) + 1 < limit)
      && (!ok ==> Height(before, user, child.id) + 1 >= limit)
  }

  lemma DeletingNext(
      before: seq<Folder>, user: string, gone: set<string>, id: string, limit: nat, i: nat, ids: seq<string>,
      all: seq<string>, gone': set<string>, ok2: bool, all2: seq<string>, gone2: set<string>)
    requires UniqueIds(before) && limit > 0
    requires Untouched(before, user, gone, id) ==> i < |Children(before, user, id)|
    requires Deleting(before, user, gone, id, limit, i, ids, true, all, gone')
    requires Untouched(before, user, gone, id) ==>
      ChildDeleted(before, user, gone', Children(before, user, id)[i], limit, all, ok2, all2, gone2)
    ensures Deleting(before, user, gone, id, limit, i + 1, ids, ok2, all2, gone2)
  {
    if Untouched(before, user, gone, id) {
      var c := Children(before, user, id)[i];
      NextChildUntouched(before, user, gone, id, i);
      ListingGrows(before, user, id, i);
      HeightStep(before, user, id, i + 1);
      ChildLower(before, user, id, c, |Children(before, user, id)|);
      Regroup(ids, IdList(Listing(before, user, id, i)), IdList(PostOrder(before, user, c.id)), [c.id]);
    }
  }

  /** The children of `id` that are not deleted yet are all in `rest`. */
  ghost predicate Left(before: seq<Folder>, user: string, gone: set<string>, id: string, rest: seq<Folder>) {
    forall f :: f in before && f.userId == user && f.parentId == Some(id) ==> f.id in gone || f in rest
  }

  lemma LeftNext(
      before: seq<Folder>, user: string, gone: set<string>, gone': set<string>, id: string, rest: seq<Folder>)
    requires rest != [] && Left(before, user, gone, id, rest)
    requires gone <= gone' && rest[0].id in gone'
    ensures Left(before, user, gone', id, rest[1..])
  {
    assert rest == [rest[0]] + rest[1..];
  }

  // ---------- deleting on any table ----------

  lemma ParentOfRest(rows: seq<Folder>, gone: set<string>, user: string, y: string)
    requires UniqueIds(rows)
    ensures Parent(Without(rows, gone), user, y).Some? ==> Parent(rows, user, y) == Parent(Without(rows, gone), user, y)
    ensures y !in gone && Parent(rows, user, y).Some? && Parent(rows, user, y).value !in gone ==>
      Parent(Without(rows, gone), user, y) == Parent(rows, user, y)
  {
    var now := Without(rows, gone);
    WithoutMembers(rows, gone);
    if Find(now, user, y).Some? { SameIdSameRow(rows, Find(now, user, y).value, Find(rows, user, y).value); }
    if y !in gone && Parent(rows, user, y).Some? && Parent(rows, user, y).value !in gone {
      assert Find(rows, user, y).value in now;
      SameIdSameRow(rows, Find(now, user, y).value, Find(rows, user, y).value);
      var p :| p in rows && p.id == Parent(rows, user, y).value && p.userId == user;
      assert p in now;
    }
  }

  /** Ancestors in what is left were ancestors before. */
  lemma UpOfRest(rows: seq<Folder>, gone: set<string>, user: string, y: string, n: nat)
    requires UniqueIds(rows) && Up(Without(rows, gone), user, y, n).Some?
    ensures Up(rows, user, y, n) == Up(Without(rows, gone), user, y, n)
    decreases n
  {
    if n > 0 {
      ParentOfRest(rows, gone, user, y);
      UpOfRest(rows, gone, user, Parent(rows, user, y).value, n - 1);
    }
  }

  lemma DescendantOfRest(rows: seq<Folder>, gone: set<string>, user: string, y: string, x: string)
    requires UniqueIds(rows) && Descendant(Without(rows, gone), user, y, x)
    ensures Descendant(rows, user, y, x)
  {
    var n: nat :| n > 0 && Up(Without(rows, gone), user, y, n) == Some(x);
    UpOfRest(rows, gone, user, y, n);
  }

  /** A walk that avoids what is deleted stays. */
  lemma WalkStays(rows: seq<Folder>, gone: set<string>, user: string, y: string, n: nat)
    requires UniqueIds(rows) && Up(rows, user, y, n).Some?
    requires forall k: nat :: k <= n && Up(rows, user, y, k).Some? ==> Up(rows, user, y, k).value !in gone
    ensures Up(Without(rows, gone), user, y, n) == Up(rows, user, y, n)
    decreases n
  {
    if n > 0 {
      var p := Parent(rows, user, y).value;
      assert Up(rows, user, y, 0) == Some(y) && Up(rows, user, y, 1) == Up(rows, user, p, 0);
      ParentOfRest(rows, gone, user, y);
      forall k: nat | k <= n - 1 && Up(rows, user, p, k).Some? ensures Up(rows, user, p, k).value !in gone {
        assert Up(rows, user, y, k + 1) == Up(rows, user, p, k);
      }
      WalkStays(rows, gone, user, p, n - 1);
    }
  }

  /** Only what is below `id` has been deleted since `gone`. */
  ghost predicate OnlyBelow(before: seq<Folder>, user: string, gone: set<string>, gone': set<string>, id: string) {
    forall y :: y in gone' && y !in gone ==> Descendant(Without(before, gone), user, y, id)
  }

  ghost predicate OnlyAtOrBelow(before: seq<Folder>, user: string, gone: set<string>, gone': set<string>, id: string) {
    forall y :: y in gone' && y !in gone ==> AtOrBelow(Without(before, gone), user, y, id)
  }

  lemma OnlyBelowNext(
      before: seq<Folder>, user: string, gone: set<string>, gone1: set<string>, gone2: set<string>, id: string,
      c: Folder)
    requires UniqueIds(before) && gone <= gone1
    requires OnlyBelow(before, user, gone, gone1, id) && OnlyAtOrBelow(before, user, gone1, gone2, c.id)
    requires Owned(Without(before, gone), user, id) && c in Children(Without(before, gone), user, id)
    ensures OnlyBelow(before, user, gone, gone2, id)
  {
    var now := Without(before, gone);
    WithoutUnique(before, gone);
    ChildrenMembers(now, user, id);
    ChildIsDescendant(now, user, c, id);
    WithoutTwice(before, gone, gone1);
    assert gone + gone1 == gone1;
    forall y | y in gone2 && y !in gone ensures Descendant(now, user, y, id) {
      if y !in gone1 && y != c.id {
        DescendantOfRest(now, gone1, user, y, c.id);
        DescendantTrans(now, user, y, c.id, id);
      }
    }
  }

  /** `c` is a child of `id` through which a cycle runs. */
  ghost predicate OnCycle(rows: seq<Folder>, user: string, c: Folder, id: string) {
    c in rows && c.userId == user && c.parentId == Some(id) && Descendant(rows, user, c.id, c.id)
  }

  /** Only one child of a folder is on the folder's cycle. */
  lemma SameCycleChild(rows: seq<Folder>, user: string, c: string, s: string, id: string)
    requires Parent(rows, user, c) == Some(id) && Parent(rows, user, s) == Some(id)
    requires Descendant(rows, user, c, c) && Descendant(rows, user, c, s)
    ensures c == s
  {
    var l: nat :| l > 0 && Up(rows, user, c, l) == Some(c);
    var m: nat :| m > 0 && Up(rows, user, c, m) == Some(s);
    assert Up(rows, user, c, l) == Up(rows, user, id, l - 1);
    assert Up(rows, user, s, 1) == Up(rows, user, id, 0);
    UpAdd(rows, user, c, m, 1);
    UpAdd(rows, user, c, m + 1, l - 1);
    UpAdd(rows, user, c, l, m);
  }

  lemma OffCycle(rows: seq<Folder>, user: string, c: Folder, s: Folder, id: string, y: string)
    requires UniqueIds(rows) && OnCycle(rows, user, c, id)
    requires s in rows && s.userId == user && s.parentId == Some(id) && s != c
    requires AtOrBelow(rows, user, y, s.id)
    ensures y != c.id && !Descendant(rows, user, c.id, y)
  {
    var n: nat :| n > 0 && Up(rows, user, c.id, n) == Some(c.id);
    SameIdSameRow(rows, c, Find(rows, user, c.id).value);
    assert Parent(rows, user, c.id) == Some(id);
    ChildIsDescendant(rows, user, s, id);
    if s.id == c.id { SameIdSameRow(rows, s, c); }
    if y == c.id || Descendant(rows, user, c.id, y) {
      if y != c.id && y != s.id { DescendantTrans(rows, user, c.id, y, s.id); }
      SameCycleChild(rows, user, c.id, s.id, id);
    }
  }

  /** Deleting another child, and what is below it, leaves the cycle. */
  lemma CycleSurvives(
      before: seq<Folder>, user: string, gone: set<string>, gone': set<string>, c: Folder, s: Folder, id: string)
    requires UniqueIds(before) && gone <= gone' && OnCycle(Without(before, gone), user, c, id)
    requires s in before && s.userId == user && s.parentId == Some(id) && s != c
    requires OnlyAtOrBelow(before, user, gone, gone', s.id)
    ensures OnCycle(Without(before, gone'), user, c, id)
  {
    var now := Without(before, gone);
    WithoutUnique(before, gone);
    WithoutMembers(before, gone);
    WithoutTwice(before, gone, gone');
    assert gone + gone' == gone';
    var n: nat :| n > 0 && Up(now, user, c.id, n) == Some(c.id);
    forall k: nat | k <= n && Up(now, user, c.id, k).Some? ensures Up(now, user, c.id, k).value !in gone' {
      var y := Up(now, user, c.id, k).value;
      OwnedOnWalk(now, user, c, k, n);
      if y in gone' {
        StoredAtOrBelow(now, user, s, y);
        OffCycle(now, user, c, s, id, y);
      }
    }
    WalkStays(now, gone', user, c.id, n);
    assert Up(now, user, c.id, 0) == Some(c.id);
    WithoutMembers(before, gone');
  }

  lemma OwnedOnWalk(rows: seq<Folder>, user: string, c: Folder, k: nat, n: nat)
    requires c in rows && c.userId == user && k <= n && Up(rows, user, c.id, n).Some?
    ensures Up(rows, user, c.id, k).Some? && Owned(rows, user, Up(rows, user, c.id, k).value)
    ensures k > 0 ==> Descendant(rows, user, c.id, Up(rows, user, c.id, k).value)
  {
    UpPrefix(rows, user, c.id, n, k);
    if k > 0 {
      UpPrefix(rows, user, c.id, n, k - 1);
      UpAdd(rows, user, c.id, k - 1, 1);
      var y := Up(rows, user, c.id, k - 1).value;
      assert Up(rows, user, y, 1) == Up(rows, user, Parent(rows, user, y).value, 0);
    }
  }

  /** If something at or below `s` is still stored, so is `s`. */
  lemma StoredAtOrBelow(rows: seq<Folder>, user: string, s: Folder, y: string)
    requires Owned(rows, user, y) && AtOrBelow(rows, user, y, s.id)
    ensures Owned(rows, user, s.id)
  {
    if y != s.id { var c := DescendantVia(rows, user, y, s.id); }
  }

  lemma CycleThroughChild(rows: seq<Folder>, user: string, x: string)
    requires UniqueIds(rows) && Descendant(rows, user, x, x)
    ensures exists c :: c in Children(rows, user, x) && Descendant(rows, user, c.id, c.id)
  {
    var c := DescendantVia(rows, user, x, x);
    ChildrenMembers(rows, user, x);
    ChildIsDescendant(rows, user, c, x);
    if c.id != x { DescendantTrans(rows, user, c.id, x, c.id); }
  }

  lemma PostOrderIds(rows: seq<Folder>, user: string, x: string)
    requires UniqueIds(rows) && Owned(rows, user, x) && Grounded(rows, user, x)
    ensures Ids(PostOrder(rows, user, x)) == Descendants(rows, user, x)
  {
    PostOrderExact(rows, user, x);
    forall y | y in Descendants(rows, user, x) ensures y in Ids(PostOrder(rows, user, x)) {
      var c := DescendantVia(rows, user, y, x);
      var f :| f in rows && f.id == y && f.userId == user;
      assert f in PostOrder(rows, user, x);
    }
  }

  lemma MovedUnique(rows: seq<Folder>, user: string, id: string, parent: Option<string>)
    ensures |Moved(rows, user, id, parent)| == |rows|
    ensures forall i :: 0 <= i < |rows| ==> Moved(rows, user, id, parent)[i].id == rows[i].id
  {
    if rows != [] { MovedUnique(rows[1..], user, id, parent); }
  }

  lemma MovedNothing(rows: seq<Folder>, user: string, id: string, parent: Option<string>)
    requires Find(rows, user, id) == None
    ensures Moved(rows, user, id, parent) == rows
  {
    if rows != [] { MovedNothing(rows[1..], user, id, parent); }
  }

  function IdList(s: seq<Folder>): (r: seq<string>)
    ensures |r| == |s|
  {
    seq(|s|, i requires 0 <= i < |s| => s[i].id)
  }

  class FolderTable {
    var rows: seq<Folder>
    ghost var commits: seq<seq<Folder>>  // the table after each commit

    /** Ids are the primary key. */
    ghost predicate Valid()
      reads this
    {
      UniqueIds(rows)
    }

    constructor ()
      ensures Valid() && rows == [] && commits == []
    {
      rows, commits := [], [];
    }

    /**
     The closure `get_children`. It completes exactly when there is no cycle at the
     folder and the depth suffices, and has then collected exactly the listing.
     */
    method CollectChildren(id: string, user: string, limit: nat, folders: seq<Folder>)
      returns (ok: bool, all: seq<Folder>)
      requires Valid()
      ensures ok ==> !Descendant(rows, user, id, id)
      ensures Collecting(rows, user, id, limit, |Children(rows, user, id)|, folders, ok, all)
      decreases limit
    {
      ok, all := limit > 0, folders;
      var children := Children(rows, user, id);
      var i := 0;
      while ok && i < |children|
        invariant 0 <= i <= |children| && (ok ==> limit > 0)
        invariant ok ==> forall j :: 0 <= j < i ==> !Descendant(rows, user, children[j].id, children[j].id)
        invariant Collecting(rows, user, id, limit, i, folders, ok, all)
        decreases |children| - i, ok
      {
        ghost var before := all;
        ok, all := CollectChildren(children[i].id, user, limit - 1, all);
        CollectingNext(rows, user, id, limit, i, folders, before, ok, all);
        if ok {
          all := all + [children[i]];
        }
        i := i + 1;
      }
      if Descendant(rows, user, id, id) { CycleThroughChild(rows, user, id); }
    }

    /** `get_children_folders_by_id_and_user_id`. */
    method GetChildrenFolders(id: string, user: string, limit: nat) returns (r: Option<seq<Folder>>)
      requires Valid()
      ensures r.Some? <==> Reaches(rows, user, id, limit)
      ensures r.Some? ==> r.value == PostOrder(rows, user, id)
    {
      OwnedIff(rows, user, id);
      if Find(rows, user, id) == None {
        return None;
      }
      var ok, folders := CollectChildren(id, user, limit, []);
      r := if ok then Some(folders) else None;
    }

    /** `update_folder_parent_id_by_id_and_user_id`; the caller does not check the new parent. */
    method UpdateParent(id: string, user: string, parent: Option<string>) returns (r: Option<Folder>)
      requires Valid()
      modifies this
      ensures Valid()
      ensures rows == Moved(old(rows), user, id, parent)
      ensures |rows| == |old(rows)|
      ensures forall i :: 0 <= i < |rows| ==> var f := old(rows)[i];
        rows[i] == if f.id == id && f.userId == user then f.(parentId := parent) else f
      ensures r.Some? <==> old(Owned(rows, user, id))
      ensures r.Some? ==> r == Find(rows, user, id) && r.value.parentId == parent
      ensures commits == old(commits) + if r.Some? then [rows] else []
    {
      OwnedIff(rows, user, id);
      MovedFind(rows, user, id, parent, id);
      MovedUnique(rows, user, id, parent);
      MovedRows(rows, user, id, parent);
      if Find(rows, user, id) == None {
        MovedNothing(rows, user, id, parent);
        return None;
      }
      rows := Moved(rows, user, id, parent);
      commits := commits + [rows];
      r := Find(rows, user, id);
    }

    /** The table is `before` without `gone`, closed below, and every commit so far was safe. */
    ghost predicate Consistent(before: seq<Folder>, user: string, gone: set<string>, history: seq<seq<Folder>>)
      reads this
    {
      && UniqueIds(before)
      && rows == Without(before, gone)
      && ClosedBelow(before, user, gone) && OwnRows(before, user, gone)
      && SafeCommits(before, user, commits, history)
      && OneAtATime(before, rows, commits, history)
    }

    static ghost predicate ChildrenGone(before: seq<Folder>, user: string, gone: set<string>, id: string) {
      forall f :: f in before && f.userId == user && f.parentId == Some(id) ==> f.id in gone
    }

    /** One `db.delete` and its commit, once the row's children are gone. */
    method DeleteRow(
        id: string, ghost user: string, ghost before: seq<Folder>, ghost gone: set<string>,
        ghost history: seq<seq<Folder>>)
      requires Consistent(before, user, gone, history) && ChildrenGone(before, user, gone, id)
      requires Owned(before, user, id) && Stored(rows, id)
      modifies this
      ensures Consistent(before, user, gone + {id}, history)
    {
      OneMoreCommit(before, rows, commits, history, id);
      WithoutTwice(before, gone, {id});
      CommitSafe(before, user, gone + {id});
      rows := Without(rows, {id});
      commits := commits + [rows];
    }

    /** The body of the loop in `delete_children`: everything below the child, then the child. */
    method DeleteChild(child: Folder, user: string, limit: nat, ids: seq<string>,
                       ghost before: seq<Folder>, ghost gone: set<string>, ghost history: seq<seq<Folder>>)
      returns (ok: bool, all: seq<string>, ghost gone': set<string>)
      requires limit > 0 && Consistent(before, user, gone, history) && child in before && child.userId == user
      modifies this
      ensures Consistent(before, user, gone', history) && gone <= gone'
      ensures ok ==> child.id in gone'
      ensures OnlyAtOrBelow(before, user, gone, gone', child.id)
      ensures Descendant(Without(before, gone), user, child.id, child.id) ==> !ok
      ensures ChildDeleted(before, user, gone, child, limit, ids, ok, all, gone')
      decreases limit, 0
    {
      ok, all, gone' := DeleteChildren(child.id, user, limit - 1, ids, before, gone, history);
      if ok {
        all := all + [child.id];
        if Untouched(before, user, gone, child.id) && child.id !in gone { StillStored(before, user, gone, child.id); }
        if !Stored(rows, child.id) {
          return false, all, gone';  // nothing to delete: SQLAlchemy raises
        }
        DeleteRow(child.id, user, before, gone', history);
        gone' := gone' + {child.id};
      }
    }

    /**
     The closure `delete_children`. Each child goes after everything below it, with
     a commit per row, so every commit is free of orphans: on any table, whether or
     not the recursion completes. It never completes on a cycle; where there is
     none, it completes exactly when the depth suffices, and has then deleted
     exactly the listing.
     */
    method DeleteChildren(id: string, user: string, limit: nat, ids: seq<string>,
                          ghost before: seq<Folder>, ghost gone: set<string>, ghost history: seq<seq<Folder>>)
      returns (ok: bool, all: seq<string>, ghost gone': set<string>)
      requires Consistent(before, user, gone, history) && Owned(before, user, id)
      modifies this
      ensures Consistent(before, user, gone', history) && gone <= gone'
      ensures ok ==> ChildrenGone(before, user, gone', id)
      ensures OnlyBelow(before, user, gone, gone', id)
      ensures Descendant(Without(before, gone), user, id, id) ==> !ok
      ensures Deleting(before, user, gone, id, limit, |Children(before, user, id)|, ids, ok, all, gone')
      decreases limit, 1
    {
      ok, all, gone' := limit > 0, ids, gone;
      var children := Children(rows, user, id);
      assert children == Children(Without(before, gone), user, id);
      ghost var c := StartOfLoop(before, user, gone, id, limit, ids);
      var i := 0;
      while ok && i < |children|
        invariant i <= |children| && (ok ==> limit > 0)
        invariant Consistent(before, user, gone', history)
        invariant Midway(before, user, gone, id, limit, c, children, i, ids, ok, all, gone')
        decreases |children| - i, ok
      {
        ghost var all1, gone1 := all, gone';
        InLoop(before, user, gone, id, children, i);
        ok, all, gone' := DeleteChild(children[i], user, limit, all, before, gone', history);
        MidwayNext(before, user, gone, id, limit, c, children, i, ids, all1, gone1, ok, all, gone');
        i := i + 1;
      }
      MidwayEnds(before, user, gone, id, limit, c, children, i, ids, ok, all, gone');
    }

    static lemma MidwayEnds(
        before: seq<Folder>, user: string, gone: set<string>, id: string, limit: nat, c: Folder, children: seq<Folder>,
        i: nat, ids: seq<string>, ok: bool, all: seq<string>, gone': set<string>)
      requires UniqueIds(before) && children == Children(Without(before, gone), user, id)
      requires Midway(before, user, gone, id, limit, c, children, i, ids, ok, all, gone') && (ok ==> i == |children|)
      ensures ok ==> ChildrenGone(before, user, gone', id)
      ensures OnlyBelow(before, user, gone, gone', id) && gone <= gone'
      ensures Descendant(Without(before, gone), user, id, id) ==> !ok
      ensures Deleting(before, user, gone, id, limit, |Children(before, user, id)|, ids, ok, all, gone')
    {
      if Untouched(before, user, gone, id) { UntouchedChildren(before, user, gone, id); }
      assert ok ==> children[i..] == [];
    }

    /** What holds of a deletion after `i` of the `children`; `c` is the one on the cycle, if there is one. */
    static ghost predicate Midway(
        before: seq<Folder>, user: string, gone: set<string>, id: string, limit: nat, c: Folder, children: seq<Folder>,
        i: nat, ids: seq<string>, ok: bool, all: seq<string>, gone': set<string>)
      requires UniqueIds(before)
    {
      && i <= |children| && gone <= gone'
      && (ok ==> Left(before, user, gone', id, children[i..]))
      && OnlyBelow(before, user, gone, gone', id)
      && (Descendant(Without(before, gone), user, id, id) && ok ==>
            OnCycle(Without(before, gone'), user, c, id) && c in children[i..])
      && Deleting(before, user, gone, id, limit, i, ids, ok, all, gone')
    }

    static lemma MidwayNext(
        before: seq<Folder>, user: string, gone: set<string>, id: string, limit: nat, c: Folder, children: seq<Folder>,
        i: nat, ids: seq<string>, all1: seq<string>, gone1: set<string>, ok: bool, all: seq<string>, gone': set<string>)
      requires UniqueIds(before) && limit > 0 && Owned(before, user, id)
      requires i < |children| && children == Children(Without(before, gone), user, id)
      requires children[i] in before && children[i].userId == user && children[i].parentId == Some(id)
      requires children[i] in children && Owned(Without(before, gone), user, id)
      requires Midway(before, user, gone, id, limit, c, children, i, ids, true, all1, gone1)
      requires gone1 <= gone' && (ok ==> children[i].id in gone')
      requires OnlyAtOrBelow(before, user, gone1, gone', children[i].id)
      requires Descendant(Without(before, gone1), user, children[i].id, children[i].id) ==> !ok
      requires ChildDeleted(before, user, gone1, children[i], limit, all1, ok, all, gone')
      ensures Midway(before, user, gone, id, limit, c, children, i + 1, ids, ok, all, gone')
    {
      OnlyBelowNext(before, user, gone, gone1, gone', id, children[i]);
      if Untouched(before, user, gone, id) { UntouchedChildren(before, user, gone, id); }
      DeletingNext(before, user, gone, id, limit, i, ids, all1, gone1, ok, all, gone');
      if ok {
        LeftNext(before, user, gone1, gone', id, children[i..]);
        assert children[i..] == [children[i]] + children[i + 1..];
        if Descendant(Without(before, gone), user, id, id) {
          CycleSurvives(before, user, gone1, gone', c, children[i], id);
        }
      }
    }

    /** The child about to be deleted. */
    static lemma InLoop(before: seq<Folder>, user: string, gone: set<string>, id: string, children: seq<Folder>, i: nat)
      requires UniqueIds(before) && ClosedBelow(before, user, gone) && Owned(before, user, id)
      requires children == Children(Without(before, gone), user, id) && i < |children|
      ensures children[i] in before && children[i].userId == user && children[i].parentId == Some(id)
      ensures children[i] in Children(Without(before, gone), user, id)
      ensures Owned(Without(before, gone), user, id)
    {
      ChildrenMembers(Without(before, gone), user, id);
      WithoutMembers(before, gone);
      assert children[i] in children;
      assert children[i].id !in gone && id !in gone;
      var f :| f in before && f.id == id && f.userId == user;
      assert f in Without(before, gone);
    }

    /** What the current table says about the children of `id`. */
    static lemma StartOfLoop(
        before: seq<Folder>, user: string, gone: set<string>, id: string, limit: nat, ids: seq<string>)
      returns (c: Folder)
      requires UniqueIds(before) && Owned(before, user, id)
      ensures Midway(before, user, gone, id, limit, c, Children(Without(before, gone), user, id), 0, ids,
                     limit > 0, ids, gone)
    {
      var now := Without(before, gone);
      var children := Children(now, user, id);
      ChildrenMembers(now, user, id);
      WithoutMembers(before, gone);
      WithoutUnique(before, gone);
      assert children[0..] == children;
      if Untouched(before, user, gone, id) { UntouchedChildren(before, user, gone, id); }
      if Descendant(now, user, id, id) {
        CycleThroughChild(now, user, id);
        c :| c in children && Descendant(now, user, c.id, c.id);
      } else {
        c :| c in before;
      }
    }

    /**
     `delete_folder_by_id_and_user_id`. It reports success exactly when the folder
     exists, lies on no cycle and is not too deep; then exactly it and its
     descendants are gone. No commit leaves an orphan in any case.
     */
    method Delete(id: string, user: string, limit: nat) returns (ids: seq<string>)
      requires Valid()
      modifies this
      ensures Valid()
      ensures !old(Owned(rows, user, id)) ==> rows == old(rows)
      ensures old(commits) <= commits
      ensures forall i :: |old(commits)| <= i < |commits| ==>
        && SafeCommit(old(rows), user, commits[i])
        && forall f :: f in commits[i] && f.userId == user && f.parentId.Some? && f.parentId.value in Ids(old(rows)) ==>
             f.parentId.value in Ids(commits[i])
      ensures OneAtATime(old(rows), rows, commits, old(commits))
      ensures ids != [] <==> old(Reaches(rows, user, id, limit))
      ensures ids != [] ==>
        && ids == [id] + IdList(PostOrder(old(rows), user, id))
        && rows == Without(old(rows), {id} + Descendants(old(rows), user, id))
    {
      OwnedIff(rows, user, id);
      WithoutNothing(rows);
      if Find(rows, user, id) == None {
        return [];
      }
      ghost var before := rows;
      var ok, all, gone := DeleteChildren(id, user, limit, [id], before, {}, commits);
      WithoutUnique(before, gone);
      if Grounded(before, user, id) {
        assert Untouched(before, user, {}, id);
        StillStored(before, user, {}, id);
      }
      if !ok || !Stored(rows, id) {
        return [];
      }
      DeleteRow(id, user, before, gone, old(commits));
      WithoutUnique(before, gone + {id});
      PostOrderIds(before, user, id);
      assert gone + {id} == {id} + Descendants(before, user, id);
      return all;
    }
  }
}
