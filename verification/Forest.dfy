/**
 Folders as rows with parent pointers. A user's folders form a forest when no
 folder is its own descendant. Reachability follows parent pointers upwards.
 */
module Forest {
  import opened Wrappers

  datatype Folder = Folder(id: string, parentId: Option<string>, userId: string, name: string)

  ghost predicate UniqueIds(rows: seq<Folder>) {
    forall i, j :: 0 <= i < j < |rows| ==> rows[i].id != rows[j].id
  }

  /** `filter_by(parent_id=id, user_id=user).all()` in table order. */
  function Children(rows: seq<Folder>, user: string, id: string): seq<Folder> {
    if rows == [] then []
    else if rows[0].parentId == Some(id) && rows[0].userId == user then [rows[0]] + Children(rows[1..], user, id)
    else Children(rows[1..], user, id)
  }

  /** `filter_by(id=id, user_id=user).first()`. */
  function Find(rows: seq<Folder>, user: string, id: string): (r: Option<Folder>)
    ensures r.Some? ==> r.value in rows && r.value.id == id && r.value.userId == user
    ensures r.None? ==> forall f :: f in rows ==> !(f.id == id && f.userId == user)
  {
    if rows == [] then None
    else if rows[0].id == id && rows[0].userId == user then Some(rows[0])
    else Find(rows[1..], user, id)
  }

  function Without(rows: seq<Folder>, gone: set<string>): seq<Folder> {
    if rows == [] then []
    else if rows[0].id in gone then Without(rows[1..], gone)
    else [rows[0]] + Without(rows[1..], gone)
  }

  ghost predicate Owned(rows: seq<Folder>, user: string, id: string) {
    exists f :: f in rows && f.id == id && f.userId == user
  }

  /** The stored parent of `id`, when both belong to the user. */
  ghost function Parent(rows: seq<Folder>, user: string, id: string): Option<string> {
    var f := Find(rows, user, id);
    if f.Some? && f.value.parentId.Some? && Owned(rows, user, f.value.parentId.value)
    then f.value.parentId else None
  }

  /** The `n`-th ancestor. */
  ghost function Up(rows: seq<Folder>, user: string, id: string, n: nat): Option<string>
    decreases n
  {
    if n == 0 then Some(id)
    else
      var p := Parent(rows, user, id);
      if p.None? then None else Up(rows, user, p.value, n - 1)
  }

  ghost predicate Descendant(rows: seq<Folder>, user: string, y: string, x: string) {
    exists n: nat :: n > 0 && Up(rows, user, y, n) == Some(x)
  }

  ghost predicate AtOrBelow(rows: seq<Folder>, user: string, y: string, x: string) {
    y == x || Descendant(rows, user, y, x)
  }

  /** Is `y` one of the first `n` folders of `kids`, or below one? */
  ghost predicate AtOrBelowAny(rows: seq<Folder>, user: string, y: string, kids: seq<Folder>, n: nat)
    requires n <= |kids|
  {
    exists i :: 0 <= i < n && AtOrBelow(rows, user, y, kids[i].id)
  }

  /** `x` lies on no cycle. Then no cycle lies below it either, as `GroundedChild` shows. */
  ghost predicate Grounded(rows: seq<Folder>, user: string, x: string) {
    !Descendant(rows, user, x, x)
  }

  ghost predicate IsForest(rows: seq<Folder>, user: string) {
    forall y :: !Descendant(rows, user, y, y)
  }

  ghost function Ids(s: seq<Folder>): set<string> {
    set f | f in s :: f.id
  }

  ghost function Descendants(rows: seq<Folder>, user: string, x: string): set<string> {
    set y | y in Ids(rows) && Descendant(rows, user, y, x)
  }

  // ---------- rows ----------

  lemma ChildrenMembers(rows: seq<Folder>, user: string, id: string)
    ensures forall f :: f in Children(rows, user, id) <==> f in rows && f.parentId == Some(id) && f.userId == user
  {
    if rows != [] { ChildrenMembers(rows[1..], user, id); }
  }

  lemma ChildrenUnique(rows: seq<Folder>, user: string, id: string)
    requires UniqueIds(rows)
    ensures UniqueIds(Children(rows, user, id))
  {
    if rows != [] {
      ChildrenUnique(rows[1..], user, id);
      ChildrenMembers(rows[1..], user, id);
      HeadIdNew(rows);
    }
  }

  lemma HeadIdNew(rows: seq<Folder>)
    requires rows != [] && UniqueIds(rows)
    ensures UniqueIds(rows[1..])
    ensures forall f :: f in rows[1..] ==> f.id != rows[0].id
  {
    forall f | f in rows[1..] ensures f.id != rows[0].id {
      var i :| 0 <= i < |rows[1..]| && rows[1..][i] == f;
      assert rows[i + 1] == f;
    }
  }

  lemma SameIdSameRow(rows: seq<Folder>, a: Folder, b: Folder)
    requires UniqueIds(rows) && a in rows && b in rows && a.id == b.id
    ensures a == b
  {
    var i :| 0 <= i < |rows| && rows[i] == a;
    var j :| 0 <= j < |rows| && rows[j] == b;
    assert i == j;
  }

  lemma WithoutMembers(rows: seq<Folder>, gone: set<string>)
    ensures forall f :: f in Without(rows, gone) <==> f in rows && f.id !in gone
  {
    if rows != [] { WithoutMembers(rows[1..], gone); }
  }

  lemma WithoutTwice(rows: seq<Folder>, a: set<string>, b: set<string>)
    ensures Without(Without(rows, a), b) == Without(rows, a + b)
  {
    if rows != [] { WithoutTwice(rows[1..], a, b); }
  }

  lemma WithoutNothing(rows: seq<Folder>)
    ensures Without(rows, {}) == rows
  {
    if rows != [] { WithoutNothing(rows[1..]); }
  }

  lemma WithoutUnique(rows: seq<Folder>, gone: set<string>)
    requires UniqueIds(rows)
    ensures UniqueIds(Without(rows, gone))
  {
    if rows != [] {
      HeadIdNew(rows);
      WithoutUnique(rows[1..], gone);
      WithoutMembers(rows[1..], gone);
    }
  }

  /** As long as none of them is gone, a folder's children read the same from what is left. */
  lemma ChildrenOfRest(rows: seq<Folder>, gone: set<string>, user: string, id: string)
    requires forall f :: f in rows && f.parentId == Some(id) && f.userId == user ==> f.id !in gone
    ensures Children(Without(rows, gone), user, id) == Children(rows, user, id)
  {
    if rows != [] { ChildrenOfRest(rows[1..], gone, user, id); }
  }

  // ---------- ancestors ----------

  lemma UpAdd(rows: seq<Folder>, user: string, y: string, a: nat, b: nat)
    requires Up(rows, user, y, a).Some?
    ensures Up(rows, user, y, a + b) == Up(rows, user, Up(rows, user, y, a).value, b)
    decreases a
  {
    if a > 0 { UpAdd(rows, user, Parent(rows, user, y).value, a - 1, b); }
  }

  lemma UpPrefix(rows: seq<Folder>, user: string, y: string, n: nat, m: nat)
    requires Up(rows, user, y, n).Some? && m <= n
    ensures Up(rows, user, y, m).Some?
    decreases m
  {
    if m > 0 { UpPrefix(rows, user, Parent(rows, user, y).value, n - 1, m - 1); }
  }

  lemma DescendantTrans(rows: seq<Folder>, user: string, z: string, y: string, x: string)
    requires Descendant(rows, user, z, y)
    requires y == x || Descendant(rows, user, y, x)
    ensures Descendant(rows, user, z, x)
  {
    if y != x {
      var a: nat :| a > 0 && Up(rows, user, z, a) == Some(y);
      var b: nat :| b > 0 && Up(rows, user, y, b) == Some(x);
      UpAdd(rows, user, z, a, b);
    }
  }

  /** A folder is a child of `x` exactly when `x` is its first ancestor. */
  lemma ChildIsDescendant(rows: seq<Folder>, user: string, f: Folder, x: string)
    requires UniqueIds(rows) && Owned(rows, user, x)
    requires f in rows && f.parentId == Some(x) && f.userId == user
    ensures Parent(rows, user, f.id) == Some(x)
    ensures Descendant(rows, user, f.id, x)
    ensures Owned(rows, user, f.id)
  {
    SameIdSameRow(rows, f, Find(rows, user, f.id).value);
    assert Up(rows, user, f.id, 1) == Up(rows, user, x, 0);
  }

  /** A descendant is a child, or lies below one. */
  lemma DescendantVia(rows: seq<Folder>, user: string, y: string, x: string) returns (c: Folder)
    requires Descendant(rows, user, y, x)
    ensures c in Children(rows, user, x) && (c.id == y || Descendant(rows, user, y, c.id))
    ensures Owned(rows, user, x) && Owned(rows, user, y)
  {
    var n: nat :| n > 0 && Up(rows, user, y, n) == Some(x);
    UpPrefix(rows, user, y, n, n - 1);
    var mid := Up(rows, user, y, n - 1).value;
    UpAdd(rows, user, y, n - 1, 1);
    assert Up(rows, user, mid, 1) == Some(x);
    assert Parent(rows, user, mid).Some? && Up(rows, user, Parent(rows, user, mid).value, 0) == Some(x);
    c := Find(rows, user, mid).value;
    ChildrenMembers(rows, user, x);
    assert n - 1 > 0 ==> Descendant(rows, user, y, mid);
    assert Parent(rows, user, y).Some?;
  }

  /** Two ancestors of one folder are related. */
  lemma AncestorsRelated(rows: seq<Folder>, user: string, y: string, a: string, b: string)
    requires y == a || Descendant(rows, user, y, a)
    requires y == b || Descendant(rows, user, y, b)
    ensures a == b || Descendant(rows, user, a, b) || Descendant(rows, user, b, a)
  {
    if y != a && y != b {
      var m: nat :| m > 0 && Up(rows, user, y, m) == Some(a);
      var n: nat :| n > 0 && Up(rows, user, y, n) == Some(b);
      if m <= n {
        UpAdd(rows, user, y, m, n - m);
      } else {
        UpAdd(rows, user, y, n, m - n);
      }
    }
  }

  /** In a forest no folder lies below two siblings. */
  lemma SiblingsApart(rows: seq<Folder>, user: string, x: string, a: Folder, b: Folder, y: string)
    requires UniqueIds(rows) && Owned(rows, user, x) && Grounded(rows, user, x)
    requires a in Children(rows, user, x) && b in Children(rows, user, x) && a.id != b.id
    requires y == a.id || Descendant(rows, user, y, a.id)
    ensures y != b.id && !Descendant(rows, user, y, b.id)
  {
    ChildrenMembers(rows, user, x);
    ChildIsDescendant(rows, user, a, x);
    ChildIsDescendant(rows, user, b, x);
    if y == b.id || Descendant(rows, user, y, b.id) {
      AncestorsRelated(rows, user, y, a.id, b.id);
      if Descendant(rows, user, a.id, b.id) {
        BelowSibling(rows, user, a.id, b.id, x);
      } else {
        BelowSibling(rows, user, b.id, a.id, x);
      }
    }
  }

  lemma BelowSibling(rows: seq<Folder>, user: string, a: string, b: string, x: string)
    requires Parent(rows, user, a) == Some(x) && Parent(rows, user, b) == Some(x)
    requires Descendant(rows, user, a, b)
    ensures Descendant(rows, user, x, x)
  {
    var n: nat :| n > 0 && Up(rows, user, a, n) == Some(b);
    UpAdd(rows, user, a, n, 1);
    assert Up(rows, user, b, 1) == Up(rows, user, x, 0);
    assert Up(rows, user, a, n + 1) == Up(rows, user, x, n);
  }

  // ---------- termination ----------

  lemma CycleUp(rows: seq<Folder>, user: string, c: string, x: string)
    requires Parent(rows, user, c) == Some(x) && Descendant(rows, user, c, c)
    ensures Descendant(rows, user, x, x)
  {
    var n: nat :| n > 0 && Up(rows, user, c, n) == Some(c);
    UpAdd(rows, user, c, n, 1);
    assert Up(rows, user, c, 1) == Up(rows, user, x, 0);
    assert Up(rows, user, c, n + 1) == Up(rows, user, x, n);
  }

  lemma {:induction false} GroundedChild(rows: seq<Folder>, user: string, c: Folder, x: string)
    requires UniqueIds(rows) && Owned(rows, user, x) && Grounded(rows, user, x)
    requires c in Children(rows, user, x)
    ensures Grounded(rows, user, c.id)
  {
    ChildrenMembers(rows, user, x);
    ChildIsDescendant(rows, user, c, x);
    if Descendant(rows, user, c.id, c.id) { CycleUp(rows, user, c.id, x); }
  }

  /** The termination measure: every child of `x` has fewer descendants. */
  lemma FewerBelow(rows: seq<Folder>, user: string, c: Folder, x: string)
    requires UniqueIds(rows) && Owned(rows, user, x) && Grounded(rows, user, x)
    requires c in Children(rows, user, x)
    ensures Owned(rows, user, c.id) && Grounded(rows, user, c.id)
    ensures |Descendants(rows, user, c.id)| < |Descendants(rows, user, x)|
  {
    GroundedChild(rows, user, c, x);
    ChildrenMembers(rows, user, x);
    ChildIsDescendant(rows, user, c, x);
    var small, big := Descendants(rows, user, c.id), Descendants(rows, user, x);
    forall y | y in small ensures y in big { DescendantTrans(rows, user, y, c.id, x); }
    assert c.id in big && c.id !in small;
    SubsetSize(small, big);
  }

  // ---------- the listing ----------

  /** The subtrees of the first `n` children of `x`, each child after its own subtree. */
  ghost function Listing(rows: seq<Folder>, user: string, x: string, n: nat): seq<Folder>
    requires UniqueIds(rows) && Owned(rows, user, x) && Grounded(rows, user, x)
    requires n <= |Children(rows, user, x)|
    decreases |Descendants(rows, user, x)|, n
  {
    if n == 0 then []
    else
      var c := Children(rows, user, x)[n - 1];
      FewerBelow(rows, user, c, x);
      Listing(rows, user, x, n - 1) + Listing(rows, user, c.id, |Children(rows, user, c.id)|) + [c]
  }

  ghost function PostOrder(rows: seq<Folder>, user: string, x: string): seq<Folder>
    requires UniqueIds(rows) && Owned(rows, user, x) && Grounded(rows, user, x)
  {
    Listing(rows, user, x, |Children(rows, user, x)|)
  }

  /** `f` is one of the first `n` children of `x`, or below one. */
  ghost predicate Covered(rows: seq<Folder>, user: string, x: string, n: nat, f: Folder)
    requires n <= |Children(rows, user, x)|
  {
    f in rows && f.userId == user && AtOrBelowAny(rows, user, f.id, Children(rows, user, x), n)
  }

  lemma CoveredStep(rows: seq<Folder>, user: string, x: string, n: nat, f: Folder)
    requires UniqueIds(rows) && Owned(rows, user, x) && 0 < n <= |Children(rows, user, x)|
    ensures var c := Children(rows, user, x)[n - 1];
      Covered(rows, user, x, n, f) <==>
        Covered(rows, user, x, n - 1, f) || Covered(rows, user, c.id, |Children(rows, user, c.id)|, f) || f == c
  {
    var c := Children(rows, user, x)[n - 1];
    ChildrenMembers(rows, user, x);
    assert c in Children(rows, user, x);
    AtOrBelowStep(rows, user, f.id, Children(rows, user, x), n);
    AtOrBelowChild(rows, user, c, f);
  }

  /** The listing covers exactly the first `n` children and everything below them. */
  lemma {:induction false} ListingMembers(rows: seq<Folder>, user: string, x: string, n: nat, f: Folder)
    requires UniqueIds(rows) && Owned(rows, user, x) && Grounded(rows, user, x)
    requires n <= |Children(rows, user, x)|
    ensures f in Listing(rows, user, x, n) <==> Covered(rows, user, x, n, f)
    decreases |Descendants(rows, user, x)|, n
  {
    if n > 0 {
      var c := Children(rows, user, x)[n - 1];
      FewerBelow(rows, user, c, x);
      ListingMembers(rows, user, x, n - 1, f);
      ListingMembers(rows, user, c.id, |Children(rows, user, c.id)|, f);
      InPieces(Listing(rows, user, x, n - 1), PostOrder(rows, user, c.id), c, f);
      CoveredStep(rows, user, x, n, f);
    }
  }

  /** A row is at or below a folder when it is that folder, or listed below it. */
  lemma AtOrBelowChild(rows: seq<Folder>, user: string, c: Folder, f: Folder)
    requires UniqueIds(rows) && c in rows && c.userId == user
    ensures f in rows && f.userId == user ==>
      (AtOrBelow(rows, user, f.id, c.id) <==>
         f == c || AtOrBelowAny(rows, user, f.id, Children(rows, user, c.id), |Children(rows, user, c.id)|))
  {
    if f in rows && f.userId == user {
      if f.id == c.id { SameIdSameRow(rows, f, c); }
      BelowMeansListed(rows, user, c.id, f.id);
    }
  }

  lemma InPieces(a: seq<Folder>, b: seq<Folder>, c: Folder, f: Folder)
    ensures f in a + b + [c] <==> f in a || f in b || f == c
  {
  }

  lemma AtOrBelowStep(rows: seq<Folder>, user: string, y: string, kids: seq<Folder>, n: nat)
    requires 0 < n <= |kids|
    ensures AtOrBelowAny(rows, user, y, kids, n) <==>
      AtOrBelowAny(rows, user, y, kids, n - 1) || AtOrBelow(rows, user, y, kids[n - 1].id)
  {
  }

  lemma BelowMeansListed(rows: seq<Folder>, user: string, x: string, y: string)
    requires UniqueIds(rows) && Owned(rows, user, x)
    ensures Descendant(rows, user, y, x) <==>
      AtOrBelowAny(rows, user, y, Children(rows, user, x), |Children(rows, user, x)|)
  {
    var kids := Children(rows, user, x);
    if Descendant(rows, user, y, x) {
      var c := DescendantVia(rows, user, y, x);
      var i :| 0 <= i < |kids| && kids[i] == c;
      assert AtOrBelow(rows, user, y, kids[i].id);
    }
    if AtOrBelowAny(rows, user, y, kids, |kids|) {
      var i :| 0 <= i < |kids| && AtOrBelow(rows, user, y, kids[i].id);
      ChildrenMembers(rows, user, x);
      assert kids[i] in kids;
      ChildIsDescendant(rows, user, kids[i], x);
      if y != kids[i].id { DescendantTrans(rows, user, y, kids[i].id, x); }
    }
  }

  lemma {:induction false} ListingDistinct(rows: seq<Folder>, user: string, x: string, n: nat)
    requires UniqueIds(rows) && Owned(rows, user, x) && Grounded(rows, user, x)
    requires n <= |Children(rows, user, x)|
    ensures UniqueIds(Listing(rows, user, x, n))
    decreases |Descendants(rows, user, x)|, n
  {
    if n > 0 {
      var c := Children(rows, user, x)[n - 1];
      FewerBelow(rows, user, c, x);
      ListingDistinct(rows, user, x, n - 1);
      ListingDistinct(rows, user, c.id, |Children(rows, user, c.id)|);
      DistinctStep(rows, user, x, n, c, Listing(rows, user, x, n - 1), PostOrder(rows, user, c.id));
    }
  }

  lemma DistinctStep(
      rows: seq<Folder>, user: string, x: string, n: nat, c: Folder, front: seq<Folder>, below: seq<Folder>)
    requires UniqueIds(rows) && Owned(rows, user, x) && Grounded(rows, user, x)
    requires 0 < n <= |Children(rows, user, x)| && c == Children(rows, user, x)[n - 1]
    requires Owned(rows, user, c.id) && Grounded(rows, user, c.id)
    requires front == Listing(rows, user, x, n - 1) && below == PostOrder(rows, user, c.id)
    requires UniqueIds(front) && UniqueIds(below)
    ensures UniqueIds(front + below + [c])
  {
    forall g | g in below ensures g.id != c.id && AtOrBelow(rows, user, g.id, c.id) {
      ListedIsDescendant(rows, user, c.id, |Children(rows, user, c.id)|, g);
    }
    forall f | f in front ensures f.id != c.id && !AtOrBelow(rows, user, f.id, c.id) {
      EarlierApart(rows, user, x, n, f);
    }
    UniqueConcat(front, below);
    UniqueConcat(front + below, [c]);
  }

  lemma ListedIsDescendant(rows: seq<Folder>, user: string, x: string, n: nat, f: Folder)
    requires UniqueIds(rows) && Owned(rows, user, x) && Grounded(rows, user, x)
    requires n <= |Children(rows, user, x)| && f in Listing(rows, user, x, n)
    ensures f in rows && f.userId == user && Descendant(rows, user, f.id, x)
  {
    var kids := Children(rows, user, x);
    ListingMembers(rows, user, x, n, f);
    var i :| 0 <= i < n && AtOrBelow(rows, user, f.id, kids[i].id);
    assert AtOrBelowAny(rows, user, f.id, kids, |kids|);
    BelowMeansListed(rows, user, x, f.id);
  }

  lemma EarlierApart(rows: seq<Folder>, user: string, x: string, n: nat, f: Folder)
    requires UniqueIds(rows) && Owned(rows, user, x) && Grounded(rows, user, x)
    requires 0 < n <= |Children(rows, user, x)|
    requires f in Listing(rows, user, x, n - 1)
    ensures !AtOrBelow(rows, user, f.id, Children(rows, user, x)[n - 1].id)
  {
    var kids := Children(rows, user, x);
    ListingMembers(rows, user, x, n - 1, f);
    var i :| 0 <= i < n - 1 && AtOrBelow(rows, user, f.id, kids[i].id);
    ChildrenUnique(rows, user, x);
    assert kids[i] in kids && kids[n - 1] in kids;
    SiblingsApart(rows, user, x, kids[i], kids[n - 1], f.id);
  }

  lemma UniqueConcat(a: seq<Folder>, b: seq<Folder>)
    requires UniqueIds(a) && UniqueIds(b)
    requires forall f, g :: f in a && g in b ==> f.id != g.id
    ensures UniqueIds(a + b)
  {
    var s := a + b;
    forall i, j | 0 <= i < j < |s| ensures s[i].id != s[j].id {
      if i < |a| && |a| <= j { assert s[i] in a && s[j] in b; }
    }
  }

  /** Children are listed before their parents. */
  ghost predicate ChildrenFirst(s: seq<Folder>) {
    forall i, j :: 0 <= i < |s| && 0 <= j < |s| && s[i].parentId == Some(s[j].id) ==> i < j
  }

  lemma {:induction false} ListingChildrenFirst(rows: seq<Folder>, user: string, x: string, n: nat)
    requires UniqueIds(rows) && Owned(rows, user, x) && Grounded(rows, user, x)
    requires n <= |Children(rows, user, x)|
    ensures ChildrenFirst(Listing(rows, user, x, n))
    decreases |Descendants(rows, user, x)|, n
  {
    if n > 0 {
      var c := Children(rows, user, x)[n - 1];
      FewerBelow(rows, user, c, x);
      ListingChildrenFirst(rows, user, x, n - 1);
      ListingChildrenFirst(rows, user, c.id, |Children(rows, user, c.id)|);
      ChildrenFirstStep(rows, user, x, n, c, Listing(rows, user, x, n - 1), PostOrder(rows, user, c.id));
    }
  }

  lemma ChildrenFirstStep(
      rows: seq<Folder>, user: string, x: string, n: nat, c: Folder, front: seq<Folder>, below: seq<Folder>)
    requires UniqueIds(rows) && Owned(rows, user, x) && Grounded(rows, user, x)
    requires 0 < n <= |Children(rows, user, x)| && c == Children(rows, user, x)[n - 1]
    requires Owned(rows, user, c.id) && Grounded(rows, user, c.id)
    requires front == Listing(rows, user, x, n - 1) && below == PostOrder(rows, user, c.id)
    requires ChildrenFirst(front) && ChildrenFirst(below)
    ensures ChildrenFirst(front + below + [c])
  {
    ChildSubtree(rows, user, x, c);
    NoParentInFront(rows, user, x, n, front, below, c);
    ConcatChildrenFirst(front, below, c);
  }

  lemma ChildSubtree(rows: seq<Folder>, user: string, x: string, c: Folder)
    requires UniqueIds(rows) && Owned(rows, user, x) && Grounded(rows, user, x)
    requires c in Children(rows, user, x)
    ensures Owned(rows, user, c.id) && Grounded(rows, user, c.id) && c.parentId == Some(x) && c.id != x
    ensures forall g :: g in PostOrder(rows, user, c.id) ==>
      g in rows && g.userId == user && Descendant(rows, user, g.id, c.id) && g.id != x
  {
    ChildrenMembers(rows, user, x);
    ChildIsDescendant(rows, user, c, x);
    GroundedChild(rows, user, c, x);
    forall g | g in PostOrder(rows, user, c.id)
      ensures g in rows && g.userId == user && Descendant(rows, user, g.id, c.id) && g.id != x
    {
      ListedIsDescendant(rows, user, c.id, |Children(rows, user, c.id)|, g);
      DescendantTrans(rows, user, g.id, c.id, x);
    }
  }

  lemma ParentOfBelow(rows: seq<Folder>, user: string, g: string, p: string, c: string)
    requires Parent(rows, user, g) == Some(p) && Descendant(rows, user, g, c)
    ensures AtOrBelow(rows, user, p, c)
  {
    var m: nat :| m > 0 && Up(rows, user, g, m) == Some(c);
    assert Up(rows, user, p, m - 1) == Some(c);
  }

  lemma NotParentAcross(rows: seq<Folder>, user: string, x: string, n: nat, f: Folder, g: Folder)
    requires UniqueIds(rows) && Owned(rows, user, x) && Grounded(rows, user, x)
    requires 0 < n <= |Children(rows, user, x)|
    requires f in Listing(rows, user, x, n - 1)
    requires var c := Children(rows, user, x)[n - 1];
      g == c || (g in rows && g.userId == user && Descendant(rows, user, g.id, c.id))
    ensures g.parentId != Some(f.id)
  {
    var c := Children(rows, user, x)[n - 1];
    EarlierApart(rows, user, x, n, f);
    ListedIsDescendant(rows, user, x, n - 1, f);
    ChildrenMembers(rows, user, x);
    if g != c && g.parentId == Some(f.id) {
      assert Owned(rows, user, f.id);
      ChildIsDescendant(rows, user, g, f.id);
      ParentOfBelow(rows, user, g.id, f.id, c.id);
    }
  }

  lemma NoParentInFront(
      rows: seq<Folder>, user: string, x: string, n: nat, front: seq<Folder>, below: seq<Folder>, c: Folder)
    requires UniqueIds(rows) && Owned(rows, user, x) && Grounded(rows, user, x)
    requires 0 < n <= |Children(rows, user, x)| && c == Children(rows, user, x)[n - 1]
    requires front == Listing(rows, user, x, n - 1)
    requires forall g :: g in below ==> g in rows && g.userId == user && Descendant(rows, user, g.id, c.id)
    ensures forall f, g :: f in front && g in below + [c] ==> g.parentId != Some(f.id)
  {
    forall f, g | f in front && g in below + [c] ensures g.parentId != Some(f.id) {
      NotParentAcross(rows, user, x, n, f, g);
    }
  }

  lemma ConcatChildrenFirst(front: seq<Folder>, below: seq<Folder>, c: Folder)
    requires ChildrenFirst(front) && ChildrenFirst(below)
    requires forall f, g :: f in front && g in below + [c] ==> g.parentId != Some(f.id)
    requires forall g :: g in below ==> c.parentId != Some(g.id)
    requires c.parentId != Some(c.id)
    ensures ChildrenFirst(front + below + [c])
  {
    var s := front + below + [c];
    forall i | 0 <= i < |front| ensures s[i] in front {}
    forall i | |front| <= i < |s| ensures s[i] in below + [c] { assert s[i] == (below + [c])[i - |front|]; }
    forall i, j | 0 <= i < |s| && 0 <= j < |s| && s[i].parentId == Some(s[j].id) ensures i < j {
      if |front| <= j < |s| - 1 {
        assert s[j] == below[j - |front|];
        if |front| <= i < |s| - 1 { assert s[i] == below[i - |front|]; }
      }
    }
  }

  /** The longest way down among the first `n` children of `x`, and in all. */
  ghost function HeightUpTo(rows: seq<Folder>, user: string, x: string, n: nat): nat
    requires UniqueIds(rows) && Owned(rows, user, x) && Grounded(rows, user, x)
    requires n <= |Children(rows, user, x)|
    decreases |Descendants(rows, user, x)|, n
  {
    if n == 0 then 0
    else
      var c := Children(rows, user, x)[n - 1];
      FewerBelow(rows, user, c, x);
      var before, below := HeightUpTo(rows, user, x, n - 1), HeightUpTo(rows, user, c.id, |Children(rows, user, c.id)|);
      if before < 1 + below then 1 + below else before
  }

  ghost function Height(rows: seq<Folder>, user: string, x: string): nat
    requires UniqueIds(rows) && Owned(rows, user, x) && Grounded(rows, user, x)
  {
    HeightUpTo(rows, user, x, |Children(rows, user, x)|)
  }

  lemma HeightStep(rows: seq<Folder>, user: string, x: string, n: nat)
    requires UniqueIds(rows) && Owned(rows, user, x) && Grounded(rows, user, x)
    requires 0 < n <= |Children(rows, user, x)|
    ensures var c := Children(rows, user, x)[n - 1];
      && Owned(rows, user, c.id) && Grounded(rows, user, c.id)
      && HeightUpTo(rows, user, x, n) ==
           var before, below := HeightUpTo(rows, user, x, n - 1), Height(rows, user, c.id);
           if before < 1 + below then 1 + below else before
  {
    FewerBelow(rows, user, Children(rows, user, x)[n - 1], x);
  }

  lemma {:induction false} ChildLower(rows: seq<Folder>, user: string, x: string, c: Folder, n: nat)
    requires UniqueIds(rows) && Owned(rows, user, x) && Grounded(rows, user, x)
    requires n <= |Children(rows, user, x)| && c in Children(rows, user, x)[..n]
    requires Owned(rows, user, c.id) && Grounded(rows, user, c.id)
    ensures Height(rows, user, c.id) < HeightUpTo(rows, user, x, n)
    decreases n
  {
    HeightStep(rows, user, x, n);
    if c != Children(rows, user, x)[n - 1] { ChildLower(rows, user, x, c, n - 1); }
  }

  /**
   The listing of `get_children`: each proper descendant exactly once, children
   before parents.
   */
  lemma {:induction false} PostOrderExact(rows: seq<Folder>, user: string, x: string)
    requires UniqueIds(rows) && Owned(rows, user, x) && Grounded(rows, user, x)
    ensures UniqueIds(PostOrder(rows, user, x))
    ensures forall f :: f in PostOrder(rows, user, x) <==>
      f in rows && f.userId == user && Descendant(rows, user, f.id, x)
    ensures ChildrenFirst(PostOrder(rows, user, x))
  {
    var n := |Children(rows, user, x)|;
    ListingDistinct(rows, user, x, n);
    ListingChildrenFirst(rows, user, x, n);
    forall f ensures f in PostOrder(rows, user, x) <==>
      f in rows && f.userId == user && Descendant(rows, user, f.id, x)
    {
      ListingMembers(rows, user, x, n, f);
      BelowMeansListed(rows, user, x, f.id);
    }
  }

  // ---------- moving a folder ----------

  function Moved(rows: seq<Folder>, user: string, id: string, parent: Option<string>): seq<Folder> {
    if rows == [] then []
    else if rows[0].id == id && rows[0].userId == user then [rows[0].(parentId := parent)] + rows[1..]
    else [rows[0]] + Moved(rows[1..], user, id, parent)
  }

  /** Only the folder's own row gets the new parent. */
  lemma {:induction false} MovedRows(rows: seq<Folder>, user: string, id: string, parent: Option<string>)
    requires UniqueIds(rows)
    ensures |Moved(rows, user, id, parent)| == |rows|
    ensures forall i :: 0 <= i < |rows| ==>
      Moved(rows, user, id, parent)[i] ==
        if rows[i].id == id && rows[i].userId == user then rows[i].(parentId := parent) else rows[i]
  {
    if rows != [] {
      HeadIdNew(rows);
      MovedRows(rows[1..], user, id, parent);
      forall i | 1 <= i < |rows| ensures rows[i].id != rows[0].id { assert rows[i] == rows[1..][i - 1]; }
    }
  }

  lemma MovedFind(rows: seq<Folder>, user: string, id: string, parent: Option<string>, y: string)
    ensures Find(Moved(rows, user, id, parent), user, y) ==
      if y == id && Find(rows, user, y).Some? then Some(Find(rows, user, y).value.(parentId := parent))
      else Find(rows, user, y)
  {
    if rows != [] { MovedFind(rows[1..], user, id, parent, y); }
  }

  lemma OwnedIff(rows: seq<Folder>, user: string, y: string)
    ensures Owned(rows, user, y) <==> Find(rows, user, y).Some?
  {
  }

  lemma MovedParent(rows: seq<Folder>, user: string, id: string, parent: Option<string>, y: string)
    requires Owned(rows, user, id)
    ensures Parent(Moved(rows, user, id, parent), user, y) ==
      if y != id then Parent(rows, user, y)
      else if parent.Some? && Owned(rows, user, parent.value) then parent else None
  {
    var rows' := Moved(rows, user, id, parent);
    MovedFind(rows, user, id, parent, y);
    OwnedIff(rows, user, id);
    forall z ensures Owned(rows', user, z) <==> Owned(rows, user, z) {
      MovedFind(rows, user, id, parent, z);
      OwnedIff(rows, user, z);
      OwnedIff(rows', user, z);
    }
  }

  /** A walk that does not step from `id` is the same before and after the move. */
  lemma SameWalk(rows: seq<Folder>, user: string, id: string, parent: Option<string>, y: string, n: nat)
    requires Owned(rows, user, id)
    requires forall i: nat :: i < n ==> Up(rows, user, y, i) != Some(id)
    ensures Up(Moved(rows, user, id, parent), user, y, n) == Up(rows, user, y, n)
    decreases n
  {
    if n > 0 {
      assert Up(rows, user, y, 0) == Some(y);
      MovedParent(rows, user, id, parent, y);
      if Parent(rows, user, y).Some? {
        forall i: nat | i < n - 1 ensures Up(rows, user, Parent(rows, user, y).value, i) != Some(id) {
          assert Up(rows, user, y, i + 1) == Up(rows, user, Parent(rows, user, y).value, i);
        }
        SameWalk(rows, user, id, parent, Parent(rows, user, y).value, n - 1);
      }
    }
  }

  /** The first time a walk in the new table meets `id`, or its end. */
  lemma FirstVisit(rows: seq<Folder>, user: string, id: string, parent: Option<string>, y: string, n: nat)
    returns (m: nat)
    requires Owned(rows, user, id)
    ensures m <= n
    ensures Up(Moved(rows, user, id, parent), user, y, m) == Up(rows, user, y, m)
    ensures m < n ==> Up(rows, user, y, m) == Some(id)
  {
    if exists i: nat :: i < n && Up(rows, user, y, i) == Some(id) {
      m := LeastVisit(rows, user, id, y, n);
    } else {
      m := n;
    }
    SameWalk(rows, user, id, parent, y, m);
  }

  lemma LeastVisit(rows: seq<Folder>, user: string, id: string, y: string, n: nat) returns (m: nat)
    requires exists i: nat :: i < n && Up(rows, user, y, i) == Some(id)
    ensures m < n && Up(rows, user, y, m) == Some(id)
    ensures forall i: nat :: i < m ==> Up(rows, user, y, i) != Some(id)
  {
    if exists i: nat :: i < n - 1 && Up(rows, user, y, i) == Some(id) {
      m := LeastVisit(rows, user, id, y, n - 1);
    } else {
      m := n - 1;
    }
  }

  /**
   Moving a folder under another of the user's folders keeps the forest exactly
   when the new parent is neither the folder itself nor one of its descendants.
   */
  lemma {:induction false} MoveKeepsForestIff(rows: seq<Folder>, user: string, id: string, parent: string)
    requires IsForest(rows, user) && Owned(rows, user, id) && Owned(rows, user, parent)
    ensures IsForest(Moved(rows, user, id, Some(parent)), user) <==>
      parent != id && !Descendant(rows, user, parent, id)
  {
    var rows' := Moved(rows, user, id, Some(parent));
    MovedParent(rows, user, id, Some(parent), id);
    if parent == id || Descendant(rows, user, parent, id) {
      var n: nat :| Up(rows, user, parent, n) == Some(id) by {
        if parent == id { assert Up(rows, user, parent, 0) == Some(id); }
      }
      var m := FirstVisit(rows, user, id, Some(parent), parent, n);
      assert Up(rows', user, parent, m) == Some(id);
      assert Up(rows', user, id, m + 1) == Some(id);
      assert Descendant(rows', user, id, id);
    } else {
      forall y ensures !Descendant(rows', user, y, y) {
        if Descendant(rows', user, y, y) { NewCycleThroughParent(rows, user, id, parent, y); }
      }
    }
  }

  /** A cycle after the move runs from the new parent back to the folder. */
  lemma NewCycleThroughParent(rows: seq<Folder>, user: string, id: string, parent: string, y: string)
    requires IsForest(rows, user) && Owned(rows, user, id) && Owned(rows, user, parent)
    requires Descendant(Moved(rows, user, id, Some(parent)), user, y, y)
    ensures parent == id || Descendant(rows, user, parent, id)
  {
    var rows' := Moved(rows, user, id, Some(parent));
    var n: nat :| n > 0 && Up(rows', user, y, n) == Some(y);
    var m := FirstVisit(rows, user, id, Some(parent), y, n);
    if m == n {
      assert Descendant(rows, user, y, y);
    }
    UpAdd(rows', user, y, m, n - m);
    UpAdd(rows', user, y, n, m);
    UpAdd(rows', user, y, m, n);
    assert Up(rows', user, id, n) == Some(id);
    MovedParent(rows, user, id, Some(parent), id);
    assert Up(rows', user, parent, n - 1) == Some(id);
    var k := FirstVisit(rows, user, id, Some(parent), parent, n - 1);
    assert Up(rows, user, parent, k) == Some(id);
  }

  /** Moving to the top level, or under a folder the user does not own, always keeps the forest. */
  lemma {:induction false} MoveAwayKeepsForest(rows: seq<Folder>, user: string, id: string, parent: Option<string>)
    requires IsForest(rows, user) && Owned(rows, user, id)
    requires parent.Some? ==> !Owned(rows, user, parent.value)
    ensures IsForest(Moved(rows, user, id, parent), user)
  {
    var rows' := Moved(rows, user, id, parent);
    MovedParent(rows, user, id, parent, id);
    forall y ensures !Descendant(rows', user, y, y) {
      if Descendant(rows', user, y, y) {
        var n: nat :| n > 0 && Up(rows', user, y, n) == Some(y);
        var m := FirstVisit(rows, user, id, parent, y, n);
        if m < n { UpAdd(rows', user, y, m, n - m); }
        assert Descendant(rows, user, y, y);
      }
    }
  }
}
