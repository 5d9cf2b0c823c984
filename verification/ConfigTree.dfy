/**
 The nested configuration tree: reading a dotted path, and the walk of
 `PersistentConfig.save`. Paths are already split at the dots.
 */
module ConfigTree {
  import opened Wrappers

  datatype Json =
    | Null
    | Bool(b: bool)
    | Num(n: real)
    | Str(s: string)
    | Arr(items: seq<Json>)
    | Obj(fields: map<string, Json>)

  type Path = seq<string>

  /** What a dotted path leads to. Python's `in` and `[]` decide between the last two. */
  datatype Got = Value(value: Json) | Missing | Fails

  predicate IsSubstring(a: string, b: string) {
    a <= b || (b != "" && IsSubstring(a, b[1..]))
  }

  /** The walk of `get_config_value`. */
  function Lookup(tree: Json, path: Path): Got {
    if path == [] then Value(tree)
    else
      match tree
      case Obj(fields) => if path[0] in fields then Lookup(fields[path[0]], path[1..]) else Missing
      case Str(s) => if IsSubstring(path[0], s) then Fails else Missing
      case Arr(items) => if Str(path[0]) in items then Fails else Missing
      case _ => Fails
  }

  lemma {:induction false} SubstringIff(a: string, b: string)
    ensures IsSubstring(a, b) <==> exists x, y :: b == x + a + y
  {
    if a <= b {
      assert b == "" + a + b[|a|..];
    } else if b != "" {
      SubstringIff(a, b[1..]);
      if x, y :| b == x + a + y {
        assert x == "" ==> a <= x + a + y;
        assert b[1..] == x[1..] + a + y;
      }
      if x, y :| b[1..] == x + a + y { assert b == [b[0]] + x + a + y; }
    }
  }

  /** One more key of a path: what the loop of `get_config_value` does with the node it has reached. */
  lemma {:induction false} LookupOneMore(tree: Json, path: Path, key: string)
    ensures Lookup(tree, []) == Value(tree)
    ensures !Lookup(tree, path).Value? ==> Lookup(tree, path + [key]) == Lookup(tree, path)
    ensures Lookup(tree, path).Value? ==> var node := Lookup(tree, path).value;
      Lookup(tree, path + [key]) ==
        if node.Obj? then (if key in node.fields then Value(node.fields[key]) else Missing)
        else if node.Str? then
          (if exists x, y :: node.s == x + key + y then Fails else Missing)
        else if node.Arr? then
          (if exists i :: 0 <= i < |node.items| && node.items[i] == Str(key) then Fails else Missing)
        else Fails
    decreases |path|
  {
    if path == [] {
      assert path + [key] == [key] && [key][1..] == [];
      if tree.Str? { SubstringIff(key, tree.s); }
    } else {
      assert (path + [key])[0] == path[0] && (path + [key])[1..] == path[1..] + [key];
      if tree.Obj? && path[0] in tree.fields { LookupOneMore(tree.fields[path[0]], path[1..], key); }
    }
  }

  /** `get_config_value`. */
  method GetConfigValue(tree: Json, path: Path) returns (r: Got)
    ensures r == Lookup(tree, path)
  {
    var node := tree;
    for n := 0 to |path|
      invariant Lookup(tree, path[..n]) == Value(node)
    {
      assert path[..n + 1] == path[..n] + [path[n]];
      LookupOneMore(tree, path[..n], path[n]);
      LookupPrefix(tree, path, n + 1);
      match node {
        case Obj(fields) =>
          if path[n] !in fields {
            return Missing;
          }
          node := fields[path[n]];
        case Str(s) =>
          SubstringIff(path[n], s);
          return if IsSubstring(path[n], s) then Fails else Missing;
        case Arr(items) => return if Str(path[n]) in items then Fails else Missing;
        case _ => return Fails;
      }
    }
    assert path[..|path|] == path;
    return Value(node);
  }

  /** Once the walk has stopped, the rest of the path makes no difference. */
  lemma {:induction false} LookupPrefix(tree: Json, path: Path, n: nat)
    requires n <= |path|
    ensures !Lookup(tree, path[..n]).Value? ==> Lookup(tree, path) == Lookup(tree, path[..n])
    decreases |path| - n
  {
    if n < |path| {
      assert path[..n + 1] == path[..n] + [path[n]];
      LookupOneMore(tree, path[..n], path[n]);
      LookupPrefix(tree, path, n + 1);
    } else {
      assert path[..n] == path;
    }
  }

  /** The walk of `save`: missing inner nodes are created; anything but a dict raises. */
  function Put(tree: Json, path: Path, v: Json): Result<Json>
    requires path != []
    decreases |path|
  {
    if !tree.Obj? then Raise("TypeError")
    else if |path| == 1 then Ok(Obj(tree.fields[path[0] := v]))
    else
      var sub := if path[0] in tree.fields then tree.fields[path[0]] else Obj(map[]);
      match Put(sub, path[1..], v)
      case Ok(t) => Ok(Obj(tree.fields[path[0] := t]))
      case Raise(e) => Raise(e)
  }

  /** Neither path is a prefix of the other (or equal to it). */
  ghost predicate Apart(p: Path, q: Path) {
    !(p <= q) && !(q <= p)
  }

  /** Nothing but dicts on the way to `path`, as far as the tree goes. */
  ghost predicate IsOpen(tree: Json, path: Path) {
    && tree.Obj?
    && (|path| > 1 && path[0] in tree.fields ==> IsOpen(tree.fields[path[0]], path[1..]))
  }

  /** What "open" means for the nodes on the way. */
  lemma {:induction false} OpenIff(tree: Json, path: Path)
    requires path != []
    ensures IsOpen(tree, path) <==>
      forall k :: 0 <= k < |path| ==> (Lookup(tree, path[..k]).Value? ==> Lookup(tree, path[..k]).value.Obj?)
  {
    assert path[..0] == [];
    if tree.Obj? && |path| > 1 && path[0] in tree.fields {
      var sub, rest := tree.fields[path[0]], path[1..];
      OpenIff(sub, rest);
      forall k | 1 <= k < |path| ensures Lookup(tree, path[..k]) == Lookup(sub, rest[..k - 1]) {
        assert path[..k][1..] == rest[..k - 1];
      }
      if forall k :: 0 <= k < |path| ==> (Lookup(tree, path[..k]).Value? ==> Lookup(tree, path[..k]).value.Obj?) {
        forall k | 0 <= k < |rest| && Lookup(sub, rest[..k]).Value? ensures Lookup(sub, rest[..k]).value.Obj? {
          assert Lookup(tree, path[..k + 1]) == Lookup(sub, rest[..k + 1 - 1]);
        }
      }
    } else if tree.Obj? {
      forall k | 1 <= k < |path| ensures Lookup(tree, path[..k]) == Missing {
        assert path[..k][0] == path[0];
      }
    } else {
      assert Lookup(tree, path[..0]) == Value(tree);
    }
  }

  lemma HeadApart(p: Path, q: Path)
    requires p != [] && q != [] && p[0] == q[0]
    ensures Apart(p, q) <==> Apart(p[1..], q[1..])
  {
    assert p == [p[0]] + p[1..] && q == [q[0]] + q[1..];
  }

  /** A write succeeds exactly when only dicts lie on its way. */
  lemma {:induction false} PutSucceedsIff(tree: Json, path: Path, v: Json)
    requires path != []
    ensures Put(tree, path, v).Ok? <==> IsOpen(tree, path)
    ensures Put(tree, path, v).Raise? ==> Put(tree, path, v).exception == "TypeError"
    decreases |path|
  {
    if tree.Obj? && |path| > 1 {
      if path[0] in tree.fields {
        PutSucceedsIff(tree.fields[path[0]], path[1..], v);
      } else {
        EmptyIsOpen(path[1..]);
        PutSucceedsIff(Obj(map[]), path[1..], v);
      }
    }
  }

  lemma EmptyIsOpen(path: Path)
    ensures IsOpen(Obj(map[]), path)
  {
  }

  /** The written path holds the written value. */
  lemma {:induction false} PutThenLookup(tree: Json, path: Path, v: Json)
    requires path != [] && Put(tree, path, v).Ok?
    ensures Lookup(Put(tree, path, v).value, path) == Value(v)
    decreases |path|
  {
    if |path| > 1 {
      PutThenLookup(if path[0] in tree.fields then tree.fields[path[0]] else Obj(map[]), path[1..], v);
    }
  }

  /** Every path apart from the written one reads as before, and stays as open as it was. */
  lemma {:induction false} PutElsewhere(tree: Json, path: Path, v: Json, q: Path)
    requires path != [] && Put(tree, path, v).Ok? && Apart(path, q)
    ensures Lookup(Put(tree, path, v).value, q) == Lookup(tree, q)
    ensures IsOpen(tree, q) ==> IsOpen(Put(tree, path, v).value, q)
    decreases |path|
  {
    if q != [] && q[0] == path[0] {
      HeadApart(path, q);
      var sub := if path[0] in tree.fields then tree.fields[path[0]] else Obj(map[]);
      EmptyIsOpen(q[1..]);
      PutElsewhere(sub, path[1..], v, q[1..]);
    }
  }

  lemma {:induction false} PutStaysOpen(tree: Json, path: Path, v: Json)
    requires path != [] && Put(tree, path, v).Ok?
    ensures IsOpen(Put(tree, path, v).value, path)
    decreases |path|
  {
    if |path| > 1 {
      PutStaysOpen(if path[0] in tree.fields then tree.fields[path[0]] else Obj(map[]), path[1..], v);
    }
  }

  // ---------- runs of writes ----------

  datatype Write = Write(path: Path, value: Json)

  ghost predicate PrefixFree(paths: set<Path>) {
    [] !in paths && forall p, q :: p in paths && q in paths && p <= q ==> p == q
  }

  /** The tree after a run of writes; a write that raises leaves it as it was. */
  ghost function Apply(tree: Json, writes: seq<Write>): Json
    requires forall i :: 0 <= i < |writes| ==> writes[i].path != []
  {
    if writes == [] then tree
    else
      var before, last := Apply(tree, writes[..|writes| - 1]), writes[|writes| - 1];
      match Put(before, last.path, last.value)
      case Ok(t) => t
      case Raise(_) => before
  }

  /** The last value written to a path, if any. */
  ghost function LastWritten(writes: seq<Write>, p: Path): Option<Json> {
    if writes == [] then None
    else if writes[|writes| - 1].path == p then Some(writes[|writes| - 1].value)
    else LastWritten(writes[..|writes| - 1], p)
  }

  /**
   Over a prefix-free set of paths, any run of writes succeeds throughout, leaves
   each path of the set holding its last value (or what it held before), and every
   path apart from the written ones unchanged.
   */
  lemma {:induction false} WritesKeepTree(tree: Json, writes: seq<Write>, paths: set<Path>)
    requires PrefixFree(paths) && forall p :: p in paths ==> IsOpen(tree, p)
    requires forall i :: 0 <= i < |writes| ==> writes[i].path in paths
    ensures forall i :: 0 <= i < |writes| ==> writes[i].path != []
    ensures forall p :: p in paths ==> IsOpen(Apply(tree, writes), p)
    ensures forall p :: p in paths ==>
      Lookup(Apply(tree, writes), p) ==
        (if LastWritten(writes, p).Some? then Value(LastWritten(writes, p).value) else Lookup(tree, p))
    ensures forall q :: (forall i :: 0 <= i < |writes| ==> Apart(writes[i].path, q)) ==>
      Lookup(Apply(tree, writes), q) == Lookup(tree, q)
  {
    if writes != [] {
      var n := |writes| - 1;
      var w := writes[n];
      WritesKeepTree(tree, writes[..n], paths);
      var before := Apply(tree, writes[..n]);
      PutSucceedsIff(before, w.path, w.value);
      PutThenLookup(before, w.path, w.value);
      PutStaysOpen(before, w.path, w.value);
      forall q | Apart(w.path, q) ensures Lookup(Apply(tree, writes), q) == Lookup(before, q)
        && (IsOpen(before, q) ==> IsOpen(Apply(tree, writes), q))
      {
        PutElsewhere(before, w.path, w.value, q);
      }
      forall q | forall i :: 0 <= i < |writes| ==> Apart(writes[i].path, q)
        ensures Lookup(Apply(tree, writes), q) == Lookup(tree, q)
      {
        assert forall i :: 0 <= i < n ==> writes[..n][i] == writes[i];
      }
    }
  }
}
