/**
 The shared half of the task registry: a Redis hash of tasks and one Redis set per
 item. Any number of instances interleave; each pipeline `execute` is one atomic
 step. Saving a task is one step. Cleaning one up takes two: HDEL, SREM and SCARD
 run together, and the set is deleted in a second execution if SCARD returned 0.
 A task's save may come after its cleanup: the task is running before it is saved.
 */
module RedisTasks {

  type TaskId = string
  type ItemId = string  // "" for a task without an item

  datatype Action =
    | Save(task: TaskId)    // redis_save_task
    | Remove(task: TaskId)  // redis_cleanup_task, first execution
    | Finish(task: TaskId)  // redis_cleanup_task, second execution

  datatype State = State(
    hash: map<TaskId, ItemId>,
    sets: map<ItemId, set<TaskId>>,
    saved: set<TaskId>,
    removed: set<TaskId>,
    pending: map<TaskId, bool>)  // cleanups between their executions; did SCARD return 0?

  const Initial := State(map[], map[], {}, {}, map[])

  function Members(s: State, i: ItemId): set<TaskId> {
    if i in s.sets then s.sets[i] else {}
  }

  /** SADD. */
  function Add(sets: map<ItemId, set<TaskId>>, i: ItemId, t: TaskId): map<ItemId, set<TaskId>> {
    sets[i := (if i in sets then sets[i] else {}) + {t}]
  }

  /** SREM; Redis drops a set that becomes empty. */
  function Rem(sets: map<ItemId, set<TaskId>>, i: ItemId, t: TaskId): map<ItemId, set<TaskId>> {
    if i !in sets then sets
    else if sets[i] == {t} then sets - {i}
    else sets[i := sets[i] - {t}]
  }

  /** `item` names the item of every task ever created; task ids are unique. */
  predicate Enabled(item: map<TaskId, ItemId>, s: State, a: Action) {
    match a
    case Save(t) => t in item && t !in s.saved
    case Remove(t) => t in item && t !in s.removed
    case Finish(t) => t in item && t in s.pending
  }

  function Next(item: map<TaskId, ItemId>, s: State, a: Action): State
    requires Enabled(item, s, a)
  {
    match a
    case Save(t) =>
      s.(hash := s.hash[t := item[t]],
         sets := if item[t] != "" then Add(s.sets, item[t], t) else s.sets,
         saved := s.saved + {t})
    case Remove(t) =>
      var left := if item[t] != "" then Rem(s.sets, item[t], t) else s.sets;
      s.(hash := s.hash - {t},
         sets := left,
         removed := s.removed + {t},
         pending := if item[t] != "" then s.pending[t := item[t] !in left] else s.pending)
    case Finish(t) =>
      s.(sets := if s.pending[t] then s.sets - {item[t]} else s.sets,
         pending := s.pending - {t})
  }

  /** The state after a run. */
  ghost function Exec(item: map<TaskId, ItemId>, run: seq<Action>): State {
    if run == [] then Initial
    else
      var s, last := Exec(item, run[..|run| - 1]), run[|run| - 1];
      if Enabled(item, s, last) then Next(item, s, last) else s
  }

  /** Every step of the run was possible when it was taken. */
  ghost predicate Valid(item: map<TaskId, ItemId>, run: seq<Action>) {
    run != [] ==>
      var before := run[..|run| - 1];
      Valid(item, before) && Enabled(item, Exec(item, before), run[|run| - 1])
  }

  lemma PrefixValid(item: map<TaskId, ItemId>, run: seq<Action>, n: nat)
    requires Valid(item, run) && n <= |run|
    ensures Valid(item, run[..n])
  {
    if n < |run| {
      PrefixValid(item, run[..|run| - 1], n);
      assert run[..|run| - 1][..n] == run[..n];
    } else {
      assert run[..n] == run;
    }
  }

  // ---------- every interleaving ----------

  /** A task in an item's set has a hash entry naming that item; empty sets are not stored. */
  ghost predicate SetsWithinHash(s: State) {
    && "" !in s.sets
    && forall i :: i in s.sets ==> s.sets[i] != {} && forall t :: t in s.sets[i] ==> t in s.hash && s.hash[t] == i
  }

  ghost predicate HashFaithful(item: map<TaskId, ItemId>, s: State) {
    && (forall t :: t in s.hash ==> t in item && s.hash[t] == item[t] && t in s.saved)
    && (forall t :: t in s.pending ==> t in item && item[t] != "" && t in s.removed)
  }

  lemma SaveKeeps(item: map<TaskId, ItemId>, s: State, t: TaskId)
    requires SetsWithinHash(s) && HashFaithful(item, s) && Enabled(item, s, Save(t))
    ensures SetsWithinHash(Next(item, s, Save(t))) && HashFaithful(item, Next(item, s, Save(t)))
  {
  }

  lemma RemoveKeeps(item: map<TaskId, ItemId>, s: State, t: TaskId)
    requires SetsWithinHash(s) && HashFaithful(item, s) && Enabled(item, s, Remove(t))
    ensures SetsWithinHash(Next(item, s, Remove(t))) && HashFaithful(item, Next(item, s, Remove(t)))
  {
  }

  lemma FinishKeeps(item: map<TaskId, ItemId>, s: State, t: TaskId)
    requires SetsWithinHash(s) && HashFaithful(item, s) && Enabled(item, s, Finish(t))
    ensures SetsWithinHash(Next(item, s, Finish(t))) && HashFaithful(item, Next(item, s, Finish(t)))
  {
  }

  lemma {:induction false} SetsAlwaysWithinHash(item: map<TaskId, ItemId>, run: seq<Action>)
    requires Valid(item, run)
    ensures SetsWithinHash(Exec(item, run)) && HashFaithful(item, Exec(item, run))
  {
    if run != [] {
      var before, last := run[..|run| - 1], run[|run| - 1];
      SetsAlwaysWithinHash(item, before);
      match last
      case Save(t) => SaveKeeps(item, Exec(item, before), t);
      case Remove(t) => RemoveKeeps(item, Exec(item, before), t);
      case Finish(t) => FinishKeeps(item, Exec(item, before), t);
    }
  }

  // ---------- when a run keeps a task listed ----------

  /** The task was saved, and not removed since. */
  ghost predicate Live(run: seq<Action>, t: TaskId) {
    exists b :: 0 <= b < |run| && run[b] == Save(t) && forall j :: b < j < |run| ==> run[j] != Remove(t)
  }

  ghost predicate IsWindow(item: map<TaskId, ItemId>, run: seq<Action>, t: TaskId, a: nat, b: nat, c: nat) {
    && a < b < c < |run|
    && run[a].Remove? && run[b] == Save(t) && run[c] == Finish(run[a].task)
    && run[a].task in item && t in item && item[run[a].task] == item[t]
    && Members(Exec(item, run[..a + 1]), item[t]) == {}
  }

  /** The task was saved between the SCARD that found its item's set empty and the DELETE that followed. */
  ghost predicate InWindow(item: map<TaskId, ItemId>, run: seq<Action>, t: TaskId) {
    exists a: nat, b: nat, c: nat :: IsWindow(item, run, t, a, b, c)
  }

  lemma {:induction false} LiveStep(before: seq<Action>, last: Action, t: TaskId)
    ensures Live(before + [last], t) <==> last == Save(t) || (Live(before, t) && last != Remove(t))
  {
    var run := before + [last];
    if last == Save(t) {
      assert run[|before|] == Save(t);
    } else {
      if Live(before, t) && last != Remove(t) {
        var b :| 0 <= b < |before| && before[b] == Save(t) && forall j :: b < j < |before| ==> before[j] != Remove(t);
        assert run[b] == Save(t) && forall j :: b < j < |run| ==> run[j] != Remove(t);
      }
      if Live(run, t) {
        var b :| 0 <= b < |run| && run[b] == Save(t) && forall j :: b < j < |run| ==> run[j] != Remove(t);
        assert run[|before|] == last;
        assert before[b] == Save(t) && forall j :: b < j < |before| ==> before[j] == run[j];
      }
    }
  }

  lemma RecordStep(item: map<TaskId, ItemId>, s: State, a: Action, t: TaskId)
    requires Enabled(item, s, a)
    ensures t in Next(item, s, a).hash <==> a == Save(t) || (t in s.hash && a != Remove(t))
    ensures t in Next(item, s, a).saved <==> a == Save(t) || t in s.saved
    ensures t in Next(item, s, a).removed <==> a == Remove(t) || t in s.removed
  {
  }

  lemma {:induction false} HashExact(item: map<TaskId, ItemId>, run: seq<Action>, t: TaskId)
    requires Valid(item, run)
    ensures t in Exec(item, run).hash <==> Live(run, t)
    ensures t in Exec(item, run).saved <==> Save(t) in run
    ensures t in Exec(item, run).removed <==> Remove(t) in run
  {
    if run != [] {
      var before, last := run[..|run| - 1], run[|run| - 1];
      assert run == before + [last];
      HashExact(item, before, t);
      LiveStep(before, last, t);
      RecordStep(item, Exec(item, before), last, t);
    }
  }

  /** A listed task has been listed ever since it was saved. */
  lemma {:induction false} ListedSinceSaved(item: map<TaskId, ItemId>, run: seq<Action>, t: TaskId, n: nat)
    requires Valid(item, run) && t in item && n <= |run|
    requires t in Members(Exec(item, run), item[t])
    ensures Valid(item, run[..n])
    ensures t in Exec(item, run[..n]).saved ==> t in Members(Exec(item, run[..n]), item[t])
  {
    PrefixValid(item, run, n);
    if n == |run| {
      assert run[..n] == run;
    } else {
      var before := run[..|run| - 1];
      assert before[..n] == run[..n];
      SavedGrows(item, before, n, t);
      SetsAlwaysWithinHash(item, before);
      if t in Members(Exec(item, before), item[t]) {
        ListedSinceSaved(item, before, t, n);
      } else {
        assert run[|run| - 1] == Save(t);
      }
    }
  }

  lemma SavedGrows(item: map<TaskId, ItemId>, run: seq<Action>, n: nat, t: TaskId)
    requires Valid(item, run) && n <= |run|
    ensures Valid(item, run[..n])
    ensures t in Exec(item, run[..n]).saved ==> t in Exec(item, run).saved
  {
    PrefixValid(item, run, n);
    if n < |run| {
      SavedGrows(item, run[..|run| - 1], n, t);
      assert run[..|run| - 1][..n] == run[..n];
    } else {
      assert run[..n] == run;
    }
  }

  /** A cleanup waiting to delete its set has run its SCARD, and found the set empty. */
  lemma {:induction false} PendingSince(item: map<TaskId, ItemId>, run: seq<Action>, u: TaskId) returns (a: nat)
    requires Valid(item, run) && u in Exec(item, run).pending && Exec(item, run).pending[u] && u in item
    ensures a < |run| && run[a] == Remove(u)
    ensures Valid(item, run[..a + 1]) && Members(Exec(item, run[..a + 1]), item[u]) == {}
  {
    var n := |run| - 1;
    SetsAlwaysWithinHash(item, run[..n]);
    if run[n] == Remove(u) {
      a := n;
      assert run[..n + 1] == run;
    } else {
      a := PendingSince(item, run[..n], u);
      assert run[..n][..a + 1] == run[..a + 1];
    }
  }

  lemma WindowExtends(item: map<TaskId, ItemId>, run: seq<Action>, t: TaskId)
    requires Valid(item, run) && run != [] && Valid(item, run[..|run| - 1])
    requires InWindow(item, run[..|run| - 1], t)
    ensures InWindow(item, run, t)
  {
    var before := run[..|run| - 1];
    var a: nat, b: nat, c: nat :| IsWindow(item, before, t, a, b, c);
    assert before[..a + 1] == run[..a + 1];
    assert IsWindow(item, run, t, a, b, c);
  }

  lemma SavedOnce(item: map<TaskId, ItemId>, run: seq<Action>, t: TaskId, b: nat, d: nat)
    requires Valid(item, run) && b < |run| && d < |run|
    requires run[b] == Save(t) && run[d] == Save(t)
    ensures b == d
  {
    if b != d {
      var lo, hi := if b < d then b else d, if b < d then d else b;
      assert run[..hi][lo] == Save(t);
      assert run[..hi + 1][..hi] == run[..hi];
      PrefixValid(item, run, hi + 1);
      HashExact(item, run[..hi], t);
    }
  }

  /**
   The exact condition for a live task to be listed under its item: it was not
   saved inside a window between an empty SCARD and its DELETE.
   */
  lemma {:induction false} ListedIff(item: map<TaskId, ItemId>, run: seq<Action>, t: TaskId)
    requires Valid(item, run) && t in item && item[t] != ""
    ensures t in Members(Exec(item, run), item[t]) <==> t in Exec(item, run).hash && !InWindow(item, run, t)
  {
    if run != [] {
      var before := run[..|run| - 1];
      ListedIff(item, before, t);
      SetsAlwaysWithinHash(item, before);
      ListedStep(item, Exec(item, before), run[|run| - 1], t);
      RecordStep(item, Exec(item, before), run[|run| - 1], t);
      assert run == before + [run[|run| - 1]];
      if InWindow(item, before, t) {
        WindowSaved(item, before, t);
        WindowExtends(item, run, t);
      } else if Unlists(item, Exec(item, before), run[|run| - 1], t) {
        if t in Members(Exec(item, before), item[t]) { WindowFound(item, run, t); }
        if InWindow(item, run, t) { WindowSaved(item, run, t); }
      } else if InWindow(item, run, t) {
        WindowCloses(item, run, t);
      }
    }
  }

  /** `a` deletes the whole set of `t`'s item. */
  ghost predicate Unlists(item: map<TaskId, ItemId>, s: State, a: Action, t: TaskId)
    requires t in item
  {
    a.Finish? && a.task in item && item[a.task] == item[t] && a.task in s.pending && s.pending[a.task]
  }

  /** How one step changes whether `t` is listed. */
  lemma ListedStep(item: map<TaskId, ItemId>, s: State, a: Action, t: TaskId)
    requires Enabled(item, s, a) && t in item && item[t] != ""
    requires HashFaithful(item, s)
    ensures t in Members(Next(item, s, a), item[t]) <==>
      a == Save(t) || (t in Members(s, item[t]) && a != Remove(t) && !Unlists(item, s, a, t))
  {
    match a
    case Save(u) =>
    case Remove(u) =>
    case Finish(u) => assert item[u] != "";
  }

  lemma WindowSaved(item: map<TaskId, ItemId>, run: seq<Action>, t: TaskId)
    requires Valid(item, run) && InWindow(item, run, t)
    ensures t in Exec(item, run).saved
  {
    var a: nat, b: nat, c: nat :| IsWindow(item, run, t, a, b, c);
    HashExact(item, run, t);
    assert run[b] in run;
  }

  /** A window that was not there before the last step was closed by that step. */
  lemma WindowCloses(item: map<TaskId, ItemId>, run: seq<Action>, t: TaskId)
    requires Valid(item, run) && run != [] && Valid(item, run[..|run| - 1])
    requires InWindow(item, run, t) && !InWindow(item, run[..|run| - 1], t)
    ensures var last := run[|run| - 1];
      && last.Finish? && last.task in item && t in item && item[last.task] == item[t]
      && last.task in Exec(item, run[..|run| - 1]).pending && Exec(item, run[..|run| - 1]).pending[last.task]
  {
    var a: nat, b: nat, c: nat :| IsWindow(item, run, t, a, b, c);
    if c < |run| - 1 {
      WindowEarlier(item, run, t, a, b, c);
    } else {
      WindowAtEnd(item, run, t, a, b);
    }
  }

  lemma WindowEarlier(item: map<TaskId, ItemId>, run: seq<Action>, t: TaskId, a: nat, b: nat, c: nat)
    requires IsWindow(item, run, t, a, b, c) && c < |run| - 1
    ensures InWindow(item, run[..|run| - 1], t)
  {
    var before := run[..|run| - 1];
    assert before[..a + 1] == run[..a + 1];
    assert IsWindow(item, before, t, a, b, c);
  }

  lemma WindowAtEnd(item: map<TaskId, ItemId>, run: seq<Action>, t: TaskId, a: nat, b: nat)
    requires Valid(item, run) && run != [] && IsWindow(item, run, t, a, b, |run| - 1)
    ensures var before, u := run[..|run| - 1], run[a].task;
      u in Exec(item, before).pending && Exec(item, before).pending[u]
  {
    var before := run[..|run| - 1];
    assert before[..a + 1] == run[..a + 1];
    PrefixValid(item, run, a + 1);
    EmptyScardStands(item, before, run[a].task, a);
  }

  lemma EmptyScardStands(item: map<TaskId, ItemId>, run: seq<Action>, u: TaskId, a: nat)
    requires Valid(item, run) && a < |run| && run[a] == Remove(u) && u in item
    requires Valid(item, run[..a + 1]) && u in Exec(item, run).pending
    requires Members(Exec(item, run[..a + 1]), item[u]) == {}
    ensures Exec(item, run).pending[u]
  {
    RemoveRecords(item, run[..a + 1]);
    StillPending(item, run, u, a);
  }

  lemma RemoveRecords(item: map<TaskId, ItemId>, run: seq<Action>)
    requires Valid(item, run) && run != [] && run[|run| - 1].Remove?
    ensures var u, s := run[|run| - 1].task, Exec(item, run);
      u in item && (u in s.pending ==> (s.pending[u] <==> Members(s, item[u]) == {}))
  {
    SetsAlwaysWithinHash(item, run[..|run| - 1]);
    SetsAlwaysWithinHash(item, run);
  }

  /** The outcome of a cleanup's SCARD stands until its second execution. */
  lemma {:induction false} StillPending(item: map<TaskId, ItemId>, run: seq<Action>, u: TaskId, a: nat)
    requires Valid(item, run) && a < |run| && run[a] == Remove(u) && u in item
    requires Valid(item, run[..a + 1])
    requires u in Exec(item, run).pending
    ensures u in Exec(item, run[..a + 1]).pending
    ensures Exec(item, run).pending[u] == Exec(item, run[..a + 1]).pending[u]
  {
    var n := |run| - 1;
    if n == a {
      assert run[..a + 1] == run;
    } else {
      assert run[..n][..a + 1] == run[..a + 1];
      HashExact(item, run[..n], u);
      assert run[..n][a] == Remove(u);
      StillPending(item, run[..n], u, a);
    }
  }

  /** A DELETE that unlists a task closes a window around its save. */
  lemma WindowFound(item: map<TaskId, ItemId>, run: seq<Action>, t: TaskId)
    requires Valid(item, run) && run != [] && Valid(item, run[..|run| - 1]) && t in item
    requires var last, s := run[|run| - 1], Exec(item, run[..|run| - 1]);
      && last.Finish? && last.task in s.pending && s.pending[last.task]
      && last.task in item && item[last.task] == item[t] && t in Members(s, item[t])
    ensures InWindow(item, run, t)
  {
    var n := |run| - 1;
    var before := run[..n];
    var a := PendingSince(item, before, run[n].task);
    assert before[..a + 1] == run[..a + 1];
    SetsAlwaysWithinHash(item, before);
    HashExact(item, before, t);
    var b :| 0 <= b < n && before[b] == Save(t);
    if b <= a { assert before[..a + 1][b] == Save(t); }
    PrefixValid(item, before, a + 1);
    HashExact(item, before[..a + 1], t);
    ListedSinceSaved(item, before, t, a + 1);
    assert IsWindow(item, run, t, a, b, n);
  }

  /** With no save inside such a window, the sets list exactly the hash entries that have an item. */
  lemma {:induction false} SetsMatchHash(item: map<TaskId, ItemId>, run: seq<Action>)
    requires Valid(item, run)
    requires forall t :: t in item ==> !InWindow(item, run, t)
    ensures forall i :: i != "" ==>
      Members(Exec(item, run), i) == set t | t in Exec(item, run).hash && Exec(item, run).hash[t] == i
  {
    var s := Exec(item, run);
    SetsAlwaysWithinHash(item, run);
    forall i, t | i != "" && t in s.hash && s.hash[t] == i ensures t in Members(s, i) {
      ListedIff(item, run, t);
    }
  }

  /** A run with such a save: `b` stays in the hash, and its item has no set. */
  lemma WindowLosesTask(a: TaskId, b: TaskId, i: ItemId)
    requires a != b && i != ""
    ensures var item := map[a := i, b := i];
      var run := [Save(a), Remove(a), Save(b), Finish(a)];
      && Valid(item, run) && InWindow(item, run, b)
      && b in Exec(item, run).hash && i !in Exec(item, run).sets
  {
    var item := map[a := i, b := i];
    var run := [Save(a), Remove(a), Save(b), Finish(a)];
    var r1, r2, r3 := [Save(a)], [Save(a), Remove(a)], [Save(a), Remove(a), Save(b)];
    assert r1[..0] == [] && r2[..1] == r1 && r3[..2] == r2 && run[..3] == r3;
    var s1 := State(map[a := i], map[i := {a}], {a}, {}, map[]);
    var s2 := State(map[], map[], {a}, {a}, map[a := true]);
    var s3 := State(map[b := i], map[i := {b}], {a, b}, {a}, map[a := true]);
    assert Exec(item, []) == Initial;
    assert {} + {a} == {a} && Add(map[], i, a) == map[i := {a}];
    assert Exec(item, r1) == Next(item, Initial, Save(a)) == s1;
    assert map[a := i] - {a} == map[] && map[i := {a}] - {i} == map[];
    assert Exec(item, r2) == Next(item, s1, Remove(a)) == s2;
    assert {a} + {b} == {a, b} && {} + {b} == {b};
    assert Exec(item, r3) == Next(item, s2, Save(b)) == s3;
    assert Exec(item, run) == Next(item, s3, Finish(a));
    assert Valid(item, []) && Valid(item, r1) && Valid(item, r2) && Valid(item, r3);
    assert run[..1 + 1] == r2;
    assert IsWindow(item, run, b, 1, 2, 3);
  }

  // ---------- draining ----------

  ghost predicate SavedFirst(run: seq<Action>, t: TaskId) {
    exists b, a :: 0 <= b < a < |run| && run[b] == Save(t) && run[a] == Remove(t)
  }

  /**
   Once every task has been saved and cleaned up, Redis is empty exactly when each
   save preceded its cleanup; a save that came late stays in the hash for good.
   */
  lemma {:induction false} DrainedIff(item: map<TaskId, ItemId>, run: seq<Action>)
    requires Valid(item, run)
    requires forall t :: t in item ==> Save(t) in run && Remove(t) in run
    ensures (Exec(item, run).hash == map[] && Exec(item, run).sets == map[])
       <==> forall t :: t in item ==> SavedFirst(run, t)
  {
    SetsAlwaysWithinHash(item, run);
    EmptyIff(Exec(item, run));
    forall t | t in item ensures t in Exec(item, run).hash <==> !SavedFirst(run, t) {
      HashExact(item, run, t);
      SavedFirstIff(item, run, t);
    }
  }

  lemma EmptyIff(s: State)
    requires SetsWithinHash(s)
    ensures s.hash == map[] && s.sets == map[] <==> forall t :: t !in s.hash
  {
    forall i | i in s.sets ensures exists t :: t in s.hash {
      var t :| t in s.sets[i];
    }
    if forall t :: t !in s.hash {
      assert s.hash.Keys == {};
      assert s.sets.Keys == {};
    }
  }

  lemma SavedFirstIff(item: map<TaskId, ItemId>, run: seq<Action>, t: TaskId)
    requires Valid(item, run) && Save(t) in run && Remove(t) in run
    ensures SavedFirst(run, t) <==> !Live(run, t)
  {
    var b :| 0 <= b < |run| && run[b] == Save(t);
    var a :| 0 <= a < |run| && run[a] == Remove(t);
    if SavedFirst(run, t) && Live(run, t) {
      var b', a' :| 0 <= b' < a' < |run| && run[b'] == Save(t) && run[a'] == Remove(t);
      var l :| 0 <= l < |run| && run[l] == Save(t) && forall j :: l < j < |run| ==> run[j] != Remove(t);
      SavedOnce(item, run, t, b', l);
    }
    if !Live(run, t) {
      var j :| b < j < |run| && run[j] == Remove(t);
    }
  }

  /** A cleanup overtaking its own save leaves the task listed although it has ended. */
  lemma LateSaveLeaks()
    ensures var item := map["t" := "i"];
      var run := [Remove("t"), Finish("t"), Save("t")];
      Valid(item, run) && Exec(item, run).hash == item && Exec(item, run).sets == map["i" := {"t"}]
  {
    var item := map["t" := "i"];
    var r1, r2, r3 := [Remove("t")], [Remove("t"), Finish("t")], [Remove("t"), Finish("t"), Save("t")];
    assert r1[..0] == [] && r2[..1] == r1 && r3[..2] == r2;
    assert Exec(item, []) == Initial;
    assert Exec(item, r1) == Next(item, Initial, Remove("t"));
    assert Exec(item, r2) == Next(item, Exec(item, r1), Finish("t"));
    assert Exec(item, r2).sets == map[];
    assert Exec(item, r3) == Next(item, Exec(item, r2), Save("t"));
    assert Exec(item, r3).sets["i"] == {"t"};
    assert Valid(item, []) && Valid(item, r1) && Valid(item, r2) && Valid(item, r3);
  }
}
