/**
 The task registry of one instance without Redis, as values: the module-level
 `tasks` and `item_tasks` dictionaries, the steps that change them, and what any
 run of steps leaves in them.
 */
module TaskSteps {
  import opened Wrappers

  type TaskId = string

  /** An item id as passed to `create_task`: absent, or a string. */
  type ItemId = Option<string>

  predicate Truthy(id: ItemId) {
    id.Some? && id.value != ""
  }

  datatype Created = Created(task: TaskId, item: ItemId)

  ghost function TaskIds(log: seq<Created>): set<TaskId> {
    set c | c in log :: c.task
  }

  ghost predicate UniqueIds(log: seq<Created>) {
    forall i, j :: 0 <= i < j < |log| ==> log[i].task != log[j].task
  }

  /** The tasks created for `id` and not in `cleaned`, in creation order. */
  ghost function Outstanding(log: seq<Created>, cleaned: set<TaskId>, id: ItemId): seq<TaskId> {
    if log == [] then []
    else
      var n := |log| - 1;
      Outstanding(log[..n], cleaned, id)
      + if log[n].item == id && log[n].task !in cleaned then [log[n].task] else []
  }

  /** Python's `list.remove`: drops the first occurrence. */
  function RemoveFirst(s: seq<TaskId>, t: TaskId): seq<TaskId> {
    if s == [] then []
    else if s[0] == t then s[1..]
    else [s[0]] + RemoveFirst(s[1..], t)
  }

  lemma RemoveFirstLast(a: seq<TaskId>, x: TaskId, t: TaskId)
    ensures RemoveFirst(a + [x], t) == if t in a || x != t then RemoveFirst(a, t) + [x] else a
  {
    if a != [] {
      assert (a + [x])[1..] == a[1..] + [x];
      RemoveFirstLast(a[1..], x, t);
    }
  }

  lemma RemoveFirstAbsent(s: seq<TaskId>, t: TaskId)
    requires t !in s
    ensures RemoveFirst(s, t) == s
  {
    if s != [] { RemoveFirstAbsent(s[1..], t); }
  }

  lemma LastIsNew(log: seq<Created>)
    requires log != [] && UniqueIds(log)
    ensures forall c :: c in log[..|log| - 1] ==> c.task != log[|log| - 1].task
  {
    forall c | c in log[..|log| - 1] ensures c.task != log[|log| - 1].task {
      var i :| 0 <= i < |log| - 1 && log[i] == c;
    }
  }

  /** What `Outstanding` lists: each uncleaned task of the item once. */
  lemma {:induction false} OutstandingMeaning(log: seq<Created>, cleaned: set<TaskId>, id: ItemId)
    requires UniqueIds(log)
    ensures Distinct(Outstanding(log, cleaned, id))
    ensures forall t :: t in Outstanding(log, cleaned, id) <==> Created(t, id) in log && t !in cleaned
  {
    if log != [] {
      var n := |log| - 1;
      assert log == log[..n] + [log[n]];
      OutstandingMeaning(log[..n], cleaned, id);
      LastIsNew(log);
    }
  }

  /** The list keeps creation order. */
  lemma {:induction false} OutstandingOrdered(log: seq<Created>, cleaned: set<TaskId>, id: ItemId, p: nat, q: nat)
    returns (i: nat, j: nat)
    requires p < q < |Outstanding(log, cleaned, id)|
    ensures i < j < |log|
    ensures log[i].task == Outstanding(log, cleaned, id)[p] && log[j].task == Outstanding(log, cleaned, id)[q]
  {
    var n := |log| - 1;
    var before := Outstanding(log[..n], cleaned, id);
    if q < |before| {
      i, j := OutstandingOrdered(log[..n], cleaned, id, p, q);
    } else {
      i := OutstandingIndex(log[..n], cleaned, id, p);
      j := n;
    }
  }

  lemma OutstandingIndex(log: seq<Created>, cleaned: set<TaskId>, id: ItemId, p: nat) returns (i: nat)
    requires p < |Outstanding(log, cleaned, id)|
    ensures i < |log| && log[i].task == Outstanding(log, cleaned, id)[p]
  {
    i := |log| - 1;
    if p < |Outstanding(log[..i], cleaned, id)| { i := OutstandingIndex(log[..i], cleaned, id, p); }
  }

  /** Cleaning a task up removes it from its item's list and from no other. */
  lemma {:induction false} CleanOne(log: seq<Created>, cleaned: set<TaskId>, id: ItemId, t: TaskId)
    requires UniqueIds(log) && t !in cleaned
    ensures Outstanding(log, cleaned + {t}, id) == RemoveFirst(Outstanding(log, cleaned, id), t)
  {
    if log != [] {
      var n := |log| - 1;
      var before, x := Outstanding(log[..n], cleaned, id), log[n].task;
      CleanOne(log[..n], cleaned, id, t);
      if log[n].item == id && x !in cleaned {
        RemoveFirstLast(before, x, t);
        if x == t {
          OutstandingMeaning(log[..n], cleaned, id);
          LastIsNew(log);
          RemoveFirstAbsent(before, t);
        }
      } else {
        assert Outstanding(log, cleaned, id) == before;
      }
    }
  }

  // ---------- the item dictionary ----------

  /** What an id's bucket must hold; a falsy id's bucket is never cleaned. */
  ghost function Bucket(log: seq<Created>, cleaned: set<TaskId>, id: ItemId): seq<TaskId> {
    Outstanding(log, if Truthy(id) then cleaned else {}, id)
  }

  ghost predicate BucketOk(items: map<ItemId, seq<TaskId>>, log: seq<Created>, cleaned: set<TaskId>, id: ItemId) {
    && (id in items <==> Bucket(log, cleaned, id) != [])
    && (id in items ==> items[id] == Bucket(log, cleaned, id))
  }

  function Enlisted(items: map<ItemId, seq<TaskId>>, id: ItemId, t: TaskId): map<ItemId, seq<TaskId>> {
    items[id := (if id in items then items[id] else []) + [t]]
  }

  function Delisted(items: map<ItemId, seq<TaskId>>, id: ItemId, t: TaskId): map<ItemId, seq<TaskId>> {
    if !Truthy(id) || id !in items || t !in items[id] then items
    else if RemoveFirst(items[id], t) == [] then items - {id}
    else items[id := RemoveFirst(items[id], t)]
  }

  lemma EnlistKeeps(
      items: map<ItemId, seq<TaskId>>, log: seq<Created>, cleaned: set<TaskId>, t: TaskId, id: ItemId, other: ItemId)
    requires BucketOk(items, log, cleaned, other) && t !in cleaned
    ensures BucketOk(Enlisted(items, id, t), log + [Created(t, id)], cleaned, other)
  {
    assert (log + [Created(t, id)])[..|log|] == log;
  }

  lemma DelistKeeps(
      items: map<ItemId, seq<TaskId>>, log: seq<Created>, cleaned: set<TaskId>, t: TaskId, id: ItemId, other: ItemId)
    requires UniqueIds(log) && Created(t, id) in log && t !in cleaned
    requires BucketOk(items, log, cleaned, other)
    ensures BucketOk(Delisted(items, id, t), log, cleaned + {t}, other)
  {
    if Truthy(other) {
      CleanOne(log, cleaned, other, t);
      OutstandingMeaning(log, cleaned, other);
      SameTaskSameItem(log, t, id, other);
      if other != id { RemoveFirstAbsent(Outstanding(log, cleaned, other), t); }
    }
  }

  lemma SameTaskSameItem(log: seq<Created>, t: TaskId, id: ItemId, other: ItemId)
    requires UniqueIds(log) && Created(t, id) in log
    ensures Created(t, other) in log <==> other == id
  {
    if Created(t, other) in log {
      var i :| 0 <= i < |log| && log[i] == Created(t, id);
      var j :| 0 <= j < |log| && log[j] == Created(t, other);
      assert i == j;
    }
  }

  // ---------- steps and runs ----------

  /** The two dictionaries; of `tasks` only the keys matter here. */
  datatype Tables = Tables(tasks: set<TaskId>, items: map<ItemId, seq<TaskId>>)

  /** Every task ever created, those whose cleanup has run, and those that `stop_task` popped and cancelled. */
  datatype History = History(log: seq<Created>, cleaned: set<TaskId>, stopped: set<TaskId>)

  const Nothing := History([], {}, {})

  datatype Step = CreateIt(task: TaskId, item: ItemId) | StopIt(task: TaskId) | CleanUp(task: TaskId, item: ItemId)

  function Do(w: Tables, step: Step): Tables {
    match step
    case CreateIt(t, item) => Tables(w.tasks + {t}, Enlisted(w.items, item, t))
    case StopIt(t) => w.(tasks := w.tasks - {t})
    case CleanUp(t, item) => Tables(w.tasks - {t}, Delisted(w.items, item, t))
  }

  ghost function Running(h: History): set<TaskId> {
    TaskIds(h.log) - h.cleaned - h.stopped
  }

  ghost function Note(h: History, step: Step): History {
    match step
    case CreateIt(t, item) => h.(log := h.log + [Created(t, item)])
    case StopIt(t) => h.(stopped := h.stopped + if t in Running(h) then {t} else {})
    case CleanUp(t, _) => h.(cleaned := h.cleaned + {t})
  }

  /** Task ids are new when created, and a cleanup follows its creation, once. */
  ghost predicate Allowed(h: History, step: Step) {
    match step
    case CreateIt(t, _) => t !in TaskIds(h.log)
    case StopIt(_) => true
    case CleanUp(t, item) => Created(t, item) in h.log && t !in h.cleaned
  }

  /**
   Each item id's list is exactly its outstanding tasks, with no empty entry;
   `tasks` is the uncleaned tasks minus the stopped ones.
   */
  ghost predicate Exact(w: Tables, h: History) {
    && UniqueIds(h.log)
    && h.cleaned <= TaskIds(h.log) && h.stopped <= TaskIds(h.log)
    && w.tasks == Running(h)
    && forall id :: BucketOk(w.items, h.log, h.cleaned, id)
  }

  lemma StepExact(w: Tables, h: History, step: Step)
    requires Exact(w, h) && Allowed(h, step)
    ensures Exact(Do(w, step), Note(h, step))
  {
    match step
    case CreateIt(t, item) =>
      forall id ensures BucketOk(Enlisted(w.items, item, t), h.log + [Created(t, item)], h.cleaned, id) {
        EnlistKeeps(w.items, h.log, h.cleaned, t, item, id);
      }
      forall c | c in h.log ensures c.task != t { assert c.task in TaskIds(h.log); }
      assert TaskIds(h.log + [Created(t, item)]) == TaskIds(h.log) + {t};
    case StopIt(t) =>
    case CleanUp(t, item) =>
      forall id ensures BucketOk(Delisted(w.items, item, t), h.log, h.cleaned + {t}, id) {
        DelistKeeps(w.items, h.log, h.cleaned, t, item, id);
      }
  }

  ghost predicate Possible(h: History, steps: seq<Step>)
    decreases |steps|
  {
    steps == [] || (Allowed(h, steps[0]) && Possible(Note(h, steps[0]), steps[1..]))
  }

  function Exec(w: Tables, steps: seq<Step>): Tables
    decreases |steps|
  {
    if steps == [] then w else Exec(Do(w, steps[0]), steps[1..])
  }

  ghost function Notes(h: History, steps: seq<Step>): History
    decreases |steps|
  {
    if steps == [] then h else Notes(Note(h, steps[0]), steps[1..])
  }

  function CreationsOf(steps: seq<Step>): seq<Created> {
    if steps == [] then []
    else (if steps[0].CreateIt? then [Created(steps[0].task, steps[0].item)] else []) + CreationsOf(steps[1..])
  }

  function CleanedBy(steps: seq<Step>): set<TaskId> {
    set k | 0 <= k < |steps| && steps[k].CleanUp? :: steps[k].task
  }

  /** What a run adds to the history. */
  lemma {:induction false} NotesMeaning(h: History, steps: seq<Step>)
    ensures Notes(h, steps).log == h.log + CreationsOf(steps)
    ensures Notes(h, steps).cleaned == h.cleaned + CleanedBy(steps)
    ensures forall t :: t in Notes(h, steps).stopped <==>
      t in h.stopped || exists k :: 0 <= k < |steps| && steps[k] == StopIt(t) && t in Running(Notes(h, steps[..k]))
    decreases |steps|
  {
    if steps != [] {
      var next, rest := Note(h, steps[0]), steps[1..];
      NotesMeaning(next, rest);
      assert CleanedBy(steps) == CleanedBy([steps[0]]) + CleanedBy(rest) by { CleanedParts(steps[0], rest); }
      forall k | 0 <= k < |rest| ensures Notes(next, rest[..k]) == Notes(h, steps[..k + 1]) {
        assert steps[..k + 1][1..] == rest[..k];
      }
      assert Notes(h, steps[..0]) == h;
      forall t ensures t in Notes(h, steps).stopped <==>
        t in h.stopped || exists k :: 0 <= k < |steps| && steps[k] == StopIt(t) && t in Running(Notes(h, steps[..k]))
      {
        StoppedParts(h, steps, t);
      }
    }
  }

  lemma CleanedParts(step: Step, rest: seq<Step>)
    ensures CleanedBy([step] + rest) == CleanedBy([step]) + CleanedBy(rest)
    ensures CleanedBy([step]) == if step.CleanUp? then {step.task} else {}
  {
    assert [step][0] == step;
    forall k | 0 <= k < |rest| && rest[k].CleanUp? ensures rest[k].task in CleanedBy([step] + rest) {
      assert ([step] + rest)[k + 1] == rest[k];
    }
    if step.CleanUp? { assert ([step] + rest)[0] == step; }
  }

  /** A stop that finds its task is the first step, or one of the others. */
  lemma StoppedParts(h: History, steps: seq<Step>, t: TaskId)
    requires steps != []
    requires forall k :: 0 <= k < |steps| - 1 ==> Notes(Note(h, steps[0]), steps[1..][..k]) == Notes(h, steps[..k + 1])
    requires Notes(h, steps[..0]) == h
    ensures (exists k :: 0 <= k < |steps| && steps[k] == StopIt(t) && t in Running(Notes(h, steps[..k]))) <==>
      (steps[0] == StopIt(t) && t in Running(h)) ||
      exists k :: 0 <= k < |steps| - 1 && steps[1..][k] == StopIt(t) &&
        t in Running(Notes(Note(h, steps[0]), steps[1..][..k]))
  {
    if k :| 0 <= k < |steps| && steps[k] == StopIt(t) && t in Running(Notes(h, steps[..k])) {
      if k > 0 { assert steps[1..][k - 1] == StopIt(t); }
    }
    var next := Note(h, steps[0]);
    if k :| 0 <= k < |steps| - 1 && steps[1..][k] == StopIt(t) && t in Running(Notes(next, steps[1..][..k])) {
      assert steps[k + 1] == StopIt(t);
    }
  }

  /** Every possible run keeps both dictionaries exact, at each of its prefixes. */
  lemma {:induction false} RunExact(w: Tables, h: History, steps: seq<Step>, n: nat)
    requires Exact(w, h) && Possible(h, steps) && n <= |steps|
    ensures Exact(Exec(w, steps[..n]), Notes(h, steps[..n]))
    decreases n
  {
    if n > 0 {
      StepExact(w, h, steps[0]);
      RunExact(Do(w, steps[0]), Note(h, steps[0]), steps[1..], n - 1);
      assert steps[..n][1..] == steps[1..][..n - 1];
    }
  }

  /** What exact tables hold. */
  lemma ExactMeaning(w: Tables, h: History, id: ItemId)
    requires Exact(w, h)
    ensures var gone := if id == None || id == Some("") then {} else h.cleaned;
      && (id in w.items <==> exists t :: Created(t, id) in h.log && t !in gone)
      && (id in w.items ==>
            Distinct(w.items[id]) && forall t :: t in w.items[id] <==> Created(t, id) in h.log && t !in gone)
  {
    var gone := if id == None || id == Some("") then {} else h.cleaned;
    OutstandingMeaning(h.log, gone, id);
    var bucket := Outstanding(h.log, gone, id);
    assert BucketOk(w.items, h.log, h.cleaned, id);
    if bucket != [] { assert bucket[0] in bucket; }
  }

  /**
   What a run from the start leaves: each item's uncleaned tasks, once each (all
   that were created, for an id that is absent or empty), and the running tasks.
   */
  lemma {:induction false} RunLists(steps: seq<Step>, n: nat, id: ItemId)
    requires Possible(Nothing, steps) && n <= |steps|
    ensures var w, log, cleaned := Exec(Tables({}, map[]), steps[..n]), CreationsOf(steps[..n]), CleanedBy(steps[..n]);
      var gone := if id == None || id == Some("") then {} else cleaned;
      && (id in w.items <==> exists t :: Created(t, id) in log && t !in gone)
      && (id in w.items ==>
            Distinct(w.items[id]) && forall t :: t in w.items[id] <==> Created(t, id) in log && t !in gone)
      && w.tasks == TaskIds(log) - cleaned - Notes(Nothing, steps[..n]).stopped
  {
    RunExact(Tables({}, map[]), Nothing, steps, n);
    NotesMeaning(Nothing, steps[..n]);
    ExactMeaning(Exec(Tables({}, map[]), steps[..n]), Notes(Nothing, steps[..n]), id);
  }

  /** Whether steps are possible depends on what was created and cleaned, not on what was stopped. */
  lemma {:induction false} PossibleAnyway(h: History, g: History, steps: seq<Step>)
    requires Possible(h, steps) && h.log == g.log && h.cleaned == g.cleaned
    ensures Possible(g, steps)
    decreases |steps|
  {
    if steps != [] { PossibleAnyway(Note(h, steps[0]), Note(g, steps[0]), steps[1..]); }
  }

  lemma {:induction false} PossibleSplit(h: History, a: seq<Step>, b: seq<Step>)
    requires Possible(h, a + b)
    ensures Possible(h, a) && Possible(Notes(h, a), b)
    decreases |a|
  {
    if a == [] {
      assert a + b == b;
    } else {
      assert (a + b)[1..] == a[1..] + b;
      PossibleSplit(Note(h, a[0]), a[1..], b);
    }
  }

  lemma {:induction false} RunTwice(w: Tables, h: History, a: seq<Step>, b: seq<Step>)
    ensures Exec(w, a + b) == Exec(Exec(w, a), b)
    ensures Notes(h, a + b) == Notes(Notes(h, a), b)
    decreases |a|
  {
    if a == [] {
      assert a + b == b;
    } else {
      assert (a + b)[1..] == a[1..] + b;
      RunTwice(Do(w, a[0]), Note(h, a[0]), a[1..], b);
    }
  }
}
