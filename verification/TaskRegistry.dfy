/**
 The task registry of one instance without Redis. What happens between two awaits
 is one atomic step; a task's cleanup is a done callback and runs once, some time
 after the task ends. An await is a parameter: the steps others take meanwhile,
 and whether it raises.
 */
module TaskRegistry {
  import opened Wrappers
  import opened TaskSteps
  import opened StopLoop

  lemma LiveIsBucket(w: Tables, list: seq<TaskId>, id: ItemId, step: Step)
    requires list != [] ==> id in w.items && w.items[id] == list
    ensures Live(list, id, step) != [] ==>
      id in Do(w, step).items && Do(w, step).items[id] == Live(list, id, step)
  {
    if step.CleanUp? && step.item == id && step.task !in list { RemoveFirstAbsent(list, step.task); }
  }

  /** As long as it is not empty, the list being iterated is the item's list. */
  lemma {:induction false} LiveAllIsBucket(w: Tables, list: seq<TaskId>, id: ItemId, steps: seq<Step>)
    requires list != [] ==> id in w.items && w.items[id] == list
    ensures LiveAll(list, id, steps) != [] ==>
      id in Exec(w, steps).items && Exec(w, steps).items[id] == LiveAll(list, id, steps)
    ensures Exec(w, steps).tasks == StillAll(w.tasks, steps)
    decreases |steps|
  {
    if steps != [] {
      LiveIsBucket(w, list, id, steps[0]);
      LiveAllIsBucket(Do(w, steps[0]), Live(list, id, steps[0]), id, steps[1..]);
    }
  }

  /** The loop's own stops and the steps taken meanwhile, in order. */
  function Script(stops: seq<TaskId>, awaits: seq<Await>): seq<Step> {
    if stops == [] then []
    else [StopIt(stops[0])] + First(awaits).steps + Script(stops[1..], Rest(awaits))
  }

  class Registry {
    var tasks: set<TaskId>
    var itemTasks: map<ItemId, seq<TaskId>>

    ghost var history: History

    function Now(): Tables
      reads this
    {
      Tables(tasks, itemTasks)
    }

    ghost predicate Valid()
      reads this
    {
      Exact(Now(), history)
    }

    constructor ()
      ensures Valid() && Now() == Tables({}, map[]) && history == Nothing
    {
      tasks, itemTasks := {}, map[];
      history := Nothing;
    }

    /** `create_task`; `taskId` is a new uuid. */
    method Create(taskId: TaskId, id: ItemId)
      requires Valid() && taskId !in TaskIds(history.log)
      modifies this
      ensures Valid()
      ensures Now() == Do(old(Now()), CreateIt(taskId, id)) && history == Note(old(history), CreateIt(taskId, id))
    {
      StepExact(Now(), history, CreateIt(taskId, id));
      tasks := tasks + {taskId};
      if id in itemTasks && itemTasks[id] != [] {
        itemTasks := itemTasks[id := itemTasks[id] + [taskId]];
      } else {
        assert BucketOk(itemTasks, history.log, history.cleaned, id);
        assert [taskId] == [] + [taskId];
        itemTasks := itemTasks[id := [taskId]];
      }
      assert itemTasks == Enlisted(old(itemTasks), id, taskId);
      history := Note(history, CreateIt(taskId, id));
    }

    /** `cleanup_task`, called back once with the id the task was created with. */
    method Cleanup(taskId: TaskId, id: ItemId)
      requires Valid() && Created(taskId, id) in history.log && taskId !in history.cleaned
      modifies this
      ensures Valid()
      ensures Now() == Do(old(Now()), CleanUp(taskId, id)) && history == Note(old(history), CleanUp(taskId, id))
    {
      StepExact(Now(), history, CleanUp(taskId, id));
      tasks := tasks - {taskId};
      if Truthy(id) && id in itemTasks && taskId in itemTasks[id] {
        itemTasks := itemTasks[id := RemoveFirst(itemTasks[id], taskId)];
        if itemTasks[id] == [] {
          itemTasks := itemTasks - {id};
        }
      }
      assert itemTasks == Delisted(old(itemTasks), id, taskId);
      history := Note(history, CleanUp(taskId, id));
    }

    /** Popping a task from `tasks` and cancelling it, if it is there. */
    method Pop(taskId: TaskId) returns (found: bool)
      requires Valid()
      modifies this
      ensures Valid()
      ensures Now() == Do(old(Now()), StopIt(taskId)) && history == Note(old(history), StopIt(taskId))
      ensures found <==> taskId in old(tasks)
    {
      StepExact(Now(), history, StopIt(taskId));
      found := taskId in tasks;
      tasks := tasks - {taskId};
      history := Note(history, StopIt(taskId));
    }

    /** What others do, step by step. */
    method Run(steps: seq<Step>)
      requires Valid() && Possible(history, steps)
      modifies this
      ensures Valid()
      ensures Now() == Exec(old(Now()), steps) && history == Notes(old(history), steps)
      decreases |steps|
    {
      if steps != [] {
        match steps[0] {
          case CreateIt(t, item) => Create(t, item);
          case StopIt(t) => var _ := Pop(t);
          case CleanUp(t, item) => Cleanup(t, item);
        }
        Run(steps[1..]);
      }
    }

    /** `stop_task`; `during` is the await of the cancelled task. */
    method Stop(taskId: TaskId, during: Await) returns (outcome: Outcome)
      requires Valid() && Possible(history, during.steps)
      modifies this
      ensures Valid()
      ensures outcome == if taskId !in old(tasks) then NotFound else if during.raises then Raised else AllDone
      ensures outcome == NotFound ==> Now() == old(Now()) && history == old(history)
      ensures outcome != NotFound ==>
        && Now() == Exec(old(Now()), [StopIt(taskId)] + during.steps)
        && history == Notes(old(history), [StopIt(taskId)] + during.steps)
    {
      var found := Pop(taskId);
      if !found {
        return NotFound;
      }
      PossibleAnyway(old(history), history, during.steps);
      Run(during.steps);
      assert ([StopIt(taskId)] + during.steps)[1..] == during.steps;
      return if during.raises then Raised else AllDone;
    }

    /** `list_tasks`. */
    method List() returns (ids: set<TaskId>)
      requires Valid()
      ensures ids == Running(history)
    {
      ids := tasks;
    }

    /** `list_task_ids_by_item_id`; the source returns the list itself, not a copy. */
    method ListByItem(id: ItemId) returns (ids: seq<TaskId>)
      requires Valid()
      ensures ids == Bucket(history.log, history.cleaned, id)
    {
      assert BucketOk(itemTasks, history.log, history.cleaned, id);
      ids := if id in itemTasks then itemTasks[id] else [];
    }

    /**
     `stop_item_tasks`. `list` follows the list object under iteration: until it is
     empty it is the item's own list, so every step taken during an await shows.
     */
    method StopItemTasks(id: ItemId, awaits: seq<Await>) returns (walk: Walk)
      requires Valid() && Possible(history, StepsOf(awaits))
      modifies this
      ensures Valid()
      ensures walk == Loop(old(tasks), Bucket(old(history).log, old(history).cleaned, id), id, 0, awaits)
      ensures Now() == Exec(old(Now()), Script(walk.stops, awaits))
      ensures history == Notes(old(history), Script(walk.stops, awaits))
    {
      var list := ListByItem(id);
      var i, pending, stops := 0, awaits, [];
      ghost var w0, h0, bucket, script := Now(), history, list, [];
      MidwayStart(w0, h0, id, awaits);
      while i < |list|
        invariant Valid()
        invariant Midway(w0, h0, bucket, id, awaits, stops, script, Now(), history, list, i, pending)
        decreases |pending|, |list| - i
      {
        var during := First(pending);
        ghost var w, h, steps := Now(), history, [StopIt(list[i])] + during.steps;
        NextPossible(h, list[i], pending);
        var outcome := Stop(list[i], during);
        MidwayEnds(w0, h0, bucket, id, awaits, stops, script, w, h, list, i, pending);
        if outcome == NotFound {
          return Walk(stops, NotFound);
        } else if outcome == Raised {
          return Walk(stops + [list[i]], Raised);
        }
        MidwayNext(w0, h0, bucket, id, awaits, stops, script, w, h, list, i, pending);
        stops, script := stops + [list[i]], script + steps;
        list := LiveAll(list, id, during.steps);
        i, pending := i + 1, Rest(pending);
      }
      MidwayEnds(w0, h0, bucket, id, awaits, stops, script, Now(), history, list, i, pending);
      return Walk(stops, AllDone);
    }
  }

  /** Where the loop stands: `script` has led from the start to `w` and `h`, and the rest of the walk follows. */
  ghost predicate Midway(
      w0: Tables, h0: History, bucket: seq<TaskId>, id: ItemId, awaits: seq<Await>, stops: seq<TaskId>,
      script: seq<Step>, w: Tables, h: History, list: seq<TaskId>, i: nat, pending: seq<Await>)
  {
    && (list != [] ==> id in w.items && w.items[id] == list)
    && w == Exec(w0, script) && h == Notes(h0, script)
    && Possible(h, StepsOf(pending))
    && Continues(Loop(w0.tasks, bucket, id, 0, awaits), stops, Loop(w.tasks, list, id, i, pending))
    && ScriptSoFar(awaits, stops, script, pending)
  }

  lemma MidwayStart(w0: Tables, h0: History, id: ItemId, awaits: seq<Await>)
    requires Exact(w0, h0) && Possible(h0, StepsOf(awaits))
    ensures var bucket := Bucket(h0.log, h0.cleaned, id);
      Midway(w0, h0, bucket, id, awaits, [], [], w0, h0, bucket, 0, awaits)
  {
    assert BucketOk(w0.items, h0.log, h0.cleaned, id);
    forall more: seq<TaskId> ensures Script([] + more, awaits) == [] + Script(more, awaits) {
      assert [] + more == more;
    }
  }

  lemma NextPossible(h: History, t: TaskId, pending: seq<Await>)
    requires Possible(h, StepsOf(pending))
    ensures Possible(h, First(pending).steps)
    ensures Possible(Notes(h, [StopIt(t)] + First(pending).steps), StepsOf(Rest(pending)))
  {
    assert StepsOf(pending) == First(pending).steps + StepsOf(Rest(pending));
    PossibleSplit(h, First(pending).steps, StepsOf(Rest(pending)));
    StopThenPossible(h, t, First(pending).steps, StepsOf(Rest(pending)));
  }

  lemma MidwayNext(
      w0: Tables, h0: History, bucket: seq<TaskId>, id: ItemId, awaits: seq<Await>, stops: seq<TaskId>,
      script: seq<Step>, w: Tables, h: History, list: seq<TaskId>, i: nat, pending: seq<Await>)
    requires Midway(w0, h0, bucket, id, awaits, stops, script, w, h, list, i, pending)
    requires i < |list| && list[i] in w.tasks && !First(pending).raises
    ensures var steps := [StopIt(list[i])] + First(pending).steps;
      Midway(w0, h0, bucket, id, awaits, stops + [list[i]], script + steps, Exec(w, steps), Notes(h, steps),
             LiveAll(list, id, First(pending).steps), i + 1, Rest(pending))
  {
    var t, during := list[i], First(pending);
    var steps := [StopIt(t)] + during.steps;
    assert steps[1..] == during.steps;
    NextPossible(h, t, pending);
    RunTwice(w0, h0, script, steps);
    LiveAllIsBucket(Do(w, StopIt(t)), list, id, during.steps);
    ScriptGrows(awaits, stops, script, pending, t);
    var tasks', list' := StillAll(w.tasks - {t}, during.steps), LiveAll(list, id, during.steps);
    ContinuesNext(Loop(w0.tasks, bucket, id, 0, awaits), stops, t, Loop(tasks', list', id, i + 1, Rest(pending)));
  }

  lemma ContinuesNext(whole: Walk, stops: seq<TaskId>, t: TaskId, rest: Walk)
    requires Continues(whole, stops, Walk([t] + rest.stops, rest.outcome))
    ensures Continues(whole, stops + [t], rest)
  {
    assert stops + [t] + rest.stops == stops + ([t] + rest.stops);
  }

  /** The three ways out. */
  lemma MidwayEnds(
      w0: Tables, h0: History, bucket: seq<TaskId>, id: ItemId, awaits: seq<Await>, stops: seq<TaskId>,
      script: seq<Step>, w: Tables, h: History, list: seq<TaskId>, i: nat, pending: seq<Await>)
    requires Midway(w0, h0, bucket, id, awaits, stops, script, w, h, list, i, pending)
    ensures Script(stops, awaits) == script
    ensures i >= |list| ==> Loop(w0.tasks, bucket, id, 0, awaits) == Walk(stops, AllDone)
    ensures i < |list| && list[i] !in w.tasks ==> Loop(w0.tasks, bucket, id, 0, awaits) == Walk(stops, NotFound)
    ensures i < |list| && list[i] in w.tasks && First(pending).raises ==>
      var steps := [StopIt(list[i])] + First(pending).steps;
      && Loop(w0.tasks, bucket, id, 0, awaits) == Walk(stops + [list[i]], Raised)
      && Exec(w, steps) == Exec(w0, Script(stops + [list[i]], awaits))
      && Notes(h, steps) == Notes(h0, Script(stops + [list[i]], awaits))
  {
    ScriptEnds(awaits, stops, script, pending);
    if i < |list| && list[i] in w.tasks && First(pending).raises {
      var steps := [StopIt(list[i])] + First(pending).steps;
      ScriptGrows(awaits, stops, script, pending, list[i]);
      ScriptEnds(awaits, stops + [list[i]], script + steps, Rest(pending));
      RunTwice(w0, h0, script, steps);
    }
  }

  /** `whole` is the stops made so far, followed by `rest`. */
  ghost predicate Continues(whole: Walk, stops: seq<TaskId>, rest: Walk) {
    whole == Walk(stops + rest.stops, rest.outcome)
  }

  /** `script` is the script of `stops`, and what follows continues with the awaits that are left. */
  ghost predicate ScriptSoFar(awaits: seq<Await>, stops: seq<TaskId>, script: seq<Step>, pending: seq<Await>) {
    forall more: seq<TaskId> :: Script(stops + more, awaits) == script + Script(more, pending)
  }

  lemma ScriptGrows(awaits: seq<Await>, stops: seq<TaskId>, script: seq<Step>, pending: seq<Await>, next: TaskId)
    requires ScriptSoFar(awaits, stops, script, pending)
    ensures ScriptSoFar(awaits, stops + [next], script + ([StopIt(next)] + First(pending).steps), Rest(pending))
  {
    forall more: seq<TaskId> ensures Script(stops + [next] + more, awaits) ==
      script + ([StopIt(next)] + First(pending).steps) + Script(more, Rest(pending))
    {
      assert stops + [next] + more == stops + ([next] + more);
      assert ([next] + more)[1..] == more;
    }
  }

  lemma ScriptEnds(awaits: seq<Await>, stops: seq<TaskId>, script: seq<Step>, pending: seq<Await>)
    requires ScriptSoFar(awaits, stops, script, pending)
    ensures Script(stops, awaits) == script
  {
    assert stops + [] == stops;
  }

  lemma StopThenPossible(h: History, t: TaskId, steps: seq<Step>, later: seq<Step>)
    requires Possible(h, steps + later)
    ensures Possible(Notes(h, [StopIt(t)] + steps), later)
  {
    PossibleAnyway(h, Note(h, StopIt(t)), steps + later);
    PossibleSplit(Note(h, StopIt(t)), steps, later);
    assert ([StopIt(t)] + steps)[1..] == steps;
  }

  lemma TwoTasks(a: TaskId, b: TaskId, item: ItemId)
    requires a != b
    ensures var log := [Created(a, item), Created(b, item)];
      TaskIds([Created(a, item)]) == {a} && TaskIds(log) == {a, b} && Bucket(log, {}, item) == [a, b]
  {
    var one, log := [Created(a, item)], [Created(a, item), Created(b, item)];
    assert log[..1] == one && one[..0] == [];
    assert Outstanding(one, {}, item) == [a];
    assert TaskIds(one) == {a};
    assert log == one + [Created(b, item)];
    assert TaskIds(log) == TaskIds(one) + {b};
  }

  method CreateTwo(a: TaskId, b: TaskId, item: ItemId) returns (r: Registry)
    requires a != b
    ensures fresh(r) && r.Valid() && r.history == History([Created(a, item), Created(b, item)], {}, {})
  {
    r := new Registry();
    TwoTasks(a, b, item);
    r.Create(a, item);
    assert r.history == History([Created(a, item)], {}, {});
    r.Create(b, item);
  }

  /** A task already popped, whose cleanup is pending, ends the loop at its turn; the others keep running. */
  method PendingCleanupEndsLoop(a: TaskId, b: TaskId, item: ItemId) returns (r: Registry, walk: Walk)
    requires a != b
    ensures fresh(r) && r.Valid() && r.history.cleaned == {}
    ensures walk == Walk([], NotFound) && r.tasks == {b}
  {
    r := CreateTwo(a, b, item);
    TwoTasks(a, b, item);
    var _ := r.Pop(a);
    assert r.tasks == {b};
    walk := r.StopItemTasks(item, []);
  }
}
