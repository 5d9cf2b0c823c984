/**
 The loop of `stop_item_tasks` without Redis. It iterates the item's own list,
 which other steps change while it awaits a cancelled task.
 */
module StopLoop {
  import opened Wrappers
  import opened TaskSteps

  /**
   What others do while the loop awaits a cancelled task, and whether the await
   raises anything but `CancelledError`.
   */
  datatype Await = Await(steps: seq<Step>, raises: bool)

  function First(awaits: seq<Await>): Await {
    if awaits == [] then Await([], false) else awaits[0]
  }

  function Rest(awaits: seq<Await>): (r: seq<Await>)
    ensures awaits != [] ==> |r| < |awaits|
  {
    if awaits == [] then [] else awaits[1..]
  }

  /** How a step changes the list object of an item. Once emptied, it is no longer the item's list. */
  function Live(list: seq<TaskId>, id: ItemId, step: Step): seq<TaskId> {
    match step
    case CreateIt(t, item) => if item == id && list != [] then list + [t] else list
    case StopIt(_) => list
    case CleanUp(t, item) => if item == id && Truthy(id) then RemoveFirst(list, t) else list
  }

  function LiveAll(list: seq<TaskId>, id: ItemId, steps: seq<Step>): seq<TaskId>
    decreases |steps|
  {
    if steps == [] then list else LiveAll(Live(list, id, steps[0]), id, steps[1..])
  }

  function StillTasks(tasks: set<TaskId>, step: Step): set<TaskId> {
    if step.CreateIt? then tasks + {step.task} else tasks - {step.task}
  }

  function StillAll(tasks: set<TaskId>, steps: seq<Step>): set<TaskId>
    decreases |steps|
  {
    if steps == [] then tasks else StillAll(StillTasks(tasks, steps[0]), steps[1..])
  }

  /** Status True, the first failure, or an exception. */
  datatype Outcome = AllDone | NotFound | Raised

  /** The tasks the loop stops, in order, and how it ends. */
  datatype Walk = Walk(stops: seq<TaskId>, outcome: Outcome)

  /**
   The loop of `stop_item_tasks` at index `i` of the live list: a task that is no
   longer in `tasks` ends it, any other is popped, cancelled and awaited.
   */
  function Loop(tasks: set<TaskId>, list: seq<TaskId>, id: ItemId, i: nat, awaits: seq<Await>): Walk
    decreases |awaits|, |list| - i
  {
    if i >= |list| then Walk([], AllDone)
    else if list[i] !in tasks then Walk([], NotFound)
    else
      var during := First(awaits);
      if during.raises then Walk([list[i]], Raised)
      else
        var tasks', list' := StillAll(tasks - {list[i]}, during.steps), LiveAll(list, id, during.steps);
        var rest := Loop(tasks', list', id, i + 1, Rest(awaits));
        Walk([list[i]] + rest.stops, rest.outcome)
  }

  function StepsOf(awaits: seq<Await>): seq<Step> {
    if awaits == [] then [] else awaits[0].steps + StepsOf(awaits[1..])
  }

  // ---------- which tasks the loop stops ----------

  ghost predicate ProperStep(list: seq<TaskId>, id: ItemId, step: Step) {
    && (step.CreateIt? ==> step.task !in list)
    && (step.CleanUp? && step.task in list ==> step.item == id)
  }

  ghost predicate ProperSteps(list: seq<TaskId>, id: ItemId, steps: seq<Step>) {
    forall k :: 0 <= k < |steps| ==> ProperStep(list, id, steps[k])
  }

  /** No listed task is created anew, or cleaned up under another item. */
  ghost predicate Proper(list: seq<TaskId>, id: ItemId, awaits: seq<Await>) {
    forall k :: 0 <= k < |awaits| ==> ProperSteps(list, id, awaits[k].steps)
  }

  /**
   While the loop waits for `list[k]`, does the step stop a task still to come, or
   clean up a listed one? (A falsy id's list is never shrunk; there, cleaning up a
   task still to come only takes it out of `tasks`.)
   */
  ghost predicate Disturbs(list: seq<TaskId>, id: ItemId, k: nat, step: Step)
    requires k < |list|
  {
    match step
    case CreateIt(_, _) => false
    case StopIt(t) => t in list[k + 1..]
    case CleanUp(t, _) => t in if Truthy(id) then list else list[k + 1..]
  }

  ghost predicate Quiet(list: seq<TaskId>, id: ItemId, k: nat, during: Await)
    requires k < |list|
  {
    !during.raises && forall j :: 0 <= j < |during.steps| ==> !Disturbs(list, id, k, during.steps[j])
  }

  /** From index `i` on: every task is in `tasks`, and every await before the last one is quiet. */
  ghost predicate Undisturbed(tasks: set<TaskId>, list: seq<TaskId>, id: ItemId, i: nat, awaits: seq<Await>)
    requires i <= |list|
  {
    && (forall j :: i <= j < |list| ==> list[j] in tasks)
    && forall k :: 0 <= k < |awaits| && i + k + 1 < |list| ==> Quiet(list, id, i + k, awaits[k])
  }

  ghost predicate AllIn(list: seq<TaskId>, i: nat, stops: seq<TaskId>)
    requires i <= |list|
  {
    forall j :: i <= j < |list| ==> list[j] in stops
  }

  function From(s: seq<TaskId>, i: nat): seq<TaskId> {
    if i <= |s| then s[i..] else []
  }

  lemma {:induction false} RemoveFirstPast(a: seq<TaskId>, b: seq<TaskId>, t: TaskId)
    ensures RemoveFirst(a + b, t) == if t in a then RemoveFirst(a, t) + b else a + RemoveFirst(b, t)
  {
    if a == [] {
      assert a + b == b;
    } else {
      assert (a + b)[1..] == a[1..] + b;
      RemoveFirstPast(a[1..], b, t);
    }
  }

  lemma RemoveFirstShorter(s: seq<TaskId>, t: TaskId)
    ensures |RemoveFirst(s, t)| == if t in s then |s| - 1 else |s|
    ensures forall x :: x in RemoveFirst(s, t) ==> x in s
  {
    if s != [] { RemoveFirstShorter(s[1..], t); }
  }

  /** Removing a task moves nothing beyond an index. */
  lemma {:induction false} RemoveMovesForward(s: seq<TaskId>, t: TaskId, i: nat, u: TaskId)
    requires u in From(RemoveFirst(s, t), i)
    ensures u in From(s, i)
    ensures i > 0 && t in s[..if i <= |s| then i else |s|] ==> u in From(s, i + 1)
  {
    RemoveFirstShorter(s, t);
    if i < |s| {
      RemoveFirstPast(s[..i], s[i..], t);
      assert s == s[..i] + s[i..];
      RemoveFirstShorter(s[..i], t);
      RemoveFirstShorter(s[i..], t);
      if t in s[..i] {
        assert From(RemoveFirst(s, t), i) == s[i + 1..];
        assert s[i..][1..] == s[i + 1..];
      } else {
        assert From(RemoveFirst(s, t), i) == RemoveFirst(s[i..], t);
      }
    }
  }

  lemma LiveStaysBehind(list: seq<TaskId>, id: ItemId, step: Step, i: nat, u: TaskId)
    requires u !in From(list, i) && !(step.CreateIt? && step.task == u)
    ensures u !in From(Live(list, id, step), i)
  {
    if step.CleanUp? && u in From(Live(list, id, step), i) { RemoveMovesForward(list, step.task, i, u); }
  }

  lemma {:induction false} LiveAllStaysBehind(list: seq<TaskId>, id: ItemId, steps: seq<Step>, i: nat, u: TaskId)
    requires u !in From(list, i) && forall k :: 0 <= k < |steps| ==> !(steps[k].CreateIt? && steps[k].task == u)
    ensures u !in From(LiveAll(list, id, steps), i)
    decreases |steps|
  {
    if steps != [] {
      LiveStaysBehind(list, id, steps[0], i, u);
      LiveAllStaysBehind(Live(list, id, steps[0]), id, steps[1..], i, u);
    }
  }

  ghost predicate NeverCreated(awaits: seq<Await>, u: TaskId) {
    forall k, j :: 0 <= k < |awaits| && 0 <= j < |awaits[k].steps| ==>
      !(awaits[k].steps[j].CreateIt? && awaits[k].steps[j].task == u)
  }

  /** A task the index has passed is never stopped by the loop. */
  lemma {:induction false} PassedNotStopped(
      tasks: set<TaskId>, list: seq<TaskId>, id: ItemId, i: nat, awaits: seq<Await>, u: TaskId)
    requires u !in From(list, i) && NeverCreated(awaits, u)
    ensures u !in Loop(tasks, list, id, i, awaits).stops
    decreases |awaits|, |list| - i
  {
    if i < |list| && list[i] in tasks && !First(awaits).raises {
      var steps := First(awaits).steps;
      assert u !in From(list, i + 1);
      LiveAllStaysBehind(list, id, steps, i + 1, u);
      PassedNotStopped(StillAll(tasks - {list[i]}, steps), LiveAll(list, id, steps), id, i + 1, Rest(awaits), u);
    }
  }

  lemma {:induction false} StillGone(tasks: set<TaskId>, steps: seq<Step>, u: TaskId)
    requires forall k :: 0 <= k < |steps| ==> !(steps[k].CreateIt? && steps[k].task == u)
    requires u !in tasks || exists k :: 0 <= k < |steps| && steps[k].task == u
    ensures u !in StillAll(tasks, steps)
    decreases |steps|
  {
    if steps != [] {
      if u in StillTasks(tasks, steps[0]) {
        var k :| 0 <= k < |steps| && steps[k].task == u;
        assert steps[1..][k - 1].task == u;
      }
      StillGone(StillTasks(tasks, steps[0]), steps[1..], u);
    }
  }

  /** A task that has left `tasks` is never stopped by the loop. */
  lemma {:induction false} GoneNotStopped(
      tasks: set<TaskId>, list: seq<TaskId>, id: ItemId, i: nat, awaits: seq<Await>, u: TaskId)
    requires u !in tasks && NeverCreated(awaits, u)
    ensures u !in Loop(tasks, list, id, i, awaits).stops
    decreases |awaits|, |list| - i
  {
    if i < |list| && list[i] in tasks && !First(awaits).raises {
      var steps := First(awaits).steps;
      StillGone(tasks - {list[i]}, steps, u);
      GoneNotStopped(StillAll(tasks - {list[i]}, steps), LiveAll(list, id, steps), id, i + 1, Rest(awaits), u);
    }
  }

  /** Steps that leave the listed tasks alone only change what comes after them in the list. */
  lemma {:induction false} QuietKeepsList(list: seq<TaskId>, extra: seq<TaskId>, id: ItemId, k: nat, steps: seq<Step>)
    returns (extra': seq<TaskId>)
    requires k < |list| && Apart(list, extra) && ProperSteps(list, id, steps)
    requires forall j :: 0 <= j < |steps| ==> !Disturbs(list, id, k, steps[j])
    ensures LiveAll(list + extra, id, steps) == list + extra' && Apart(list, extra')
    decreases |steps|
  {
    if steps == [] {
      extra' := extra;
    } else {
      var next := Live(list + extra, id, steps[0]);
      assert ProperStep(list, id, steps[0]) && !Disturbs(list, id, k, steps[0]);
      RemoveFirstPast(list, extra, steps[0].task);
      RemoveFirstShorter(extra, steps[0].task);
      var more := match steps[0]
        case CreateIt(t, item) => if item == id then extra + [t] else extra
        case StopIt(_) => extra
        case CleanUp(t, item) => if item == id && Truthy(id) then RemoveFirst(extra, t) else extra;
      assert next == list + more;
      extra' := QuietKeepsList(list, more, id, k, steps[1..]);
    }
  }

  lemma {:induction false} QuietKeepsTasks(
      list: seq<TaskId>, tasks: set<TaskId>, id: ItemId, k: nat, steps: seq<Step>, u: TaskId)
    requires k < |list| && u in list[k + 1..] && ProperSteps(list, id, steps)
    requires forall j :: 0 <= j < |steps| ==> !Disturbs(list, id, k, steps[j])
    ensures u in StillAll(tasks, steps) <==> u in tasks
    decreases |steps|
  {
    if steps != [] {
      assert ProperStep(list, id, steps[0]) && !Disturbs(list, id, k, steps[0]);
      QuietKeepsTasks(list, StillTasks(tasks, steps[0]), id, k, steps[1..], u);
    }
  }

  /** A cleanup of a task at or before index `k` moves the task after it to where the loop has been. */
  lemma {:induction false} CleanupShifts(cur: seq<TaskId>, id: ItemId, k: nat, steps: seq<Step>, v: TaskId, u: TaskId)
    requires Truthy(id) && k < |cur| && v in cur[..k + 1] && u !in From(cur, k + 2)
    requires CleanUp(v, id) in steps
    requires forall j :: 0 <= j < |steps| ==> !(steps[j].CreateIt? && steps[j].task == u)
    ensures u !in From(LiveAll(cur, id, steps), k + 1)
    decreases |steps|
  {
    var next := Live(cur, id, steps[0]);
    if steps[0].CleanUp? && steps[0].item == id && steps[0].task in cur[..k + 1] {
      if u in From(next, k + 1) { RemoveMovesForward(cur, steps[0].task, k + 1, u); }
      LiveAllStaysBehind(next, id, steps[1..], k + 1, u);
    } else {
      LiveStaysBehind(cur, id, steps[0], k + 2, u);
      assert cur == cur[..k + 1] + cur[k + 1..];
      RemoveFirstPast(cur[..k + 1], cur[k + 1..], steps[0].task);
      assert next[..k + 1] == cur[..k + 1];
      CleanupShifts(next, id, k, steps[1..], v, u);
    }
  }

  /** Nothing listed is among the tasks created later. */
  ghost predicate Apart(list: seq<TaskId>, extra: seq<TaskId>) {
    forall t :: t in list ==> t !in extra
  }

  lemma NotLater(list: seq<TaskId>, k: nat)
    requires Distinct(list) && k < |list|
    ensures list[k] !in From(list, k + 1) && list[k] !in list[..k]
  {
  }

  lemma ProperNeverCreated(list: seq<TaskId>, id: ItemId, awaits: seq<Await>, u: TaskId)
    requires Proper(list, id, awaits) && u in list
    ensures NeverCreated(awaits, u) && NeverCreated(Rest(awaits), u)
    ensures forall j :: 0 <= j < |First(awaits).steps| ==>
      !(First(awaits).steps[j].CreateIt? && First(awaits).steps[j].task == u)
  {
    forall a, b | 0 <= a < |awaits| && 0 <= b < |awaits[a].steps|
      ensures !(awaits[a].steps[b].CreateIt? && awaits[a].steps[b].task == u)
    {
      assert ProperSteps(list, id, awaits[a].steps) && ProperStep(list, id, awaits[a].steps[b]);
    }
  }

  /** After an await in which a task before `u` was cleaned up, the loop misses `u`. */
  lemma {:induction false} ShiftedMissed(
      tasks: set<TaskId>, list: seq<TaskId>, extra: seq<TaskId>, id: ItemId, k: nat, step: Step, awaits: seq<Await>)
    requires Distinct(list) && Apart(list, extra) && k + 1 < |list| && Proper(list, id, awaits) && Truthy(id)
    requires step in First(awaits).steps && step.CleanUp? && step.task in list[..k + 1]
    ensures list[k + 1] !in Loop(tasks, LiveAll(list + extra, id, First(awaits).steps), id, k + 1, Rest(awaits)).stops
  {
    var steps, u := First(awaits).steps, list[k + 1];
    ProperNeverCreated(list, id, awaits, u);
    ProperCleanup(list, id, awaits, step);
    NotBeyond(list, extra, k);
    CleanupShifts(list + extra, id, k, steps, step.task, u);
    PassedNotStopped(tasks, LiveAll(list + extra, id, steps), id, k + 1, Rest(awaits), u);
  }

  lemma ProperCleanup(list: seq<TaskId>, id: ItemId, awaits: seq<Await>, step: Step)
    requires Proper(list, id, awaits) && step in First(awaits).steps && step.CleanUp? && step.task in list
    ensures step == CleanUp(step.task, id)
  {
    var b :| 0 <= b < |First(awaits).steps| && First(awaits).steps[b] == step;
    assert ProperSteps(list, id, awaits[0].steps) && ProperStep(list, id, First(awaits).steps[b]);
  }

  lemma NotBeyond(list: seq<TaskId>, extra: seq<TaskId>, k: nat)
    requires Distinct(list) && Apart(list, extra) && k + 1 < |list|
    ensures list[k + 1] !in From(list + extra, k + 2)
    ensures (list + extra)[..k + 1] == list[..k + 1]
  {
    assert From(list + extra, k + 2) == list[k + 2..] + extra;
    NotLater(list, k + 1);
  }

  /** After a disturbed await, the loop misses a task that is still to come. */
  lemma {:induction false} DisturbedMisses(
      tasks: set<TaskId>, list: seq<TaskId>, extra: seq<TaskId>, id: ItemId, k: nat, step: Step, awaits: seq<Await>)
    returns (j: nat)
    requires Distinct(list) && Apart(list, extra) && k + 1 < |list| && Proper(list, id, awaits)
    requires step in First(awaits).steps && Disturbs(list, id, k, step)
    ensures k < j < |list|
    ensures list[j] !in Loop(StillAll(tasks, First(awaits).steps), LiveAll(list + extra, id, First(awaits).steps), id,
                             k + 1, Rest(awaits)).stops
  {
    var steps := First(awaits).steps;
    var w, cur := StillAll(tasks, steps), LiveAll(list + extra, id, steps);
    if step.task in list[k + 1..] {
      j :| k < j < |list| && list[j] == step.task;
      ProperNeverCreated(list, id, awaits, list[j]);
      StillGone(tasks, steps, list[j]);
      GoneNotStopped(w, cur, id, k + 1, Rest(awaits), list[j]);
    } else {
      j := k + 1;
      assert list == list[..k + 1] + list[k + 1..];
      ShiftedMissed(w, list, extra, id, k, step, awaits);
    }
  }

  lemma RestQuiet(tasks: set<TaskId>, list: seq<TaskId>, id: ItemId, i: nat, awaits: seq<Await>)
    requires i + 1 < |list| && Distinct(list) && Proper(list, id, awaits)
    requires Quiet(list, id, i, First(awaits)) && list[i] in tasks
    ensures Undisturbed(tasks, list, id, i, awaits) <==>
      Undisturbed(StillAll(tasks - {list[i]}, First(awaits).steps), list, id, i + 1, Rest(awaits))
  {
    var steps, rest := First(awaits).steps, Rest(awaits);
    assert ProperSteps(list, id, steps);
    forall j | i + 1 <= j < |list| ensures list[j] in StillAll(tasks - {list[i]}, steps) <==> list[j] in tasks {
      assert list[j] in list[i + 1..] && list[j] != list[i];
      QuietKeepsTasks(list, tasks - {list[i]}, id, i, steps, list[j]);
    }
    forall k | 0 <= k < |rest| && i + 1 + k + 1 < |list|
      ensures Quiet(list, id, i + 1 + k, rest[k]) <==> Quiet(list, id, i + (k + 1), awaits[k + 1])
    {
    }
    if Undisturbed(StillAll(tasks - {list[i]}, steps), list, id, i + 1, rest) {
      forall k | 0 <= k < |awaits| && i + k + 1 < |list| ensures Quiet(list, id, i + k, awaits[k]) {
        if k > 0 { assert Quiet(list, id, i + 1 + (k - 1), rest[k - 1]); }
      }
    }
  }

  lemma AllInNext(list: seq<TaskId>, i: nat, stops: seq<TaskId>)
    requires Distinct(list) && i < |list|
    ensures AllIn(list, i, [list[i]] + stops) <==> AllIn(list, i + 1, stops)
    ensures AllIn(list, i, []) == false
  {
    if AllIn(list, i, [list[i]] + stops) {
      forall j | i + 1 <= j < |list| ensures list[j] in stops { assert list[j] in [list[i]] + stops; }
    }
  }

  /** One round of the loop. */
  lemma Round(tasks: set<TaskId>, list: seq<TaskId>, id: ItemId, i: nat, awaits: seq<Await>)
    requires i < |list| && list[i] in tasks
    ensures Loop(tasks, list, id, i, awaits).stops == [list[i]] +
      if First(awaits).raises then []
      else Loop(StillAll(tasks - {list[i]}, First(awaits).steps), LiveAll(list, id, First(awaits).steps), id, i + 1,
                Rest(awaits)).stops
  {
  }

  lemma NotQuiet(tasks: set<TaskId>, list: seq<TaskId>, id: ItemId, i: nat, awaits: seq<Await>)
    requires i + 1 < |list| && !Quiet(list, id, i, First(awaits))
    ensures !Undisturbed(tasks, list, id, i, awaits)
  {
    assert i + 0 + 1 < |list|;
  }

  lemma QuietCase(
      tasks: set<TaskId>, list: seq<TaskId>, extra: seq<TaskId>, id: ItemId, i: nat, awaits: seq<Await>,
      extra': seq<TaskId>)
    requires Distinct(list) && i + 1 < |list| && Proper(list, id, awaits)
    requires list[i] in tasks && Quiet(list, id, i, First(awaits))
    requires LiveAll(list + extra, id, First(awaits).steps) == list + extra'
    requires var tasks' := StillAll(tasks - {list[i]}, First(awaits).steps);
      AllIn(list, i + 1, Loop(tasks', list + extra', id, i + 1, Rest(awaits)).stops) <==>
        Undisturbed(tasks', list, id, i + 1, Rest(awaits))
    ensures AllIn(list, i, Loop(tasks, list + extra, id, i, awaits).stops) <==> Undisturbed(tasks, list, id, i, awaits)
  {
    var tasks' := StillAll(tasks - {list[i]}, First(awaits).steps);
    RestQuiet(tasks, list, id, i, awaits);
    Round(tasks, list + extra, id, i, awaits);
    AllInNext(list, i, Loop(tasks', list + extra', id, i + 1, Rest(awaits)).stops);
  }

  lemma LoudCase(tasks: set<TaskId>, list: seq<TaskId>, extra: seq<TaskId>, id: ItemId, i: nat, awaits: seq<Await>)
    requires Distinct(list) && Apart(list, extra) && i + 1 < |list| && Proper(list, id, awaits)
    requires list[i] in tasks && !Quiet(list, id, i, First(awaits))
    ensures !AllIn(list, i, Loop(tasks, list + extra, id, i, awaits).stops)
    ensures !Undisturbed(tasks, list, id, i, awaits)
  {
    var during := First(awaits);
    NotQuiet(tasks, list, id, i, awaits);
    Round(tasks, list + extra, id, i, awaits);
    if during.raises {
      AllInNext(list, i, []);
      AllInNext(list, i + 1, []);
    } else {
      var b :| 0 <= b < |during.steps| && Disturbs(list, id, i, during.steps[b]);
      var j := DisturbedMisses(tasks - {list[i]}, list, extra, id, i, during.steps[b], awaits);
      AllInNext(list, i, Loop(tasks, list + extra, id, i, awaits).stops[1..]);
    }
  }

  lemma LastCase(tasks: set<TaskId>, list: seq<TaskId>, extra: seq<TaskId>, id: ItemId, i: nat, awaits: seq<Await>)
    requires i + 1 == |list|
    ensures AllIn(list, i, Loop(tasks, list + extra, id, i, awaits).stops) <==> list[i] in tasks
    ensures Undisturbed(tasks, list, id, i, awaits) <==> list[i] in tasks
  {
  }

  /** The theorem below, from any index on; `extra` are tasks created meanwhile. */
  lemma {:induction false} AllStoppedFrom(
      tasks: set<TaskId>, list: seq<TaskId>, extra: seq<TaskId>, id: ItemId, i: nat, awaits: seq<Await>)
    requires Distinct(list) && Apart(list, extra) && i < |list| && Proper(list, id, awaits)
    ensures AllIn(list, i, Loop(tasks, list + extra, id, i, awaits).stops) <==> Undisturbed(tasks, list, id, i, awaits)
    decreases |list| - i
  {
    if list[i] !in tasks {
      AllInNext(list, i, []);
    } else if i + 1 == |list| {
      LastCase(tasks, list, extra, id, i, awaits);
    } else if Quiet(list, id, i, First(awaits)) {
      assert awaits != [] ==> ProperSteps(list, id, awaits[0].steps);
      var extra' := QuietKeepsList(list, extra, id, i, First(awaits).steps);
      var tasks' := StillAll(tasks - {list[i]}, First(awaits).steps);
      AllStoppedFrom(tasks', list, extra', id, i + 1, Rest(awaits));
      QuietCase(tasks, list, extra, id, i, awaits, extra');
    } else {
      LoudCase(tasks, list, extra, id, i, awaits);
    }
  }

  /**
   `stop_item_tasks` stops every task listed when it starts exactly when each of
   them is still in `tasks` then, and no await before the last one's turn raises,
   stops a task still to come or cleans up a listed one.
   */
  lemma {:induction false} AllStoppedIff(w: Tables, h: History, id: ItemId, awaits: seq<Await>)
    requires Exact(w, h) && Possible(h, StepsOf(awaits))
    ensures var list := Bucket(h.log, h.cleaned, id);
      (forall t :: t in list ==> t in Loop(w.tasks, list, id, 0, awaits).stops) <==>
        Undisturbed(w.tasks, list, id, 0, awaits)
  {
    var list := Bucket(h.log, h.cleaned, id);
    OutstandingMeaning(h.log, if Truthy(id) then h.cleaned else {}, id);
    PossibleIsProper(h, list, id, awaits);
    assert list + [] == list;
    if list != [] { AllStoppedFrom(w.tasks, list, [], id, 0, awaits); }
    var stops := Loop(w.tasks, list, id, 0, awaits).stops;
    assert AllIn(list, 0, stops) <==> forall t :: t in list ==> t in stops;
  }

  lemma {:induction false} PossibleIsProper(h: History, list: seq<TaskId>, id: ItemId, awaits: seq<Await>)
    requires UniqueIds(h.log) && Possible(h, StepsOf(awaits))
    requires forall t :: t in list ==> Created(t, id) in h.log
    ensures Proper(list, id, awaits)
    decreases |awaits|
  {
    if awaits != [] {
      PossibleSplit(h, awaits[0].steps, StepsOf(awaits[1..]));
      PossibleStepsProper(h, list, id, awaits[0].steps);
      PossibleIsProper(Notes(h, awaits[0].steps), list, id, awaits[1..]);
      forall k | 0 <= k < |awaits| ensures ProperSteps(list, id, awaits[k].steps) {
        if k > 0 { assert ProperSteps(list, id, awaits[1..][k - 1].steps); }
      }
    }
  }

  lemma {:induction false} PossibleStepsProper(h: History, list: seq<TaskId>, id: ItemId, steps: seq<Step>)
    requires UniqueIds(h.log) && Possible(h, steps)
    requires forall t :: t in list ==> Created(t, id) in h.log
    ensures ProperSteps(list, id, steps)
    ensures UniqueIds(Notes(h, steps).log) && forall t :: t in list ==> Created(t, id) in Notes(h, steps).log
    decreases |steps|
  {
    if steps != [] {
      var next := Note(h, steps[0]);
      forall c | c in h.log ensures c.task in TaskIds(h.log) {}
      assert ProperStep(list, id, steps[0]) by {
        if steps[0].CleanUp? && steps[0].task in list { SameTaskSameItem(h.log, steps[0].task, id, steps[0].item); }
      }
      PossibleStepsProper(next, list, id, steps[1..]);
      forall k | 0 <= k < |steps| ensures ProperStep(list, id, steps[k]) {
        if k > 0 { assert ProperStep(list, id, steps[1..][k - 1]); }
      }
    }
  }

  // ---------- tasks cleaned up on the way ----------

  function EveryOther(s: seq<TaskId>): seq<TaskId> {
    if s == [] then [] else [s[0]] + if |s| == 1 then [] else EveryOther(s[2..])
  }

  /** One await for each of `s`, in which that task is cleaned up. */
  function Cleanups(s: seq<TaskId>, id: ItemId): (r: seq<Await>)
    ensures |r| == |s|
  {
    seq(|s|, k requires 0 <= k < |s| => Await([CleanUp(s[k], id)], false))
  }

  lemma RemoveAt(s: seq<TaskId>, k: nat)
    requires Distinct(s) && k < |s|
    ensures RemoveFirst(s, s[k]) == s[..k] + s[k + 1..]
  {
    assert s == s[..k] + s[k..] && s[k..][0] == s[k] && s[k..][1..] == s[k + 1..];
    NotLater(s, k);
    RemoveFirstPast(s[..k], s[k..], s[k]);
  }

  lemma StillDistinct(s: seq<TaskId>, k: nat)
    requires Distinct(s) && k < |s|
    ensures Distinct(s[..k] + s[k + 1..])
  {
    var r := s[..k] + s[k + 1..];
    forall i, j | 0 <= i < j < |r| ensures r[i] != r[j] {
      assert r[i] == s[if i < k then i else i + 1] && r[j] == s[if j < k then j else j + 1];
    }
  }

  lemma OneCleanup(tasks: set<TaskId>, list: seq<TaskId>, id: ItemId, k: nat)
    requires Truthy(id) && Distinct(list) && k < |list|
    ensures LiveAll(list, id, [CleanUp(list[k], id)]) == list[..k] + list[k + 1..]
    ensures StillAll(tasks, [CleanUp(list[k], id)]) == tasks - {list[k]}
  {
    RemoveAt(list, k);
    assert [CleanUp(list[k], id)][1..] == [];
  }

  /** One round: while the loop awaits `list[i]`, the listed task at `k` is cleaned up. */
  lemma CleanupRound(tasks: set<TaskId>, list: seq<TaskId>, id: ItemId, i: nat, k: nat, awaits: seq<Await>)
    requires Truthy(id) && Distinct(list) && k < i < |list| && list[i] in tasks
    requires awaits != [] && awaits[0] == Await([CleanUp(list[k], id)], false)
    ensures var rest := Loop(tasks - {list[i]} - {list[k]}, list[..k] + list[k + 1..], id, i + 1, awaits[1..]);
      Loop(tasks, list, id, i, awaits) == Walk([list[i]] + rest.stops, rest.outcome)
  {
    OneCleanup(tasks - {list[i]}, list, id, k);
  }

  lemma CleanupsTail(x: TaskId, s: seq<TaskId>, id: ItemId)
    ensures Cleanups([x] + s, id)[0] == Await([CleanUp(x, id)], false)
    ensures Cleanups([x] + s, id)[1..] == Cleanups(s, id)
  {
  }

  /** What is left of the list, and of the tasks to stop, after one more round. */
  lemma PromptNext(list: seq<TaskId>, i: nat)
    requires Distinct(list) && 2 <= i < |list|
    ensures var next, left := list[..i - 2] + list[i - 2 + 1..], EveryOther(list[i..]);
      && Distinct(next) && |next| == |list| - 1
      && (forall j :: i + 1 <= j < |next| ==> next[j] == list[j + 1])
      && left != [] && left[0] == list[i] && next[i - 1] == list[i]
      && left[1..] == (if i + 1 < |list| then EveryOther(next[i + 1..]) else [])
  {
    var next := list[..i - 2] + list[i - 2 + 1..];
    StillDistinct(list, i - 2);
    if i + 1 < |list| { assert next[i + 1..] == list[i..][2..]; }
  }

  lemma {:induction false} PromptFrom(tasks: set<TaskId>, list: seq<TaskId>, id: ItemId, i: nat)
    requires Truthy(id) && Distinct(list) && 2 <= i <= |list|
    requires forall j :: i <= j < |list| ==> list[j] in tasks
    ensures var left := EveryOther(list[i..]);
      Loop(tasks, list, id, i, Cleanups([list[i - 2]] + left, id)) == Walk(left, AllDone)
    decreases |list| - i
  {
    if i < |list| {
      var left, next := EveryOther(list[i..]), list[..i - 2] + list[i - 2 + 1..];
      PromptNext(list, i);
      CleanupsTail(list[i - 2], left, id);
      CleanupRound(tasks, list, id, i, i - 2, Cleanups([list[i - 2]] + left, id));
      assert left == [list[i]] + left[1..];
      if i + 1 < |list| { PromptFrom(tasks - {list[i]} - {list[i - 2]}, next, id, i + 1); }
    }
  }

  lemma IdleRound(tasks: set<TaskId>, list: seq<TaskId>, id: ItemId, i: nat, awaits: seq<Await>)
    requires i < |list| && list[i] in tasks && awaits != [] && awaits[0] == Await([], false)
    ensures var rest := Loop(tasks - {list[i]}, list, id, i + 1, awaits[1..]);
      Loop(tasks, list, id, i, awaits) == Walk([list[i]] + rest.stops, rest.outcome)
  {
  }

  /** The second round, in which the first task is cleaned up. */
  lemma SecondRound(tasks: set<TaskId>, list: seq<TaskId>, id: ItemId, awaits: seq<Await>, left: seq<TaskId>)
    requires Truthy(id) && Distinct(list) && |list| > 1 && list[1] in tasks
    requires awaits != [] && awaits[0] == Await([CleanUp(list[0], id)], false)
    requires Loop(tasks - {list[1]} - {list[0]}, list[1..], id, 2, awaits[1..]) == Walk(left, AllDone)
    ensures Loop(tasks, list, id, 1, awaits) == Walk([list[1]] + left, AllDone)
  {
    assert list[..0] + list[0 + 1..] == list[1..];
    CleanupRound(tasks, list, id, 1, 0, awaits);
  }

  /** The first round, in which nothing happens meanwhile. */
  lemma FirstRound(tasks: set<TaskId>, list: seq<TaskId>, id: ItemId, awaits: seq<Await>, left: seq<TaskId>)
    requires list != [] && list[0] in tasks && awaits != [] && awaits[0] == Await([], false)
    requires Loop(tasks - {list[0]}, list, id, 1, awaits[1..]) == Walk(left, AllDone)
    ensures Loop(tasks, list, id, 0, awaits) == Walk([list[0]] + left, AllDone)
  {
    IdleRound(tasks, list, id, 0, awaits);
  }

  /**
   When each stopped task is cleaned up while the loop awaits the next one, every
   other task after the second is skipped, although the status is True.
   */
  lemma {:induction false} PromptCleanupSkips(tasks: set<TaskId>, list: seq<TaskId>, id: ItemId)
    requires Truthy(id) && Distinct(list) && |list| > 2 && forall t :: t in list ==> t in tasks
    ensures var stops := [list[0]] + EveryOther(list[1..]);
      Loop(tasks, list, id, 0, [Await([], false)] + Cleanups(stops, id)) == Walk(stops, AllDone)
  {
    var x, y, next, left := list[0], list[1], list[1..], EveryOther(list[3..]);
    assert next[2..] == list[3..];
    assert EveryOther(next) == [y] + left;
    PromptFrom(tasks - {x} - {y} - {x}, next, id, 2);
    var second, first := Cleanups([x] + ([y] + left), id), [Await([], false)] + Cleanups([x] + ([y] + left), id);
    CleanupsTail(x, [y] + left, id);
    SecondRound(tasks - {x}, list, id, second, left);
    assert first[1..] == second;
    FirstRound(tasks, list, id, first, [y] + left);
  }
}
