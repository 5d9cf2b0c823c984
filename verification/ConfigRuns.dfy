/**
 Any number of configured instances on one database and one Redis. A write is two
 events, the row and then the shared key, and other instances may act in between.
 */
module ConfigRuns {
  import opened Wrappers
  import opened ConfigTree
  import opened Config

  type InstanceId = nat

  /** Instances connected to one Redis and one database. */
  datatype World = World(instances: map<InstanceId, Instance>, row: Option<Json>, redis: map<string, Json>)

  datatype Event =
    | SaveBy(instance: InstanceId, key: string, value: Json)
    | PublishBy(instance: InstanceId)
    | GetBy(instance: InstanceId, key: string)
    | ImportBy(instance: InstanceId, tree: Json)

  ghost predicate WellFormed(w: World) {
    forall i :: i in w.instances ==> Registered(w.instances[i])
  }

  ghost predicate AllIdle(w: World) {
    forall i :: i in w.instances ==> w.instances[i].pending == None
  }

  /** While a write of its own is pending, an instance does nothing else. */
  predicate Enabled(w: World, e: Event) {
    e.instance in w.instances && (w.instances[e.instance].pending.Some? <==> e.PublishBy?)
  }

  /** A write that reaches the database row. */
  ghost predicate Saves(w: World, e: Event)
    requires WellFormed(w)
  {
    e.SaveBy? && Enabled(w, e) && SavedTree(w.instances[e.instance], e.key, e.value).Ok?
  }

  /** A write or an import that reaches the database row. */
  ghost predicate WritesRow(w: World, e: Event)
    requires WellFormed(w)
  {
    Saves(w, e) || (e.ImportBy? && Enabled(w, e))
  }

  /** A write that reaches the shared key. */
  predicate Publishes(w: World, e: Event, key: string) {
    e.PublishBy? && Enabled(w, e) && w.instances[e.instance].pending == Some(key)
  }

  /** The effect of `SaveRow`, `Publish`, `Get` or `SaveConfig` on an instance. */
  function Next(w: World, e: Event): (w': World)
    requires WellFormed(w)
    ensures WellFormed(w')
  {
    if !Enabled(w, e) then w
    else
      var inst := w.instances[e.instance];
      match e
      case SaveBy(i, key, value) =>
        var saved := SavedTree(inst, key, value);
        w.(instances := w.instances[i := AfterSave(inst, key, value)],
           row := if saved.Ok? then Some(saved.value) else w.row)
      case PublishBy(i) =>
        var key := inst.pending.value;
        w.(instances := w.instances[i := inst.(pending := None)], redis := w.redis[key := inst.state[key].value])
      case GetBy(i, key) => w.(instances := w.instances[i := AfterGet(inst, w.redis, key)])
      case ImportBy(i, tree) => w.(instances := w.instances[i := AfterImport(inst, tree)], row := Some(tree))
  }

  ghost function Exec(w: World, run: seq<Event>): (w': World)
    requires WellFormed(w)
    ensures WellFormed(w')
  {
    if run == [] then w else Next(Exec(w, run[..|run| - 1]), run[|run| - 1])
  }

  /** The value of the last write by `i` that reached the row. */
  ghost function LastSaved(w: World, run: seq<Event>, i: InstanceId): Option<Json>
    requires WellFormed(w)
  {
    if run == [] then None
    else
      var before, e := run[..|run| - 1], run[|run| - 1];
      if e.instance == i && Saves(Exec(w, before), e) then Some(e.value) else LastSaved(w, before, i)
  }

  /** The value of the last write of a setting to complete, by any instance. */
  ghost function LastCompleted(w: World, run: seq<Event>, key: string): Option<Json>
    requires WellFormed(w)
  {
    if run == [] then None
    else
      var before, e := run[..|run| - 1], run[|run| - 1];
      if Publishes(Exec(w, before), e, key) then LastSaved(w, before, e.instance) else LastCompleted(w, before, key)
  }

  ghost predicate SameSettings(a: Instance, b: Instance) {
    a.registry == b.registry && forall key :: && (key in a.state <==> key in b.state)
                                              && (key in a.state ==> a.state[key].path == b.state[key].path)
  }

  lemma SavedSettings(inst: Instance, key: string, value: Json)
    requires Registered(inst)
    ensures SameSettings(AfterSave(inst, key, value), inst)
  {
  }

  lemma ReadSettings(inst: Instance, shared: map<string, Json>, key: string)
    requires Registered(inst)
    ensures SameSettings(AfterGet(inst, shared, key), inst)
  {
  }

  lemma ImportedSettings(inst: Instance, tree: Json)
    requires Registered(inst)
    ensures SameSettings(AfterImport(inst, tree), inst)
  {
  }

  /** What one event changes: settings never, other instances never, trees and the row only when it is saved. */
  lemma NextChanges(w: World, e: Event)
    requires WellFormed(w)
    ensures Next(w, e).instances.Keys == w.instances.Keys
    ensures forall j :: j in w.instances && j != e.instance ==> Next(w, e).instances[j] == w.instances[j]
    ensures e.instance in w.instances ==> SameSettings(Next(w, e).instances[e.instance], w.instances[e.instance])
    ensures WritesRow(w, e) ==>
      e.instance in w.instances && Next(w, e).row == Some(Next(w, e).instances[e.instance].data)
    ensures !WritesRow(w, e) ==> Next(w, e).row == w.row
    ensures !WritesRow(w, e) && e.instance in w.instances ==>
      Next(w, e).instances[e.instance].data == w.instances[e.instance].data
  {
    if Enabled(w, e) {
      var inst := w.instances[e.instance];
      match e
      case SaveBy(_, key, value) => SavedSettings(inst, key, value);
      case PublishBy(_) =>
      case GetBy(_, key) => ReadSettings(inst, w.redis, key);
      case ImportBy(_, tree) => ImportedSettings(inst, tree);
    }
  }

  lemma SameSettingsTwice(a: Instance, b: Instance, c: Instance)
    requires SameSettings(a, b) && SameSettings(b, c)
    ensures SameSettings(a, c)
  {
  }

  lemma {:induction false} SettingsStay(w: World, run: seq<Event>, i: InstanceId)
    requires WellFormed(w)
    ensures i in Exec(w, run).instances <==> i in w.instances
    ensures i in w.instances ==> SameSettings(Exec(w, run).instances[i], w.instances[i])
  {
    if run != [] {
      var before, e := Exec(w, run[..|run| - 1]), run[|run| - 1];
      SettingsStay(w, run[..|run| - 1], i);
      NextChanges(before, e);
      if i in w.instances { SameSettingsTwice(Next(before, e).instances[i], before.instances[i], w.instances[i]); }
    }
  }

  /** After an event of its own, an instance has a write pending only if that event was the write. */
  lemma NextPending(w: World, e: Event)
    requires WellFormed(w) && Enabled(w, e)
    ensures e.instance in Next(w, e).instances
    ensures var inst := Next(w, e).instances[e.instance];
      inst.pending.Some? ==>
        Saves(w, e) && inst.pending == Some(e.key) && e.key in inst.state && inst.state[e.key].value == e.value
  {
  }

  /** Until it is published, a saved value stays the instance's value, whatever the others do. */
  lemma {:induction false} PendingHolds(w: World, run: seq<Event>, i: InstanceId)
    requires WellFormed(w) && AllIdle(w) && i in w.instances
    ensures i in Exec(w, run).instances
    ensures var inst := Exec(w, run).instances[i];
      inst.pending.Some? ==> LastSaved(w, run, i) == Some(inst.state[inst.pending.value].value)
  {
    SettingsStay(w, run, i);
    if run != [] {
      var before, e := Exec(w, run[..|run| - 1]), run[|run| - 1];
      PendingHolds(w, run[..|run| - 1], i);
      NextChanges(before, e);
      if e.instance == i && Enabled(before, e) { NextPending(before, e); }
    }
  }

  /** The shared key holds the value of the last write to complete. */
  lemma {:induction false} SharedIsLastCompleted(w: World, run: seq<Event>, key: string)
    requires WellFormed(w) && AllIdle(w)
    ensures key in Exec(w, run).redis <==> LastCompleted(w, run, key).Some? || key in w.redis
    ensures LastCompleted(w, run, key).Some? ==> Exec(w, run).redis[key] == LastCompleted(w, run, key).value
    ensures LastCompleted(w, run, key).None? && key in w.redis ==> Exec(w, run).redis[key] == w.redis[key]
  {
    if run != [] {
      var before, e := run[..|run| - 1], run[|run| - 1];
      SharedIsLastCompleted(w, before, key);
      SettingsStay(w, before, e.instance);
      if Publishes(Exec(w, before), e, key) { PendingHolds(w, before, e.instance); }
    }
  }

  /**
   After any run over any instances, with writes interleaved in every way, reading
   a setting on any instance returns the value of the last write to complete.
   */
  lemma {:induction false} ReadsSeeLastWrite(w: World, run: seq<Event>, i: InstanceId, key: string)
    requires WellFormed(w) && AllIdle(w) && i in w.instances && key in w.instances[i].state
    ensures i in Exec(w, run).instances && key in Exec(w, run).instances[i].state
    ensures LastCompleted(w, run, key).Some? ==>
      Read(Exec(w, run).instances[i], Exec(w, run).redis, key) == LastCompleted(w, run, key).value
    ensures LastCompleted(w, run, key).None? && key in w.redis ==>
      Read(Exec(w, run).instances[i], Exec(w, run).redis, key) == w.redis[key]
  {
    SettingsStay(w, run, i);
    SharedIsLastCompleted(w, run, key);
  }

  /** All instances agree on a setting once a write of it has completed. */
  lemma {:induction false} InstancesAgree(w: World, run: seq<Event>, i: InstanceId, j: InstanceId, key: string)
    requires WellFormed(w) && AllIdle(w) && LastCompleted(w, run, key).Some?
    requires i in w.instances && key in w.instances[i].state
    requires j in w.instances && key in w.instances[j].state
    ensures i in Exec(w, run).instances && key in Exec(w, run).instances[i].state
    ensures j in Exec(w, run).instances && key in Exec(w, run).instances[j].state
    ensures Read(Exec(w, run).instances[i], Exec(w, run).redis, key) ==
      Read(Exec(w, run).instances[j], Exec(w, run).redis, key)
  {
    ReadsSeeLastWrite(w, run, i, key);
    ReadsSeeLastWrite(w, run, j, key);
  }

  /** The instance that last saved the row. */
  ghost function LastSaver(w: World, run: seq<Event>): Option<InstanceId>
    requires WellFormed(w)
  {
    if run == [] then None
    else
      var before, e := run[..|run| - 1], run[|run| - 1];
      if WritesRow(Exec(w, before), e) then Some(e.instance) else LastSaver(w, before)
  }

  /** The database row is the whole tree of whichever instance saved it last, and nothing else. */
  lemma {:induction false} RowIsLastSaversTree(w: World, run: seq<Event>)
    requires WellFormed(w)
    ensures LastSaver(w, run).Some? ==>
      LastSaver(w, run).value in Exec(w, run).instances &&
      Exec(w, run).row == Some(Exec(w, run).instances[LastSaver(w, run).value].data)
    ensures LastSaver(w, run).None? ==> Exec(w, run).row == w.row
  {
    if run != [] {
      RowIsLastSaversTree(w, run[..|run| - 1]);
      NextChanges(Exec(w, run[..|run| - 1]), run[|run| - 1]);
    }
  }

  // ---------- which writes the row holds ----------

  /** No item's path leads through another's. */
  ghost predicate PathsApart(inst: Instance) {
    forall a, b :: a in inst.state && b in inst.state && a != b ==> Apart(inst.state[a].path, inst.state[b].path)
  }

  /**
   What `i` itself last put at the path of one of its settings: the value of its
   last write of it that reached the row, or what a later import had there, or
   what its tree had at the start.
   */
  ghost function LastPut(w: World, run: seq<Event>, i: InstanceId, key: string): Got
    requires WellFormed(w) && i in w.instances && key in w.instances[i].state
  {
    if run == [] then Lookup(w.instances[i].data, w.instances[i].state[key].path)
    else
      var before, e := run[..|run| - 1], run[|run| - 1];
      if e.instance != i || !WritesRow(Exec(w, before), e) then LastPut(w, before, i, key)
      else if e.ImportBy? then Lookup(e.tree, w.instances[i].state[key].path)
      else if e.key == key then Value(e.value)
      else LastPut(w, before, i, key)
  }

  lemma SaveElsewhere(inst: Instance, key: string, value: Json, other: string)
    requires Registered(inst) && SavedTree(inst, key, value).Ok? && other in inst.state
    ensures key in inst.state
    ensures other == key ==> Lookup(SavedTree(inst, key, value).value, inst.state[other].path) == Value(value)
    ensures other != key && PathsApart(inst) ==>
      Lookup(SavedTree(inst, key, value).value, inst.state[other].path) == Lookup(inst.data, inst.state[other].path)
  {
    PutThenLookup(inst.data, inst.state[key].path, value);
    if other != key && PathsApart(inst) {
      PutElsewhere(inst.data, inst.state[key].path, value, inst.state[other].path);
    }
  }

  lemma PathsStayApart(a: Instance, b: Instance)
    requires SameSettings(a, b) && PathsApart(b)
    ensures PathsApart(a)
  {
  }

  /** An instance's tree holds its own last writes, whatever the others write. */
  lemma {:induction false} TreeHoldsLastPut(w: World, run: seq<Event>, i: InstanceId, key: string)
    requires WellFormed(w) && i in w.instances && key in w.instances[i].state && PathsApart(w.instances[i])
    ensures i in Exec(w, run).instances
    ensures Lookup(Exec(w, run).instances[i].data, w.instances[i].state[key].path) == LastPut(w, run, i, key)
  {
    SettingsStay(w, run, i);
    if run != [] {
      var before, e := run[..|run| - 1], run[|run| - 1];
      TreeHoldsLastPut(w, before, i, key);
      SettingsStay(w, before, i);
      NextChanges(Exec(w, before), e);
      var inst := Exec(w, before).instances[i];
      PathsStayApart(inst, w.instances[i]);
      if e.instance == i && Saves(Exec(w, before), e) { SaveElsewhere(inst, e.key, e.value, key); }
    }
  }

  /**
   The row holds the last completed write of a setting exactly when that value is
   also what the instance that saved the row last has itself last put there.
   */
  lemma {:induction false} RowHoldsIff(w: World, run: seq<Event>, i: InstanceId, key: string)
    requires WellFormed(w) && i in w.instances && key in w.instances[i].state && PathsApart(w.instances[i])
    requires LastSaver(w, run) == Some(i) && LastCompleted(w, run, key).Some?
    ensures Exec(w, run).row.Some?
    ensures var x := Value(LastCompleted(w, run, key).value);
      Lookup(Exec(w, run).row.value, w.instances[i].state[key].path) == x <==> LastPut(w, run, i, key) == x
  {
    RowIsLastSaversTree(w, run);
    TreeHoldsLastPut(w, run, i, key);
  }

  /** Every event is an own one, and none an import. */
  ghost predicate Alone(run: seq<Event>, i: InstanceId) {
    forall k :: 0 <= k < |run| ==> run[k].instance == i && !run[k].ImportBy?
  }

  lemma {:induction false} AlonePut(w: World, run: seq<Event>, i: InstanceId, key: string)
    requires WellFormed(w) && AllIdle(w) && i in w.instances && key in w.instances[i].state && Alone(run, i)
    ensures i in Exec(w, run).instances
    ensures LastCompleted(w, run, key).Some? ==> LastSaver(w, run) == Some(i)
    ensures var pending := Exec(w, run).instances[i].pending;
      && (pending.Some? ==> LastSaver(w, run) == Some(i))
      && (pending == Some(key) ==>
            LastSaved(w, run, i).Some? && LastPut(w, run, i, key) == Value(LastSaved(w, run, i).value))
      && (pending != Some(key) && LastCompleted(w, run, key).Some? ==>
            LastPut(w, run, i, key) == Value(LastCompleted(w, run, key).value))
  {
    SettingsStay(w, run, i);
    if run != [] {
      var before := run[..|run| - 1];
      AlonePut(w, before, i, key);
      assert run[|run| - 1].instance == i && !run[|run| - 1].ImportBy?;
    }
  }

  /** On a single instance without imports, once no write is pending, the row holds every completed write. */
  lemma {:induction false} RowHoldsAlone(w: World, run: seq<Event>, i: InstanceId, key: string)
    requires WellFormed(w) && AllIdle(w)
    requires i in w.instances && key in w.instances[i].state && PathsApart(w.instances[i])
    requires Alone(run, i) && i in Exec(w, run).instances && Exec(w, run).instances[i].pending == None
    requires LastCompleted(w, run, key).Some?
    ensures Exec(w, run).row.Some?
    ensures Lookup(Exec(w, run).row.value, w.instances[i].state[key].path) == Value(LastCompleted(w, run, key).value)
  {
    AlonePut(w, run, i, key);
    RowHoldsIff(w, run, i, key);
  }

  /**
   After an import, the importing instance reads the imported value exactly when the
   shared key agrees with it or is not set and the item was updated (or held it
   before); everybody else reads what they read before.
   */
  lemma ImportShownIff(w: World, i: InstanceId, tree: Json, key: string, v: Json)
    requires WellFormed(w) && i in w.instances && w.instances[i].pending == None && key in w.instances[i].state
    requires Lookup(tree, w.instances[i].state[key].path) == Value(v) && v != Null
    ensures var inst, w' := w.instances[i], Next(w, ImportBy(i, tree));
      && (Read(w'.instances[i], w'.redis, key) == v <==>
            if key in w.redis then w.redis[key] == v
            else inst.state[key].index < FirstFailure(tree, inst.registry) || inst.state[key].value == v)
      && forall j, k :: j in w.instances && j != i && k in w.instances[j].state ==>
           Read(w'.instances[j], w'.redis, k) == Read(w.instances[j], w.redis, k)
  {
  }

  // ---------- how the row and the shared keys come apart ----------

  lemma ExecOne(w: World, run: seq<Event>, e: Event)
    requires WellFormed(w)
    ensures Exec(w, run + [e]) == Next(Exec(w, run), e)
  {
    assert (run + [e])[..|run|] == run;
  }

  /** The instance can save the setting to a path that is open in its tree. */
  ghost predicate CanSave(w: World, i: InstanceId, key: string) {
    && i in w.instances && w.instances[i].pending == None && key in w.instances[i].state
    && IsOpen(w.instances[i].data, w.instances[i].state[key].path)
  }

  lemma SaveNow(w: World, i: InstanceId, key: string, value: Json)
    requires WellFormed(w) && CanSave(w, i, key)
    ensures var w1, path := Next(w, SaveBy(i, key, value)), w.instances[i].state[key].path;
      && w1.instances == w.instances[i := w1.instances[i]] && w1.redis == w.redis
      && w1.instances[i].pending == Some(key)
      && key in w1.instances[i].state && w1.instances[i].state[key].value == value
      && (forall k :: k in w1.instances[i].state <==> k in w.instances[i].state)
      && w1.row.Some? && Lookup(w1.row.value, path) == Value(value)
      && forall q :: Apart(path, q) ==> Lookup(w1.row.value, q) == Lookup(w.instances[i].data, q)
  {
    var inst := w.instances[i];
    PutSucceedsIff(inst.data, inst.state[key].path, value);
    PutThenLookup(inst.data, inst.state[key].path, value);
    forall q | Apart(inst.state[key].path, q)
      ensures Lookup(Put(inst.data, inst.state[key].path, value).value, q) == Lookup(inst.data, q)
    {
      PutElsewhere(inst.data, inst.state[key].path, value, q);
    }
  }

  /**
   Two instances write one setting, each waiting for the other between its two
   steps: every read returns the first one's value, and the row keeps the second's.
   */
  lemma {:induction false} StoresDisagree(w: World, i: InstanceId, j: InstanceId, key: string, x: Json, y: Json)
    requires WellFormed(w) && i != j && CanSave(w, i, key) && CanSave(w, j, key)
    ensures var w4 := Exec(w, [SaveBy(i, key, x), SaveBy(j, key, y), PublishBy(j), PublishBy(i)]);
      && (forall k :: k in w4.instances && key in w4.instances[k].state ==> Read(w4.instances[k], w4.redis, key) == x)
      && w4.row.Some? && Lookup(w4.row.value, w.instances[j].state[key].path) == Value(y)
  {
    SaveNow(w, i, key, x);
    var w1 := Next(w, SaveBy(i, key, x));
    SaveNow(w1, j, key, y);
    var w2 := Next(w1, SaveBy(j, key, y));
    var w3 := Next(w2, PublishBy(j));
    ExecFour(w, SaveBy(i, key, x), SaveBy(j, key, y), PublishBy(j), PublishBy(i));
    assert Next(w3, PublishBy(i)).redis[key] == x;
  }

  lemma ExecFour(w: World, a: Event, b: Event, c: Event, d: Event)
    requires WellFormed(w)
    ensures Exec(w, [a, b, c, d]) == Next(Next(Next(Next(w, a), b), c), d)
  {
    ExecOne(w, [], a);
    ExecOne(w, [a], b);
    ExecOne(w, [a, b], c);
    ExecOne(w, [a, b, c], d);
    assert [] + [a] == [a] && [a] + [b] == [a, b] && [a, b] + [c] == [a, b, c] && [a, b, c] + [d] == [a, b, c, d];
  }

  /**
   Two instances, one after the other, each write a setting of its own: both
   settings read correctly everywhere, yet the row has lost the first one.
   */
  lemma {:induction false} RowLosesWrites(
      w: World, i: InstanceId, j: InstanceId, a: string, b: string, x: Json, y: Json)
    requires WellFormed(w) && i != j && a != b && CanSave(w, i, a) && CanSave(w, j, b)
    requires a in w.instances[j].state
    requires var p, q := w.instances[i].state[a].path, w.instances[j].state[b].path;
      Apart(q, p) && Lookup(w.instances[j].data, p) == Missing
    ensures var w4 := Exec(w, [SaveBy(i, a, x), PublishBy(i), SaveBy(j, b, y), PublishBy(j)]);
      && j in w4.instances && a in w4.instances[j].state && Read(w4.instances[j], w4.redis, a) == x
      && w4.row.Some? && Lookup(w4.row.value, w.instances[i].state[a].path) == Missing
  {
    SaveAndPublish(w, i, a, x);
    var w2 := Next(Next(w, SaveBy(i, a, x)), PublishBy(i));
    SaveAndPublish(w2, j, b, y);
    ExecFour(w, SaveBy(i, a, x), PublishBy(i), SaveBy(j, b, y), PublishBy(j));
  }

  lemma SaveAndPublish(w: World, i: InstanceId, key: string, value: Json)
    requires WellFormed(w) && CanSave(w, i, key)
    ensures var w2, path := Next(Next(w, SaveBy(i, key, value)), PublishBy(i)), w.instances[i].state[key].path;
      && i in w2.instances && w2.instances == w.instances[i := w2.instances[i]] && w2.redis == w.redis[key := value]
      && (forall k :: k in w2.instances[i].state <==> k in w.instances[i].state)
      && w2.row.Some? && forall q :: Apart(path, q) ==> Lookup(w2.row.value, q) == Lookup(w.instances[i].data, q)
  {
    SaveNow(w, i, key, value);
  }
}
