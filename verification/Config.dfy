/**
 `PersistentConfig` and `AppConfig`: each instance keeps its own tree and values,
 and saves the whole tree to one database row; with Redis, reads go to a shared
 key per setting. JSON encoding and decoding are taken to be inverse.
 */
module Config {
  import opened Wrappers
  import opened ConfigTree

  /** A `PersistentConfig`; `index` is its position in the registry. */
  datatype Item = Item(path: Path, value: Json, configValue: Option<Json>, index: nat)

  /**
   One instance: CONFIG_DATA, the paths of all items in order of construction, and
   the items by attribute name. `pending` is the setting whose row is saved and
   whose shared key is not set yet.
   */
  datatype Instance = Instance(data: Json, registry: seq<Path>, state: map<string, Item>, pending: Option<string>)

  /** A new item: the stored value, if there is one and `persistent` allows it, or else the environment's. */
  function Started(tree: Json, path: Path, envValue: Json, persistent: bool, index: nat): Result<Item> {
    match Lookup(tree, path)
    case Fails => Raise("TypeError")
    case Missing => Ok(Item(path, envValue, None, index))
    case Value(v) =>
      if v == Null then Ok(Item(path, envValue, None, index))
      else Ok(Item(path, if persistent then v else envValue, Some(v), index))
  }

  /** The effect of `update` on one item. */
  function Updated(tree: Json, item: Item): Item {
    match Lookup(tree, item.path)
    case Value(v) => if v != Null then item.(value := v) else item
    case _ => item
  }

  /** Every item is at its place in the registry. */
  ghost predicate Registered(inst: Instance) {
    && (forall key :: key in inst.state ==>
          var item := inst.state[key];
          item.path != [] && item.index < |inst.registry| && inst.registry[item.index] == item.path)
    && (inst.pending.Some? ==> inst.pending.value in inst.state)
  }

  /** The tree that a write saves, or what it raises. */
  function SavedTree(inst: Instance, key: string, value: Json): Result<Json>
    requires Registered(inst)
  {
    if key !in inst.state then Raise("KeyError") else Put(inst.data, inst.state[key].path, value)
  }

  /** A write up to the database row. If the walk of `save` raises, only the in-memory value has changed. */
  function AfterSave(inst: Instance, key: string, value: Json): (after: Instance)
    requires Registered(inst)
    ensures Registered(after)
  {
    if key !in inst.state then inst
    else
      match SavedTree(inst, key, value)
      case Raise(_) => inst.(state := inst.state[key := inst.state[key].(value := value)])
      case Ok(tree) =>
        var item := inst.state[key];
        Instance(tree, inst.registry, inst.state[key := Item(item.path, value, Some(value), item.index)], Some(key))
  }

  /** What reading a setting returns. */
  function Read(inst: Instance, shared: map<string, Json>, key: string): Json
    requires key in inst.state
  {
    if key in shared then shared[key] else inst.state[key].value
  }

  function AfterGet(inst: Instance, shared: map<string, Json>, key: string): (after: Instance)
    requires Registered(inst)
    ensures Registered(after)
  {
    if key in inst.state then
      inst.(state := inst.state[key := inst.state[key].(value := Read(inst, shared, key))])
    else inst
  }

  /** The position of the first item whose lookup raises, or the end. */
  function FirstFailure(tree: Json, registry: seq<Path>): (n: nat)
    ensures n <= |registry|
    ensures forall i :: 0 <= i < n ==> Lookup(tree, registry[i]) != Fails
    ensures n < |registry| ==> Lookup(tree, registry[n]) == Fails
  {
    if registry == [] || Lookup(tree, registry[0]) == Fails then 0 else 1 + FirstFailure(tree, registry[1..])
  }

  /** The items with the first `n` of the registry updated. */
  function Refreshed(tree: Json, state: map<string, Item>, n: nat): map<string, Item> {
    map key | key in state :: if state[key].index < n then Updated(tree, state[key]) else state[key]
  }

  /** `save_config`: a new tree, and updates in registry order up to the first that raises. */
  function AfterImport(inst: Instance, tree: Json): (after: Instance)
    requires Registered(inst)
    ensures Registered(after)
  {
    inst.(data := tree, state := Refreshed(tree, inst.state, FirstFailure(tree, inst.registry)))
  }

  // ---------- one instance ----------

  class Database {
    var row: Option<Json>
    constructor (row: Option<Json>)
      ensures this.row == row
    {
      this.row := row;
    }
  }

  class Redis {
    var store: map<string, Json>
    constructor ()
      ensures store == map[]
    {
      store := map[];
    }
  }

  class AppConfig {
    var data: Json                // CONFIG_DATA
    var registry: seq<Path>       // PERSISTENT_CONFIG_REGISTRY, by path
    var state: map<string, Item>  // the items by attribute name
    ghost var pending: Option<string>
    const database: Database
    const redis: Redis?

    ghost function Now(): Instance
      reads this
    {
      Instance(data, registry, state, pending)
    }

    ghost predicate Valid()
      reads this
    {
      Registered(Now())
    }

    constructor (data: Json, database: Database, redis: Redis?)
      ensures Valid() && Now() == Instance(data, [], map[], None)
      ensures this.database == database && this.redis == redis
    {
      this.data, this.registry, this.state, this.pending := data, [], map[], None;
      this.database, this.redis := database, redis;
    }

    /** Constructing a `PersistentConfig` and setting an attribute to it. */
    method Register(key: string, path: Path, envValue: Json, persistent: bool) returns (r: Result<()>)
      requires Valid() && path != []
      modifies this`registry, this`state
      ensures Valid()
      ensures r == if Lookup(data, path) == Fails then Raise("TypeError") else Ok(())
      ensures r.Raise? ==> Now() == old(Now())
      ensures r.Ok? ==> registry == old(registry) + [path]
      ensures r.Ok? ==>
        var got := Lookup(data, path);
        var stored := if got.Value? && got.value != Null then Some(got.value) else None;
        state == old(state)[key := Item(
          path, if stored.Some? && persistent then stored.value else envValue, stored, |old(registry)|)]
    {
      var item := Started(data, path, envValue, persistent, |registry|);
      if item.Raise? {
        return Raise(item.exception);
      }
      registry := registry + [path];
      state := state[key := item.value];
      return Ok(());
    }

    /** Setting an attribute to a plain value, up to the commit of the database row. */
    method SaveRow(key: string, value: Json) returns (r: Result<()>)
      requires Valid() && pending == None
      modifies this, database
      ensures Valid() && Now() == AfterSave(old(Now()), key, value)
      ensures var saved := SavedTree(old(Now()), key, value);
        && (r.Ok? <==> saved.Ok?) && (r.Raise? ==> r.exception == saved.exception)
        && database.row == if r.Ok? then Some(saved.value) else old(database.row)
    {
      if key !in state {
        return Raise("KeyError");
      }
      var item := state[key];
      state := state[key := item.(value := value)];
      var saved := Put(data, item.path, value);
      if saved.Raise? {
        return Raise(saved.exception);
      }
      data := saved.value;
      database.row := Some(data);
      state := state[key := Item(item.path, value, Some(value), item.index)];
      pending := Some(key);
      return Ok(());
    }

    /** The second half: the shared key gets the value the item has now. */
    method Publish(key: string)
      requires Valid() && pending == Some(key)
      modifies this`pending, redis
      ensures Valid() && Now() == old(Now()).(pending := None)
      ensures redis != null ==> redis.store == old(redis.store)[key := state[key].value]
    {
      if redis != null {
        redis.store := redis.store[key := state[key].value];
      }
      pending := None;
    }

    /** Setting an attribute to a plain value. */
    method Set(key: string, value: Json) returns (r: Result<()>)
      requires Valid() && pending == None
      modifies this, database, redis
      ensures Valid() && Now() == AfterSave(old(Now()), key, value).(pending := None)
      ensures key !in old(state) ==> r == Raise("KeyError")
      ensures key in old(state) ==> (r.Ok? <==> IsOpen(old(data), old(state)[key].path))
      ensures r.Ok? ==> database.row == Some(data) && Lookup(data, state[key].path) == Value(value)
      ensures r.Ok? && redis != null ==> redis.store == old(redis.store)[key := value]
      ensures r.Raise? ==> data == old(data) && database.row == old(database.row)
      ensures r.Raise? && redis != null ==> redis.store == old(redis.store)
    {
      if key in state {
        PutSucceedsIff(data, state[key].path, value);
        if IsOpen(data, state[key].path) { PutThenLookup(data, state[key].path, value); }
      }
      r := SaveRow(key, value);
      if r.Ok? {
        Publish(key);
      }
    }

    /** Reading an attribute; with Redis the shared value wins, and is remembered. */
    method Get(key: string) returns (r: Result<Json>)
      requires Valid() && pending == None
      modifies this`state
      ensures Valid()
      ensures var shared := if redis != null then redis.store else map[];
        && Now() == AfterGet(old(Now()), shared, key)
        && r == if key in old(state) then Ok(Read(old(Now()), shared, key)) else Raise("AttributeError")
    {
      if key !in state {
        return Raise("AttributeError");
      }
      if redis != null && key in redis.store {
        if state[key].value != redis.store[key] {
          state := state[key := state[key].(value := redis.store[key])];
        }
      }
      return Ok(state[key].value);
    }

    /**
     `save_config`: the row, the tree, then `update` on the items in registry order,
     until one's lookup raises. The shared keys are not touched.
     */
    method SaveConfig(config: Json) returns (ok: bool)
      requires Valid() && pending == None
      modifies this`data, this`state, database
      ensures Valid() && Now() == AfterImport(old(Now()), config)
      ensures database.row == Some(config)
      ensures ok <==> forall n :: 0 <= n < |registry| ==> Lookup(config, registry[n]) != Fails
    {
      database.row := Some(config);
      data := config;
      ok, state := UpdateAll(config, registry, state);
      assert Now() == AfterImport(old(Now()), config);
    }
  }

  /** The items at one place of the registry updated. */
  function RefreshedAt(tree: Json, state: map<string, Item>, n: nat): map<string, Item> {
    map key | key in state :: if state[key].index == n then Updated(tree, state[key]) else state[key]
  }

  lemma RefreshNext(tree: Json, before: map<string, Item>, n: nat)
    ensures RefreshedAt(tree, Refreshed(tree, before, n), n) == Refreshed(tree, before, n + 1)
    ensures Refreshed(tree, before, 0) == before
  {
    var done := Refreshed(tree, before, n);
    forall key | key in before ensures key in done && done[key].index == before[key].index {}
  }

  /** The loop over the registry. */
  method UpdateAll(tree: Json, registry: seq<Path>, before: map<string, Item>)
    returns (ok: bool, state: map<string, Item>)
    ensures state == Refreshed(tree, before, FirstFailure(tree, registry))
    ensures ok <==> FirstFailure(tree, registry) == |registry|
  {
    state := before;
    RefreshNext(tree, before, 0);
    for n := 0 to |registry|
      invariant state == Refreshed(tree, before, n) && n <= FirstFailure(tree, registry)
    {
      if Lookup(tree, registry[n]) == Fails {
        return false, state;
      }
      RefreshNext(tree, before, n);
      state := RefreshedAt(tree, state, n);
    }
    ok := true;
  }

  // ---------- restarting ----------

  /**
   Writes survive a restart: an instance that starts from the saved tree begins
   with the last value written to each path, except that the environment's value is
   used for a stored null, and always where persistence is switched off.
   */
  lemma {:induction false} RestartKeepsWrites(
      tree: Json, writes: seq<Write>, paths: set<Path>, p: Path, envValue: Json, persistent: bool)
    requires PrefixFree(paths) && forall q :: q in paths ==> IsOpen(tree, q)
    requires forall i :: 0 <= i < |writes| ==> writes[i].path in paths
    requires p in paths && LastWritten(writes, p).Some?
    ensures forall i :: 0 <= i < |writes| ==> writes[i].path != []
    ensures var v, item := LastWritten(writes, p).value, Started(Apply(tree, writes), p, envValue, persistent, 0);
      && item.Ok? && item.value.path == p
      && item.value.value == if v == Null || !persistent then envValue else v
  {
    WritesKeepTree(tree, writes, paths);
  }

  /**
   The first read of a setting that an instance has just registered: without a
   shared value, the stored one if there is one, it is not null and persistence is
   on, and in every other case the environment's.
   */
  method RegisterThenGet(c: AppConfig, key: string, path: Path, envValue: Json, persistent: bool)
    returns (r: Result<Json>)
    requires c.Valid() && c.pending == None && path != []
    modifies c
    ensures c.Valid()
    ensures var got := Lookup(c.data, path);
      r == if got == Fails then Raise("TypeError")
           else if c.redis != null && key in c.redis.store then Ok(c.redis.store[key])
           else if persistent && got.Value? && got.value != Null then Ok(got.value)
           else Ok(envValue)
  {
    var registered := c.Register(key, path, envValue, persistent);
    if registered.Raise? {
      return Raise(registered.exception);
    }
    r := c.Get(key);
  }

  /**
   A write, and then another instance started on the same database: it reads the
   written value, except that without Redis a stored null gives way to the
   environment.
   */
  method WriteThenRestart(a: AppConfig, key: string, value: Json, envValue: Json)
    returns (b: AppConfig, r: Result<Json>)
    requires a.Valid() && a.pending == None && key in a.state && IsOpen(a.data, a.state[key].path)
    modifies a, a.database, a.redis
    ensures r == Ok(if value == Null && a.redis == null then envValue else value)
  {
    var _ := a.Set(key, value);
    b := new AppConfig(a.database.row.value, a.database, a.redis);
    var _ := b.Register(key, a.state[key].path, envValue, true);
    r := b.Get(key);
  }
}
