/**
 * Reference-counted sharing of key-value stores: every request for the
 * same (path, map name, compression) triple returns the same instance, and
 * the underlying store is opened by the first request and closed by the
 * close that brings the instance's count back to zero.
 *
 * Instances are identified by their position in `instances`; callers hold
 * these identities the way the program's callers hold object references.
 */
module SharedMVMap {
  import opened Wrappers

  /** The registry key of a store: path, map name and compression flag, separated by "##". */
  function Key(path: string, mapName: string, compress: bool): (k: string)
    ensures |k| >= |path| + 2 && k[..|path|] == path && k[|path|..|path| + 2] == "##"
  {
    path + "##" + mapName + "##" + (if compress then "true" else "false")
  }

  /** One shared instance: its key, its instance count and whether its store is open. */
  datatype Instance = Instance(key: string, count: int, storeOpen: bool)

  /** What happens to the stores underneath, in order. */
  datatype StoreEvent = Opened(id: nat) | Closed(id: nat)

  /**
   * `shared` maps a key to the instance currently handed out for it;
   * `instances` holds every instance ever created, including evicted ones.
   */
  datatype Registry = Registry(shared: map<string, nat>, instances: seq<Instance>, log: seq<StoreEvent>)

  datatype OpenError = OpenFailed

  datatype Created = Created(registry: Registry, id: nat)

  const Empty := Registry(map[], [], [])

  /**
   * The registry invariant: a key maps to a live instance with that key and
   * a positive count; an instance's store is open exactly while its count
   * is positive; and an instance with a positive count is the one its key
   * maps to.
   */
  predicate Valid(reg: Registry) {
    && (forall k | k in reg.shared ::
          reg.shared[k] < |reg.instances| && reg.instances[reg.shared[k]].key == k
          && reg.instances[reg.shared[k]].count >= 1)
    && (forall id | 0 <= id < |reg.instances| ::
          reg.instances[id].storeOpen <==> reg.instances[id].count >= 1)
    && (forall id | 0 <= id < |reg.instances| && reg.instances[id].count >= 1 ::
          reg.instances[id].key in reg.shared && reg.shared[reg.instances[id].key] == id)
  }

  /**
   * Returns the instance for the key, creating it (and opening its store)
   * if there is none, and counts one more user. `opens` says whether
   * opening the store succeeds; when it fails the registry is unchanged.
   */
  function Create(reg: Registry, path: string, mapName: string, compress: bool, opens: bool)
    : (r: Result<Created, OpenError>)
    requires Valid(reg)
    ensures var k := Key(path, mapName, compress);
      r.Err? <==> k !in reg.shared && !opens
    ensures var k := Key(path, mapName, compress);
      r.Ok? && k in reg.shared ==>
        && r.value.id == reg.shared[k]
        && r.value.registry.shared == reg.shared
        && |r.value.registry.instances| == |reg.instances|
        && r.value.registry.instances[r.value.id] ==
             reg.instances[r.value.id].(count := reg.instances[r.value.id].count + 1)
        && (forall j | 0 <= j < |reg.instances| && j != r.value.id ::
              r.value.registry.instances[j] == reg.instances[j])
        && r.value.registry.log == reg.log
    ensures var k := Key(path, mapName, compress);
      r.Ok? && k !in reg.shared ==>
        && r.value.id == |reg.instances|
        && r.value.registry.shared == reg.shared[k := r.value.id]
        && r.value.registry.instances == reg.instances + [Instance(k, 1, true)]
        && r.value.registry.log == reg.log + [Opened(r.value.id)]
    ensures r.Ok? ==> Valid(r.value.registry) && r.value.registry.instances[r.value.id].key == Key(path, mapName, compress)
  {
    var k := Key(path, mapName, compress);
    if k in reg.shared then
      var id := reg.shared[k];
      var inst := reg.instances[id];
      var reg' := reg.(instances := reg.instances[id := inst.(count := inst.count + 1)]);
      IncrementKeepsValid(reg, id);
      Ok(Created(reg', id))
    else if !opens then
      Err(OpenFailed)
    else
      var id := |reg.instances|;
      var reg' := Registry(reg.shared[k := id], reg.instances + [Instance(k, 1, true)], reg.log + [Opened(id)]);
      InsertKeepsValid(reg, k);
      Ok(Created(reg', id))
  }

  lemma IncrementKeepsValid(reg: Registry, id: nat)
    requires Valid(reg) && id < |reg.instances| && reg.instances[id].count >= 1
    ensures var inst := reg.instances[id];
      Valid(reg.(instances := reg.instances[id := inst.(count := inst.count + 1)]))
  {
  }

  lemma InsertKeepsValid(reg: Registry, k: string)
    requires Valid(reg) && k !in reg.shared
    ensures var id := |reg.instances|;
      Valid(Registry(reg.shared[k := id], reg.instances + [Instance(k, 1, true)], reg.log + [Opened(id)]))
  {
    var id := |reg.instances|;
    var r := Registry(reg.shared[k := id], reg.instances + [Instance(k, 1, true)], reg.log + [Opened(id)]);
    forall j | 0 <= j < |r.instances| && r.instances[j].count >= 1
      ensures r.instances[j].key in r.shared && r.shared[r.instances[j].key] == j
    {
      if j < id {
        assert r.instances[j] == reg.instances[j];
      }
    }
  }

  /**
   * One user of instance `id` is done with it. The close that brings the
   * count to zero closes the store and evicts the instance; further closes
   * only lower the count.
   */
  function Close(reg: Registry, id: nat): (r: Registry)
    requires Valid(reg) && id < |reg.instances|
    ensures Valid(r)
    ensures |r.instances| == |reg.instances|
    ensures r.instances[id].key == reg.instances[id].key
    ensures r.instances[id].count == reg.instances[id].count - 1
    ensures forall j | 0 <= j < |r.instances| && j != id :: r.instances[j] == reg.instances[j]
    ensures reg.instances[id].count == 1 ==>
      && !r.instances[id].storeOpen
      && r.shared.Keys == reg.shared.Keys - {reg.instances[id].key}
      && (forall k | k in r.shared :: r.shared[k] == reg.shared[k])
      && r.log == reg.log + [Closed(id)]
    ensures reg.instances[id].count != 1 ==>
      r.shared == reg.shared && r.log == reg.log && r.instances[id].storeOpen == reg.instances[id].storeOpen
  {
    var inst := reg.instances[id];
    var count := inst.count - 1;
    if count == 0 then
      Registry(reg.shared - {inst.key}, reg.instances[id := Instance(inst.key, 0, false)], reg.log + [Closed(id)])
    else
      reg.(instances := reg.instances[id := inst.(count := count)])
  }

  /** The empty registry is valid. */
  lemma EmptyValid()
    ensures Valid(Empty) && Empty.shared == map[]
  {
  }

  /** At most one open store per key. */
  lemma OneOpenStorePerKey(reg: Registry, i: nat, j: nat)
    requires Valid(reg) && i < |reg.instances| && j < |reg.instances|
    requires reg.instances[i].storeOpen && reg.instances[j].storeOpen
    requires reg.instances[i].key == reg.instances[j].key
    ensures i == j
  {
  }

  /**
   * The eviction done by a close only ever removes the closing instance's
   * own entry: the key it removes maps to that very instance.
   */
  lemma CloseEvictsOnlyItself(reg: Registry, id: nat)
    requires Valid(reg) && id < |reg.instances| && reg.instances[id].count == 1
    ensures reg.instances[id].key in reg.shared && reg.shared[reg.instances[id].key] == id
  {
  }

  /** Closing an instance that was already evicted touches neither the registry's map nor any store. */
  lemma OverCloseHarmless(reg: Registry, id: nat)
    requires Valid(reg) && id < |reg.instances| && !reg.instances[id].storeOpen
    ensures var r := Close(reg, id);
      r.shared == reg.shared && r.log == reg.log && !r.instances[id].storeOpen
  {
  }

  /** Create and close leave the entries of all other keys alone. */
  lemma OtherKeysUnaffected(reg: Registry, path: string, mapName: string, compress: bool, opens: bool, id: nat, k: string)
    requires Valid(reg) && id < |reg.instances|
    requires k != Key(path, mapName, compress) && k != reg.instances[id].key
    ensures var c := Create(reg, path, mapName, compress, opens);
      c.Ok? ==>
        && (k in c.value.registry.shared <==> k in reg.shared)
        && (k in reg.shared ==> c.value.registry.shared[k] == reg.shared[k])
    ensures var r := Close(reg, id);
      (k in r.shared <==> k in reg.shared) && (k in reg.shared ==> r.shared[k] == reg.shared[k])
  {
  }

  /** The key is a function of its triple alone: for a fixed path it determines the map name and the flag. */
  lemma KeyDeterminesMapAndFlag(path: string, m1: string, c1: bool, m2: string, c2: bool)
    requires Key(path, m1, c1) == Key(path, m2, c2)
    ensures m1 == m2 && c1 == c2
  {
    var k := Key(path, m1, c1);
    var b1 := if c1 then "true" else "false";
    var b2 := if c2 then "true" else "false";
    // the last but one character tells the flags apart: 'u' of "true", 's' of "false"
    assert k == (path + "##" + m1 + "##") + b1;
    assert k == (path + "##" + m2 + "##") + b2;
    assert k[|k| - 2] == b1[|b1| - 2] && k[|k| - 2] == b2[|b2| - 2];
    assert c1 == c2;
    assert m1 == k[|path| + 2..|path| + 2 + |m1|];
    assert m2 == k[|path| + 2..|path| + 2 + |m2|];
  }

  /**
   * Across different paths the key is not injective: "##" inside a path or
   * a map name is not escaped, so two different triples can share a key
   * and hence a store.
   */
  lemma KeysOfDifferentTriplesCollide(compress: bool)
    ensures Key("a##b", "c", compress) == Key("a", "b##c", compress)
  {
    assert "a##b" + "##" + "c" + "##" == "a" + "##" + "b##c" + "##";
  }

  /** `n` successive successful requests for the same triple. */
  function CreateMany(reg: Registry, path: string, mapName: string, compress: bool, n: nat): (r: Created)
    requires Valid(reg)
    requires n >= 1
    ensures Valid(r.registry) && r.id < |r.registry.instances|
    decreases n
  {
    var c := Create(reg, path, mapName, compress, true).value;
    if n == 1 then c else CreateMany(c.registry, path, mapName, compress, n - 1)
  }

  /** `n` successive closes of instance `id`. */
  function CloseMany(reg: Registry, id: nat, n: nat): (r: Registry)
    requires Valid(reg) && id < |reg.instances|
    ensures Valid(r) && |r.instances| == |reg.instances|
    decreases n
  {
    if n == 0 then reg else Close(CloseMany(reg, id, n - 1), id)
  }

  /** Requests for a key that is already shared hand out the same instance and only raise its count. */
  lemma {:induction false} CreateManyShared(reg: Registry, path: string, mapName: string, compress: bool, n: nat)
    requires Valid(reg) && n >= 1 && Key(path, mapName, compress) in reg.shared
    ensures var id := reg.shared[Key(path, mapName, compress)];
      var r := CreateMany(reg, path, mapName, compress, n);
      && r.id == id
      && r.registry.shared == reg.shared && r.registry.log == reg.log
      && |r.registry.instances| == |reg.instances|
      && r.registry.instances[id] == reg.instances[id].(count := reg.instances[id].count + n)
    decreases n
  {
    var c := Create(reg, path, mapName, compress, true).value;
    if n > 1 {
      CreateManyShared(c.registry, path, mapName, compress, n - 1);
    }
  }

  /** Repeated requests for a shared key leave every other instance as it was. */
  lemma {:induction false} CreateManySharedFrame(reg: Registry, path: string, mapName: string, compress: bool, n: nat)
    requires Valid(reg) && n >= 1 && Key(path, mapName, compress) in reg.shared
    ensures var id := reg.shared[Key(path, mapName, compress)];
      var r := CreateMany(reg, path, mapName, compress, n);
      && |r.registry.instances| == |reg.instances|
      && forall j | 0 <= j < |reg.instances| && j != id :: r.registry.instances[j] == reg.instances[j]
    decreases n
  {
    var c := Create(reg, path, mapName, compress, true).value;
    if n > 1 {
      CreateManySharedFrame(c.registry, path, mapName, compress, n - 1);
    }
  }

  /** Closes that leave the count positive change nothing but the count. */
  lemma {:induction false} CloseManyKeepsOpen(reg: Registry, id: nat, n: nat)
    requires Valid(reg) && id < |reg.instances| && reg.instances[id].count > n
    ensures var r := CloseMany(reg, id, n);
      && r.shared == reg.shared && r.log == reg.log
      && r.instances[id].key == reg.instances[id].key
      && r.instances[id].count == reg.instances[id].count - n
    decreases n
  {
    if n > 0 {
      var m: nat := n - 1;
      CloseManyKeepsOpen(reg, id, m);
      assert CloseMany(reg, id, n) == Close(CloseMany(reg, id, m), id);
    }
  }

  /** Requests for a triple nobody holds open its store once and hand out one new instance counting them all. */
  lemma {:induction false} CreateManyFresh(reg: Registry, path: string, mapName: string, compress: bool, n: nat)
    requires Valid(reg) && n >= 1 && Key(path, mapName, compress) !in reg.shared
    ensures var c := CreateMany(reg, path, mapName, compress, n);
      && c.id == |reg.instances|
      && c.registry.log == reg.log + [Opened(c.id)]
      && c.registry.instances[c.id] == Instance(Key(path, mapName, compress), n, true)
  {
    var first := Create(reg, path, mapName, compress, true).value;
    if n > 1 {
      CreateManyShared(first.registry, path, mapName, compress, n - 1);
    }
  }

  /**
   * `n` requests for a triple nobody holds, followed by `n` closes of the
   * instance handed out, open the store once and close it once, and leave
   * the key unshared again.
   */
  lemma {:induction false} BalancedUseOpensAndClosesOnce(reg: Registry, path: string, mapName: string, compress: bool, n: nat)
    requires Valid(reg) && n >= 1 && Key(path, mapName, compress) !in reg.shared
    ensures var c := CreateMany(reg, path, mapName, compress, n);
      var r := CloseMany(c.registry, c.id, n);
      && c.id == |reg.instances|
      && r.log == reg.log + [Opened(c.id), Closed(c.id)]
      && Key(path, mapName, compress) !in r.shared
      && !r.instances[c.id].storeOpen
  {
    var c := CreateMany(reg, path, mapName, compress, n);
    CreateManyFresh(reg, path, mapName, compress, n);
    CloseManyLastUser(c.registry, c.id, n);
  }

  /** As many closes as the instance has users close its store once and evict it. */
  lemma {:induction false} CloseManyLastUser(reg: Registry, id: nat, n: nat)
    requires Valid(reg) && id < |reg.instances| && n >= 1 && reg.instances[id].count == n
    ensures var r := CloseMany(reg, id, n);
      && r.log == reg.log + [Closed(id)]
      && reg.instances[id].key !in r.shared
      && !r.instances[id].storeOpen
  {
    var m: nat := n - 1;
    var before := CloseMany(reg, id, m);
    CloseManyKeepsOpen(reg, id, m);
    assert CloseMany(reg, id, n) == Close(before, id);
    LastClose(before, id);
  }

  /** The close that brings the count to zero closes the store and evicts the instance. */
  lemma LastClose(reg: Registry, id: nat)
    requires Valid(reg) && id < |reg.instances| && reg.instances[id].count == 1
    ensures var r := Close(reg, id);
      && r.log == reg.log + [Closed(id)]
      && reg.instances[id].key !in r.shared
      && !r.instances[id].storeOpen
  {
  }

  /** After the last close, the next request opens a fresh store instead of reviving the closed one. */
  lemma ReopenAfterEviction(reg: Registry, path: string, mapName: string, compress: bool, id: nat)
    requires Valid(reg) && id < |reg.instances| && reg.instances[id].count == 1
    requires reg.instances[id].key == Key(path, mapName, compress)
    ensures var c := Create(Close(reg, id), path, mapName, compress, true);
      && c.Ok? && c.value.id != id && c.value.id == |reg.instances|
      && c.value.registry.log == reg.log + [Closed(id), Opened(c.value.id)]
  {
  }
}
