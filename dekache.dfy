/** The cache engine (Dekache): configuration, the sweep scheduler's state, and
    the dictionary of items updated in place by get, set, delete and clear.
    Every method is proved against the functions of CacheState and Sweep. */
module Dekache {
  import opened JsValues
  import opened Seqs
  import Maps
  import opened Items
  import Keys
  import opened CacheState
  import opened Sweep

  /** The options object given to the constructor; `None` is an absent property
      and `noStart` is the truthiness of `no_start`. */
  datatype Options = Options(
    name: Option<string>,
    cacheType: Option<string>,
    mins: Option<nat>,
    freq: Option<nat>,
    noStart: bool)

  datatype Config = Config(name: string, cacheType: string, mins: nat, freq: nat)

  /** DEFAULT_OPTS. */
  const DefaultOpts: Config := Config("unnamed-cache", "force", 1, 1000)

  /** `{ ...DEFAULT_OPTS, ...options }`: every given option overrides its default. */
  function Merge(o: Options): (c: Config)
    ensures c.name == (if o.name.Some? then o.name.value else "unnamed-cache")
    ensures c.cacheType == (if o.cacheType.Some? then o.cacheType.value else "force")
    ensures c.mins == (if o.mins.Some? then o.mins.value else 1)
    ensures c.freq == (if o.freq.Some? then o.freq.value else 1000)
  {
    Config(
      o.name.GetOr(DefaultOpts.name),
      o.cacheType.GetOr(DefaultOpts.cacheType),
      o.mins.GetOr(DefaultOpts.mins),
      o.freq.GetOr(DefaultOpts.freq))
  }

  class Cache {
    var name: string
    var cacheType: string
    var mins: nat
    var freq: nat
    /** Whether the sweep timer is set (`_hand` is not null). */
    var running: bool
    /** `_data`: the items by internal key. */
    var data: map<string, Item>
    /** The keys of `_data` in the order `Object.keys` lists them. */
    var order: seq<string>

    /** The key order lists each stored key once, and no two keys share an item. */
    ghost predicate Valid()
      reads this
    {
      && Distinct(order)
      && Elems(order) == data.Keys
      && forall j, k :: j in data && k in data && j != k ==> data[j] != data[k]
    }

    /** What each stored item holds. */
    function Entries(): map<string, ItemState>
      reads this, data.Values
    {
      map k | k in data :: data[k].State()
    }

    /** The dictionary as a value. */
    ghost function Abstract(): (s: Store)
      reads this, data.Values
      requires Valid()
      ensures WellFormed(s)
    {
      Store(order, Entries())
    }

    /** key: the internal key of the identifier `id` (already serialized). */
    function Key(id: string): (k: string)
      reads this
      ensures k == Keys.Make(cacheType, id)
    {
      Keys.Make(cacheType, id)
    }

    /** initialize: options over defaults, an empty dictionary, and the sweep
        started unless `no_start` is set. */
    constructor (options: Options)
      ensures Valid()
      ensures name == options.name.GetOr("unnamed-cache")
      ensures cacheType == options.cacheType.GetOr("force")
      ensures mins == options.mins.GetOr(1)
      ensures freq == options.freq.GetOr(1000)
      ensures Abstract() == Store([], map[]) && data == map[]
      ensures running == !options.noStart
    {
      var c := Merge(options);
      name := c.name;
      cacheType := c.cacheType;
      mins := c.mins;
      freq := c.freq;
      running := false;
      data := map[];
      order := [];
      new;
      if !options.noStart {
        var _ := Start();
      }
    }

    /** start: sets the timer unless it is already set, and reports true
        either way. */
    method Start() returns (started: bool)
      modifies this`running
      ensures running && started
    {
      if !running {
        running := true;
      }
      started := running;
    }

    /** stop: clears the timer; true exactly when it was set. */
    method Stop() returns (stopped: bool)
      modifies this`running
      ensures stopped == old(running) && !running
    {
      if running {
        running := false;
        stopped := true;
      } else {
        stopped := false;
      }
    }

    /** loop: one timer tick, an unforced clear. */
    method Loop(now: int) returns (events: seq<Event>)
      requires Valid()
      modifies this`data, this`order
      ensures Valid() && fresh(data.Values - old(data.Values))
      ensures Step(events, Abstract()) == Sweep.Clear(old(Abstract()), false, mins, now)
    {
      events := Clear(false, now);
    }

    /** delete: removes the entry at the key of `id`, reporting whether there
        was one. */
    method Delete(id: string) returns (deleted: bool)
      requires Valid()
      modifies this`data, this`order
      ensures Valid() && fresh(data.Values - old(data.Values))
      ensures Step(deleted, Abstract()) == CacheState.Delete(old(Abstract()), Key(id))
    {
      ghost var s0 := Abstract();
      var k := Keys.Make(cacheType, id);
      if k in data {
        WithoutProps(order, {k});
        Maps.RemoveValues(data, {k});
        data := data - {k};
        order := Without(order, {k});
        deleted := true;
        assert Entries() == s0.entries - {k} by {
          forall j | j in data ensures data[j].State() == s0.entries[j] {
            assert data[j] == old(data)[j];
          }
        }
        assert Abstract() == Remove(s0, k);
      } else {
        deleted := false;
      }
    }

    /** The first loop of clear: walks the keys in order and collects those
        whose item holds falsy data, or that are forced out, or stale. */
    method Gather(forced: bool, now: int) returns (toClear: seq<string>)
      requires Valid()
      ensures toClear == Only(order, Evicted(Entries(), forced, mins, now))
    {
      ghost var gone := Evicted(Entries(), forced, mins, now);
      var keys := order;
      toClear := [];
      var index := 0;
      while index < |keys|
        invariant 0 <= index <= |keys|
        invariant toClear == Only(keys[..index], gone)
      {
        var key := keys[index];
        assert key in Elems(keys);
        var item := data[key];
        if Truthy(item.data) {
          if forced || item.CheckTimeDiff(mins, now) {
            toClear := toClear + [key];
          }
        } else {
          toClear := toClear + [key];
        }
        assert keys[..index + 1] == keys[..index] + [key];
        index := index + 1;
      }
      assert keys[..index] == keys;
    }

    /** clear: gathers the keys to evict in key order, then removes each one
        emitting 'clear-item', then emits 'clear'; emits nothing when there is
        nothing to evict. */
    method Clear(forced: bool, now: int) returns (events: seq<Event>)
      requires Valid()
      modifies this`data, this`order
      ensures Valid() && fresh(data.Values - old(data.Values))
      ensures Step(events, Abstract()) == Sweep.Clear(old(Abstract()), forced, mins, now)
    {
      ghost var s0 := Abstract();
      ghost var gone := Evicted(s0.entries, forced, mins, now);
      var keys := order;
      var toClear := Gather(forced, now);
      if toClear == [] {
        events := [];
        return;
      }
      GatheredKeys(s0, forced, mins, now);
      var count := |keys|;
      events := RemoveGathered(toClear);
      events := events + [ClearSummary(Entries(), |toClear|, count)];
      ClearUnfold(s0, forced, mins, now);
    }

    /** The second loop of clear: for each gathered key in turn, emit
        'clear-item' with its item and delete the key. */
    method Evict(toClear: seq<string>) returns (events: seq<Event>)
      requires Distinct(toClear) && Elems(toClear) <= data.Keys
      modifies this`data, this`order
      ensures data == old(data) - Elems(toClear) && data.Values <= old(data.Values)
      ensures order == Without(old(order), Elems(toClear))
      ensures events == ItemEvents(toClear, old(Entries()))
    {
      ghost var m0 := Entries();
      ghost var order0 := order;
      assert Elems(toClear[..0]) == {};
      WithoutNothing(order, {});
      events := [];
      var i := 0;
      while i < |toClear|
        invariant 0 <= i <= |toClear|
        invariant data == old(data) - Elems(toClear[..i])
        invariant order == Without(order0, Elems(toClear[..i]))
        invariant events == ItemEvents(toClear[..i], m0)
      {
        var key := toClear[i];
        assert toClear[..i + 1] == toClear[..i] + [key];
        DistinctSnoc(toClear[..i], key);
        events := events + [ClearItem(data[key].State(), key)];
        data := data - {key};
        WithoutTwice(order0, Elems(toClear[..i]), {key});
        order := Without(order, {key});
        ElemsSnoc(toClear[..i], key);
        i := i + 1;
      }
      assert toClear[..i] == toClear;
      Maps.RemoveValues(old(data), Elems(toClear));
    }

    /** The second loop of clear on a valid cache: the dictionary stays valid
        and loses exactly the gathered keys. */
    method RemoveGathered(toClear: seq<string>) returns (events: seq<Event>)
      requires Valid() && Distinct(toClear) && Elems(toClear) <= data.Keys
      modifies this`data, this`order
      ensures Valid() && data.Values <= old(data.Values)
      ensures Abstract() == Store(Without(old(order), Elems(toClear)), old(Entries()) - Elems(toClear))
      ensures events == ItemEvents(toClear, old(Entries()))
    {
      events := Evict(toClear);
      WithoutProps(old(order), Elems(toClear));
      assert Entries() == old(Entries()) - Elems(toClear) by {
        forall k | k in data ensures data[k].State() == old(Entries())[k] {
          assert data[k] == old(data)[k];
        }
      }
    }

    /** Assigning `_data[k]` an item that no key holds yet. */
    method Assign(k: string, item: Item)
      requires Valid() && item !in data.Values
      modifies this`data, this`order
      ensures Valid()
      ensures data == old(data)[k := item] && data.Values <= old(data.Values) + {item}
      ensures Abstract() == Put(old(Abstract()), k, item.State())
    {
      if k !in data {
        DistinctSnoc(order, k);
        ElemsSnoc(order, k);
        order := order + [k];
      }
      Maps.UpdateValues(data, k, item);
      data := data[k := item];
    }

    /** get: a present entry's data, renewing the entry under the 'renew' type;
        an absent entry is populated from the callback; with no callback, the
        call fails and nothing changes. */
    method Get(id: string, callback: Callback, now: int) returns (r: Result<JsValue, GetError>)
      requires Valid()
      modifies this`data, this`order, data.Values
      ensures Valid() && fresh(data.Values - old(data.Values))
      ensures Step(r, Abstract()) ==
        CacheState.Get(old(Abstract()), cacheType == "renew", Key(id), callback, now)
    {
      ghost var s0 := Abstract();
      var k := Key(id);
      ghost var expected := CacheState.Get(s0, cacheType == "renew", k, callback, now);
      if k in data {
        if cacheType == "renew" {
          var item := data[k];
          item.Renew(now);
          forall j | j in data && j != k
            ensures data[j].State() == s0.entries[j]
          {
            assert data[j] != item;
          }
          assert Entries() == s0.entries[k := Renewed(s0.entries[k], now)];
          assert expected.store == Store(order, Entries());
        }
        r := Ok(data[k].data);
        assert expected.result == r;
      } else {
        match callback
        case Returns(v) =>
          var item := new Item(v, now);
          assert Abstract() == s0;
          Assign(k, item);
          r := Ok(data[k].data);
        case NoCallback =>
          r := Err(MissingEntry);
        case Throws =>
          r := Err(CallbackFailed);
      }
    }

    /** set: stores a fresh item holding `v` at the key of `id`, and returns `v`. */
    method Set(id: string, v: JsValue, now: int) returns (r: JsValue)
      requires Valid()
      modifies this`data, this`order
      ensures Valid() && fresh(data.Values - old(data.Values))
      ensures Step(r, Abstract()) == CacheState.Set(old(Abstract()), Key(id), v, now)
    {
      ghost var s0 := Abstract();
      var k := Key(id);
      var item := new Item(v, now);
      assert Abstract() == s0;
      Assign(k, item);
      r := data[k].data;
    }
  }
}
