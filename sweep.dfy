/** The sweep (`clear`): which entries it evicts, what it leaves, and the events
    it emits. */
module Sweep {
  import opened JsValues
  import opened Seqs
  import opened Items
  import opened CacheState

  /** The emitted events: 'clear-item' with the evicted item and its key, and
      'clear' with the remaining entries and the two counts. */
  datatype Event =
    | ClearItem(item: ItemState, key: string)
    | ClearSummary(remaining: map<string, ItemState>, deleteCount: nat, cacheCount: nat)

  /** An entry is evicted when its data is falsy, or when the sweep is forced,
      or when it is stale. */
  predicate ShouldEvict(st: ItemState, forced: bool, mins: nat, now: int) {
    if Truthy(st.data) then forced || Stale(st, mins, now) else true
  }

  /** The keys a sweep evicts: only stored keys, and every stored key when
      forced. */
  function Evicted(m: map<string, ItemState>, forced: bool, mins: nat, now: int): (gone: set<string>)
    ensures gone <= m.Keys
    ensures forced ==> gone == m.Keys
  {
    set k | k in m && ShouldEvict(m[k], forced, mins, now)
  }

  /** One 'clear-item' event per key, in the order of `keys`. */
  function ItemEvents(keys: seq<string>, m: map<string, ItemState>): (r: seq<Event>)
    requires Elems(keys) <= m.Keys
    ensures |r| == |keys|
    ensures forall i :: 0 <= i < |keys| ==> r[i] == ClearItem(m[keys[i]], keys[i])
    decreases |keys|
  {
    if keys == [] then []
    else
      var p, last := keys[..|keys| - 1], keys[|keys| - 1];
      ElemsSnoc(p, last);
      assert keys == p + [last];
      ItemEvents(p, m) + [ClearItem(m[last], last)]
  }

  /** clear(forced) on the dictionary `s`: the evicted keys, gathered in key
      order, each emit 'clear-item' and leave the dictionary; a closing 'clear'
      event counts them against the size before the sweep. When nothing is
      evicted, nothing is emitted and nothing changes. */
  function Clear(s: Store, forced: bool, mins: nat, now: int): (r: Step<seq<Event>>)
    requires WellFormed(s)
    ensures WellFormed(r.store)
  {
    var gone := Evicted(s.entries, forced, mins, now);
    var toClear := Only(s.order, gone);
    if toClear == [] then Step([], s)
    else
      OnlyProps(s.order, gone);
      WithoutProps(s.order, gone);
      var after := Store(Without(s.order, gone), s.entries - gone);
      Step(ItemEvents(toClear, s.entries) + [ClearSummary(after.entries, |toClear|, |s.order|)], after)
  }

  /** A sweep that evicts something, unfolded. */
  lemma ClearUnfold(s: Store, forced: bool, mins: nat, now: int)
    requires WellFormed(s)
    requires Only(s.order, Evicted(s.entries, forced, mins, now)) != []
    requires Elems(Only(s.order, Evicted(s.entries, forced, mins, now))) <= s.entries.Keys
    ensures var gone := Evicted(s.entries, forced, mins, now);
      var toClear := Only(s.order, gone);
      Clear(s, forced, mins, now) ==
        Step(ItemEvents(toClear, s.entries) + [ClearSummary(s.entries - gone, |toClear|, |s.order|)],
             Store(Without(s.order, gone), s.entries - gone))
  {
  }

  /** The gathered keys are exactly the evicted ones, each once. */
  lemma {:induction false} GatheredKeys(s: Store, forced: bool, mins: nat, now: int)
    requires WellFormed(s)
    ensures Elems(Only(s.order, Evicted(s.entries, forced, mins, now))) == Evicted(s.entries, forced, mins, now)
    ensures Distinct(Only(s.order, Evicted(s.entries, forced, mins, now)))
    ensures |Only(s.order, Evicted(s.entries, forced, mins, now))| == |Evicted(s.entries, forced, mins, now)|
  {
    var gone := Evicted(s.entries, forced, mins, now);
    OnlyProps(s.order, gone);
    DistinctCard(Only(s.order, gone));
  }

  /** clear removes exactly the entries that are falsy, forced out or stale;
      every other entry stays, unchanged; the dictionary stays well formed. */
  lemma {:induction false} ClearEvictsExactly(s: Store, forced: bool, mins: nat, now: int)
    requires WellFormed(s)
    ensures forall k :: k in Clear(s, forced, mins, now).store.entries <==>
      k in s.entries && !ShouldEvict(s.entries[k], forced, mins, now)
    ensures forall k :: k in Clear(s, forced, mins, now).store.entries ==>
      Clear(s, forced, mins, now).store.entries[k] == s.entries[k]
  {
    var gone := Evicted(s.entries, forced, mins, now);
    var toClear := Only(s.order, gone);
    GatheredKeys(s, forced, mins, now);
    var after := Clear(s, forced, mins, now).store;
    if toClear == [] {
      EmptyElems(toClear);
      assert after.entries == s.entries - gone;
    } else {
      assert after.entries == s.entries - gone;
    }
  }

  /** The shape of clear's events: nothing when nothing is evicted (and then
      nothing changes); otherwise one event per evicted key and a closing
      'clear' whose delete_count is the number evicted and whose cache_count
      is the number of entries before the sweep. */
  lemma {:induction false} ClearEventCounts(s: Store, forced: bool, mins: nat, now: int)
    requires WellFormed(s)
    ensures var n := |Evicted(s.entries, forced, mins, now)|;
      var log := Clear(s, forced, mins, now).result;
      && (n == 0 ==> log == [] && Clear(s, forced, mins, now).store == s)
      && (n > 0 ==> |log| == n + 1)
      && (n > 0 ==> log[n] == ClearSummary(Clear(s, forced, mins, now).store.entries, n, |s.entries|))
  {
    var gone := Evicted(s.entries, forced, mins, now);
    var toClear := Only(s.order, gone);
    GatheredKeys(s, forced, mins, now);
    DistinctCard(s.order);
    if |gone| == 0 {
      assert toClear == [];
    } else {
      assert toClear != [];
    }
  }

  /** The 'clear-item' events of clear: each names an evicted key with its
      item, no key twice, and every evicted key has one. */
  lemma {:induction false} ClearItemEvents(s: Store, forced: bool, mins: nat, now: int)
    requires WellFormed(s)
    ensures var log := Clear(s, forced, mins, now).result;
      forall i :: 0 <= i < |log| - 1 ==>
        && log[i].ClearItem?
        && log[i].key in Evicted(s.entries, forced, mins, now)
        && log[i].item == s.entries[log[i].key]
    ensures var log := Clear(s, forced, mins, now).result;
      forall i, j :: 0 <= i < j < |log| - 1 ==> log[i].key != log[j].key
    ensures var log := Clear(s, forced, mins, now).result;
      forall k :: k in Evicted(s.entries, forced, mins, now) ==>
        exists i :: 0 <= i < |log| - 1 && log[i] == ClearItem(s.entries[k], k)
  {
    var gone := Evicted(s.entries, forced, mins, now);
    var toClear := Only(s.order, gone);
    GatheredKeys(s, forced, mins, now);
    if toClear != [] {
      var log := Clear(s, forced, mins, now).result;
      var items := ItemEvents(toClear, s.entries);
      assert log == items + [ClearSummary(Clear(s, forced, mins, now).store.entries, |toClear|, |s.order|)];
      assert forall i :: 0 <= i < |log| - 1 ==> log[i] == items[i];
      forall k | k in gone
        ensures exists i :: 0 <= i < |log| - 1 && log[i] == ClearItem(s.entries[k], k)
      {
        assert k in Elems(toClear);
        var i :| 0 <= i < |toClear| && toClear[i] == k;
        assert log[i] == ClearItem(s.entries[k], k);
      }
    }
  }

  /** A forced clear empties the cache; when there was anything to remove, its
      'clear' event reports every entry deleted. */
  lemma {:induction false} ForcedClearEmpties(s: Store, mins: nat, now: int)
    requires WellFormed(s)
    ensures Clear(s, true, mins, now).store.entries == map[]
    ensures Clear(s, true, mins, now).store.order == []
    ensures |s.entries| > 0 ==>
      && |Clear(s, true, mins, now).result| == |s.entries| + 1
      && Clear(s, true, mins, now).result[|s.entries|] == ClearSummary(map[], |s.entries|, |s.entries|)
  {
    var gone := Evicted(s.entries, true, mins, now);
    assert gone == s.entries.Keys;
    GatheredKeys(s, true, mins, now);
    WithoutProps(s.order, gone);
    DistinctCard(s.order);
    var toClear := Only(s.order, gone);
    EmptyElems(Without(s.order, gone));
    EmptyElems(s.order);
    var r := Clear(s, true, mins, now);
    if toClear == [] {
      assert r.store == s;
      EmptyElems(toClear);
    } else {
      assert r.store == Store([], map[]);
      assert r.result == ItemEvents(toClear, s.entries) + [ClearSummary(map[], |toClear|, |s.order|)];
    }
  }

  /** A second unforced sweep at the same instant finds nothing to evict: it
      emits nothing and changes nothing. */
  lemma {:induction false} ClearIsIdempotent(s: Store, forced: bool, mins: nat, now: int)
    requires WellFormed(s)
    ensures var s1 := Clear(s, forced, mins, now).store;
      Clear(s1, false, mins, now) == Step([], s1)
  {
    var s1 := Clear(s, forced, mins, now).store;
    ClearEvictsExactly(s, forced, mins, now);
    forall k | k in s1.entries
      ensures !ShouldEvict(s1.entries[k], false, mins, now)
    {
      assert !ShouldEvict(s.entries[k], forced, mins, now);
    }
    var gone := Evicted(s1.entries, false, mins, now);
    assert gone == {};
    OnlyProps(s1.order, gone);
    assert Elems(Only(s1.order, gone)) == {};
    EmptyElems(Only(s1.order, gone));
  }

  /** Without forcing, an entry evicted at `now` would also be evicted by any
      later sweep; a forced sweep evicts at least what an unforced one does. */
  lemma EvictionIsMonotone(m: map<string, ItemState>, mins: nat, now: int, later: int)
    requires now <= later
    ensures Evicted(m, false, mins, now) <= Evicted(m, false, mins, later)
    ensures Evicted(m, false, mins, now) <= Evicted(m, true, mins, now)
  {
  }

  /** An item created at `t` with truthy data survives an unforced sweep up to
      one millisecond before `t + mins` minutes, and is evicted from then on. */
  lemma FreshItemLifetime(v: JsValue, t: int, mins: nat, now: int)
    requires Truthy(v)
    ensures ShouldEvict(Fresh(v, t), false, mins, now) <==> now >= t + MsPerMinute * mins
  {
  }

  /** A cache holding one entry that is due for eviction: the sweep emits its
      'clear-item' and a 'clear' counting one of one, and leaves the cache
      empty. */
  lemma {:induction false} ClearOne(k: string, st: ItemState, forced: bool, mins: nat, now: int)
    requires ShouldEvict(st, forced, mins, now)
    ensures Clear(Store([k], map[k := st]), forced, mins, now) ==
      Step([ClearItem(st, k), ClearSummary(map[], 1, 1)], Store([], map[]))
  {
    var s := Store([k], map[k := st]);
    assert Evicted(s.entries, forced, mins, now) == {k};
    assert Only([k], {k}) == [k] by {
      assert [k] == [] + [k];
      assert Only([], {k}) == [];
    }
    assert Without([k], {k}) == [] by {
      assert [k] == [] + [k];
      assert Without([], {k}) == [];
    }
    assert s.entries - {k} == map[];
    assert ItemEvents([k], s.entries) == [ClearItem(st, k)];
    assert Only(s.order, Evicted(s.entries, forced, mins, now)) == [k];
    assert Clear(s, forced, mins, now).store == Store([], map[]);
    assert Clear(s, forced, mins, now).result == [ClearItem(st, k), ClearSummary(map[], 1, 1)];
  }

  /** A cache holding one entry that is not due: the sweep emits nothing and
      changes nothing. */
  lemma {:induction false} KeepOne(k: string, st: ItemState, forced: bool, mins: nat, now: int)
    requires !ShouldEvict(st, forced, mins, now)
    ensures Clear(Store([k], map[k := st]), forced, mins, now) == Step([], Store([k], map[k := st]))
  {
    var s := Store([k], map[k := st]);
    assert Evicted(s.entries, forced, mins, now) == {};
    assert Only([k], {}) == [];
  }
}
