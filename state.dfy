/** The cache's dictionary as an abstract value, and the effect of get, set and
    delete on it. The class Dekache.Cache is proved against these functions. */
module CacheState {
  import opened JsValues
  import opened Seqs
  import opened Items

  /** The `_data` object: its own keys in enumeration order, and the item
      stored under each. */
  datatype Store = Store(order: seq<string>, entries: map<string, ItemState>)

  /** Each key is listed once, and exactly the stored keys are listed. */
  ghost predicate WellFormed(s: Store) {
    Distinct(s.order) && Elems(s.order) == s.entries.Keys
  }

  /** What an operation returns, with the dictionary it leaves behind. */
  datatype Step<R> = Step(result: R, store: Store)

  /** The `get` callback: absent, or run to completion with the value it
      produced, or failed. */
  datatype Callback = NoCallback | Returns(value: JsValue) | Throws

  datatype GetError =
    | MissingEntry    // no entry and no callback: the read of `.data` fails
    | CallbackFailed  // the callback failed before anything was stored

  /** Assigning a property: a new key is enumerated last, an existing key keeps
      its place. */
  function Put(s: Store, k: string, st: ItemState): (r: Store)
    requires WellFormed(s)
    ensures WellFormed(r)
    ensures r.entries.Keys == s.entries.Keys + {k} && r.entries[k] == st
    ensures forall j :: j in s.entries && j != k ==> r.entries[j] == s.entries[j]
    ensures k in s.entries ==> r.order == s.order
    ensures k !in s.entries ==> r.order == s.order + [k]
  {
    if k in s.entries then
      Store(s.order, s.entries[k := st])
    else
      DistinctSnoc(s.order, k);
      ElemsSnoc(s.order, k);
      Store(s.order + [k], s.entries[k := st])
  }

  /** Deleting a property: it leaves the key order and the map, the other keys
      keep their order and items. */
  function Remove(s: Store, k: string): (r: Store)
    requires WellFormed(s)
    ensures WellFormed(r)
    ensures r.entries.Keys == s.entries.Keys - {k}
    ensures forall j :: j in r.entries ==> r.entries[j] == s.entries[j]
    ensures r.order == Without(s.order, {k})
  {
    WithoutProps(s.order, {k});
    Store(Without(s.order, {k}), s.entries - {k})
  }

  /** get: a present entry is returned, and renewed when `renew` holds; an
      absent one is populated from the callback's value; with no callback the
      call fails; a failing callback stores nothing. */
  function Get(s: Store, renew: bool, k: string, cb: Callback, now: int): (r: Step<Result<JsValue, GetError>>)
    requires WellFormed(s)
    ensures WellFormed(r.store)
    ensures r.result.Ok? <==> k in s.entries || cb.Returns?
    ensures k in s.entries ==> r.result == Ok(s.entries[k].data)
    ensures k !in s.entries && cb.Returns? ==> r.result == Ok(cb.value)
    ensures k !in s.entries && cb.NoCallback? ==> r.result == Err(MissingEntry)
    ensures r.result.Ok? ==> k in r.store.entries && r.store.entries[k].data == r.result.value
    ensures r.result.Err? ==> r.store == s
    ensures r.store.entries.Keys == s.entries.Keys + (if r.result.Ok? then {k} else {})
    ensures forall j :: j in s.entries && j != k ==> r.store.entries[j] == s.entries[j]
    ensures k in s.entries ==>
      r.store.entries[k] == (if renew then Renewed(s.entries[k], now) else s.entries[k])
    ensures k !in s.entries && cb.Returns? ==> r.store.entries[k] == Fresh(cb.value, now)
    ensures k in s.entries ==> r.store.order == s.order
    ensures k !in s.entries && cb.Returns? ==> r.store.order == s.order + [k]
  {
    if k in s.entries then
      var st := s.entries[k];
      Step(Ok(st.data), if renew then Put(s, k, Renewed(st, now)) else s)
    else
      match cb
      case Returns(v) => Step(Ok(v), Put(s, k, Fresh(v, now)))
      case NoCallback => Step(Err(MissingEntry), s)
      case Throws => Step(Err(CallbackFailed), s)
  }

  /** set: a fresh item holding `v` replaces whatever was stored at `k`. */
  function Set(s: Store, k: string, v: JsValue, now: int): (r: Step<JsValue>)
    requires WellFormed(s)
    ensures WellFormed(r.store)
    ensures r.result == v
    ensures r.store.entries.Keys == s.entries.Keys + {k}
    ensures r.store.entries[k] == Fresh(v, now)
    ensures k in s.entries ==> r.store.order == s.order
    ensures k !in s.entries ==> r.store.order == s.order + [k]
    ensures forall j :: j in s.entries && j != k ==> r.store.entries[j] == s.entries[j]
  {
    Step(v, Put(s, k, Fresh(v, now)))
  }

  /** delete: reports whether an entry was present, and leaves none at `k`. */
  function Delete(s: Store, k: string): (r: Step<bool>)
    requires WellFormed(s)
    ensures WellFormed(r.store)
    ensures r.result <==> k in s.entries
    ensures r.store.entries.Keys == s.entries.Keys - {k}
    ensures forall j :: j in r.store.entries ==> r.store.entries[j] == s.entries[j]
    ensures r.store.order == Without(s.order, {k})
  {
    if k in s.entries then Step(true, Remove(s, k))
    else
      WithoutNothing(s.order, {k});
      Step(false, s)
  }

  /** A value just set is what the next read returns, whatever the type of
      cache and whether a callback is given. */
  lemma SetThenGet(s: Store, renew: bool, k: string, v: JsValue, cb: Callback, now: int, later: int)
    requires WellFormed(s)
    ensures Get(Set(s, k, v, now).store, renew, k, cb, later).result == Ok(v)
  {
  }

  /** After a delete, reading without a callback fails. */
  lemma DeleteThenGet(s: Store, renew: bool, k: string, now: int)
    requires WellFormed(s)
    ensures Get(Delete(s, k).store, renew, k, NoCallback, now).result == Err(MissingEntry)
  {
  }

  /** Deleting twice: the second delete finds nothing. */
  lemma DeleteTwice(s: Store, k: string)
    requires WellFormed(s)
    ensures !Delete(Delete(s, k).store, k).result
  {
  }

  /** Under the 'force' type a read of a present entry changes nothing. */
  lemma ForceGetIsReadOnly(s: Store, k: string, cb: Callback, now: int)
    requires WellFormed(s) && k in s.entries
    ensures Get(s, false, k, cb, now).store == s
  {
  }

  /** Under the 'renew' type a read restarts the entry's minutes: right after
      it, the entry is not stale for any positive number of minutes. */
  lemma RenewGetRestartsClock(s: Store, k: string, cb: Callback, now: int, mins: nat)
    requires WellFormed(s) && k in s.entries && mins > 0
    ensures !Stale(Get(s, true, k, cb, now).store.entries[k], mins, now)
  {
  }

  /** A read never changes the data stored, and never the creation time. */
  lemma GetKeepsDataAndInit(s: Store, renew: bool, k: string, cb: Callback, now: int)
    requires WellFormed(s) && k in s.entries
    ensures Get(s, renew, k, cb, now).store.entries[k].data == s.entries[k].data
    ensures Get(s, renew, k, cb, now).store.entries[k].init == s.entries[k].init
  {
  }
}
