# Dekache in Dafny

Dekache is a small in-process cache with a time-to-live. A `Dekache` object keeps
a dictionary `_data` from internal keys to `DekacheItem`s. Each item holds a value,
the time it was last renewed (`time`) and the time it was created (`init`).

- `get` returns a present entry's data. A cache of type `'renew'` also restarts
  the entry's clock. An absent entry is populated from a callback.
- `set` overwrites an entry.
- `delete` removes one.
- A timer calls `clear` every `freq` milliseconds. `clear` evicts the entries
  that hold falsy data or were last renewed at least `mins` minutes ago. A forced clear evicts
  everything. It emits one `'clear-item'` event per evicted entry, then, if
  anything was evicted, one `'clear'` event; a sweep that evicts nothing emits
  nothing and changes nothing.

This project models that engine and proves what it promises.

- `Items` (values and items): `ItemState` is the value an item holds. `Stale` is
  the test of `checkTimeDiff`. `Fresh` and `Renewed` give an item's state after
  construction and after `renew`. The class `Items.Item` is `DekacheItem` with
  its three fields, and its constructor and `Renew` are proved against those
  functions. `Items.Item.CheckTimeDiff` is `Stale` applied to the item's state,
  so the lemmas about `Stale` are its contract.
- `Keys`: the internal key `type + "_" + id`. `Dekache.Cache.Key` and
  `Dekache.Cache.Delete` both build it through `Keys.Make`.
- `CacheState`: the dictionary as a value. `Store` holds the key order that
  `Object.keys` enumerates together with the item state stored under each key.
  It defines what `get`, `set` and `delete` do to it.
- `Sweep`: which entries `clear` evicts, what it leaves behind and the events it
  emits.
- `Dekache`: the class `Dekache.Cache`. Its fields are the configuration, a
  `running` flag standing for the timer handle, `data: map<string, Item>` and
  the key order.
  - Every public method that changes the dictionary keeps the class invariant
    `Valid()`, and so does `RemoveGathered`, the second loop of `clear`. The
    loop itself, `Evict`, is stated on the map and the key order directly.
  - Each such method is proved to produce exactly the result and the new
    abstract state that the `CacheState` or `Sweep` function gives.
  - `clear` keeps the source's two loops: `Gather` walks the keys and collects
    those to evict, then `Evict` removes them one by one and logs the events.
    `RemoveGathered` wraps `Evict` and gives the new abstract state.
- `Scenarios`: short client programs and lemmas that replay typical use.
  Examples are set-then-get, populate-then-hit, a one-minute expiry, and a
  `'renew'` read that keeps an entry alive.

Time is a parameter `now` in milliseconds. Events are returned as a log
(`seq<Event>`) instead of being emitted. The callback of `get` is given as its
outcome: no callback, the value it produced, or a failure.

Where the code and its doc comments disagree, the model follows the code:

- `start` returns true even when the cache was already running
  (src/dekache.js:76), although its doc comment says it returns false then.
  `Dekache.Cache.Start` always reports true.
- `get` on an absent key with no callback reads `.data` of `undefined`
  (src/dekache.js:160). The doc comment promises a promise that resolves. The
  model returns the failure `Err(MissingEntry)` and leaves the dictionary
  unchanged.

## Model

| member | source | states |
|---|---|---|
| Items.Fresh | src/dekache-item.js:33-37 | a new item holds exactly the given data with renewal and creation time both `now`, and is not stale for any positive number of minutes |
| Items.Item.constructor | src/dekache-item.js:33-37 | `initialize` leaves the item in the state `Fresh(cacheData, now)` |
| Items.Renewed | src/dekache-item.js:46-50 | renewal sets the renewal time to `now`, keeps data and creation time, and makes the item not stale for any positive number of minutes at that instant |
| Items.Item.Renew | src/dekache-item.js:50 | `renew` changes the item's state to `Renewed(old state, now)` and nothing else |
| Items.Stale | src/dekache-item.js:43-45 | the staleness test: at least `mins` minutes (60000 ms each) have passed since the last renewal `time` |
| Items.Item.CheckTimeDiff | src/dekache-item.js:43-45 | `checkTimeDiff(mins)` is the staleness test `Stale` of the item's current state, so `StaleDeadline` and the other `Stale` lemmas describe it |
| Items.StaleDeadline | src/dekache-item.js:43-45 | `checkTimeDiff(mins)` holds exactly from `time + 60000·mins` on, the boundary included |
| Items.StaleIsMonotone | src/dekache-item.js:44 | an item stale at `now` is stale at any later time |
| Items.StaleIgnoresInit | src/dekache-item.js:44 | staleness depends on neither the creation time nor the data |
| Items.RenewKeepsTimesOrdered | src/dekache-item.js:35-36 | with a clock that does not run backwards, renewal never moves `time` back and keeps `init <= time` |
| Keys.Make | src/dekache.js:183-185 | the key is the type, one underscore, then the serialized id, in that order and with that length |
| Keys.MakeInjective | src/dekache.js:183-185 | within one cache type, equal keys come from equal ids |
| Keys.TypesNamespaced | src/dekache.js:183-185 | keys built under two different underscore-free types never collide |
| Keys.ForceAndRenewKeysDiffer | src/dekache.js:104 | a `'force'` key never equals a `'renew'` key, whatever the ids |
| CacheState.Put | src/dekache.js:158 | assigning a property stores the item at the key, keeps every other entry, appends a new key to the key order and leaves an existing key in place |
| CacheState.Remove | src/dekache.js:106-107 | deleting a property removes exactly that key, keeps every other entry, and keeps the other keys in their order |
| CacheState.Get | src/dekache.js:149-162 | success exactly when the key is present or the callback returned a value; a present entry's data is returned; a hit leaves the entry renewed at `now` under `'renew'` and untouched otherwise; a populated entry is a fresh item holding the callback's value, created at `now` and enumerated last; a failure changes nothing; other entries are unchanged; on a hit the key order is unchanged, and a populated key is appended |
| CacheState.Set | src/dekache.js:170-176 | returns the value, stores a fresh item holding it at the key, leaves every other entry unchanged, keeps an existing key in place and appends a new one |
| CacheState.Delete | src/dekache.js:103-111 | true exactly when the key was present; afterwards the key is absent, every other entry unchanged and the other keys in their order |
| CacheState.SetThenGet | src/dekache.js:170-176 | a get right after a set returns the value set, for both cache types and with or without a callback |
| CacheState.DeleteThenGet | src/dekache.js:152-160 | after a delete, a get without a callback fails |
| CacheState.DeleteTwice | src/dekache.js:103-111 | a second delete of the same key reports false |
| CacheState.ForceGetIsReadOnly | src/dekache.js:152-155 | under `'force'` a get of a present entry changes nothing |
| CacheState.RenewGetRestartsClock | src/dekache.js:153-155 | under `'renew'` a get of a present entry leaves it not stale for any positive number of minutes |
| CacheState.GetKeepsDataAndInit | src/dekache.js:152-155 | a get of a present entry never changes its data or its creation time |
| Sweep.ShouldEvict | src/dekache.js:122-128 | an entry is evicted when its data is falsy, or the sweep is forced, or it is stale |
| Sweep.Evicted | src/dekache.js:117-129 | the keys a sweep evicts are stored keys, and every stored key when the sweep is forced |
| Sweep.ItemEvents | src/dekache.js:131-132 | one `'clear-item'` event per key, in key order, each carrying that key's item |
| Sweep.Clear | src/dekache.js:116-140 | the sweep keeps the dictionary well formed |
| Sweep.GatheredKeys | src/dekache.js:117-129 | the gathered keys are exactly the entries to evict, each once |
| Sweep.ClearEvictsExactly | src/dekache.js:116-134 | a key survives exactly when it is present and not falsy, forced out or stale; survivors are unchanged |
| Sweep.ClearEventCounts | src/dekache.js:130-139 | nothing evicted means no events and no change; otherwise one event per evicted entry and a `'clear'` event whose delete count is the number evicted and whose cache count is the size before the sweep |
| Sweep.ClearItemEvents | src/dekache.js:131-135 | every `'clear-item'` event names an evicted key with its item, no key appears twice, and every evicted key has one |
| Sweep.ForcedClearEmpties | src/dekache.js:116-140 | a forced sweep empties the cache, reporting every entry deleted when there was any |
| Sweep.ClearIsIdempotent | src/dekache.js:116-140 | an unforced sweep right after a sweep at the same instant emits nothing and changes nothing |
| Sweep.EvictionIsMonotone | src/dekache.js:122-128 | an entry evicted at `now` would be evicted later too, and by a forced sweep |
| Sweep.FreshItemLifetime | src/dekache.js:122-128 | an item with truthy data created at `t` survives unforced sweeps until `t + mins` minutes and is evicted from then on |
| Sweep.ClearOne | src/dekache.js:116-140 | a sweep of a single entry that is due emits its `'clear-item'` and a `'clear'` of one out of one, and leaves the cache empty |
| Sweep.KeepOne | src/dekache.js:116-140 | a sweep of a single entry that is not due emits nothing and changes nothing |
| Dekache.Merge | src/dekache.js:31-36 | `{ ...DEFAULT_OPTS, ...options }`: each given option overrides its default (`'unnamed-cache'`, `'force'`, 1 minute, 1000 ms) |
| Dekache.Cache.Key | src/dekache.js:183-185 | the internal key of an id is `Keys.Make` of the cache's type and the id, so the `Keys` lemmas apply to it |
| Dekache.Cache.constructor | src/dekache.js:54-64 | each option overrides its default (`'unnamed-cache'`, `'force'`, 1, 1000); the dictionary starts empty; the cache runs exactly when `no_start` is not set |
| Dekache.Cache.Start | src/dekache.js:70-77 | afterwards the cache is running, and the result is true whether or not it already was |
| Dekache.Cache.Stop | src/dekache.js:83-90 | true exactly when the cache was running; afterwards it is stopped |
| Dekache.Cache.Loop | src/dekache.js:95-97 | a tick is an unforced clear: result and new dictionary as `Sweep.Clear` gives them |
| Dekache.Cache.Delete | src/dekache.js:103-111 | result and new dictionary as `CacheState.Delete` at the key of the id gives them |
| Dekache.Cache.Gather | src/dekache.js:117-129 | the first loop collects, in key order, exactly the keys that hold falsy data, are forced out or are stale |
| Dekache.Cache.Evict | src/dekache.js:131-135 | the second loop removes exactly the gathered keys from the map and the key order, and logs their `'clear-item'` events in order |
| Dekache.Cache.RemoveGathered | src/dekache.js:131-135 | on a valid cache, the second loop keeps it valid and leaves the key order and entries less exactly the gathered keys |
| Dekache.Cache.Clear | src/dekache.js:116-140 | events and new dictionary as `Sweep.Clear` gives them |
| Dekache.Cache.Assign | src/dekache.js:158 | assigning an item at a key changes the dictionary as `CacheState.Put` does |
| Dekache.Cache.Get | src/dekache.js:149-162 | result and new dictionary as `CacheState.Get` gives them, renewing under `'renew'` only |
| Dekache.Cache.Set | src/dekache.js:170-176 | result and new dictionary as `CacheState.Set` gives them |
| Scenarios.StartTwiceStopTwice | src/dekache.js:70-90 | start reports true twice; stop reports true, then false |
| Scenarios.SetThenRead | src/dekache.js:149-176 | a value set is read back at once |
| Scenarios.DeleteMissingThenPresent | src/dekache.js:103-111 | deleting an absent key reports false, a present one true, and a later read without a callback fails |
| Scenarios.PopulateThenHit | src/dekache.js:149-162 | the callback populates an absent entry, and a later read returns the stored value, not its own callback's |
| Scenarios.ExpireAfterOneMinute | src/dekache.js:116-140 | on a one-minute `'force'` cache, a tick 61 s after a set evicts the entry with one `'clear-item'` and one `'clear'` event |
| Scenarios.RenewKeepsAlive | src/dekache.js:153-155 | on a `'renew'` cache, a read at 40 s keeps the entry through a tick at 70 s |
| Scenarios.ForceExpiresDespiteRead | src/dekache.js:122-125 | on a `'force'` cache the same read does not prevent eviction at 70 s |
| Scenarios.FalsyIsSweptAtOnce | src/dekache.js:122-128 | a populated falsy value is returned, but the next sweep evicts it |

## Left out

- Event delivery through Node's `EventEmitter` is not modelled. Events are returned as a log in the order they would be emitted.
- Timers are not modelled. `setInterval`/`clearInterval` become the `running` flag, so "start never replaces a running timer" becomes "start on a running cache changes nothing". A tick is a call to `Loop`. `freq` is stored and has no other effect.
- Promises and `async` are not modelled. Each operation is one atomic step, and the populate path of `get` takes the callback's outcome as a parameter. The race across the `await` at src/dekache.js:157, where two concurrent gets can both populate, is not modelled.
- The two failures of `get` are simplified. `MissingEntry` and `CallbackFailed` both correspond to a promise that never settles, with an unhandled rejection inside its executor. The model returns them as errors.
- Sweep.Clear and Dekache.Cache.Clear test every entry against one clock reading `now`. The source calls `checkTimeDiff` once per item (src/dekache.js:123), and each call reads `Date.now()` again (src/dekache-item.js:44), so items of one sweep can be tested against slightly different times.
- Dekache.Cache.constructor takes `None` for an absent option only. In the source, `{ ...DEFAULT_OPTS, ...options }` (src/dekache.js:56) also copies an option given as `undefined` over its default. With `mins: undefined` the staleness test is never true, so only falsy items are ever swept. With `type: undefined` keys begin with `"undefined_"`. The model does not cover these cases.
- `JSON.stringify` is a foreign call. Identifiers are taken as their serialized strings.
- Items.Item.constructor reads the clock once, so `time` and `init` are equal. The source calls `Date.now()` twice (src/dekache-item.js:35-36), and there `init` can exceed `time` by a millisecond.
- Truthiness is modelled on a subset of JavaScript values: undefined, null, booleans, integers, strings and objects. NaN, fractional numbers and -0 are not modelled.
- `mins` is a natural number. Fractional or negative minutes are not modelled.
- The cache `name` is stored and has no behaviour.
- Options are not validated, and neither does the source validate them.
- `Object.keys` enumerates integer-like keys before other keys. The model keeps pure insertion order. Internal keys always begin with the type and an underscore, so with the default types they are never integer-like.
- The `data` getter of the cache, which exposes `_data` itself, is not modelled.
