/** Short client programs over Dekache.Cache, showing what its contracts let a
    caller conclude. Identifiers are passed already serialized, as
    JSON.stringify would produce them. */
module Scenarios {
  import opened JsValues
  import opened Items
  import opened CacheState
  import opened Sweep
  import opened Dekache

  /** A cache created with no_start: start reports true twice; stop reports
      true, then false. */
  method StartTwiceStopTwice() returns (start1: bool, start2: bool, stop1: bool, stop2: bool)
    ensures start1 && start2 && stop1 && !stop2
  {
    var c := new Cache(Options(None, None, None, None, true));
    start1 := c.Start();
    start2 := c.Start();
    stop1 := c.Stop();
    stop2 := c.Stop();
  }

  /** A value set is read back at once. */
  method SetThenRead() returns (stored: JsValue, read: Result<JsValue, GetError>)
    ensures stored == Num(42) && read == Ok(Num(42))
  {
    var c := new Cache(Options(None, None, None, None, true));
    stored := c.Set("\"a\"", Num(42), 0);
    read := c.Get("\"a\"", NoCallback, 0);
  }

  /** Deleting an absent key reports false; deleting a present one reports
      true, after which a read without callback fails. */
  method DeleteMissingThenPresent() returns (missing: bool, present: bool, after: Result<JsValue, GetError>)
    ensures !missing && present && after == Err(MissingEntry)
  {
    var c := new Cache(Options(None, None, None, None, true));
    missing := c.Delete("\"missing-key\"");
    var _ := c.Set("\"x\"", Num(1), 0);
    present := c.Delete("\"x\"");
    after := c.Get("\"x\"", NoCallback, 0);
  }

  /** The callback populates an absent entry; a later read returns the stored
      value and ignores its own callback's value. */
  method PopulateThenHit() returns (first: Result<JsValue, GetError>, second: Result<JsValue, GetError>)
    ensures first == Ok(Num(1)) && second == Ok(Num(1))
  {
    var c := new Cache(Options(None, None, None, None, true));
    first := c.Get("\"p\"", Returns(Num(1)), 0);
    second := c.Get("\"p\"", Returns(Num(2)), 0);
  }

  /** A 'force' cache with a one-minute lifetime (the dictionary as a value):
      a tick 61 seconds after a value was set evicts it, with one 'clear-item'
      and one 'clear' event, after which a read without callback fails. */
  lemma {:induction false} ExpireAfterOneMinute(k: string)
    ensures var s1 := CacheState.Set(Store([], map[]), k, Num(42), 0).store;
      var tick := Sweep.Clear(s1, false, 1, 61000);
      && tick.result == [ClearItem(Fresh(Num(42), 0), k), ClearSummary(map[], 1, 1)]
      && CacheState.Get(tick.store, false, k, NoCallback, 61000).result == Err(MissingEntry)
  {
    var s1 := CacheState.Set(Store([], map[]), k, Num(42), 0).store;
    assert s1 == Store([k], map[k := Fresh(Num(42), 0)]);
    ClearOne(k, Fresh(Num(42), 0), false, 1, 61000);
  }

  /** A 'renew' cache: a read 40 seconds after the value was set restarts its
      minute, so a tick at 70 seconds evicts nothing and the value is still
      there. */
  lemma {:induction false} RenewKeepsAlive(k: string)
    ensures var s1 := CacheState.Set(Store([], map[]), k, Num(7), 0).store;
      var s2 := CacheState.Get(s1, true, k, NoCallback, 40000).store;
      var tick := Sweep.Clear(s2, false, 1, 70000);
      && tick.result == []
      && CacheState.Get(tick.store, true, k, NoCallback, 70000).result == Ok(Num(7))
  {
    var s1 := CacheState.Set(Store([], map[]), k, Num(7), 0).store;
    assert s1 == Store([k], map[k := Fresh(Num(7), 0)]);
    var s2 := CacheState.Get(s1, true, k, NoCallback, 40000).store;
    assert s2 == Store([k], map[k := ItemState(Num(7), 40000, 0)]);
    KeepOne(k, ItemState(Num(7), 40000, 0), false, 1, 70000);
  }

  /** The same steps on a 'force' cache: the read does not renew, so the tick
      at 70 seconds evicts the value. */
  lemma {:induction false} ForceExpiresDespiteRead(k: string)
    ensures var s1 := CacheState.Set(Store([], map[]), k, Num(7), 0).store;
      var s2 := CacheState.Get(s1, false, k, NoCallback, 40000).store;
      var tick := Sweep.Clear(s2, false, 1, 70000);
      && |tick.result| == 2
      && CacheState.Get(tick.store, false, k, NoCallback, 70000).result == Err(MissingEntry)
  {
    var s1 := CacheState.Set(Store([], map[]), k, Num(7), 0).store;
    assert s1 == Store([k], map[k := Fresh(Num(7), 0)]);
    ClearOne(k, Fresh(Num(7), 0), false, 1, 70000);
  }

  /** A populated falsy value is returned, but the very next sweep evicts it. */
  method FalsyIsSweptAtOnce() returns (read: Result<JsValue, GetError>, log: seq<Event>)
    ensures read == Ok(Num(0)) && |log| == 2
  {
    var c := new Cache(Options(None, None, None, None, true));
    var k := c.Key("\"z\"");
    read := c.Get("\"z\"", Returns(Num(0)), 0);
    assert c.Abstract() == Store([k], map[k := Fresh(Num(0), 0)]);
    ClearOne(k, Fresh(Num(0), 0), false, c.mins, 0);
    log := c.Clear(false, 0);
  }
}
