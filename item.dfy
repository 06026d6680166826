/** A cache item (DekacheItem): a value with the time it was created and the
    time it was last renewed. Times are milliseconds; the clock is a parameter. */
module Items {
  import opened JsValues

  /** One minute in milliseconds, the factor `1000 * 60` of the staleness test. */
  const MsPerMinute: int := 60000

  /** What an item holds: `data`, the last renewal `time` and the creation time `init`. */
  datatype ItemState = ItemState(data: JsValue, time: int, init: int)

  /** The staleness test of checkTimeDiff: at least `mins` minutes have passed
      since the last renewal. */
  predicate Stale(st: ItemState, mins: nat, now: int) {
    now - st.time >= MsPerMinute * mins
  }

  /** A newly created item: both timestamps read from the same clock value. */
  function Fresh(data: JsValue, now: int): (st: ItemState)
    ensures st.data == data && st.time == now && st.init == now
    ensures forall mins: nat :: mins > 0 ==> !Stale(st, mins, now)
  {
    ItemState(data, now, now)
  }

  /** An item renewed at `now`: only the renewal time moves. */
  function Renewed(st: ItemState, now: int): (r: ItemState)
    ensures r.time == now && r.data == st.data && r.init == st.init
    ensures forall mins: nat :: mins > 0 ==> !Stale(r, mins, now)
  {
    st.(time := now)
  }

  /** Once stale, an item stays stale as the clock advances. */
  lemma StaleIsMonotone(st: ItemState, mins: nat, now: int, later: int)
    requires now <= later && Stale(st, mins, now)
    ensures Stale(st, mins, later)
  {
  }

  /** The test looks at the renewal time only: neither the creation time nor the
      data affect it. */
  lemma StaleIgnoresInit(st: ItemState, mins: nat, now: int, init: int, data: JsValue)
    ensures Stale(st.(init := init, data := data), mins, now) == Stale(st, mins, now)
  {
  }

  /** The item's deadline: it is stale exactly from `time + mins` minutes on,
      the boundary included. */
  lemma StaleDeadline(st: ItemState, mins: nat, now: int)
    ensures Stale(st, mins, now) <==> now >= st.time + MsPerMinute * mins
  {
  }

  /** With a clock that does not run backwards, renewal keeps the renewal time
      at or after the creation time, and never moves it back. */
  lemma RenewKeepsTimesOrdered(st: ItemState, now: int)
    requires st.init <= st.time <= now
    ensures st.time <= Renewed(st, now).time
    ensures Renewed(st, now).init <= Renewed(st, now).time
  {
  }

  /** DekacheItem. The getters `data`, `time` and `init` are the fields. */
  class Item {
    var data: JsValue
    var time: int
    var init: int

    /** initialize: holds `cacheData`, created and renewed at `now`. */
    constructor (cacheData: JsValue, now: int)
      ensures State() == Fresh(cacheData, now)
    {
      data := cacheData;
      time := now;
      init := now;
    }

    function State(): ItemState
      reads this
    {
      ItemState(data, time, init)
    }

    /** checkTimeDiff: the staleness test on the item's current state. */
    function CheckTimeDiff(mins: nat, now: int): (stale: bool)
      reads this
      ensures stale == Stale(State(), mins, now)
    {
      Stale(State(), mins, now)
    }

    /** renew: the renewal time becomes `now`; nothing else changes. */
    method Renew(now: int)
      modifies this
      ensures State() == Renewed(old(State()), now)
    {
      time := now;
    }
  }
}
