/**
 * The single-flight TTL cache of lib/kill-switch.ts and db/custom-capability.dao.ts: a
 * cached value with its time, and at most one shared query in flight.
 */
module SingleFlight {
  import opened Prelude

  const CACHE_TTL_MS := 5000

  datatype Entry<V> = Entry(value: V, at: int)

  /** The two module variables. A promise is named by the query it stands for. */
  datatype Memory<V> = Memory(cache: Option<Entry<V>>, inFlight: Option<nat>)

  datatype Answer<V> = Hit(value: V) | Join(query: nat) | Start(query: nat)

  predicate Live<V>(e: Option<Entry<V>>, now: int) {
    e.Some? && now - e.value.at < CACHE_TTL_MS
  }

  function AfterGet<V>(m: Memory<V>, now: int, fresh': nat): (r: (Memory<V>, Answer<V>)) {
    if Live(m.cache, now) then (m, Hit(m.cache.value.value))
    else match m.inFlight
         case Some(q) => (m, Join(q))
         case None => (m.(inFlight := Some(fresh')), Start(fresh'))
  }

  function AfterRows<V>(m: Memory<V>, value: V, now: int): Memory<V> {
    m.(cache := Some(Entry(value, now)))
  }

  function AfterSettled<V>(m: Memory<V>): Memory<V> {
    m.(inFlight := None)
  }

  function AfterInvalidate<V>(m: Memory<V>): Memory<V> {
    m.(cache := None)
  }

  /** Each synchronous stretch of the module's code, between awaits. */
  class SingleFlightCache<V> {
    var cache: Option<Entry<V>>
    var inFlight: Option<nat>

    function Contents(): Memory<V>
      reads this
    {
      Memory(cache, inFlight)
    }

    constructor ()
      ensures Contents() == Memory(None, None)
    {
      cache, inFlight := None, None;
    }

    /** `getKillSwitchState` / `listNames` up to the await; `fresh'` names the query it may issue. */
    method Get(now: int, fresh': nat) returns (a: Answer<V>)
      modifies this
      ensures (Contents(), a) == AfterGet(old(Contents()), now, fresh')
    {
      if cache.Some? && now - cache.value.at < CACHE_TTL_MS {
        return Hit(cache.value.value);
      }
      if inFlight.None? {
        inFlight := Some(fresh');
        return Start(fresh');
      }
      return Join(inFlight.value);
    }

    /** The `.then` callback. */
    method OnRows(value: V, now: int)
      modifies this
      ensures Contents() == AfterRows(old(Contents()), value, now)
    {
      cache := Some(Entry(value, now));
    }

    /** The `.finally` callback, after success or failure. */
    method OnSettled()
      modifies this
      ensures Contents() == AfterSettled(old(Contents()))
    {
      inFlight := None;
    }

    method Invalidate()
      modifies this
      ensures Contents() == AfterInvalidate(old(Contents()))
    {
      cache := None;
    }
  }
}
