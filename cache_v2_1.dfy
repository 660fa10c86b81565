/**
 * The local TTL cache of cache/v2_1: the same map from key to item with lazy
 * expiry on Get and a bounded ticker sweep, without an eviction callback;
 * Get tells a missing key from an expired one.
 */
module CacheV21 {
  import opened Wrappers
  import opened Expiry

  const ErrKeyNotFound: string := "key not found"
  const ErrKeyExpired: string := "key expired"

  class LocalCache<V> {
    var data: map<string, Item<V>>

    /** NewLocalCache: an empty map; the ticker it starts is the Sweep method. */
    constructor ()
      ensures data == map[]
    {
      data := map[];
    }

    /** Set: stores v with the deadline now + expiration (none for a non-positive expiration), replacing any entry. */
    method Set(k: string, v: V, expiration: int, now: int)
      modifies this
      ensures data == old(data)[k := Item(v, DeadlineFor(now, expiration))]
    {
      var dl := if expiration > 0 then At(now + expiration) else Never;
      data := data[k := Item(v, dl)];
    }

    /**
     * Get at time now: a missing key is "key not found"; an expired key is
     * deleted and is "key expired"; a live key gives its value.
     */
    method Get(k: string, now: int) returns (val: Option<V>, err: Option<string>)
      modifies this
      ensures k !in old(data) ==> val == None && err == Some(ErrKeyNotFound) && data == old(data)
      ensures k in old(data) && DeadlineBeforeNow(old(data)[k], now) ==>
        val == None && err == Some(ErrKeyExpired) && data == old(data) - {k}
      ensures k in old(data) && !DeadlineBeforeNow(old(data)[k], now) ==>
        val == Some(old(data)[k].val) && err == None && data == old(data)
    {
      if k !in data {
        return None, Some(ErrKeyNotFound);
      }
      var it := data[k];
      if it.deadline.At? && it.deadline.instant < now {
        data := data - {k};
        return None, Some(ErrKeyExpired);
      }
      return Some(it.val), None;
    }

    /** Delete: removes the key, present or not, and reports no error. */
    method Delete(k: string) returns (err: Option<string>)
      modifies this
      ensures data == old(data) - {k} && err == None
    {
      data := data - {k};
      err := None;
    }

    /**
     * One tick of the sweep at time t, ranging over the keys in the given
     * iteration order: the first SweepLimit entries are looked at and the
     * expired ones among them deleted.
     */
    method Sweep(t: int, order: seq<string>)
      requires RangeOrder(order, data)
      modifies this
      ensures data == Swept(old(data), Visited(order), t)
    {
      ghost var data0 := data;
      var i := 0;
      while i < |order|
        invariant 0 <= i <= |order| && i <= SweepLimit
        invariant data == Swept(data0, order[..i], t)
      {
        if i > 10000 {
          break;
        }
        var k := order[i];
        SweptStep(data0, order, i, t);
        var it := data[k];
        if it.deadline.At? && it.deadline.instant < t {
          data := data - {k};
        }
        i := i + 1;
      }
      assert order[..i] == Visited(order);
    }
  }
}
