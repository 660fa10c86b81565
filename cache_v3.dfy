/**
 * The local TTL cache of cache/local/v3: a map from key to item with lazy
 * expiry on Get, Delete and LoadAndDelete, an optional eviction callback,
 * and the ticker's bounded sweep. The callback's calls are recorded in
 * order in `evicted`; a cache built without a callback would panic on the
 * first eviction, so the operations that evict demand one when they would.
 */
module CacheV3 {
  import opened Wrappers
  import opened Expiry

  /** errKeyNotFound. */
  const ErrKeyNotFound: string := "cache\U{FF1A}key not found"

  /** The error Get gives for a missing or expired key: errKeyNotFound wrapped with the key. */
  function KeyNotFound(k: string): (e: string)
    ensures |e| == |ErrKeyNotFound| + 7 + |k|
    ensures e[..|ErrKeyNotFound|] == ErrKeyNotFound
    ensures e[|ErrKeyNotFound| + 7..] == k
  {
    ErrKeyNotFound + ", key: " + k
  }

  /** The wrapped error names its key: two keys give the same error only if they are the same key. */
  lemma KeyNotFoundInjective(k1: string, k2: string)
    requires KeyNotFound(k1) == KeyNotFound(k2)
    ensures k1 == k2
  {
    assert k1 == KeyNotFound(k1)[|ErrKeyNotFound| + 7..];
  }

  class LocalCache<V> {
    var data: map<string, Item<V>>
    /** The calls made to the eviction callback, in order: (key, value). */
    var evicted: seq<(string, V)>
    /** Whether LocalCacheWithEvictedCallback installed a callback. */
    const hasCallback: bool

    /** NewLocalCache: an empty map; the ticker it starts is the Sweep method. */
    constructor (hasCallback: bool)
      ensures data == map[] && evicted == [] && this.hasCallback == hasCallback
    {
      data := map[];
      evicted := [];
      this.hasCallback := hasCallback;
    }

    /** Evicting k cannot reach a nil callback: there is one, or k is absent. */
    predicate CanEvict(k: string)
      reads this
    {
      hasCallback || k !in data
    }

    /** delete: removes a present key and calls the callback with its value; an absent key is left alone. */
    method Evict(k: string)
      requires CanEvict(k)
      modifies this
      ensures k in old(data) ==> data == old(data) - {k} && evicted == old(evicted) + [(k, old(data)[k].val)]
      ensures k !in old(data) ==> data == old(data) && evicted == old(evicted)
    {
      if k !in data {
        return;
      }
      var it := data[k];
      data := data - {k};
      evicted := evicted + [(k, it.val)];
    }

    /** Set: stores v with the deadline now + expiration (none for a non-positive expiration), replacing any entry and calling no callback. */
    method Set(k: string, v: V, expiration: int, now: int) returns (err: Option<string>)
      modifies this
      ensures data == old(data)[k := Item(v, DeadlineFor(now, expiration))]
      ensures evicted == old(evicted) && err == None
    {
      var dl := if expiration > 0 then At(now + expiration) else Never;
      data := data[k := Item(v, dl)];
      err := None;
    }

    /**
     * Get at time now: a missing key is an error naming it; an expired key
     * is evicted and is the same error; a live key gives its value.
     */
    method Get(k: string, now: int) returns (val: Option<V>, err: Option<string>)
      requires hasCallback || k !in data || !DeadlineBeforeNow(data[k], now)
      modifies this
      ensures k !in old(data) ==>
        val == None && err == Some(KeyNotFound(k)) && data == old(data) && evicted == old(evicted)
      ensures k in old(data) && DeadlineBeforeNow(old(data)[k], now) ==>
        && val == None && err == Some(KeyNotFound(k))
        && data == old(data) - {k} && evicted == old(evicted) + [(k, old(data)[k].val)]
      ensures k in old(data) && !DeadlineBeforeNow(old(data)[k], now) ==>
        val == Some(old(data)[k].val) && err == None && data == old(data) && evicted == old(evicted)
    {
      if k !in data {
        return None, Some(KeyNotFound(k));
      }
      var it := data[k];
      if it.deadline.At? && it.deadline.instant < now {
        Evict(k);
        return None, Some(KeyNotFound(k));
      }
      return Some(it.val), None;
    }

    /** Delete: removes the key, present or not, without calling the callback. */
    method Delete(k: string) returns (err: Option<string>)
      modifies this
      ensures data == old(data) - {k} && evicted == old(evicted) && err == None
    {
      data := data - {k};
      err := None;
    }

    /** LoadAndDelete: a present key is evicted and its value returned; an absent key gives errKeyNotFound itself, unwrapped. */
    method LoadAndDelete(k: string) returns (val: Option<V>, err: Option<string>)
      requires CanEvict(k)
      modifies this
      ensures k in old(data) ==>
        && val == Some(old(data)[k].val) && err == None
        && data == old(data) - {k} && evicted == old(evicted) + [(k, old(data)[k].val)]
      ensures k !in old(data) ==>
        val == None && err == Some(ErrKeyNotFound) && data == old(data) && evicted == old(evicted)
    {
      if k !in data {
        return None, Some(ErrKeyNotFound);
      }
      var it := data[k];
      Evict(k);
      return Some(it.val), None;
    }

    /**
     * One tick of the sweep at time t, ranging over the keys in the given
     * iteration order: the first SweepLimit entries are looked at and the
     * expired ones among them evicted, each through the callback.
     */
    method Sweep(t: int, order: seq<string>)
      requires RangeOrder(order, data)
      requires hasCallback || forall k | k in Visited(order) && k in data :: !DeadlineBeforeNow(data[k], t)
      modifies this
      ensures data == Swept(old(data), Visited(order), t)
      ensures evicted == old(evicted) + Evictions(old(data), Visited(order), t)
    {
      ghost var data0 := data;
      ghost var evicted0 := evicted;
      var i := 0;
      while i < |order|
        invariant 0 <= i <= |order| && i <= SweepLimit
        invariant data == Swept(data0, order[..i], t)
        invariant evicted == evicted0 + Evictions(data0, order[..i], t)
      {
        if i > 10000 {
          break;
        }
        var k := order[i];
        SweepLoopStep(data0, order, i, t, data, evicted0, evicted);
        var it := data[k];
        if it.deadline.At? && it.deadline.instant < t {
          assert k in Visited(order);
          Evict(k);
        }
        i := i + 1;
      }
      assert order[..i] == Visited(order);
    }
  }
}
