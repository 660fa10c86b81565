/**
 * What the two local TTL caches (cache/local/v3 and cache/v2_1) share: an
 * entry is a value with a deadline, the zero deadline never passes, and the
 * ticker's sweep visits the entries in the map's iteration order and stops
 * after a bounded number of them. Time is an integer clock reading; the
 * map's iteration order is given to the sweep as a sequence of its keys.
 */
module Expiry {
  import opened Seqs

  /** A time.Time deadline: the zero time, or an instant. */
  datatype Deadline = Never | At(instant: int)

  /** The cache's item: the stored value and its deadline. */
  datatype Item<V> = Item(val: V, deadline: Deadline)

  /** deadlineBeforeNow: the deadline is set and strictly before t. */
  predicate DeadlineBeforeNow<V>(i: Item<V>, t: int)
  {
    i.deadline.At? && i.deadline.instant < t
  }

  /** The deadline Set stores: now plus the expiration when that is positive, and none otherwise. */
  function DeadlineFor(now: int, expiration: int): (d: Deadline)
    ensures d.Never? <==> expiration <= 0
    ensures d.At? ==> d.instant - now == expiration
  {
    if expiration > 0 then At(now + expiration) else Never
  }

  /** An entry written by Set at now with a given expiration has expired at t exactly when the expiration is positive and has run out before t. */
  lemma SetEntryExpiry<V>(v: V, now: int, expiration: int, t: int)
    ensures DeadlineBeforeNow(Item(v, DeadlineFor(now, expiration)), t) <==> expiration > 0 && now + expiration < t
  {
  }

  /** A sweep stops when its counter exceeds 10000, so it looks at no more than this many entries. */
  const SweepLimit: nat := 10001

  /** The keys a `for k, v := range c.data` visits: each key exactly once. */
  predicate RangeOrder<V>(order: seq<string>, data: map<string, Item<V>>)
  {
    && (forall i, j | 0 <= i < j < |order| :: order[i] != order[j])
    && (forall k | k in order :: k in data)
    && (forall k | k in data :: k in order)
  }

  /** The keys one sweep looks at: the first SweepLimit in the iteration order. */
  function Visited(order: seq<string>): (vs: seq<string>)
    ensures |vs| <= SweepLimit && vs <= order
    ensures |order| <= SweepLimit ==> vs == order
  {
    if |order| <= SweepLimit then order else order[..SweepLimit]
  }

  /** What a sweep over the keys vs leaves of data at t: every entry except the visited expired ones. */
  function Swept<V>(data: map<string, Item<V>>, vs: seq<string>, t: int): map<string, Item<V>>
  {
    map k | k in data && !(k in vs && DeadlineBeforeNow(data[k], t)) :: data[k]
  }

  /**
   * Visiting the i-th key of the iteration order: it has not been visited
   * yet, so it is still there with its original item, and the sweep removes
   * it exactly when that item has expired.
   */
  lemma SweptStep<V>(data: map<string, Item<V>>, order: seq<string>, i: nat, t: int)
    requires RangeOrder(order, data) && i < |order|
    ensures order[i] in Swept(data, order[..i], t) && Swept(data, order[..i], t)[order[i]] == data[order[i]]
    ensures Swept(data, order[..i + 1], t)
         == if DeadlineBeforeNow(data[order[i]], t) then Swept(data, order[..i], t) - {order[i]} else Swept(data, order[..i], t)
  {
    var k := order[i];
    assert k in data;
    assert k !in order[..i] by {
      forall j | 0 <= j < i
        ensures order[..i][j] != k
      {
        assert order[..i][j] == order[j];
      }
    }
    assert order[..i + 1] == order[..i] + [k];
  }

  /** The (key, value) pairs a sweep over the keys vs evicts from data at t, in the order it evicts them. */
  function Evictions<V>(data: map<string, Item<V>>, vs: seq<string>, t: int): (log: seq<(string, V)>)
    decreases |vs|
  {
    if vs == [] then []
    else
      var k := vs[|vs| - 1];
      Evictions(data, vs[..|vs| - 1], t) + (if k in data && DeadlineBeforeNow(data[k], t) then [(k, data[k].val)] else [])
  }

  /** Visiting one more key extends the evictions by that key's, if it has expired. */
  lemma EvictionsStep<V>(data: map<string, Item<V>>, vs: seq<string>, i: nat, t: int)
    requires i < |vs|
    ensures vs[i] in data && DeadlineBeforeNow(data[vs[i]], t) ==>
      Evictions(data, vs[..i + 1], t) == Evictions(data, vs[..i], t) + [(vs[i], data[vs[i]].val)]
    ensures !(vs[i] in data && DeadlineBeforeNow(data[vs[i]], t)) ==>
      Evictions(data, vs[..i + 1], t) == Evictions(data, vs[..i], t)
  {
    assert vs[..i + 1][..i] == vs[..i];
  }

  /**
   * One step of the sweep loop, on values: with data and log as left by the
   * first i visits, visiting order[i] finds it still present with its
   * original item, and removing and logging it exactly when it has expired
   * gives the state after i + 1 visits.
   */
  lemma SweepLoopStep<V>(data0: map<string, Item<V>>, order: seq<string>, i: nat, t: int,
                         data: map<string, Item<V>>, log0: seq<(string, V)>, log: seq<(string, V)>)
    requires RangeOrder(order, data0) && i < |order|
    requires data == Swept(data0, order[..i], t) && log == log0 + Evictions(data0, order[..i], t)
    ensures order[i] in data && data[order[i]] == data0[order[i]]
    ensures DeadlineBeforeNow(data[order[i]], t) ==>
      && Swept(data0, order[..i + 1], t) == data - {order[i]}
      && log0 + Evictions(data0, order[..i + 1], t) == log + [(order[i], data[order[i]].val)]
    ensures !DeadlineBeforeNow(data[order[i]], t) ==>
      Swept(data0, order[..i + 1], t) == data && log0 + Evictions(data0, order[..i + 1], t) == log
  {
    SweptStep(data0, order, i, t);
    EvictionsStep(data0, order, i, t);
    AppendAssoc(log0, Evictions(data0, order[..i], t), [(order[i], data[order[i]].val)]);
  }

  /** A sweep evicts exactly the visited entries that have expired, each with its stored value. */
  lemma {:induction false} EvictionsAreExpired<V>(data: map<string, Item<V>>, vs: seq<string>, t: int)
    ensures forall p :: p in Evictions(data, vs, t) <==> p.0 in vs && p.0 in data && DeadlineBeforeNow(data[p.0], t) && p.1 == data[p.0].val
    decreases |vs|
  {
    if vs != [] {
      var front := vs[..|vs| - 1];
      EvictionsAreExpired(data, front, t);
      assert vs == front + [vs[|vs| - 1]];
      forall k | k in vs
        ensures k in front || k == vs[|vs| - 1]
      {
      }
    }
  }

  /** Only visited keys are evicted. */
  lemma EvictedKeyVisited<V>(data: map<string, Item<V>>, vs: seq<string>, t: int, p: (string, V))
    requires p in Evictions(data, vs, t)
    ensures p.0 in vs
  {
    EvictionsAreExpired(data, vs, t);
  }

  /** The callback fires for exactly the entries the sweep removes: a key leaves the map iff it is logged with its value. */
  lemma SweptRemovesEvicted<V>(data: map<string, Item<V>>, vs: seq<string>, t: int)
    ensures forall k | k in data :: k !in Swept(data, vs, t) <==> (k, data[k].val) in Evictions(data, vs, t)
    ensures forall k | k in Swept(data, vs, t) :: k in data && Swept(data, vs, t)[k] == data[k]
  {
    EvictionsAreExpired(data, vs, t);
  }

  /** A sweep evicts each visited key at most once, so no more entries than it visits. */
  lemma {:induction false} EvictionsOncePerKey<V>(data: map<string, Item<V>>, vs: seq<string>, t: int)
    requires forall i, j | 0 <= i < j < |vs| :: vs[i] != vs[j]
    ensures |Evictions(data, vs, t)| <= |vs|
    ensures forall i, j | 0 <= i < j < |Evictions(data, vs, t)| :: Evictions(data, vs, t)[i].0 != Evictions(data, vs, t)[j].0
    decreases |vs|
  {
    if vs != [] {
      var front := vs[..|vs| - 1];
      var k := vs[|vs| - 1];
      EvictionsOncePerKey(data, front, t);
      EvictionsAreExpired(data, front, t);
      var log := Evictions(data, front, t);
      forall i | 0 <= i < |log|
        ensures log[i].0 != k
      {
        assert log[i] in log;
        EvictedKeyVisited(data, front, t, log[i]);
        var j :| 0 <= j < |front| && front[j] == log[i].0;
        assert vs[j] == front[j];
      }
    }
  }
}
