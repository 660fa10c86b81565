/**
 * The connection pool (micro/net/pool/pool.go): a bounded queue of idle
 * connections with the time each was last active, a count of connections
 * made by Get, and the waiters Get leaves behind when that count is at its
 * maximum. Connections are named by identity; the factory that dials them
 * and the clock are given to each operation as its outcome and its time.
 */
module Pool {
  import opened Wrappers
  import opened Bytes

  /** A net.Conn, by identity. */
  type ConnId = nat

  /** A connReq: a blocked Get, by identity. */
  type WaiterId = nat

  datatype IdleConn = IdleConn(c: ConnId, lastActiveTime: int)

  datatype PoolConfig = PoolConfig(initCnt: int, maxCnt: int, maxIdleCnt: int, maxIdleTime: int)

  const ErrInitCnt: Error := Ascii("init cnt can't be bigger than max cnt")

  /** lastActiveTime.Add(maxIdleTime).Before(now): the connection idled too long. */
  predicate Expired(ic: IdleConn, maxIdleTime: int, now: int)
  {
    ic.lastActiveTime + maxIdleTime < now
  }

  /** How many connections at the head of the idle queue have expired. */
  function LeadingExpired(q: seq<IdleConn>, maxIdleTime: int, now: int): (k: nat)
    ensures k <= |q|
    ensures forall i | 0 <= i < k :: Expired(q[i], maxIdleTime, now)
    ensures k < |q| ==> !Expired(q[k], maxIdleTime, now)
  {
    if q == [] || !Expired(q[0], maxIdleTime, now) then 0
    else 1 + LeadingExpired(q[1..], maxIdleTime, now)
  }

  /** The connections of a run of idle entries, in order. */
  function Conns(q: seq<IdleConn>): (cs: seq<ConnId>)
    ensures |cs| == |q| && forall i | 0 <= i < |q| :: cs[i] == q[i].c
  {
    if q == [] then [] else [q[0].c] + Conns(q[1..])
  }

  lemma ConnsAppend(q: seq<IdleConn>, i: nat)
    requires i < |q|
    ensures Conns(q[..i + 1]) == Conns(q[..i]) + [q[i].c]
  {
  }

  /**
   * The warm-up of NewPool over the factory's successive outcomes: the first
   * n connections, or the first error among them.
   */
  function WarmUp(made: seq<Result<ConnId, Error>>, n: nat): (r: Result<seq<ConnId>, Error>)
    requires n <= |made|
    ensures r.Ok? <==> forall i | 0 <= i < n :: made[i].Ok?
    ensures r.Ok? ==> |r.value| == n && forall i | 0 <= i < n :: r.value[i] == made[i].value
    ensures r.Err? ==> exists i | 0 <= i < n :: made[i] == Err(r.error) && forall j | 0 <= j < i :: made[j].Ok?
  {
    if n == 0 then Ok([])
    else if made[0].Err? then Err(made[0].error)
    else
      var rest := WarmUp(made[1..], n - 1);
      if rest.Err? then
        assert exists i | 0 <= i < n - 1 :: made[1..][i] == Err(rest.error) && forall j | 0 <= j < i :: made[1..][j].Ok?;
        var i :| 0 <= i < n - 1 && made[1..][i] == Err(rest.error) && forall j | 0 <= j < i :: made[1..][j].Ok?;
        assert made[i + 1] == Err(rest.error) && forall j | 0 <= j < i + 1 :: made[j].Ok?;
        rest
      else
        assert forall i | 1 <= i < n :: made[i] == made[1..][i - 1];
        Ok([made[0].value] + rest.value)
  }

  /** What Get gives back: a connection, an error, or a waiter left queued for the next Put. */
  datatype GetOutcome = Got(c: ConnId) | Failed(err: Error) | Waiting

  class Pool {
    const maxCnt: int
    const maxIdleCnt: nat
    const maxIdleTime: int
    /** The idleConns channel: oldest first, never more than maxIdleCnt. */
    var idle: seq<IdleConn>
    /** The connections Get made, less the ones Put closed. */
    var cnt: int
    /** The waiting connReqs, in the order they were appended. */
    var connReqs: seq<WaiterId>
    /** Every connection closed so far, in order. */
    var closed: seq<ConnId>
    /** Every connection Put handed to a waiter, with that waiter. */
    var handoffs: seq<(WaiterId, ConnId)>
    /** p.mu is held and nobody is left to release it: every later Lock blocks for good. */
    var locked: bool

    /** The bounds the pool keeps: the queue within its capacity, and no more connections made than allowed. */
    predicate Valid()
      reads this
    {
      |idle| <= maxIdleCnt && (cnt <= 0 || cnt <= maxCnt)
    }

    constructor (cfg: PoolConfig, idle: seq<IdleConn>)
      requires 0 <= cfg.maxIdleCnt && |idle| <= cfg.maxIdleCnt
      ensures maxCnt == cfg.maxCnt && maxIdleCnt == cfg.maxIdleCnt && maxIdleTime == cfg.maxIdleTime
      ensures this.idle == idle && cnt == 0 && connReqs == [] && closed == [] && handoffs == [] && !locked
      ensures Valid()
    {
      maxCnt, maxIdleCnt, maxIdleTime := cfg.maxCnt, cfg.maxIdleCnt, cfg.maxIdleTime;
      this.idle := idle;
      cnt, connReqs, closed, handoffs, locked := 0, [], [], [], false;
    }

    /**
     * NewPool: refuses an InitCnt above MaxIdleCnt, then makes InitCnt
     * connections, stamped now, and gives up at the first factory error.
     * The warm-up connections are not counted in cnt. A negative MaxIdleCnt
     * that passes the first check makes `make` panic.
     */
    static method NewPool(cfg: PoolConfig, made: seq<Result<ConnId, Error>>, now: int)
      returns (p: Pool?, err: Option<Error>)
      requires cfg.initCnt <= |made|
      requires cfg.initCnt > cfg.maxIdleCnt || cfg.maxIdleCnt >= 0
      ensures cfg.initCnt > cfg.maxIdleCnt ==> p == null && err == Some(ErrInitCnt)
      ensures cfg.initCnt <= cfg.maxIdleCnt ==>
        var n := if cfg.initCnt < 0 then 0 else cfg.initCnt;
        var w := WarmUp(made, n);
        && (w.Err? ==> p == null && err == Some(w.error))
        && (w.Ok? ==>
              && p != null && fresh(p) && err.None? && p.Valid()
              && p.maxCnt == cfg.maxCnt && p.maxIdleCnt == cfg.maxIdleCnt && p.maxIdleTime == cfg.maxIdleTime
              && |p.idle| == n && (forall i | 0 <= i < n :: p.idle[i] == IdleConn(w.value[i], now))
              && p.cnt == 0 && p.connReqs == [] && p.closed == [] && p.handoffs == [] && !p.locked)
    {
      if cfg.initCnt > cfg.maxIdleCnt {
        return null, Some(ErrInitCnt);
      }
      var n := if cfg.initCnt < 0 then 0 else cfg.initCnt;
      var idle: seq<IdleConn> := [];
      for i := 0 to n
        invariant |idle| == i && forall j | 0 <= j < i :: made[j].Ok? && idle[j] == IdleConn(made[j].value, now)
      {
        if made[i].Err? {
          FirstFailure(made, n, i);
          return null, Some(made[i].error);
        }
        idle := idle + [IdleConn(made[i].value, now)];
      }
      p := new Pool(cfg, idle);
      err := None;
    }

    /**
     * The select loop of Get: takes idle connections from the head of the
     * queue, closing the expired ones, and gives back the first live one, or
     * none once the queue is empty. It does not take the lock.
     */
    method TakeIdle(now: int) returns (found: Option<ConnId>)
      modifies this
      ensures var q, k := old(idle), LeadingExpired(old(idle), maxIdleTime, now);
        && closed == old(closed) + Conns(q[..k])
        && cnt == old(cnt) && connReqs == old(connReqs) && handoffs == old(handoffs) && locked == old(locked)
        && (k < |q| ==> found == Some(q[k].c) && !Expired(q[k], maxIdleTime, now) && idle == q[k + 1..])
        && (k == |q| ==> found == None && idle == [])
    {
      ghost var q := idle;
      ghost var i := 0;
      while idle != []
        invariant 0 <= i <= |q| && idle == q[i..]
        invariant forall j | 0 <= j < i :: Expired(q[j], maxIdleTime, now)
        invariant closed == old(closed) + Conns(q[..i])
        invariant cnt == old(cnt) && connReqs == old(connReqs) && handoffs == old(handoffs) && locked == old(locked)
        decreases |idle|
      {
        var ic := idle[0];
        idle := idle[1..];
        if ic.lastActiveTime + maxIdleTime < now {
          ConnsAppend(q, i);
          closed := closed + [ic.c];
          i := i + 1;
        } else {
          LeadingExpiredStops(q, maxIdleTime, now, i);
          return Some(ic.c);
        }
      }
      LeadingExpiredAll(q, maxIdleTime, now);
      found := None;
    }

    /**
     * Get, as written: a live idle connection is returned without the lock.
     * With none left it takes the lock (which never comes back once it has
     * been left held), then queues a waiter when cnt has reached maxCnt, or
     * calls the factory, counting the connection only when one is made. A
     * factory error is returned with the lock still held.
     */
    method Get(now: int, waiter: WaiterId, made: Result<ConnId, Error>) returns (out: GetOutcome)
      requires Valid()
      requires !locked || LeadingExpired(idle, maxIdleTime, now) < |idle|
      modifies this
      ensures Valid()
      ensures var q, k := old(idle), LeadingExpired(old(idle), maxIdleTime, now);
        && closed == old(closed) + Conns(q[..k])
        && handoffs == old(handoffs)
        && (k < |q| ==>
              && out == Got(q[k].c) && !Expired(q[k], maxIdleTime, now)
              && idle == q[k + 1..] && cnt == old(cnt) && connReqs == old(connReqs) && locked == old(locked))
        && (k == |q| ==>
              && idle == []
              && (old(cnt) >= maxCnt ==>
                    out == Waiting && cnt == old(cnt) && connReqs == old(connReqs) + [waiter] && !locked)
              && (old(cnt) < maxCnt && made.Err? ==>
                    out == Failed(made.error) && cnt == old(cnt) && connReqs == old(connReqs) && locked)
              && (old(cnt) < maxCnt && made.Ok? ==>
                    out == Got(made.value) && cnt == old(cnt) + 1 && connReqs == old(connReqs) && !locked))
    {
      var found := TakeIdle(now);
      if found.Some? {
        return Got(found.value);
      }
      if cnt >= maxCnt {
        connReqs := connReqs + [waiter];
        return Waiting;
      }
      if made.Err? {
        locked := true;
        return Failed(made.error);
      }
      cnt := cnt + 1;
      out := Got(made.value);
    }

    /**
     * Get with the lock released before the factory error is returned, as
     * every other path of Get releases it: the pool never stays locked.
     */
    method GetUnlocking(now: int, waiter: WaiterId, made: Result<ConnId, Error>) returns (out: GetOutcome)
      requires Valid() && !locked
      modifies this
      ensures Valid() && !locked
      ensures var q, k := old(idle), LeadingExpired(old(idle), maxIdleTime, now);
        && closed == old(closed) + Conns(q[..k])
        && handoffs == old(handoffs)
        && (k < |q| ==>
              && out == Got(q[k].c) && !Expired(q[k], maxIdleTime, now)
              && idle == q[k + 1..] && cnt == old(cnt) && connReqs == old(connReqs))
        && (k == |q| ==>
              && idle == []
              && (old(cnt) >= maxCnt ==> out == Waiting && cnt == old(cnt) && connReqs == old(connReqs) + [waiter])
              && (old(cnt) < maxCnt && made.Err? ==>
                    out == Failed(made.error) && cnt == old(cnt) && connReqs == old(connReqs))
              && (old(cnt) < maxCnt && made.Ok? ==>
                    out == Got(made.value) && cnt == old(cnt) + 1 && connReqs == old(connReqs)))
    {
      var found := TakeIdle(now);
      if found.Some? {
        return Got(found.value);
      }
      if cnt >= maxCnt {
        connReqs := connReqs + [waiter];
        return Waiting;
      }
      if made.Err? {
        return Failed(made.error);
      }
      cnt := cnt + 1;
      out := Got(made.value);
    }

    /**
     * Put: hands the connection to the most recently queued waiter, if any;
     * otherwise returns it to the idle queue, stamped now, when there is room,
     * and closes it and uncounts it when there is not.
     */
    method Put(now: int, c: ConnId)
      requires Valid() && !locked
      modifies this
      ensures Valid() && locked == old(locked)
      ensures old(connReqs) != [] ==>
        && connReqs == old(connReqs)[..|old(connReqs)| - 1]
        && handoffs == old(handoffs) + [(old(connReqs)[|old(connReqs)| - 1], c)]
        && idle == old(idle) && cnt == old(cnt) && closed == old(closed)
      ensures old(connReqs) == [] && |old(idle)| < maxIdleCnt ==>
        && idle == old(idle) + [IdleConn(c, now)]
        && cnt == old(cnt) && closed == old(closed) && connReqs == [] && handoffs == old(handoffs)
      ensures old(connReqs) == [] && |old(idle)| == maxIdleCnt ==>
        && closed == old(closed) + [c] && cnt == old(cnt) - 1
        && idle == old(idle) && connReqs == [] && handoffs == old(handoffs)
    {
      if |connReqs| > 0 {
        var req := connReqs[|connReqs| - 1];
        connReqs := connReqs[..|connReqs| - 1];
        handoffs := handoffs + [(req, c)];
        return;
      }
      if |idle| < maxIdleCnt {
        idle := idle + [IdleConn(c, now)];
      } else {
        closed := closed + [c];
        cnt := cnt - 1;
      }
    }
  }

  /**
   * A failed dial leaves the pool locked: with no idle connection, room for
   * one more and a failing factory, Get returns the error, and from then on
   * no Put can return, since it must take the lock first.
   */
  method FailedDialLeavesPoolLocked(e: Error) returns (p: Pool, out: GetOutcome)
    ensures out == Failed(e) && p.locked
    ensures p.idle == [] && p.cnt == 0 && p.cnt < p.maxCnt
  {
    p := new Pool(PoolConfig(0, 1, 1, 0), []);
    out := p.Get(0, 0, Err(e));
  }

  /** With the lock released on a failed dial, the next Put returns the connection to the idle queue. */
  method FailedDialThenPut(e: Error, c: ConnId) returns (p: Pool, out: GetOutcome)
    ensures out == Failed(e) && !p.locked
    ensures p.idle == [IdleConn(c, 0)] && p.cnt == 0
  {
    p := new Pool(PoolConfig(0, 1, 1, 0), []);
    out := p.GetUnlocking(0, 0, Err(e));
    p.Put(0, c);
  }

  /** The first error of the warm-up is the one WarmUp reports. */
  lemma FirstFailure(made: seq<Result<ConnId, Error>>, n: nat, i: nat)
    requires i < n <= |made| && made[i].Err? && forall j | 0 <= j < i :: made[j].Ok?
    ensures WarmUp(made, n) == Err(made[i].error)
    decreases i
  {
    if i > 0 {
      FirstFailure(made[1..], n - 1, i - 1);
    }
  }

  /** The drain stops at the first live connection. */
  lemma LeadingExpiredStops(q: seq<IdleConn>, maxIdleTime: int, now: int, i: nat)
    requires i < |q| && !Expired(q[i], maxIdleTime, now)
    requires forall j | 0 <= j < i :: Expired(q[j], maxIdleTime, now)
    ensures LeadingExpired(q, maxIdleTime, now) == i
    decreases i
  {
    if i > 0 {
      LeadingExpiredStops(q[1..], maxIdleTime, now, i - 1);
    }
  }

  /** A queue that is expired throughout is drained completely. */
  lemma LeadingExpiredAll(q: seq<IdleConn>, maxIdleTime: int, now: int)
    requires forall j | 0 <= j < |q| :: Expired(q[j], maxIdleTime, now)
    ensures LeadingExpired(q, maxIdleTime, now) == |q|
  {
    if q != [] {
      LeadingExpiredAll(q[1..], maxIdleTime, now);
    }
  }
}
