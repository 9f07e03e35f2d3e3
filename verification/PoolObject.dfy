/** The pool as one caller sees it when nobody interferes. */
module PoolObject {
  import opened Bytes
  import opened Values
  import opened Connections
  import opened Reader
  import opened IdleStack

  type PooledConnection = Pooled<Connection>

  /** What dialing and initialising a new connection would give. */
  datatype Dial = Dialed(conn: Connection) | DialFailed(error: Error)

  class ConnPool {
    const poolSize: nat
    const idleTimeout: Option<nat>
    var permits: nat
    var idle: seq<PooledConnection>
    var closed: bool

    constructor (poolSize: nat, idleTimeout: Option<nat>)
      ensures Valid() && permits == this.poolSize == poolSize && this.idleTimeout == idleTimeout
      ensures idle == [] && !closed
    {
      this.poolSize := poolSize;
      this.idleTimeout := idleTimeout;
      permits, idle, closed := poolSize, [], false;
    }

    /** No idle connection shares its stream with another, and none has bytes in its buffer. */
    ghost predicate Valid()
      reads this, Conns(), Streams()
    {
      permits <= poolSize && StackValid()
    }

    ghost predicate StackValid()
      reads this`idle, Conns(), Streams()
      ensures StackValid() ==> this !in Conns() && this !in Streams()
    {
      (forall i :: 0 <= i < |idle| ==> idle[i].conn.Valid() && idle[i].conn.stream.buf == []) &&
      (forall i, j :: 0 <= i < j < |idle| ==>
        idle[i].conn != idle[j].conn && idle[i].conn.stream != idle[j].conn.stream)
    }

    ghost function Streams(): set<object>
      reads this`idle
    {
      set i | 0 <= i < |idle| :: idle[i].conn.stream
    }

    ghost function Conns(): set<object>
      reads this`idle
    {
      set i | 0 <= i < |idle| :: idle[i].conn
    }

    /** A connection that no idle one is or shares a stream with. */
    ghost predicate Separate(c: Connection)
      reads this`idle
    {
      c !in Conns() && c.stream !in Streams()
    }

    /** Takes the newest idle connection off the stack. */
    method Pop() returns (pc: PooledConnection)
      requires StackValid() && idle != []
      modifies this`idle
      ensures StackValid() && idle == old(idle)[..|old(idle)| - 1] && pc == old(idle)[|old(idle)| - 1]
      ensures pc.conn.Valid() && Separate(pc.conn)
      ensures Conns() <= old(Conns()) && Streams() <= old(Streams())
    {
      pc := idle[|idle| - 1];
      idle := idle[..|idle| - 1];
    }

    /** `clock(j)` is the time of the j-th look at the stack, counting from 0. The newest idle
        connection that has not expired when looked at is reused; those above it, all expired,
        are discarded; only when none is left is a new one dialed. */
    method Get(clock: nat -> int, dial: Dial)
      returns (r: Result<PoolGuard>, looks: nat, ghost kept: nat, ghost reused: bool)
      requires Valid() && (closed || permits > 0)
      requires dial.Dialed? ==> dial.conn.Valid() && Separate(dial.conn)
      modifies this`permits, this`idle
      ensures Valid()
      ensures kept <= |old(idle)| && idle == old(idle)[..kept]
      ensures closed ==> r == Err(Closed) && looks == 0 && kept == |old(idle)| && permits == old(permits)
      ensures !closed ==> Search(idleTimeout, old(idle), clock, kept, reused, looks)
      ensures !closed && idleTimeout == None && old(idle) != [] ==> reused && looks == 1 && kept == |old(idle)| - 1
      ensures !closed && idleTimeout.Some? ==>
        forall i :: kept < i < |old(idle)| || (!reused && 0 <= i < |old(idle)|) ==>
          clock(|old(idle)| - 1 - i) - old(idle)[i].usedAt > idleTimeout.value
      ensures !closed && idleTimeout.Some? && reused ==> clock(looks - 1) - old(idle)[kept].usedAt <= idleTimeout.value
      ensures !closed && reused ==> r.Ok? && r.value.conn == old(idle)[kept].conn
      ensures !closed && !reused ==>
        match dial { case Dialed(c) => r.Ok? && r.value.conn == c case DialFailed(e) => r == Err(e) }
      ensures !closed ==> permits == if r.Ok? then old(permits) - 1 else old(permits)
      ensures r.Ok? ==> fresh(r.value) && r.value.pool == this && r.value.conn != null
      ensures r.Ok? ==> r.value.conn.Valid() && Separate(r.value.conn)
      ensures r.Ok? && r.value.conn !in old(Conns()) ==> dial.Dialed? && r.value.conn == dial.conn
      ensures r.Ok? && r.value.conn in old(Conns()) ==> r.value.conn.stream in old(Streams())
    {
      hide StackValid, Expired, Passed, BufReader.Valid, BufReader.Unread;
      looks, reused := 0, false;
      kept := |idle|;
      ghost var before := idle;
      NonePassed(idleTimeout, before, clock);
      while true
        invariant StackValid() && permits == old(permits)
        invariant dial.Dialed? ==> Separate(dial.conn)
        invariant kept == |idle| <= |before| && idle == before[..kept] && looks == |before| - kept
        invariant closed ==> idle == before && looks == 0
        invariant Passed(idleTimeout, before, clock, kept)
        decreases |idle|
      {
        if closed {
          return Err(Closed), looks, kept, reused;
        }
        permits := permits - 1;
        var now := clock(looks);
        looks := looks + 1;
        if idle != [] {
          assert idle[|idle| - 1] == before[|idle| - 1];
          var pc := Pop();
          kept := kept - 1;
          if Expired(idleTimeout, pc, now) {
            OnePassed(idleTimeout, before, clock, kept);
            permits := permits + 1;
            continue;
          }
          reused := true;
          SearchMeans(idleTimeout, before, clock, kept, reused, looks);
          var guard := new PoolGuard(this, pc.conn);
          return Ok(guard), looks, kept, reused;
        }
        SearchMeans(idleTimeout, before, clock, kept, reused, looks);
        match dial {
          case DialFailed(e) =>
            permits := permits + 1;
            return Err(e), looks, kept, reused;
          case Dialed(c) =>
            var guard := new PoolGuard(this, c);
            return Ok(guard), looks, kept, reused;
        }
      }
    }

    /** Keeps the connection on top of the stack, unless it has bytes in its buffer or the pool
        is closed. */
    method Put(conn: Connection, now: int)
      requires Valid() && conn.Valid() && Separate(conn)
      modifies this`idle
      ensures Valid()
      ensures idle == if conn.stream.buf == [] && !closed then old(idle) + [Pooled(conn, now)] else old(idle)
      ensures old(OldestFirst(idle, now)) ==> OldestFirst(idle, now)
    {
      if conn.BufferSize() > 0 {
        return;
      }
      var pc := Pooled(conn, now);
      if closed {
        return;
      }
      idle := idle + [pc];
    }

    method Close()
      requires Valid()
      modifies this`closed, this`idle
      ensures Valid() && closed
      ensures idle == if old(closed) then old(idle) else []
    {
      if closed {
        return;
      }
      closed := true;
      idle := [];
    }
  }

  /** A connection on loan, with its permit. */
  class PoolGuard {
    const pool: ConnPool
    var conn: Connection?

    constructor (pool: ConnPool, conn: Connection)
      ensures this.pool == pool && this.conn == conn
    {
      this.pool := pool;
      this.conn := conn;
    }

    /** Ends the loan: a connection still here goes back to the pool if its buffer is empty. */
    method Drop(now: int)
      requires pool.Valid() && pool.permits < pool.poolSize
      requires conn != null ==> conn.Valid() && pool.Separate(conn)
      modifies this`conn, pool`permits, pool`idle
      ensures pool.Valid() && conn == null && pool.permits == old(pool.permits) + 1
      ensures old(conn) == null ==> pool.idle == old(pool.idle)
      ensures old(conn) != null ==>
        pool.idle ==
        if old(conn).stream.buf == [] && !pool.closed then old(pool.idle) + [Pooled(old(conn), now)]
        else old(pool.idle)
    {
      var c := conn;
      conn := null;
      if c != null {
        if c.BufferSize() == 0 {
          pool.Put(c, now);
        }
      }
      pool.permits := pool.permits + 1;
    }

    /** Takes the connection out for good; only the permit goes back. */
    method Remove(now: int) returns (c: Connection)
      requires pool.Valid() && pool.permits < pool.poolSize && conn != null
      modifies this`conn, pool`permits, pool`idle
      ensures pool.Valid() && c == old(conn) && conn == null
      ensures pool.permits == old(pool.permits) + 1 && pool.idle == old(pool.idle)
    {
      c := conn;
      conn := null;
      Drop(now);
    }
  }
}
