/** The stack of idle connections: their age, and what `get` and `put` do with it. */
module IdleStack {
  import opened Bytes

  /** A connection in the stack, with the time it was last used. */
  datatype Pooled<+C> = Pooled(conn: C, usedAt: int)

  predicate Expired<C>(timeout: Option<nat>, pc: Pooled<C>, now: int) {
    timeout.Some? && now - pc.usedAt > timeout.value
  }

  /** A search from the top, whose `j`-th look was at time `clock(j)`, found everything from
      `bottom` up expired when it looked. */
  ghost predicate Passed<C>(timeout: Option<nat>, idle: seq<Pooled<C>>, clock: nat -> int, bottom: nat) {
    forall i :: bottom <= i < |idle| ==> Expired(timeout, idle[i], clock(|idle| - 1 - i))
  }

  lemma NonePassed<C>(timeout: Option<nat>, idle: seq<Pooled<C>>, clock: nat -> int)
    ensures Passed(timeout, idle, clock, |idle|)
  {
  }

  lemma OnePassed<C>(timeout: Option<nat>, idle: seq<Pooled<C>>, clock: nat -> int, bottom: nat)
    requires bottom < |idle| && Passed(timeout, idle, clock, bottom + 1)
    requires Expired(timeout, idle[bottom], clock(|idle| - 1 - bottom))
    ensures Passed(timeout, idle, clock, bottom)
  {
  }

  /** The search ended at `kept`, the first connection that had not expired, or with none left. */
  ghost predicate Search<C>(timeout: Option<nat>, idle: seq<Pooled<C>>, clock: nat -> int,
      kept: nat, reused: bool, looks: nat)
  {
    if reused then
      kept < |idle| && looks == |idle| - kept && Passed(timeout, idle, clock, kept + 1) &&
      !Expired(timeout, idle[kept], clock(looks - 1))
    else
      kept == 0 && looks == |idle| + 1 && Passed(timeout, idle, clock, 0)
  }

  /** In numbers: what was passed over was older than the timeout when looked at, and what was
      found was not; without a timeout the top is taken at the first look. */
  lemma SearchMeans<C>(timeout: Option<nat>, idle: seq<Pooled<C>>, clock: nat -> int,
      kept: nat, reused: bool, looks: nat)
    requires Search(timeout, idle, clock, kept, reused, looks)
    ensures timeout == None && idle != [] ==> reused && looks == 1 && kept == |idle| - 1
    ensures timeout.Some? ==>
      forall i :: kept < i < |idle| || (!reused && 0 <= i < |idle|) ==>
        clock(|idle| - 1 - i) - idle[i].usedAt > timeout.value
    ensures timeout.Some? && reused ==> clock(looks - 1) - idle[kept].usedAt <= timeout.value
  {
    if timeout == None && idle != [] {
      var top := |idle| - 1;
      assert !Expired(timeout, idle[top], clock(0));
    }
  }

  /** The stack after `put`: the connection on top, if it is clean and the pool open. */
  function Restacked<C>(idle: seq<Pooled<C>>, conn: C, clean: bool, closed: bool, now: int): seq<Pooled<C>> {
    if clean && !closed then idle + [Pooled(conn, now)] else idle
  }

  /** Oldest first, and nothing newer than `now`. */
  ghost predicate OldestFirst<C>(idle: seq<Pooled<C>>, now: int) {
    (forall i, j :: 0 <= i <= j < |idle| ==> idle[i].usedAt <= idle[j].usedAt) &&
    forall i :: 0 <= i < |idle| ==> idle[i].usedAt <= now
  }

  /** In an ordered stack, once the top has expired everything has, and stays so. */
  lemma ExpiredTop<C>(timeout: Option<nat>, idle: seq<Pooled<C>>, now: int, later: int)
    requires OldestFirst(idle, now) && idle != [] && now <= later && Expired(timeout, idle[|idle| - 1], now)
    ensures forall i :: 0 <= i < |idle| ==> Expired(timeout, idle[i], later)
  {
  }
}
