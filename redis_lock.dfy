/**
  The lease lock: `tryLock`, the blocking `lock`, the budgeted `lock(timeout)` and `unlock`,
  built on a Redis store's atomic `SET key val NX EX lockTime` and `DEL key`.

  The store is shared with other clients. While this client sleeps between two attempts,
  other clients and lease expiry may change it in any way; each such sleep is one step in
  which the store becomes the next map of the schedule `env` (once `env` is used up,
  nobody touches the store any more).
*/
module RedisLocks {
  import opened Common

  const LOCK_SUCCESS_FLAG: string := "OK"
  const UNLOCK_SUCCESS_FLAG: int := 1
  /** Milliseconds slept between two attempts. */
  const SLEEP_TIME: int := 200

  /** A command this client sends to Redis. */
  datatype Command = Set(key: string, val: string, expiry: int) | Del(key: string)

  /** A call of the lease lock's public operations, as the reentrant decorator makes them. */
  datatype Call =
    | TryLockCall(key: string)
    | LockCall(key: string)
    | TimedLockCall(key: string)
    | UnlockCall(key: string)

  /** The store as seen before attempt `j` of a retry loop that started on `s0`. */
  function Observed(s0: map<string, string>, env: seq<map<string, string>>, j: nat): map<string, string>
  {
    if j == 0 || |env| == 0 then s0 else env[Min(j, |env|) - 1]
  }

  /** The first `n` attempts all found the key present. */
  ghost predicate FailedUpTo(s0: map<string, string>, env: seq<map<string, string>>, key: string, n: int)
  {
    forall i :: 0 <= i < n ==> key in Observed(s0, env, i)
  }

  /** `n` identical conditional sets. */
  ghost function Tries(key: string, val: string, expiry: int, n: nat): (cmds: seq<Command>)
    ensures |cmds| == n
  {
    if n == 0 then [] else Tries(key, val, expiry, n - 1) + [Set(key, val, expiry)]
  }

  /** `x` narrowed to Java's 32-bit `int`, as a Java `int` product wraps. */
  function WrapInt32(x: int): Int32
  {
    var m := x % 0x1_0000_0000;
    if m < 0x8000_0000 then m else m - 0x1_0000_0000
  }

  /** `long bolckTime = timeout * 1000` as written: the product is an `int` and wraps before widening. */
  function BudgetAsWritten(timeout: Int32): int
  {
    WrapInt32(timeout * 1000)
  }

  /** The evidently intended budget: the timeout in milliseconds, in `long` arithmetic. */
  function Budget(timeout: Int32): int
  {
    timeout * 1000
  }

  /** How many attempts a loop starting at `budget` and dropping by SLEEP_TIME while `>= 0` makes. */
  function AttemptBound(budget: int): nat
  {
    if budget < 0 then 0 else budget / SLEEP_TIME + 1
  }

  /** Attempt `j` (counting from 0) happens exactly when its budget is still non-negative. */
  lemma AttemptRuns(budget: int, j: nat)
    ensures budget - SLEEP_TIME * j >= 0 <==> j < AttemptBound(budget)
  {
    if budget >= 0 {
      var q := budget / SLEEP_TIME;
      assert budget == SLEEP_TIME * q + budget % SLEEP_TIME;
      if j <= q {
        assert SLEEP_TIME * j <= SLEEP_TIME * q;
      } else {
        assert SLEEP_TIME * j >= SLEEP_TIME * q + SLEEP_TIME;
      }
    }
  }

  /** A timeout of `t >= 0` seconds allows `t * 1000 / 200 + 1` attempts (one for `t == 0`), a negative one none. */
  lemma AttemptsPerTimeout(timeout: Int32)
    ensures timeout >= 0 ==> AttemptBound(Budget(timeout)) == Budget(timeout) / SLEEP_TIME + 1 == 5 * timeout + 1
    ensures timeout < 0 ==> AttemptBound(Budget(timeout)) == 0
  {
    if timeout >= 0 {
      assert Budget(timeout) == SLEEP_TIME * (5 * timeout);
    }
  }

  /** For timeouts up to 2147483 seconds the `int` product does not wrap. */
  lemma BudgetAsWrittenAgrees(timeout: Int32)
    requires -2147483 <= timeout <= 2147483
    ensures BudgetAsWritten(timeout) == Budget(timeout)
  {
    var x := timeout * 1000;
    if x >= 0 {
      assert x % 0x1_0000_0000 == x;
    } else {
      assert x % 0x1_0000_0000 == x + 0x1_0000_0000;
    }
  }

  /**
    A timeout of 2147484 seconds (under 25 days) wraps to a negative budget: no attempt at
    all. A timeout of -2147484 wraps to a positive one: over ten million attempts.
  */
  lemma BudgetAsWrittenWraps()
    ensures BudgetAsWritten(2147484) == -2147483296
    ensures AttemptBound(BudgetAsWritten(2147484)) == 0
    ensures AttemptBound(Budget(2147484)) == 10737421
    ensures BudgetAsWritten(-2147484) == 2147483296
    ensures AttemptBound(BudgetAsWritten(-2147484)) == 10737417
    ensures AttemptBound(Budget(-2147484)) == 0
  {
    assert 2147484 * 1000 == 2147484000;
    assert 2147484000 % 0x1_0000_0000 == 2147484000;
    assert -2147484 * 1000 == -2147484000;
    assert -2147484000 % 0x1_0000_0000 == 2147483296;
  }

  /**
    The attempts the loop as written makes: `5 * timeout + 1` for `0 <= timeout <= 2147483`,
    none for `-2147483 <= timeout < 0`.
  */
  lemma AttemptsAsWritten(timeout: Int32)
    requires -2147483 <= timeout <= 2147483
    ensures timeout >= 0 ==> AttemptBound(BudgetAsWritten(timeout)) == 5 * timeout + 1
    ensures timeout < 0 ==> AttemptBound(BudgetAsWritten(timeout)) == 0
  {
    BudgetAsWrittenAgrees(timeout);
    AttemptsPerTimeout(timeout);
  }

  /** The Redis server reached through the connection pool: one key/value map shared by all clients. */
  class RedisStore {
    var data: map<string, string>
    /** The commands this client has sent, in order. */
    ghost var received: seq<Command>

    constructor ()
      ensures data == map[] && received == []
    {
      data := map[];
      received := [];
    }

    /** `SET key val NX EX expiry`: "OK" when it stored the pair, null when the key was present. */
    method SetNxEx(key: string, val: string, expiry: Int32) returns (r: Result<Option<string>>)
      modifies this
      ensures received == old(received) + [Set(key, val, expiry)]
      ensures expiry <= 0 ==> r == Err(InvalidExpireTime) && data == old(data)
      ensures expiry > 0 && key !in old(data) ==> r == Ok(Some("OK")) && data == old(data)[key := val]
      ensures expiry > 0 && key in old(data) ==> r == Ok(None) && data == old(data)
    {
      received := received + [Set(key, val, expiry)];
      if expiry <= 0 {
        r := Err(InvalidExpireTime);
      } else if key in data {
        r := Ok(None);
      } else {
        data := data[key := val];
        r := Ok(Some("OK"));
      }
    }

    /** `DEL key`: the number of keys it removed. */
    method Del(key: string) returns (removed: int)
      modifies this
      ensures received == old(received) + [Command.Del(key)]
      ensures removed == if key in old(data) then 1 else 0
      ensures data == old(data) - {key}
    {
      received := received + [Command.Del(key)];
      removed := if key in data then 1 else 0;
      data := data - {key};
    }

    /** Environment: while this client sleeps, other clients and lease expiry leave the store as `next`. */
    method Advance(next: map<string, string>)
      modifies this`data
      ensures data == next
    {
      data := next;
    }
  }

  /** `RedisLock`: the four lock operations over one shared store. */
  class RedisLock {
    const store: RedisStore
    /** The operations called on this lock, in order. */
    ghost var calls: seq<Call>

    constructor (store: RedisStore)
      ensures this.store == store && calls == []
    {
      this.store := store;
      calls := [];
    }

    /** One conditional set: true iff the key was absent, which then maps to `val`. */
    method TryLock(lockKey: string, val: string, lockTime: Int32) returns (r: Result<bool>)
      modifies this, store
      ensures calls == old(calls) + [TryLockCall(lockKey)]
      ensures store.received == old(store.received) + [Set(lockKey, val, lockTime)]
      ensures lockTime <= 0 ==> r == Err(InvalidExpireTime) && store.data == old(store.data)
      ensures lockTime > 0 ==> r == Ok(lockKey !in old(store.data))
      ensures r == Ok(true) ==> store.data == old(store.data)[lockKey := val]
      ensures r == Ok(false) ==> store.data == old(store.data)
    {
      calls := calls + [TryLockCall(lockKey)];
      var result := store.SetNxEx(lockKey, val, lockTime);
      if result.Err? {
        return Err(result.fault);
      }
      r := Ok(result.value == Some(LOCK_SUCCESS_FLAG));
    }

    /**
      Retries the conditional set, sleeping between attempts, until one succeeds. Only runs in
      which that happens return, so the schedule must lack the key at some attempt.
    */
    method Lock(lockKey: string, val: string, lockTime: Int32, env: seq<map<string, string>>) returns (r: Result<()>)
      requires lockTime > 0 ==> exists j :: 0 <= j <= |env| && lockKey !in Observed(store.data, env, j)
      modifies this, store
      ensures calls == old(calls) + [LockCall(lockKey)]
      ensures var tried := |store.received| - |old(store.received)|;
        && tried >= 1
        && store.received == old(store.received) + Tries(lockKey, val, lockTime, tried)
        && FailedUpTo(old(store.data), env, lockKey, tried - 1)
        && (lockTime <= 0 ==> r == Err(InvalidExpireTime) && tried == 1 && store.data == old(store.data))
        && (lockTime > 0 ==>
              && r == Ok(())
              && lockKey !in Observed(old(store.data), env, tried - 1)
              && store.data == Observed(old(store.data), env, tried - 1)[lockKey := val])
      ensures lockTime > 0 ==> lockKey in store.data && store.data[lockKey] == val
    {
      calls := calls + [LockCall(lockKey)];
      var s0 := store.data;
      ghost var free: nat := 0;
      if lockTime > 0 {
        free :| free <= |env| && lockKey !in Observed(s0, env, free);
      }
      var attempt: nat := 0;
      while true
        invariant calls == old(calls) + [LockCall(lockKey)]
        invariant store.data == Observed(s0, env, attempt)
        invariant store.received == old(store.received) + Tries(lockKey, val, lockTime, attempt)
        invariant FailedUpTo(s0, env, lockKey, attempt)
        invariant lockTime > 0 ==> attempt <= free
        invariant lockTime <= 0 ==> attempt == 0
        decreases free - attempt
      {
        var result := store.SetNxEx(lockKey, val, lockTime);
        if result.Err? {
          return Err(result.fault);
        }
        if result.value == Some(LOCK_SUCCESS_FLAG) {
          return Ok(());
        }
        // Thread.sleep(SLEEP_TIME)
        store.Advance(Observed(s0, env, attempt + 1));
        attempt := attempt + 1;
      }
    }

    /**
      The budgeted retry loop: the budget starts at `BudgetAsWritten(timeout)`, the `int`
      product as the code computes it, and drops by SLEEP_TIME
      after each failed attempt, and attempts go on while it is non-negative.
    */
    method LockWithTimeout(lockKey: string, val: string, lockTime: Int32, timeout: Int32,
                           env: seq<map<string, string>>) returns (r: Result<bool>)
      modifies this, store
      ensures calls == old(calls) + [TimedLockCall(lockKey)]
      ensures var n := AttemptBound(BudgetAsWritten(timeout));
              var tried := |store.received| - |old(store.received)|;
        && 0 <= tried <= n
        && store.received == old(store.received) + Tries(lockKey, val, lockTime, tried)
        && FailedUpTo(old(store.data), env, lockKey, tried - 1)
        && (r.Err? ==> r.fault == InvalidExpireTime && lockTime <= 0 && tried == 1 && store.data == old(store.data))
        && (r == Ok(true) ==>
              && tried >= 1
              && lockKey !in Observed(old(store.data), env, tried - 1)
              && store.data == Observed(old(store.data), env, tried - 1)[lockKey := val])
        && (r == Ok(false) ==>
              && tried == n
              && FailedUpTo(old(store.data), env, lockKey, n)
              && store.data == Observed(old(store.data), env, n))
      ensures r == Ok(true) <==>
        lockTime > 0 && exists j :: 0 <= j < AttemptBound(BudgetAsWritten(timeout)) && lockKey !in Observed(old(store.data), env, j)
      ensures lockTime > 0 || AttemptBound(BudgetAsWritten(timeout)) == 0 ==> r.Ok?
    {
      calls := calls + [TimedLockCall(lockKey)];
      var s0 := store.data;
      var blockTime := BudgetAsWritten(timeout);
      var attempt: nat := 0;
      while blockTime >= 0
        invariant calls == old(calls) + [TimedLockCall(lockKey)]
        invariant blockTime == BudgetAsWritten(timeout) - SLEEP_TIME * attempt
        invariant attempt <= AttemptBound(BudgetAsWritten(timeout))
        invariant store.data == Observed(s0, env, attempt)
        invariant store.received == old(store.received) + Tries(lockKey, val, lockTime, attempt)
        invariant FailedUpTo(s0, env, lockKey, attempt)
        invariant lockTime <= 0 ==> attempt == 0
        decreases blockTime
      {
        AttemptRuns(BudgetAsWritten(timeout), attempt);
        var result := store.SetNxEx(lockKey, val, lockTime);
        if result.Err? {
          return Err(result.fault);
        }
        if result.value == Some(LOCK_SUCCESS_FLAG) {
          return Ok(true);
        }
        // Thread.sleep(SLEEP_TIME)
        store.Advance(Observed(s0, env, attempt + 1));
        blockTime := blockTime - SLEEP_TIME;
        attempt := attempt + 1;
      }
      AttemptRuns(BudgetAsWritten(timeout), attempt);
      r := Ok(false);
    }

    /** `DEL key` with no check of the stored value: true iff exactly one key was removed. */
    method Unlock(lockKey: string) returns (ok: bool)
      modifies this, store
      ensures calls == old(calls) + [UnlockCall(lockKey)]
      ensures store.received == old(store.received) + [Command.Del(lockKey)]
      ensures ok <==> lockKey in old(store.data)
      ensures store.data == old(store.data) - {lockKey}
    {
      calls := calls + [UnlockCall(lockKey)];
      var removed := store.Del(lockKey);
      ok := removed == UNLOCK_SUCCESS_FLAG;
    }
  }
}
