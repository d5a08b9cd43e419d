/**
  The reentrancy decorator in front of the lease lock. Each thread keeps a map from lock
  key to hold count. A key the thread already holds is re-acquired by counting alone; only
  the first acquisition and the last release reach the lease lock.
*/
module ReentrantRedisLocks {
  import opened Common
  import opened RedisLocks

  /** Every entry of the hold-count map is at least 1. */
  predicate PositiveCounts(holds: map<string, int>)
  {
    forall k :: k in holds ==> holds[k] >= 1
  }

  /** The map after a successful acquisition: the count goes up by one, or starts at 1. */
  function Acquired(holds: map<string, int>, key: string): map<string, int>
  {
    if key in holds then holds[key := holds[key] + 1] else holds[key := 1]
  }

  /** The map after releasing a held key: the count goes down by one, and the entry goes at 0. */
  function Released(holds: map<string, int>, key: string): map<string, int>
    requires key in holds
  {
    if holds[key] - 1 > 0 then holds[key := holds[key] - 1] else holds - {key}
  }

  /** Acquisition keeps every count positive and holds the key afterwards. */
  lemma AcquiredKeepsCounts(holds: map<string, int>, key: string)
    requires PositiveCounts(holds)
    ensures PositiveCounts(Acquired(holds, key))
    ensures key in Acquired(holds, key) && Acquired(holds, key)[key] >= 1
    ensures Acquired(holds, key) - {key} == holds - {key}
  {
  }

  /** Release keeps every count positive and touches no other key. */
  lemma ReleasedKeepsCounts(holds: map<string, int>, key: string)
    requires PositiveCounts(holds) && key in holds
    ensures PositiveCounts(Released(holds, key))
    ensures Released(holds, key) - {key} == holds - {key}
    ensures key in Released(holds, key) <==> holds[key] > 1
  {
  }

  /** `n` successful acquisitions of `key` in a row. */
  function AcquireTimes(holds: map<string, int>, key: string, n: nat): map<string, int>
  {
    if n == 0 then holds else Acquired(AcquireTimes(holds, key, n - 1), key)
  }

  /** How many of those `n` acquisitions reach the lease lock (the key was not yet held). */
  function BackendAcquires(holds: map<string, int>, key: string, n: nat): nat
  {
    if n == 0 then 0
    else BackendAcquires(holds, key, n - 1) + (if key !in AcquireTimes(holds, key, n - 1) then 1 else 0)
  }

  /** `n` unlocks of `key` in a row; an unlock of a key not held changes nothing. */
  function ReleaseTimes(holds: map<string, int>, key: string, n: nat): map<string, int>
  {
    if n == 0 || key !in holds then holds else ReleaseTimes(Released(holds, key), key, n - 1)
  }

  /** How many of those `n` unlocks reach the lease lock (the count dropped to 0). */
  function BackendReleases(holds: map<string, int>, key: string, n: nat): nat
  {
    if n == 0 || key !in holds then 0
    else (if holds[key] - 1 > 0 then 0 else 1) + BackendReleases(Released(holds, key), key, n - 1)
  }

  lemma {:induction false} AcquireTimesCount(holds: map<string, int>, key: string, n: nat)
    requires key !in holds && n >= 1
    ensures AcquireTimes(holds, key, n) == holds[key := n]
    ensures BackendAcquires(holds, key, n) == 1
  {
    if n > 1 {
      AcquireTimesCount(holds, key, n - 1);
    }
  }

  lemma {:induction false} ReleaseTimesCount(holds: map<string, int>, key: string, n: nat)
    requires key !in holds && n >= 1
    ensures ReleaseTimes(holds[key := n], key, n) == holds
    ensures BackendReleases(holds[key := n], key, n) == 1
  {
    if n == 1 {
      assert holds[key := 1] - {key} == holds;
    } else {
      assert Released(holds[key := n], key) == holds[key := n - 1];
      ReleaseTimesCount(holds, key, n - 1);
    }
  }

  /**
    `n` nested acquisitions of a key the thread did not hold, then `n` unlocks: exactly one
    acquisition and exactly one release reach the lease lock, and the map is as before.
  */
  lemma NestedHoldsRoundTrip(holds: map<string, int>, key: string, n: nat)
    requires key !in holds && n >= 1
    ensures BackendAcquires(holds, key, n) == 1
    ensures ReleaseTimes(AcquireTimes(holds, key, n), key, n) == holds
    ensures BackendReleases(AcquireTimes(holds, key, n), key, n) == 1
  {
    AcquireTimesCount(holds, key, n);
    ReleaseTimesCount(holds, key, n);
  }

  /** `ReentrantRedisLock`: the calling thread's hold counts in front of a `RedisLock`. */
  class ReentrantRedisLock {
    /** The calling thread's `ThreadLocal` slot: no map until `getLocks` first runs. */
    var locksHolder: Option<map<string, int>>
    const redisLock: RedisLock

    ghost predicate Valid()
      reads this
    {
      locksHolder.Some? ==> PositiveCounts(locksHolder.value)
    }

    /** The thread's hold counts, empty while no map exists. */
    function Holds(): map<string, int>
      reads this
    {
      if locksHolder.Some? then locksHolder.value else map[]
    }

    constructor (store: RedisStore)
      ensures Valid() && locksHolder.None?
      ensures fresh(redisLock) && redisLock.store == store && redisLock.calls == []
    {
      locksHolder := None;
      redisLock := new RedisLock(store);
    }

    /** The thread's map, created empty on first use and returned unchanged afterwards. */
    method GetLocks() returns (locks: map<string, int>)
      modifies this`locksHolder
      ensures locksHolder == Some(locks)
      ensures old(locksHolder).Some? ==> locks == old(locksHolder).value
      ensures old(locksHolder).None? ==> locks == map[]
      ensures Holds() == old(Holds())
    {
      if locksHolder.Some? {
        return locksHolder.value;
      }
      locksHolder := Some(map[]);
      locks := locksHolder.value;
    }

    /** Re-enters a held key without the backend; otherwise one backend `tryLock`. */
    method TryLock(lockKey: string, val: string, lockTime: Int32) returns (r: Result<bool>)
      requires Valid()
      modifies this`locksHolder, redisLock, redisLock.store
      ensures Valid() && locksHolder.Some?
      ensures lockKey in old(Holds()) ==>
        && r == Ok(true)
        && Holds() == Acquired(old(Holds()), lockKey)
        && redisLock.calls == old(redisLock.calls)
        && redisLock.store.data == old(redisLock.store.data)
      ensures lockKey !in old(Holds()) ==>
        && redisLock.calls == old(redisLock.calls) + [TryLockCall(lockKey)]
        && (r == Ok(true) <==> lockTime > 0 && lockKey !in old(redisLock.store.data))
        && Holds() == (if r == Ok(true) then Acquired(old(Holds()), lockKey) else old(Holds()))
        && (r == Ok(true) ==> redisLock.store.data == old(redisLock.store.data)[lockKey := val])
        && (r != Ok(true) ==> redisLock.store.data == old(redisLock.store.data))
    {
      var locks := GetLocks();
      if lockKey in locks {
        locksHolder := Some(locks[lockKey := locks[lockKey] + 1]);
        return Ok(true);
      }
      r := redisLock.TryLock(lockKey, val, lockTime);
      if r == Ok(true) {
        locksHolder := Some(locks[lockKey := 1]);
      }
    }

    /** Re-enters a held key without the backend; otherwise the backend's blocking `lock`. */
    method Lock(lockKey: string, val: string, lockTime: Int32, env: seq<map<string, string>>) returns (r: Result<()>)
      requires Valid()
      requires lockKey !in Holds() && lockTime > 0 ==>
        exists j :: 0 <= j <= |env| && lockKey !in Observed(redisLock.store.data, env, j)
      modifies this`locksHolder, redisLock, redisLock.store
      ensures Valid() && locksHolder.Some?
      ensures lockKey in old(Holds()) ==>
        && r == Ok(())
        && Holds() == Acquired(old(Holds()), lockKey)
        && redisLock.calls == old(redisLock.calls)
        && redisLock.store.data == old(redisLock.store.data)
      ensures lockKey !in old(Holds()) ==>
        && redisLock.calls == old(redisLock.calls) + [LockCall(lockKey)]
        && (r.Ok? <==> lockTime > 0)
        && Holds() == (if r.Ok? then Acquired(old(Holds()), lockKey) else old(Holds()))
        && (r.Ok? ==> lockKey in redisLock.store.data && redisLock.store.data[lockKey] == val)
        && (r.Err? ==> redisLock.store.data == old(redisLock.store.data))
      ensures r.Ok? ==> lockKey in Holds() && Holds()[lockKey] >= 1
    {
      var locks := GetLocks();
      if lockKey in locks {
        locksHolder := Some(locks[lockKey := locks[lockKey] + 1]);
        return Ok(());
      }
      r := redisLock.Lock(lockKey, val, lockTime, env);
      if r.Ok? {
        locksHolder := Some(locks[lockKey := 1]);
      }
    }

    /** Re-enters a held key without the backend; otherwise the backend's budgeted `lock`. */
    method LockWithTimeout(lockKey: string, val: string, lockTime: Int32, timeout: Int32,
                           env: seq<map<string, string>>) returns (r: Result<bool>)
      requires Valid()
      modifies this`locksHolder, redisLock, redisLock.store
      ensures Valid() && locksHolder.Some?
      ensures lockKey in old(Holds()) ==>
        && r == Ok(true)
        && Holds() == Acquired(old(Holds()), lockKey)
        && redisLock.calls == old(redisLock.calls)
        && redisLock.store.data == old(redisLock.store.data)
      ensures lockKey !in old(Holds()) ==>
        && redisLock.calls == old(redisLock.calls) + [TimedLockCall(lockKey)]
        && (r == Ok(true) <==>
              (lockTime > 0 &&
               exists j :: 0 <= j < AttemptBound(BudgetAsWritten(timeout)) && lockKey !in Observed(old(redisLock.store.data), env, j)))
        && Holds() == (if r == Ok(true) then Acquired(old(Holds()), lockKey) else old(Holds()))
        && (r == Ok(true) ==> lockKey in redisLock.store.data && redisLock.store.data[lockKey] == val)
        && (r == Ok(false) ==> redisLock.store.data == Observed(old(redisLock.store.data), env, AttemptBound(BudgetAsWritten(timeout))))
        && (r.Err? ==> redisLock.store.data == old(redisLock.store.data))
    {
      var locks := GetLocks();
      if lockKey in locks {
        locksHolder := Some(locks[lockKey := locks[lockKey] + 1]);
        return Ok(true);
      }
      r := redisLock.LockWithTimeout(lockKey, val, lockTime, timeout, env);
      if r == Ok(true) {
        locksHolder := Some(locks[lockKey := 1]);
      }
    }

    /** Counts one release down; only the release that brings the count to 0 reaches the backend. */
    method Unlock(lockKey: string) returns (ok: bool)
      requires Valid()
      modifies this`locksHolder, redisLock, redisLock.store
      ensures Valid() && locksHolder.Some?
      ensures lockKey !in old(Holds()) ==>
        && !ok
        && Holds() == old(Holds())
        && redisLock.calls == old(redisLock.calls)
        && redisLock.store.data == old(redisLock.store.data)
      ensures lockKey in old(Holds()) ==> Holds() == Released(old(Holds()), lockKey)
      ensures lockKey in old(Holds()) && old(Holds())[lockKey] > 1 ==>
        && ok
        && redisLock.calls == old(redisLock.calls)
        && redisLock.store.data == old(redisLock.store.data)
      ensures lockKey in old(Holds()) && old(Holds())[lockKey] == 1 ==>
        && lockKey !in Holds()
        && redisLock.calls == old(redisLock.calls) + [UnlockCall(lockKey)]
        && (ok <==> lockKey in old(redisLock.store.data))
        && redisLock.store.data == old(redisLock.store.data) - {lockKey}
    {
      var locks := GetLocks();
      if lockKey !in locks {
        return false;
      }
      var newLockCount := locks[lockKey] - 1;
      if newLockCount > 0 {
        locksHolder := Some(locks[lockKey := newLockCount]);
        return true;
      }
      locksHolder := Some(locks - {lockKey});
      ok := redisLock.Unlock(lockKey);
    }
  }
}
