# Distributed lock library: a verified model

This project models the three lock classes of the `distributed/lock` package.

- **`RedisLock`** is a lease lock over a Redis store. It has `tryLock`, a blocking `lock`, a budgeted `lock(timeout)` and `unlock`. All four rest on the atomic `SET key val NX EX lockTime` and on `DEL key`.
- **`ReentrantRedisLock`** puts a per-thread map from lock key to hold count in front of a `RedisLock`. Only the first acquisition and the last release reach Redis.
- **`ZooKeeperDistributedLock`** is a fair queue lock. Each attempt creates an ephemeral sequential node under a root and sorts the root's children in `String` order. The attempt holds the lock when its node is the least. Otherwise it watches the nearest live node below its own. The `UnLockWatcher` re-decides when that watch fires.

Files:

- `common.dfy`: `Option`, `Result`, the fault kinds, and Java's 32-bit `int`.
- `redis_lock.dfy`: the Redis store and the lease lock.
- `reentrant_redis_lock.dfy`: the hold-count arithmetic, its lemmas, and the decorator class.
- `node_order.dfy`: `String.compareTo` order and the two `TreeSet` queries the queue lock uses, `first()` and `lower(x)`. The order compares code points, so it matches Java on paths without supplementary characters.
- `zookeeper.dfy`: the coordination service, reduced to what the lock uses.
  - Live paths are a list of distinct paths. Its order carries no meaning, because the lock sorts what it lists.
  - A counter supplies the sequential suffix.
  - The calls are `exists`, `create`, `delete` and `getChildren`.
- `zookeeper_lock.dfy`:
  - the sorted child set;
  - the predecessor search;
  - the holding and watching decision shared by `waitForLock` and the watcher;
  - the lock and watcher classes.

How the environment appears:

- The Redis store is shared with other clients. Each `Thread.sleep` between two attempts is one step in which the store becomes the next map of a schedule `env`, given as a parameter. Lease expiry is one way the store can change in such a step.
- A blocked `waitForLock` is split at `latch.await`.
  - `Enqueue` does everything before the wait.
  - The environment then deletes nodes and delivers watch events to `UnLockWatcher.Process`. Process counts the latch down when the contender becomes first.
- Both `Enqueue` and `Process` take a further environment step `next` between listing the children and the `exists` calls. In that step other sessions may create and delete nodes, so the listing the search walks can be stale. That is what the search's retry and its `preNode == null` exit are for.
  - `AwaitLock` and `AwaitLockWithTimeout` do what follows the wait. A timeout is the environment's choice to complete the timed wait while the latch is still closed.
- A backend failure is an `Err` result naming its cause:
  - `InvalidExpireTime` is the error Redis gives for a non-positive lease. `RedisLock` lets the Jedis exception propagate unchanged.
  - `NodeExists` and `NoNode` come from the coordination service. `ZooKeeperDistributedLock` wraps those into a `RuntimeException`.

## Model

| member | source | states |
|---|---|---|
| `RedisLocks.RedisStore.SetNxEx` | src/main/java/gdou/laixiaoming/commonutils/distributed/lock/RedisLock.java:32 | `SET NX EX`: a non-positive expiry is an error and stores nothing; an absent key is stored and "OK" is returned; a present key leaves the store unchanged and returns null |
| `RedisLocks.RedisStore.Del` | src/main/java/gdou/laixiaoming/commonutils/distributed/lock/RedisLock.java:66 | `DEL`: returns 1 iff the key was present, and afterwards the key is absent and every other key is unchanged |
| `RedisLocks.RedisStore.Advance` | src/main/java/gdou/laixiaoming/commonutils/distributed/lock/RedisLock.java:46 | one sleep: other clients and lease expiry leave the store as the next scheduled map |
| `RedisLocks.RedisLock.constructor` | src/main/java/gdou/laixiaoming/commonutils/distributed/lock/RedisLock.java:22-24 | the lock talks to the given store and has made no calls yet |
| `RedisLocks.RedisLock.TryLock` | src/main/java/gdou/laixiaoming/commonutils/distributed/lock/RedisLock.java:31-37 | one conditional set of `lockKey` is sent; the result is true iff the key was absent, and then it maps to `val`; otherwise the store is unchanged; a non-positive lease is an error |
| `RedisLocks.RedisLock.Lock` | src/main/java/gdou/laixiaoming/commonutils/distributed/lock/RedisLock.java:40-48 | repeats the same conditional set until one succeeds; every earlier attempt found the key present; on return the key maps to `val`; it never returns a failure value for a positive lease |
| `RedisLocks.RedisLock.LockWithTimeout` | src/main/java/gdou/laixiaoming/commonutils/distributed/lock/RedisLock.java:51-62 | runs the budget as the code computes it, the 32-bit product `BudgetAsWritten(timeout)`; makes at most `AttemptBound(BudgetAsWritten(timeout))` attempts; returns true iff the key was absent at one of them; returns false only after every allowed attempt failed; on success the key maps to `val` |
| `RedisLocks.AttemptRuns` | src/main/java/gdou/laixiaoming/commonutils/distributed/lock/RedisLock.java:53-59 | attempt j happens exactly when the budget, less 200 ms per earlier attempt, is still at least 0 |
| `RedisLocks.AttemptsPerTimeout` | src/main/java/gdou/laixiaoming/commonutils/distributed/lock/RedisLock.java:52-53 | a timeout t ≥ 0 allows `t*1000/200 + 1 = 5t + 1` attempts, so `timeout == 0` gives exactly one; a negative timeout gives none |
| `RedisLocks.BudgetAsWrittenAgrees` | src/main/java/gdou/laixiaoming/commonutils/distributed/lock/RedisLock.java:52 | for timeouts of magnitude up to 2147483, the 32-bit product equals the intended budget |
| `RedisLocks.BudgetAsWrittenWraps` | src/main/java/gdou/laixiaoming/commonutils/distributed/lock/RedisLock.java:52 | for a timeout of 2147484 the 32-bit product wraps to -2147483296, leaving zero attempts where 10737421 were meant; for -2147484 it wraps to 2147483296, allowing 10737417 attempts where none were meant |
| `RedisLocks.AttemptsAsWritten` | src/main/java/gdou/laixiaoming/commonutils/distributed/lock/RedisLock.java:52-59 | for timeouts of magnitude up to 2147483 the loop as written makes `5 * timeout + 1` attempts, exactly one for `timeout == 0`, and none for a negative timeout |
| `RedisLocks.RedisLock.Unlock` | src/main/java/gdou/laixiaoming/commonutils/distributed/lock/RedisLock.java:65-68 | deletes by key with no value check: true iff the key was present, and afterwards it is absent whoever set it; no other key changes |
| `ReentrantRedisLocks.AcquiredKeepsCounts` | src/main/java/gdou/laixiaoming/commonutils/distributed/lock/ReentrantRedisLock.java:38-45 | an acquisition keeps every count at least 1, leaves the key held, and touches no other key |
| `ReentrantRedisLocks.ReleasedKeepsCounts` | src/main/java/gdou/laixiaoming/commonutils/distributed/lock/ReentrantRedisLock.java:84-88 | a release keeps every count at least 1, touches no other key, and removes the entry iff the count was 1 |
| `ReentrantRedisLocks.AcquireTimesCount` | src/main/java/gdou/laixiaoming/commonutils/distributed/lock/ReentrantRedisLock.java:36-48 | n acquisitions of a key not yet held leave count n and reach the backend exactly once |
| `ReentrantRedisLocks.ReleaseTimesCount` | src/main/java/gdou/laixiaoming/commonutils/distributed/lock/ReentrantRedisLock.java:78-90 | n unlocks from count n restore the map without the key and reach the backend exactly once |
| `ReentrantRedisLocks.NestedHoldsRoundTrip` | src/main/java/gdou/laixiaoming/commonutils/distributed/lock/ReentrantRedisLock.java:36-90 | n nested acquisitions, then n unlocks, make exactly one backend acquire and one backend unlock and leave the map as before |
| `ReentrantRedisLocks.ReentrantRedisLock.constructor` | src/main/java/gdou/laixiaoming/commonutils/distributed/lock/ReentrantRedisLock.java:22-24 | the decorator owns a fresh lease lock on the given store, and the thread has no map yet |
| `ReentrantRedisLocks.ReentrantRedisLock.GetLocks` | src/main/java/gdou/laixiaoming/commonutils/distributed/lock/ReentrantRedisLock.java:26-33 | creates an empty map only when none exists, otherwise returns the existing one; the hold counts are unchanged either way |
| `ReentrantRedisLocks.ReentrantRedisLock.TryLock` | src/main/java/gdou/laixiaoming/commonutils/distributed/lock/ReentrantRedisLock.java:36-48 | a held key is counted up with no backend call and gives true; otherwise exactly one backend `tryLock`, whose success sets the count to 1 and maps the key to `val` in the store; a failure leaves the map and the store unchanged |
| `ReentrantRedisLocks.ReentrantRedisLock.Lock` | src/main/java/gdou/laixiaoming/commonutils/distributed/lock/ReentrantRedisLock.java:51-60 | a held key is counted up with no backend call; otherwise exactly one backend `lock`, after whose success the key maps to `val` in the store; after a successful return the key's count is at least 1 |
| `ReentrantRedisLocks.ReentrantRedisLock.LockWithTimeout` | src/main/java/gdou/laixiaoming/commonutils/distributed/lock/ReentrantRedisLock.java:63-75 | a held key is counted up with no backend call and gives true; otherwise exactly one backend timed `lock` on the budget as written, with true iff that succeeded, and then count 1 and the key mapped to `val`; on false the store is as the last scheduled step left it |
| `ReentrantRedisLocks.ReentrantRedisLock.Unlock` | src/main/java/gdou/laixiaoming/commonutils/distributed/lock/ReentrantRedisLock.java:78-90 | an unheld key gives false with no change and no backend call; count > 1 is decremented and gives true with no backend call; count 1 removes the entry and returns the one backend `unlock` result |
| `NodeOrder.LessIrreflexive` | src/main/java/gdou/laixiaoming/commonutils/distributed/lock/ZooKeeperDistributedLock.java:166 | no path sorts below itself in `String` order |
| `NodeOrder.LessAsymmetric` | src/main/java/gdou/laixiaoming/commonutils/distributed/lock/ZooKeeperDistributedLock.java:166 | two paths never sort below each other |
| `NodeOrder.LessTransitive` | src/main/java/gdou/laixiaoming/commonutils/distributed/lock/ZooKeeperDistributedLock.java:166 | `String` order is transitive |
| `NodeOrder.LessTotal` | src/main/java/gdou/laixiaoming/commonutils/distributed/lock/ZooKeeperDistributedLock.java:166 | of two distinct paths, one sorts below the other |
| `NodeOrder.LessCommonPrefix` | src/main/java/gdou/laixiaoming/commonutils/distributed/lock/ZooKeeperDistributedLock.java:166 | a shared prefix does not change the order |
| `NodeOrder.LessEqualLength` | src/main/java/gdou/laixiaoming/commonutils/distributed/lock/ZooKeeperDistributedLock.java:166 | between equal-length strings, the order is decided inside them whatever follows |
| `NodeOrder.BelowShrinks` | src/main/java/gdou/laixiaoming/commonutils/distributed/lock/ZooKeeperDistributedLock.java:89 | stepping to a lower element strictly shrinks the part of the set below, which is why the predecessor search ends |
| `NodeOrder.First` | src/main/java/gdou/laixiaoming/commonutils/distributed/lock/ZooKeeperDistributedLock.java:59 | `first()` is an element and sorts below every other element |
| `NodeOrder.Lower` | src/main/java/gdou/laixiaoming/commonutils/distributed/lock/ZooKeeperDistributedLock.java:89 | `lower(x)` is null iff no element sorts below x; otherwise it is the greatest element below x |
| `NodeOrder.FirstHasNothingBelow` | src/main/java/gdou/laixiaoming/commonutils/distributed/lock/ZooKeeperDistributedLock.java:79 | no element sorts below `first()` |
| `NodeOrder.LeastIsUnique` | src/main/java/gdou/laixiaoming/commonutils/distributed/lock/ZooKeeperDistributedLock.java:59 | at most one element is the least, so at most one contender is first |
| `ZooKeeperService.Digits` | src/main/java/gdou/laixiaoming/commonutils/distributed/lock/ZooKeeperDistributedLock.java:56-57 | the sequential suffix is exactly ten decimal digits |
| `ZooKeeperService.DigitsOrdered` | src/main/java/gdou/laixiaoming/commonutils/distributed/lock/ZooKeeperDistributedLock.java:56-57 | below 10^width, the zero-padded digits sort as the numbers do |
| `ZooKeeperService.CreationOrder` | src/main/java/gdou/laixiaoming/commonutils/distributed/lock/ZooKeeperDistributedLock.java:56-57 | sequential nodes of one prefix sort in creation order |
| `ZooKeeperService.Without` | src/main/java/gdou/laixiaoming/commonutils/distributed/lock/ZooKeeperDistributedLock.java:178 | a deletion keeps exactly the other paths, keeps them distinct, and changes nothing when the path is absent |
| `ZooKeeperService.WithoutAppended` | src/main/java/gdou/laixiaoming/commonutils/distributed/lock/ZooKeeperDistributedLock.java:56-63 | deleting the node an attempt just created gives back the node list from before the attempt: a failed `tryLock` leaves no node behind |
| `ZooKeeperService.ZooKeeper.Exists` | src/main/java/gdou/laixiaoming/commonutils/distributed/lock/ZooKeeperDistributedLock.java:42 | `exists` is true iff the path is live |
| `ZooKeeperService.ZooKeeper.Create` | src/main/java/gdou/laixiaoming/commonutils/distributed/lock/ZooKeeperDistributedLock.java:45 | a persistent create appends the path, or fails with NodeExists and changes nothing |
| `ZooKeeperService.ZooKeeper.CreateSequential` | src/main/java/gdou/laixiaoming/commonutils/distributed/lock/ZooKeeperDistributedLock.java:56-57 | a sequential create appends the prefix plus the current counter and advances the counter, or fails with NodeExists and changes nothing |
| `ZooKeeperService.ZooKeeper.Delete` | src/main/java/gdou/laixiaoming/commonutils/distributed/lock/ZooKeeperDistributedLock.java:178 | a delete removes a live path, or fails with NoNode and changes nothing |
| `ZooKeeperService.ZooKeeper.GetChildren` | src/main/java/gdou/laixiaoming/commonutils/distributed/lock/ZooKeeperDistributedLock.java:165 | the names of the live direct children, in no promised order; the lock sorts them |
| `ZooKeeperService.ZooKeeper.Interleave` | src/main/java/gdou/laixiaoming/commonutils/distributed/lock/ZooKeeperDistributedLock.java:94 | other sessions act between two calls of this client: the live paths become any distinct list |
| `ZooKeeperLocks.RootChildren` | src/main/java/gdou/laixiaoming/commonutils/distributed/lock/ZooKeeperDistributedLock.java:167-169 | one full path per listed child name |
| `ZooKeeperLocks.ChildPath` | src/main/java/gdou/laixiaoming/commonutils/distributed/lock/ZooKeeperDistributedLock.java:168 | `root + "/" + name` gives back the child's own path |
| `ZooKeeperLocks.LiveChildrenListed` | src/main/java/gdou/laixiaoming/commonutils/distributed/lock/ZooKeeperDistributedLock.java:163-173 | every live direct child of the root is in the sorted set |
| `ZooKeeperLocks.ListedAreLiveChildren` | src/main/java/gdou/laixiaoming/commonutils/distributed/lock/ZooKeeperDistributedLock.java:163-173 | everything in the sorted set is a live direct child of the root |
| `ZooKeeperLocks.CreatedNodeIsChild` | src/main/java/gdou/laixiaoming/commonutils/distributed/lock/ZooKeeperDistributedLock.java:33 | the node an attempt creates under `root + "/" + lockKey` is a direct child of the root |
| `ZooKeeperLocks.KeysShareTheQueue` | src/main/java/gdou/laixiaoming/commonutils/distributed/lock/ZooKeeperDistributedLock.java:163-173 | a live node of any lock key under the root is in every lock's sorted set on that root, so different keys contend together |
| `ZooKeeperLocks.LivePredecessor` | src/main/java/gdou/laixiaoming/commonutils/distributed/lock/ZooKeeperDistributedLock.java:87-95 | the search is null iff no listed node below the contender is live; otherwise it is the greatest listed node below the contender that is still live |
| `ZooKeeperLocks.NextStep` | src/main/java/gdou/laixiaoming/commonutils/distributed/lock/ZooKeeperDistributedLock.java:79-95 | hold iff no listed node below the contender is live; otherwise watch the nearest live listed node below it |
| `ZooKeeperLocks.Decide` | src/main/java/gdou/laixiaoming/commonutils/distributed/lock/ZooKeeperDistributedLock.java:198-228 | ignore iff the event is not NodeDeleted or the contender's node is no longer listed; signal iff no lower listed node is live; otherwise re-arm on the nearest live lower node |
| `ZooKeeperLocks.SignalMeansLeast` | src/main/java/gdou/laixiaoming/commonutils/distributed/lock/ZooKeeperDistributedLock.java:79-92 | a contender is told to hold iff its node is below every listed child that is still live; on a fresh listing, below every other live child of the root |
| `ZooKeeperLocks.RewatchIsNearestLiveChild` | src/main/java/gdou/laixiaoming/commonutils/distributed/lock/ZooKeeperDistributedLock.java:87-95 | the watched node is listed, live and below the contender, and every listed live child below the contender is that node or below it |
| `ZooKeeperLocks.AtMostOneSignalled` | src/main/java/gdou/laixiaoming/commonutils/distributed/lock/ZooKeeperDistributedLock.java:207-220 | on one state of the service listed afresh, two contenders both told to hold are the same node |
| `ZooKeeperLocks.StaleListingRetries` | src/main/java/gdou/laixiaoming/commonutils/distributed/lock/ZooKeeperDistributedLock.java:88-95 | on a stale listing the search steps past a node that went away after the listing, and it ends with no predecessor when all lower nodes went away though the contender was not first |
| `ZooKeeperLocks.CountDownLatch.CountDown` | src/main/java/gdou/laixiaoming/commonutils/distributed/lock/ZooKeeperDistributedLock.java:210 | the count drops by one and stays at least 0 |
| `ZooKeeperLocks.ZooKeeperDistributedLock.constructor` | src/main/java/gdou/laixiaoming/commonutils/distributed/lock/ZooKeeperDistributedLock.java:29-39 | `path` is `root + "/" + lockKey`, no node is held, and the root is created iff it was absent |
| `ZooKeeperLocks.ZooKeeperDistributedLock.Init` | src/main/java/gdou/laixiaoming/commonutils/distributed/lock/ZooKeeperDistributedLock.java:41-47 | creates the root only if it is absent, so a second run leaves the node list unchanged |
| `ZooKeeperLocks.ZooKeeperDistributedLock.GetRootChildren` | src/main/java/gdou/laixiaoming/commonutils/distributed/lock/ZooKeeperDistributedLock.java:163-174 | the sorted set is the full paths of the live children of the root |
| `ZooKeeperLocks.ZooKeeperDistributedLock.DeleteNode` | src/main/java/gdou/laixiaoming/commonutils/distributed/lock/ZooKeeperDistributedLock.java:176-182 | deletes a live path, or fails with NoNode and changes nothing |
| `ZooKeeperLocks.ZooKeeperDistributedLock.FindPredecessor` | src/main/java/gdou/laixiaoming/commonutils/distributed/lock/ZooKeeperDistributedLock.java:87-95 | the `lower`/`exists` loop ends, with the greatest listed node below the contender that is still live, or null |
| `ZooKeeperLocks.ZooKeeperDistributedLock.TryLock` | src/main/java/gdou/laixiaoming/commonutils/distributed/lock/ZooKeeperDistributedLock.java:53-69 | true iff the new node sorts below every child already under the root, and then `nodeHolder` is that node; on false the node list is exactly as before and `nodeHolder` is unchanged |
| `ZooKeeperLocks.ZooKeeperDistributedLock.Enqueue` | src/main/java/gdou/laixiaoming/commonutils/distributed/lock/ZooKeeperDistributedLock.java:74-96 | creates the node and lists the children; other sessions then act; the contender holds iff the decision on the listing and the then-live paths says so; otherwise it arms a fresh watcher with a fresh latch at 1 on the nearest live listed node below |
| `ZooKeeperLocks.ZooKeeperDistributedLock.AwaitLock` | src/main/java/gdou/laixiaoming/commonutils/distributed/lock/ZooKeeperDistributedLock.java:97-98 | once the latch is open, the thread holds its node |
| `ZooKeeperLocks.ZooKeeperDistributedLock.AwaitLockWithTimeout` | src/main/java/gdou/laixiaoming/commonutils/distributed/lock/ZooKeeperDistributedLock.java:134-141 | an open latch gives true and holds the node; a timeout deletes the contender's node, gives false and leaves `nodeHolder` unset |
| `ZooKeeperLocks.ZooKeeperDistributedLock.Unlock` | src/main/java/gdou/laixiaoming/commonutils/distributed/lock/ZooKeeperDistributedLock.java:151-161 | a no-op when no node is held; otherwise deletes exactly the held node and clears `nodeHolder` |
| `ZooKeeperLocks.UnLockWatcher.constructor` | src/main/java/gdou/laixiaoming/commonutils/distributed/lock/ZooKeeperDistributedLock.java:192-195 | a watcher shares the waiter's latch and remembers the waiter's node |
| `ZooKeeperLocks.UnLockWatcher.Process` | src/main/java/gdou/laixiaoming/commonutils/distributed/lock/ZooKeeperDistributedLock.java:198-228 | only a deletion or data change of the watched node uses its watch up (`WatchFired`); a session-state event (type None) or a NodeCreated from a watch on an absent node changes nothing and leaves the watch armed; on NodeDeleted the children are listed and other sessions then act; `Decide` on that listing and the then-live paths chooses between doing nothing, counting the latch down, and re-arming on the nearest live lower node; the watcher has at most one armed watch on a live node |

## Left out

- `RedisLocks.RedisLock.Lock`: only runs that return are modelled. The precondition asks that the key be absent at some scheduled attempt. A run under permanent contention never returns, and the model does not cover it.
- `ReentrantRedisLocks.ReentrantRedisLock.Lock`: inherits the same precondition for keys the thread does not hold yet. Its hold counts are unbounded integers, so the `AtomicInteger` wrap after 2^31 nested acquisitions is not modelled.
- `ReentrantRedisLocks.ReentrantRedisLock.TryLock`: hold counts are unbounded integers, so the `AtomicInteger` wrap after 2^31 nested acquisitions is not modelled.
- `ReentrantRedisLocks.ReentrantRedisLock.LockWithTimeout`: hold counts are unbounded integers, so the `AtomicInteger` wrap after 2^31 nested acquisitions is not modelled.
- `ReentrantRedisLocks.ReentrantRedisLock.Unlock`: hold counts are unbounded integers, so a count wrapped by `AtomicInteger` is not modelled.
- `ZooKeeperService.ZooKeeper.CreateSequential`: the suffix is one counter per store, written in ten digits (the counter taken mod 10^10). The real suffix is a 32-bit per-parent counter. A counter collision shows up as NodeExists.
- `ZooKeeperLocks.ZooKeeperDistributedLock.constructor`: requires `'/' !in lockKey`, which the Java constructor does not check. With a '/' in the key, `path` lies below a child of the root, not directly under it. The real service then refuses the create unless that child exists. Nodes so created would also not be listed among the root's children. The model leaves such keys out, because it does not check parents.
- `ZooKeeperLocks.ZooKeeperDistributedLock.TryLock`: a failed create is reported as `Err(NodeExists)`. The Java catch block then calls `deleteNode(null)`, which throws a `RuntimeException` of its own first. The caller sees an exception either way.
- `ZooKeeperLocks.ZooKeeperDistributedLock.Enqueue`:
  - A failed create is reported as `Err(NodeExists)`.
  - For the untimed `waitForLock`, the Java catch block only wraps and rethrows; nothing is deleted.
  - For the timed overload, the catch block calls `deleteNode(null)`, which throws first.
  - The watches `exists` arms on absent nodes are not recorded. Such a watch fires only on NodeCreated, and `Process` ignores that event.
- `ZooKeeperLocks.UnLockWatcher.Process`: its re-arming search also calls `exists(preNode, this)` on every absent lower node it passes, and each such call leaves a NodeCreated watch registered on the watcher. `watching` records only the watch on the live predecessor. Those extra watches fire only on NodeCreated, which `Process` ignores and which leaves `watching` as it was.
- `ZooKeeperLocks.ZooKeeperDistributedLock.AwaitLockWithTimeout`: when the timed-out node is already gone, the result is `Err(NoNode)`. In the Java code, `deleteNode(currentNode)` fails, and the catch block calls `deleteNode(currentNode)` a second time, which throws. The caller sees an exception either way.
- `InterruptedException` is not modelled. `Thread.sleep` in both `lock` loops can throw it, and so can `latch.await` in both `waitForLock` overloads. No model operation can be interrupted.
- `NodeOrder.Less`: compares code points, while Java's `String.compareTo` compares UTF-16 code units. The two differ only on supplementary characters, which ZooKeeper path names do not contain.
- Real time is not modelled: `Thread.sleep`, lease TTL clocks and `latch.await(timeout, unit)` durations. A sleep is one schedule step, and a lease expiry is a key removal within such a step. A timeout is the point at which the environment completes the wait while the latch is still closed.
- Concurrency is not modelled: threads, per-thread `ThreadLocal` storage, the concurrent delivery of watch events, and the Jedis connection pool.
  - Each lock object stands for one thread's view.
  - The service is a sequential shared state.
  - Other parties act only at the explicit environment steps: the Redis schedule, and `next` in `Enqueue` and `Process`.
  - There is no such step between the create and the listing, or between the individual `exists` calls of one search.
- In the Java code, both `waitForLock` overloads can create `UnLockWatcher` objects on absent nodes. The model creates one watcher, for the predecessor that exists.
- An exception from `getRootChildren` or `exists` inside the untimed `waitForLock` would leave the created node behind. Listing and `exists` cannot fail in this model.
- Path validity and parent existence checks of the real coordination service are not modelled. Only the `NodeExists` and `NoNode` outcomes are.
- Logging is left out.
- The `DistributedLock` interface is not part of this model. The decorator holds the concrete lease lock, which is what its constructor builds.

## Findings

| source | as written | input that shows it | evidently intended | confidence | as-written member | corrected member |
|---|---|---|---|---|---|---|
| src/main/java/gdou/laixiaoming/commonutils/distributed/lock/RedisLock.java:52 | `long bolckTime = timeout * 1000` multiplies two `int`s, so the product wraps to 32 bits before it is widened | `timeout = 2147484` (under 25 days) gives budget -2147483296, and `lock` returns false with no attempt at all; `timeout = -2147484` gives 2147483296, and `lock` retries for about 25 days | the budget is `timeout` seconds in milliseconds, computed in `long` arithmetic, allowing `5 * timeout + 1` attempts | not executed | `RedisLocks.BudgetAsWrittenWraps` | `RedisLocks.AttemptsPerTimeout` |
