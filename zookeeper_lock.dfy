/**
  The fair queue lock over the coordination service. Each attempt creates a sequential node
  `root + "/" + lockKey + <counter>`, lists the children of `root` sorted by `String`
  order, and holds the lock when its node is the least. Otherwise it watches the nearest
  live node below its own, and re-decides when that watch fires.

  A blocked `waitForLock` is split at `latch.await`. Enqueue does everything before the
  wait. The environment then advances the queue by deleting nodes and delivering watch
  events to `UnLockWatcher.Process`. AwaitLock and AwaitLockWithTimeout do what follows
  the wait.
*/
module ZooKeeperLocks {
  import opened Common
  import opened NodeOrder
  import opened ZooKeeperService

  /** `getRootChildren`: each listed child name turned back into a full path. */
  function RootChildren(root: string, names: seq<string>): (paths: seq<string>)
    ensures |paths| == |names|
  {
    if names == [] then [] else [root + "/" + names[0]] + RootChildren(root, names[1..])
  }

  /** The sorted node set the lock computes when the live paths are `nodes`. */
  function SortedChildren(root: string, nodes: seq<string>): seq<string>
  {
    RootChildren(root, ChildNames(root, nodes))
  }

  /** A child's full path is its parent, a '/' and its name. */
  lemma ChildPath(root: string, p: string)
    requires IsChildOf(root, p)
    ensures root + "/" + ChildName(root, p) == p
  {
    assert p == p[..|root| + 1] + p[|root| + 1..];
  }

  lemma SortedChildrenUnfold(root: string, nodes: seq<string>)
    requires nodes != []
    ensures SortedChildren(root, nodes) ==
      (if IsChildOf(root, nodes[0]) then [nodes[0]] else []) + SortedChildren(root, nodes[1..])
  {
    if IsChildOf(root, nodes[0]) {
      ChildPath(root, nodes[0]);
      var names := [ChildName(root, nodes[0])] + ChildNames(root, nodes[1..]);
      assert names[0] == ChildName(root, nodes[0]) && names[1..] == ChildNames(root, nodes[1..]);
    } else {
      assert ChildNames(root, nodes) == ChildNames(root, nodes[1..]);
    }
  }

  /** Every live direct child of `root` is in the sorted set. */
  lemma {:induction false} LiveChildrenListed(root: string, nodes: seq<string>, p: string)
    requires p in nodes && IsChildOf(root, p)
    ensures p in SortedChildren(root, nodes)
  {
    SortedChildrenUnfold(root, nodes);
    if nodes[0] != p {
      LiveChildrenListed(root, nodes[1..], p);
    }
  }

  /** Everything in the sorted set is a live direct child of `root`. */
  lemma {:induction false} ListedAreLiveChildren(root: string, nodes: seq<string>)
    ensures forall p :: p in SortedChildren(root, nodes) ==> p in nodes && IsChildOf(root, p)
  {
    if nodes != [] {
      SortedChildrenUnfold(root, nodes);
      ListedAreLiveChildren(root, nodes[1..]);
    }
  }

  /** The node an attempt creates is a direct child of `root`, whatever the counter. */
  lemma CreatedNodeIsChild(root: string, lockKey: string, n: nat)
    requires '/' !in lockKey
    ensures IsChildOf(root, SequentialPath(root + "/" + lockKey, n))
  {
    var p := SequentialPath(root + "/" + lockKey, n);
    var digits := Digits(n, SEQUENCE_WIDTH);
    assert p == (root + "/") + (lockKey + digits);
    assert p[..|root| + 1] == root + "/";
    assert p[|root| + 1..] == lockKey + digits;
    assert '/' !in digits;
  }

  /**
    A live node of any lock key under `root` is in the sorted set every lock on `root`
    computes: locks with different keys under one root queue together.
  */
  lemma KeysShareTheQueue(root: string, otherKey: string, n: nat, nodes: seq<string>)
    requires '/' !in otherKey
    requires SequentialPath(root + "/" + otherKey, n) in nodes
    ensures SequentialPath(root + "/" + otherKey, n) in SortedChildren(root, nodes)
  {
    CreatedNodeIsChild(root, otherKey, n);
    LiveChildrenListed(root, nodes, SequentialPath(root + "/" + otherKey, n));
  }

  /**
    The `do { preNode = sortedNodeSet.lower(preNode); ... } while (!exists(preNode))` loop:
    the greatest node of the sorted set below `node` that is still live, if any.
  */
  function LivePredecessor(sortedNodeSet: seq<string>, live: seq<string>, node: string): (r: Option<string>)
    ensures r.None? <==> forall y :: y in sortedNodeSet && Less(y, node) ==> y !in live
    ensures r.Some? ==> r.value in sortedNodeSet && r.value in live && Less(r.value, node)
    ensures r.Some? ==> forall y :: y in sortedNodeSet && Less(r.value, y) && Less(y, node) ==> y !in live
    decreases Below(sortedNodeSet, node)
  {
    match Lower(sortedNodeSet, node)
    case None => None
    case Some(p) =>
      if p in live then
        assert forall y :: y in sortedNodeSet && Less(y, node) ==> y == p || !Less(p, y) by {
          forall y | y in sortedNodeSet && Less(y, node) ensures y == p || !Less(p, y) {
            if y != p { LessAsymmetric(y, p); }
          }
        }
        LessIrreflexive(p);
        Some(p)
      else
        BelowShrinks(sortedNodeSet, p, node);
        forall y | y in sortedNodeSet && Less(y, p) ensures Less(y, node) {
          LessTransitive(y, p, node);
        }
        var r := LivePredecessor(sortedNodeSet, live, p);
        assert r.Some? ==> Less(r.value, node) by {
          if r.Some? { LessTransitive(r.value, p, node); }
        }
        assert forall y :: y in sortedNodeSet && Less(y, node) ==> y == p || Less(y, p);
        r
  }

  /**
    With a stale listing the search steps past nodes that went away after the listing, and
    ends with none when every lower node went away though the contender was not first.
  */
  lemma StaleListingRetries()
    ensures LivePredecessor(["/q/a", "/q/b", "/q/c"], ["/q/a", "/q/c"], "/q/c") == Some("/q/a")
    ensures First(["/q/a", "/q/b", "/q/c"]) != "/q/c"
    ensures LivePredecessor(["/q/a", "/q/b", "/q/c"], ["/q/c"], "/q/c") == None
  {
    var s := ["/q/a", "/q/b", "/q/c"];
    assert Less("/q/a", "/q/c") by {
      assert "/q/a"[1..] == "q/a" && "/q/c"[1..] == "q/c";
      assert "q/a"[1..] == "/a" && "q/c"[1..] == "/c";
      assert "/a"[1..] == "a" && "/c"[1..] == "c";
    }
    LessIrreflexive("/q/c");
    var r := LivePredecessor(s, ["/q/a", "/q/c"], "/q/c");
    assert r.Some? ==> r.value == "/q/a";
    assert forall y :: y in s && Less(y, "/q/c") ==> y != "/q/c";
  }

  /** What a contender does next, given the sorted set it listed and the live paths. */
  datatype Decision = Ignore | Signal | Rewatch(preNode: string)

  /**
    The check after listing: hold (Signal) when the node is first or no lower node is
    live any more, otherwise watch the nearest live lower node.
  */
  function NextStep(sortedNodeSet: seq<string>, live: seq<string>, currentNode: string): (d: Decision)
    requires currentNode in sortedNodeSet
    ensures d != Ignore
    ensures d == Signal <==> forall y :: y in sortedNodeSet && Less(y, currentNode) ==> y !in live
    ensures d.Rewatch? ==>
      && d.preNode in sortedNodeSet && d.preNode in live && Less(d.preNode, currentNode)
      && forall y :: y in sortedNodeSet && Less(d.preNode, y) && Less(y, currentNode) ==> y !in live
  {
    if First(sortedNodeSet) == currentNode then
      FirstHasNothingBelow(sortedNodeSet);
      Signal
    else
      match LivePredecessor(sortedNodeSet, live, currentNode)
      case None => Signal
      case Some(p) => Rewatch(p)
  }

  /** `UnLockWatcher.process`: only a deletion event for a contender whose node is still listed counts. */
  function Decide(event: EventType, sortedNodeSet: seq<string>, live: seq<string>, currentNode: string): (d: Decision)
    ensures d == Ignore <==> event != NodeDeleted || currentNode !in sortedNodeSet
    ensures d == Signal <==>
      && event == NodeDeleted && currentNode in sortedNodeSet
      && forall y :: y in sortedNodeSet && Less(y, currentNode) ==> y !in live
    ensures d.Rewatch? ==>
      && event == NodeDeleted && currentNode in sortedNodeSet
      && d.preNode in sortedNodeSet && d.preNode in live && Less(d.preNode, currentNode)
      && forall y :: y in sortedNodeSet && Less(d.preNode, y) && Less(y, currentNode) ==> y !in live
  {
    if event != NodeDeleted then Ignore
    else if currentNode !in sortedNodeSet then Ignore
    else NextStep(sortedNodeSet, live, currentNode)
  }

  /**
    A contender that listed `listed` and then finds the live paths `live` is told to hold
    exactly when its node is below every listed child that is still live. On a fresh listing
    (`listed == live`) that is every live child of `root`.
  */
  lemma SignalMeansLeast(root: string, listed: seq<string>, live: seq<string>, c: string)
    requires c in listed && IsChildOf(root, c)
    ensures c in SortedChildren(root, listed)
    ensures NextStep(SortedChildren(root, listed), live, c) == Signal <==>
      forall q :: q in listed && q in live && IsChildOf(root, q) && q != c ==> Less(c, q)
  {
    var s := SortedChildren(root, listed);
    LiveChildrenListed(root, listed, c);
    if NextStep(s, live, c) == Signal {
      forall q | q in listed && q in live && IsChildOf(root, q) && q != c ensures Less(c, q) {
        LiveChildrenListed(root, listed, q);
        LessTotal(c, q);
      }
    } else {
      var p := NextStep(s, live, c).preNode;
      ListedAreLiveChildren(root, listed);
      LessAsymmetric(p, c);
      assert p != c;
    }
  }

  /**
    A contender told to watch watches the nearest node below its own among the listed
    children that are still live. On a fresh listing that is the nearest live child of `root`.
  */
  lemma RewatchIsNearestLiveChild(root: string, listed: seq<string>, live: seq<string>, c: string)
    requires c in SortedChildren(root, listed)
    requires NextStep(SortedChildren(root, listed), live, c).Rewatch?
    ensures var p := NextStep(SortedChildren(root, listed), live, c).preNode;
      && p in listed && p in live && IsChildOf(root, p) && Less(p, c)
      && forall q :: q in listed && q in live && IsChildOf(root, q) && Less(q, c) ==> q == p || Less(q, p)
  {
    var p := NextStep(SortedChildren(root, listed), live, c).preNode;
    ListedAreLiveChildren(root, listed);
    forall q | q in listed && q in live && IsChildOf(root, q) && Less(q, c) ensures q == p || Less(q, p) {
      LiveChildrenListed(root, listed, q);
      if q != p { LessTotal(q, p); }
    }
  }

  /** On one state of the service, listed afresh, at most one contender is told to hold. */
  lemma AtMostOneSignalled(root: string, live: seq<string>, a: string, b: string)
    requires a in live && IsChildOf(root, a) && b in live && IsChildOf(root, b)
    requires a in SortedChildren(root, live) && b in SortedChildren(root, live)
    requires NextStep(SortedChildren(root, live), live, a) == Signal
    requires NextStep(SortedChildren(root, live), live, b) == Signal
    ensures a == b
  {
    var s := SortedChildren(root, live);
    SignalMeansLeast(root, live, live, a);
    SignalMeansLeast(root, live, live, b);
    ListedAreLiveChildren(root, live);
    LeastIsUnique(s, a, b);
  }

  /** `CountDownLatch`: the signal between the watcher and the waiting thread. */
  class CountDownLatch {
    var count: nat

    constructor (count: nat)
      ensures this.count == count
    {
      this.count := count;
    }

    method CountDown()
      modifies this
      ensures count == if old(count) > 0 then old(count) - 1 else 0
    {
      if count > 0 {
        count := count - 1;
      }
    }
  }

  /** Where an attempt stands once `Enqueue` returns. */
  datatype Entry = Holding | Waiting(currentNode: string, latch: CountDownLatch, watcher: UnLockWatcher)

  /** `ZooKeeperDistributedLock`: one lock key under one root, seen from the calling thread. */
  class ZooKeeperDistributedLock {
    const zk: ZooKeeper
    const root: string
    const lockKey: string
    const path: string
    /** The calling thread's `nodeHolder` slot (a `ThreadLocal<String>`). */
    var nodeHolder: Option<string>

    ghost predicate Valid()
      reads this, zk
    {
      path == root + "/" + lockKey && '/' !in lockKey && zk.Valid()
    }

    /** Builds `path` from `root` and `lockKey`, then runs `init`. */
    constructor (zk: ZooKeeper, root: string, lockKey: string)
      requires zk.Valid() && '/' !in lockKey
      modifies zk
      ensures Valid()
      ensures this.zk == zk && this.root == root && this.lockKey == lockKey && path == root + "/" + lockKey
      ensures nodeHolder == None
      ensures zk.nodes == if root in old(zk.nodes) then old(zk.nodes) else old(zk.nodes) + [root]
      ensures zk.seqNo == old(zk.seqNo)
    {
      this.zk := zk;
      this.root := root;
      this.lockKey := lockKey;
      this.path := root + "/" + lockKey;
      nodeHolder := None;
      new;
      Init();
    }

    /** Creates the root only when it is absent, so running it again changes nothing. */
    method Init()
      requires Valid()
      modifies zk
      ensures Valid()
      ensures root in zk.nodes
      ensures zk.nodes == if root in old(zk.nodes) then old(zk.nodes) else old(zk.nodes) + [root]
      ensures zk.seqNo == old(zk.seqNo)
    {
      var stat := zk.Exists(root);
      if !stat {
        var created := zk.Create(root);
      }
    }

    /** The live children of `root` as full paths; the set does not depend on `lockKey`. */
    method GetRootChildren() returns (sortedNodeSet: seq<string>)
      ensures sortedNodeSet == SortedChildren(root, zk.nodes)
    {
      var rootChildren := zk.GetChildren(root);
      sortedNodeSet := RootChildren(root, rootChildren);
    }

    method DeleteNode(node: string) returns (r: Result<()>)
      requires Valid()
      modifies zk`nodes
      ensures Valid()
      ensures node in old(zk.nodes) ==> r == Ok(()) && zk.nodes == Without(old(zk.nodes), node)
      ensures node !in old(zk.nodes) ==> r == Err(NoNode) && zk.nodes == old(zk.nodes)
    {
      r := zk.Delete(node);
    }

    /** The predecessor search: `lower` on the listed set, then `exists` on the service, until a live one. */
    method FindPredecessor(sortedNodeSet: seq<string>, currentNode: string) returns (preNode: Option<string>)
      ensures preNode == LivePredecessor(sortedNodeSet, zk.nodes, currentNode)
    {
      var pre := currentNode;
      while true
        invariant LivePredecessor(sortedNodeSet, zk.nodes, pre) == LivePredecessor(sortedNodeSet, zk.nodes, currentNode)
        decreases Below(sortedNodeSet, pre)
      {
        var lower := Lower(sortedNodeSet, pre);
        if lower.None? {
          return None;
        }
        BelowShrinks(sortedNodeSet, lower.value, pre);
        pre := lower.value;
        var stat := zk.Exists(pre);
        if stat {
          return Some(pre);
        }
      }
    }

    /**
      Fail-fast attempt: true iff the new node is below every node already under `root`;
      otherwise the node is deleted again and the node list is exactly as before.
    */
    method TryLock() returns (r: Result<bool>)
      requires Valid()
      modifies this`nodeHolder, zk
      ensures Valid()
      ensures var c := SequentialPath(path, old(zk.seqNo));
        && (r.Err? <==> c in old(zk.nodes))
        && (r.Err? ==> r.fault == NodeExists && zk.nodes == old(zk.nodes) && zk.seqNo == old(zk.seqNo))
        && (r.Ok? ==> zk.seqNo == old(zk.seqNo) + 1)
        && (r.Ok? ==> (r.value <==> forall q :: q in old(zk.nodes) && IsChildOf(root, q) ==> Less(c, q)))
        && (r == Ok(true) ==> nodeHolder == Some(c) && zk.nodes == old(zk.nodes) + [c])
        && (r != Ok(true) ==> nodeHolder == old(nodeHolder))
        && (r == Ok(false) ==> zk.nodes == old(zk.nodes))
    {
      var created := zk.CreateSequential(path);
      if created.Err? {
        return Err(created.fault);
      }
      var currentNode := created.value;
      ghost var live := zk.nodes;
      CreatedNodeIsChild(root, lockKey, old(zk.seqNo));
      var sortedNodeSet := GetRootChildren();
      SignalMeansLeast(root, live, live, currentNode);
      if First(sortedNodeSet) == currentNode {
        FirstHasNothingBelow(sortedNodeSet);
        nodeHolder := Some(currentNode);
        return Ok(true);
      }
      ListedAreLiveChildren(root, live);
      LessAsymmetric(First(sortedNodeSet), currentNode);
      var deleted := DeleteNode(currentNode);
      WithoutAppended(old(zk.nodes), currentNode);
      r := Ok(false);
    }

    /**
      Everything `waitForLock` does before `latch.await`: create the node and list the
      children; if the node is first or no lower node is live, hold it; otherwise arm a watch
      on the nearest live lower node.
    */
    method Enqueue(next: seq<string>) returns (r: Result<Entry>)
      requires Valid() && Distinct(next)
      modifies this`nodeHolder, zk
      ensures Valid()
      ensures var c := SequentialPath(path, old(zk.seqNo));
              var listed := old(zk.nodes) + [c];
        && (r.Err? <==> c in old(zk.nodes))
        && (r.Err? ==> r.fault == NodeExists && zk.nodes == old(zk.nodes) && zk.seqNo == old(zk.seqNo))
        && (r.Ok? ==> zk.nodes == next && zk.seqNo == old(zk.seqNo) + 1 && c in listed && IsChildOf(root, c))
        && (r.Ok? ==> c in SortedChildren(root, listed))
        && (r == Ok(Holding) <==> r.Ok? && NextStep(SortedChildren(root, listed), next, c) == Signal)
        && (r == Ok(Holding) ==> nodeHolder == Some(c))
        && (r != Ok(Holding) ==> nodeHolder == old(nodeHolder))
        && (r.Ok? && r.value.Waiting? ==>
              && NextStep(SortedChildren(root, listed), next, c).Rewatch?
              && r.value.currentNode == c
              && fresh(r.value.latch) && r.value.latch.count == 1
              && fresh(r.value.watcher) && r.value.watcher.owner == this
              && r.value.watcher.countDownLatch == r.value.latch && r.value.watcher.currentNode == c
              && r.value.watcher.watching == Some(NextStep(SortedChildren(root, listed), next, c).preNode))
    {
      var created := zk.CreateSequential(path);
      if created.Err? {
        return Err(created.fault);
      }
      var currentNode := created.value;
      CreatedNodeIsChild(root, lockKey, old(zk.seqNo));
      LiveChildrenListed(root, zk.nodes, currentNode);
      var sortedNodeSet := GetRootChildren();
      // other sessions act between the listing and the `exists` calls
      zk.Interleave(next);
      if First(sortedNodeSet) == currentNode {
        nodeHolder := Some(currentNode);
        return Ok(Holding);
      }
      var latch := new CountDownLatch(1);
      var preNode := FindPredecessor(sortedNodeSet, currentNode);
      if preNode.None? {
        nodeHolder := Some(currentNode);
        return Ok(Holding);
      }
      var watcher := new UnLockWatcher(this, latch, currentNode, preNode);
      r := Ok(Waiting(currentNode, latch, watcher));
    }

    /** `latch.await()` returns only once the latch is open; then the thread holds its node. */
    method AwaitLock(currentNode: string, latch: CountDownLatch)
      requires latch.count == 0
      modifies this`nodeHolder
      ensures nodeHolder == Some(currentNode)
    {
      nodeHolder := Some(currentNode);
    }

    /**
      `latch.await(timeout, unit)` returns true iff the latch opened in time; a timed-out
      attempt deletes its own node and leaves `nodeHolder` alone.
    */
    method AwaitLockWithTimeout(currentNode: string, latch: CountDownLatch) returns (r: Result<bool>)
      requires Valid()
      modifies this`nodeHolder, zk`nodes
      ensures Valid()
      ensures latch.count == 0 ==> r == Ok(true) && nodeHolder == Some(currentNode) && zk.nodes == old(zk.nodes)
      ensures latch.count != 0 ==> nodeHolder == old(nodeHolder)
      ensures latch.count != 0 && currentNode in old(zk.nodes) ==>
        r == Ok(false) && zk.nodes == Without(old(zk.nodes), currentNode)
      ensures latch.count != 0 && currentNode !in old(zk.nodes) ==> r == Err(NoNode) && zk.nodes == old(zk.nodes)
    {
      var result := latch.count == 0;
      if !result {
        var deleted := DeleteNode(currentNode);
        if deleted.Err? {
          return Err(deleted.fault);
        }
        return Ok(false);
      }
      nodeHolder := Some(currentNode);
      r := Ok(true);
    }

    /** Deletes exactly the held node and clears the slot; nothing to do when no node is held. */
    method Unlock() returns (r: Result<()>)
      requires Valid()
      modifies this`nodeHolder, zk`nodes
      ensures Valid()
      ensures old(nodeHolder).None? ==> r == Ok(()) && nodeHolder == None && zk.nodes == old(zk.nodes)
      ensures old(nodeHolder).Some? && old(nodeHolder).value in old(zk.nodes) ==>
        r == Ok(()) && nodeHolder == None && zk.nodes == Without(old(zk.nodes), old(nodeHolder).value)
      ensures old(nodeHolder).Some? && old(nodeHolder).value !in old(zk.nodes) ==>
        r == Err(NoNode) && nodeHolder == old(nodeHolder) && zk.nodes == old(zk.nodes)
    {
      if nodeHolder.None? {
        return Ok(());
      }
      var deleted := DeleteNode(nodeHolder.value);
      if deleted.Err? {
        return Err(deleted.fault);
      }
      nodeHolder := None;
      r := Ok(());
    }
  }

  /** The events an `exists` watch on a live node fires with: they use that watch up. */
  predicate WatchFired(event: EventType)
  {
    event == NodeDeleted || event == NodeDataChanged
  }

  /** `UnLockWatcher`: re-decides for one waiting contender when its watch fires. */
  class UnLockWatcher {
    const owner: ZooKeeperDistributedLock
    const countDownLatch: CountDownLatch
    const currentNode: string
    /** The node this watcher's one-shot watch is armed on, if any. */
    var watching: Option<string>

    constructor (owner: ZooKeeperDistributedLock, countDownLatch: CountDownLatch, currentNode: string,
                 watching: Option<string>)
      ensures this.owner == owner && this.countDownLatch == countDownLatch
      ensures this.currentNode == currentNode && this.watching == watching
    {
      this.owner := owner;
      this.countDownLatch := countDownLatch;
      this.currentNode := currentNode;
      this.watching := watching;
    }

    /**
      Only a deletion or data change of the watched node uses its watch up. A session-state
      event, or NodeCreated from a watch `exists` left on an absent node, leaves it armed.
      On a deletion, the decision on the listing and on what is still live when the `exists`
      calls run says whether to signal the waiter or re-arm.
    */
    method Process(event: EventType, next: seq<string>)
      requires Distinct(next)
      modifies this`watching, countDownLatch, owner.zk`nodes
      ensures owner.zk.nodes == if event == NodeDeleted then next else old(owner.zk.nodes)
      ensures !WatchFired(event) ==> watching == old(watching) && countDownLatch.count == old(countDownLatch.count)
      ensures var d := Decide(event, SortedChildren(owner.root, old(owner.zk.nodes)), next, currentNode);
        && (d == Ignore && WatchFired(event) ==> watching == None && countDownLatch.count == old(countDownLatch.count))
        && (d == Signal ==>
              && watching == None
              && countDownLatch.count == if old(countDownLatch.count) > 0 then old(countDownLatch.count) - 1 else 0)
        && (d.Rewatch? ==> watching == Some(d.preNode) && countDownLatch.count == old(countDownLatch.count))
    {
      if WatchFired(event) {
        watching := None;
      }
      if event != NodeDeleted {
        return;
      }
      var sortedNodeSet := owner.GetRootChildren();
      // other sessions act between the listing and the `exists` calls
      owner.zk.Interleave(next);
      if currentNode !in sortedNodeSet {
        return;
      }
      var firstNode := First(sortedNodeSet);
      if currentNode == firstNode {
        countDownLatch.CountDown();
        return;
      }
      var preNode := owner.FindPredecessor(sortedNodeSet, currentNode);
      if preNode.None? {
        countDownLatch.CountDown();
        return;
      }
      watching := preNode;
    }
  }
}
