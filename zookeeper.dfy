/**
  The coordination service the queue lock runs on, reduced to what the lock uses: a list
  of distinct live node paths (its order carries no meaning: the lock sorts what it lists),
  a sequence counter for sequential nodes, and the
  calls `exists`, `create`, `delete` and `getChildren`.
*/
module ZooKeeperService {
  import opened Common
  import opened NodeOrder

  /** Sequential nodes get the counter appended in ten zero-padded decimal digits ("%010d"). */
  const SEQUENCE_WIDTH: nat := 10

  function Pow10(n: nat): nat
  {
    if n == 0 then 1 else 10 * Pow10(n - 1)
  }

  function DigitChar(d: nat): char
    requires d < 10
  {
    (48 + d) as char
  }

  /** The last `width` decimal digits of `n`, most significant first. */
  function Digits(n: nat, width: nat): (s: string)
    ensures |s| == width
    ensures forall i :: 0 <= i < |s| ==> '0' <= s[i] <= '9'
  {
    if width == 0 then [] else Digits(n / 10, width - 1) + [DigitChar(n % 10)]
  }

  /** Below 10^width, the padded digits sort as the numbers do. */
  lemma {:induction false} DigitsOrdered(a: nat, b: nat, width: nat)
    requires a < b < Pow10(width)
    ensures Less(Digits(a, width), Digits(b, width))
  {
    assert width > 0;
    var a', b' := a / 10, b / 10;
    assert b' < Pow10(width - 1);
    if a' < b' {
      DigitsOrdered(a', b', width - 1);
      LessEqualLength(Digits(a', width - 1), Digits(b', width - 1), [DigitChar(a % 10)], [DigitChar(b % 10)]);
    } else {
      assert a' == b';
      assert a % 10 < b % 10;
      assert Less([DigitChar(a % 10)], [DigitChar(b % 10)]);
      LessCommonPrefix(Digits(a', width - 1), [DigitChar(a % 10)], [DigitChar(b % 10)]);
    }
  }

  /** The path a sequential create of `prefix` gets when the counter is `n`. */
  function SequentialPath(prefix: string, n: nat): string
  {
    prefix + Digits(n, SEQUENCE_WIDTH)
  }

  /** Sequential nodes of one prefix sort in creation order (while the counter stays below 10^10). */
  lemma CreationOrder(prefix: string, a: nat, b: nat)
    requires a < b < Pow10(SEQUENCE_WIDTH)
    ensures Less(SequentialPath(prefix, a), SequentialPath(prefix, b))
  {
    DigitsOrdered(a, b, SEQUENCE_WIDTH);
    LessCommonPrefix(prefix, Digits(a, SEQUENCE_WIDTH), Digits(b, SEQUENCE_WIDTH));
  }

  /** `p` is a direct child of `parent`: `parent + "/" + name` with a non-empty name without '/'. */
  predicate IsChildOf(parent: string, p: string)
  {
    |p| > |parent| + 1 && p[..|parent| + 1] == parent + "/" && '/' !in p[|parent| + 1..]
  }

  function ChildName(parent: string, p: string): string
    requires IsChildOf(parent, p)
  {
    p[|parent| + 1..]
  }

  /** `getChildren(parent)`: the names of the live direct children, in no promised order. */
  function ChildNames(parent: string, nodes: seq<string>): seq<string>
  {
    if nodes == [] then []
    else (if IsChildOf(parent, nodes[0]) then [ChildName(parent, nodes[0])] else []) + ChildNames(parent, nodes[1..])
  }

  predicate Distinct(s: seq<string>)
  {
    forall i, j :: 0 <= i < j < |s| ==> s[i] != s[j]
  }

  /** `s` with `x` removed. */
  function Without(s: seq<string>, x: string): (r: seq<string>)
    ensures forall y :: y in r <==> y in s && y != x
    ensures Distinct(s) ==> Distinct(r)
    ensures x !in s ==> r == s
  {
    if s == [] then []
    else if s[0] == x then Without(s[1..], x)
    else
      var rest := Without(s[1..], x);
      assert forall y :: y in s ==> y == s[0] || y in s[1..];
      assert Distinct(s) ==> s[0] !in s[1..] && Distinct(s[1..]) by {
        if Distinct(s) {
          forall i | 0 <= i < |s[1..]| ensures s[1..][i] != s[0] { assert s[1..][i] == s[i + 1]; }
          forall i, j | 0 <= i < j < |s[1..]| ensures s[1..][i] != s[1..][j] { assert s[1..][i] == s[i + 1]; }
        }
      }
      assert Distinct(s) ==> Distinct([s[0]] + rest) by {
        if Distinct(s) {
          forall i, j | 0 <= i < j < |[s[0]] + rest| ensures ([s[0]] + rest)[i] != ([s[0]] + rest)[j] {
            if i == 0 { assert ([s[0]] + rest)[j] == rest[j - 1] && rest[j - 1] in rest; }
            else { assert ([s[0]] + rest)[i] == rest[i - 1] && ([s[0]] + rest)[j] == rest[j - 1]; }
          }
        }
      }
      assert x !in s ==> s == [s[0]] + s[1..];
      [s[0]] + rest
  }

  /** Removing what was just appended gives back the sequence before. */
  lemma {:induction false} WithoutAppended(s: seq<string>, x: string)
    requires x !in s
    ensures Without(s + [x], x) == s
  {
    if s != [] {
      assert (s + [x])[0] == s[0] && (s + [x])[1..] == s[1..] + [x];
      WithoutAppended(s[1..], x);
      assert s == [s[0]] + s[1..];
    } else {
      assert [x][1..] == [];
    }
  }

  /** Event types a watcher is notified with (`None` is ZooKeeper's session-state event). */
  datatype EventType = NoneEvent | NodeCreated | NodeDeleted | NodeDataChanged | NodeChildrenChanged

  /** The ensemble behind one session: its live node paths and its sequence counter. */
  class ZooKeeper {
    var nodes: seq<string>
    var seqNo: nat

    ghost predicate Valid()
      reads this
    {
      Distinct(nodes)
    }

    constructor ()
      ensures Valid() && nodes == [] && seqNo == 0
    {
      nodes := [];
      seqNo := 0;
    }

    /** `exists(path, watch)`: whether the path is live (the watch is the caller's to record). */
    method Exists(path: string) returns (live: bool)
      ensures live <==> path in nodes
    {
      live := path in nodes;
    }

    /** `create(path, PERSISTENT)`: the path itself, or NodeExists when it is live already. */
    method Create(path: string) returns (r: Result<string>)
      requires Valid()
      modifies this`nodes
      ensures Valid()
      ensures path in old(nodes) ==> r == Err(NodeExists) && nodes == old(nodes)
      ensures path !in old(nodes) ==> r == Ok(path) && nodes == old(nodes) + [path]
    {
      if path in nodes {
        return Err(NodeExists);
      }
      nodes := nodes + [path];
      r := Ok(path);
    }

    /** `create(prefix, EPHEMERAL_SEQUENTIAL)`: the prefix with the counter appended, and the counter moves on. */
    method CreateSequential(prefix: string) returns (r: Result<string>)
      requires Valid()
      modifies this
      ensures Valid()
      ensures var p := SequentialPath(prefix, old(seqNo));
        if p in old(nodes) then r == Err(NodeExists) && nodes == old(nodes) && seqNo == old(seqNo)
        else r == Ok(p) && nodes == old(nodes) + [p] && seqNo == old(seqNo) + 1
    {
      var p := SequentialPath(prefix, seqNo);
      if p in nodes {
        return Err(NodeExists);
      }
      nodes := nodes + [p];
      seqNo := seqNo + 1;
      r := Ok(p);
    }

    /** `delete(path, -1)`: removes a live path, NoNode otherwise. */
    method Delete(path: string) returns (r: Result<()>)
      requires Valid()
      modifies this`nodes
      ensures Valid()
      ensures path in old(nodes) ==> r == Ok(()) && nodes == Without(old(nodes), path)
      ensures path !in old(nodes) ==> r == Err(NoNode) && nodes == old(nodes)
    {
      if path !in nodes {
        return Err(NoNode);
      }
      nodes := Without(nodes, path);
      r := Ok(());
    }

    /**
      Environment: meanwhile other sessions create and delete nodes and ephemeral nodes of
      expired sessions go; the live paths become `next`.
    */
    method Interleave(next: seq<string>)
      requires Distinct(next)
      modifies this`nodes
      ensures Valid() && nodes == next
    {
      nodes := next;
    }

    /** `getChildren(parent, false)`. */
    method GetChildren(parent: string) returns (names: seq<string>)
      ensures names == ChildNames(parent, nodes)
    {
      names := ChildNames(parent, nodes);
    }
  }
}
