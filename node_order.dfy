/**
  The order in which the queue lock sorts node paths (Java's `String.compareTo`, the
  natural order of a `TreeSet<String>`) and the two `TreeSet` queries the lock uses,
  `first()` and `lower(x)`, over the elements the set was built from.

  `Less` compares characters as Unicode code points, Java compares UTF-16 code units. The
  two agree on strings without supplementary characters (above U+FFFF), which ZooKeeper
  path names do not contain.
*/
module NodeOrder {
  import opened Common

  /** `a.compareTo(b) < 0` (for paths without supplementary characters): the first differing character decides, else the shorter string is less. */
  predicate Less(a: string, b: string)
  {
    if |a| == 0 then |b| > 0
    else if |b| == 0 then false
    else if a[0] != b[0] then a[0] < b[0]
    else Less(a[1..], b[1..])
  }

  lemma {:induction false} LessIrreflexive(a: string)
    ensures !Less(a, a)
  {
    if |a| > 0 {
      LessIrreflexive(a[1..]);
    }
  }

  lemma {:induction false} LessAsymmetric(a: string, b: string)
    requires Less(a, b)
    ensures !Less(b, a)
  {
    if |a| > 0 && |b| > 0 && a[0] == b[0] {
      LessAsymmetric(a[1..], b[1..]);
    }
  }

  lemma {:induction false} LessTransitive(a: string, b: string, c: string)
    requires Less(a, b) && Less(b, c)
    ensures Less(a, c)
  {
    if |a| > 0 && a[0] == b[0] && b[0] == c[0] {
      LessTransitive(a[1..], b[1..], c[1..]);
    }
  }

  lemma {:induction false} LessTotal(a: string, b: string)
    requires a != b
    ensures Less(a, b) || Less(b, a)
  {
    if |a| > 0 && |b| > 0 && a[0] == b[0] {
      assert a == [a[0]] + a[1..] && b == [b[0]] + b[1..];
      LessTotal(a[1..], b[1..]);
    }
  }

  /** A common prefix does not change the order. */
  lemma {:induction false} LessCommonPrefix(p: string, x: string, y: string)
    ensures Less(p + x, p + y) <==> Less(x, y)
  {
    if |p| > 0 {
      assert (p + x)[0] == p[0] == (p + y)[0];
      assert (p + x)[1..] == p[1..] + x && (p + y)[1..] == p[1..] + y;
      LessCommonPrefix(p[1..], x, y);
    } else {
      assert p + x == x && p + y == y;
    }
  }

  /** Between strings of equal length the order is decided inside them, whatever follows. */
  lemma {:induction false} LessEqualLength(x: string, y: string, u: string, v: string)
    requires |x| == |y| && Less(x, y)
    ensures Less(x + u, y + v)
  {
    assert |x| > 0;
    assert (x + u)[0] == x[0] && (y + v)[0] == y[0];
    if x[0] == y[0] {
      assert (x + u)[1..] == x[1..] + u && (y + v)[1..] == y[1..] + v;
      LessEqualLength(x[1..], y[1..], u, v);
    }
  }

  /** The elements of `xs` strictly below `x`; its size bounds the predecessor search. */
  ghost function Below(xs: seq<string>, x: string): set<string>
  {
    set y | y in xs && Less(y, x)
  }

  /** Going down to an element below `x` strictly shrinks the part of the set below. */
  lemma BelowShrinks(xs: seq<string>, p: string, x: string)
    requires p in xs && Less(p, x)
    ensures Below(xs, p) < Below(xs, x)
  {
    forall y | y in Below(xs, p) ensures y in Below(xs, x) {
      LessTransitive(y, p, x);
    }
    LessIrreflexive(p);
    assert p in Below(xs, x) - Below(xs, p);
  }

  /** `TreeSet.first()` of the set holding the elements of `xs`: its least element. */
  function First(xs: seq<string>): (m: string)
    requires |xs| > 0
    ensures m in xs
    ensures forall y :: y in xs && y != m ==> Less(m, y)
  {
    if |xs| == 1 then xs[0]
    else
      var rest := First(xs[1..]);
      var m := if Less(xs[0], rest) then xs[0] else rest;
      assert forall y :: y in xs ==> y == xs[0] || y in xs[1..];
      assert m == rest ==> xs[0] == rest || Less(rest, xs[0]) by {
        if m == rest && xs[0] != rest { LessTotal(xs[0], rest); }
      }
      forall y | y in xs[1..] && y != m ensures Less(m, y) {
        if m != rest && y != rest { LessTransitive(m, rest, y); }
      }
      m
  }

  /** `TreeSet.lower(x)`: the greatest element strictly below `x`, or none. */
  function Lower(xs: seq<string>, x: string): (r: Option<string>)
    ensures r.None? <==> forall y :: y in xs ==> !Less(y, x)
    ensures r.Some? ==> r.value in xs && Less(r.value, x)
    ensures r.Some? ==> forall y :: y in xs && Less(y, x) && y != r.value ==> Less(y, r.value)
  {
    if xs == [] then None
    else
      var rest := Lower(xs[1..], x);
      assert xs[0] in xs && forall y :: y in xs ==> y == xs[0] || y in xs[1..];
      assert rest.Some? ==> rest.value in xs;
      if !Less(xs[0], x) then
        assert rest.None? ==> forall y :: y in xs ==> !Less(y, x);
        rest
      else if rest.None? then Some(xs[0])
      else if Less(rest.value, xs[0]) then
        assert forall y :: y in xs[1..] && Less(y, x) && y != xs[0] ==> Less(y, xs[0]) by {
          forall y | y in xs[1..] && Less(y, x) && y != xs[0] ensures Less(y, xs[0]) {
            if y != rest.value { LessTransitive(y, rest.value, xs[0]); }
          }
        }
        Some(xs[0])
      else
        assert xs[0] != rest.value ==> Less(xs[0], rest.value) by {
          if xs[0] != rest.value { LessTotal(xs[0], rest.value); }
        }
        rest
  }

  /** The least element of a set lies below no other element of it. */
  lemma FirstHasNothingBelow(xs: seq<string>)
    requires |xs| > 0
    ensures forall y :: y in xs ==> !Less(y, First(xs))
  {
    forall y | y in xs ensures !Less(y, First(xs)) {
      if y == First(xs) { LessIrreflexive(y); } else { LessAsymmetric(First(xs), y); }
    }
  }

  /** At most one element of a set is its least: two elements both below all others coincide. */
  lemma {:induction false} LeastIsUnique(xs: seq<string>, a: string, b: string)
    requires a in xs && b in xs
    requires forall y :: y in xs && y != a ==> Less(a, y)
    requires forall y :: y in xs && y != b ==> Less(b, y)
    ensures a == b
  {
    if a != b {
      assert Less(a, b) && Less(b, a);
      LessAsymmetric(a, b);
    }
  }
}
