/** Python's filtering list comprehension `[f(x) for x in xs if keep(x)]`,
    the shape in which both inverter clients collect element texts. */
module Comprehensions {
  import opened Sequences

  /** `[f(x) for x in xs if keep(x)]` */
  function FilterMap<T, U>(xs: seq<T>, keep: T -> bool, f: T -> U): (r: seq<U>)
    ensures |r| <= |xs|
    ensures (forall i :: 0 <= i < |xs| ==> keep(xs[i])) ==> |r| == |xs|
    decreases |xs|
  {
    if xs == [] then []
    else (if keep(xs[0]) then [f(xs[0])] else []) + FilterMap(xs[1..], keep, f)
  }

  /** The comprehension over a concatenation is the concatenation of the
      comprehensions: items come out in the order they go in. */
  lemma {:induction false} FilterMapAppend<T, U>(a: seq<T>, b: seq<T>, keep: T -> bool, f: T -> U)
    ensures FilterMap(a + b, keep, f) == FilterMap(a, keep, f) + FilterMap(b, keep, f)
    decreases |a|
  {
    if a == [] {
      assert a + b == b;
    } else {
      assert (a + b)[1..] == a[1..] + b;
      FilterMapAppend(a[1..], b, keep, f);
      Associate(if keep(a[0]) then [f(a[0])] else [], FilterMap(a[1..], keep, f), FilterMap(b, keep, f));
    }
  }

  /** An item comes out exactly when some kept input produces it. */
  lemma {:induction false} FilterMapMember<T, U>(xs: seq<T>, keep: T -> bool, f: T -> U, y: U)
    ensures y in FilterMap(xs, keep, f) <==> exists i :: 0 <= i < |xs| && keep(xs[i]) && f(xs[i]) == y
    decreases |xs|
  {
    if xs != [] {
      FilterMapMember(xs[1..], keep, f, y);
      if exists i :: 0 <= i < |xs[1..]| && keep(xs[1..][i]) && f(xs[1..][i]) == y {
        var i :| 0 <= i < |xs[1..]| && keep(xs[1..][i]) && f(xs[1..][i]) == y;
        assert keep(xs[i + 1]) && f(xs[i + 1]) == y;
      }
      if exists i :: 0 <= i < |xs| && keep(xs[i]) && f(xs[i]) == y {
        var i :| 0 <= i < |xs| && keep(xs[i]) && f(xs[i]) == y;
        if i > 0 { assert keep(xs[1..][i - 1]) && f(xs[1..][i - 1]) == y; }
      }
    }
  }

  lemma FilterMapCons<T, U>(xs: seq<T>, keep: T -> bool, f: T -> U)
    requires |xs| > 0 && keep(xs[0])
    ensures FilterMap(xs, keep, f) == [f(xs[0])] + FilterMap(xs[1..], keep, f)
  {
  }

  /** Around a kept input at `i`, the output splits into what the inputs
      before it give, its own item, and what the inputs after it give. */
  lemma FilterMapAt<T, U>(xs: seq<T>, i: nat, keep: T -> bool, f: T -> U)
    requires i < |xs| && keep(xs[i])
    ensures FilterMap(xs, keep, f) == FilterMap(xs[..i], keep, f) + [f(xs[i])] + FilterMap(xs[i + 1..], keep, f)
  {
    var a, b := xs[..i], xs[i..];
    assert a + b == xs;
    FilterMapAppend(a, b, keep, f);
    assert b[0] == xs[i] && b[1..] == xs[i + 1..];
    FilterMapCons(b, keep, f);
  }

  /** Each item after the one of the kept input `i` comes from a kept input
      after `i`. */
  lemma FilterMapAfter<T, U>(xs: seq<T>, i: nat, keep: T -> bool, f: T -> U, j: nat) returns (m: nat)
    requires i < |xs| && keep(xs[i])
    requires |FilterMap(xs[..i], keep, f)| < j < |FilterMap(xs, keep, f)|
    ensures i < m < |xs| && keep(xs[m]) && f(xs[m]) == FilterMap(xs, keep, f)[j]
  {
    FilterMapAt(xs, i, keep, f);
    var n := |FilterMap(xs[..i], keep, f)|;
    var rest := xs[i + 1..];
    var y := FilterMap(rest, keep, f)[j - n - 1];
    assert FilterMap(xs, keep, f)[j] == y;
    FilterMapMember(rest, keep, f, y);
    var k :| 0 <= k < |rest| && keep(rest[k]) && f(rest[k]) == y;
    m := i + 1 + k;
    assert xs[m] == rest[k];
  }
}
