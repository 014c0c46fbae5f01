/** Sequence helpers: order-preserving filters, duplicate-free logs and flattening. */
module Seqs {

  /** The elements of `xs` that satisfy `keep`, in their original order (a list comprehension). */
  function Filter<T(!new)>(xs: seq<T>, keep: T -> bool): (r: seq<T>)
    ensures |r| <= |xs|
    ensures forall x :: x in r <==> x in xs && keep(x)
  {
    if |xs| == 0 then []
    else
      var rest := Filter(xs[1..], keep);
      assert xs == [xs[0]] + xs[1..];
      if keep(xs[0]) then [xs[0]] + rest else rest
  }

  /** Filtering distributes over concatenation. */
  lemma {:induction false} FilterConcat<T(!new)>(a: seq<T>, b: seq<T>, keep: T -> bool)
    ensures Filter(a + b, keep) == Filter(a, keep) + Filter(b, keep)
    decreases |a|
  {
    if |a| == 0 {
      assert a + b == b;
    } else {
      assert (a + b)[0] == a[0];
      assert (a + b)[1..] == a[1..] + b;
      FilterConcat(a[1..], b, keep);
      var tail := Filter(a[1..], keep) + Filter(b, keep);
      if keep(a[0]) {
        calc {
          Filter(a + b, keep);
          [a[0]] + Filter(a[1..] + b, keep);
          [a[0]] + tail;
          ([a[0]] + Filter(a[1..], keep)) + Filter(b, keep);
        }
      } else {
        assert Filter(a + b, keep) == tail;
      }
    }
  }

  /** A filter that keeps everything is the identity. */
  lemma {:induction false} FilterAll<T(!new)>(xs: seq<T>, keep: T -> bool)
    requires forall k :: 0 <= k < |xs| ==> keep(xs[k])
    ensures Filter(xs, keep) == xs
    decreases |xs|
  {
    if |xs| > 0 {
      FilterAll(xs[1..], keep);
      assert [xs[0]] + xs[1..] == xs;
    }
  }

  /** What a filter keeps and what it drops add up to the whole list. */
  lemma {:induction false} FilterComplement<T(!new)>(xs: seq<T>, keep: T -> bool, drop: T -> bool)
    requires forall x :: drop(x) == !keep(x)
    ensures |Filter(xs, keep)| + |Filter(xs, drop)| == |xs|
    decreases |xs|
  {
    if |xs| > 0 {
      FilterComplement(xs[1..], keep, drop);
    }
  }

  predicate NoDup<T(==)>(xs: seq<T>) {
    forall i, j :: 0 <= i < j < |xs| ==> xs[i] != xs[j]
  }

  predicate IsPrefix<T(==)>(a: seq<T>, b: seq<T>) {
    |a| <= |b| && b[..|a|] == a
  }

  /** `log.extend(x for x in xs if x not in log)`: the generator is consumed while `log` grows, so a
      value repeated inside `xs` is appended once. */
  function AppendNew<T(==,!new)>(log: seq<T>, xs: seq<T>): (r: seq<T>)
    ensures IsPrefix(log, r)
    ensures NoDup(log) ==> NoDup(r)
    ensures forall x :: x in r <==> x in log || x in xs
    decreases |xs|
  {
    if |xs| == 0 then log
    else if xs[0] in log then AppendNew(log, xs[1..])
    else
      assert forall x :: x in xs <==> x == xs[0] || x in xs[1..];
      AppendNew(log + [xs[0]], xs[1..])
  }

  function Flatten<T>(xss: seq<seq<T>>): seq<T> {
    if |xss| == 0 then [] else xss[0] + Flatten(xss[1..])
  }

  /** Flattening distributes over concatenation. */
  lemma {:induction false} FlattenConcat<T>(a: seq<seq<T>>, b: seq<seq<T>>)
    ensures Flatten(a + b) == Flatten(a) + Flatten(b)
    decreases |a|
  {
    if |a| == 0 {
      assert a + b == b;
    } else {
      assert (a + b)[0] == a[0];
      assert (a + b)[1..] == a[1..] + b;
      FlattenConcat(a[1..], b);
    }
  }

  function Min(a: int, b: int): int {
    if a <= b then a else b
  }

  function Max(a: int, b: int): int {
    if a >= b then a else b
  }
}
