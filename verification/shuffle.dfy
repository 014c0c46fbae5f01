/** The seeded shuffle of the extraction order: `random.Random(seed).shuffle(order)`. The generator's
    numbers come from an oracle; the Fisher-Yates loop around them is modelled exactly. */
module Shuffle {
  import opened Seqs

  /** An arbitrary index oracle standing for the generator: `Draw(seed, i)` is the index drawn when the
      shuffle reaches position `i`. It is not Python's generator, whose draws also depend on the draws
      before them; nothing proved here depends on which oracle it is. A value above `i` is capped at
      `i` where used. */
  type Draw = (int, nat) -> nat

  /** The position drawn for position `i`: one at or below it. */
  function Pick(draw: Draw, seed: int, i: nat): (j: nat)
    ensures j <= i
  {
    var d := draw(seed, i);
    if d <= i then d else i
  }

  /** `a[i], a[j] = a[j], a[i]`. */
  function Swap<T>(a: seq<T>, i: nat, j: nat): (r: seq<T>)
    requires i < |a| && j < |a|
    ensures |r| == |a|
  {
    a[i := a[j]][j := a[i]]
  }

  /** A swap moves elements without losing or duplicating any. */
  lemma SwapPermutes<T>(a: seq<T>, i: nat, j: nat)
    requires i < |a| && j < |a|
    ensures multiset(Swap(a, i, j)) == multiset(a)
  {
  }

  /** The list after the first `k` turns of the shuffle loop; turn `k` swaps position `|xs| - k`
      with a drawn position at or below it, so the turns visit positions `|xs| - 1` down to 1. */
  function ShuffleSteps<T>(xs: seq<T>, k: nat, seed: int, draw: Draw): (r: seq<T>)
    requires k < |xs|
    ensures |r| == |xs|
    decreases k
  {
    if k == 0 then xs
    else
      var i := |xs| - k;
      Swap(ShuffleSteps(xs, k - 1, seed, draw), i, Pick(draw, seed, i))
  }

  /** `shuffle`: the loop over `reversed(range(1, len(x)))`, one turn per position from the last down
      to 1. */
  function Shuffled<T>(xs: seq<T>, seed: int, draw: Draw): (r: seq<T>)
    ensures |r| == |xs|
  {
    if |xs| <= 1 then xs else ShuffleSteps(xs, |xs| - 1, seed, draw)
  }

  /** The shuffle as the loop runs it, on a sequence updated in place. The result is the reference
      shuffle and holds the same elements, each as often, as the input. */
  method ShuffleOrder<T>(xs: seq<T>, seed: int, draw: Draw) returns (r: seq<T>)
    ensures r == Shuffled(xs, seed, draw)
    ensures multiset(r) == multiset(xs)
  {
    r := xs;
    if |xs| <= 1 {
      return;
    }
    var i := |xs| - 1;
    while i > 0
      invariant 0 <= i < |xs|
      invariant r == ShuffleSteps(xs, |xs| - 1 - i, seed, draw)
      decreases i
    {
      var j := Pick(draw, seed, i);
      r := Swap(r, i, j);
      i := i - 1;
    }
    ShuffledIsPermutation(xs, seed, draw);
  }

  /** One turn of the loop keeps the elements and their counts. */
  lemma StepPermutes<T>(xs: seq<T>, k: nat, seed: int, draw: Draw)
    requires 0 < k < |xs|
    ensures multiset(ShuffleSteps(xs, k, seed, draw)) == multiset(ShuffleSteps(xs, k - 1, seed, draw))
  {
    var i := |xs| - k;
    SwapPermutes(ShuffleSteps(xs, k - 1, seed, draw), i, Pick(draw, seed, i));
  }

  /** Any positive number of turns keeps the elements and their counts. */
  lemma {:induction false} ShuffleStepsPermutes<T>(xs: seq<T>, k: nat, seed: int, draw: Draw)
    requires 0 < k < |xs|
    ensures multiset(ShuffleSteps(xs, k, seed, draw)) == multiset(xs)
    decreases k
  {
    if k > 1 {
      ShuffleStepsPermutes(xs, k - 1, seed, draw);
    } else {
      assert ShuffleSteps(xs, 0, seed, draw) == xs;
    }
    StepPermutes(xs, k, seed, draw);
  }

  /** A permutation of a list without repetitions has none either. */
  lemma PermutationNoDup<T>(a: seq<T>, b: seq<T>)
    requires multiset(a) == multiset(b) && NoDup(a)
    ensures NoDup(b)
  {
    forall i, j | 0 <= i < j < |b|
      ensures b[i] != b[j]
    {
      if b[i] == b[j] {
        var x := b[i];
        assert multiset(b)[x] >= 2 by {
          assert b == b[..i] + [x] + b[i + 1..j] + [x] + b[j + 1..];
        }
        NoDupCount(a, x);
      }
    }
  }

  /** In a list without repetitions every element occurs once. */
  lemma {:induction false} NoDupCount<T>(a: seq<T>, x: T)
    requires NoDup(a)
    ensures multiset(a)[x] <= 1
    decreases |a|
  {
    if |a| > 0 {
      assert a == [a[0]] + a[1..];
      assert NoDup(a[1..]);
      NoDupCount(a[1..], x);
      if a[0] == x {
        assert x !in a[1..];
      }
    }
  }

  /** The shuffled order holds every candidate exactly as often as the scan did: nothing is lost,
      added or duplicated. */
  lemma ShuffledIsPermutation<T>(xs: seq<T>, seed: int, draw: Draw)
    ensures multiset(Shuffled(xs, seed, draw)) == multiset(xs)
    ensures NoDup(xs) ==> NoDup(Shuffled(xs, seed, draw))
    ensures forall x :: x in Shuffled(xs, seed, draw) <==> x in xs
  {
    var r := Shuffled(xs, seed, draw);
    if |xs| > 1 {
      ShuffleStepsPermutes(xs, |xs| - 1, seed, draw);
    }
    if NoDup(xs) {
      PermutationNoDup(xs, r);
    }
    forall x
      ensures x in r <==> x in xs
    {
      assert x in r <==> x in multiset(r);
      assert x in xs <==> x in multiset(xs);
    }
  }
}
