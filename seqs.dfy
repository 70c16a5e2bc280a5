/** Reference definitions the consumers are proved against: the sum, the reversal and the
    left fold of a sequence, and the range of a C `int`. */
module Seqs {

  const INT_MIN: int := -0x8000_0000
  const INT_MAX: int := 0x7fff_ffff

  /** A C `int`. */
  type CInt = x: int | INT_MIN <= x <= INT_MAX

  function Sum(xs: seq<int>): int
  {
    if xs == [] then 0 else xs[0] + Sum(xs[1..])
  }

  function Reverse<T>(xs: seq<T>): seq<T>
  {
    if xs == [] then [] else Reverse(xs[1..]) + [xs[0]]
  }

  /** `f(...f(f(init, xs[0]), xs[1])..., xs[|xs| - 1])`. */
  function FoldLeft<A, T>(f: (A, T) -> A, init: A, xs: seq<T>): A
  {
    if xs == [] then init else f(FoldLeft(f, init, xs[..|xs| - 1]), xs[|xs| - 1])
  }

  /** Accumulating with `+=` from 0 never leaves the range of a C `int`. */
  ghost predicate NoPartialOverflow(xs: seq<int>)
  {
    forall k :: 0 <= k <= |xs| ==> INT_MIN <= Sum(xs[..k]) <= INT_MAX
  }

  lemma {:induction false} SumSnoc(xs: seq<int>, x: int)
    ensures Sum(xs + [x]) == Sum(xs) + x
  {
    if xs != [] {
      SumSnoc(xs[1..], x);
      assert (xs + [x])[1..] == xs[1..] + [x];
    }
  }

  lemma {:induction false} SumSplit(xs: seq<int>, k: nat)
    requires k <= |xs|
    ensures Sum(xs) == Sum(xs[..k]) + Sum(xs[k..])
  {
    if k > 0 {
      SumSplit(xs[1..], k - 1);
      assert xs[1..][..k - 1] == xs[..k][1..];
      assert xs[1..][k - 1..] == xs[k..];
    }
  }

  lemma {:induction false} SumNonNegative(xs: seq<int>)
    requires forall k :: 0 <= k < |xs| ==> xs[k] >= 0
    ensures Sum(xs) >= 0
  {
    if xs != [] {
      SumNonNegative(xs[1..]);
    }
  }

  /** Non-negative values whose total fits in an `int` have every partial sum in range. */
  lemma NonNegativeFits(xs: seq<int>)
    requires forall k :: 0 <= k < |xs| ==> xs[k] >= 0
    requires Sum(xs) <= INT_MAX
    ensures NoPartialOverflow(xs)
  {
    forall k | 0 <= k <= |xs| ensures INT_MIN <= Sum(xs[..k]) <= INT_MAX {
      SumSplit(xs, k);
      SumNonNegative(xs[..k]);
      SumNonNegative(xs[k..]);
    }
  }

  lemma {:induction false} ReverseSnoc<T>(xs: seq<T>, x: T)
    ensures Reverse(xs + [x]) == [x] + Reverse(xs)
  {
    if xs != [] {
      ReverseSnoc(xs[1..], x);
      assert (xs + [x])[1..] == xs[1..] + [x];
    }
  }

  /** Reversal keeps the sum: summing the reversed list gives the sum of the original. */
  lemma {:induction false} SumReverse(xs: seq<int>)
    ensures Sum(Reverse(xs)) == Sum(xs)
  {
    if xs != [] {
      SumReverse(xs[1..]);
      SumSnoc(Reverse(xs[1..]), xs[0]);
    }
  }

  lemma {:induction false} FoldLeftSnoc<A, T>(f: (A, T) -> A, init: A, xs: seq<T>, x: T)
    ensures FoldLeft(f, init, xs + [x]) == f(FoldLeft(f, init, xs), x)
  {
    assert (xs + [x])[..|xs + [x]| - 1] == xs;
  }

  /** The `sum += x` step: if `sum` is the running sum of the values seen so far, the result is
      the running sum once `x` is seen too. */
  function AddInt(sum: int, x: int): (r: int)
    ensures forall xs :: Sum(xs) == sum ==> Sum(xs + [x]) == r
  {
    SumSnocAll(x);
    sum + x
  }

  lemma SumSnocAll(x: int)
    ensures forall xs :: Sum(xs + [x]) == Sum(xs) + x
  {
    forall xs ensures Sum(xs + [x]) == Sum(xs) + x {
      SumSnoc(xs, x);
    }
  }

  /** Folding `+=` over a sequence from 0 is its sum. */
  lemma {:induction false} FoldAddIsSum(xs: seq<int>)
    ensures FoldLeft(AddInt, 0, xs) == Sum(xs)
    decreases |xs|
  {
    if xs != [] {
      var init := xs[..|xs| - 1];
      FoldAddIsSum(init);
      SumSnoc(init, xs[|xs| - 1]);
      assert init + [xs[|xs| - 1]] == xs;
    }
  }
}
