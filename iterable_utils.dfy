/** The sum consumer of examples/iterable_utils.c (the `while (1)` revision). */
module IterableUtils {
  import opened Maybes
  import opened FuncIter
  import opened Seqs

  /** `sum_intit`: pull; on `Nothing` return the sum so far at once, otherwise add the value
      to the C `int` accumulator and pull again. Every `+=` stays in range because no partial
      sum overflows. The result is the sum of the values before the first `Nothing` (0 when
      that is the first pull), and no pull is made after it. */
  method SumIntIt<S>(it: Iterable<S, int>, ghost xs: seq<int>) returns (sum: CInt, it': Iterable<S, int>)
    requires Yields(it, xs)
    requires NoPartialOverflow(xs)
    ensures sum == Sum(xs)
    ensures it' == Advance(it, |xs| + 1)
  {
    sum := 0;
    it' := it;
    ghost var k := 0;
    while true
      invariant k <= |xs| && it' == Advance(it, k) && Yields(it', xs[k..])
      invariant sum == Sum(xs[..k])
      decreases |xs| - k
    {
      AdvanceSucc(it, k);
      var pulled := it'.Pull();
      var res := pulled.0;
      it' := pulled.1;
      if res.Nothing? {
        assert xs[..k] == xs;
        return;
      }
      assert xs[..k + 1] == xs[..k] + [res.val];
      SumSnoc(xs[..k], res.val);
      sum := sum + res.val;
      k := k + 1;
    }
  }
}
