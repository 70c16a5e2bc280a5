/** The drive loop and the sum consumer of examples/iterutils/iterable_utils.{h,c}. */
module IterUtils {
  import opened Maybes
  import opened FuncIter
  import opened Seqs

  /** The `foreach(T, x, it)` loop with its body taken as a step `acc := body(acc, x)`. It pulls
      once before the first body execution and once after each; the body runs only while the
      last pull was a value, with `x` bound to that value. Over a source yielding `xs`, the
      body runs `|xs|` times, on `xs` in order (`seen`), and the source is pulled `|xs| + 1`
      times, the last pull returning `Nothing`. */
  method Foreach<S, T, A>(it: Iterable<S, T>, ghost xs: seq<T>, init: A, body: (A, T) -> A)
    returns (acc: A, it': Iterable<S, T>, ghost seen: seq<T>, ghost pulls: nat)
    requires Yields(it, xs)
    ensures seen == xs && acc == FoldLeft(body, init, xs)
    ensures pulls == |xs| + 1 && it' == Advance(it, pulls)
  {
    var pulled := it.Pull();
    var res := pulled.0;
    it' := pulled.1;
    pulls := 1;
    acc := init;
    seen := [];
    ghost var cur := it;
    while res.Just?
      invariant pulls <= |xs| + 1
      invariant cur == Advance(it, pulls - 1) && (res, it') == cur.Pull()
      invariant Yields(cur, xs[pulls - 1..])
      invariant seen == xs[..pulls - 1] && acc == FoldLeft(body, init, seen)
      decreases |xs| + 1 - pulls
    {
      var x := res.val;
      acc := body(acc, x);
      FoldLeftSnoc(body, init, seen, x);
      seen := seen + [x];
      AdvanceSucc(it, pulls - 1);
      cur := it';
      pulled := it'.Pull();
      res, it' := pulled.0, pulled.1;
      pulls := pulls + 1;
    }
    AdvanceSucc(it, pulls - 1);
    assert xs[..pulls - 1] == xs;
  }

  /** `sum_intit` (the `foreach` revision): `sum += x` for every value before the first
      `Nothing`. The accumulator is a C `int`, so no partial sum may overflow. Afterwards the
      source has been pulled once past its last value. */
  method SumIntIt<S>(it: Iterable<S, int>, ghost xs: seq<int>) returns (sum: CInt, it': Iterable<S, int>)
    requires Yields(it, xs)
    requires NoPartialOverflow(xs)
    ensures sum == Sum(xs)
    ensures it' == Advance(it, |xs| + 1)
  {
    ghost var seen, pulls;
    var total;
    total, it', seen, pulls := Foreach(it, xs, 0, AddInt);
    FoldAddIsSum(xs);
    assert xs[..|xs|] == xs;
    sum := total;
  }
}
