/** The elementwise mapping adapter (examples/iterutils/map.h). */
module MapAdapter {
  import opened Maybes
  import opened FuncIter

  /** The `IterMap` struct: `FnRetType (*const mapfn)(ElmntType); Iterable const src`. */
  datatype IterMap<!S, !T, U> = IterMap(mapfn: T -> U, src: Iterable<S, T>)

  /** The `IterMap` `_nxt` step: pull `src` once; pass `Nothing` on, map a value through
      `mapfn`. `mapfn` and the source's `next` never change. */
  function MapNext<S, T, U>(self: IterMap<S, T, U>): (r: (Maybe<U>, IterMap<S, T, U>))
    ensures r.1.mapfn == self.mapfn && r.1.src == self.src.Pull().1
    ensures r.0 == self.src.Pull().0.Map(self.mapfn)
  {
    var srcit := self.src;
    var (res, src') := srcit.Pull();
    match res
    case Nothing => (Nothing, self.(src := src'))
    case Just(v) => (Just(self.mapfn(v)), self.(src := src'))
  }

  /** `map_over(it, fn, ...)`: the adapter with `mapfn = fn` and `src = it`. */
  function MapOver<S, T, U>(it: Iterable<S, T>, fn: T -> U): (r: Iterable<IterMap<S, T, U>, U>)
    ensures r.self == IterMap(fn, it)
    ensures r.next == MapNext
  {
    Iterable(IterMap(fn, it), MapNext)
  }

  /** `xs` with `f` applied to every element. */
  function SeqMap<T, U>(f: T -> U, xs: seq<T>): (ys: seq<U>)
    ensures |ys| == |xs| && forall k :: 0 <= k < |xs| ==> ys[k] == f(xs[k])
  {
    seq(|xs|, k requires 0 <= k < |xs| => f(xs[k]))
  }

  /** Call `k` of the adapter returns upstream call `k` mapped through `mapfn`, and after `k`
      calls the upstream has been pulled exactly `k` times. */
  lemma {:induction false} MapPullAt<S, T, U>(m: IterMap<S, T, U>, k: nat)
    ensures Advance(Iterable(m, MapNext), k).self == m.(src := Advance(m.src, k))
    ensures PullAt(Iterable(m, MapNext), k) == PullAt(m.src, k).Map(m.mapfn)
    decreases k
  {
    if k > 0 {
      MapPullAt(MapNext(m).1, k - 1);
    }
  }

  /** Over an upstream yielding `xs`, the adapter yields `xs` mapped elementwise: same length,
      same order, and `Nothing` at the same call. */
  lemma {:induction false} MapYields<S, T, U>(it: Iterable<S, T>, fn: T -> U, xs: seq<T>)
    requires Yields(it, xs)
    ensures Yields(MapOver(it, fn), SeqMap(fn, xs))
    decreases |xs|
  {
    if xs != [] {
      MapYields(it.Pull().1, fn, xs[1..]);
      assert SeqMap(fn, xs)[1..] == SeqMap(fn, xs[1..]);
    }
  }

  /** An exhausted upstream leaves the adapter exhausted. */
  lemma MapExhausted<S, T, U>(it: Iterable<S, T>, fn: T -> U)
    requires Exhausted(it)
    ensures Exhausted(MapOver(it, fn))
  {
    forall k: nat ensures PullAt(MapOver(it, fn), k).Nothing? {
      MapPullAt(MapOver(it, fn).self, k);
    }
  }
}
