/** An int iterable re-presented as a string iterable (examples/iterator_iterable.h, .c): the
    `self` of the new iterable is the int iterable itself, and its `next` is `inttostr`. */
module IteratorIterable {
  import opened Maybes
  import opened FuncIter
  import opened Decimal
  import MapAdapter

  /** `inttostr`: pull the wrapped int iterable once; pass `Nothing` on as `Nothing(Str)`,
      otherwise return the decimal text of the value. */
  function IntToStrNext<S>(self: Iterable<S, int>): (r: (Maybe<string>, Iterable<S, int>))
    ensures r.1 == self.Pull().1
    ensures r.0 == self.Pull().0.Map(IntToDecimal)
  {
    var res := self.Pull();
    match res.0
    case Nothing => (Nothing, res.1)
    case Just(val) => (Just(IntToDecimal(val)), res.1)
  }

  /** `map_inttostr_itr(x)`: the given int iterable becomes the `self` of a string iterable. */
  function MapIntToStrItr<S>(x: Iterable<S, int>): (r: Iterable<Iterable<S, int>, string>)
    ensures r.self == x
    ensures r.next == IntToStrNext
  {
    Iterable(x, IntToStrNext)
  }

  /** Overriding `next` this way behaves exactly as `map_over` with `inttostr`: call `k` of
      both returns the same thing, and after `k` calls the int iterable has been pulled `k`
      times. */
  lemma {:induction false} IntToStrIsMap<S>(x: Iterable<S, int>, k: nat)
    ensures Advance(MapIntToStrItr(x), k).self == Advance(x, k)
    ensures PullAt(MapIntToStrItr(x), k) == PullAt(MapAdapter.MapOver(x, IntToDecimal), k)
    decreases k
  {
    MapAdapter.MapPullAt(MapAdapter.MapOver(x, IntToDecimal).self, k);
    if k > 0 {
      IntToStrIsMap(x.Pull().1, k - 1);
    }
  }

  /** Over an int iterable yielding `xs`, the string iterable yields the decimal text of each,
      in the same order and number. */
  lemma {:induction false} IntToStrYields<S>(x: Iterable<S, int>, xs: seq<int>)
    requires Yields(x, xs)
    ensures Yields(MapIntToStrItr(x), MapAdapter.SeqMap(IntToDecimal, xs))
    decreases |xs|
  {
    if xs != [] {
      IntToStrYields(x.Pull().1, xs[1..]);
      assert MapAdapter.SeqMap(IntToDecimal, xs)[1..] == MapAdapter.SeqMap(IntToDecimal, xs[1..]);
    }
  }
}
