/** Folding an int iterable into a list, and the list demo (examples/list_to_iterble.c). */
module ListToIterable {
  import opened Maybes
  import opened FuncIter
  import opened Seqs
  import opened ListIterable
  import IterUtils

  /** `revlist_from_intit`: pull until the first `Nothing`, prepending each value to the list
      built so far. The list holds exactly the yielded values in reverse yield order (`Nil` when
      the first pull is `Nothing`), and no pull is made after the first `Nothing`. */
  method RevListFromIntIt<S>(it: Iterable<S, int>, ghost xs: seq<int>) returns (list: IntList, it': Iterable<S, int>)
    requires Yields(it, xs)
    ensures Contents(list) == Reverse(xs)
    ensures it' == Advance(it, |xs| + 1)
  {
    list := Nil;
    it' := it;
    ghost var k := 0;
    while true
      invariant k <= |xs| && it' == Advance(it, k) && Yields(it', xs[k..])
      invariant Contents(list) == Reverse(xs[..k])
      decreases |xs| - k
    {
      AdvanceSucc(it, k);
      var pulled := it'.Pull();
      var res := pulled.0;
      it' := pulled.1;
      if res.Nothing? {
        assert xs[..k] == xs;
        return;
      }
      var val := res.val;
      assert xs[..k + 1] == xs[..k] + [val];
      ReverseSnoc(xs[..k], val);
      list := PrependIntNode(val, list);
      k := k + 1;
    }
  }

  /** `test_list`: the list `Cons(9, Cons(1, Cons(6, Cons(5, Nil))))` summed through its
      iterable gives 21; the list is freed afterwards. */
  method TestList() returns (sumlist: CInt)
    ensures sumlist == 21
  {
    var list := PrependIntNode(9, PrependIntNode(1, PrependIntNode(6, PrependIntNode(5, Nil))));
    assert Contents(list) == [9, 1, 6, 5];
    var listit := ListIntoIter(list);
    ListDrains(list);
    NonNegativeFits([9, 1, 6, 5]);
    var rest;
    sumlist, rest := IterUtils.SumIntIt(listit, [9, 1, 6, 5]);
    ghost var freed;
    list, freed := FreeIntList(list);
  }
}
