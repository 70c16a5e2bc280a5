/** The singly linked int list and its cursor source (examples/list_iterable.h, .c). */
module ListIterable {
  import opened Maybes
  import opened FuncIter

  /** `IntList`: `Nil` (the null pointer) or a node holding `val` and the rest of the list. */
  datatype IntList = Nil | IntNode(val: int, next: IntList)

  /** The values of the list, head first. */
  function Contents(l: IntList): seq<int>
  {
    match l
    case Nil => []
    case IntNode(v, rest) => [v] + Contents(rest)
  }

  /** `create_intnode`: a one-node list holding `val`, its `next` null. */
  function CreateIntNode(val: int): (node: IntList)
    ensures node.IntNode? && node.next == Nil
    ensures Contents(node) == [val]
  {
    IntNode(val, Nil)
  }

  /** `prepend_intnode(val, list)`: a new node holding `val` whose `next` is the old list. */
  function PrependIntNode(val: int, list: IntList): (node: IntList)
    ensures node.IntNode? && node.next == list
    ensures Contents(node) == [val] + Contents(list)
  {
    var node := CreateIntNode(val);
    node.(next := list)
  }

  /** `free_intlist`: walks from the head to the end, releasing each node, and returns `Nil`.
      `freed` records the value of each node released, in walk order. */
  method FreeIntList(head: IntList) returns (r: IntList, ghost freed: seq<int>)
    ensures r == Nil
    ensures freed == Contents(head)
  {
    var list := head;
    var tmp := Nil;
    freed := [];
    while list != Nil
      invariant freed + Contents(list) == Contents(head)
      decreases list
    {
      tmp := list;
      list := list.next;
      freed := freed + [tmp.val];
    }
    return Nil, freed;
  }

  /** The `ListIter(ConstIntList)` struct: the current node, read through a const pointer. */
  datatype ListIter = ListIter(curr: IntList)

  /** `intlistnxt`: at `Nil` return `Nothing` and stay; otherwise return the node's value and
      move to the next node. No node is written. */
  function IntListNext(self: ListIter): (r: (Maybe<int>, ListIter))
    ensures self.curr == Nil ==> r == (Nothing, self)
    ensures self.curr != Nil ==> r == (Just(self.curr.val), ListIter(self.curr.next))
  {
    var node := self.curr;
    if node == Nil then (Nothing, self)
    else (Just(node.val), self.(curr := node.next))
  }

  /** `list_into_iter(head, T)` followed by `prep_intlist_itr`. */
  function ListIntoIter(head: IntList): (it: Iterable<ListIter, int>)
    ensures it.self.curr == head
    ensures it.next == IntListNext
  {
    Iterable(ListIter(head), IntListNext)
  }

  /** Driving the iterator from a head yields the node values in list order and then
      `Nothing` on every further call. */
  lemma {:induction false} ListDrains(head: IntList)
    ensures Yields(ListIntoIter(head), Contents(head))
    ensures Exhausted(Advance(ListIntoIter(head), |Contents(head)|))
  {
    match head
    case Nil =>
      StuckIsExhausted(ListIntoIter(head));
    case IntNode(v, rest) =>
      ListDrains(rest);
      assert ListIntoIter(head).Pull().1 == ListIntoIter(rest);
      assert Contents(head)[1..] == Contents(rest);
  }

  /** The empty list's iterable returns `Nothing` on the first call and never yields anything. */
  lemma EmptyListExhausted()
    ensures Exhausted(ListIntoIter(Nil))
  {
    StuckIsExhausted(ListIntoIter(Nil));
  }
}

/** The older, context-based revision of the list source (list_iterable.h, list_iterable.c):
    the iteration state lives in a separate `IntListItCtx`, and `prepend_intnode` takes the list
    first. */
module LegacyListIterable {
  import opened Maybes
  import opened FuncIter
  import ListIterable

  /** `IntListItCtx`: the current node. */
  datatype IntListItCtx = IntListItCtx(curr: ListIterable.IntList)

  /** `prepend_intnode(list, val)`: a new node holding `val` whose `next` is `list`. */
  function PrependIntNode(list: ListIterable.IntList, val: int): (node: ListIterable.IntList)
    ensures node.IntNode? && node.next == list
    ensures ListIterable.Contents(node) == [val] + ListIterable.Contents(list)
  {
    ListIterable.PrependIntNode(val, list)
  }

  /** `intlistnxt(x, ctx)`: the list handle `x` is ignored; all state is `ctx.curr`. The step
      is the newer revision's `intlistnxt` on the same current node: `Nothing` at `Nil` with the
      context unchanged, otherwise the node's value with the context moved to the next node. */
  function CtxIntListNext(x: ListIterable.IntList, ctx: IntListItCtx): (r: (Maybe<int>, IntListItCtx))
    ensures var (m, s) := ListIterable.IntListNext(ListIterable.ListIter(ctx.curr));
            r == (m, IntListItCtx(s.curr))
  {
    var node := ctx.curr;
    if node == ListIterable.Nil then (Nothing, ctx)
    else (Just(node.val), ctx.(curr := node.next))
  }

  /** `prep_intlist_itr(x, init_ctx)`: the iterator over the context, with the handle `x` fixed. */
  function CtxIntoIter(x: ListIterable.IntList, ctx: IntListItCtx): (it: Iterable<IntListItCtx, int>)
    ensures it.self == ctx
    ensures forall c :: it.next(c) == CtxIntListNext(x, c)
  {
    Iterable(ctx, c => CtxIntListNext(x, c))
  }

  /** Whatever list handle is passed, driving the iterator from a context at `head` yields the
      node values in list order and then `Nothing` on every further call. */
  lemma {:induction false} CtxListDrains(x: ListIterable.IntList, head: ListIterable.IntList)
    ensures Yields(CtxIntoIter(x, IntListItCtx(head)), ListIterable.Contents(head))
    ensures Exhausted(Advance(CtxIntoIter(x, IntListItCtx(head)), |ListIterable.Contents(head)|))
  {
    match head
    case Nil =>
      StuckIsExhausted(CtxIntoIter(x, IntListItCtx(head)));
    case IntNode(v, rest) =>
      CtxListDrains(x, rest);
      assert CtxIntoIter(x, IntListItCtx(head)).Pull().1 == CtxIntoIter(x, IntListItCtx(rest));
      assert ListIterable.Contents(head)[1..] == ListIterable.Contents(rest);
  }
}
