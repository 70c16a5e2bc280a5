# c-iterators in Dafny

A model of the lazy iterator library *c-iterators*. An `Iterable(T)` pairs an opaque
state `self` with the `next` function of that state's type. Each call of `next` returns
`Just(value)` or `Nothing`. The model covers:

- the sources: the array cursor, the linked int list (both revisions), and the `uint32_t`
  Fibonacci generator;
- the adapters: `take` (stop after `n` values), `map_over`, and the `inttostr` re-presentation
  of an int iterable as a string iterable;
- the consumers: the `foreach` loop, both revisions of `sum_intit`, and `revlist_from_intit`;
- the demo drivers, whose expected output is stated as postconditions.

Each C `next` changes the state it reaches through its handle: the sources update their own
cursor or pair in place, while the map step and `inttostr` leave their own fields alone and
change only the upstream's state, through `srcit.self` or `self->self`. Here each `next` is a
function from a state to a pair `(Maybe<T>, state)`, and an adapter's state holds the
upstream's handle. `Iterable.Pull()` is one call, and it returns the handle over the state
the call left behind. What a source produces over many calls is stated with ghost notions in
`FuncIter`:

- `Advance(it, k)`: the handle after `k` calls.
- `PullAt(it, k)`: the result of call `k`.
- `Yields(it, xs)`: the handle produces exactly `xs`, then `Nothing`.
- `Exhausted(it)`: every further call returns `Nothing`.
- `Prefix(it, n)`: the values produced before the first `Nothing` within `n` calls.

The loops that drive an iterable (`foreach`, both `sum_intit`, `revlist_from_intit`) are
methods with `while` loops and invariants. They take a handle, return the advanced one, and are
proved against `Sum`, `Reverse` and `FoldLeft` in `Seqs`. Two other loops are methods too:
`free_intlist` walks an `IntList`, returns `Nil`, and is proved to visit `Contents(head)` in
order; the Fibonacci demo's `for` loop makes ten calls and is proved against the reference
`Fib`.

Where the code and the repository's own description differ, the model follows the code:

- examples/fibonacci_iterable.h:16 describes the generator as the infinite Fibonacci sequence.
  Seeded `{0, 1}`, it first returns `0 + 1 = 1`, then `2`, `3`, `5`, …
  It never returns the sequence's second `1`. Ten calls therefore give 1, 2, 3, 5, 8, 13, 21,
  34, 55, 89, not 1, 1, 2, …, 55.
- `IterTake` does not latch exhaustion. Below its limit it pulls the upstream again after a
  `Nothing`. "`Nothing` forever after" holds only when the upstream itself stays exhausted.

## Model

| member | source | states |
|---|---|---|
| Maybes.Maybe.Map | examples/iterutils/map.h:33-36 | `Nothing` stays `Nothing`; `Just(v)` becomes `Just(f(v))` |
| FuncIter.Iterable.Pull | examples/func_iter.h:1-25 | one call of `next` on `self`; the handle keeps its `next` function |
| FuncIter.Advance | examples/func_iter.h:1-25 | after `k` calls the handle still has the same `next` function |
| FuncIter.AdvanceSucc | examples/func_iter.h:1-25 | `k + 1` calls are `k` calls followed by one more |
| FuncIter.YieldsIff | examples/func_iter.h:1-25 | `Yields(it, xs)` holds exactly when call `k` returns `Just(xs[k])` for every `k` below the length of `xs` and the call after them returns `Nothing` (both directions) |
| FuncIter.YieldsUnique | examples/func_iter.h:1-25 | a source determines the sequence it yields |
| FuncIter.PrefixOfYields | examples/func_iter.h:1-25 | of a source yielding `xs`, the first `n` calls deliver the first `min(n, len(xs))` elements of `xs` |
| FuncIter.StuckIsExhausted | examples/func_iter.h:1-25 | a handle whose call returns `Nothing` and leaves the state unchanged is exhausted |
| FuncIter.StuckAdvance | examples/func_iter.h:1-25 | such a handle is unchanged after any number of calls |
| FuncIter.ExhaustedPull | examples/func_iter.h:1-25 | one more call on an exhausted handle returns `Nothing` and leaves it exhausted |
| FuncIter.AdvanceSplit | examples/func_iter.h:1-25 | `j` calls and then `k` more are `j + k` calls |
| FuncIter.PrefixValues | examples/func_iter.h:1-25 | element `k` of a prefix is the value call `k` returned |
| ArrayIterable.ArrNext | examples/array_iterable.c:8-19 | `intarrnxt`/`strarrnxt`: `Just(arr[i])` and `i + 1` while `i < size`, otherwise `Nothing` with the state unchanged; `arr` and `size` never change |
| ArrayIterable.ArrIntoIter | examples/array_iterable.h:18-19 | `arr_into_iter` and `prep_<T>arr_itr`: the cursor starts at 0 over the given array and size, paired with the array step |
| ArrayIterable.ArrCursorInBounds | array_iterable.c:7-17 | however many calls are made, `i <= size`, so every element read is in bounds |
| ArrayIterable.ArrDrains | array_iterable.c:7-17 | from cursor `i`, the source yields `arr[i..size]` in order and then `Nothing` on every further call |
| ArrayIterable.ArrIntoIterDrains | examples/array_iterable.c:8-12 | a fresh array iterable yields `arr[0..size)` and then `Nothing` forever |
| ListIterable.CreateIntNode | examples/list_iterable.c:8-14 | a one-node list holding `val` with a null `next` |
| ListIterable.PrependIntNode | examples/list_iterable.c:16-21 | a new head holding `val` whose `next` is the old list; contents are `[val] + old` |
| ListIterable.FreeIntList | examples/list_iterable.c:23-32 | walks every node once, in list order, and returns `Nil` |
| ListIterable.IntListNext | examples/list_iterable.c:34-42 | at `Nil`: `Nothing` with the state unchanged; otherwise the node's value, and the cursor moves to `next` |
| ListIterable.ListIntoIter | examples/list_iterable.h:37 | `list_into_iter` and `prep_intlist_itr`: the cursor starts at the head, paired with the list step |
| ListIterable.ListDrains | examples/list_iterable.c:34-42 | the list iterable yields the node values in list order and then `Nothing` forever |
| ListIterable.EmptyListExhausted | examples/list_iterable.c:37-39 | the iterable over `Nil` never yields anything |
| LegacyListIterable.PrependIntNode | list_iterable.c:21-26 | the list-first `prepend_intnode(list, val)`: a new head holding `val` over `list` |
| LegacyListIterable.CtxIntListNext | list_iterable.c:39-48 | `intlistnxt(x, ctx)` ignores `x` and steps `ctx.curr` exactly as the newer `intlistnxt` steps its cursor |
| LegacyListIterable.CtxIntoIter | list_iterable.h:28 | `prep_intlist_itr(x, init_ctx)`: the iteration state is the context, and each call is `intlistnxt(x, ctx)` with `x` fixed |
| LegacyListIterable.CtxListDrains | list_iterable.c:39-48 | whatever handle `x` is passed, the context iterator yields the list's values in order and then `Nothing` forever |
| FibonacciIterable.FibNext | examples/fibonacci_iterable.c:8-14 | `fibnxt`: always `Just`; the value is `(curr + next) mod 2^32`; the new state is `(next, value)` |
| FibonacciIterable.GetFibItr | examples/fibonacci_iterable.h:14 | `get_fibitr()`: the generator seeded `{0, 1}`, paired with `fibnxt` |
| FibonacciIterable.FibNeverExhausted | examples/fibonacci_iterable.c:8-14 | from any state, every call returns a value |
| FibonacciIterable.FibStateAfter | examples/fibonacci_iterable.c:10-12 | the value a call returns is held in `next` right after it, and in `curr` one call later |
| FibonacciIterable.FibRecurrence | examples/fibonacci_iterable.c:10 | from the third call on, each value is the sum of the two before it, mod 2^32 |
| FibonacciIterable.FibFromSeed | examples/fibonacci_iterable.h:14 | from `{0, 1}`, after `k` calls the state is `(Fib(k), Fib(k+1))` mod 2^32 and call `k` returns `Fib(k+2)` mod 2^32 |
| TakeAdapter.TakeNext | examples/iterutils/take.h:42-54 | at or past the limit: `Nothing`, state unchanged, upstream not pulled; below it: the upstream's result, with `i` counting only values |
| TakeAdapter.Take | examples/iterutils/take.h:57-63 | `name(src, n)`: count 0, limit `n`, over `src`, paired with the take step |
| TakeAdapter.TakeYieldsPrefix | examples/iterutils/take.h:42-54 | the adapter yields what the upstream produces before its first `Nothing`, cut at `limit - i` values |
| TakeAdapter.TakeBound | examples/iterutils/take.h:44-51 | the count never passes the limit, and no run of calls yields more than `limit - i` values |
| TakeAdapter.TakeAtLimit | examples/iterutils/take.h:44-53 | once the count reaches the limit, every call returns `Nothing` |
| TakeAdapter.TakeOverExhausted | examples/iterutils/take.h:44-49 | over an exhausted upstream, the adapter is exhausted |
| TakeAdapter.TakeOverExhaustedAt | examples/iterutils/take.h:44-49 | over an exhausted upstream, call `k` of the adapter returns `Nothing` |
| TakeAdapter.TakeOfFinite | examples/iterutils/take.h:57-63 | over a source yielding `xs` and then exhausted, `take(src, n)` yields the first `min(n, len(xs))` elements of `xs` and then `Nothing` forever |
| TakeAdapter.TakeStateAfter | examples/iterutils/take.h:44-51 | after `m` value-returning calls the count is `i + m` and the upstream has been pulled `m` times |
| TakeAdapter.TakeOfInfinite | examples/iterutils/take.h:57-63 | over a source with a value on each of its first `n` calls, `take(src, n)` yields exactly those `n` values and then `Nothing` forever |
| TakeAdapter.PrefixFull | examples/iterutils/take.h:44-51 | a source with a value on each of its first `n` calls has a prefix of length `n` |
| TakeAdapter.TakeCountsTo | examples/iterutils/take.h:50 | `n` value-returning calls raise the count by `n` and leave the limit unchanged |
| TakeAdapter.TakeDoesNotLatch | examples/iterutils/take.h:44-49 | below its limit the adapter pulls again after a `Nothing`: over an upstream alternating `Nothing`/`Just(7)` it returns `Nothing` and then `Just(7)` |
| MapAdapter.MapNext | examples/iterutils/map.h:29-37 | one upstream pull; `Nothing` is passed on and a value goes through `mapfn`; `mapfn` never changes |
| MapAdapter.MapOver | examples/iterutils/map.h:20-21 | `map_over(it, fn)`: the adapter over `it` with `mapfn = fn`, paired with the map step |
| MapAdapter.SeqMap | examples/iterutils/map.h:36 | the reference: same length, with element `k` equal to `f(xs[k])` |
| MapAdapter.MapPullAt | examples/iterutils/map.h:29-37 | call `k` of the adapter is upstream call `k` mapped, and after `k` calls the upstream has been pulled `k` times |
| MapAdapter.MapYields | examples/iterutils/map.h:29-37 | over an upstream yielding `xs`, the adapter yields `xs` mapped elementwise |
| MapAdapter.MapExhausted | examples/iterutils/map.h:33-35 | an exhausted upstream leaves the adapter exhausted |
| Decimal.DigitChar | examples/iterator_iterable.c:23 | a digit character whose value is `d` |
| Decimal.NatToDecimal | examples/iterator_iterable.c:23 | non-empty, all digits, and a leading `0` only for the number 0 |
| Decimal.IntToDecimal | examples/iterator_iterable.c:23 | `%d` text: an optional `-`, then digits with no leading zero, and never `-0` |
| Decimal.NatRoundTrip | examples/iterator_iterable.c:23 | reading back the digits of `n` gives `n` |
| Decimal.DecimalRoundTrip | examples/iterator_iterable.c:22-23 | reading back the `%d` text of `v` gives `v` |
| Decimal.DecimalInjective | examples/iterator_iterable.c:22-23 | distinct ints render to distinct strings |
| IteratorIterable.IntToStrNext | examples/iterator_iterable.c:10-27 | `inttostr`: pulls the int iterable once and passes on `Nothing` or the value's decimal text |
| IteratorIterable.MapIntToStrItr | examples/iterator_iterable.c:34 | `map_inttostr_itr(x)`: the int iterable becomes the `self` of the string iterable, paired with `inttostr` |
| IteratorIterable.IntToStrIsMap | examples/iterator_iterable.c:29-34 | overriding `next` behaves call by call exactly as `map_over` with `inttostr` |
| IteratorIterable.IntToStrYields | examples/iterator_iterable.c:10-27 | over an int iterable yielding `xs`, the string iterable yields the text of each, in order |
| Seqs.SumSnoc | examples/iterable_utils.c:23 | adding one more value adds it to the sum |
| Seqs.SumSplit | examples/iterable_utils.c:17-24 | the sum of a sequence is the sum of its two parts |
| Seqs.SumNonNegative | examples/iterable_utils.c:17-24 | non-negative values have a non-negative sum |
| Seqs.NonNegativeFits | examples/iterable_utils.c:17-24 | non-negative values whose total fits in an `int` never overflow a partial sum |
| Seqs.ReverseSnoc | examples/list_to_iterble.c:17 | prepending builds the reversal one element at a time |
| Seqs.SumReverse | examples/list_from_arr.c:12-13 | reversal keeps the sum |
| Seqs.FoldLeftSnoc | examples/iterutils/iterable_utils.h:11-14 | one more body execution applies the step to the accumulated value |
| Seqs.AddInt | examples/iterutils/iterable_utils.c:22 | the `sum += x` step: from the running sum of the values seen, it gives the running sum once `x` is seen too |
| Seqs.FoldAddIsSum | examples/iterutils/iterable_utils.c:20-24 | folding `+=` from 0 is the sum |
| IterUtils.Foreach | examples/iterutils/iterable_utils.h:11-14 | over a source yielding `xs`, the body runs on each of `xs` once, in order; the source is pulled once more than `xs` has elements, the last pull returning `Nothing` |
| IterUtils.SumIntIt | examples/iterutils/iterable_utils.c:18-25 | `sum_intit` (the `foreach` revision) returns the sum of the yielded values when no partial sum overflows an `int` |
| IterableUtils.SumIntIt | examples/iterable_utils.c:15-25 | `sum_intit` (the `while (1)` revision) returns the same sum, stopping at the first `Nothing` |
| ListToIterable.RevListFromIntIt | examples/list_to_iterble.c:8-19 | the list holds exactly the yielded values in reverse order, with no pull after the first `Nothing` |
| ListToIterable.TestList | examples/list_to_iterble.c:21-34 | the list 9, 1, 6, 5 sums to 21 through its iterable |
| Examples.TestArray | examples/arr_to_iterble.c:5-14 | the iterable over `{0, …, 9}` sums to 45 |
| Examples.Range | examples/arr_to_iterble.c:8 | the array `{0, …, n - 1}` |
| Examples.SumRange | examples/arr_to_iterble.c:8-13 | `0 + … + (n - 1) = n(n - 1)/2` |
| Examples.TestListFromArr | examples/list_from_arr.c:5-19 | the list built from `{42, 3, 17, 25}` is 25, 17, 3, 42, with the same sum |
| Examples.Incr | examples/map_over.c:7 | `incr`: the successor of its argument |
| Examples.TestMapping | examples/map_over.c:24-48 | mapping `incr` over `{1, 2, 3}` yields 2, 3, 4; mapping `inttostr` yields "1", "2", "3" |
| Examples.AppendAll | examples/map_over.c:33-35 | collecting each value a `foreach` body sees reproduces the yielded sequence |
| Examples.TestFibonacci | examples/fibbonacci.c:7-16 | ten calls on the generator seeded `{0, 1}` return 1, 2, 3, 5, 8, 13, 21, 34, 55, 89 |
| Examples.FirstTenFib | examples/fibbonacci.c:12-14 | `Fib(2)` to `Fib(11)` mod 2^32 is that table |
| Examples.FibTable | examples/fibbonacci.c:12-14 | the reference values `Fib(2) = 1` through `Fib(11) = 89` |
| Examples.TakeOfArray | examples/iterutils/take.h:57-63 | `take` of `{42, 3, 17, 25}` with `n = 2` yields 42, 3, and its third and fourth calls return `Nothing` |
| Examples.TakeOfFibonacci | examples/iterutils/take.h:57-63 | `take` of the Fibonacci generator with `n = 10` yields 1, 2, 3, …, 89 and then `Nothing` forever |
| Examples.FibPrefixValues | examples/fibonacci_iterable.c:8-14 | the first `n` generated values are `Fib(2)` to `Fib(n + 1)` mod 2^32 |

## Left out

- In-place update and aliasing: each `next` returns the state it leaves instead of writing
  through `self`. Sharing one state object between two distinct handles is not modelled: each
  handle owns its state, so advancing one never advances another. The adapters' by-value copy
  `srcit = self->src` is captured, since the advanced upstream is stored back into `src`. The
  model uses no traits, and without them Dafny has no interface type over mutable objects, so
  each state is a value.
- Memory management: `malloc`, `free`, `memcpy`, and the lifetime of compound literals behind
  `arr_into_iter`, `list_into_iter`, `map_over` and `get_fibitr`. `FreeIntList` records the
  nodes it visits rather than releasing them.
- The older `create_intnode`'s `exit(EXIT_FAILURE)` on a failed allocation (list_iterable.c:11-15):
  allocation is taken never to fail.
- The older `free_intlist(list)` (list_iterable.c:28-37) is the same loop as the newer one and is
  modelled by `ListIterable.FreeIntList`.
- IteratorIterable.IntToStrNext: the 100-byte `snprintf` buffer is not modelled. Every `int`
  fits in it, so the text is never truncated.
- `print_strit`, `print_intlist`, `main.c` and every `printf`/`puts`: output is I/O. The demos'
  printed values are stated as postconditions instead.
- The macro machinery (`impl_iterator`, `Define…`, `CONCAT`, `UNIQVAR`) and type-mismatched macro
  invocations. Each instantiation is one generic Dafny member.
- IterUtils.Foreach: the body is modelled as a pure step `acc := body(acc, x)`. A body with
  other side effects, `break` or `return` is not covered. The unguarded read of `from_just_` on a
  `Nothing` result before the loop test is not modelled, since that value is never used.
- IterUtils.SumIntIt: the C `int` accumulator is required not to overflow, because signed
  overflow is undefined in C. Element values are unbounded integers.
- IterableUtils.SumIntIt: the same no-overflow requirement as the `foreach` revision.
- ListToIterable.RevListFromIntIt: stated only for sources that yield a finite sequence and then
  `Nothing`. Over a source that never returns `Nothing`, such as the Fibonacci generator, the C
  loop does not terminate; that case is not modelled.
- IterUtils.Foreach, IterUtils.SumIntIt and IterableUtils.SumIntIt are likewise stated only for
  finite sources.
- `size_t` counters (`i`, `limit`, `size`) are unbounded naturals; their wrap-around at
  `SIZE_MAX` is not modelled.
- The string array half of `test_array` (examples/arr_to_iterble.c:16-22) only prints.
  `strarrnxt` is the same generic `ArrayIterable.ArrNext` at element type `string`.
