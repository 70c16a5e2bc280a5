/** The infinite Fibonacci generator (examples/fibonacci_iterable.h, .c) over `uint32_t`. */
module FibonacciIterable {
  import opened Maybes
  import opened FuncIter

  const TWO_POW_32: int := 0x1_0000_0000

  /** C `uint32_t`. */
  type uint32 = x: int | 0 <= x < 0x1_0000_0000

  /** The `Fibonacci` struct: two consecutive values of the recurrence. */
  datatype Fibonacci = Fibonacci(curr: uint32, next: uint32)

  /** `fibnxt`: the new value is `curr + next` on `uint32_t` (wrapping modulo 2^32); the pair
      moves one step along and the new value is returned. It never returns `Nothing`. */
  function FibNext(self: Fibonacci): (r: (Maybe<uint32>, Fibonacci))
    ensures r.0.Just?
    ensures r.0.val == (self.curr + self.next) % TWO_POW_32
    ensures r.1 == Fibonacci(self.next, r.0.val)
  {
    var newNxt: uint32 := (self.curr + self.next) % TWO_POW_32;
    (Just(newNxt), self.(curr := self.next, next := newNxt))
  }

  /** `get_fibitr()`: the generator seeded with `{.curr = 0, .next = 1}`. */
  function GetFibItr(): (it: Iterable<Fibonacci, uint32>)
    ensures it.self == Fibonacci(0, 1)
    ensures it.next == FibNext
  {
    Iterable(Fibonacci(0, 1), FibNext)
  }

  /** The Fibonacci numbers, as a reference: 0, 1, 1, 2, 3, 5, ... */
  function Fib(n: nat): nat
  {
    if n < 2 then n else Fib(n - 2) + Fib(n - 1)
  }

  /** The generator never runs out: every call, from any state, returns a value. */
  lemma {:induction false} FibNeverExhausted(f: Fibonacci, k: nat)
    ensures PullAt(Iterable(f, FibNext), k).Just?
    ensures Advance(Iterable(f, FibNext), k).next == FibNext
    decreases k
  {
    if k > 0 {
      FibNeverExhausted(FibNext(f).1, k - 1);
    }
  }

  /** The value call `k` returns, from state `f`. */
  ghost function FibYield(f: Fibonacci, k: nat): uint32
  {
    FibNeverExhausted(f, k);
    PullAt(Iterable(f, FibNext), k).val
  }

  /** After call `k` the state holds the value that call returned in `next`; after call
      `k + 1` that value has moved to `curr`. */
  lemma {:induction false} FibStateAfter(f: Fibonacci, k: nat)
    ensures Advance(Iterable(f, FibNext), k + 1).self.next == FibYield(f, k)
    ensures Advance(Iterable(f, FibNext), k + 2).self.curr == FibYield(f, k)
  {
    var it := Iterable(f, FibNext);
    AdvanceSucc(it, k);
    AdvanceSucc(it, k + 1);
    FibNeverExhausted(f, k);
    FibNeverExhausted(f, k + 1);
  }

  /** From the third call on, each value is the sum of the two values before it, modulo 2^32. */
  lemma FibRecurrence(f: Fibonacci, k: nat)
    ensures FibYield(f, k + 2) == (FibYield(f, k) + FibYield(f, k + 1)) % TWO_POW_32
  {
    FibStateAfter(f, k);
    FibStateAfter(f, k + 1);
    FibNeverExhausted(f, k + 2);
  }

  /** From the seed `{0, 1}`, after `k` calls the state is `(Fib(k), Fib(k + 1))` modulo 2^32, and
      call `k` returns `Fib(k + 2)` modulo 2^32: the seed's 1 is not yielded twice. */
  lemma {:induction false} FibFromSeed(k: nat)
    ensures Advance(GetFibItr(), k).self == Fibonacci(Fib(k) % TWO_POW_32, Fib(k + 1) % TWO_POW_32)
    ensures PullAt(GetFibItr(), k) == Just(Fib(k + 2) % TWO_POW_32)
    decreases k
  {
    var it := GetFibItr();
    if k > 0 {
      FibFromSeed(k - 1);
      AdvanceSucc(it, k - 1);
      FibNeverExhausted(it.self, k - 1);
    }
    FibNeverExhausted(it.self, k);
    ModSum(Fib(k), Fib(k + 1));
  }

  lemma ModSum(a: nat, b: nat)
    ensures (a % TWO_POW_32 + b % TWO_POW_32) % TWO_POW_32 == (a + b) % TWO_POW_32
  {
  }
}
