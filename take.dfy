/** The bounded-prefix adapter (examples/iterutils/take.h). */
module TakeAdapter {
  import opened Maybes
  import opened FuncIter

  /** The `IterTake` struct: `size_t i; size_t const limit; Iterable const src`. */
  datatype IterTake<!S, T> = IterTake(i: nat, limit: nat, src: Iterable<S, T>)

  /** The `IterTake` `_nxt` step. Below the limit it pulls `src` once: `Nothing` is passed on with
      `i` unchanged, a value is passed on unchanged and counted. At or past the limit it returns
      `Nothing` and leaves everything, `src` included, untouched. `limit` and the source's
      `next` never change. */
  function TakeNext<S, T>(self: IterTake<S, T>): (r: (Maybe<T>, IterTake<S, T>))
    ensures r.1.limit == self.limit && r.1.src.next == self.src.next
    ensures self.i >= self.limit ==> r == (Nothing, self)
    ensures self.i < self.limit ==> r.0 == self.src.Pull().0 && r.1.src == self.src.Pull().1
    ensures r.1.i == if r.0.Just? then self.i + 1 else self.i
  {
    if self.i < self.limit then
      var (x, src') := self.src.Pull();
      match x
      case Nothing => (Nothing, self.(src := src'))
      case Just(v) => (Just(v), self.(i := self.i + 1, src := src'))
    else
      (Nothing, self)
  }

  /** The `name(src, n)` constructor: `limit = n`, `src = src`, and `i = 0` (left out of the
      designated initializer). */
  function Take<S, T>(src: Iterable<S, T>, n: nat): (it: Iterable<IterTake<S, T>, T>)
    ensures it.self == IterTake(0, n, src)
    ensures it.next == TakeNext
  {
    Iterable(IterTake(0, n, src), TakeNext)
  }

  /** From any state with `i <= limit`, the adapter yields what the upstream produces before its
      first `Nothing` within the `limit - i` calls that remain. */
  lemma {:induction false} TakeYieldsPrefix<S, T>(t: IterTake<S, T>)
    requires t.i <= t.limit
    ensures Yields(Iterable(t, TakeNext), Prefix(t.src, t.limit - t.i))
    decreases t.limit - t.i
  {
    if t.i < t.limit {
      var (x, src') := t.src.Pull();
      if x.Just? {
        TakeYieldsPrefix(t.(i := t.i + 1, src := src'));
      }
    }
  }

  /** The cursor never passes the limit, and at most `limit - i` of any run of calls return a
      value: `take(src, n)` produces at most `n` values, whatever the upstream does. */
  lemma {:induction false} TakeBound<S, T>(t: IterTake<S, T>, k: nat)
    requires t.i <= t.limit
    ensures Advance(Iterable(t, TakeNext), k).self.i <= t.limit
    ensures CountJust(Pulls(Iterable(t, TakeNext), k)) <= t.limit - t.i
    decreases k
  {
    if k > 0 {
      TakeBound(TakeNext(t).1, k - 1);
    }
  }

  /** Once `i` has reached `limit`, every later call returns `Nothing` without pulling. */
  lemma TakeAtLimit<S, T>(t: IterTake<S, T>)
    requires t.i >= t.limit
    ensures Exhausted(Iterable(t, TakeNext))
  {
    StuckIsExhausted(Iterable(t, TakeNext));
  }

  /** Over an upstream that stays exhausted, the adapter stays exhausted too, although below
      its limit it keeps pulling the upstream on every call. */
  lemma TakeOverExhausted<S, T>(t: IterTake<S, T>)
    requires Exhausted(t.src)
    ensures Exhausted(Iterable(t, TakeNext))
  {
    forall k: nat ensures PullAt(Iterable(t, TakeNext), k).Nothing? {
      TakeOverExhaustedAt(t, k);
    }
  }

  lemma {:induction false} TakeOverExhaustedAt<S, T>(t: IterTake<S, T>, k: nat)
    requires Exhausted(t.src)
    ensures PullAt(Iterable(t, TakeNext), k).Nothing?
    decreases k
  {
    ExhaustedPull(t.src);
    if k > 0 {
      TakeOverExhaustedAt(TakeNext(t).1, k - 1);
    }
  }

  /** Over a non-resurrecting upstream that yields `xs` and then stays exhausted, `take(src, n)`
      yields exactly `xs[..min(n, |xs|)]` and then `Nothing` on every further call. */
  lemma TakeOfFinite<S, T>(src: Iterable<S, T>, xs: seq<T>, n: nat)
    requires Yields(src, xs) && Exhausted(Advance(src, |xs|))
    ensures Yields(Take(src, n), xs[..if n < |xs| then n else |xs|])
    ensures Exhausted(Advance(Take(src, n), if n < |xs| then n else |xs|))
  {
    var m := if n < |xs| then n else |xs|;
    TakeYieldsPrefix(Take(src, n).self);
    PrefixOfYields(src, xs, n);
    TakeStateAfter(Take(src, n).self, xs, m);
    var t := Advance(Take(src, n), m).self;
    if m == n {
      TakeAtLimit(t);
    } else {
      TakeOverExhausted(t);
    }
  }

  /** After `m` calls that each returned a value from an upstream yielding `xs`, the adapter
      has counted `m` and its upstream has been pulled exactly `m` times. */
  lemma {:induction false} TakeStateAfter<S, T>(t: IterTake<S, T>, xs: seq<T>, m: nat)
    requires Yields(t.src, xs) && m <= |xs| && t.i + m <= t.limit
    ensures Advance(Iterable(t, TakeNext), m).self == t.(i := t.i + m, src := Advance(t.src, m))
    decreases m
  {
    if m > 0 {
      TakeStateAfter(TakeNext(t).1, xs[1..], m - 1);
    }
  }

  /** Over an upstream whose first `n` calls all return values (the Fibonacci generator, say),
      `take(src, n)` yields those `n` values and then `Nothing` on every further call. */
  lemma TakeOfInfinite<S, T>(src: Iterable<S, T>, n: nat)
    requires forall k :: 0 <= k < n ==> PullAt(src, k).Just?
    ensures |Prefix(src, n)| == n
    ensures Yields(Take(src, n), Prefix(src, n))
    ensures Exhausted(Advance(Take(src, n), n))
  {
    PrefixFull(src, n);
    TakeYieldsPrefix(Take(src, n).self);
    TakeCountsTo(Take(src, n).self, n);
    TakeAtLimit(Advance(Take(src, n), n).self);
  }

  lemma {:induction false} PrefixFull<S, T>(src: Iterable<S, T>, n: nat)
    requires forall k :: 0 <= k < n ==> PullAt(src, k).Just?
    ensures |Prefix(src, n)| == n
    decreases n
  {
    if n > 0 {
      assert PullAt(src, 0).Just?;
      forall k | 0 <= k < n - 1 ensures PullAt(src.Pull().1, k).Just? {
        assert PullAt(src, k + 1).Just?;
      }
      PrefixFull(src.Pull().1, n - 1);
    }
  }

  lemma {:induction false} TakeCountsTo<S, T>(t: IterTake<S, T>, n: nat)
    requires t.i + n <= t.limit
    requires forall k :: 0 <= k < n ==> PullAt(t.src, k).Just?
    ensures Advance(Iterable(t, TakeNext), n).self.i == t.i + n
    ensures Advance(Iterable(t, TakeNext), n).self.limit == t.limit
    decreases n
  {
    if n > 0 {
      assert PullAt(t.src, 0).Just?;
      forall k | 0 <= k < n - 1 ensures PullAt(t.src.Pull().1, k).Just? {
        assert PullAt(t.src, k + 1).Just?;
      }
      TakeCountsTo(TakeNext(t).1, n - 1);
    }
  }

  /** A source that alternates `Nothing` and `Just(7)`: it resurrects. */
  function Blink(on: bool): (Maybe<int>, bool)
  {
    (if on then Just(7) else Nothing, !on)
  }

  /** `IterTake` does not latch exhaustion: below its limit it pulls again after the upstream
      returned `Nothing`, so over a resurrecting upstream a value follows a `Nothing`. Its
      "Nothing forever" therefore rests on the upstream's. */
  lemma TakeDoesNotLatch()
    ensures Pulls(Take(Iterable(false, Blink), 3), 2) == [Nothing, Just(7)]
  {
    var it := Take(Iterable(false, Blink), 3);
    assert it.Pull().0 == Nothing;
    assert it.Pull().1.Pull().0 == Just(7);
  }
}
