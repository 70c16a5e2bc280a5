/** The type-erased iterable handle and what it means for one to produce a sequence. */
module FuncIter {
  import opened Maybes

  /** An `Iterable(T)`: the opaque state `self` of some source paired with the `next`
      function of that source's type. A C `next` mutates `*self`; here it returns the state it
      leaves behind, so a call `it.tc.next(it.self)` is `it.Pull()`. */
  datatype Iterable<!S, T> = Iterable(self: S, next: S -> (Maybe<T>, S)) {

    /** One call of `next`: the value returned and the handle over the state left behind. */
    function Pull(): (r: (Maybe<T>, Iterable<S, T>))
      ensures r.1.next == next
    {
      var (m, s) := next(self);
      (m, Iterable(s, next))
    }
  }

  /** The handle after `k` calls of `next`. */
  ghost function Advance<S, T>(it: Iterable<S, T>, k: nat): (r: Iterable<S, T>)
    ensures r.next == it.next
    decreases k
  {
    if k == 0 then it else Advance(it.Pull().1, k - 1)
  }

  /** The value returned by call number `k` (counting from 0). */
  ghost function PullAt<S, T>(it: Iterable<S, T>, k: nat): Maybe<T>
  {
    Advance(it, k).Pull().0
  }

  /** The values returned by the first `k` calls, in call order. */
  ghost function Pulls<S, T>(it: Iterable<S, T>, k: nat): seq<Maybe<T>>
    decreases k
  {
    if k == 0 then [] else [it.Pull().0] + Pulls(it.Pull().1, k - 1)
  }

  /** The handle yields exactly `xs`, in order, and the call after them returns `Nothing`. */
  ghost predicate Yields<S, T>(it: Iterable<S, T>, xs: seq<T>)
    decreases |xs|
  {
    match it.Pull().0
    case Nothing => xs == []
    case Just(x) => xs != [] && xs[0] == x && Yields(it.Pull().1, xs[1..])
  }

  /** Every further call returns `Nothing`. */
  ghost predicate Exhausted<S, T>(it: Iterable<S, T>)
  {
    forall k: nat :: PullAt(it, k).Nothing?
  }

  /** The values produced before the first `Nothing` within the first `n` calls. */
  ghost function Prefix<S, T>(it: Iterable<S, T>, n: nat): seq<T>
    decreases n
  {
    if n == 0 then []
    else match it.Pull().0
      case Nothing => []
      case Just(x) => [x] + Prefix(it.Pull().1, n - 1)
  }

  /** Number of `Just` results in a run of calls. */
  function CountJust<T>(ms: seq<Maybe<T>>): nat
  {
    if ms == [] then 0 else (if ms[0].Just? then 1 else 0) + CountJust(ms[1..])
  }

  lemma {:induction false} AdvanceSucc<S, T>(it: Iterable<S, T>, k: nat)
    ensures Advance(it, k + 1) == Advance(it, k).Pull().1
    decreases k
  {
    if k > 0 {
      AdvanceSucc(it.Pull().1, k - 1);
    }
  }

  /** `Yields` read call by call: call `k` returns `Just(xs[k])` for every `k < |xs|`, and
      call `|xs|` returns `Nothing`. */
  lemma {:induction false} YieldsIff<S, T>(it: Iterable<S, T>, xs: seq<T>)
    ensures Yields(it, xs) <==>
      (forall k :: 0 <= k < |xs| ==> PullAt(it, k) == Just(xs[k])) && PullAt(it, |xs|).Nothing?
    decreases |xs|
  {
    if xs != [] {
      var next := it.Pull().1;
      YieldsIff(next, xs[1..]);
      assert forall k :: 0 < k <= |xs| ==> PullAt(it, k) == PullAt(next, k - 1);
      if (forall k :: 0 <= k < |xs| ==> PullAt(it, k) == Just(xs[k])) {
        assert PullAt(it, 0) == Just(xs[0]);
        assert forall k :: 0 <= k < |xs| - 1 ==> PullAt(next, k) == Just(xs[1..][k]) by {
          forall k | 0 <= k < |xs| - 1 ensures PullAt(next, k) == Just(xs[1..][k]) {
            assert PullAt(it, k + 1) == Just(xs[k + 1]);
          }
        }
      }
    }
  }

  /** `j` calls and then `k` more are `j + k` calls. */
  lemma {:induction false} AdvanceSplit<S, T>(it: Iterable<S, T>, j: nat, k: nat)
    ensures Advance(Advance(it, j), k) == Advance(it, j + k)
    decreases j
  {
    if j > 0 {
      AdvanceSplit(it.Pull().1, j - 1, k);
    }
  }

  /** A source determines what it yields. */
  lemma {:induction false} YieldsUnique<S, T>(it: Iterable<S, T>, xs: seq<T>, ys: seq<T>)
    requires Yields(it, xs) && Yields(it, ys)
    ensures xs == ys
    decreases |xs|
  {
    if xs != [] {
      YieldsUnique(it.Pull().1, xs[1..], ys[1..]);
      assert xs == [xs[0]] + xs[1..] && ys == [ys[0]] + ys[1..];
    }
  }

  /** Of a finite source, the first `n` calls deliver the first `n` elements (or all of them). */
  lemma {:induction false} PrefixOfYields<S, T>(it: Iterable<S, T>, xs: seq<T>, n: nat)
    requires Yields(it, xs)
    ensures Prefix(it, n) == xs[..if n < |xs| then n else |xs|]
    decreases n
  {
    if n > 0 && xs != [] {
      PrefixOfYields(it.Pull().1, xs[1..], n - 1);
      var m := if n < |xs| then n else |xs|;
      assert xs[..m] == [xs[0]] + xs[1..][..m - 1];
    }
  }

  /** Element `k` of a prefix is the value call `k` returned. */
  lemma {:induction false} PrefixValues<S, T>(it: Iterable<S, T>, n: nat)
    ensures |Prefix(it, n)| <= n
    ensures forall k :: 0 <= k < |Prefix(it, n)| ==> PullAt(it, k) == Just(Prefix(it, n)[k])
    decreases n
  {
    if n > 0 && it.Pull().0.Just? {
      PrefixValues(it.Pull().1, n - 1);
    }
  }

  /** A handle whose next call returns `Nothing` and leaves its state where it was stays
      exhausted: such a source cannot resurrect. */
  lemma {:induction false} StuckIsExhausted<S, T>(it: Iterable<S, T>)
    requires it.Pull().0.Nothing? && it.Pull().1 == it
    ensures Exhausted(it)
  {
    forall k: nat ensures PullAt(it, k).Nothing? {
      StuckAdvance(it, k);
    }
  }

  lemma {:induction false} StuckAdvance<S, T>(it: Iterable<S, T>, k: nat)
    requires it.Pull().1 == it
    ensures Advance(it, k) == it
    decreases k
  {
    if k > 0 {
      StuckAdvance(it, k - 1);
    }
  }

  /** An exhausted handle is still exhausted after one more call. */
  lemma ExhaustedPull<S, T>(it: Iterable<S, T>)
    requires Exhausted(it)
    ensures it.Pull().0.Nothing? && Exhausted(it.Pull().1)
  {
    assert PullAt(it, 0).Nothing?;
    forall k: nat ensures PullAt(it.Pull().1, k).Nothing? {
      assert PullAt(it, k + 1).Nothing?;
    }
  }
}
