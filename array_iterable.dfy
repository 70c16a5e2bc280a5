/** The array source (array_iterable.h, array_iterable.c): a cursor `i` over the first `size`
    elements of a borrowed read-only array. `intarrnxt` and `strarrnxt` are one generic step,
    used at `int` and at `string`. */
module ArrayIterable {
  import opened Maybes
  import opened FuncIter

  /** The `ArrIter` struct: `size_t i; size_t const size; T const* const arr`. */
  datatype ArrCursor<T> = ArrCursor(i: nat, size: nat, arr: seq<T>)

  /** The pointer `arr` designates at least `size` elements; this is what the caller of
      `arr_into_iter` promises. */
  type ArrIter<T> = a: ArrCursor<T> | a.size <= |a.arr| witness ArrCursor(0, 0, [])

  /** `intarrnxt` / `strarrnxt`: `arr[i++]` while `i < size`, else `Nothing`. The element is read
      only under the guard, so every read is in bounds; `arr` and `size` never change. */
  function ArrNext<T>(a: ArrIter<T>): (r: (Maybe<T>, ArrIter<T>))
    ensures r.1.arr == a.arr && r.1.size == a.size
    ensures a.i < a.size ==> r.0 == Just(a.arr[a.i]) && r.1.i == a.i + 1
    ensures a.i >= a.size ==> r.0.Nothing? && r.1 == a
  {
    if a.i < a.size then (Just(a.arr[a.i]), a.(i := a.i + 1)) else (Nothing, a)
  }

  /** `arr_into_iter(srcarr, sz, T)` followed by `prep_<T>arr_itr`: the cursor starts at 0. */
  function ArrIntoIter<T>(arr: seq<T>, size: nat): (it: Iterable<ArrIter<T>, T>)
    requires size <= |arr|
    ensures it.self.i == 0 && it.self.size == size && it.self.arr == arr
    ensures it.next == ArrNext
  {
    var a: ArrIter<T> := ArrCursor(0, size, arr);
    Iterable(a, ArrNext)
  }

  /** Every call keeps the cursor within the bound: `0 <= i <= size`. */
  lemma {:induction false} ArrCursorInBounds<T>(a: ArrIter<T>, k: nat)
    requires a.i <= a.size
    ensures Advance(Iterable(a, ArrNext), k).self.i <= a.size
    ensures Advance(Iterable(a, ArrNext), k).self.size == a.size
    ensures Advance(Iterable(a, ArrNext), k).self.arr == a.arr
    decreases k
  {
    if k > 0 {
      ArrCursorInBounds(ArrNext(a).1, k - 1);
    }
  }

  /** From cursor `i`, the source yields `arr[i..size]` in order and then `Nothing` on every
      further call. */
  lemma {:induction false} ArrDrains<T>(a: ArrIter<T>)
    requires a.i <= a.size
    ensures Yields(Iterable(a, ArrNext), a.arr[a.i..a.size])
    ensures Exhausted(Advance(Iterable(a, ArrNext), a.size - a.i))
    decreases a.size - a.i
  {
    var it := Iterable(a, ArrNext);
    if a.i == a.size {
      StuckIsExhausted(it);
    } else {
      var b := ArrNext(a).1;
      ArrDrains(b);
      assert a.arr[a.i..a.size][1..] == b.arr[b.i..b.size];
    }
  }

  /** A freshly made array iterable yields `arr[0..size)` and then `Nothing` forever. */
  lemma ArrIntoIterDrains<T>(arr: seq<T>, size: nat)
    requires size <= |arr|
    ensures Yields(ArrIntoIter(arr, size), arr[..size])
    ensures Exhausted(Advance(ArrIntoIter(arr, size), size))
  {
    ArrDrains(ArrIntoIter(arr, size).self);
    assert arr[0..size] == arr[..size];
  }
}
