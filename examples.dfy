/** The demo drivers (examples/arr_to_iterble.c, list_from_arr.c, map_over.c, fibbonacci.c) and
    the take scenarios, with their output stated as postconditions. */
module Examples {
  import opened Maybes
  import opened FuncIter
  import opened Seqs
  import opened ArrayIterable
  import opened ListIterable
  import opened FibonacciIterable
  import opened TakeAdapter
  import opened MapAdapter
  import opened Decimal
  import IterUtils
  import IterableUtils
  import ListToIterable

  /** `test_array`: summing the iterable over `{0, ..., 9}` gives 45. */
  method TestArray() returns (sumarr: CInt)
    ensures sumarr == 45
  {
    var arr := Range(10);
    var arrit := ArrIntoIter(arr, |arr|);
    ArrIntoIterDrains(arr, |arr|);
    assert arr[..|arr|] == arr;
    SumRange(10);
    NonNegativeFits(arr);
    var rest;
    sumarr, rest := IterableUtils.SumIntIt(arrit, arr);
  }

  /** `0, 1, ..., n - 1`. */
  function Range(n: nat): (r: seq<int>)
    ensures |r| == n && forall k :: 0 <= k < n ==> r[k] == k
  {
    seq(n, k => k)
  }

  lemma {:induction false} SumRange(n: nat)
    ensures Sum(Range(n)) == n * (n - 1) / 2
  {
    if n > 0 {
      SumRange(n - 1);
      assert Range(n) == Range(n - 1) + [n - 1];
      SumSnoc(Range(n - 1), n - 1);
    }
  }

  /** `test_list_from_arr`: folding the iterable over `{42, 3, 17, 25}` gives the list
      25 -> 17 -> 3 -> 42, whose sum is the array's. */
  method TestListFromArr() returns (list: IntList)
    ensures Contents(list) == [25, 17, 3, 42]
    ensures Sum(Contents(list)) == Sum([42, 3, 17, 25])
  {
    var arr := [42, 3, 17, 25];
    var arrit := ArrIntoIter(arr, |arr|);
    ArrIntoIterDrains(arr, |arr|);
    assert arr[..|arr|] == arr;
    var rest;
    list, rest := ListToIterable.RevListFromIntIt(arrit, arr);
    SumReverse(arr);
    ghost var freed;
    var freedList;
    freedList, freed := FreeIntList(list);
  }

  /** `incr`: the successor of its argument. */
  function Incr(x: int): (r: int)
    ensures r > x && r - x == 1
  {
    x + 1
  }

  /** `test_mapping`: `foreach` over `map_over(arrit, incr)` sees 2, 3, 4; over
      `map_over(arrit1, inttostr)` it sees "1", "2", "3". */
  method TestMapping() returns (ints: seq<int>, strs: seq<string>)
    ensures ints == [2, 3, 4]
    ensures strs == ["1", "2", "3"]
  {
    var arr := [1, 2, 3];
    var arrit := ArrIntoIter(arr, |arr|);
    ArrIntoIterDrains(arr, |arr|);
    assert arr[..|arr|] == arr;
    var mappedit := MapOver(arrit, Incr);
    MapYields(arrit, Incr, arr);
    assert SeqMap(Incr, arr) == [2, 3, 4];
    var rest;
    ghost var seen, pulls;
    ints, rest, seen, pulls := IterUtils.Foreach(mappedit, [2, 3, 4], [], Append);
    AppendAll([2, 3, 4]);

    var arrit1 := ArrIntoIter(arr, |arr|);
    var mappedit1 := MapOver(arrit1, IntToDecimal);
    MapYields(arrit1, IntToDecimal, arr);
    assert SeqMap(IntToDecimal, arr) == ["1", "2", "3"];
    var rest1;
    ghost var seen1;
    strs, rest1, seen1, pulls := IterUtils.Foreach(mappedit1, ["1", "2", "3"], [], Append);
    AppendAll(["1", "2", "3"]);
  }

  /** The body of a `foreach` that records each element it sees. */
  function Append<T>(acc: seq<T>, x: T): seq<T>
  {
    acc + [x]
  }

  lemma {:induction false} AppendAll<T>(xs: seq<T>)
    ensures FoldLeft(Append, [], xs) == xs
    decreases |xs|
  {
    if xs != [] {
      AppendAll(xs[..|xs| - 1]);
      assert xs[..|xs| - 1] + [xs[|xs| - 1]] == xs;
    }
  }

  /** `test_fibonacci`: ten calls on the generator seeded `{0, 1}` return
      1, 2, 3, 5, 8, 13, 21, 34, 55, 89. */
  method TestFibonacci() returns (printed: seq<uint32>)
    ensures printed == [1, 2, 3, 5, 8, 13, 21, 34, 55, 89]
  {
    var it := GetFibItr();
    printed := [];
    for i := 0 to 10
      invariant it == Advance(GetFibItr(), i)
      invariant |printed| == i
      invariant forall j :: 0 <= j < i ==> printed[j] == Fib(j + 2) % TWO_POW_32
    {
      FibFromSeed(i);
      AdvanceSucc(GetFibItr(), i);
      var pulled := it.Pull();
      printed := printed + [pulled.0.val];
      it := pulled.1;
    }
    FirstTenFib(printed);
  }

  /** A ten-element sequence holding `Fib(2)` to `Fib(11)` modulo 2^32 is the table the demo
      prints. */
  lemma FirstTenFib(p: seq<int>)
    requires |p| == 10
    requires forall j :: 0 <= j < 10 ==> p[j] == Fib(j + 2) % TWO_POW_32
    ensures p == [1, 2, 3, 5, 8, 13, 21, 34, 55, 89]
  {
    FibTable();
    assert p[0] == 1 && p[1] == 2 && p[2] == 3 && p[3] == 5 && p[4] == 8;
    assert p[5] == 13 && p[6] == 21 && p[7] == 34 && p[8] == 55 && p[9] == 89;
  }

  lemma FibTable()
    ensures Fib(2) == 1 && Fib(3) == 2 && Fib(4) == 3 && Fib(5) == 5 && Fib(6) == 8
    ensures Fib(7) == 13 && Fib(8) == 21 && Fib(9) == 34 && Fib(10) == 55 && Fib(11) == 89
  {
  }

  /** `take(iterable_of({42, 3, 17, 25}), 2)` yields 42 and 3; the third and the fourth call
      both return `Nothing`. */
  lemma TakeOfArray()
    ensures Yields(Take(ArrIntoIter([42, 3, 17, 25], 4), 2), [42, 3])
    ensures PullAt(Take(ArrIntoIter([42, 3, 17, 25], 4), 2), 2).Nothing?
    ensures PullAt(Take(ArrIntoIter([42, 3, 17, 25], 4), 2), 3).Nothing?
  {
    var arr := [42, 3, 17, 25];
    ArrIntoIterDrains(arr, 4);
    assert arr[..4] == arr;
    TakeOfFinite(ArrIntoIter(arr, 4), arr, 2);
    var it := Take(ArrIntoIter(arr, 4), 2);
    assert Advance(it, 2 + 0) == Advance(it, 2) && Advance(it, 2 + 1) == Advance(it, 3) by {
      AdvanceSplit(it, 2, 0);
      AdvanceSplit(it, 2, 1);
    }
    assert PullAt(Advance(it, 2), 0).Nothing? && PullAt(Advance(it, 2), 1).Nothing?;
  }

  /** `take(fibonacci, 10)` over the seed `{0, 1}` yields 1, 2, 3, 5, 8, 13, 21, 34, 55, 89 and
      then `Nothing` forever. */
  lemma TakeOfFibonacci()
    ensures Yields(Take(GetFibItr(), 10), [1, 2, 3, 5, 8, 13, 21, 34, 55, 89])
    ensures Exhausted(Advance(Take(GetFibItr(), 10), 10))
  {
    forall k | 0 <= k < 10 ensures PullAt(GetFibItr(), k).Just? {
      FibFromSeed(k);
    }
    TakeOfInfinite(GetFibItr(), 10);
    FibPrefixValues(10);
    FirstTenFib(Prefix(GetFibItr(), 10));
  }

  lemma FibPrefixValues(n: nat)
    ensures |Prefix(GetFibItr(), n)| == n
    ensures forall k :: 0 <= k < n ==> Prefix(GetFibItr(), n)[k] == Fib(k + 2) % TWO_POW_32
  {
    forall k | 0 <= k < n ensures PullAt(GetFibItr(), k).Just? {
      FibFromSeed(k);
    }
    PrefixFull(GetFibItr(), n);
    PrefixValues(GetFibItr(), n);
    forall k | 0 <= k < n ensures Prefix(GetFibItr(), n)[k] == Fib(k + 2) % TWO_POW_32 {
      FibFromSeed(k);
    }
  }
}
