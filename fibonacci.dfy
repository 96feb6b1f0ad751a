/** The two Fibonacci functions of the fibonacci exercise: `fib_loop`, a
    two-variable loop, and `fib_recur`, a recursion memoised in a vector. Both
    add `usize` values, and an addition that leaves `usize` panics in a debug
    build; the model returns that panic as `Failure(AddOverflow)`. */
module Fibonacci {
  import opened Wrappers

  /** `usize::MAX` on the 64-bit targets the exercise is built for. */
  const USIZE_MAX: nat := 0xFFFF_FFFF_FFFF_FFFF

  type Usize = x: nat | x <= USIZE_MAX

  datatype Panic = AddOverflow

  /** The Fibonacci numbers: F(0) = 0, F(1) = 1, F(k + 2) = F(k) + F(k + 1). */
  function Fib(n: nat): nat
  {
    if n < 2 then n else Fib(n - 2) + Fib(n - 1)
  }

  lemma {:induction false} FibMonotone(i: nat, j: nat)
    requires i <= j
    ensures Fib(i) <= Fib(j)
    decreases j - i
  {
    if i < j {
      FibMonotone(i + 1, j);
      assert Fib(i) <= Fib(i + 1) by {
        if i + 1 >= 2 {
          assert Fib(i + 1) == Fib(i - 1) + Fib(i);
        }
      }
    }
  }

  /** `fib_loop`: after `i` rounds of the loop, `(a, b)` is `(F(i), F(i + 1))`;
      the last round computes F(n + 1), so the loop panics exactly when F(n + 1)
      does not fit in a `usize`. */
  method FibLoop(n: Usize) returns (r: Result<Usize, Panic>)
    ensures r == if Fib(n + 1) <= USIZE_MAX then Success(Fib(n)) else Failure(AddOverflow)
  {
    var a: Usize, b: Usize := 0, 1;
    for i := 0 to n
      invariant a == Fib(i) && b == Fib(i + 1)
    {
      var c := a + b;
      if c > USIZE_MAX {
        // c is F(i + 2) and i + 2 <= n + 1
        FibMonotone(i + 2, n + 1);
        return Failure(AddOverflow);
      }
      a, b := b, c;
    }
    return Success(a);
  }

  /** The memo table of `fib_recur`: every entry is 0 (not computed yet) or the
      Fibonacci number of its index. */
  ghost predicate Memo(arr: array<Usize>)
    reads arr
  {
    forall k :: 0 <= k < arr.Length ==> arr[k] == 0 || arr[k] == Fib(k)
  }

  /** `inner` of `fib_recur`: returns `n` for `n <= 1`, a memoised entry when it
      is non-zero, and otherwise computes F(n - 1) + F(n - 2), stores it in
      `arr[n]` and returns it. It panics exactly when F(n) does not fit in a
      `usize`, and it keeps the memo table correct. */
  method Inner(arr: array<Usize>, n: nat) returns (r: Result<Usize, Panic>)
    requires n < arr.Length && Memo(arr)
    modifies arr
    ensures Memo(arr)
    ensures r == if Fib(n) <= USIZE_MAX then Success(Fib(n)) else Failure(AddOverflow)
    ensures 2 <= n && r.Success? ==> arr[n] == Fib(n)
    decreases n
  {
    if n <= 1 {
      return Success(n);
    } else if arr[n] > 0 {
      return Success(arr[n]);
    } else {
      var x := Inner(arr, n - 1);
      if x.Failure? {
        return x;
      }
      var y := Inner(arr, n - 2);
      if y.Failure? {
        return y;
      }
      var sum := x.value as nat + y.value as nat;
      if sum > USIZE_MAX {
        return Failure(AddOverflow);
      }
      arr[n] := sum;
      return Success(arr[n]);
    }
  }

  /** `fib_recur`: a table of `n + 1` zeros, then `inner(arr, n)`. It panics
      exactly when F(n) itself does not fit in a `usize`. */
  method FibRecur(n: Usize) returns (r: Result<Usize, Panic>)
    ensures r == if Fib(n) <= USIZE_MAX then Success(Fib(n)) else Failure(AddOverflow)
  {
    var arr := new Usize[n + 1](_ => 0);
    r := Inner(arr, n);
  }

  /** Both functions return the same number wherever `fib_loop` does not panic. */
  method LoopAgreesWithRecursion(n: Usize) returns (byLoop: Result<Usize, Panic>, byRecursion: Result<Usize, Panic>)
    ensures byLoop.Success? ==> byRecursion == byLoop
    ensures byRecursion.Failure? ==> byLoop.Failure?
  {
    byLoop := FibLoop(n);
    byRecursion := FibRecur(n);
    FibMonotone(n, n + 1);
  }

  /** Checkpoints for the evaluations below: the verifier unfolds `Fib` on
      literals only a few levels at a time, so each step starts from the last. */
  lemma FibAt20()
    ensures Fib(20) == 6_765 && Fib(21) == 10_946
  {
    assert Fib(5) == 5 && Fib(6) == 8;
    assert Fib(10) == 55 && Fib(11) == 89;
    assert Fib(15) == 610 && Fib(16) == 987;
  }

  lemma FibAt40()
    ensures Fib(40) == 102_334_155 && Fib(41) == 165_580_141
  {
    FibAt20();
    assert Fib(25) == 75_025 && Fib(26) == 121_393;
    assert Fib(30) == 832_040 && Fib(31) == 1_346_269;
    assert Fib(35) == 9_227_465 && Fib(36) == 14_930_352;
  }

  lemma FibAt60()
    ensures Fib(50) == 12_586_269_025
    ensures Fib(60) == 1_548_008_755_920 && Fib(61) == 2_504_730_781_961
  {
    FibAt40();
    assert Fib(45) == 1_134_903_170 && Fib(46) == 1_836_311_903;
    assert Fib(50) == 12_586_269_025 && Fib(51) == 20_365_011_074;
    assert Fib(55) == 139_583_862_445 && Fib(56) == 225_851_433_717;
  }

  lemma FibAt80()
    ensures Fib(70) == 190_392_490_709_135 && Fib(71) == 308_061_521_170_129
    ensures Fib(80) == 23_416_728_348_467_685 && Fib(81) == 37_889_062_373_143_906
  {
    FibAt60();
    assert Fib(65) == 17_167_680_177_565 && Fib(66) == 27_777_890_035_288;
    assert Fib(70) == 190_392_490_709_135 && Fib(71) == 308_061_521_170_129;
    assert Fib(75) == 2_111_485_077_978_050 && Fib(76) == 3_416_454_622_906_707;
  }

  /** The values the exercise's tests expect, for both functions. */
  lemma TestedValues()
    ensures Fib(0) == 0 && Fib(1) == 1 && Fib(2) == 1 && Fib(3) == 2
    ensures Fib(4) == 3 && Fib(5) == 5 && Fib(6) == 8 && Fib(7) == 13
    ensures Fib(50) == 12_586_269_025
    ensures Fib(70) == 190_392_490_709_135 && Fib(71) == 308_061_521_170_129
  {
    FibAt60();
    FibAt80();
  }

  /** The window where the two differ: F(93) fits in a `usize` but F(94) does
      not, so `fib_loop(93)` panics and `fib_recur(93)` returns F(93). */
  lemma OverflowWindow()
    ensures Fib(93) == 12_200_160_415_121_876_738 <= USIZE_MAX
    ensures Fib(94) == 19_740_274_219_868_223_167 > USIZE_MAX
  {
    FibAt80();
    assert Fib(85) == 259_695_496_911_122_585 && Fib(86) == 420_196_140_727_489_673;
    assert Fib(90) == 2_880_067_194_370_816_120 && Fib(91) == 4_660_046_610_375_530_309;
  }
}
