/** `BigUInt`: arbitrary-precision unsigned integers over 64-bit limbs, with the
    arithmetic of the big-uint exercise. A `BigUInt` is a Rust value (cloned,
    compared structurally), so it is a datatype here; each loop that rewrites
    the limb vector in place is a method whose loop reassigns a local sequence. */
module BigUnsigned {
  import opened Wrappers
  import opened Limbs

  datatype BigUInt = BigUInt(inner: seq<Limb>)

  datatype Ordering = Less | Equal | Greater

  /** The panic of `div_rem` on a divisor without limbs. */
  datatype Panic = DivisionByZero

  function Val(x: BigUInt): nat
  {
    Value(x.inner)
  }

  function Zero(): (r: BigUInt)
    ensures Val(r) == 0 && Canonical(r.inner)
  {
    BigUInt([])
  }

  function One(): (r: BigUInt)
    ensures Val(r) == 1 && Canonical(r.inner)
  {
    ValueSingle(1);
    BigUInt([1])
  }

  /** `From<u8/u16/u32/u64/usize>`: one limb holding `x`, even when `x` is 0, so
      `From(0)` is the one constructor whose result is not canonical. */
  function From(x: Limb): (r: BigUInt)
    ensures Val(r) == x && |r.inner| == 1
    ensures Canonical(r.inner) <==> x != 0
  {
    ValueSingle(x);
    BigUInt([x])
  }

  /** `u64::overflowing_add`: the wrapped sum and whether it wrapped. */
  function OverflowingAdd(x: Limb, y: Limb): (r: (Limb, bool))
    ensures r.0 + (if r.1 then BASE else 0) == x + y
  {
    if x + y < BASE then (x + y, false) else (x + y - BASE, true)
  }

  /** `u64::overflowing_sub`: the wrapped difference and whether it wrapped. */
  function OverflowingSub(x: Limb, y: Limb): (r: (Limb, bool))
    ensures r.0 - (if r.1 then BASE else 0) == x - y
  {
    if x >= y then (x - y, false) else (x + BASE - y, true)
  }

  /** The comparison of two limb sequences of one length from the most
      significant limb down: the first limb that differs decides. */
  function CmpFromTop(x: seq<Limb>, y: seq<Limb>): Ordering
    requires |x| == |y|
  {
    if x == [] then Equal
    else if x[|x| - 1] < y[|y| - 1] then Less
    else if x[|x| - 1] > y[|y| - 1] then Greater
    else CmpFromTop(x[..|x| - 1], y[..|y| - 1])
  }

  /** `partial_cmp`: the longer limb vector is the greater; vectors of one
      length compare from the top limb down. */
  function Cmp(a: BigUInt, b: BigUInt): Ordering
  {
    if |a.inner| < |b.inner| then Less
    else if |a.inner| > |b.inner| then Greater
    else CmpFromTop(a.inner, b.inner)
  }

  function Compare(m: nat, n: nat): Ordering
  {
    if m < n then Less else if m == n then Equal else Greater
  }

  /** On sequences of one length the top-down comparison is the numeric one,
      and it says Equal only of equal sequences. */
  lemma {:induction false} CmpFromTopIsNumeric(x: seq<Limb>, y: seq<Limb>)
    requires |x| == |y|
    ensures CmpFromTop(x, y) == Compare(Value(x), Value(y))
    ensures CmpFromTop(x, y) == Equal <==> x == y
    decreases |x|
  {
    if x != [] {
      var n := |x| - 1;
      CmpFromTopIsNumeric(x[..n], y[..n]);
      if x[n] < y[n] {
        TopLimbDecides(x, y);
      } else if x[n] > y[n] {
        TopLimbDecides(y, x);
      } else {
        TopLimbEqual(x, y);
        assert x == x[..n] + [x[n]] && y == y[..n] + [y[n]];
      }
    }
  }

  /** `partial_cmp` says Equal exactly of structurally equal numbers, and on
      canonical numbers it is the numeric order. */
  lemma CmpIsNumeric(a: BigUInt, b: BigUInt)
    ensures Cmp(a, b) == Equal <==> a == b
    ensures Canonical(a.inner) && Canonical(b.inner) ==> Cmp(a, b) == Compare(Val(a), Val(b))
  {
    if |a.inner| == |b.inner| {
      CmpFromTopIsNumeric(a.inner, b.inner);
    } else if Canonical(a.inner) && Canonical(b.inner) {
      if |a.inner| < |b.inner| {
        ValueBound(a.inner);
        CanonicalByValue(b.inner);
        PowMonotone(|a.inner|, |b.inner| - 1);
      } else {
        ValueBound(b.inner);
        CanonicalByValue(a.inner);
        PowMonotone(|b.inner|, |a.inner| - 1);
      }
    }
  }

  /** Derived equality is numeric equality on canonical numbers. */
  lemma EqualityIsNumeric(a: BigUInt, b: BigUInt)
    requires Canonical(a.inner) && Canonical(b.inner)
    ensures a == b <==> Val(a) == Val(b)
  {
    if Val(a) == Val(b) {
      CanonicalUnique(a.inner, b.inner);
    }
  }

  /** Rotating a limb left by one bit and clearing bit 0 doubles it, less its
      top bit times the base; the bit cleared is that top bit. */
  lemma RotateLimb(x: Limb)
    ensures (x * 2) % BASE + x / HALF < BASE
    ensures ((x * 2) % BASE + x / HALF) % 2 == x / HALF <= 1
    ensures 2 * x == (x * 2) % BASE + BASE * (x / HALF)
  {
    if x < HALF {
      assert x / HALF == 0;
      assert (x * 2) % BASE == x * 2;
    } else {
      assert x / HALF == 1;
      assert (x * 2) % BASE == x * 2 - BASE;
    }
  }

  /** One limb step of a loop that rebuilds `v`, with a carry, from `x` times
      `k`: if limb `low` plus carry-out `cout` stands for `k * limb + cin`, the
      prefix relation moves up one limb. */
  lemma CarryStep(p: nat, v: int, x: int, limb: int, low: int, cin: int, cout: int, k: int)
    requires v + cin * p == k * x
    requires low + BASE * cout == k * limb + cin
    ensures (v + p * low) + cout * (BASE * p) == k * (x + p * limb)
  {
    calc {
      (v + p * low) + cout * (BASE * p);
      v + p * (low + BASE * cout);
      v + p * (k * limb + cin);
      v + cin * p + p * k * limb;
      k * x + p * k * limb;
      k * (x + p * limb);
    }
  }

  /** `shl_once`: rotates every limb left by one bit, moves each limb's top bit
      into the next limb, and pushes a limb 1 for a final carry: the value
      doubles. */
  method ShlOnce(x: BigUInt) returns (y: BigUInt)
    ensures Val(y) == 2 * Val(x)
    ensures |y.inner| == |x.inner| || (|y.inner| == |x.inner| + 1 && y.inner[|x.inner|] == 1)
    ensures Canonical(x.inner) ==> Canonical(y.inner)
  {
    var inner: seq<Limb> := x.inner;
    var carry := false;
    var i := 0;
    while i < |inner|
      invariant 0 <= i <= |inner| == |x.inner|
      invariant inner[i..] == x.inner[i..]
      invariant Value(inner[..i]) + (if carry then Pow(i) else 0) == 2 * Value(x.inner[..i])
    {
      var limb := inner[i];
      RotateLimb(limb);
      var rotated := (limb * 2) % BASE + limb / HALF;  // rotate_left(1)
      var c := rotated % 2;                            // *i & 1
      var cleared := rotated - c;                      // *i ^ c
      var low := cleared + (if carry then 1 else 0);   // | carry
      ShlPrefixStep(inner, x.inner, i, low, carry, c != 0);
      KeepTail(inner, x.inner, i, low);
      inner := inner[i := low];
      carry := c != 0;
      i := i + 1;
    }
    WholePrefix(inner, i);
    WholePrefix(x.inner, i);
    if carry {
      PushCarry(inner, 2 * Val(x));
      inner := inner + [1];
    } else {
      AddCanonical(inner, x.inner, x.inner);
    }
    y := BigUInt(inner);
  }

  /** One limb of the loop of `ShlOnce`, as a fact about prefixes. */
  lemma ShlPrefixStep(inner: seq<Limb>, x: seq<Limb>, i: nat, low: Limb, cin: bool, cout: bool)
    requires i < |inner| == |x|
    requires Value(inner[..i]) + (if cin then Pow(i) else 0) == 2 * Value(x[..i])
    requires low + (if cout then BASE else 0) == 2 * (x[i] as int) + (if cin then 1 else 0)
    ensures Value(inner[i := low][..i + 1]) + (if cout then Pow(i + 1) else 0) == 2 * Value(x[..i + 1])
  {
    var next := inner[i := low];
    ValuePrefix(next, i);
    ValuePrefix(x, i);
    assert next[..i] == inner[..i];
    CarryStep(Pow(i), Value(inner[..i]), Value(x[..i]), x[i], low,
              if cin then 1 else 0, if cout then 1 else 0, 2);
  }

  lemma WholePrefix(s: seq<Limb>, i: nat)
    requires i == |s|
    ensures Value(s[..i]) == Value(s)
  {
    assert s[..i] == s;
  }

  lemma HalveStep(limb: Limb, rest: nat, carry: bool)
    ensures 2 * (limb / 2 + (if carry then HALF else 0) + BASE * rest) + limb % 2
         == limb + BASE * (2 * rest + (if carry then 1 else 0))
  {
  }

  /** `shr_once`: from the top limb down, shifts every limb right by one bit and
      moves the bit shifted out into the top bit of the limb below; then pops
      one zero top limb: the value halves, rounding down. */
  method ShrOnce(x: BigUInt) returns (y: BigUInt)
    ensures Val(y) == Val(x) / 2
    ensures |y.inner| <= |x.inner|
    ensures Canonical(x.inner) ==> Canonical(y.inner)
  {
    var inner: seq<Limb> := x.inner;
    var carry := false;
    var i := |inner|;
    while i > 0
      invariant 0 <= i <= |inner| == |x.inner|
      invariant inner[..i] == x.inner[..i]
      invariant 2 * Value(inner[i..]) + (if carry then 1 else 0) == Value(x.inner[i..])
    {
      i := i - 1;
      var limb := inner[i];
      var c := limb % 2 != 0;                                 // *i & 1 != 0
      var shifted := limb / 2 + (if carry then HALF else 0);  // (*i >> 1) | carry << 63
      ShrPrefixStep(inner, x.inner, i, carry);
      inner := inner[i := shifted];
      carry := c;
    }
    y := ShrDone(inner, x.inner, carry);
  }

  /** One limb of the loop of `ShrOnce`, from the top down. */
  lemma ShrPrefixStep(inner: seq<Limb>, x: seq<Limb>, i: nat, carry: bool)
    requires i < |inner| == |x| && inner[..i + 1] == x[..i + 1]
    requires 2 * Value(inner[i + 1..]) + (if carry then 1 else 0) == Value(x[i + 1..])
    ensures inner[i] / 2 + (if carry then HALF else 0) < BASE
    ensures var next := inner[i := inner[i] / 2 + (if carry then HALF else 0)];
      next[..i] == x[..i] &&
      2 * Value(next[i..]) + (if inner[i] % 2 != 0 then 1 else 0) == Value(x[i..])
  {
    var limb := inner[i];
    assert limb == x[i];
    var shifted := limb / 2 + (if carry then HALF else 0);
    var next := inner[i := shifted];
    assert next[..i] == x[..i];
    assert next[i..] == [shifted] + inner[i + 1..];
    assert x[i..] == [limb] + x[i + 1..];
    HalveStep(limb, Value(inner[i + 1..]), carry);
  }

  /** The result of `ShrOnce` once its loop has stopped: one zero top limb,
      if there is one, is popped. */
  function ShrDone(inner: seq<Limb>, x: seq<Limb>, carry: bool): (y: BigUInt)
    requires |inner| == |x| && 2 * Value(inner[0..]) + (if carry then 1 else 0) == Value(x[0..])
    ensures Value(y.inner) == Value(x) / 2
    ensures |y.inner| <= |x|
    ensures Canonical(x) ==> Canonical(y.inner)
  {
    assert inner[0..] == inner && x[0..] == x;
    var y := if |inner| > 0 && inner[|inner| - 1] == 0 then
      DropTopZero(inner);
      BigUInt(inner[..|inner| - 1])
    else
      BigUInt(inner);
    if Canonical(x) && y.inner != [] then
      CanonicalByValue(x);
      CanonicalByValue(y.inner);
      PowStep(|y.inner| - 1);
      y
    else
      y
  }

  lemma PowStep(k: nat)
    ensures Pow(k + 1) == BASE * Pow(k)
  {
  }

  function Max(m: nat, n: nat): nat
  {
    if m < n then n else m
  }

  function Min(m: nat, n: nat): nat
  {
    if m < n then m else n
  }

  /** One limb of the carry loop of `Add`, as a fact about prefixes. */
  lemma AddPrefixStep(inner: seq<Limb>, a: seq<Limb>, b: seq<Limb>, i: nat, limb: Limb, cin: bool, cout: bool)
    requires i < |inner| == |a| && inner[i..] == a[i..]
    requires Value(inner[..i]) + (if cin then Pow(i) else 0) == Value(a[..i]) + Value(b[..Min(i, |b|)])
    requires limb + (if cout then BASE else 0) == a[i] as int + (if i < |b| then b[i] else 0) + (if cin then 1 else 0)
    ensures Value(inner[i := limb][..i + 1]) + (if cout then Pow(i + 1) else 0)
         == Value(a[..i + 1]) + Value(b[..Min(i + 1, |b|)])
    ensures inner[i := limb][i + 1..] == a[i + 1..]
  {
    KeepTail(inner, a, i, limb);
    var next := inner[i := limb];
    ValuePrefix(next, i);
    ValuePrefix(a, i);
    PrefixStep(b, i);
    assert next[..i] == inner[..i];
    AddStep(Pow(i), Value(inner[..i]), Value(a[..i]), Value(b[..Min(i, |b|)]),
            a[i], if i < |b| then b[i] else 0, limb, cin, cout);
  }

  /** One limb of the borrow loop of `Sub`, as a fact about prefixes. */
  lemma SubPrefixStep(inner: seq<Limb>, a: seq<Limb>, b: seq<Limb>, i: nat, limb: Limb, bin: bool, bout: bool)
    requires i < |inner| == |a| && inner[i..] == a[i..]
    requires Value(inner[..i]) - (if bin then Pow(i) else 0) == Value(a[..i]) - Value(b[..Min(i, |b|)])
    requires limb - (if bout then BASE else 0) == a[i] as int - (if i < |b| then b[i] else 0) - (if bin then 1 else 0)
    ensures Value(inner[i := limb][..i + 1]) - (if bout then Pow(i + 1) else 0)
         == Value(a[..i + 1]) - Value(b[..Min(i + 1, |b|)])
    ensures inner[i := limb][i + 1..] == a[i + 1..]
  {
    KeepTail(inner, a, i, limb);
    var next := inner[i := limb];
    ValuePrefix(next, i);
    ValuePrefix(a, i);
    PrefixStep(b, i);
    assert next[..i] == inner[..i];
    SubStep(Pow(i), Value(inner[..i]), Value(a[..i]), Value(b[..Min(i, |b|)]),
            a[i], if i < |b| then b[i] else 0, limb, bin, bout);
  }

  lemma AddStep(p: nat, v: int, x: int, y: int, xi: int, yi: int, low: int, cin: bool, cout: bool)
    requires v + (if cin then p else 0) == x + y
    requires low + (if cout then BASE else 0) == xi + yi + (if cin then 1 else 0)
    ensures (v + p * low) + (if cout then BASE * p else 0) == (x + p * xi) + (y + p * yi)
  {
    var c := if cout then 1 else 0;
    calc {
      (v + p * low) + c * (BASE * p);
      v + p * (low + BASE * c);
      v + p * (xi + yi + (if cin then 1 else 0));
    }
  }

  lemma SubStep(p: nat, v: int, x: int, y: int, xi: int, yi: int, low: int, bin: bool, bout: bool)
    requires v - (if bin then p else 0) == x - y
    requires low - (if bout then BASE else 0) == xi - yi - (if bin then 1 else 0)
    ensures (v + p * low) - (if bout then BASE * p else 0) == (x + p * xi) - (y + p * yi)
  {
    var c := if bout then 1 else 0;
    calc {
      (v + p * low) - c * (BASE * p);
      v + p * (low - BASE * c);
      v + p * (xi - yi - (if bin then 1 else 0));
    }
  }

  /** The value of a prefix of `s` whose length may run past the end of `s`. */
  lemma PrefixStep(s: seq<Limb>, i: nat)
    ensures Value(s[..Min(i + 1, |s|)]) == Value(s[..Min(i, |s|)]) + Pow(i) * (if i < |s| then s[i] else 0)
  {
    if i < |s| {
      ValuePrefix(s, i);
    }
  }

  lemma KeepTail(s: seq<Limb>, t: seq<Limb>, i: nat, x: Limb)
    requires i < |s| == |t| && s[i..] == t[i..]
    ensures s[i := x][i + 1..] == t[i + 1..]
  {
    assert s[i := x][i + 1..] == s[i..][1..];
  }

  /** Once the loop has stopped, the prefix sums are the whole values. */
  lemma Finish(inner: seq<Limb>, a: seq<Limb>, b: seq<Limb>, i: nat)
    requires |b| <= i <= |inner| == |a| && inner[i..] == a[i..]
    ensures Value(b[..Min(i, |b|)]) == Value(b)
    ensures Value(inner) - Value(inner[..i]) == Value(a) - Value(a[..i])
    ensures i == |inner| ==> Value(inner[..i]) == Value(inner) && Value(a[..i]) == Value(a)
  {
    assert b[..Min(i, |b|)] == b;
    if i == |inner| {
      assert inner[..i] == inner;
      assert a[..i] == a;
    } else {
      ValueSplit(inner, i);
      ValueSplit(a, i);
    }
  }

  /** The addition operator: when the left operand is shorter the operands
      swap; otherwise the left operand's limbs are copied and the right
      operand's limbs added with a carry, stopping early once the right operand
      is used up and no carry is left; a final carry pushes a limb 1. */
  method Add(a: BigUInt, b: BigUInt) returns (r: BigUInt)
    ensures Val(r) == Val(a) + Val(b)
    ensures var m := Max(|a.inner|, |b.inner|);
      |r.inner| == m || (|r.inner| == m + 1 && r.inner[m] == 1)
    ensures (Canonical(a.inner) && |a.inner| >= |b.inner|) || (Canonical(b.inner) && |b.inner| >= |a.inner|)
      ==> Canonical(r.inner)
    decreases if |a.inner| < |b.inner| then 1 else 0
  {
    if |a.inner| < |b.inner| {
      r := Add(b, a);
    } else {
      r := AddLimbs(a, b);
    }
  }

  /** The branch of the addition operator for a left operand at least as
      long as the right one. */
  method AddLimbs(a: BigUInt, b: BigUInt) returns (r: BigUInt)
    requires |b.inner| <= |a.inner|
    ensures Val(r) == Val(a) + Val(b)
    ensures |r.inner| == |a.inner| || (|r.inner| == |a.inner| + 1 && r.inner[|a.inner|] == 1)
    ensures (Canonical(a.inner) || (Canonical(b.inner) && |b.inner| >= |a.inner|)) ==> Canonical(r.inner)
  {
    var inner: seq<Limb> := a.inner;
    var carry := false;
    var i := 0;
    while i < |inner|
      invariant 0 <= i <= |inner| == |a.inner|
      invariant inner[i..] == a.inner[i..]
      invariant Value(inner[..i]) + (if carry then Pow(i) else 0)
             == Value(a.inner[..i]) + Value(b.inner[..Min(i, |b.inner|)])
    {
      var cin := carry;
      var sum := OverflowingAdd(inner[i], if carry then 1 else 0);
      var limb := sum.0;
      carry := sum.1;
      if i < |b.inner| {
        var sum' := OverflowingAdd(limb, b.inner[i]);
        limb := sum'.0;
        carry := carry || sum'.1;
      }
      AddPrefixStep(inner, a.inner, b.inner, i, limb, cin, carry);
      inner := inner[i := limb];
      i := i + 1;
      if i > |b.inner| && !carry {
        break;
      }
    }
    r := AddDone(inner, a.inner, b.inner, i, carry);
  }

  /** The result of `Add` once its loop has stopped: the limbs written, with
      a limb 1 pushed for a final carry. */
  function AddDone(inner: seq<Limb>, a: seq<Limb>, b: seq<Limb>, i: nat, carry: bool): (r: BigUInt)
    requires |b| <= i <= |inner| == |a| && inner[i..] == a[i..]
    requires i == |inner| || !carry
    requires Value(inner[..i]) + (if carry then Pow(i) else 0) == Value(a[..i]) + Value(b[..Min(i, |b|)])
    ensures Value(r.inner) == Value(a) + Value(b)
    ensures |r.inner| == |a| || (|r.inner| == |a| + 1 && r.inner[|a|] == 1)
    ensures (Canonical(a) || (Canonical(b) && |b| >= |a|)) ==> Canonical(r.inner)
  {
    AddFinish(inner, a, b, i, carry);
    if carry then
      PushCarry(inner, Value(a) + Value(b));
      BigUInt(inner + [1])
    else
      AddCanonical(inner, a, b);
      BigUInt(inner)
  }

  /** When the addition loop stops, the limbs written and the carry make up
      the sum. */
  lemma AddFinish(r: seq<Limb>, a: seq<Limb>, b: seq<Limb>, i: nat, cout: bool)
    requires |b| <= i <= |r| == |a| && r[i..] == a[i..]
    requires i == |r| || !cout
    requires Value(r[..i]) + (if cout then Pow(i) else 0) == Value(a[..i]) + Value(b[..Min(i, |b|)])
    ensures Value(r) + (if cout then Pow(|r|) else 0) == Value(a) + Value(b)
  {
    Finish(r, a, b, i);
  }

  lemma PushCarry(s: seq<Limb>, v: nat)
    requires Value(s) + Pow(|s|) == v
    ensures Value(s + [1]) == v && Canonical(s + [1])
  {
    ValuePush(s, 1);
  }

  /** Without a final carry the sum keeps the longer operand's length, so it
      is canonical when that operand is. */
  lemma AddCanonical(r: seq<Limb>, a: seq<Limb>, b: seq<Limb>)
    requires Value(r) == Value(a) + Value(b) && |r| == |a| >= |b|
    ensures (Canonical(a) || (Canonical(b) && |b| >= |a|)) ==> Canonical(r)
  {
    if r != [] && (Canonical(a) || (Canonical(b) && |b| >= |a|)) {
      if Canonical(a) {
        CanonicalByValue(a);
      } else {
        CanonicalByValue(b);
      }
      CanonicalByValue(r);
    }
  }

  /** The subtraction operator: zero when the left operand is not greater by
      `partial_cmp`; otherwise the left operand's limbs are copied and the
      right operand's subtracted with a borrow (a final borrow is dropped, so
      the difference wraps modulo BASE^|a|), and every zero top limb is
      popped. */
  method Sub(a: BigUInt, b: BigUInt) returns (r: BigUInt)
    ensures Canonical(r.inner)
    ensures Cmp(a, b) != Greater ==> r == Zero()
    ensures Cmp(a, b) == Greater ==>
      Val(r) == Val(a) - Val(b) + (if Val(a) < Val(b) then Pow(|a.inner|) else 0)
    ensures Canonical(a.inner) && Canonical(b.inner) ==>
      Val(r) == if Val(a) <= Val(b) then 0 else Val(a) - Val(b)
  {
    if Cmp(a, b) != Greater {
      NotGreater(a, b);
      return Zero();
    }
    r := SubLimbs(a, b);
    SubSaturates(a, b, Val(r));
  }

  /** The branch of the subtraction operator that runs when the left operand
      is the greater by `partial_cmp`, which makes it at least as long. */
  method SubLimbs(a: BigUInt, b: BigUInt) returns (r: BigUInt)
    requires |b.inner| <= |a.inner|
    ensures Canonical(r.inner)
    ensures Val(r) == Val(a) - Val(b) + (if Val(a) < Val(b) then Pow(|a.inner|) else 0)
  {
    var inner: seq<Limb> := a.inner;
    var borrow := false;
    var i := 0;
    while i < |inner|
      invariant 0 <= i <= |inner| == |a.inner|
      invariant inner[i..] == a.inner[i..]
      invariant Value(inner[..i]) - (if borrow then Pow(i) else 0)
             == Value(a.inner[..i]) - Value(b.inner[..Min(i, |b.inner|)])
    {
      var bin := borrow;
      var diff := OverflowingSub(inner[i], if borrow then 1 else 0);
      var limb := diff.0;
      borrow := diff.1;
      if i < |b.inner| {
        var diff' := OverflowingSub(limb, b.inner[i]);
        limb := diff'.0;
        borrow := borrow || diff'.1;
      }
      SubPrefixStep(inner, a.inner, b.inner, i, limb, bin, borrow);
      inner := inner[i := limb];
      i := i + 1;
      if i > |b.inner| && !borrow {
        break;
      }
    }
    SubWraps(inner, a.inner, b.inner, i, borrow);
    inner := PopZeros(inner);
    r := BigUInt(inner);
  }

  /** Drops the high zero limbs one at a time, as `sub` does before it
      returns. */
  method PopZeros(s: seq<Limb>) returns (t: seq<Limb>)
    ensures Canonical(t) && Value(t) == Value(s)
    ensures t <= s && forall k :: |t| <= k < |s| ==> s[k] == 0
  {
    t := s;
    while |t| > 0 && t[|t| - 1] == 0
      invariant Value(t) == Value(s)
      invariant t <= s && forall k :: |t| <= k < |s| ==> s[k] == 0
    {
      DropTopZero(t);
      t := t[..|t| - 1];
    }
  }

  lemma NotGreater(a: BigUInt, b: BigUInt)
    requires Cmp(a, b) != Greater
    ensures Canonical(a.inner) && Canonical(b.inner) ==> Val(a) <= Val(b)
  {
    CmpIsNumeric(a, b);
  }

  /** For canonical operands the wrapped difference is the true one. */
  lemma SubSaturates(a: BigUInt, b: BigUInt, v: int)
    requires Cmp(a, b) == Greater
    requires v == Val(a) - Val(b) + (if Val(a) < Val(b) then Pow(|a.inner|) else 0)
    ensures Canonical(a.inner) && Canonical(b.inner) ==>
      v == if Val(a) <= Val(b) then 0 else Val(a) - Val(b)
  {
    if Canonical(a.inner) && Canonical(b.inner) {
      CmpIsNumeric(a, b);
    }
  }

  /** When the subtraction loop stops, the final borrow is set exactly when
      the difference is negative, and dropping it adds BASE^|a|. */
  lemma SubWraps(r: seq<Limb>, a: seq<Limb>, b: seq<Limb>, i: nat, bout: bool)
    requires |b| <= i <= |r| == |a| && r[i..] == a[i..]
    requires i == |r| || !bout
    requires Value(r[..i]) - (if bout then Pow(i) else 0) == Value(a[..i]) - Value(b[..Min(i, |b|)])
    ensures Value(r) == Value(a) - Value(b) + (if Value(a) < Value(b) then Pow(|a|) else 0)
  {
    ValueBound(r);
    ValueBound(a);
    Finish(r, a, b, i);
    if bout {
      Borrowed(Value(r), Value(a), Value(b), Pow(|a|));
    }
  }

  lemma Borrowed(v: int, x: int, y: int, p: int)
    requires v < p && 0 <= x < p && v - p == x - y
    ensures x < y
  {
  }

  /** `u128` arithmetic of one limb product: the low and high limbs of
      `limb * x + carry`. */
  lemma MulLimbStep(limb: Limb, x: Limb, carry: Limb, product: int)
    requires product == limb * x + carry
    ensures 0 <= product / BASE < BASE
    ensures product % BASE + BASE * (product / BASE) == product
  {
    MulMonotone(limb, x, BASE - 1);
    MulMonotone(BASE - 1, limb, BASE - 1);
    assert limb * x <= (BASE - 1) * (BASE - 1);
    assert product <= 0xFFFF_FFFF_FFFF_FFFF_0000_0000_0000_0000;
  }

  /** One limb of the inner loop of `Mul`, as a fact about prefixes. */
  lemma ScalePrefixStep(inner: seq<Limb>, a: seq<Limb>, j: nat, x: Limb, low: Limb, cin: Limb, cout: Limb)
    requires j < |inner| == |a| && inner[j..] == a[j..]
    requires Value(inner[..j]) + cin * Pow(j) == x * Value(a[..j])
    requires low + BASE * cout == x * a[j] + cin
    ensures Value(inner[j := low][..j + 1]) + cout * Pow(j + 1) == x * Value(a[..j + 1])
    ensures inner[j := low][j + 1..] == a[j + 1..]
  {
    KeepTail(inner, a, j, low);
    var next := inner[j := low];
    ValuePrefix(next, j);
    ValuePrefix(a, j);
    assert next[..j] == inner[..j];
    CarryStep(Pow(j), Value(inner[..j]), Value(a[..j]), a[j], low, cin, cout, x);
  }

  /** The inner loop of the multiplication operator: a copy of the left
      operand's limbs times one limb `x` of the right operand, with the final
      carry pushed when it is not zero. */
  method ScaleLimbs(a: seq<Limb>, x: Limb) returns (row: seq<Limb>)
    ensures Value(row) == x * Value(a)
    ensures |row| == |a| || (|row| == |a| + 1 && row[|a|] != 0)
    ensures Canonical(a) && a != [] && x != 0 ==> Canonical(row)
  {
    row := a;
    var carry: Limb := 0;
    for j := 0 to |row|
      invariant |row| == |a| && row[j..] == a[j..]
      invariant Value(row[..j]) + carry * Pow(j) == x * Value(a[..j])
    {
      var product := row[j] * x + carry;        // as u128
      MulLimbStep(row[j], x, carry, product);
      ScalePrefixStep(row, a, j, x, product % BASE, carry, product / BASE);
      row := row[j := product % BASE];          // as u64
      carry := product / BASE;                  // >> 64
    }
    WholePrefix(row, |row|);
    WholePrefix(a, |a|);
    ScaleDone(row, a, x, carry);
    if carry > 0 {
      ValuePush(row, carry);
      row := row + [carry];
    }
  }

  lemma ScaleDone(row: seq<Limb>, a: seq<Limb>, x: Limb, carry: Limb)
    requires |row| == |a|
    requires Value(row) + carry * Pow(|row|) == x * Value(a)
    ensures carry == 0 && Canonical(a) && a != [] && x != 0 ==> Canonical(row)
  {
    if carry == 0 && Canonical(a) && a != [] && x != 0 {
      CanonicalByValue(a);
      AtLeast(Value(row), x, Value(a), Pow(|a| - 1));
      CanonicalByValue(row);
    }
  }

  lemma AtLeast(v: int, x: int, w: int, p: int)
    requires v == x * w && x >= 1 && w >= p >= 0
    ensures v >= p
  {
    MulMonotone(w, 1, x);
  }

  /** The multiplication operator: for every limb `x` at index `i` of the
      right operand, the left operand times `x`, shifted up by `i` zero limbs,
      is added to the answer. A left operand without limbs gives `i` zero
      limbs rather than the canonical zero (see `MulCanonical`). */
  method Mul(a: BigUInt, b: BigUInt) returns (r: BigUInt)
    ensures Val(r) == Val(a) * Val(b)
    ensures a.inner == [] ==> r.inner == Zeros(if |b.inner| == 0 then 0 else |b.inner| - 1)
    ensures Canonical(a.inner) && Canonical(b.inner) && (a.inner != [] || |b.inner| <= 1) ==> Canonical(r.inner)
  {
    var ans := Zero();
    for i := 0 to |b.inner|
      invariant Val(ans) == Val(a) * Value(b.inner[..i])
      invariant |ans.inner| <= |a.inner| + i
      invariant a.inner == [] ==> ans.inner == Zeros(if i == 0 then 0 else i - 1)
      invariant Canonical(a.inner) && a.inner != [] && Canonical(b.inner) && i == |b.inner| ==> Canonical(ans.inner)
    {
      var row := ScaleLimbs(a.inner, b.inner[i]);
      var sum := Add(ans, BigUInt(Zeros(i) + row));
      MulRowStep(a.inner, b.inner, i, ans.inner, row, sum.inner);
      ans := sum;
    }
    WholePrefix(b.inner, |b.inner|);
    r := ans;
  }

  /** A left operand without limbs times a right operand of two limbs (the
      value 2^64) leaves one zero limb, which the derived equality tells apart
      from `zero()` and `partial_cmp` ranks above it. */
  method MulZeroQuirk() returns (r: BigUInt)
    ensures r.inner == [0] && Val(r) == 0
    ensures r != Zero() && Cmp(r, Zero()) == Greater
  {
    r := Mul(Zero(), BigUInt([0, 1]));
  }

  /** Multiplication as evidently intended: a left operand without limbs gives
      the canonical zero, and canonical operands always give a canonical
      product, so equal products are equal values. */
  method MulCanonical(a: BigUInt, b: BigUInt) returns (r: BigUInt)
    ensures Val(r) == Val(a) * Val(b)
    ensures Canonical(a.inner) && Canonical(b.inner) ==> Canonical(r.inner)
  {
    if a.inner == [] {
      r := Zero();
    } else {
      r := Mul(a, b);
    }
  }

  /** One pass of the outer loop of `Mul`: the invariants move from `i` to
      `i + 1` once row `i` is added. */
  lemma MulRowStep(a: seq<Limb>, b: seq<Limb>, i: nat, ans: seq<Limb>, row: seq<Limb>, sum: seq<Limb>)
    requires i < |b|
    requires Value(ans) == Value(a) * Value(b[..i])
    requires |ans| <= |a| + i
    requires a == [] ==> ans == Zeros(if i == 0 then 0 else i - 1)
    requires Value(row) == b[i] * Value(a)
    requires |row| == |a| || (|row| == |a| + 1 && row[|a|] != 0)
    requires Canonical(a) && a != [] && b[i] != 0 ==> Canonical(row)
    requires Value(sum) == Value(ans) + Value(Zeros(i) + row)
    requires var m := Max(|ans|, |Zeros(i) + row|); |sum| == m || (|sum| == m + 1 && sum[m] == 1)
    requires Canonical(Zeros(i) + row) && |Zeros(i) + row| >= |ans| ==> Canonical(sum)
    ensures Value(sum) == Value(a) * Value(b[..i + 1])
    ensures |sum| <= |a| + i + 1
    ensures a == [] ==> sum == Zeros(i)
    ensures Canonical(a) && a != [] && Canonical(b) && i + 1 == |b| ==> Canonical(sum)
  {
    ValueShift(i, row);
    ValuePrefix(b, i);
    Distribute(Value(sum), Value(a), Value(b[..i]), Pow(i), b[i], Value(row));
    ValueBound(a);
    ValueBound(b[..i + 1]);
    MulRowLength(sum, Value(a), Value(b[..i + 1]), |a|, i + 1, Max(|ans|, i + |row|));
    if a == [] {
      MulRowZero(row, sum, i);
    }
    if Canonical(a) && a != [] && Canonical(b) && i + 1 == |b| {
      assert (Zeros(i) + row)[|Zeros(i) + row| - 1] == row[|row| - 1];
    }
  }

  lemma Distribute(s: int, a: int, vb: int, p: int, x: int, row: int)
    requires row == x * a && s == a * vb + p * row
    ensures s == a * (vb + p * x)
  {
    calc {
      s;
      a * vb + p * (x * a);
      a * vb + a * (p * x);
      a * (vb + p * x);
    }
  }

  /** The running product never needs more limbs than its two factors. */
  lemma MulRowLength(sum: seq<Limb>, va: nat, vb: nat, la: nat, lb: nat, m: nat)
    requires va < Pow(la) && vb < Pow(lb) && Value(sum) == va * vb
    requires |sum| == m || (|sum| == m + 1 && sum[m] == 1)
    requires m <= la + lb
    ensures |sum| <= la + lb
  {
    if |sum| == m + 1 {
      CanonicalByValue(sum);
      Below(va, vb, Pow(la), Pow(lb));
      PowAdd(la, lb);
    }
  }

  lemma Below(x: nat, y: nat, p: nat, q: nat)
    requires x < p && y < q
    ensures x * y < p * q
  {
    MulMonotone(y, x, p);
    MulMonotone(p, y, q);
  }

  /** With a left operand without limbs, every row is empty and the answer
      is `i` zero limbs. */
  lemma MulRowZero(row: seq<Limb>, sum: seq<Limb>, i: nat)
    requires Value(row) == 0
    requires |row| == 0 || (|row| == 1 && row[0] != 0)
    requires Value(sum) == 0
    requires |sum| == i || (|sum| == i + 1 && sum[i] == 1)
    ensures row == [] && sum == Zeros(i)
  {
    if |sum| == i + 1 {
      CanonicalByValue(sum);
    }
    ValueZero(sum);
  }

  /** `div_rem`: a divisor without limbs panics; a dividend smaller by
      `partial_cmp` is the remainder; otherwise long division in base 2. The
      source never returns for a divisor whose limbs are all zero (such as
      `BigUInt::from(0u64)`) unless the dividend is smaller, so that case is
      excluded. */
  method DivRem(a: BigUInt, b: BigUInt) returns (r: Result<(BigUInt, BigUInt), Panic>)
    requires b.inner == [] || Val(b) > 0 || Cmp(a, b) == Less
    ensures r.Failure? <==> b.inner == []
    ensures r.Failure? ==> r.error == DivisionByZero
    ensures b.inner != [] && Cmp(a, b) == Less ==> r == Success((Zero(), a))
    ensures r.Success? ==> Canonical(r.value.0.inner)
    ensures r.Success? && Canonical(a.inner) && Canonical(b.inner) ==>
      Val(a) == Val(r.value.0) * Val(b) + Val(r.value.1) && Val(r.value.1) < Val(b) &&
      Canonical(r.value.0.inner) && Canonical(r.value.1.inner)
  {
    if b.inner == [] {
      return Failure(DivisionByZero);
    } else if Cmp(a, b) == Less {
      LessIsNumeric(a, b);
      return Success((Zero(), a));
    }
    var q, m := LongDivision(a, b);
    return Success((q, m));
  }

  lemma LessIsNumeric(a: BigUInt, b: BigUInt)
    requires Cmp(a, b) == Less
    ensures Canonical(a.inner) && Canonical(b.inner) ==> Val(a) < Val(b)
  {
    CmpIsNumeric(a, b);
  }

  /** The long-division branch of `div_rem`: the divisor and a power-of-two
      `shift` double until the divisor passes the dividend, then halve back
      down, subtracting the divisor and adding `shift` to the quotient
      whenever the divisor does not exceed what is left. The quotient only
      ever adds the canonical `shift`, so it is canonical whatever the
      operands are; the division identity needs canonical operands. */
  method LongDivision(a: BigUInt, b: BigUInt) returns (ans: BigUInt, lhs: BigUInt)
    requires Val(b) > 0
    ensures Canonical(ans.inner)
    ensures Canonical(a.inner) && Canonical(b.inner) ==>
      Val(a) == Val(ans) * Val(b) + Val(lhs) && Val(lhs) < Val(b) &&
      Canonical(ans.inner) && Canonical(lhs.inner)
  {
    ghost var good := Canonical(a.inner) && Canonical(b.inner);
    lhs := a;
    var rhs := b;
    var shift := One();
    ans := Zero();
    ghost var k := 0;
    while Cmp(lhs, rhs) != Less
      invariant lhs == a && ans == Zero()
      invariant Val(shift) == Pow2(k) && Canonical(shift.inner)
      invariant Val(rhs) == Val(b) * Pow2(k)
      invariant good ==> Canonical(rhs.inner)
      decreases Pow(|a.inner|) - Val(rhs)
    {
      ValueBound(rhs.inner);
      PowMonotone(|rhs.inner|, |a.inner|);
      rhs := ShlOnce(rhs);
      shift := ShlOnce(shift);
      Doubled(Val(b), k);
      k := k + 1;
    }
    if good {
      LessIsNumeric(lhs, rhs);
    }
    ans, lhs := HalveDown(a, b, lhs, rhs, shift, k);
  }

  /** The second loop of `div_rem`: while something is left and `shift` is
      not zero, take the divisor off when it fits, then halve the divisor and
      `shift`. */
  method HalveDown(ghost a: BigUInt, b: BigUInt, lhs0: BigUInt, rhs0: BigUInt, shift0: BigUInt, ghost k0: nat)
    returns (ans: BigUInt, lhs: BigUInt)
    requires Canonical(shift0.inner) && Val(shift0) == Pow2(k0) && Val(rhs0) == Val(b) * Pow2(k0)
    requires Canonical(a.inner) && Canonical(b.inner) ==>
      lhs0 == a && Canonical(rhs0.inner) && Val(lhs0) < Val(rhs0)
    ensures Canonical(ans.inner)
    ensures Canonical(a.inner) && Canonical(b.inner) ==>
      Val(a) == Val(ans) * Val(b) + Val(lhs) && Val(lhs) < Val(b) &&
      Canonical(ans.inner) && Canonical(lhs.inner)
  {
    ghost var good := Canonical(a.inner) && Canonical(b.inner);
    lhs := lhs0;
    var rhs := rhs0;
    var shift := shift0;
    ans := Zero();
    ghost var k := k0;
    while lhs.inner != [] && shift.inner != []
      invariant Canonical(shift.inner) && Canonical(ans.inner)
      invariant shift.inner != [] ==> Val(shift) == Pow2(k) && Val(rhs) == Val(b) * Pow2(k)
      invariant good ==> Canonical(lhs.inner) && Canonical(rhs.inner) && Canonical(ans.inner)
      invariant good ==> Val(a) == Val(ans) * Val(b) + Val(lhs)
      invariant good && shift.inner != [] ==> Val(lhs) < 2 * Val(rhs)
      invariant good && shift.inner == [] ==> Val(lhs) < Val(b)
      decreases Val(shift)
    {
      lhs, ans := TakeOffIfFits(a, b, lhs, rhs, shift, ans);
      rhs := ShrOnce(rhs);
      shift := ShrOnce(shift);
      Halved(Val(b), k);
      if k > 0 {
        k := k - 1;
      } else {
        ZeroIsEmpty(shift.inner);
      }
    }
  }

  /** One round of `div_rem`'s halving loop: when the shifted divisor does
      not exceed what is left, subtract it and add `shift` to the quotient. */
  method TakeOffIfFits(ghost a: BigUInt, b: BigUInt, lhs0: BigUInt, rhs: BigUInt, shift: BigUInt, ans0: BigUInt)
    returns (lhs: BigUInt, ans: BigUInt)
    requires Canonical(shift.inner)
    requires Val(rhs) == Val(b) * Val(shift)
    requires Canonical(a.inner) && Canonical(b.inner) ==>
      Canonical(lhs0.inner) && Canonical(rhs.inner) && Canonical(ans0.inner) &&
      Val(a) == Val(ans0) * Val(b) + Val(lhs0) && Val(lhs0) < 2 * Val(rhs)
    ensures Canonical(ans0.inner) ==> Canonical(ans.inner)
    ensures Canonical(a.inner) && Canonical(b.inner) ==>
      Canonical(lhs.inner) && Canonical(ans.inner) &&
      Val(a) == Val(ans) * Val(b) + Val(lhs) && Val(lhs) < Val(rhs)
  {
    if Cmp(lhs0, rhs) != Less {
      NotLess(lhs0, rhs);
      lhs := Sub(lhs0, rhs);
      ans := Add(ans0, shift);
      if Canonical(a.inner) && Canonical(b.inner) {
        Subtracted(Val(a), Val(ans0), Val(b), Val(shift), Val(lhs0), Val(rhs), Val(lhs), Val(ans));
      }
    } else {
      LessIsNumeric(lhs0, rhs);
      lhs, ans := lhs0, ans0;
    }
  }

  lemma ZeroIsEmpty(s: seq<Limb>)
    requires Canonical(s) && Value(s) == 0
    ensures s == []
  {
    if s != [] {
      CanonicalByValue(s);
    }
  }

  lemma NotLess(a: BigUInt, b: BigUInt)
    requires Cmp(a, b) != Less
    ensures Canonical(a.inner) && Canonical(b.inner) ==> Val(a) >= Val(b)
  {
    CmpIsNumeric(a, b);
  }

  /** Doubling the divisor and `shift` keeps divisor = b * shift. */
  lemma Doubled(v: nat, k: nat)
    ensures v * Pow2(k + 1) == 2 * (v * Pow2(k))
    ensures v > 0 ==> v * Pow2(k) > 0
  {
    if v > 0 {
      MulMonotone(v, 1, Pow2(k));
    }
  }

  /** Halving the divisor and `shift` keeps divisor = b * shift while `shift`
      stays at least 1. */
  lemma Halved(v: nat, k: nat)
    ensures k == 0 ==> Pow2(k) / 2 == 0 && v * Pow2(k) == v
    ensures k > 0 ==> Pow2(k) / 2 == Pow2(k - 1) && (v * Pow2(k)) / 2 == v * Pow2(k - 1)
    ensures k > 0 ==> v * Pow2(k) == 2 * (v * Pow2(k - 1))
  {
    if k > 0 {
      Doubled(v, k - 1);
    }
  }

  /** One subtraction of the halving loop keeps dividend = quotient * divisor
      + remainder. */
  lemma Subtracted(a: int, q: int, b: int, s: int, l: int, r: int, diff: int, sum: int)
    requires a == q * b + l && r == b * s && l >= r
    requires diff == l - r && sum == q + s
    ensures a == sum * b + diff
  {
  }

  /** The division operator: the quotient of `div_rem`. */
  method Div(a: BigUInt, b: BigUInt) returns (r: Result<BigUInt, Panic>)
    requires b.inner == [] || Val(b) > 0 || Cmp(a, b) == Less
    ensures r.Failure? <==> b.inner == []
    ensures r.Failure? ==> r.error == DivisionByZero
    ensures b.inner != [] && Cmp(a, b) == Less ==> r == Success(Zero())
    ensures r.Success? ==> Canonical(r.value.inner)
    ensures r.Success? && Canonical(a.inner) && Canonical(b.inner) ==>
      Val(b) > 0 && Val(r.value) == Val(a) / Val(b) && Canonical(r.value.inner)
  {
    var qr := DivRem(a, b);
    if qr.Failure? {
      return Failure(qr.error);
    }
    if Canonical(a.inner) && Canonical(b.inner) {
      CanonicalByValue(b.inner);
      DivModUnique(Val(a), Val(b), Val(qr.value.0), Val(qr.value.1));
    }
    return Success(qr.value.0);
  }

  /** The remainder operator: the remainder of `div_rem`. */
  method Rem(a: BigUInt, b: BigUInt) returns (r: Result<BigUInt, Panic>)
    requires b.inner == [] || Val(b) > 0 || Cmp(a, b) == Less
    ensures r.Failure? <==> b.inner == []
    ensures r.Failure? ==> r.error == DivisionByZero
    ensures b.inner != [] && Cmp(a, b) == Less ==> r == Success(a)
    ensures r.Success? && Canonical(a.inner) && Canonical(b.inner) ==>
      Val(b) > 0 && Val(r.value) == Val(a) % Val(b) && Canonical(r.value.inner)
  {
    var qr := DivRem(a, b);
    if qr.Failure? {
      return Failure(qr.error);
    }
    if Canonical(a.inner) && Canonical(b.inner) {
      CanonicalByValue(b.inner);
      DivModUnique(Val(a), Val(b), Val(qr.value.0), Val(qr.value.1));
    }
    return Success(qr.value.1);
  }

  /** Euclidean division has one quotient and one remainder. */
  lemma DivModUnique(a: nat, b: nat, q: nat, m: nat)
    requires a == q * b + m && m < b
    ensures q == a / b && m == a % b
  {
    var q', m' := a / b, a % b;
    assert a == q' * b + m';
    Apart(b, q, q');
    Apart(b, q', q);
  }

  /** Distinct multiples of `b` are at least `b` apart. */
  lemma Apart(b: nat, x: nat, y: nat)
    ensures x < y ==> x * b + b <= y * b
  {
    if x < y {
      MulMonotone(b, x + 1, y);
    }
  }
}
