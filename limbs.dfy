/** The representation of a big unsigned integer: a little-endian sequence of
    64-bit limbs, whose value is the sum of limb i times 2^(64 i). */
module Limbs {

  /** 2^64: one more than the largest limb (`u64::MAX + 1`). */
  const BASE: nat := 0x1_0000_0000_0000_0000
  /** 2^63: the weight of a limb's top bit. */
  const HALF: nat := 0x8000_0000_0000_0000

  type Limb = x: nat | x < BASE

  /** BASE^k */
  function Pow(k: nat): (p: nat)
    ensures p > 0
  {
    if k == 0 then 1 else BASE * Pow(k - 1)
  }

  /** 2^k */
  function Pow2(k: nat): (p: nat)
    ensures p > 0
  {
    if k == 0 then 1 else 2 * Pow2(k - 1)
  }

  /** The number a limb sequence stands for. */
  function Value(s: seq<Limb>): nat
  {
    if s == [] then 0 else s[0] + BASE * Value(s[1..])
  }

  /** No zero limb at the most significant end: the form in which derived
      equality and the length-first comparison agree with the numbers. */
  predicate Canonical(s: seq<Limb>)
  {
    s == [] || s[|s| - 1] != 0
  }

  function Zeros(n: nat): (z: seq<Limb>)
    ensures |z| == n && forall k :: 0 <= k < n ==> z[k] == 0
  {
    if n == 0 then [] else Zeros(n - 1) + [0]
  }

  lemma {:induction false} PowAdd(i: nat, j: nat)
    ensures Pow(i + j) == Pow(i) * Pow(j)
    decreases i
  {
    if i > 0 {
      PowAdd(i - 1, j);
      calc {
        Pow(i + j);
        BASE * Pow(i - 1 + j);
        BASE * (Pow(i - 1) * Pow(j));
        (BASE * Pow(i - 1)) * Pow(j);
      }
    }
  }

  lemma MulMonotone(p: nat, a: nat, b: nat)
    requires a <= b
    ensures p * a <= p * b
  {
  }

  lemma PowMonotone(i: nat, j: nat)
    requires i <= j
    ensures Pow(i) <= Pow(j)
  {
    PowAdd(i, j - i);
    assert Pow(j) == Pow(i) * Pow(j - i);
  }

  /** Splitting a limb sequence splits its value. */
  lemma {:induction false} ValueAppend(s: seq<Limb>, t: seq<Limb>)
    ensures Value(s + t) == Value(s) + Pow(|s|) * Value(t)
    decreases |s|
  {
    if s == [] {
      assert s + t == t;
    } else {
      assert (s + t)[1..] == s[1..] + t;
      ValueAppend(s[1..], t);
      ShiftWeight(s[0], Value(s[1..] + t), Value(s[1..]), Pow(|s| - 1), Value(t));
    }
  }

  lemma ShiftWeight(x: int, w: int, v: int, p: int, t: int)
    requires w == v + p * t
    ensures x + BASE * w == (x + BASE * v) + (BASE * p) * t
  {
    calc {
      x + BASE * w;
      x + BASE * (v + p * t);
      (x + BASE * v) + (BASE * p) * t;
    }
  }

  lemma ValueSingle(x: Limb)
    ensures Value([x]) == x
  {
    assert [x][1..] == [];
  }

  /** A limb pushed on top adds its weight. */
  lemma ValuePush(s: seq<Limb>, x: Limb)
    ensures Value(s + [x]) == Value(s) + Pow(|s|) * x
  {
    ValueAppend(s, [x]);
    ValueSingle(x);
  }

  /** The value of a prefix grows by one limb at a time. */
  lemma ValuePrefix(s: seq<Limb>, i: nat)
    requires i < |s|
    ensures Value(s[..i + 1]) == Value(s[..i]) + Pow(i) * s[i]
  {
    assert s[..i + 1] == s[..i] + [s[i]];
    ValuePush(s[..i], s[i]);
  }

  /** A sequence is its prefix followed by its suffix. */
  lemma ValueSplit(s: seq<Limb>, i: nat)
    requires i <= |s|
    ensures Value(s) == Value(s[..i]) + Pow(i) * Value(s[i..])
  {
    assert s == s[..i] + s[i..];
    ValueAppend(s[..i], s[i..]);
  }

  /** The top limb of two sequences of one length decides their order when it differs. */
  lemma TopLimbDecides(x: seq<Limb>, y: seq<Limb>)
    requires |x| == |y| > 0 && x[|x| - 1] < y[|y| - 1]
    ensures Value(x) < Value(y)
  {
    var n := |x| - 1;
    ValueSplit(x, n);
    ValueSplit(y, n);
    assert x[n..] == [x[n]] && y[n..] == [y[n]];
    ValueSingle(x[n]);
    ValueSingle(y[n]);
    ValueBound(x[..n]);
    MulMonotone(Pow(n), x[n] + 1, y[n]);
  }

  /** Equal top limbs leave the order to the limbs below. */
  lemma TopLimbEqual(x: seq<Limb>, y: seq<Limb>)
    requires |x| == |y| > 0 && x[|x| - 1] == y[|y| - 1]
    ensures Value(x) - Value(y) == Value(x[..|x| - 1]) - Value(y[..|y| - 1])
  {
    var n := |x| - 1;
    ValueSplit(x, n);
    ValueSplit(y, n);
    assert x[n..] == y[n..];
  }

  /** n limbs hold less than BASE^n. */
  lemma {:induction false} ValueBound(s: seq<Limb>)
    ensures Value(s) < Pow(|s|)
    decreases |s|
  {
    if s != [] {
      ValueBound(s[1..]);
      calc {
        Value(s);
        s[0] + BASE * Value(s[1..]);
      <= BASE - 1 + BASE * (Pow(|s| - 1) - 1);
        BASE * Pow(|s| - 1) - 1;
      < Pow(|s|);
      }
    }
  }

  /** A zero limb on top does not change the value. */
  lemma DropTopZero(s: seq<Limb>)
    requires s != [] && s[|s| - 1] == 0
    ensures Value(s[..|s| - 1]) == Value(s)
  {
    ValueSplit(s, |s| - 1);
    assert s[|s| - 1..] == [0];
    ValueSingle(0);
  }

  /** A non-empty sequence is canonical exactly when its value needs all its limbs. */
  lemma CanonicalByValue(s: seq<Limb>)
    requires s != []
    ensures Canonical(s) <==> Value(s) >= Pow(|s| - 1)
  {
    var n := |s| - 1;
    TopLimb(s);
    ValueBound(s[..n]);
    LeadingDigit(Value(s), Value(s[..n]), Pow(n), s[n]);
  }

  /** The value of a non-empty sequence is that of all limbs below the top
      one plus the top limb's weight. */
  lemma TopLimb(s: seq<Limb>)
    requires s != []
    ensures Value(s) == Value(s[..|s| - 1]) + Pow(|s| - 1) * s[|s| - 1]
  {
    var n := |s| - 1;
    assert s == s[..n] + [s[n]];
    ValuePush(s[..n], s[n]);
  }

  /** In a positional number whose lower digits stay below the weight `p`, the
      leading digit is not zero exactly when the number reaches `p`. */
  lemma LeadingDigit(v: int, low: int, p: int, d: int)
    requires 0 <= low < p && 0 <= d && v == low + p * d
    ensures d != 0 <==> v >= p
  {
    if d != 0 {
      MulMonotone(p, 1, d);
    }
  }

  /** Only zero limbs add up to zero. */
  lemma {:induction false} ValueZero(s: seq<Limb>)
    ensures Value(s) == 0 <==> s == Zeros(|s|)
    decreases |s|
  {
    if s != [] {
      ValueZero(s[1..]);
      var z := Zeros(|s|);
      assert z == [0] + Zeros(|s| - 1);
      if s == z {
        assert s[1..] == Zeros(|s| - 1);
      }
    }
  }

  /** Zero limbs in front multiply the value by a power of the base. */
  lemma ValueShift(i: nat, s: seq<Limb>)
    ensures Value(Zeros(i) + s) == Pow(i) * Value(s)
  {
    ValueAppend(Zeros(i), s);
    ValueZero(Zeros(i));
  }

  /** Two canonical sequences with the same value are the same sequence. */
  lemma {:induction false} CanonicalUnique(s: seq<Limb>, t: seq<Limb>)
    requires Canonical(s) && Canonical(t) && Value(s) == Value(t)
    ensures s == t
    decreases |s|
  {
    if s == [] || t == [] {
      if s != [] { CanonicalByValue(s); }
      if t != [] { CanonicalByValue(t); }
    } else {
      assert s[0] == Value(s) % BASE && t[0] == Value(t) % BASE;
      assert Value(s[1..]) == Value(t[1..]);
      assert Canonical(s[1..]) && Canonical(t[1..]);
      CanonicalUnique(s[1..], t[1..]);
      assert s == [s[0]] + s[1..] && t == [t[0]] + t[1..];
    }
  }
}
