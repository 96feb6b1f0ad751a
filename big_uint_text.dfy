/** `FromStr` and `Display` of `BigUInt`: parsing folds the characters into
    a `BigUInt` with the multiplication and addition operators, printing
    splits the number into base-10^18 chunks with the remainder and division
    operators. Both are specified by the pure decimal text of the value. */
module BigUIntText {
  import opened Wrappers
  import opened Limbs
  import opened BigUnsigned
  import opened Decimal

  /** `from_str`: the checks on the first character, then a fold over all
      characters that skips separators, multiplies by ten and adds each
      digit, and stops at the first other character. */
  method FromStr(s: string) returns (r: Result<BigUInt, ParseError>)
    ensures r.Success? <==> ParseSpec(s).Success?
    ensures r.Failure? ==> r.error == ParseSpec(s).error
    ensures r.Success? ==> Val(r.value) == ParseSpec(s).value && Canonical(r.value.inner)
  {
    if |s| == 0 {
      return Failure(Empty);
    }
    if s[0] == '0' {
      if |s| == 1 {
        return Success(Zero());
      }
      return Failure(LeadingZero);
    }
    if !IsDigit(s[0]) {
      return Failure(NotStartingWithDigit);
    }
    var a := Zero();
    var i := 0;
    while i < |s|
      invariant 0 <= i <= |s|
      invariant forall k :: 0 <= k < i ==> IsDigit(s[k]) || IsSeparator(s[k])
      invariant Val(a) == DigitsValue(s[..i]) && Canonical(a.inner)
      invariant i > 0 ==> Val(a) > 0
    {
      var c := s[i];
      assert s[..i + 1][..i] == s[..i];
      if IsSeparator(c) {
      } else if IsDigit(c) {
        var m := Mul(a, From(10));
        if i == 0 {
          ZeroIsEmpty(m.inner);
        }
        a := Add(m, From(DigitOf(c)));
      } else {
        return Failure(InvalidCharacter);
      }
      i := i + 1;
    }
    assert s[..i] == s;
    return Success(a);
  }

  /** `Display`: "0" for a number without limbs; otherwise the chunks
      `t % 10^18` are collected while `t / 10^18` still has limbs, then
      written from the most significant down, all but the first padded to 18
      digits. The single zero limb of `From(0)` prints as "0" too; other
      vectors with high zero limbs are ranked above 10^18 by `partial_cmp`
      whatever their value, and their text is not promised. */
  method ToString(x: BigUInt) returns (s: string)
    ensures Canonical(x.inner) || x.inner == [0] ==> s == DecimalString(Val(x))
  {
    if x.inner == [] {
      return "0";
    }
    var v := CollectChunks(x);
    s := [];
    var first := true;
    var j := |v|;
    while j > 0
      invariant 0 <= j <= |v|
      invariant first <==> j == |v|
      invariant first ==> s == []
      invariant !first ==> s == Render(v[j..])
    {
      j := j - 1;
      if first {
        assert v[j..] == [v[j]];
        s := s + DecimalString(v[j]);
      } else {
        assert v[j..][1..] == v[j + 1..];
        s := s + Padded(v[j], CHUNK_DIGITS);
      }
      first := false;
    }
  }

  /** The first loop of `Display`: the base-10^18 chunks of a number with
      limbs, least significant first. The loop ends on every vector: the
      first quotient is canonical, and from then on each quotient is
      smaller. */
  method CollectChunks(x: BigUInt) returns (v: seq<nat>)
    requires x.inner != []
    ensures v != []
    ensures Canonical(x.inner) || x.inner == [0] ==> Render(v) == DecimalString(Val(x))
  {
    var strMod := From(CHUNK);
    var t := x;
    v := [];
    while t.inner != []
      invariant v == [] ==> t == x
      invariant x.inner == [0] ==> (t == x && v == []) || (t.inner == [] && v == [0])
      invariant Canonical(x.inner) ==> Canonical(t.inner) && v + Chunks(Val(t)) == Chunks(Val(x))
      decreases if Canonical(t.inner) then 0 else 1, Val(t), |t.inner|
    {
      var a := Rem(t, strMod);
      var chunk: nat := if a.value.inner != [] then a.value.inner[0] else 0;
      var d := Div(t, strMod);
      if Canonical(t.inner) {
        ChunkStep(v, t, a.value, d.value, chunk);
      }
      v := v + [chunk];
      t := d.value;
    }
    if Canonical(x.inner) || x.inner == [0] {
      ChunksDone(x, v, t);
    }
  }

  /** When `t` has no limbs left, the chunks collected render the number. */
  lemma ChunksDone(x: BigUInt, v: seq<nat>, t: BigUInt)
    requires x.inner != [] && t.inner == [] && (Canonical(x.inner) || x.inner == [0])
    requires x.inner == [0] ==> v == [0]
    requires Canonical(x.inner) ==> v + Chunks(Val(t)) == Chunks(Val(x))
    ensures v != [] && Render(v) == DecimalString(Val(x))
  {
    if Canonical(x.inner) {
      Positive(x.inner);
      assert v + [] == v;
      RenderChunks(Val(x));
    } else {
      assert Val(x) == 0 by { ValueSingle(0); }
    }
  }

  /** One pass of the first loop of `Display` takes off the lowest chunk. */
  lemma ChunkStep(v: seq<nat>, t: BigUInt, a: BigUInt, d: BigUInt, chunk: nat)
    requires Canonical(t.inner) && t.inner != []
    requires Canonical(a.inner) && Val(a) == Val(t) % CHUNK
    requires Val(d) == Val(t) / CHUNK
    requires chunk == if a.inner != [] then a.inner[0] else 0
    ensures v + Chunks(Val(t)) == (v + [chunk]) + Chunks(Val(d))
    ensures Val(d) < Val(t)
  {
    Positive(t.inner);
    OneLimb(a.inner);
    assert Chunks(Val(t)) == [chunk] + Chunks(Val(d));
  }

  /** A canonical sequence with limbs has a positive value. */
  lemma Positive(s: seq<Limb>)
    requires Canonical(s) && s != []
    ensures Value(s) > 0
  {
    CanonicalByValue(s);
  }

  /** A canonical value below one limb's range has at most one limb, which is
      the value. */
  lemma OneLimb(s: seq<Limb>)
    requires Canonical(s) && Value(s) < BASE
    ensures s == [] || s == [Value(s) as Limb]
  {
    TwoLimbs(s);
    if |s| == 1 {
      ValueSingle(s[0]);
      assert s == [s[0]];
    }
  }

  /** Two or more limbs of a canonical sequence reach one limb's range. */
  lemma TwoLimbs(s: seq<Limb>)
    ensures Canonical(s) && |s| >= 2 ==> Value(s) >= BASE
  {
    if Canonical(s) && |s| >= 2 {
      CanonicalByValue(s);
      PowMonotone(1, |s| - 1);
      assert Pow(1) == BASE;
    }
  }

  /** Display and `from_str` are inverse: the printed text of a canonical
      number parses back to the number. */
  method PrintThenParse(x: BigUInt) returns (y: Result<BigUInt, ParseError>)
    requires Canonical(x.inner)
    ensures y == Success(x)
  {
    var s := ToString(x);
    y := FromStr(s);
    ParseDecimal(Val(x));
    CanonicalUnique(y.value.inner, x.inner);
  }

  /** `from_str` then `Display`: text that parses prints back without its
      separators, and text that does not parse keeps its error. */
  method ParseThenPrint(s: string) returns (t: Result<string, ParseError>)
    ensures t.Success? <==> ParseSpec(s).Success?
    ensures t.Failure? ==> t.error == ParseSpec(s).error
    ensures t.Success? ==> t.value == Strip(s)
  {
    var r := FromStr(s);
    if r.Failure? {
      return Failure(r.error);
    }
    var text := ToString(r.value);
    ParsedPrints(s);
    return Success(text);
  }
}
