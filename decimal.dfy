/** Decimal text of natural numbers: the strings `BigUInt` prints and parses,
    independent of the limb representation. */
module Decimal {
  import opened Wrappers

  /** Display prints base-10^18 chunks; every chunk but the first is padded
      to this many digits. */
  const CHUNK_DIGITS: nat := 18
  const CHUNK: nat := 1_000_000_000_000_000_000

  /** The ways `from_str` rejects a string. */
  datatype ParseError = Empty | NotStartingWithDigit | LeadingZero | InvalidCharacter

  predicate IsDigit(c: char)
  {
    '0' <= c <= '9'
  }

  /** `_` and `,` may appear anywhere after the first character and are skipped. */
  predicate IsSeparator(c: char)
  {
    c == '_' || c == ','
  }

  function DigitChar(d: nat): (c: char)
    requires d < 10
    ensures IsDigit(c) && !IsSeparator(c)
  {
    (48 + d) as char
  }

  function DigitOf(c: char): (d: nat)
    requires IsDigit(c)
    ensures d < 10 && DigitChar(d) == c
  {
    (c as int - 48) as nat
  }

  function Pow10(k: nat): (p: nat)
    ensures p > 0
  {
    if k == 0 then 1 else 10 * Pow10(k - 1)
  }

  /** The usual decimal text of `n`: no sign, no leading zero, "0" for zero. */
  function DecimalString(n: nat): (s: string)
    ensures s != [] && forall i :: 0 <= i < |s| ==> IsDigit(s[i])
    decreases n
  {
    if n < 10 then [DigitChar(n)] else DecimalString(n / 10) + [DigitChar(n % 10)]
  }

  /** The low `w` decimal digits of `n`, zero-padded to width `w` (`{:0w}`). */
  function Padded(n: nat, w: nat): (s: string)
    ensures |s| == w
  {
    if w == 0 then [] else Padded(n / 10, w - 1) + [DigitChar(n % 10)]
  }

  /** The accumulator of the `try_fold` of `from_str` after reading `s`: a
      digit multiplies by ten and adds itself, a separator leaves it alone. */
  function DigitsValue(s: string): nat
    requires forall i :: 0 <= i < |s| ==> IsDigit(s[i]) || IsSeparator(s[i])
  {
    if s == [] then 0
    else if IsSeparator(s[|s| - 1]) then DigitsValue(s[..|s| - 1])
    else DigitsValue(s[..|s| - 1]) * 10 + DigitOf(s[|s| - 1])
  }

  /** `from_str` on values: the empty string, a leading `0` followed by
      anything, a first character that is no digit, and any character that is
      neither digit nor separator are errors, tried in that order. */
  function ParseSpec(s: string): Result<nat, ParseError>
  {
    if s == [] then Failure(Empty)
    else if s[0] == '0' then (if |s| == 1 then Success(0) else Failure(LeadingZero))
    else if !IsDigit(s[0]) then Failure(NotStartingWithDigit)
    else if exists i :: 0 <= i < |s| && !IsDigit(s[i]) && !IsSeparator(s[i]) then Failure(InvalidCharacter)
    else Success(DigitsValue(s))
  }

  /** `s` with every separator removed. */
  function Strip(s: string): (t: string)
    ensures |t| <= |s|
    ensures forall i :: 0 <= i < |t| ==> !IsSeparator(t[i])
  {
    if s == [] then []
    else if IsSeparator(s[|s| - 1]) then Strip(s[..|s| - 1])
    else Strip(s[..|s| - 1]) + [s[|s| - 1]]
  }

  /** Decimal text uses only digits, never starts with `0` unless it is "0",
      and is as long as the number needs. */
  lemma {:induction false} DecimalStringShape(n: nat)
    ensures var s := DecimalString(n);
      (s[0] == '0' <==> n == 0) && (|s| == 1 <==> n < 10)
    decreases n
  {
    if n >= 10 {
      DecimalStringShape(n / 10);
    }
  }

  /** Reading decimal text back gives the number. */
  lemma {:induction false} DigitsOfDecimal(n: nat)
    ensures DigitsValue(DecimalString(n)) == n
    decreases n
  {
    var s := DecimalString(n);
    if n >= 10 {
      DigitsOfDecimal(n / 10);
      assert s[..|s| - 1] == DecimalString(n / 10);
    }
  }

  /** Round trip: parsing the decimal text of `n` gives `n`. */
  lemma ParseDecimal(n: nat)
    ensures ParseSpec(DecimalString(n)) == Success(n)
  {
    DecimalStringShape(n);
    DigitsOfDecimal(n);
  }

  /** The other round trip: a string of digits without a superfluous leading
      zero parses to a number whose decimal text is that string. */
  lemma {:induction false} DecimalOfDigits(s: string)
    requires s != [] && forall i :: 0 <= i < |s| ==> IsDigit(s[i])
    requires s[0] != '0' || |s| == 1
    ensures ParseSpec(s).Success? && DecimalString(ParseSpec(s).value) == s
    decreases |s|
  {
    if |s| > 1 {
      var init := s[..|s| - 1];
      DecimalOfDigits(init);
      DigitsPositive(init);
      assert DigitsValue(s) == DigitsValue(init) * 10 + DigitOf(s[|s| - 1]);
    }
  }

  /** Digits that start with a non-zero digit have a positive value. */
  lemma {:induction false} DigitsPositive(s: string)
    requires s != [] && forall i :: 0 <= i < |s| ==> IsDigit(s[i]) || IsSeparator(s[i])
    requires s[0] != '0' && IsDigit(s[0])
    ensures DigitsValue(s) > 0
    decreases |s|
  {
    if |s| > 1 {
      DigitsPositive(s[..|s| - 1]);
    }
  }

  /** Separators after a non-zero first digit do not change what is parsed. */
  lemma {:induction false} SeparatorsIgnored(s: string)
    requires s != [] && IsDigit(s[0]) && s[0] != '0'
    ensures Strip(s) != [] && Strip(s)[0] == s[0]
    ensures ParseSpec(Strip(s)) == ParseSpec(s)
  {
    StripPrefix(s);
    if forall i :: 0 <= i < |s| ==> IsDigit(s[i]) || IsSeparator(s[i]) {
      StripKeepsDigits(s);
    } else {
      var i :| 0 <= i < |s| && !IsDigit(s[i]) && !IsSeparator(s[i]);
      StripKeepsOther(s, i);
    }
  }

  /** Parsed text printed in decimal is the text without its separators. */
  lemma ParsedPrints(s: string)
    ensures ParseSpec(s).Success? ==> DecimalString(ParseSpec(s).value) == Strip(s)
  {
    if ParseSpec(s).Success? && s[0] != '0' {
      SeparatorsIgnored(s);
      StripKeepsDigits(s);
      DecimalOfDigits(Strip(s));
    }
  }

  /** Stripping works piece by piece. */
  lemma {:induction false} StripAppend(s: string, t: string)
    ensures Strip(s + t) == Strip(s) + Strip(t)
    decreases |t|
  {
    if t != [] {
      var t', u := t[..|t| - 1], s + t;
      assert u[..|u| - 1] == s + t' && u[|u| - 1] == t[|t| - 1];
      StripAppend(s, t');
      if IsSeparator(t[|t| - 1]) {
        assert Strip(u) == Strip(s + t') && Strip(t) == Strip(t');
      } else {
        assert Strip(u) == Strip(s + t') + [t[|t| - 1]] && Strip(t) == Strip(t') + [t[|t| - 1]];
        assert Strip(s) + Strip(t') + [t[|t| - 1]] == Strip(s) + (Strip(t') + [t[|t| - 1]]);
      }
    } else {
      assert s + t == s;
    }
  }

  /** A comma group loses its comma. */
  lemma StripGroup(t: string)
    ensures Strip(t + ",000") == Strip(t) + "000"
  {
    var a, b, c, g := ",", ",0", ",00", ",000";
    assert a[..0] == [] && b[..1] == a && c[..2] == b && g[..3] == c;
    assert Strip(a) == [];
    assert Strip(b) == "0";
    assert Strip(c) == "00";
    StripAppend(t, g);
  }

  /** "1" followed by `k` comma groups of three zeros. */
  function Grouped(k: nat): string
  {
    if k == 0 then "1" else Grouped(k - 1) + ",000"
  }

  /** "1" followed by `3k` zeros. */
  function Plain(k: nat): string
  {
    if k == 0 then "1" else Plain(k - 1) + "000"
  }

  lemma {:induction false} GroupedStrip(k: nat)
    ensures Strip(Grouped(k)) == Plain(k)
  {
    if k == 0 {
      assert "1"[..0] == [];
    } else {
      GroupedStrip(k - 1);
      StripGroup(Grouped(k - 1));
    }
  }

  /** The round trip of the exercise's `string_test`: the grouped text of
      10^24 prints without its commas. */
  lemma GroupedTextPrints()
    ensures ParseSpec("1,000,000,000,000,000,000,000,000").Success?
    ensures DecimalString(ParseSpec("1,000,000,000,000,000,000,000,000").value)
         == "1000000000000000000000000"
  {
    GroupedEight();
    ParsedPrints("1,000,000,000,000,000,000,000,000");
  }

  lemma GroupedEight()
    ensures Strip("1,000,000,000,000,000,000,000,000") == "1000000000000000000000000"
  {
    GroupedStrip(8);
    GroupedText();
    PlainText();
  }

  lemma GroupedText()
    ensures Grouped(8) == "1,000,000,000,000,000,000,000,000"
  {
  }

  lemma PlainText()
    ensures Plain(8) == "1000000000000000000000000"
  {
  }

  /** Stripping keeps a first character that is not a separator. */
  lemma {:induction false} StripPrefix(s: string)
    requires s != [] && !IsSeparator(s[0])
    ensures Strip(s) != [] && Strip(s)[0] == s[0]
    decreases |s|
  {
    if |s| > 1 {
      StripPrefix(s[..|s| - 1]);
    }
  }

  /** On digits and separators, stripping keeps the accumulated value and
      leaves only digits. */
  lemma {:induction false} StripKeepsDigits(s: string)
    requires forall i :: 0 <= i < |s| ==> IsDigit(s[i]) || IsSeparator(s[i])
    ensures forall i :: 0 <= i < |Strip(s)| ==> IsDigit(Strip(s)[i])
    ensures DigitsValue(Strip(s)) == DigitsValue(s)
    decreases |s|
  {
    if s != [] {
      var init := s[..|s| - 1];
      StripKeepsDigits(init);
      if !IsSeparator(s[|s| - 1]) {
        var t := Strip(init) + [s[|s| - 1]];
        assert t[..|t| - 1] == Strip(init);
      }
    }
  }

  /** Stripping keeps every character that is neither digit nor separator. */
  lemma {:induction false} StripKeepsOther(s: string, i: nat)
    requires i < |s| && !IsDigit(s[i]) && !IsSeparator(s[i])
    ensures exists j :: 0 <= j < |Strip(s)| && Strip(s)[j] == s[i]
    decreases |s|
  {
    if i < |s| - 1 {
      StripKeepsOther(s[..|s| - 1], i);
      var j :| 0 <= j < |Strip(s[..|s| - 1])| && Strip(s[..|s| - 1])[j] == s[i];
      assert Strip(s)[j] == s[i];
    } else {
      assert Strip(s)[|Strip(s)| - 1] == s[i];
    }
  }

  /** Display's chunks: the base-10^18 digits of `n`, least significant first. */
  function Chunks(n: nat): (c: seq<nat>)
    ensures forall i :: 0 <= i < |c| ==> c[i] < CHUNK
    ensures n > 0 ==> c != [] && c[|c| - 1] > 0
    decreases n
  {
    if n == 0 then [] else [n % CHUNK] + Chunks(n / CHUNK)
  }

  /** The text Display writes for non-empty chunks: the most significant
      chunk unpadded, every lower one padded to 18 digits. */
  function Render(c: seq<nat>): string
    requires c != []
  {
    if |c| == 1 then DecimalString(c[0]) else Render(c[1..]) + Padded(c[0], CHUNK_DIGITS)
  }

  /** Appending a zero-padded block of `w` digits multiplies by 10^w and adds
      the block. */
  lemma {:induction false} AppendPadded(n: nat, c: nat, w: nat)
    requires n > 0 && c < Pow10(w)
    ensures DecimalString(n * Pow10(w) + c) == DecimalString(n) + Padded(c, w)
    decreases w
  {
    if w > 0 {
      var m := n * Pow10(w) + c;
      ShiftDigit(n, c, Pow10(w - 1));
      AppendPadded(n, c / 10, w - 1);
      calc {
        DecimalString(m);
        DecimalString(m / 10) + [DigitChar(m % 10)];
        DecimalString(n) + Padded(c / 10, w - 1) + [DigitChar(c % 10)];
        DecimalString(n) + Padded(c, w);
      }
    }
  }

  /** Dropping the last decimal digit of n * 10p + c. */
  lemma ShiftDigit(n: nat, c: nat, p: nat)
    requires n > 0 && p > 0 && c < 10 * p
    ensures var m := n * (10 * p) + c;
      m >= 10 && m / 10 == n * p + c / 10 && m % 10 == c % 10 && c / 10 < p
  {
    var m := n * (10 * p) + c;
    assert m == (n * p) * 10 + c;
    assert n * p >= 1 by { MulAtLeast(n, p); }
  }

  lemma MulAtLeast(n: nat, p: nat)
    requires n > 0 && p > 0
    ensures n * p >= 1
  {
  }

  /** Display's chunk text is the decimal text of the number. */
  lemma {:induction false} RenderChunks(n: nat)
    requires n > 0
    ensures Render(Chunks(n)) == DecimalString(n)
    decreases n
  {
    var q, r := n / CHUNK, n % CHUNK;
    var c := Chunks(n);
    assert c[1..] == Chunks(q);
    if q > 0 {
      RenderChunks(q);
      ChunkWidth();
      AppendPadded(q, r, CHUNK_DIGITS);
      assert n == q * Pow10(CHUNK_DIGITS) + r;
    }
  }

  lemma ChunkWidth()
    ensures Pow10(CHUNK_DIGITS) == CHUNK
  {
    assert Pow10(6) == 1_000_000;
    assert Pow10(12) == 1_000_000_000_000;
  }

  /** Texts the parser tests rely on. */
  lemma TestedText()
    ensures DecimalString(0) == "0" && DecimalString(1) == "1"
    ensures ParseSpec("1,0_0") == Success(100)
    ensures ParseSpec("00") == Failure(LeadingZero)
    ensures ParseSpec("_1") == Failure(NotStartingWithDigit)
    ensures ParseSpec("1a") == Failure(InvalidCharacter)
    ensures ParseSpec("") == Failure(Empty)
  {
    assert !IsDigit("1a"[1]) && !IsSeparator("1a"[1]);
    var s := "1,0_0";
    assert forall i :: 0 <= i < |s| ==> IsDigit(s[i]) || IsSeparator(s[i]);
    assert s[..4] == "1,0_" && s[..3] == "1,0" && s[..2] == "1," && s[..1] == "1";
    assert DigitsValue("1") == 1 && DigitsValue("1,") == 1;
    assert DigitsValue("1,0") == 10;
    assert "1,0_"[..3] == "1,0" && IsSeparator("1,0_"[3]);
    assert DigitsValue("1,0_") == 10;
    assert s[..4] == "1,0_" && !IsSeparator(s[4]);
  }
}
