/** What the printers of numbers write, and what the parsers of numbers read, character by character. */
module Numerals {
  import opened Results
  import opened Bits
  import opened Text

  // ---------------------------------------------------------------- printing

  /** The shortest numeral for `n`: lower-case digits and no leading zero. */
  predicate IsNumeral(s: string, n: nat, b: Base) {
    && s != "" && AllDigitChars(s) && AllDigits(s, b) && DigitsValue(s, b) == Some(n)
    && (s[0] == '0' ==> s == "0")
  }

  /** Exactly `width` lower-case hexadecimal digits for `n`. */
  predicate HexOf(s: string, n: nat, width: nat) {
    |s| == width && AllDigitChars(s) && DigitsValue(s, Hex) == Some(n)
  }

  lemma {:induction false} FormatNatCanonical(n: nat, b: Base)
    ensures IsNumeral(FormatNat(n, b), n, b)
    decreases n
  {
    FormatNatDigits(n, b);
    FirstDigit(n, b);
  }

  lemma {:induction false} FirstDigit(n: nat, b: Base)
    ensures FormatNat(n, b)[0] == '0' ==> FormatNat(n, b) == "0"
  {
    if n >= b.Radix() {
      FirstDigit(Shift(n, b), b);
      FormatNatDigits(Shift(n, b), b);
      assert Shift(n, b) > 0;
    }
  }

  /** A decimal integer: a minus sign for a negative one, and the numeral of its magnitude. */
  lemma IntCanonical(n: int)
    ensures n >= 0 ==> IsNumeral(FormatInt(n), n, Dec)
    ensures n < 0 ==> FormatInt(n)[0] == '-' && IsNumeral(FormatInt(n)[1..], -n, Dec)
  {
    hide IsNumeral;
    if n < 0 {
      FormatNatCanonical(-n, Dec);
      assert FormatInt(n)[1..] == FormatNat(-n, Dec);
    } else {
      FormatNatCanonical(n, Dec);
    }
  }

  lemma {:induction false} HexLength(n: nat, width: nat)
    requires 0 < width && n < Pow2(4 * width)
    ensures |FormatNat(n, Hex)| <= width
    decreases width
  {
    assert Pow2(4) == 16;
    assert width == 1 ==> 4 * width == 4;
    if n >= 16 {
      assert Pow2(4 * width) == 16 * Pow2(4 * (width - 1)) by {
        PowStep(4 * (width - 1));
      }
      HexLength(n / 16, width - 1);
    }
  }

  lemma PowStep(k: nat)
    ensures Pow2(k + 4) == 16 * Pow2(k)
  {
    assert Pow2(k + 4) == 2 * Pow2(k + 3) && Pow2(k + 3) == 2 * Pow2(k + 2);
    assert Pow2(k + 2) == 2 * Pow2(k + 1) && Pow2(k + 1) == 2 * Pow2(k);
  }

  /** A number of at most `width` hexadecimal digits is padded to exactly `width`. */
  lemma HexPaddedExact(n: nat, width: nat)
    requires 0 < width && n < Pow2(4 * width)
    ensures HexOf(FormatHexPadded(n, width), n, width)
  {
    HexLength(n, width);
    FormatHexPaddedDigits(n, width);
  }

  lemma HexWidths()
    ensures Pow2(4 * 4) == 0x1_0000 && Pow2(4 * 8) == 0x1_0000_0000 && Pow2(4 * 16) == 0x1_0000_0000_0000_0000
  {
    Pow2Sixteen();
    Doubles(16, 16);
    Doubles(32, 32);
  }

  lemma {:induction false} Doubles(j: nat, k: nat)
    ensures Pow2(j + k) == Pow2(j) * Pow2(k)
    decreases k
  {
    if k > 0 {
      Doubles(j, k - 1);
      assert Pow2(j + k) == 2 * (Pow2(j) * Pow2(k - 1));
    }
  }

  /** Without padding the hexadecimal numeral is the shortest one. */
  lemma HexUnpadded(n: nat)
    ensures IsNumeral(FormatHexPadded(n, 0), n, Hex)
  {
    FormatNatCanonical(n, Hex);
  }

  // ---------------------------------------------------------------- parsing

  lemma {:induction false} ValueNeedsDigits(s: string, b: Base)
    ensures DigitsValue(s, b).Some? <==> AllDigits(s, b)
    decreases |s|
  {
    if s != [] {
      var front := s[..|s| - 1];
      ValueNeedsDigits(front, b);
      assert AllDigits(s, b) <==> AllDigits(front, b) && IsDigit(s[|s| - 1], b);
    }
  }

  /** The digits of a base, upper-case hexadecimal ones included. */
  lemma DigitsAre(c: char)
    ensures IsDigit(c, Oct) <==> '0' <= c <= '7'
    ensures IsDigit(c, Dec) <==> '0' <= c <= '9'
    ensures IsDigit(c, Hex) <==> '0' <= c <= '9' || 'a' <= c <= 'f' || 'A' <= c <= 'F'
    ensures 'a' <= c <= 'f' ==> DigitValue(c) == Some(10 + (c as int - 'a' as int))
    ensures 'A' <= c <= 'F' ==> DigitValue(c) == Some(10 + (c as int - 'A' as int))
  {
  }

  /** An unsigned number is read exactly from a non-empty text of digits whose value is below the limit. */
  lemma UintReads(s: string, b: Base, limit: nat)
    ensures AllDigits(s, b) <==> DigitsValue(s, b).Some?
    ensures ParseUint(s, b, limit).Ok? <==> s != "" && DigitsValue(s, b).Some? && DigitsValue(s, b).value < limit
    ensures ParseUint(s, b, limit).Ok? ==> DigitsValue(s, b) == Some(ParseUint(s, b, limit).value)
    ensures ParseUint(s, b, limit) == Err(Range) <==> s != "" && DigitsValue(s, b).Some? && DigitsValue(s, b).value >= limit
  {
    hide DigitsValue;
    ValueNeedsDigits(s, b);
  }

  /** A signed decimal number: digits, with at most one sign in front, within 64 bits. */
  lemma IntReads(d: string)
    requires d != "" && AllDigits(d, Dec) && DigitsValue(d, Dec).Some?
    ensures var n := DigitsValue(d, Dec).value;
            && ParseInt(d) == (if n < 0x8000_0000_0000_0000 then Ok(n) else Err(Range))
            && ParseInt("+" + d) == (if n < 0x8000_0000_0000_0000 then Ok(n) else Err(Range))
            && ParseInt("-" + d) == (if n <= 0x8000_0000_0000_0000 then Ok(0 - n) else Err(Range))
  {
    hide DigitsValue;
    assert ("+" + d)[1..] == d && ("-" + d)[1..] == d;
    assert IsDigit(d[0], Dec);
    UintReads(d, Dec, 0x8000_0000_0000_0000);
    UintReads(d, Dec, 0x8000_0000_0000_0001);
  }

  /** Nothing else is a signed decimal number. */
  lemma IntNeedsDigits(s: string)
    ensures var d := if s != "" && (s[0] == '-' || s[0] == '+') then s[1..] else s;
            ParseInt(s).Ok? ==> d != "" && AllDigits(d, Dec)
  {
    hide DigitsValue;
    var d := if s != "" && (s[0] == '-' || s[0] == '+') then s[1..] else s;
    UintReads(d, Dec, 0x8000_0000_0000_0000);
    UintReads(d, Dec, 0x8000_0000_0000_0001);
  }

  /** With base 0, a decimal, a hexadecimal and an octal numeral are read for what they are. */
  lemma PrefixedReads(n: uint64)
    ensures ParseUintPrefixed(FormatInt(n)) == Ok(n)
    ensures ParseUintPrefixed("0x" + FormatNat(n, Hex)) == Ok(n) && ParseUintPrefixed("0X" + FormatNat(n, Hex)) == Ok(n)
    ensures ParseUintPrefixed("0" + FormatNat(n, Oct)) == Ok(n)
  {
    hide DigitsValue, FormatNat, AllDigits;
    FormatNatDigits(n, Dec);
    FormatNatDigits(n, Hex);
    FormatNatDigits(n, Oct);
    var x, y, o := "0x" + FormatNat(n, Hex), "0X" + FormatNat(n, Hex), "0" + FormatNat(n, Oct);
    assert x[2..] == FormatNat(n, Hex) && y[2..] == FormatNat(n, Hex) && o[1..] == FormatNat(n, Oct);
    DecimalHasNoPrefix(n);
    OctalHasNoPrefix(n);
    FirstDigit(n, Dec);
  }

  lemma DecimalHasNoPrefix(n: nat)
    ensures !("0x" <= FormatNat(n, Dec)) && !("0X" <= FormatNat(n, Dec))
  {
    FirstDigit(n, Dec);
    PrefixedStart(FormatNat(n, Dec));
  }

  lemma PrefixedStart(s: string)
    ensures "0x" <= s || "0X" <= s ==> |s| >= 2 && s[0] == '0'
  {
  }

  lemma OctalHasNoPrefix(n: nat)
    ensures var s := "0" + FormatNat(n, Oct); !("0x" <= s) && !("0X" <= s) && |s| > 1
  {
    FormatNatDigits(n, Oct);
    var s := "0" + FormatNat(n, Oct);
    assert IsDigit(FormatNat(n, Oct)[0], Oct);
    assert s[1] == FormatNat(n, Oct)[0];
    assert "0x"[1] == 'x' && "0X"[1] == 'X';
  }

  // ---------------------------------------------------------------- white space

  /** The white space of ASCII: tab, newline, vertical tab, form feed, carriage return and space. */
  lemma SpacesAre(c: char)
    ensures IsSpace(c) <==> 9 <= c as int <= 13 || c as int == 32
  {
  }

  predicate AllSpaces(w: string) {
    forall i :: 0 <= i < |w| ==> IsSpace(w[i])
  }

  lemma {:induction false} TrimsLeft(w: string, t: string)
    requires AllSpaces(w) && (t == "" || !IsSpace(t[0]))
    ensures TrimLeft(w + t) == t
    decreases |w|
  {
    if w == [] {
      assert w + t == t;
    } else {
      assert (w + t)[0] == w[0] && (w + t)[1..] == w[1..] + t;
      TrimsLeft(w[1..], t);
    }
  }

  lemma {:induction false} TrimsRight(t: string, w: string)
    requires AllSpaces(w) && (t == "" || !IsSpace(t[|t| - 1]))
    ensures TrimRight(t + w) == t
    decreases |w|
  {
    var s := t + w;
    if w == [] {
      assert s == t;
    } else {
      assert s[|s| - 1] == w[|w| - 1] && s[..|s| - 1] == t + w[..|w| - 1];
      TrimsRight(t, w[..|w| - 1]);
    }
  }

  /** Trimming takes the white space off both ends, and nothing else. */
  lemma Trims(v: string, t: string, w: string)
    requires AllSpaces(v) && AllSpaces(w)
    requires t == "" || (!IsSpace(t[0]) && !IsSpace(t[|t| - 1]))
    ensures TrimSpace(v + t + w) == t
  {
    if t == "" {
      assert v + t + w == (v + w) + [];
      TrimsLeft(v + w, []);
    } else {
      assert v + t + w == v + (t + w);
      TrimsLeft(v, t + w);
      TrimsRight(t, w);
    }
  }

  // ---------------------------------------------------------------- case

  /** Changing the case of a letter changes nothing for `ToLower`, which leaves other characters alone. */
  lemma LowerIs(c: char)
    ensures 'A' <= c <= 'Z' ==> 'a' <= LowerChar(c) <= 'z' && LowerChar(c) as int - 'a' as int == c as int - 'A' as int
    ensures !('A' <= c <= 'Z') ==> LowerChar(c) == c
  {
  }
}
