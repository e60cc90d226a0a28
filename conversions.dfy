/**
 * The base conversions: the positional-sum loops of `parseDecString` and
 * `binaryToDecimal`, the shift-right loop of `decimalToBinary`, the
 * digit-wise `hexToBinary` and `binaryToHex`, and their compositions
 * `hexToDecimal` and `decimalToHex`. Each method is proved to compute a
 * specification function, and the lemmas below say what those functions mean.
 */
module Conversions {
  import opened Numerals
  import opened Codec
  import opened TwosComplement

  /** What `hexToBinary` returns: the nibbles of the digits in order; an invalid digit contributes "". */
  function HexBits(h: string): (r: string)
  {
    if h == [] then [] else HexBits(h[..|h| - 1]) + HexDigitToBinary(h[|h| - 1])
  }

  /** What the nibble loop of `binaryToHex` returns for a string of whole nibbles. */
  function HexOfNibbles(p: string): (r: string)
    requires |p| % 4 == 0
    ensures |r| == |p| / 4
  {
    if p == [] then [] else HexOfNibbles(p[..|p| - 4]) + [BinaryNibbleToHex(p[|p| - 4..])]
  }

  /** `parseDecString`: sums digit * 10^(position from the right) from left to right. */
  method ParseDecString(s: string) returns (r: int)
    ensures r == Positional(s, 10)
  {
    var length := |s|;
    r := 0;
    var i := 0;
    while i < length
      invariant 0 <= i <= length
      invariant r == Positional(s[..i], 10) * Pow(10, length - i)
    {
      var digit := DigitValue(s[i]);
      var t := Pow(10, (length - 1) - i);
      t := t * digit;
      assert s[..i + 1][..i] == s[..i];
      ghost var p := Positional(s[..i], 10);
      ghost var w := Pow(10, (length - 1) - i);
      assert p * (10 * w) + digit * w == (p * 10 + digit) * w;
      r := r + t;
      i := i + 1;
    }
    assert s[..length] == s;
  }

  /** `binaryToDecimal`: sums digit * 2^(position from the right) from right to left, then prints the sum. */
  method BinaryToDecimal(s: string) returns (r: string)
    ensures r == IntToDecimal(Positional(s, 2))
  {
    var length := |s|;
    var result := 0;
    var i := length - 1;
    while i >= 0
      invariant -1 <= i < length
      invariant result == Positional(s[i + 1..], 2)
    {
      var t := 1;
      var digit := DigitValue(s[i]);
      t := t * Pow(2, (length - 1) - i);
      t := t * digit;
      SuffixValue(s, i, 2);
      result := result + t;
      i := i - 1;
    }
    r := IntToDecimal(result);
  }

  /** Extending a suffix by one digit on the left adds that digit at its weight. */
  lemma SuffixValue(s: string, i: nat, b: int)
    requires i < |s|
    ensures Positional(s[i..], b) == Pow(b, |s| - 1 - i) * DigitValue(s[i]) + Positional(s[i + 1..], b)
  {
    assert s[i..] == [s[i]] + s[i + 1..];
    assert [s[i]][..0] == [];
    PositionalAppend([s[i]], s[i + 1..], b);
  }

  /**
   * `decimalToBinary`: parses, then collects remainders mod 2 while shifting
   * right. A negative parse (a character below '0' in the input) never
   * reaches zero under the arithmetic shift, so the source does not return;
   * that is the requires.
   */
  method DecimalToBinary(s: string) returns (r: string)
    requires Positional(s, 10) >= 0
    ensures r == NatToBinary(Positional(s, 10))
  {
    var binary := "";
    var n := ParseDecString(s);
    var remainder := n;
    if n == 0 {
      binary := binary + "0";
    }
    while remainder != 0
      invariant 0 <= remainder <= n
      invariant n > 0 ==> Bits(n) == Bits(remainder) + binary
      invariant n == 0 ==> binary == "0"
      decreases remainder
    {
      if remainder % 2 == 0 {
        binary := "0" + binary;
      } else {
        binary := "1" + binary;
      }
      assert Bits(remainder) == Bits(remainder / 2) + [if remainder % 2 == 0 then '0' else '1'];
      remainder := remainder / 2;
    }
    r := binary;
  }

  /** `hexToBinary`: appends each digit's nibble. */
  method HexToBinary(s: string) returns (r: string)
    ensures r == HexBits(s)
  {
    var binary := "";
    var i := 0;
    while i < |s|
      invariant 0 <= i <= |s|
      invariant binary == HexBits(s[..i])
    {
      assert s[..i + 1][..i] == s[..i];
      binary := binary + HexDigitToBinary(s[i]);
      i := i + 1;
    }
    assert s[..|s|] == s;
    r := binary;
  }

  /** `binaryToHex`: pads to whole nibbles, then maps each nibble to a digit from the left. */
  method BinaryToHex(s: string, signed: bool) returns (r: string)
    ensures r == HexOfNibbles(Padded(s, signed))
  {
    var hex := "";
    var p := BinaryPadding(s, signed);
    var i := 0;
    while i <= |p| - 4
      invariant 0 <= i <= |p| && i % 4 == 0
      invariant hex == HexOfNibbles(p[..i])
    {
      assert p[..i + 4] == p[..i] + p[i..i + 4];
      HexOfNibblesSnoc(p[..i], p[i..i + 4]);
      hex := hex + [BinaryNibbleToHex(p[i..i + 4])];
      i := i + 4;
    }
    assert p[..|p|] == p;
    r := hex;
  }

  /** `hexToDecimal`: hex to binary, then binary to decimal. */
  method HexToDecimal(s: string) returns (r: string)
    ensures r == IntToDecimal(Positional(HexBits(s), 2))
    ensures IsHexString(s) ==> r == NatToDecimal(HexNumber(s))
  {
    var b := HexToBinary(s);
    r := BinaryToDecimal(b);
    if IsHexString(s) {
      HexBitsValue(s);
    }
  }

  /**
   * `decimalToHex`: decimal to binary, then binary to hex. Unsigned, the
   * digits denote the parsed number; in signed mode the leading '1' of the
   * binary string is what the padding repeats.
   */
  method DecimalToHex(s: string, signed: bool) returns (r: string)
    requires Positional(s, 10) >= 0
    ensures r == HexOfNibbles(Padded(NatToBinary(Positional(s, 10)), signed))
    ensures !signed ==> IsHexString(r) && HexNumber(r) == Positional(s, 10)
  {
    var b := DecimalToBinary(s);
    r := BinaryToHex(b, signed);
    NatToBinaryValue(Positional(s, 10));
    ZeroFillPreservesValue(b);
    HexOfNibblesValue(Padded(b, false));
  }

  /** An invalid digit contributes nothing; concatenation is preserved. */
  lemma {:induction false} HexBitsAppend(x: string, y: string)
    ensures HexBits(x + y) == HexBits(x) + HexBits(y)
  {
    if y != [] {
      var y' := y[..|y| - 1];
      assert (x + y)[..|x + y| - 1] == x + y';
      HexBitsAppend(x, y');
    } else {
      assert x + y == x;
    }
  }

  /** A digit that is not a hex digit contributes "" where a nibble would stand. */
  lemma InvalidDigitSkipped(x: string, c: char, y: string)
    requires !IsHexDigit(c)
    ensures HexBits(x + [c] + y) == HexBits(x) + HexBits(y)
  {
    HexDigitNibble(c);
    HexBitsAppend(x + [c], y);
    assert (x + [c])[..|x|] == x;
  }

  /** For valid digits: four bits per digit, and the bits denote the hex number. */
  lemma {:induction false} HexBitsValue(h: string)
    requires IsHexString(h)
    ensures |HexBits(h)| == 4 * |h| && IsBinary(HexBits(h))
    ensures Positional(HexBits(h), 2) == HexNumber(h)
  {
    if h != [] {
      var p := h[..|h| - 1];
      HexBitsValue(p);
      HexDigitNibble(h[|h| - 1]);
      PositionalAppend(HexBits(p), HexDigitToBinary(h[|h| - 1]), 2);
      assert Pow(2, 4) == 16;
    }
  }

  /** For valid digits, the i-th block of four bits is the i-th digit's nibble. */
  lemma HexBitsBlock(h: string, i: nat)
    requires IsHexString(h) && i < |h|
    ensures |HexBits(h)| == 4 * |h|
    ensures HexBits(h)[4 * i..4 * i + 4] == HexDigitToBinary(h[i])
  {
    var x, c, y := h[..i], h[i], h[i + 1..];
    assert h == x + [c] + y;
    assert [c][..0] == [];
    HexBitsAppend(x + [c], y);
    HexBitsAppend(x, [c]);
    assert IsHexString(x) by {
      assert forall k :: 0 <= k < |x| ==> x[k] == h[k];
    }
    HexBitsValue(x);
    HexBitsValue(h);
    HexDigitNibble(c);
    var bx, nib := HexBits(x), HexDigitToBinary(c);
    assert HexBits(h) == bx + nib + HexBits(y);
    assert (bx + nib + HexBits(y))[|bx|..|bx| + 4] == nib;
  }

  /** For whole binary nibbles: upper-case hex digits, one per nibble, denoting the same number. */
  lemma {:induction false} HexOfNibblesValue(p: string)
    requires IsBinary(p) && |p| % 4 == 0
    ensures IsHexString(HexOfNibbles(p))
    ensures forall i :: 0 <= i < |HexOfNibbles(p)| ==> IsUpperHexDigit(HexOfNibbles(p)[i])
    ensures HexNumber(HexOfNibbles(p)) == Positional(p, 2)
  {
    if p != [] {
      var q, nib := p[..|p| - 4], p[|p| - 4..];
      assert p == q + nib;
      HexOfNibblesValue(q);
      HexOfNibblesSnoc(q, nib);
      var r := HexOfNibbles(p);
      assert r[..|r| - 1] == HexOfNibbles(q);
      NibbleDigit(nib);
      PositionalAppend(q, nib, 2);
      assert Pow(2, 4) == 16;
    }
  }

  /** Appending a whole nibble appends its digit. */
  lemma HexOfNibblesSnoc(q: string, nib: string)
    requires |q| % 4 == 0 && |nib| == 4
    ensures HexOfNibbles(q + nib) == HexOfNibbles(q) + [BinaryNibbleToHex(nib)]
  {
    var p := q + nib;
    assert p[..|p| - 4] == q;
    assert p[|p| - 4..] == nib;
  }

  /** Upper-casing one more character appends its upper case. */
  lemma UpperCaseSnoc(h: string)
    requires h != []
    ensures UpperCase(h) == UpperCase(h[..|h| - 1]) + [ToUpper(h[|h| - 1])]
  {
    var p := h[..|h| - 1];
    assert forall k :: 0 <= k < |p| ==> UpperCase(h)[k] == UpperCase(p)[k];
  }

  /** hex -> binary -> hex gives the digits back, upper-cased. */
  lemma {:induction false} HexRoundTrip(h: string)
    requires IsHexString(h)
    ensures |HexBits(h)| % 4 == 0
    ensures HexOfNibbles(HexBits(h)) == UpperCase(h)
  {
    HexBitsValue(h);
    if h != [] {
      var p := h[..|h| - 1];
      var c := h[|h| - 1];
      HexRoundTrip(p);
      HexBitsValue(p);
      HexDigitNibble(c);
      HexOfNibblesSnoc(HexBits(p), HexDigitToBinary(c));
      DigitRoundTrip(c);
      UpperCaseSnoc(h);
    }
  }

  /** binary -> hex -> binary gives the bits back, for whole nibbles. */
  lemma {:induction false} NibblesRoundTrip(p: string)
    requires IsBinary(p) && |p| % 4 == 0
    ensures HexBits(HexOfNibbles(p)) == p
  {
    if p != [] {
      var q, nib := p[..|p| - 4], p[|p| - 4..];
      assert p == q + nib;
      NibblesRoundTrip(q);
      HexOfNibblesSnoc(q, nib);
      var c := BinaryNibbleToHex(nib);
      HexBitsAppend(HexOfNibbles(q), [c]);
      assert [c][..0] == [];
      NibbleRoundTrip(nib);
    }
  }

  /**
   * decimal -> binary -> decimal: the result is the canonical decimal of the
   * parsed number, which is the input itself when the input is canonical.
   */
  lemma DecimalRoundTrip(s: string)
    requires IsDigits(s, 10)
    ensures Positional(s, 10) >= 0
    ensures IntToDecimal(Positional(NatToBinary(Positional(s, 10)), 2)) == NatToDecimal(Positional(s, 10))
    ensures IsCanonical(s, 10) ==> NatToDecimal(Positional(s, 10)) == s
  {
    PositionalBound(s, 10);
    NatToBinaryValue(Positional(s, 10));
    if IsCanonical(s, 10) {
      CanonicalDecimalRoundTrip(s);
    }
  }
}
