/**
 * The digit codec: the two switch tables that map one hexadecimal digit to
 * its four-bit binary string and one four-bit binary string back to a hex
 * digit. Neither table aborts on bad input: an unknown digit yields the empty
 * string and an unknown nibble yields a space (after an error message on
 * stderr, which is not modelled).
 */
module Codec {
  import opened Numerals

  predicate IsHexDigit(c: char)
  {
    '0' <= c <= '9' || 'A' <= c <= 'F' || 'a' <= c <= 'f'
  }

  predicate IsUpperHexDigit(c: char)
  {
    '0' <= c <= '9' || 'A' <= c <= 'F'
  }

  predicate IsHexString(h: string)
  {
    forall i :: 0 <= i < |h| ==> IsHexDigit(h[i])
  }

  /** A four-character string of '0' and '1'. */
  predicate IsNibble(s: string)
  {
    |s| == 4 && IsBinary(s)
  }

  /** The weight of a nibble: 8, 4, 2 and 1 per '1', left to right. */
  function NibbleWeight(s: string): (v: nat)
    requires IsNibble(s)
    ensures v < 16
  {
    8 * DigitValue(s[0]) + 4 * DigitValue(s[1]) + 2 * DigitValue(s[2]) + DigitValue(s[3])
  }

  /** A nibble's weight is its binary value. */
  lemma NibbleWeights(s: string)
    ensures IsNibble(s) ==> Positional(s, 2) == NibbleWeight(s)
  {
    if |s| == 4 {
      assert s[..3][..2] == s[..2];
      assert s[..2][..1] == s[..1];
      assert s[..1][..0] == [];
      assert Positional(s[..1], 2) == DigitValue(s[0]);
      assert Positional(s[..2], 2) == Positional(s[..1], 2) * 2 + DigitValue(s[1]);
      assert Positional(s[..3], 2) == Positional(s[..2], 2) * 2 + DigitValue(s[2]);
      assert Positional(s, 2) == Positional(s[..3], 2) * 2 + DigitValue(s[3]);
    }
  }

  /** The value of a hex digit, independent of the tables below. */
  function HexValue(c: char): (v: nat)
    requires IsHexDigit(c)
    ensures v < 16
  {
    if c <= '9' then c as int - '0' as int
    else if c <= 'F' then c as int - 'A' as int + 10
    else c as int - 'a' as int + 10
  }

  /** Upper-case a character (only ASCII letters change). */
  function ToUpper(c: char): char
  {
    if 'a' <= c <= 'z' then (c as int - 32) as char else c
  }

  /** Upper-case every character of a string. */
  function UpperCase(s: string): (r: string)
    ensures |r| == |s|
    ensures forall i :: 0 <= i < |s| ==> r[i] == ToUpper(s[i])
  {
    seq(|s|, i requires 0 <= i < |s| => ToUpper(s[i]))
  }

  /** The value of a hex numeral, most significant digit first. */
  function HexNumber(h: string): nat
    requires IsHexString(h)
  {
    if h == [] then 0 else HexNumber(h[..|h| - 1]) * 16 + HexValue(h[|h| - 1])
  }

  /** The character of one bit: '0' for zero, '1' otherwise. */
  function BitChar(b: int): char
  {
    if b == 0 then '0' else '1'
  }

  /** The four-bit string of a value below sixteen, most significant bit first. */
  function NibbleOf(v: nat): (r: string)
    requires v < 16
    ensures |r| == 4
  {
    [BitChar(v / 8), BitChar(v / 4 % 2), BitChar(v / 2 % 2), BitChar(v % 2)]
  }

  /** The four bits of v are a nibble of weight v. */
  lemma NibbleOfWeight(v: nat)
    requires v < 16
    ensures IsNibble(NibbleOf(v)) && NibbleWeight(NibbleOf(v)) == v
  {
    var r := NibbleOf(v);
    assert DigitValue(r[0]) == v / 8;
    assert DigitValue(r[1]) == v / 4 % 2;
    assert DigitValue(r[2]) == v / 2 % 2;
    assert DigitValue(r[3]) == v % 2;
  }

  /** The upper-case hex digit of a value below sixteen. */
  function DigitOf(v: nat): (c: char)
    requires v < 16
  {
    if v < 10 then ('0' as int + v) as char else ('A' as int + v - 10) as char
  }

  /**
   * `hexDigitToBinary`: a hex digit of either case to its four bits; any
   * other character to "". The switch's twenty-two cases send '0'-'9',
   * 'A'-'F' and 'a'-'f' to the four bits of the digit's value, so the
   * nibble is computed from that value; `SwitchTables` checks the result
   * against the switch's right-hand sides.
   */
  function HexDigitToBinary(c: char): string
  {
    if IsHexDigit(c) then NibbleOf(HexValue(c)) else ""
  }

  /** A hex digit's entry is a nibble denoting the digit's value; anything else maps to "". */
  lemma HexDigitNibble(c: char)
    ensures IsHexDigit(c) ==> IsNibble(HexDigitToBinary(c)) && Positional(HexDigitToBinary(c), 2) == HexValue(c)
    ensures !IsHexDigit(c) <==> HexDigitToBinary(c) == ""
  {
    if IsHexDigit(c) {
      NibbleOfWeight(HexValue(c));
      NibbleWeights(HexDigitToBinary(c));
    }
  }

  /**
   * `binaryNibbleToHex`: four bits to an upper-case hex digit; any other
   * string to ' '. The sixteen cases of the switch are the sixteen binary
   * four-character strings, so the digit is computed from the nibble's weight.
   */
  function BinaryNibbleToHex(nibble: string): char
  {
    if IsNibble(nibble) then DigitOf(NibbleWeight(nibble)) else ' '
  }

  /** A nibble's entry is an upper-case digit denoting the nibble's value; anything else maps to ' '. */
  lemma NibbleDigit(nibble: string)
    ensures IsNibble(nibble) ==>
      IsUpperHexDigit(BinaryNibbleToHex(nibble)) && HexValue(BinaryNibbleToHex(nibble)) == Positional(nibble, 2)
    ensures !IsNibble(nibble) <==> BinaryNibbleToHex(nibble) == ' '
  {
    NibbleWeights(nibble);
  }

  /** The right-hand sides of the two switches, in order of value. */
  const Nibbles: seq<string> := [
    "0000", "0001", "0010", "0011", "0100", "0101", "0110", "0111",
    "1000", "1001", "1010", "1011", "1100", "1101", "1110", "1111"]
  const HexDigits: string := "0123456789ABCDEF"

  /** The computed nibble and digit of each value are the switches' entries for it. */
  lemma SwitchTables(v: nat)
    requires v < 16
    ensures NibbleOf(v) == Nibbles[v] && DigitOf(v) == HexDigits[v]
  {
    if v < 4 {
    } else if v < 8 {
    } else if v < 12 {
    } else {
    }
  }

  /** Decoding a digit's nibble gives the digit back, upper-cased. */
  lemma DigitRoundTrip(c: char)
    requires IsHexDigit(c)
    ensures BinaryNibbleToHex(HexDigitToBinary(c)) == ToUpper(c)
  {
    HexDigitNibble(c);
    NibbleDigit(HexDigitToBinary(c));
  }

  /** Encoding a nibble's digit gives the nibble back. */
  lemma NibbleRoundTrip(nibble: string)
    requires IsNibble(nibble)
    ensures HexDigitToBinary(BinaryNibbleToHex(nibble)) == nibble
  {
    var c := BinaryNibbleToHex(nibble);
    NibbleDigit(nibble);
    HexDigitNibble(c);
    BinaryInjective(HexDigitToBinary(c), nibble);
  }
}
