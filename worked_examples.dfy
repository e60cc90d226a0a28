/**
 * Concrete conversions, from the raw text a user types to the three
 * renderings: the example of the program's help text and the corner cases
 * of the decimal path, of invalid hex digits and of an empty binary string.
 */
module WorkedExamples {
  import opened Numerals
  import opened Codec
  import opened TwosComplement
  import opened Conversions
  import opened Settings
  import opened Input
  import opened Formatter
  import opened Converter
  import opened Agreement

  lemma ZeroInput()
    ensures Classify("0") == DEC && !IsNegative("0") && Cleaned("0") == "0"
    ensures Positional("0", 10) == 0
  {
    assert "0"[..0] == [];
  }

  lemma ZeroRenderings()
    ensures Initial(DEC, "0", false) == Values("0", "00", "0")
  {
    assert Positional("0", 10) == 0 by {
      assert "0"[..0] == [];
    }
    assert "0" + NatToBinary(0) == "00";
    assert Padded("00", false) == "0000" by {
      assert Repeat('0', 2) == "00";
    }
    assert BinaryNibbleToHex("0000") == '0' by {
      assert IsNibble("0000");
      assert NibbleWeight("0000") == 0;
    }
    assert HexOfNibbles("0000") == "0" by {
      assert "0000"[..0] == [];
      assert "0000"[0..] == "0000";
    }
  }

  /** Zero converts to "0", "00" (the decimal path always prepends a '0') and "0". */
  lemma Zero()
    ensures Terminates("0")
    ensures Run(Defaults, "0") == Converted(Values("0", "00", "0"), false)
  {
    ZeroInput();
    ZeroRenderings();
    PlainShape(Defaults, DEC, false, "0");
  }

  lemma MinusFortyTwoInput()
    ensures Classify("-42") == DEC && IsNegative("-42") && Cleaned("-42") == "42"
    ensures Positional("42", 10) == 42
  {
    assert "-42"[..2] == "-4" && "-4"[..1] == "-" && "-"[..0] == [];
    assert StripPrefix("-42") == "-42";
    assert RemoveSeparators("-") == [];
    assert RemoveSeparators("-4") == "4";
    assert RemoveSeparators("-42") == "42";
    assert "42"[..1] == "4" && "4"[..0] == [];
  }

  /** The binary rendering of 42. */
  lemma FortyTwoBits()
    ensures NatToBinary(42) == "101010"
  {
    var b1 := Bits(1);
    assert b1 == ['1'];
    var b2 := Bits(2);
    assert b2 == b1 + ['0'];
    var b5 := Bits(5);
    assert b5 == b2 + ['1'];
    var b10 := Bits(10);
    assert b10 == b5 + ['0'];
    var b21 := Bits(21);
    assert b21 == b10 + ['1'];
    assert Bits(42) == b21 + ['0'];
  }

  /** The digits of the nibbles that occur below. */
  lemma NibbleDigitsUsed()
    ensures BinaryNibbleToHex("0010") == '2' && BinaryNibbleToHex("1010") == 'A'
    ensures BinaryNibbleToHex("1101") == 'D' && BinaryNibbleToHex("0110") == '6'
  {
    assert IsNibble("0010") && NibbleWeight("0010") == 2;
    assert IsNibble("1010") && NibbleWeight("1010") == 10;
    assert IsNibble("1101") && NibbleWeight("1101") == 13;
    assert IsNibble("0110") && NibbleWeight("0110") == 6;
  }

  /** The hex digits of a byte are the digits of its two nibbles. */
  lemma ByteHex(hi: string, lo: string)
    requires |hi| == 4 && |lo| == 4
    ensures HexOfNibbles(hi + lo) == [BinaryNibbleToHex(hi), BinaryNibbleToHex(lo)]
  {
    HexOfNibblesSnoc([], hi);
    assert [] + hi == hi;
    HexOfNibblesSnoc(hi, lo);
  }

  /** The hex digits of 42 after zero-filling. */
  lemma FortyTwoHex()
    ensures Padded("0101010", false) == "00101010" && HexOfNibbles("00101010") == "2A"
  {
    assert Repeat('0', 1) == "0";
    NibbleDigitsUsed();
    ByteHex("0010", "1010");
    assert "0010" + "1010" == "00101010";
  }

  lemma FortyTwoRenderings()
    ensures Initial(DEC, "42", false) == Values("42", "0101010", "2A")
  {
    MinusFortyTwoInput();
    FortyTwoBits();
    FortyTwoHex();
    var b := "0" + NatToBinary(42);
    assert b == "0101010";
  }

  /** Without `--signed`, "-42" is marked negative but converts as 42. */
  lemma MinusFortyTwo()
    ensures Terminates("-42")
    ensures Run(Defaults, "-42") == Converted(Values("42", "0101010", "2A"), true)
  {
    MinusFortyTwoInput();
    FortyTwoRenderings();
    PlainShape(Defaults, DEC, true, "42");
  }

  /** The settings of `--signed` alone. */
  const SignedOnly := Config(true, false, false, false, 3, 4, 4)

  /** The two's complement of "0101010" (42 after the decimal path's leading '0'). */
  lemma NegatedFortyTwo()
    ensures Negated("0101010") == "1010110"
  {
    var f := Flip("0101010");
    assert f == "1010101";
    assert f[..6] == "101010" && "101010"[..5] == "10101";
    assert AddOne("101010") == "101011";
    assert AddOne(f) == "1010110";
  }

  /** The hex digits of "1010110" sign-extended to a byte. */
  lemma MinusFortyTwoHex()
    ensures HexOfNibbles(Padded("1010110", true)) == "D6"
  {
    assert Repeat('1', 1) == "1";
    assert Padded("1010110", true) == "1101" + "0110";
    NibbleDigitsUsed();
    ByteHex("1101", "0110");
  }

  lemma FortyTwoText(input: string)
    requires input == "42"
    ensures Positional(input, 10) == 42
    ensures "0" + NatToBinary(Positional(input, 10)) == "0101010" && "-" + input == "-42"
  {
    MinusFortyTwoInput();
    FortyTwoBits();
  }

  lemma SignedFortyTwoPipeline(input: string)
    requires input == "42"
    ensures Positional(input, 10) == 42
    ensures Pipeline(SignedOnly, DEC, true, input) == Converted(Values("-42", "1010110", "D6"), true)
  {
    FortyTwoText(input);
    NegatedFortyTwo();
    MinusFortyTwoHex();
    SignedDecimalShape(SignedOnly, true, input);
  }

  /** With `--signed`, "-42" converts to its two's complement, 1010110, sign-extended to D6 in hex. */
  lemma SignedMinusFortyTwo()
    ensures Terminates("-42")
    ensures Run(SignedOnly, "-42") == Converted(Values("-42", "1010110", "D6"), true)
  {
    MinusFortyTwoInput();
    SignedFortyTwoPipeline(Cleaned("-42"));
  }

  /** The settings of the help text's example: `--padding --grouping --signed`. */
  const HelpSettings := Config(true, true, true, false, 3, 4, 4)

  /** The nine nibbles of 0xFFAB7100F. */
  const HelpBits := "1111" + "1111" + "1010" + "1011" + "0111" + "0001" + "0000" + "0000" + "1111"

  lemma HelpInput()
    ensures Classify("0xFFAB7100F") == HEX && !IsNegative("0xFFAB7100F")
    ensures Cleaned("0xFFAB7100F") == "FFAB7100F" && IsHexString("FFAB7100F")
  {
    var raw := "0xFFAB7100F";
    assert raw[..2] == "0x";
    assert StripPrefix(raw) == "FFAB7100F";
    RemoveSeparatorsIdentity("FFAB7100F");
  }

  lemma DigitNibbles()
    ensures HexDigitToBinary('F') == "1111" && HexDigitToBinary('A') == "1010"
    ensures HexDigitToBinary('B') == "1011" && HexDigitToBinary('7') == "0111"
    ensures HexDigitToBinary('1') == "0001" && HexDigitToBinary('0') == "0000"
  {
  }

  /** Appending one digit appends its nibble. */
  lemma HexBitsSnoc(h: string, c: char)
    ensures HexBits(h + [c]) == HexBits(h) + HexDigitToBinary(c)
  {
    assert (h + [c])[..|h|] == h;
  }

  lemma DigitBits()
    ensures HexBits("F") == "1111" && HexBits("A") == "1010" && HexBits("B") == "1011"
    ensures HexBits("7") == "0111" && HexBits("1") == "0001" && HexBits("0") == "0000"
  {
    DigitNibbles();
    HexBitsSnoc([], 'F');
    HexBitsSnoc([], 'A');
    HexBitsSnoc([], 'B');
    HexBitsSnoc([], '7');
    HexBitsSnoc([], '1');
    HexBitsSnoc([], '0');
  }

  lemma HelpHexBitsHigh()
    ensures HexBits("F" + "F" + "A" + "B" + "7") == "1111" + "1111" + "1010" + "1011" + "0111"
  {
    DigitBits();
    HexBitsAppend("F", "F");
    HexBitsAppend("F" + "F", "A");
    HexBitsAppend("F" + "F" + "A", "B");
    HexBitsAppend("F" + "F" + "A" + "B", "7");
  }

  lemma HelpHexBits()
    ensures HexBits("FFAB7100F") == HelpBits
  {
    DigitBits();
    HelpHexBitsHigh();
    HexBitsAppend("F" + "F" + "A" + "B" + "7", "1");
    HexBitsAppend("F" + "F" + "A" + "B" + "7" + "1", "0");
    HexBitsAppend("F" + "F" + "A" + "B" + "7" + "1" + "0", "0");
    HexBitsAppend("F" + "F" + "A" + "B" + "7" + "1" + "0" + "0", "F");
    assert "F" + "F" + "A" + "B" + "7" + "1" + "0" + "0" + "F" == "FFAB7100F";
  }

  /** Appending one digit multiplies by sixteen and adds the digit. */
  lemma HexNumberSnoc(h: string, c: char)
    requires IsHexString(h) && IsHexDigit(c)
    ensures IsHexString(h + [c])
    ensures HexNumber(h + [c]) == HexNumber(h) * 16 + HexValue(c)
  {
    assert (h + [c])[..|h|] == h;
  }

  lemma HelpNumber()
    ensures HexNumber("FFAB7100F") == 68630810639
  {
    var h0: string := [];
    HexNumberSnoc(h0, 'F');
    var h1 := h0 + ['F'];
    HexNumberSnoc(h1, 'F');
    var h2 := h1 + ['F'];
    HexNumberSnoc(h2, 'A');
    var h3 := h2 + ['A'];
    HexNumberSnoc(h3, 'B');
    var h4 := h3 + ['B'];
    HexNumberSnoc(h4, '7');
    var h5 := h4 + ['7'];
    HexNumberSnoc(h5, '1');
    var h6 := h5 + ['1'];
    HexNumberSnoc(h6, '0');
    var h7 := h6 + ['0'];
    HexNumberSnoc(h7, '0');
    var h8 := h7 + ['0'];
    HexNumberSnoc(h8, 'F');
    var h9 := h8 + ['F'];
    assert h9 == "FFAB7100F";
  }

  lemma PowThirtySix()
    ensures Pow(2, 36) == 68719476736
  {
    assert Pow(2, 6) == 64;
    PowAdd(2, 6, 6);
    PowAdd(2, 12, 12);
    PowAdd(2, 24, 12);
  }

  /** 0xFFAB7100F read as 36-bit two's complement is -88666097. */
  lemma HelpMagnitude()
    ensures |HelpBits| == 36 && HelpBits[0] == '1'
    ensures Positional(Negated(HelpBits), 2) == 88666097
  {
    HelpHexBits();
    HelpNumber();
    HelpInput();
    HexBitsValue("FFAB7100F");
    NegatedValue(HelpBits);
    PowThirtySix();
  }

  /** One more decimal digit on the right of a positive number. */
  lemma DecimalSnoc(q: nat, d: nat)
    requires q > 0 && d < 10
    ensures NatToDecimal(q * 10 + d) == NatToDecimal(q) + [DigitChar(d)]
  {
    DivModTen(q, d);
  }

  lemma HelpDecimal(n: nat)
    requires n == 88666097
    ensures IntToDecimal(n) == "88666097"
  {
    var q1 := 8;
    var q2 := q1 * 10 + 8;
    DecimalSnoc(q1, 8);
    var q3 := q2 * 10 + 6;
    DecimalSnoc(q2, 6);
    var q4 := q3 * 10 + 6;
    DecimalSnoc(q3, 6);
    var q5 := q4 * 10 + 6;
    DecimalSnoc(q4, 6);
    var q6 := q5 * 10 + 0;
    DecimalSnoc(q5, 0);
    var q7 := q6 * 10 + 9;
    DecimalSnoc(q6, 9);
    DecimalSnoc(q7, 7);
    assert n == q7 * 10 + 7;
  }

  /** A full group appended on the right is set off by one delimiter. */
  lemma GroupBlock(s: string, b: string, g: int, d: char)
    requires g > 0 && |b| == g
    ensures Grouped(s + b, g, d) == if s == [] then b else Grouped(s, g, d) + [d] + b
  {
    GroupedFromRight(s + b, g, d);
    assert (s + b)[..|s|] == s && (s + b)[|s|..] == b;
    if s == [] {
      assert s + b == b;
    }
  }

  /** A short leading group and two full ones. */
  lemma GroupThree(n1: string, n2: string, n3: string, g: int, d: char)
    requires 0 < |n1| <= g && |n2| == |n3| == g
    ensures Grouped(n1 + n2 + n3, g, d) == n1 + [d] + n2 + [d] + n3
  {
    GroupedFromRight(n1, g, d);
    GroupBlock(n1, n2, g, d);
    GroupBlock(n1 + n2, n3, g, d);
  }

  lemma HelpDecGroups(s: string)
    requires s == "88666097"
    ensures Grouped(s, 3, '\'') == "88'666'097"
  {
    assert s == "88" + "666" + "097";
    GroupThree("88", "666", "097", 3, '\'');
  }

  lemma HelpHexGroups(s: string)
    requires s == "FFAB7100F"
    ensures Grouped(s, 4, ' ') == "F FAB7 100F"
  {
    assert s == "F" + "FAB7" + "100F";
    GroupThree("F", "FAB7", "100F", 4, ' ');
  }

  /** Nine full groups are set off from each other by one delimiter each. */
  lemma GroupNine(n1: string, n2: string, n3: string, n4: string, n5: string,
                  n6: string, n7: string, n8: string, n9: string, g: int, d: char)
    requires g > 0 && |n1| == |n2| == |n3| == |n4| == |n5| == |n6| == |n7| == |n8| == |n9| == g
    ensures Grouped(n1 + n2 + n3 + n4 + n5 + n6 + n7 + n8 + n9, g, d)
         == n1 + [d] + n2 + [d] + n3 + [d] + n4 + [d] + n5 + [d] + n6 + [d] + n7 + [d] + n8 + [d] + n9
  {
    GroupedFromRight(n1, g, d);
    GroupBlock(n1, n2, g, d);
    GroupBlock(n1 + n2, n3, g, d);
    GroupBlock(n1 + n2 + n3, n4, g, d);
    GroupBlock(n1 + n2 + n3 + n4, n5, g, d);
    GroupBlock(n1 + n2 + n3 + n4 + n5, n6, g, d);
    GroupBlock(n1 + n2 + n3 + n4 + n5 + n6, n7, g, d);
    GroupBlock(n1 + n2 + n3 + n4 + n5 + n6 + n7, n8, g, d);
    GroupBlock(n1 + n2 + n3 + n4 + n5 + n6 + n7 + n8, n9, g, d);
  }

  lemma HelpBitGroups(s: string)
    requires s == HelpBits
    ensures Grouped(s, 4, ' ') == "1111 1111 1010 1011 0111 0001 0000 0000 1111"
  {
    GroupNine("1111", "1111", "1010", "1011", "0111", "0001", "0000", "0000", "1111", 4, ' ');
    HelpBitGroupsTextA();
    HelpBitGroupsTextB();
    HelpBitGroupsTextC();
    HelpBitGroupsTextD();
  }

  /**
   * The four `HelpBitGroupsText` lemmas join the nine groups of the help
   * example's bits one delimiter at a time. Each step is a short equation
   * between string literals. Stating the whole joined string in one step
   * makes the verifier evaluate the literal concatenation at once, which is
   * far more expensive.
   */
  lemma HelpBitGroupsTextA()
    ensures "1111" + [' '] + "1111" == "1111 1111"
    ensures "1111 1111" + [' '] + "1010" == "1111 1111 1010"
    ensures "1111 1111 1010" + [' '] + "1011" == "1111 1111 1010 1011"
  {
  }

  lemma HelpBitGroupsTextB()
    ensures "1111 1111 1010 1011" + [' '] + "0111" == "1111 1111 1010 1011 0111"
    ensures "1111 1111 1010 1011 0111" + [' '] + "0001" == "1111 1111 1010 1011 0111 0001"
  {
  }

  lemma HelpBitGroupsTextC()
    ensures "1111 1111 1010 1011 0111 0001" + [' '] + "0000" == "1111 1111 1010 1011 0111 0001 0000"
    ensures "1111 1111 1010 1011 0111 0001 0000" + [' '] + "0000" == "1111 1111 1010 1011 0111 0001 0000 0000"
  {
  }

  lemma HelpBitGroupsTextD()
    ensures "1111 1111 1010 1011 0111 0001 0000 0000" + [' '] + "1111" == "1111 1111 1010 1011 0111 0001 0000 0000 1111"
  {
  }

  lemma HelpReinterpreted()
    ensures Reinterpreted(HelpSettings, HEX, false, Initial(HEX, "FFAB7100F", true))
         == Converted(Values("88666097", HelpBits, "FFAB7100F"), true)
  {
    HelpHexBits();
    HelpMagnitude();
    HelpDecimal(Positional(Negated(HelpBits), 2));
  }

  /** Padding, grouping and the minus sign on renderings whose bits are whole nibbles. */
  lemma SignedGroupedShape(cfg: Config, v: Values)
    requires cfg.signed && cfg.padding && cfg.grouping && !cfg.prefixed && |v.bin| % 4 == 0
    ensures Formatted(cfg, v, true) == Values("-" + Grouped(v.dec, cfg.decGroup, '\''),
                                              Grouped(v.bin, cfg.binGroup, ' '),
                                              Grouped(v.hex, cfg.hexGroup, ' '))
  {
  }

  /** The minus sign joined to the grouped decimal, as one literal step (see the `HelpBitGroupsText` lemmas). */
  lemma HelpSign()
    ensures "-" + "88'666'097" == "-88'666'097"
  {
  }

  lemma HelpFormatted(v: Values)
    requires v == Values("88666097", HelpBits, "FFAB7100F")
    ensures Formatted(HelpSettings, v, true)
         == Values("-88'666'097", "1111 1111 1010 1011 0111 0001 0000 0000 1111", "F FAB7 100F")
  {
    HelpMagnitude();
    SignedGroupedShape(HelpSettings, v);
    HelpDecGroups(v.dec);
    HelpHexGroups(v.hex);
    HelpBitGroups(v.bin);
    HelpSign();
  }

  /**
   * The help text's example: with `--padding --grouping --signed`,
   * 0xFFAB7100F is a negative 36-bit value, -88'666'097, printed with its
   * bits and hex digits grouped in fours.
   */
  lemma HelpExample()
    ensures Terminates("0xFFAB7100F")
    ensures Run(HelpSettings, "0xFFAB7100F") == Converted(Values(
      "-88'666'097", "1111 1111 1010 1011 0111 0001 0000 0000 1111", "F FAB7 100F"), true)
  {
    HelpInput();
    HelpReinterpreted();
    HelpFormatted(Values("88666097", HelpBits, "FFAB7100F"));
  }

  lemma BadDigitInput()
    ensures Classify("0xG1") == HEX && !IsNegative("0xG1") && Cleaned("0xG1") == "G1"
  {
    var raw := "0xG1";
    assert raw[..2] == "0x";
    assert StripPrefix(raw) == "G1";
    RemoveSeparatorsIdentity("G1");
  }

  lemma BadDigitBits()
    ensures HexBits("G1") == "0001"
  {
    DigitNibbles();
    assert HexDigitToBinary('G') == [];
    var h1 := [] + ['G'];
    HexBitsSnoc([], 'G');
    HexBitsSnoc(h1, '1');
    assert h1 + ['1'] == "G1";
  }

  lemma OneValue()
    ensures Positional("0001", 2) == 1
  {
    var b := "0001";
    assert b[..3] == "000" && "000"[..2] == "00" && "00"[..1] == "0" && "0"[..0] == [];
  }

  lemma BadDigitRenderings()
    ensures Initial(HEX, "G1", false) == Values("1", "0001", "G1")
  {
    BadDigitBits();
    OneValue();
    assert NatToDecimal(1) == "1";
  }

  /** An invalid hex digit contributes no bits but stays in the hex rendering. */
  lemma BadHexDigit()
    ensures Terminates("0xG1")
    ensures Run(Defaults, "0xG1") == Converted(Values("1", "0001", "G1"), false)
  {
    BadDigitInput();
    BadDigitRenderings();
    PlainShape(Defaults, HEX, false, "G1");
  }

  /** In signed mode a hex input with no digits left after cleaning has no sign bit to read. */
  lemma EmptyHex()
    ensures Terminates("0x__")
    ensures Run(SignedOnly, "0x__") == OutOfBounds
  {
    var raw := "0x__";
    assert raw[..2] == "0x";
    assert StripPrefix(raw) == "__";
    assert "__"[..1] == "_" && "_"[..0] == [];
    assert RemoveSeparators("_") == [];
    assert Cleaned(raw) == [];
    assert HexBits([]) == [];
  }
}
