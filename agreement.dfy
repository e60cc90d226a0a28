/**
 * What the three renderings of `convert` have in common: without switches
 * they denote the same number, and in signed mode the decimal rendering
 * denotes the two's-complement value of the binary one, whose sign-extended
 * nibbles are the hex digits.
 */
module Agreement {
  import opened Numerals
  import opened Codec
  import opened TwosComplement
  import opened Conversions
  import opened Settings
  import opened Converter

  /** The cleaned input consists of digits of its kind. */
  predicate ValidDigits(kind: InputType, input: string)
  {
    match kind
    case DEC => IsDigits(input, 10)
    case BIN => IsBinary(input)
    case HEX => IsHexString(input)
  }

  /** With no switch set, `convert` returns the initial renderings and leaves `negative` alone. */
  lemma PlainShape(cfg: Config, kind: InputType, negative: bool, input: string)
    requires !cfg.signed && !cfg.padding && !cfg.grouping && !cfg.prefixed
    requires kind == DEC ==> Positional(input, 10) >= 0
    ensures Pipeline(cfg, kind, negative, input) == Converted(Initial(kind, input, false), negative)
  {
  }

  /** A '0' in front changes neither binary-ness nor value. */
  lemma LeadingZero(b: string)
    requires IsBinary(b)
    ensures IsBinary("0" + b) && Positional("0" + b, 2) == Positional(b, 2)
  {
    PositionalAppend("0", b, 2);
    assert "0"[..0] == [];
  }

  /** Whole binary nibbles and their hex digits denote the same number. */
  lemma HexOfBinary(b: string)
    requires IsBinary(b)
    ensures IsHexString(HexOfNibbles(Padded(b, false)))
    ensures HexNumber(HexOfNibbles(Padded(b, false))) == Positional(b, 2)
  {
    ZeroFillPreservesValue(b);
    HexOfNibblesValue(Padded(b, false));
  }

  /** A valid decimal input: decimal, binary and hex renderings of its value. */
  lemma PlainDecimal(cfg: Config, negative: bool, input: string)
    requires !cfg.signed && !cfg.padding && !cfg.grouping && !cfg.prefixed
    requires IsDigits(input, 10)
    ensures Positional(input, 10) >= 0
    ensures var out := Pipeline(cfg, DEC, negative, input);
      out.Converted? && out.negative == negative &&
      IsBinary(out.values.bin) && IsHexString(out.values.hex) &&
      Positional(out.values.bin, 2) == Positional(input, 10) &&
      HexNumber(out.values.hex) == Positional(input, 10)
  {
    PositionalBound(input, 10);
    var n := Positional(input, 10);
    NatToBinaryValue(n);
    LeadingZero(NatToBinary(n));
    HexOfBinary("0" + NatToBinary(n));
  }

  /** A valid binary input: its value in decimal and in hex. */
  lemma PlainBinary(cfg: Config, negative: bool, input: string)
    requires !cfg.signed && !cfg.padding && !cfg.grouping && !cfg.prefixed
    requires IsBinary(input)
    ensures var out := Pipeline(cfg, BIN, negative, input);
      out.Converted? && out.negative == negative &&
      IsDigits(out.values.dec, 10) && IsHexString(out.values.hex) &&
      Positional(out.values.dec, 10) == Positional(input, 2) &&
      HexNumber(out.values.hex) == Positional(input, 2)
  {
    BinaryDigits(input);
    PositionalBound(input, 2);
    NatToDecimalValue(Positional(input, 2));
    HexOfBinary(input);
  }

  /** A valid hex input: its value in decimal and in binary. */
  lemma PlainHex(cfg: Config, negative: bool, input: string)
    requires !cfg.signed && !cfg.padding && !cfg.grouping && !cfg.prefixed
    requires IsHexString(input)
    ensures var out := Pipeline(cfg, HEX, negative, input);
      out.Converted? && out.negative == negative &&
      IsDigits(out.values.dec, 10) && IsBinary(out.values.bin) &&
      Positional(out.values.dec, 10) == HexNumber(input) &&
      Positional(out.values.bin, 2) == HexNumber(input)
  {
    HexBitsValue(input);
    NatToDecimalValue(HexNumber(input));
  }

  /**
   * With no switch set, the conversion succeeds, leaves `negative` as it
   * was, and the three renderings are numerals of their bases denoting
   * the same number.
   */
  lemma PlainAgreement(cfg: Config, kind: InputType, negative: bool, input: string)
    requires !cfg.signed && !cfg.padding && !cfg.grouping && !cfg.prefixed
    requires ValidDigits(kind, input)
    ensures kind == DEC ==> Positional(input, 10) >= 0
    ensures var out := Pipeline(cfg, kind, negative, input);
      out.Converted? && out.negative == negative &&
      IsDigits(out.values.dec, 10) && IsBinary(out.values.bin) && IsHexString(out.values.hex) &&
      Positional(out.values.dec, 10) == Positional(out.values.bin, 2) == HexNumber(out.values.hex)
  {
    match kind
    case DEC => PlainDecimal(cfg, negative, input);
    case BIN => PlainBinary(cfg, negative, input);
    case HEX => PlainHex(cfg, negative, input);
  }

  /** In signed mode without grouping or prefixes, what `convert` makes of a decimal input. */
  lemma SignedDecimalShape(cfg: Config, negative: bool, input: string)
    requires cfg.signed && !cfg.grouping && !cfg.prefixed && Positional(input, 10) >= 0
    ensures var b0 := "0" + NatToBinary(Positional(input, 10));
      var b := if negative then Negated(b0) else b0;
      Pipeline(cfg, DEC, negative, input)
        == Converted(Values(if negative then "-" + input else input,
                            if cfg.padding then Padded(b, true) else b,
                            HexOfNibbles(Padded(b, true))), negative)
  {
    var b0 := "0" + NatToBinary(Positional(input, 10));
    var b := if negative then Negated(b0) else b0;
    var h := HexOfNibbles(Padded(b, true));
    var v := Initial(DEC, input, cfg.signed);
    assert v.dec == input && v.bin == b0;
    if negative {
      assert Reinterpreted(cfg, DEC, negative, v) == Converted(Values(input, b, h), negative);
    } else {
      assert v.hex == h;
      assert Reinterpreted(cfg, DEC, negative, v) == Converted(v, negative);
    }
  }

  /** The binary rendering of a value n (after a leading '0'), negated or not, and its sign-extended hex digits. */
  lemma SignedRendering(n: nat, negative: bool, padding: bool)
    ensures var b0 := "0" + NatToBinary(n);
      var b := if negative then Negated(b0) else b0;
      var p := if padding then Padded(b, true) else b;
      IsBinary(p) && SignedValue(p) == (if negative then -(n as int) else n as int) &&
      IsHexString(HexOfNibbles(Padded(b, true))) &&
      HexNumber(HexOfNibbles(Padded(b, true))) == Positional(Padded(p, true), 2)
  {
    NatToBinaryValue(n);
    var b0 := "0" + NatToBinary(n);
    LeadingZero(NatToBinary(n));
    var b := if negative then Negated(b0) else b0;
    if negative {
      NegatedNonNegative(b0);
    }
    SignExtensionPreservesValue(b);
    HexOfNibblesValue(Padded(b, true));
    PaddingIdempotent(b, true);
  }

  /**
   * Signed mode, decimal input: the binary rendering is the two's
   * complement of the value, negated when the raw input started with '-',
   * and the decimal rendering carries the same sign.
   */
  lemma SignedDecimal(cfg: Config, negative: bool, input: string)
    requires cfg.signed && !cfg.grouping && !cfg.prefixed
    requires IsDigits(input, 10)
    ensures Positional(input, 10) >= 0
    ensures var out := Pipeline(cfg, DEC, negative, input);
      out.Converted? && out.negative == negative && IsBinary(out.values.bin) &&
      SignedValue(out.values.bin) == (if negative then -Positional(input, 10) else Positional(input, 10)) &&
      DecimalValue(out.values.dec) == SignedValue(out.values.bin) &&
      IsHexString(out.values.hex) && HexNumber(out.values.hex) == Positional(Padded(out.values.bin, true), 2)
  {
    PositionalBound(input, 10);
    SignedDecimalShape(cfg, negative, input);
    SignedRendering(Positional(input, 10), negative, cfg.padding);
    if negative {
      assert ("-" + input)[1..] == input;
    } else if |input| > 0 {
      assert 0 <= DigitValue(input[0]);
    }
  }

  /** In signed mode without grouping or prefixes, what `convert` makes of a binary or hex input. */
  lemma SignedBitsShape(cfg: Config, kind: InputType, negative: bool, input: string, bits: string)
    requires cfg.signed && !cfg.grouping && !cfg.prefixed && kind != DEC
    requires bits == if kind == BIN then input else HexBits(input)
    requires bits != []
    ensures var dec := if bits[0] == '1' then "-" + IntToDecimal(Positional(Negated(bits), 2))
                       else IntToDecimal(Positional(bits, 2));
      var hex := if kind == BIN then HexOfNibbles(Padded(bits, true)) else input;
      Pipeline(cfg, kind, negative, input)
        == Converted(Values(dec, if cfg.padding then Padded(bits, true) else bits, hex), bits[0] == '1')
  {
    var v := Initial(kind, input, cfg.signed);
    assert v.bin == bits;
  }

  /**
   * The decimal rendering `convert` gives a binary string in signed mode
   * denotes its two's-complement value.
   */
  lemma SignedDecimalOfBits(bits: string)
    requires IsBinary(bits) && bits != []
    ensures var dec := if bits[0] == '1' then "-" + IntToDecimal(Positional(Negated(bits), 2))
                       else IntToDecimal(Positional(bits, 2));
      DecimalValue(dec) == SignedValue(bits) && (bits[0] == '1' <==> SignedValue(bits) < 0)
  {
    BinaryDigits(bits);
    PositionalBound(bits, 2);
    if bits[0] == '1' {
      NegatedMagnitude(bits);
      var m := Positional(Negated(bits), 2);
      NatToDecimalValue(m);
      assert ("-" + IntToDecimal(m))[1..] == IntToDecimal(m);
    } else {
      NatToDecimalValue(Positional(bits, 2));
      assert 0 <= DigitValue(IntToDecimal(Positional(bits, 2))[0]);
    }
  }

  /** The bits of a hex input are whole nibbles, so sign extension leaves them alone. */
  lemma SignedHexBits(input: string)
    requires IsHexString(input) && input != []
    ensures IsBinary(HexBits(input)) && HexBits(input) != []
    ensures HexNumber(input) == Positional(Padded(HexBits(input), true), 2)
  {
    HexBitsValue(input);
    var bits := HexBits(input);
    assert |bits| % 4 == 0;
    assert Padded(bits, true) == bits;
  }

  /** A binary input's hex rendering denotes its sign-extended bits. */
  lemma SignedBinaryHex(input: string)
    requires IsBinary(input)
    ensures IsHexString(HexOfNibbles(Padded(input, true)))
    ensures HexNumber(HexOfNibbles(Padded(input, true))) == Positional(Padded(input, true), 2)
  {
    SignExtensionPreservesValue(input);
    HexOfNibblesValue(Padded(input, true));
  }

  /** The bits of a binary or hex input and the hex rendering `convert` gives them in signed mode. */
  lemma SignedBitsHex(kind: InputType, input: string)
    requires kind != DEC && ValidDigits(kind, input) && input != []
    ensures var bits := if kind == BIN then input else HexBits(input);
      var hex := if kind == BIN then HexOfNibbles(Padded(bits, true)) else input;
      IsBinary(bits) && bits != [] &&
      IsHexString(hex) && HexNumber(hex) == Positional(Padded(bits, true), 2)
  {
    if kind == HEX {
      SignedHexBits(input);
    } else {
      SignedBinaryHex(input);
    }
  }

  /** Optional sign extension keeps the bits, their signed value and their sign-extended form. */
  lemma OptionalSignExtension(bits: string, padding: bool)
    requires IsBinary(bits)
    ensures var p := if padding then Padded(bits, true) else bits;
      IsBinary(p) && SignedValue(p) == SignedValue(bits) && Padded(p, true) == Padded(bits, true)
  {
    SignExtensionPreservesValue(bits);
    PaddingIdempotent(bits, true);
  }

  /**
   * Signed mode, binary or hex input: the flag `negative` becomes the sign
   * bit, and the decimal rendering denotes the two's-complement value of
   * the binary rendering.
   */
  lemma SignedBits(cfg: Config, kind: InputType, negative: bool, input: string)
    requires cfg.signed && !cfg.grouping && !cfg.prefixed
    requires kind != DEC && ValidDigits(kind, input) && input != []
    ensures var out := Pipeline(cfg, kind, negative, input);
      var bits := if kind == BIN then input else HexBits(input);
      out.Converted? && IsBinary(out.values.bin) &&
      SignedValue(out.values.bin) == SignedValue(bits) &&
      (out.negative <==> SignedValue(bits) < 0) &&
      DecimalValue(out.values.dec) == SignedValue(bits) &&
      IsHexString(out.values.hex) && HexNumber(out.values.hex) == Positional(Padded(out.values.bin, true), 2)
  {
    var bits := if kind == BIN then input else HexBits(input);
    SignedBitsHex(kind, input);
    SignedBitsShape(cfg, kind, negative, input, bits);
    SignedDecimalOfBits(bits);
    OptionalSignExtension(bits, cfg.padding);
  }
}
