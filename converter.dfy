/**
 * The `convert` pipeline and the program state it runs in. The pipeline
 * produces the decimal, binary and hexadecimal renderings of one cleaned
 * input, then applies, in order, the signed reinterpretation, padding,
 * grouping, prefixes and the minus sign. `setInputType` and `convert` read
 * and write the static fields `inType` and `negative`, modelled as the
 * fields of a `BaseConverter` object whose settings are fixed.
 */
module Converter {
  import opened Numerals
  import opened TwosComplement
  import opened Conversions
  import opened Settings
  import opened Input
  import opened Formatter

  /** The three renderings, in the order of the `values` array. */
  datatype Values = Values(dec: string, bin: string, hex: string)

  /**
   * The result of `convert`: the renderings and the new `negative` flag,
   * or the index-out-of-bounds exception that `charAt(0)` throws in signed
   * mode when the binary rendering is empty.
   */
  datatype Outcome = Converted(values: Values, negative: bool) | OutOfBounds

  /** The first three renderings, by input kind, before any switch is applied. */
  function Initial(kind: InputType, input: string, signed: bool): Values
    requires kind == DEC ==> Positional(input, 10) >= 0
  {
    match kind
    case DEC =>
      var bin := "0" + NatToBinary(Positional(input, 10));
      Values(input, bin, HexOfNibbles(Padded(bin, signed)))
    case BIN =>
      Values(IntToDecimal(Positional(input, 2)), input, HexOfNibbles(Padded(input, signed)))
    case HEX =>
      Values(IntToDecimal(Positional(HexBits(input), 2)), HexBits(input), input)
  }

  /**
   * The signed reinterpretation: in signed mode a binary or hex input is
   * negative when its binary rendering starts with '1', and its decimal
   * rendering is replaced by that of the two's-complement magnitude; a
   * decimal input marked negative has its binary rendering negated and its
   * hex rendering recomputed from that.
   */
  function Reinterpreted(cfg: Config, kind: InputType, negative: bool, v: Values): Outcome
  {
    if cfg.signed && kind != DEC then
      if v.bin == [] then OutOfBounds
      else if v.bin[0] == '1' then
        Converted(Values(IntToDecimal(Positional(Negated(v.bin), 2)), v.bin, v.hex), true)
      else Converted(v, false)
    else if cfg.signed && kind == DEC && negative then
      Converted(Values(v.dec, Negated(v.bin), HexOfNibbles(Padded(Negated(v.bin), cfg.signed))), negative)
    else Converted(v, negative)
  }

  /** Padding: the binary rendering widened to whole nibbles. */
  function PadStep(cfg: Config, v: Values): Values
  {
    if cfg.padding then Values(v.dec, Padded(v.bin, cfg.signed), v.hex) else v
  }

  /** Grouping: each rendering grouped with its own size and delimiter. */
  function GroupStep(cfg: Config, v: Values): Values
  {
    if cfg.grouping then
      Values(Grouped(v.dec, GroupSize(cfg, DEC), Delimiter(DEC)),
             Grouped(v.bin, GroupSize(cfg, BIN), Delimiter(BIN)),
             Grouped(v.hex, GroupSize(cfg, HEX), Delimiter(HEX)))
    else v
  }

  /** Prefixes: `0b` before the binary and `0x` before the hex rendering. */
  function PrefixStep(cfg: Config, v: Values): Values
  {
    if cfg.prefixed then Values(v.dec, "0b" + v.bin, "0x" + v.hex) else v
  }

  /** The minus sign before the decimal rendering of a negative value in signed mode. */
  function SignStep(cfg: Config, v: Values, negative: bool): Values
  {
    if cfg.signed && negative then Values("-" + v.dec, v.bin, v.hex) else v
  }

  /** Padding, grouping, prefixes and the minus sign, in that order. */
  function Formatted(cfg: Config, v: Values, negative: bool): Values
  {
    SignStep(cfg, PrefixStep(cfg, GroupStep(cfg, PadStep(cfg, v))), negative)
  }

  /** What `convert` computes, from the settings, the input kind, the incoming `negative` flag and the cleaned input. */
  function Pipeline(cfg: Config, kind: InputType, negative: bool, input: string): Outcome
    requires kind == DEC ==> Positional(input, 10) >= 0
  {
    match Reinterpreted(cfg, kind, negative, Initial(kind, input, cfg.signed))
    case OutOfBounds => OutOfBounds
    case Converted(v, neg) => Converted(Formatted(cfg, v, neg), neg)
  }

  /** A raw input the converter can finish on: a decimal one must not parse to a negative number. */
  predicate Terminates(raw: string)
  {
    Classify(raw) == DEC ==> Positional(Cleaned(raw), 10) >= 0
  }

  /** One conversion as the program runs it: classify the raw input, clean it, convert it. */
  function Run(cfg: Config, raw: string): Outcome
    requires |raw| > 0 && Terminates(raw)
  {
    Pipeline(cfg, Classify(raw), IsNegative(raw), Cleaned(raw))
  }

  /** The `values` array holds the three renderings, decimal first. */
  predicate Holds(values: array<string>, v: Values)
    reads values
  {
    values.Length == 3 && values[0] == v.dec && values[1] == v.bin && values[2] == v.hex
  }

  class BaseConverter {
    const config: Config
    var negative: bool
    var inType: InputType

    /** The state at start-up: not negative, decimal. */
    constructor (config: Config)
      ensures this.config == config && !negative && inType == DEC
    {
      this.config := config;
      negative := false;
      inType := DEC;
    }

    /** `setInputType`: resets both fields, then classifies by prefix and, for decimal, by a leading '-'. */
    method SetInputType(input: string)
      requires |input| > 0
      modifies this
      ensures inType == Classify(input) && negative == IsNegative(input)
    {
      negative := false;
      inType := DEC;
      if |input| > 2 {
        var head := input[..2];
        if head == "0b" || head == "0B" {
          inType := BIN;
        } else if head == "0x" || head == "0X" {
          inType := HEX;
        }
      }
      if inType == DEC && input[0] == '-' {
        negative := true;
      }
    }

    /**
     * `convert`: fills the three-element `values` array and may reassign
     * `negative`. `ok` is false when the `charAt(0)` of the signed
     * reinterpretation throws, in which case nothing is returned.
     */
    method Convert(input: string) returns (values: array<string>, ok: bool)
      requires inType == DEC ==> Positional(input, 10) >= 0
      modifies this`negative
      ensures fresh(values) && values.Length == 3
      ensures var out := Pipeline(config, inType, old(negative), input);
        (ok <==> out.Converted?) &&
        (ok ==> Holds(values, out.values) && negative == out.negative) &&
        (!ok ==> negative == old(negative))
    {
      values := new string[3];
      FillInitial(values, input);
      ok := Reinterpret(values);
      if ok {
        FormatValues(values);
      }
    }

    /** The switch on `inType` that fills `values` (the first step of `convert`). */
    method FillInitial(values: array<string>, input: string)
      requires values.Length == 3
      requires inType == DEC ==> Positional(input, 10) >= 0
      modifies values
      ensures Holds(values, Initial(inType, input, config.signed))
    {
      match inType
      case DEC =>
        values[0] := input;
        var b := DecimalToBinary(input);
        values[1] := "0" + b;
        values[2] := BinaryToHex(values[1], config.signed);
      case BIN =>
        values[0] := BinaryToDecimal(input);
        values[1] := input;
        values[2] := BinaryToHex(input, config.signed);
      case HEX =>
        values[0] := HexToDecimal(input);
        values[1] := HexToBinary(input);
        values[2] := input;
    }

    /** The signed reinterpretation step of `convert`; false when `charAt(0)` throws. */
    method Reinterpret(values: array<string>) returns (ok: bool)
      requires values.Length == 3
      modifies values, this`negative
      ensures var w := Reinterpreted(config, inType, old(negative), Values(old(values[0]), old(values[1]), old(values[2])));
        (ok <==> w.Converted?) &&
        (ok ==> Holds(values, w.values) && negative == w.negative) &&
        (!ok ==> negative == old(negative))
    {
      ghost var v := Values(values[0], values[1], values[2]);
      ghost var w := Reinterpreted(config, inType, negative, v);
      if config.signed && (inType == BIN || inType == HEX) {
        if |values[1]| == 0 {
          return false;
        }
        negative := values[1][0] == '1';
        if negative {
          var t := BinaryTwosComplement(values[1]);
          values[0] := BinaryToDecimal(t);
        }
        assert Holds(values, w.values) && negative == w.negative;
      } else if config.signed && inType == DEC && negative {
        values[1] := BinaryTwosComplement(values[1]);
        values[2] := BinaryToHex(values[1], config.signed);
        assert Holds(values, w.values);
      }
      ok := true;
    }

    /** Padding, grouping, prefixes and the minus sign: the last steps of `convert`. */
    method FormatValues(values: array<string>)
      requires values.Length == 3
      modifies values
      ensures Holds(values, Formatted(config, Values(old(values[0]), old(values[1]), old(values[2])), negative))
    {
      ghost var u := Values(values[0], values[1], values[2]);
      if config.padding {
        values[1] := BinaryPadding(values[1], config.signed);
      }
      u := PadStep(config, u);
      assert Holds(values, u);

      if config.grouping {
        values[0] := Group(values[0], DEC, config);
        values[1] := Group(values[1], BIN, config);
        values[2] := Group(values[2], HEX, config);
      }
      u := GroupStep(config, u);
      assert Holds(values, u);

      if config.prefixed {
        values[1] := "0b" + values[1];
        values[2] := "0x" + values[2];
      }
      u := PrefixStep(config, u);
      assert Holds(values, u);

      if config.signed && negative {
        values[0] := "-" + values[0];
      }
    }

    /** The sequence the program runs on one input: `setInputType`, `cleanString`, `convert`. */
    method Process(raw: string) returns (values: array<string>, ok: bool)
      requires |raw| > 0 && Terminates(raw)
      modifies this
      ensures fresh(values) && values.Length == 3 && inType == Classify(raw)
      ensures var out := Run(config, raw);
        (ok <==> out.Converted?) &&
        (ok ==> Holds(values, out.values) && negative == out.negative)
    {
      SetInputType(raw);
      var input := CleanString(raw);
      values, ok := Convert(input);
    }
  }
}
