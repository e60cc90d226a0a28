# baseConverter in Dafny

A model of the conversion core of `baseConverter`, a command-line tool that
prints a number given in decimal, binary (`0b…`) or hexadecimal (`0x…`) in
all three bases. The model covers:

- the classification of the raw input (`setInputType`);
- its sanitisation (`cleanString`);
- the six base conversions and their helpers: the digit-by-digit parsers, the bit-collecting loop of `decimalToBinary`, and the two switch tables between hex digits and nibbles;
- the two's-complement engine: `binaryPadding` (zero fill or sign extension) and `binaryTwosComplement` (flip, then a carry pass);
- digit grouping (`group`);
- the `convert` pipeline: first renderings, signed reinterpretation, padding, grouping, prefixes and the minus sign.

Modules:

- `Numerals`: positional value of digit strings. It also holds the canonical binary and decimal renderings that the bit loop and `BigInteger.toString()` produce.
- `Codec`: `hexDigitToBinary` and `binaryNibbleToHex`.
- `TwosComplement`: `binaryPadding` and `binaryTwosComplement`.
- `Conversions`: `parseDecString`, `binaryToDecimal`, `decimalToBinary`, `hexToBinary`, `binaryToHex`, `hexToDecimal` and `decimalToHex`.
- `Input`: `cleanString` and the classifier shared with `setInputType`.
- `Formatter`: `group`.
- `Settings`: the static option fields and their defaults.
- `Converter`: the `convert` pipeline as a specification function. It also holds a `BaseConverter` class whose mutable fields are the static fields `negative` and `inType`.
- `Agreement`: what the pipeline promises in unsigned and in signed mode.
- `WorkedExamples`: concrete conversions, including the example in the program's help text.

Each loop of the modelled functions is a `method` proved equal to a specification function. The properties are proved about those functions.

Behaviour on malformed input:

- An invalid hex digit or nibble does not abort the conversion. `hexDigitToBinary` prints an error and returns "" (baseConverter.java:458-459). `binaryNibbleToHex` prints an error and returns ' ' (baseConverter.java:482-483). So `0xG1` converts to `1`, `0001`, `G1` (`Codec.HexDigitToBinary`, `Conversions.InvalidDigitSkipped`, `WorkedExamples.BadHexDigit`).
- The ' ' that `binaryNibbleToHex` returns for a bad nibble is also the delimiter `group` puts between hex groups (line 335). For example, an unsigned `0b12` has hex rendering " ". In grouped output the two cannot be told apart, so `Formatter.Ungroup` recovers the input only when the input contains no delimiter of its own.
- In signed mode, a binary or hex input whose binary rendering is empty makes `charAt(0)` throw (line 195). That is a binary input with nothing left after cleaning (`0b__`), or a hex input with no valid hex digit left (`0x__`, `0xG`). A binary input such as `0b2` keeps its characters and does not throw. This is modelled as the `OutOfBounds` outcome of `Converter.Pipeline`, and `WorkedExamples.EmptyHex` shows it.
- The decimal path parses without checking digits. A character below `'0'` gives a negative digit, and a negative value makes the shift-right loop of `decimalToBinary` run forever. That path's methods and `Converter.Run` therefore require the parsed value to be non-negative (`Converter.Terminates`). For every input that finishes and whose characters all lie in the Basic Multilingual Plane, the model states what the code computes (see the UTF-16 line under "## Left out").

## Model

| member | source | states |
|---|---|---|
| Numerals.BitsValue | baseConverter.java:281-289 | the bits collected by the shift-right loop are binary, denote n, are empty only for 0 and start with '1' |
| Numerals.NatToBinaryValue | baseConverter.java:274-292 | the result of `decimalToBinary` for n is a canonical binary numeral denoting n: "0" exactly for zero, otherwise led by '1' |
| Numerals.NatToDecimalValue | baseConverter.java:271 | `BigInteger.toString()` of n is a canonical decimal numeral denoting n |
| Numerals.IntToDecimalValue | baseConverter.java:271 | the signed decimal rendering, read back with its minus sign, is the integer rendered |
| Numerals.CanonicalDecimalRoundTrip | baseConverter.java:354-367 | parsing a canonical decimal numeral and printing the number gives the numeral back |
| Numerals.PositionalBound | baseConverter.java:354-367 | a string of base-b digits denotes a number in [0, b^length) |
| Numerals.BinaryInjective | baseConverter.java:259-272 | two binary strings of equal width with the same value are equal |
| Codec.HexDigitToBinary | baseConverter.java:432-460 | defines the digit-to-nibble switch: the four bits of the value of '0'-'9', 'A'-'F' or 'a'-'f', and "" for any other character |
| Codec.BinaryNibbleToHex | baseConverter.java:462-484 | defines the nibble-to-digit switch: the upper-case digit of a nibble's weight, and ' ' for any other string |
| Codec.HexDigitNibble | baseConverter.java:432-460 | a hex digit of either case maps to a nibble denoting its value; exactly the non-digits map to "" |
| Codec.NibbleDigit | baseConverter.java:462-484 | a nibble maps to an upper-case hex digit denoting its value; exactly the non-nibbles map to ' ' |
| Codec.SwitchTables | baseConverter.java:432-484 | for each value below 16, the computed nibble and digit are the switch tables' entries |
| Codec.DigitRoundTrip | baseConverter.java:432-484 | decoding a digit's nibble gives the digit back, upper-cased |
| Codec.NibbleRoundTrip | baseConverter.java:432-484 | encoding a nibble's digit gives the nibble back |
| TwosComplement.Padded | baseConverter.java:369-377 | padding yields a multiple of four characters, ends with the input, adds fewer than four fill characters (all '0', or all copies of the first bit when signed) and changes nothing when the length is already a multiple of four |
| TwosComplement.BinaryPadding | baseConverter.java:369-377 | the padding loop returns exactly the padded string |
| TwosComplement.PaddingIdempotent | baseConverter.java:369-377 | padding twice is padding once |
| TwosComplement.ZeroFillPreservesValue | baseConverter.java:369-377 | zero-filling keeps the unsigned value |
| TwosComplement.SignExtensionPreservesValue | baseConverter.java:369-377 | sign extension keeps the two's-complement value |
| TwosComplement.BinaryTwosComplement | baseConverter.java:379-401 | the flip loop and the right-to-left carry loop return the flipped string plus one, with the carry out of the top dropped |
| TwosComplement.FlipValue | baseConverter.java:382-383 | flipping a width-n value v gives 2^n - 1 - v |
| TwosComplement.AddOneValue | baseConverter.java:385-398 | the carry pass adds one modulo 2^n |
| TwosComplement.NegatedValue | baseConverter.java:379-401 | the result has the same width and value (2^n - v) mod 2^n |
| TwosComplement.NegatedInvolution | baseConverter.java:379-401 | negating a binary string twice gives it back |
| TwosComplement.NegatedZero | baseConverter.java:379-401 | all zeros is its own negation |
| TwosComplement.NegatedMagnitude | baseConverter.java:194-197 | for a string whose sign bit is set, the negation denotes the magnitude of its signed value |
| TwosComplement.NegatedNonNegative | baseConverter.java:200-202 | negating a string with a clear sign bit gives a string whose signed value is minus its value |
| TwosComplement.SignBit | baseConverter.java:195 | the leading bit is '1' exactly when the value reaches 2^(n-1) |
| Conversions.ParseDecString | baseConverter.java:354-367 | the digit-times-power sum is the positional decimal value |
| Conversions.BinaryToDecimal | baseConverter.java:259-272 | the shifted-digit sum, printed, is the decimal rendering of the binary value |
| Conversions.DecimalToBinary | baseConverter.java:274-292 | the loop returns the canonical binary rendering of the parsed value |
| Conversions.HexToBinary | baseConverter.java:294-304 | the digit loop concatenates each digit's table entry |
| Conversions.BinaryToHex | baseConverter.java:306-317 | the nibble loop maps each nibble of the padded string through the table |
| Conversions.HexToDecimal | baseConverter.java:252-257 | the decimal rendering of the hex bits; for valid digits, the decimal rendering of the hex number |
| Conversions.DecimalToHex | baseConverter.java:248-250 | the hex digits of the padded binary rendering; unsigned, they denote the decimal value |
| Conversions.HexBitsAppend | baseConverter.java:294-304 | the bits of a concatenation are the concatenated bits |
| Conversions.InvalidDigitSkipped | baseConverter.java:458-459 | an invalid digit contributes nothing to the bits |
| Conversions.HexBitsValue | baseConverter.java:294-304 | the bits of a hex string are four per digit, binary, and denote the hex number |
| Conversions.HexBitsBlock | baseConverter.java:294-304 | block i of the bits is the table entry of digit i |
| Conversions.HexOfNibblesValue | baseConverter.java:306-317 | the nibble loop yields upper-case hex digits denoting the binary value |
| Conversions.HexRoundTrip | baseConverter.java:294-317 | for valid hex digits, binary-to-hex after hex-to-binary gives the input upper-cased |
| Conversions.NibblesRoundTrip | baseConverter.java:294-317 | hex-to-binary after binary-to-hex gives back a whole-nibble binary string |
| Conversions.DecimalRoundTrip | baseConverter.java:259-292 | a decimal numeral's binary rendering converts back to the canonical decimal rendering, and to the numeral itself when it is canonical |
| Input.Classify | baseConverter.java:155-171 | defines the kind `setInputType` assigns: binary for an input longer than two characters led by `0b`/`0B`, hex for one led by `0x`/`0X`, decimal otherwise |
| Input.CleanString | baseConverter.java:403-430 | the loop returns the input without its radix prefix and without separators |
| Input.ClassifyStrips | baseConverter.java:403-416 | the prefix is stripped exactly when the input is classified binary or hex, and only when it is longer than two characters |
| Input.RemoveSeparatorsAppend | baseConverter.java:418-427 | separator removal distributes over concatenation, so the order of kept characters is preserved |
| Input.RemoveSeparatorsAt | baseConverter.java:418-427 | each character is kept exactly when it is not a separator |
| Input.NoSeparatorsLeft | baseConverter.java:418-427 | no separator survives |
| Input.RemoveSeparatorsIdentity | baseConverter.java:418-427 | removal changes nothing exactly when there is no separator |
| Input.RemoveSeparatorsLength | baseConverter.java:418-427 | removal never lengthens |
| Input.CleanedIsClean | baseConverter.java:403-430 | the cleaned string has no separators left, and removing separators from it again changes nothing |
| Formatter.Grouped | baseConverter.java:329-352 | defines the grouped string: the delimiter after every character with a positive multiple of the group size to its right; size 0 leaves the string alone |
| Formatter.Group | baseConverter.java:329-352 | the right-to-left counting loop returns the input with the type's delimiter after every character that has a positive multiple of the group size to its right (nothing for size 0) |
| Formatter.Ungroup | baseConverter.java:329-352 | when the input contains no delimiter, deleting the delimiters from the grouped string gives the input back |
| Formatter.GroupedEnds | baseConverter.java:329-352 | grouping never puts a delimiter first or last |
| Formatter.SingleGroup | baseConverter.java:329-352 | a string no longer than the group size is unchanged |
| Formatter.GroupedAppend | baseConverter.java:329-352 | a suffix whose length is a multiple of the group size is grouped on its own and joined with one delimiter |
| Formatter.GroupedFromRight | baseConverter.java:329-352 | the last group has exactly the group size, set off by one delimiter |
| Formatter.GroupedLength | baseConverter.java:329-352 | grouping by g > 0 inserts (length - 1) / g delimiters |
| Converter.Reinterpreted | baseConverter.java:194-203 | defines the signed step: a binary or hex input throws on empty bits, and is negative with the decimal rendering of its negation when the first bit is '1'; a decimal input marked negative gets negated bits and their hex |
| Converter.Pipeline | baseConverter.java:173-225 | defines `convert`: first renderings, signed step, then padding, grouping, prefixes and minus sign, in that order |
| Converter.BaseConverter.constructor | baseConverter.java:49-60 | the start-up state: not negative, decimal |
| Converter.BaseConverter.SetInputType | baseConverter.java:155-171 | both fields reset, then binary or hex by prefix on inputs longer than two characters, negative for a decimal input led by '-' |
| Converter.BaseConverter.Convert | baseConverter.java:173-225 | the array holds the pipeline's three renderings and `negative` its new flag, or the conversion throws |
| Converter.BaseConverter.FillInitial | baseConverter.java:176-192 | the switch fills the array with the first renderings |
| Converter.BaseConverter.Reinterpret | baseConverter.java:194-203 | the signed reinterpretation of the array and of `negative` |
| Converter.BaseConverter.FormatValues | baseConverter.java:205-222 | padding, grouping, prefixes and the minus sign, in order |
| Converter.BaseConverter.Process | baseConverter.java:75-79 | classify, clean and convert one input gives the outcome of the whole run |
| Agreement.PlainShape | baseConverter.java:173-225 | with none of the four switches set (and, for a decimal input, a non-negative parse), the output is the three first renderings and `negative` is unchanged |
| Agreement.LeadingZero | baseConverter.java:179 | the '0' put in front of a decimal input's bits changes neither binary-ness nor value |
| Agreement.HexOfBinary | baseConverter.java:306-317 | for a binary string, the unsigned hex rendering is a hex numeral denoting its value |
| Agreement.PlainDecimal | baseConverter.java:177-181 | with none of the four switches set and a decimal input of digits only, the binary and hex renderings denote its value |
| Agreement.PlainBinary | baseConverter.java:182-186 | with none of the four switches set and a binary input of '0' and '1' only, the decimal and hex renderings denote its value |
| Agreement.PlainHex | baseConverter.java:187-191 | with none of the four switches set and a hex input of valid hex digits only, the decimal and binary renderings denote its value |
| Agreement.PlainAgreement | baseConverter.java:173-225 | with none of the four switches set and an input of valid digits for its kind, all three renderings are numerals of their bases and denote the same number |
| Agreement.SignedDecimalShape | baseConverter.java:200-222 | signed, without grouping or prefixes, for a decimal input with a non-negative parse: the bits are "0" plus the magnitude's bits, negated when negative, and the hex is their sign extension |
| Agreement.SignedRendering | baseConverter.java:200-207 | for any n: the bits "0" plus n's bits, negated or not and optionally sign-extended, have signed value ±n, and the hex denotes their sign extension |
| Agreement.SignedDecimal | baseConverter.java:200-222 | signed, without grouping or prefixes, for a decimal input of digits only: the binary rendering's two's-complement value is the signed input, the decimal rendering denotes it, and the hex denotes the sign-extended bits |
| Agreement.SignedBitsShape | baseConverter.java:194-222 | signed, without grouping or prefixes, for a binary or hex input whose binary rendering is non-empty: negative exactly when the first bit is '1', and the decimal rendering is then minus the negation's value |
| Agreement.SignedDecimalOfBits | baseConverter.java:194-197 | for a non-empty binary string, that decimal rendering denotes its two's-complement value, which is negative exactly when the first bit is '1' |
| Agreement.SignedHexBits | baseConverter.java:187-191 | for a non-empty input of valid hex digits, the bits are non-empty whole nibbles denoting the hex number, so sign extension leaves them alone |
| Agreement.SignedBinaryHex | baseConverter.java:182-186 | for a binary input of '0' and '1' only, the signed hex rendering denotes its sign extension |
| Agreement.SignedBitsHex | baseConverter.java:182-191 | for a non-empty binary or hex input of valid digits, the bits are binary and non-empty, and the hex rendering denotes their sign extension |
| Agreement.OptionalSignExtension | baseConverter.java:205-207 | for a binary string, padding in signed mode keeps its signed value and its sign extension |
| Agreement.SignedBits | baseConverter.java:194-222 | signed, without grouping or prefixes, for a non-empty binary or hex input of valid digits: the binary rendering keeps the input's two's-complement value, `negative` says whether it is below zero, the decimal rendering denotes it, and the hex denotes the sign-extended bits |
| WorkedExamples.Zero | baseConverter.java:173-192 | "0" converts to "0", "00" and "0" |
| WorkedExamples.MinusFortyTwo | baseConverter.java:155-225 | without `--signed`, "-42" is marked negative and converts as 42: "42", "0101010", "2A" |
| WorkedExamples.SignedMinusFortyTwo | baseConverter.java:200-222 | with `--signed`, "-42" converts to "-42", "1010110", "D6" |
| WorkedExamples.HelpExample | baseConverter.java:36-44 | with `--padding --grouping --signed`, 0xFFAB7100F converts to "-88'666'097", "1111 1111 1010 1011 0111 0001 0000 0000 1111", "F FAB7 100F" |
| WorkedExamples.BadHexDigit | baseConverter.java:458-459 | "0xG1" converts to "1", "0001", "G1": the invalid digit contributes no bits |
| WorkedExamples.EmptyHex | baseConverter.java:194-195 | with `--signed`, "0x__" throws at `charAt(0)` |

## Left out

- `main`, `interactiveMode`, `parseOptions`, `parseInput`, `output`, `repeatedChar`, `error` and the help text are console I/O and option parsing. They are not modelled; the option fields are a `Settings.Config` value. `Converter.BaseConverter.Process` models the sequence `main` runs on one input (lines 75-79), and its `requires |raw| > 0` is the check `main` makes before calling `setInputType`.
- The error messages that `hexDigitToBinary` and `binaryNibbleToHex` print to stderr are not modelled. Only their return values are.
- `BigInteger` arithmetic is modelled on Dafny's unbounded integers. `shiftLeft(k)` is modelled as multiplication by 2^k and `shiftRight(1)` as halving, which is exact for the non-negative values the model admits.
- Conversions.DecimalToBinary: requires the parsed value to be non-negative. On a negative value the source loops forever, because `shiftRight` of a negative number never reaches zero.
- Conversions.DecimalToHex: requires the same, for the same reason.
- `hexToDecimal` and `hexToBinary` compare a three-character substring with "0x" (lines 253 and 295). That comparison is never true, so the prefix strip it guards never happens, and the model does not strip there either.
- The two switch tables are computed from the digit's value and the nibble's weight. `Codec.SwitchTables` proves those values equal the tables' sixteen entries.
- Converter.BaseConverter.Reinterpret: writes the source's two consecutive `if`s as `if … else if`. The second condition needs a decimal input and the first a binary or hex one, so at most one of them holds.
- Converter.BaseConverter.Convert: is split into three stage methods (`FillInitial`, `Reinterpret`, `FormatValues`), each proved against its step of `Converter.Pipeline`.
- Formatter.GroupedLength: is stated for positive group sizes only. A negative size, possible through `--bingroup=-4` or `--hexgroup=-4` (the decimal size stays 3, since `parseOptions` has no option for it), groups the same way, because only whether the remainder is zero matters.
- Java strings are sequences of UTF-16 code units, and Dafny strings are sequences of Unicode scalar values. A character outside the Basic Multilingual Plane counts as one character in the model but as two surrogate units in the source. That changes the digit values and positions in `parseDecString` (line 359), the `length() > 2` tests (lines 160 and 405) and the character counting in `group` (lines 344-349). The model is exact only for inputs whose characters all lie in the Basic Multilingual Plane.
- A '-' inside a decimal input, such as "4-2", is dropped by `cleanString` like any separator. Only a leading '-' marks the input negative. The model does exactly this and proves nothing more about it.
