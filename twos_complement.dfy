/**
 * The two's-complement engine: `binaryPadding`, which widens a binary
 * string to a whole number of nibbles (zero-filling, or sign-extending in
 * signed mode), and `binaryTwosComplement`, which negates a fixed-width
 * binary string by flipping every bit and then adding one in a single
 * right-to-left carry pass.
 */
module TwosComplement {
  import opened Numerals

  /** The two's-complement reading of a binary string: a leading '1' weighs -2^(n-1). */
  function SignedValue(s: string): int
  {
    if |s| > 0 && s[0] == '1' then Positional(s, 2) - Pow(2, |s|) else Positional(s, 2)
  }

  /** A string of n copies of c. */
  function Repeat(c: char, n: nat): (r: string)
    ensures |r| == n
    ensures forall i :: 0 <= i < n ==> r[i] == c
  {
    seq(n, _ => c)
  }

  /** How many fill characters make a length of n a multiple of four. */
  function PadWidth(n: nat): (k: nat)
    ensures k < 4 && (n + k) % 4 == 0
    ensures n % 4 == 0 <==> k == 0
  {
    if n % 4 == 0 then 0 else 4 - n % 4
  }

  /**
   * What `binaryPadding` returns: s widened on the left to a multiple of
   * four characters, with '0' or, in signed mode, with copies of s[0].
   */
  function Padded(s: string, signed: bool): (r: string)
    ensures |r| % 4 == 0
    ensures |s| <= |r| < |s| + 4
    ensures r[|r| - |s|..] == s
    ensures |r| > |s| ==> |s| > 0 && forall i :: 0 <= i < |r| - |s| ==> r[i] == (if signed then s[0] else '0')
    ensures |s| % 4 == 0 ==> r == s
  {
    if |s| % 4 == 0 then s else Repeat(if signed then s[0] else '0', PadWidth(|s|)) + s
  }

  /** `binaryPadding(in)`, with the global `signed` flag passed in. */
  method BinaryPadding(s: string, signed: bool) returns (r: string)
    ensures r == Padded(s, signed)
  {
    r := s;
    if |s| % 4 != 0 {
      var padding := "";
      var i := 0;
      while i < 4 - |s| % 4
        invariant 0 <= i <= 4 - |s| % 4
        invariant padding == Repeat(if signed then s[0] else '0', i)
      {
        padding := padding + [if signed then s[0] else '0'];
        i := i + 1;
      }
      r := padding + s;
    }
  }

  /** Padding twice pads once. */
  lemma PaddingIdempotent(s: string, signed: bool)
    ensures Padded(Padded(s, signed), signed) == Padded(s, signed)
  {
  }

  /** Zero-filling keeps a binary string binary and keeps its unsigned value. */
  lemma ZeroFillPreservesValue(s: string)
    requires IsBinary(s)
    ensures IsBinary(Padded(s, false))
    ensures Positional(Padded(s, false), 2) == Positional(s, 2)
  {
    if |s| % 4 != 0 {
      var fill := Repeat('0', PadWidth(|s|));
      assert Padded(s, false) == fill + s;
      PositionalAppend(fill, s, 2);
      ZerosValue(fill, 2);
    }
  }

  /** Sign extension keeps a binary string binary and keeps its two's-complement value. */
  lemma SignExtensionPreservesValue(s: string)
    requires IsBinary(s)
    ensures IsBinary(Padded(s, true))
    ensures SignedValue(Padded(s, true)) == SignedValue(s)
  {
    var r := Padded(s, true);
    var k := |r| - |s|;
    if k > 0 {
      var n := |s|;
      var fill := r[..k];
      assert r == fill + s;
      PositionalAppend(fill, s, 2);
      PowAdd(2, k, n);
      if s[0] == '0' {
        ZerosValue(fill, 2);
      } else {
        OnesValue(fill);
        calc {
          SignedValue(r);
          Positional(fill, 2) * Pow(2, n) + Positional(s, 2) - Pow(2, k + n);
          (Pow(2, k) - 1) * Pow(2, n) + Positional(s, 2) - Pow(2, k) * Pow(2, n);
          Positional(s, 2) - Pow(2, n);
        }
      }
    }
  }

  /** Every bit inverted; any character other than '1' counts as a '0'. */
  function Flip(s: string): (r: string)
    ensures |r| == |s| && IsBinary(r)
    ensures forall i :: 0 <= i < |s| ==> (r[i] == '1' <==> s[i] != '1')
  {
    seq(|s|, i requires 0 <= i < |s| => if s[i] == '1' then '0' else '1')
  }

  /**
   * The carry pass: from the right, each '1' under a carry becomes '0' and
   * keeps the carry; the first '0' under a carry becomes '1' and clears it;
   * everything to its left is unchanged. A carry out of the top is dropped.
   */
  function AddOne(b: string): (r: string)
    requires IsBinary(b)
    ensures |r| == |b| && IsBinary(r)
  {
    if b == [] then [] else
      var p := b[..|b| - 1];
      if b[|b| - 1] == '1' then AddOne(p) + "0" else p + "1"
  }

  /** What `binaryTwosComplement` returns: the flipped string plus one. */
  function Negated(s: string): (r: string)
    ensures |r| == |s| && IsBinary(r)
  {
    AddOne(Flip(s))
  }

  /** `binaryTwosComplement(in)`: a flip loop, then the right-to-left carry loop. */
  method BinaryTwosComplement(s: string) returns (r: string)
    ensures r == Negated(s)
  {
    var flipped := "";
    var i := 0;
    while i < |s|
      invariant 0 <= i <= |s|
      invariant flipped == Flip(s)[..i]
    {
      flipped := flipped + [if s[i] == '1' then '0' else '1'];
      i := i + 1;
    }
    ghost var f := Flip(s);
    assert f[..|s|] == f;
    var remainder := 1;
    r := "";
    var j := |flipped| - 1;
    while j >= 0
      invariant -1 <= j < |s|
      invariant remainder == 0 || remainder == 1
      invariant remainder == 1 ==> AddOne(f) == AddOne(f[..j + 1]) + r
      invariant remainder == 0 ==> AddOne(f) == f[..j + 1] + r
    {
      var c := if s[j] == '1' then '0' else '1';
      assert c == f[j];
      CarryStep(f, j);
      if remainder > 0 && c == '1' {
        remainder := 1;
        c := '0';
      } else if remainder > 0 && c == '0' {
        remainder := 0;
        c := '1';
      }
      r := [c] + r;
      j := j - 1;
    }
    assert f[..0] == [];
  }

  /** One step of the carry pass, at position j from the left. */
  lemma CarryStep(f: string, j: nat)
    requires IsBinary(f) && j < |f|
    ensures f[..j + 1] == f[..j] + [f[j]]
    ensures f[j] == '1' ==> AddOne(f[..j + 1]) == AddOne(f[..j]) + "0"
    ensures f[j] != '1' ==> AddOne(f[..j + 1]) == f[..j] + "1"
  {
    assert f[..j + 1][..j] == f[..j];
  }

  /** Inverting every bit of a width-n value v gives 2^n - 1 - v. */
  lemma {:induction false} FlipValue(s: string)
    requires IsBinary(s)
    ensures Positional(Flip(s), 2) == Pow(2, |s|) - 1 - Positional(s, 2)
  {
    if s != [] {
      var p := s[..|s| - 1];
      assert Flip(s)[..|s| - 1] == Flip(p);
      FlipValue(p);
    }
  }

  /** The carry pass adds one modulo 2^n: all ones wraps round to all zeros. */
  lemma {:induction false} AddOneValue(b: string)
    requires IsBinary(b)
    ensures Positional(AddOne(b), 2)
         == if Positional(b, 2) == Pow(2, |b|) - 1 then 0 else Positional(b, 2) + 1
  {
    if b != [] {
      var p := b[..|b| - 1];
      AddOneValue(p);
      var r := AddOne(b);
      if b[|b| - 1] == '1' {
        assert r[..|r| - 1] == AddOne(p);
      } else {
        assert r[..|r| - 1] == p;
      }
    }
  }

  /**
   * For a width-n binary string of value v the result has value (2^n - v)
   * mod 2^n, written out as its two cases.
   */
  lemma NegatedValue(s: string)
    requires IsBinary(s)
    ensures Positional(Negated(s), 2)
         == if Positional(s, 2) == 0 then 0 else Pow(2, |s|) - Positional(s, 2)
  {
    FlipValue(s);
    AddOneValue(Flip(s));
  }

  /** The leading bit is set exactly when the value reaches 2^(n-1). */
  lemma SignBit(x: string)
    requires IsBinary(x) && |x| > 0
    ensures x[0] == '1' <==> Positional(x, 2) >= Pow(2, |x| - 1)
  {
    var rest := x[1..];
    assert x == [x[0]] + rest;
    assert [x[0]][..0] == [];
    PositionalAppend([x[0]], rest, 2);
    BinaryDigits(rest);
    PositionalBound(rest, 2);
  }

  /** Negating a string whose sign bit is clear gives the string of the negative value. */
  lemma NegatedNonNegative(b: string)
    requires IsBinary(b) && |b| > 0 && b[0] == '0'
    ensures SignedValue(Negated(b)) == -Positional(b, 2)
  {
    var n := |b|;
    SignBit(b);
    BinaryDigits(b);
    PositionalBound(b, 2);
    NegatedValue(b);
    PowPositive(2, n - 1);
    assert Pow(2, n) == 2 * Pow(2, n - 1);
    SignBit(Negated(b));
  }

  /** Negating twice gives back the original string. */
  lemma NegatedInvolution(s: string)
    requires IsBinary(s)
    ensures Negated(Negated(s)) == s
  {
    BinaryDigits(s);
    PositionalBound(s, 2);
    NegatedValue(s);
    NegatedValue(Negated(s));
    BinaryInjective(Negated(Negated(s)), s);
  }

  /** All zeros is its own negation. */
  lemma NegatedZero(s: string)
    requires forall i :: 0 <= i < |s| ==> s[i] == '0'
    ensures Negated(s) == s
  {
    ZerosValue(s, 2);
    NegatedValue(s);
    BinaryInjective(Negated(s), s);
  }

  /** The negation of a string with its sign bit set denotes the magnitude of its signed value. */
  lemma NegatedMagnitude(s: string)
    requires IsBinary(s) && |s| > 0 && s[0] == '1'
    ensures Positional(Negated(s), 2) == -SignedValue(s) > 0
  {
    BinaryDigits(s);
    PositionalBound(s, 2);
    NegatedValue(s);
    LeadingDigitWeight(s, 2);
  }
}
