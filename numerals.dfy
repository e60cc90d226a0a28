/**
 * Positional notation over digit strings. The converter does its arithmetic
 * on arbitrary-precision integers; here that arithmetic is stated on Dafny's
 * unbounded integers, together with the canonical decimal and binary
 * renderings that `BigInteger.toString()` and the bit-collecting loop of
 * `decimalToBinary` produce.
 */
module Numerals {

  /** b raised to the power e. */
  function Pow(b: int, e: nat): int
  {
    if e == 0 then 1 else b * Pow(b, e - 1)
  }

  lemma {:induction false} PowPositive(b: int, e: nat)
    requires b > 0
    ensures Pow(b, e) > 0
  {
    if e > 0 {
      PowPositive(b, e - 1);
    }
  }

  lemma {:induction false} PowAdd(b: int, m: nat, n: nat)
    ensures Pow(b, m + n) == Pow(b, m) * Pow(b, n)
  {
    if n > 0 {
      PowAdd(b, m, n - 1);
      calc {
        Pow(b, m + n);
        b * Pow(b, m + n - 1);
        b * (Pow(b, m) * Pow(b, n - 1));
        Pow(b, m) * (b * Pow(b, n - 1));
      }
    }
  }

  /**
   * The value a character contributes as a digit: its code minus the code
   * of '0'. The source computes exactly this and never checks the
   * character, so letters and punctuation have (possibly negative) values too.
   */
  function DigitValue(c: char): int
  {
    c as int - '0' as int
  }

  /** The character of a digit value below ten. */
  function DigitChar(d: nat): (c: char)
    requires d < 10
    ensures DigitValue(c) == d
  {
    ('0' as int + d) as char
  }

  /** Every character of s is a digit of base b. */
  predicate IsDigits(s: string, b: int)
  {
    forall i :: 0 <= i < |s| ==> 0 <= DigitValue(s[i]) < b
  }

  /** Every character of s is '0' or '1'. */
  predicate IsBinary(s: string)
  {
    forall i :: 0 <= i < |s| ==> s[i] == '0' || s[i] == '1'
  }

  lemma BinaryDigits(s: string)
    ensures IsBinary(s) <==> IsDigits(s, 2)
  {
  }

  /** The value of s read in base b, most significant digit first (Horner's rule). */
  function Positional(s: string, b: int): int
  {
    if s == [] then 0 else Positional(s[..|s| - 1], b) * b + DigitValue(s[|s| - 1])
  }

  lemma BoundStep(p: int, d: int, b: int, w: int)
    requires 0 <= p < w && 0 <= d < b
    ensures 0 <= p * b + d < w * b
  {
    assert p * b <= (w - 1) * b;
  }

  /** A string of digits of base b denotes a number in [0, b^|s|). */
  lemma {:induction false} PositionalBound(s: string, b: int)
    requires b >= 1 && IsDigits(s, b)
    ensures 0 <= Positional(s, b) < Pow(b, |s|)
  {
    if s != [] {
      var p := s[..|s| - 1];
      PositionalBound(p, b);
      BoundStep(Positional(p, b), DigitValue(s[|s| - 1]), b, Pow(b, |p|));
    }
  }

  lemma ShiftDistributes(x: int, a: int, y: int, b: int, d: int)
    ensures (x * a + y) * b + d == x * (a * b) + (y * b + d)
  {
  }

  /** Reading a concatenation: the left part is shifted by the width of the right part. */
  lemma {:induction false} PositionalAppend(x: string, y: string, b: int)
    ensures Positional(x + y, b) == Positional(x, b) * Pow(b, |y|) + Positional(y, b)
  {
    if y == [] {
      assert x + y == x;
    } else {
      var y' := y[..|y| - 1];
      var d := DigitValue(y[|y| - 1]);
      assert (x + y)[..|x + y| - 1] == x + y';
      PositionalAppend(x, y', b);
      var px, py', a := Positional(x, b), Positional(y', b), Pow(b, |y'|);
      assert Positional(x + y, b) == Positional(x + y', b) * b + d;
      assert Positional(x + y', b) == px * a + py';
      assert Pow(b, |y|) == a * b;
      assert Positional(y, b) == py' * b + d;
      ShiftDistributes(px, a, py', b, d);
    }
  }

  lemma WeightStep(d: int, w: int, r: int)
    requires d >= 1 && w > 0 && r >= 0
    ensures d * w + r >= w
  {
  }

  /** A digit string whose leading digit is not zero is worth at least b^(|s|-1). */
  lemma LeadingDigitWeight(s: string, b: int)
    requires b >= 1 && IsDigits(s, b) && |s| > 0 && s[0] != '0'
    ensures Positional(s, b) >= Pow(b, |s| - 1) >= 1
  {
    var rest := s[1..];
    assert s == [s[0]] + rest;
    PositionalAppend([s[0]], rest, b);
    assert [s[0]][..0] == [];
    assert IsDigits(rest, b);
    PositionalBound(rest, b);
    PowPositive(b, |rest|);
    WeightStep(DigitValue(s[0]), Pow(b, |rest|), Positional(rest, b));
  }

  /** A string of '0's denotes zero. */
  lemma {:induction false} ZerosValue(s: string, b: int)
    requires forall i :: 0 <= i < |s| ==> s[i] == '0'
    ensures Positional(s, b) == 0
  {
    if s != [] {
      ZerosValue(s[..|s| - 1], b);
    }
  }

  /** A string of '1's of length n denotes 2^n - 1 in binary. */
  lemma {:induction false} OnesValue(s: string)
    requires forall i :: 0 <= i < |s| ==> s[i] == '1'
    ensures Positional(s, 2) == Pow(2, |s|) - 1
  {
    if s != [] {
      OnesValue(s[..|s| - 1]);
    }
  }

  /** Two binary strings of the same width denote the same number only if they are equal. */
  lemma {:induction false} BinaryInjective(x: string, y: string)
    requires IsBinary(x) && IsBinary(y) && |x| == |y|
    requires Positional(x, 2) == Positional(y, 2)
    ensures x == y
  {
    if x != [] {
      var n := |x|;
      var px, py := x[..n - 1], y[..n - 1];
      var dx, dy := DigitValue(x[n - 1]), DigitValue(y[n - 1]);
      assert 0 <= dx < 2 && 0 <= dy < 2;
      DivModTwo(Positional(px, 2), dx);
      DivModTwo(Positional(py, 2), dy);
      assert dx == dy;
      assert x[n - 1] == y[n - 1];
      BinaryInjective(px, py);
      assert x == px + [x[n - 1]];
      assert y == py + [y[n - 1]];
    }
  }

  /** A canonical numeral: at least one digit and no leading zero unless it is "0". */
  predicate IsCanonical(s: string, b: int)
  {
    IsDigits(s, b) && |s| > 0 && (|s| > 1 ==> s[0] != '0')
  }

  /**
   * The binary digits of n, most significant first and without leading
   * zeros; zero has none. This is what the shift-right loop of
   * `decimalToBinary` collects.
   */
  function Bits(n: nat): string
    decreases n
  {
    if n == 0 then [] else Bits(n / 2) + [if n % 2 == 0 then '0' else '1']
  }

  lemma DivModTwo(q: int, d: int)
    requires 0 <= d < 2
    ensures (q * 2 + d) / 2 == q && (q * 2 + d) % 2 == d
  {
  }

  /** The bits of n are binary, denote n, and start with '1' unless n is zero. */
  lemma {:induction false} BitsValue(n: nat)
    ensures IsBinary(Bits(n)) && Positional(Bits(n), 2) == n
    ensures n == 0 <==> Bits(n) == []
    ensures n > 0 ==> Bits(n)[0] == '1'
    decreases n
  {
    if n > 0 {
      var p := Bits(n / 2);
      BitsValue(n / 2);
      var r := Bits(n);
      assert r[..|r| - 1] == p;
      assert n == (n / 2) * 2 + n % 2;
    }
  }

  /** The binary rendering of n: "0" for zero, otherwise its bits. */
  function NatToBinary(n: nat): string
  {
    if n == 0 then "0" else Bits(n)
  }

  /** The binary rendering is a canonical binary numeral for n: "0", or a '1' followed by bits. */
  lemma NatToBinaryValue(n: nat)
    ensures IsBinary(NatToBinary(n)) && IsCanonical(NatToBinary(n), 2)
    ensures Positional(NatToBinary(n), 2) == n
    ensures n == 0 <==> NatToBinary(n) == "0"
    ensures n > 0 ==> NatToBinary(n)[0] == '1'
  {
    BitsValue(n);
    if n == 0 {
      assert "0"[..0] == [];
    }
  }

  /** The decimal rendering of n, as `BigInteger.toString()` prints it. */
  function NatToDecimal(n: nat): string
    decreases n
  {
    if n < 10 then [DigitChar(n)] else NatToDecimal(n / 10) + [DigitChar(n % 10)]
  }

  /** The decimal rendering is a canonical decimal numeral that denotes n. */
  lemma {:induction false} NatToDecimalValue(n: nat)
    ensures IsCanonical(NatToDecimal(n), 10)
    ensures Positional(NatToDecimal(n), 10) == n
    decreases n
  {
    var r := NatToDecimal(n);
    if n < 10 {
      assert r[..0] == [];
    } else {
      var p := NatToDecimal(n / 10);
      NatToDecimalValue(n / 10);
      assert r[..|r| - 1] == p;
      assert n == (n / 10) * 10 + n % 10;
      assert r[0] == p[0];
    }
  }

  /** The decimal rendering of a signed integer: a '-' before the magnitude when negative. */
  function IntToDecimal(i: int): string
  {
    if i < 0 then "-" + NatToDecimal(-i) else NatToDecimal(i)
  }

  /** The number a decimal rendering denotes, reading a leading '-' as a minus sign. */
  function DecimalValue(t: string): int
  {
    if |t| > 0 && t[0] == '-' then -Positional(t[1..], 10) else Positional(t, 10)
  }

  /** The signed decimal rendering denotes the integer it renders. */
  lemma IntToDecimalValue(i: int)
    ensures DecimalValue(IntToDecimal(i)) == i
  {
    if i < 0 {
      NatToDecimalValue(-i);
      assert ("-" + NatToDecimal(-i))[1..] == NatToDecimal(-i);
    } else {
      NatToDecimalValue(i);
    }
  }

  lemma DivModTen(q: int, d: int)
    requires 0 <= d < 10
    ensures (q * 10 + d) / 10 == q && (q * 10 + d) % 10 == d
  {
  }

  /** Reading a canonical decimal numeral and printing the number gives back the numeral. */
  lemma {:induction false} CanonicalDecimalRoundTrip(t: string)
    requires IsCanonical(t, 10)
    ensures Positional(t, 10) >= 0 && NatToDecimal(Positional(t, 10)) == t
  {
    var n := |t|;
    PositionalBound(t, 10);
    if n == 1 {
      assert t[..0] == [];
      assert Positional(t, 10) == DigitValue(t[0]);
      assert DigitChar(DigitValue(t[0])) == t[0];
    } else {
      var u := t[..n - 1];
      var d := DigitValue(t[n - 1]);
      assert IsCanonical(u, 10) by {
        assert u[0] == t[0];
      }
      LeadingDigitWeight(u, 10);
      CanonicalDecimalRoundTrip(u);
      var v := Positional(t, 10);
      assert v == Positional(u, 10) * 10 + d;
      DivModTen(Positional(u, 10), d);
      assert DigitChar(d) == t[n - 1];
      assert t == u + [t[n - 1]];
    }
  }
}
