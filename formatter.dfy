/**
 * The formatter: `group` inserts a delimiter between groups of digits,
 * counting from the right, with a group size and delimiter chosen by the
 * kind of the value.
 */
module Formatter {
  import opened Settings

  /** The delimiter `group` uses: an apostrophe for decimal, a space for binary and hex. */
  function Delimiter(t: InputType): char
  {
    if t == DEC then '\'' else ' '
  }

  /** The group size `group` uses: the configured size for the kind. */
  function GroupSize(cfg: Config, t: InputType): int
  {
    match t
    case DEC => cfg.decGroup
    case BIN => cfg.binGroup
    case HEX => cfg.hexGroup
  }

  /**
   * What `group` returns: s with d inserted after every character that has
   * a positive multiple of g characters to its right. Size 0 disables
   * grouping. A negative size groups like its magnitude, since only
   * divisibility is tested.
   */
  function Grouped(s: string, g: int, d: char): string
  {
    if g == 0 || s == [] then s
    else [s[0]] + (if (|s| - 1) % g == 0 && |s| - 1 != 0 then [d] else []) + Grouped(s[1..], g, d)
  }

  /** `group(in, type)`: walks from the right, counting characters in `idx`, and prepends. */
  method Group(s: string, t: InputType, cfg: Config) returns (r: string)
    ensures r == Grouped(s, GroupSize(cfg, t), Delimiter(t))
  {
    var groupings := GroupSize(cfg, t);
    var delim := Delimiter(t);
    if groupings == 0 {
      return s;
    }
    r := "";
    var idx := 0;
    var i := |s| - 1;
    while i >= 0
      invariant -1 <= i < |s|
      invariant idx == |s| - 1 - i
      invariant r == Grouped(s[i + 1..], groupings, delim)
    {
      assert s[i..][1..] == s[i + 1..];
      if idx % groupings == 0 && idx != 0 {
        r := [delim] + r;
      }
      r := [s[i]] + r;
      idx := idx + 1;
      i := i - 1;
    }
    assert s[0..] == s;
  }

  /** The characters of t other than d, in order. */
  function Without(t: string, d: char): string
  {
    if t == [] then [] else (if t[0] == d then [] else [t[0]]) + Without(t[1..], d)
  }

  /** Deleting the delimiters gives the input back, when the input has none of its own. */
  lemma {:induction false} Ungroup(s: string, g: int, d: char)
    requires forall i :: 0 <= i < |s| ==> s[i] != d
    ensures Without(Grouped(s, g, d), d) == s
  {
    if g == 0 {
      WithoutAbsent(s, d);
    } else if s != [] {
      Ungroup(s[1..], g, d);
      var mid: string := if (|s| - 1) % g == 0 && |s| - 1 != 0 then [d] else [];
      var t := Grouped(s, g, d);
      WithoutAppend([s[0]] + mid, Grouped(s[1..], g, d), d);
      WithoutAppend([s[0]], mid, d);
      assert [s[0]][1..] == [];
      if mid != [] {
        assert mid[1..] == [];
      }
      assert s == [s[0]] + s[1..];
    }
  }

  lemma {:induction false} WithoutAbsent(s: string, d: char)
    requires forall i :: 0 <= i < |s| ==> s[i] != d
    ensures Without(s, d) == s
  {
    if s != [] {
      WithoutAbsent(s[1..], d);
      assert s == [s[0]] + s[1..];
    }
  }

  lemma {:induction false} WithoutAppend(x: string, y: string, d: char)
    ensures Without(x + y, d) == Without(x, d) + Without(y, d)
  {
    if x != [] {
      assert (x + y)[1..] == x[1..] + y;
      WithoutAppend(x[1..], y, d);
    } else {
      assert x + y == y;
    }
  }

  /** Grouping never puts a delimiter first or last: the first and last characters are the input's. */
  lemma {:induction false} GroupedEnds(s: string, g: int, d: char)
    requires s != []
    ensures Grouped(s, g, d) != []
    ensures Grouped(s, g, d)[0] == s[0]
    ensures Grouped(s, g, d)[|Grouped(s, g, d)| - 1] == s[|s| - 1]
  {
    if g != 0 && |s| > 1 {
      GroupedEnds(s[1..], g, d);
    }
  }

  /** A string no longer than the group size is one group. */
  lemma {:induction false} SingleGroup(s: string, g: int, d: char)
    requires |s| <= g || |s| <= -g
    ensures Grouped(s, g, d) == s
  {
    if g != 0 && s != [] {
      SingleGroup(s[1..], g, d);
      DivModUnique(|s| - 1, g, 0, |s| - 1);
    }
  }

  lemma {:induction false} GroupedAppend(x: string, y: string, g: int, d: char)
    requires g != 0 && x != [] && y != [] && |y| % g == 0
    ensures Grouped(x + y, g, d) == Grouped(x, g, d) + [d] + Grouped(y, g, d)
  {
    var xy := x + y;
    assert xy[1..] == x[1..] + y;
    if |x| == 1 {
      assert x[1..] == [];
      assert (|xy| - 1) % g == 0;
    } else {
      GroupedAppend(x[1..], y, g, d);
      ShiftedRemainder(|x| - 1, |y|, g);
    }
  }

  /** Euclidean division is unique: a quotient and remainder in range are the ones `/` and `%` give. */
  lemma DivModUnique(x: int, g: int, q: int, r: int)
    requires g != 0 && x == g * q + r && 0 <= r < (if g < 0 then -g else g)
    ensures x / g == q && x % g == r
  {
    var m := q - x / g;
    assert g * m == x % g - r by {
      assert g * q - g * (x / g) == g * m;
    }
  }

  lemma ShiftedRemainder(a: int, b: int, g: int)
    requires g != 0 && b % g == 0
    ensures (a + b) % g == 0 <==> a % g == 0
  {
    DivModUnique(a + b, g, a / g + b / g, a % g);
  }

  /**
   * The group structure: when s is longer than the group size, its last
   * |g| characters form a group after a delimiter and the rest is grouped
   * the same way; otherwise s is a single group. So every group but the
   * leftmost has exactly |g| characters and the leftmost has 1 to |g|.
   */
  lemma GroupedFromRight(s: string, g: int, d: char)
    requires g != 0
    ensures var k := if g < 0 then -g else g;
      (|s| <= k ==> Grouped(s, g, d) == s) &&
      (|s| > k ==> Grouped(s, g, d) == Grouped(s[..|s| - k], g, d) + [d] + s[|s| - k..])
  {
    var k := if g < 0 then -g else g;
    if |s| <= k {
      SingleGroup(s, g, d);
    } else {
      var x, y := s[..|s| - k], s[|s| - k..];
      assert s == x + y;
      assert |y| % g == 0 by {
        assert |y| == g * (if g < 0 then -1 else 1);
      }
      GroupedAppend(x, y, g, d);
      SingleGroup(y, g, d);
    }
  }

  /** One delimiter per complete group to the right of the first character. */
  lemma {:induction false} GroupedLength(s: string, g: int, d: char)
    requires g > 0 && s != []
    ensures |Grouped(s, g, d)| == |s| + (|s| - 1) / g
  {
    if |s| > 1 {
      GroupedLength(s[1..], g, d);
      var n := |s| - 1;
      if n % g == 0 {
        assert n / g == (n - 1) / g + 1 by {
          DivStep(n, g);
        }
      } else {
        assert n / g == (n - 1) / g by {
          DivStep(n, g);
        }
      }
    }
  }

  lemma DivStep(n: int, g: int)
    requires g > 0 && n > 0
    ensures n % g == 0 ==> n / g == (n - 1) / g + 1
    ensures n % g != 0 ==> n / g == (n - 1) / g
  {
    var q, r := n / g, n % g;
    if r == 0 {
      DivModUnique(n - 1, g, q - 1, g - 1);
    } else {
      DivModUnique(n - 1, g, q, r - 1);
    }
  }
}
