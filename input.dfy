/**
 * The input classifier and sanitiser: `setInputType` decides from a two-
 * character prefix whether the input is binary, hexadecimal or decimal, and
 * `cleanString` strips that prefix and drops the separator characters a
 * user may type between digits.
 */
module Input {
  import opened Settings

  /**
   * The kind `setInputType` assigns: binary or hexadecimal only for an
   * input longer than two characters that starts with `0b`/`0B` or
   * `0x`/`0X`; decimal otherwise.
   */
  function Classify(s: string): InputType
  {
    if |s| > 2 && (s[..2] == "0b" || s[..2] == "0B") then BIN
    else if |s| > 2 && (s[..2] == "0x" || s[..2] == "0X") then HEX
    else DEC
  }

  /** Whether `setInputType` marks the input negative: a decimal input whose first character is '-'. */
  predicate IsNegative(s: string)
    requires |s| > 0
  {
    Classify(s) == DEC && s[0] == '-'
  }

  /** The prefix test of `cleanString`: the same four prefixes, again only for inputs longer than two. */
  predicate HasPrefix(s: string)
  {
    |s| > 2 && s[0] == '0' && (s[1] == 'b' || s[1] == 'B' || s[1] == 'x' || s[1] == 'X')
  }

  function StripPrefix(s: string): (r: string)
  {
    if HasPrefix(s) then s[2..] else s
  }

  /** The characters `cleanString` skips. */
  predicate IsSeparator(c: char)
  {
    c == ' ' || c == '-' || c == '\'' || c == '_'
  }

  /** The characters of s that are not separators, in order. */
  function RemoveSeparators(s: string): string
  {
    if s == [] then []
    else RemoveSeparators(s[..|s| - 1]) + (if IsSeparator(s[|s| - 1]) then [] else [s[|s| - 1]])
  }

  /** What `cleanString` returns. */
  function Cleaned(s: string): string
  {
    RemoveSeparators(StripPrefix(s))
  }

  /** `cleanString`: strips a prefix, then appends every character that is not a separator. */
  method CleanString(s: string) returns (r: string)
    ensures r == Cleaned(s)
  {
    var t := s;
    if |t| > 2 {
      var strip := false;
      var head := t[..2];
      if head == "0b" || head == "0B" || head == "0x" || head == "0X" {
        strip := true;
      }
      if strip {
        t := t[2..];
      }
    }
    r := "";
    var i := 0;
    while i < |t|
      invariant 0 <= i <= |t|
      invariant t == StripPrefix(s)
      invariant r == RemoveSeparators(t[..i])
    {
      assert t[..i + 1][..i] == t[..i];
      if !IsSeparator(t[i]) {
        r := r + [t[i]];
      }
      i := i + 1;
    }
    assert t[..|t|] == t;
  }

  /** The two prefix tests agree: the prefix is stripped exactly when the input is classified binary or hexadecimal. */
  lemma ClassifyStrips(s: string)
    ensures Classify(s) != DEC <==> HasPrefix(s)
    ensures Classify(s) != DEC ==> StripPrefix(s) == s[2..]
    ensures Classify(s) == DEC ==> StripPrefix(s) == s
  {
    if |s| > 2 {
      assert s[..2] == [s[0], s[1]];
    }
  }

  /** Filtering distributes over concatenation, so kept characters stay in order. */
  lemma {:induction false} RemoveSeparatorsAppend(x: string, y: string)
    ensures RemoveSeparators(x + y) == RemoveSeparators(x) + RemoveSeparators(y)
  {
    if y == [] {
      assert x + y == x;
    } else {
      var y' := y[..|y| - 1];
      assert (x + y)[..|x + y| - 1] == x + y';
      RemoveSeparatorsAppend(x, y');
    }
  }

  /** A separator between two parts is dropped; any other character is kept in its place. */
  lemma RemoveSeparatorsAt(x: string, c: char, y: string)
    ensures RemoveSeparators(x + [c] + y)
         == RemoveSeparators(x) + (if IsSeparator(c) then [] else [c]) + RemoveSeparators(y)
  {
    RemoveSeparatorsAppend(x + [c], y);
    RemoveSeparatorsAppend(x, [c]);
    assert [c][..0] == [];
  }

  /** No separator survives. */
  lemma {:induction false} NoSeparatorsLeft(s: string)
    ensures forall i :: 0 <= i < |RemoveSeparators(s)| ==> !IsSeparator(RemoveSeparators(s)[i])
  {
    if s != [] {
      NoSeparatorsLeft(s[..|s| - 1]);
    }
  }

  /** The filter changes nothing exactly when there is nothing to remove. */
  lemma {:induction false} RemoveSeparatorsIdentity(s: string)
    ensures RemoveSeparators(s) == s <==> forall i :: 0 <= i < |s| ==> !IsSeparator(s[i])
  {
    if s != [] {
      var p := s[..|s| - 1];
      RemoveSeparatorsIdentity(p);
      RemoveSeparatorsLength(p);
      if RemoveSeparators(s) == s {
        assert !IsSeparator(s[|s| - 1]);
        assert RemoveSeparators(p) == p;
      }
      if forall i :: 0 <= i < |s| ==> !IsSeparator(s[i]) {
        assert forall i :: 0 <= i < |p| ==> !IsSeparator(p[i]);
        assert s == p + [s[|s| - 1]];
      }
    }
  }

  /** Filtering never lengthens. */
  lemma {:induction false} RemoveSeparatorsLength(s: string)
    ensures |RemoveSeparators(s)| <= |s|
  {
    if s != [] {
      RemoveSeparatorsLength(s[..|s| - 1]);
    }
  }

  /** Cleaning output has no separators, and removing separators from it again changes nothing. */
  lemma CleanedIsClean(s: string)
    ensures forall i :: 0 <= i < |Cleaned(s)| ==> !IsSeparator(Cleaned(s)[i])
    ensures RemoveSeparators(Cleaned(s)) == Cleaned(s)
  {
    NoSeparatorsLeft(StripPrefix(s));
    RemoveSeparatorsIdentity(Cleaned(s));
  }
}
