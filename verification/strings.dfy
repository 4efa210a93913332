/** String primitives the application relies on, restricted to ASCII:
    Python's `str.lower`, `str.split`, `str.join` and `str.isdigit`, `int()`
    on a digit string, and JavaScript's `toLowerCase` and `indexOf`. */
module Strings {
  import opened Wrappers

  // ---------------------------------------------------------------------
  // Case folding
  // ---------------------------------------------------------------------

  /** ASCII lower-casing of one character; every other character is kept. */
  function LowerChar(c: char): char {
    if 'A' <= c <= 'Z' then (c as int + 32) as char else c
  }

  /** Lower-cases every character of `s`, keeping its length. */
  function Lower(s: string): (r: string)
    ensures |r| == |s|
    ensures forall i :: 0 <= i < |s| ==> r[i] == LowerChar(s[i])
  {
    seq(|s|, i requires 0 <= i < |s| => LowerChar(s[i]))
  }

  lemma LowerSlice(s: string, i: int, j: int)
    requires 0 <= i <= j <= |s|
    ensures Lower(s)[i..j] == Lower(s[i..j])
  {
  }

  /** Lower-casing neither creates nor removes a dot. */
  lemma DotFreeUnderLower(s: string)
    requires '.' !in Lower(s)
    ensures '.' !in s
  {
    forall i | 0 <= i < |s|
      ensures s[i] != '.'
    {
      assert Lower(s)[i] == LowerChar(s[i]);
    }
  }

  // ---------------------------------------------------------------------
  // Substring search
  // ---------------------------------------------------------------------

  /** `needle` occurs in `hay` starting at position `k`. */
  predicate MatchAt(hay: string, needle: string, k: int) {
    0 <= k && k + |needle| <= |hay| && hay[k..k + |needle|] == needle
  }

  /** `needle` occurs somewhere in `hay` (an empty needle occurs everywhere). */
  ghost predicate Contains(hay: string, needle: string) {
    exists k :: MatchAt(hay, needle, k)
  }

  /** The first occurrence of `needle` in `hay` at or after `from`. */
  function IndexFrom(hay: string, needle: string, from: nat): (r: Option<nat>)
    decreases |hay| - from
    ensures r.Some? ==> from <= r.value && MatchAt(hay, needle, r.value)
    ensures r.Some? ==> forall k :: from <= k < r.value ==> !MatchAt(hay, needle, k)
    ensures r.None? ==> forall k :: from <= k ==> !MatchAt(hay, needle, k)
  {
    if from + |needle| > |hay| then None
    else if hay[from..from + |needle|] == needle then Some(from)
    else IndexFrom(hay, needle, from + 1)
  }

  /** JavaScript's `hay.indexOf(needle)`, with `None` for its `-1`. */
  function IndexOf(hay: string, needle: string): (r: Option<nat>)
    ensures r.Some? <==> Contains(hay, needle)
    ensures r.Some? ==> MatchAt(hay, needle, r.value)
    ensures r.Some? ==> forall k :: 0 <= k < r.value ==> !MatchAt(hay, needle, k)
  {
    IndexFrom(hay, needle, 0)
  }

  /** The slice of `hay` of length `|needle|` at `k` equals `needle` up to
      case. */
  predicate FoldedMatchAt(hay: string, needle: string, k: int) {
    0 <= k && k + |needle| <= |hay| && Lower(hay[k..k + |needle|]) == Lower(needle)
  }

  /** JavaScript's `indexOf` on both strings lower-cased: the first position
      where `needle` occurs in `hay` up to case. */
  function IndexOfIgnoringCase(hay: string, needle: string): (r: Option<nat>)
    ensures r.Some? <==> exists k :: FoldedMatchAt(hay, needle, k)
    ensures r.Some? ==> FoldedMatchAt(hay, needle, r.value)
    ensures r.Some? ==> forall k :: 0 <= k < r.value ==> !FoldedMatchAt(hay, needle, k)
  {
    var r := IndexOf(Lower(hay), Lower(needle));
    forall k | 0 <= k && k + |needle| <= |hay|
      ensures FoldedMatchAt(hay, needle, k) <==> MatchAt(Lower(hay), Lower(needle), k)
    {
      LowerSlice(hay, k, k + |needle|);
    }
    r
  }

  /** Case-insensitive containment, as SQL `LIKE '%term%'` behaves on ASCII
      text (Django's `icontains`). */
  predicate IContains(hay: string, needle: string) {
    IndexOfIgnoringCase(hay, needle).Some?
  }

  // ---------------------------------------------------------------------
  // Python's str.split(sep) and sep.join(parts)
  // ---------------------------------------------------------------------

  /** `sep.join(parts)`. */
  function Join(parts: seq<string>, sep: string): string
  {
    if |parts| == 0 then ""
    else if |parts| == 1 then parts[0]
    else Join(parts[..|parts| - 1], sep) + sep + parts[|parts| - 1]
  }

  /** Appending a piece adds the separator and the piece to the end. */
  lemma JoinStep(parts: seq<string>, p: string, sep: string)
    requires |parts| >= 1
    ensures Join(parts + [p], sep) == Join(parts, sep) + sep + p
  {
    assert (parts + [p])[..|parts|] == parts;
  }

  /** `s.split(sep)` for a one-character separator: the pieces between the
      separators, always at least one, none containing the separator, and
      joining back to `s`. */
  function Split(s: string, sep: char): (parts: seq<string>)
    ensures |parts| >= 1
    ensures forall i :: 0 <= i < |parts| ==> sep !in parts[i]
    ensures Join(parts, [sep]) == s
  {
    if |s| == 0 then [""]
    else
      var init := Split(s[..|s| - 1], sep);
      var c := s[|s| - 1];
      assert s == s[..|s| - 1] + [c];
      if c == sep then
        assert (init + [""])[..|init|] == init;
        init + [""]
      else
        var parts := init[..|init| - 1] + [init[|init| - 1] + [c]];
        assert parts[..|parts| - 1] == init[..|init| - 1];
        assert sep !in init[|init| - 1] + [c] by {
          assert sep !in init[|init| - 1];
        }
        parts
  }

  /** The last piece of `s.split(sep)`: the text after the last separator. */
  function LastPiece(s: string, sep: char): string
  {
    var parts := Split(s, sep);
    parts[|parts| - 1]
  }

  /** Joining pieces that contain no separator gives a string that contains
      the separator exactly when there were at least two pieces. */
  lemma {:induction false} JoinHasSeparator(parts: seq<string>, sep: char)
    requires |parts| >= 1
    requires forall i :: 0 <= i < |parts| ==> sep !in parts[i]
    ensures sep in Join(parts, [sep]) <==> |parts| >= 2
  {
    if |parts| >= 2 {
      var j := Join(parts[..|parts| - 1], [sep]);
      assert (j + [sep] + parts[|parts| - 1])[|j|] == sep;
    }
  }

  /** A separator with no separator after it is the last one, so there is
      only one such position. */
  lemma LastSeparatorUnique(s: string, sep: char, i: int, j: int)
    requires 0 <= i < |s| && 0 <= j < |s|
    requires s[i] == sep && sep !in s[i + 1..]
    requires s[j] == sep && sep !in s[j + 1..]
    ensures i == j
  {
    NoSeparatorAfter(s, sep, i);
    NoSeparatorAfter(s, sep, j);
  }

  lemma NoSeparatorAfter(s: string, sep: char, i: int)
    requires 0 <= i < |s| && sep !in s[i + 1..]
    ensures forall k :: i < k < |s| ==> s[k] != sep
  {
    forall k | i < k < |s|
      ensures s[k] != sep
    {
      assert s[i + 1..][k - i - 1] == s[k];
    }
  }

  /** `s.split(sep)` has at least two pieces exactly when `sep` occurs in `s`,
      which is when unpacking the last two pieces into two names succeeds. */
  lemma SplitHasTwoPieces(s: string, sep: char)
    ensures |Split(s, sep)| >= 2 <==> sep in s
  {
    JoinHasSeparator(Split(s, sep), sep);
  }

  /** The last piece is the longest separator-free suffix of `s`: it is a
      suffix, and either it is all of `s` or a separator precedes it. */
  lemma {:induction false} LastPieceIsSuffix(s: string, sep: char)
    ensures var p := LastPiece(s, sep);
      && |p| <= |s| && s[|s| - |p|..] == p && sep !in p
      && (|p| == |s| <==> sep !in s)
      && (|p| < |s| ==> s[|s| - |p| - 1] == sep)
  {
    var parts := Split(s, sep);
    var p := parts[|parts| - 1];
    SplitHasTwoPieces(s, sep);
    if |parts| == 1 {
      assert Join(parts, [sep]) == p;
    } else {
      var j := Join(parts[..|parts| - 1], [sep]);
      assert s == j + [sep] + p;
      assert s[|s| - |p|..] == p;
      assert s[|s| - |p| - 1] == sep;
    }
  }

  /** When `s[k]` is the last separator of `s`, the last piece is what
      follows it. */
  lemma LastPieceAfter(s: string, sep: char, k: int)
    requires 0 <= k < |s| && s[k] == sep && sep !in s[k + 1..]
    ensures LastPiece(s, sep) == s[k + 1..]
  {
    LastPieceIsSuffix(s, sep);
  }

  /** Without a separator the last piece is the whole string. */
  lemma LastPieceWhole(s: string, sep: char)
    requires sep !in s
    ensures LastPiece(s, sep) == s
  {
    LastPieceIsSuffix(s, sep);
  }

  // ---------------------------------------------------------------------
  // Digits: Python's str.isdigit() and int()
  // ---------------------------------------------------------------------

  predicate IsDigitChar(c: char) {
    '0' <= c <= '9'
  }

  /** Python's `s.isdigit()` on ASCII: non-empty and every character a digit. */
  predicate IsDigits(s: string) {
    |s| > 0 && forall i :: 0 <= i < |s| ==> IsDigitChar(s[i])
  }

  /** Python's `int(s)` on a digit string (leading zeros allowed). */
  function DigitsValue(s: string): nat
    requires forall i :: 0 <= i < |s| ==> IsDigitChar(s[i])
  {
    if |s| == 0 then 0
    else
      assert IsDigitChar(s[|s| - 1]);
      DigitsValue(s[..|s| - 1]) * 10 + (s[|s| - 1] as int - '0' as int)
  }

  /** Python's `str(n)`: the decimal digits of `n` without leading zeros. */
  function NatToDigits(n: nat): (s: string)
    ensures IsDigits(s)
  {
    if n < 10 then [('0' as int + n) as char]
    else NatToDigits(n / 10) + [('0' as int + n % 10) as char]
  }

  /** `int(str(n)) == n`: the decimal rendering of an identifier is parsed
      back to the same identifier. */
  lemma {:induction false} DigitsRoundTrip(n: nat)
    ensures DigitsValue(NatToDigits(n)) == n
  {
    var s := NatToDigits(n);
    if n >= 10 {
      DigitsRoundTrip(n / 10);
      assert s[..|s| - 1] == NatToDigits(n / 10);
    }
  }
}
