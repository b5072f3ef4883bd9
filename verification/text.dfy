/**
  Strings, character classes and the small scanning primitives shared by the
  classifier, the text normalizer and the invoice extractor.

  The Python source uses `re` patterns on `str` values, where `\w`, `\d` and
  `\s` are Unicode-aware. This model is restricted to the ASCII alphabet: each
  class below agrees with Python's on every ASCII character and contains no
  other character. `[a-z]`, `[A-Z]` and `[0-9]` are ASCII ranges in Python too.
 */
module Text {

  datatype Option<+T> = None | Some(value: T)

  predicate IsLower(c: char) { 'a' <= c <= 'z' }

  predicate IsUpper(c: char) { 'A' <= c <= 'Z' }

  predicate IsLetter(c: char) { IsLower(c) || IsUpper(c) }

  /** `\d` and `[0-9]` on ASCII. */
  predicate IsDigit(c: char) { '0' <= c <= '9' }

  /** `\w` on ASCII: letters, digits and the underscore. */
  predicate IsWordChar(c: char) { IsLetter(c) || IsDigit(c) || c == '_' }

  /** `\s` on ASCII for a `str` pattern: the characters for which `str.isspace()`
      holds, that is tab, line feed, vertical tab, form feed, carriage return
      (9..13), the information separators 0x1C..0x1F and the space (32). */
  predicate IsSpace(c: char) { ('\t' <= c <= '\r') || ('\U{1C}' <= c <= ' ') }

  /** `str.lower()` on one ASCII character; other characters are unchanged. */
  function LowerChar(c: char): (d: char)
    ensures IsUpper(c) ==> IsLower(d) && d as int == c as int + 32
    ensures !IsUpper(c) ==> d == c
  {
    if IsUpper(c) then (c as int + 32) as char else c
  }

  /** `str.lower()` on an ASCII string. */
  function Lower(s: string): (r: string)
    ensures |r| == |s|
    ensures forall k :: 0 <= k < |s| ==> r[k] == LowerChar(s[k])
  {
    seq(|s|, k requires 0 <= k < |s| => LowerChar(s[k]))
  }

  /** `w` occurs in `s` starting at index `k`. */
  predicate OccursAt(w: string, s: string, k: nat)
  {
    k + |w| <= |s| && s[k..k + |w|] == w
  }

  /** Python's `w in s` for strings: substring test. */
  predicate Contains(s: string, w: string)
  {
    exists k: nat | k <= |s| :: OccursAt(w, s, k)
  }

  /** A word whose first letter, in either letter case, is at none of the
      indices where the word would fit is not in the lower-cased `s`. */
  lemma NotContainsLower(s: string, w: string)
    requires |w| > 0 && IsLower(w[0])
    requires forall k :: 0 <= k <= |s| - |w| ==> s[k] != w[0] && s[k] as int != w[0] as int - 32
    ensures !Contains(Lower(s), w)
  {
    forall k: nat | k <= |s|
      ensures !OccursAt(w, Lower(s), k)
    {
      if k + |w| <= |s| {
        assert Lower(s)[k..k + |w|][0] == LowerChar(s[k]);
      }
    }
  }

  /** A word that `s` starts with, up to letter case, is in the lower-cased
      `s`. */
  lemma ContainsLowerPrefix(s: string, w: string)
    requires |w| <= |s| && forall i :: 0 <= i < |w| ==> LowerChar(s[i]) == w[i]
    ensures Contains(Lower(s), w)
  {
    assert Lower(s)[..|w|] == w;
    assert OccursAt(w, Lower(s), 0);
  }

  /** The character classes a greedy run (`X+` or `X*`) ranges over. */
  datatype CharClass = Blank | Space | Digit | DigitOrComma | Word

  predicate InClass(cls: CharClass, c: char)
  {
    match cls
    case Blank => c == ' '
    case Space => IsSpace(c)
    case Digit => IsDigit(c)
    case DigitOrComma => IsDigit(c) || c == ','
    case Word => IsWordChar(c)
  }

  /** Every character of `s[lo..hi]` is in `cls`. */
  predicate AllIn(cls: CharClass, s: string, lo: nat, hi: nat)
    requires lo <= hi <= |s|
  {
    forall m :: lo <= m < hi ==> InClass(cls, s[m])
  }

  /** Greedy (maximal-munch) run: the end of the longest run of `cls`
      characters that starts at index `j`. */
  function RunEnd(cls: CharClass, s: string, j: nat): (k: nat)
    requires j <= |s|
    ensures j <= k <= |s|
    ensures AllIn(cls, s, j, k)
    ensures k == |s| || !InClass(cls, s[k])
    decreases |s| - j
  {
    if j < |s| && InClass(cls, s[j]) then RunEnd(cls, s, j + 1) else j
  }

  /** A run that is all in `cls` and stops at a character outside it (or at the
      end) is the greedy run. */
  lemma RunEndUnique(cls: CharClass, s: string, j: nat, k: nat)
    requires j <= k <= |s|
    requires AllIn(cls, s, j, k)
    requires k == |s| || !InClass(cls, s[k])
    ensures RunEnd(cls, s, j) == k
  {
  }
}
