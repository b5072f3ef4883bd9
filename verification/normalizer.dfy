/**
  The text normalizer `fix_spacing` of main.py: seven `re.sub` passes run one
  after the other. Each pass is written as an explicit scanner that walks the
  text left to right and, where the pattern matches, replaces the match and
  continues after it; elsewhere it copies one character and moves on. That is
  how `re.sub` treats a pattern that never matches the empty string.

  Steps 1 to 6 have at most one match at a position, which the scanners below
  compute directly. The digit run of a glyph code must be followed by `)`, and
  steps 2 to 6 are fixed windows. Step 7's ` +` matches every non-empty prefix
  of a run of spaces. As in Python's greedy matcher, its scanner takes the
  whole run.
 */
module Normalizer {
  import opened Text

  // ---------------------------------------------------------------------
  // Step 1: `\(cid:[0-9]+\)` is deleted.

  /** A PDF glyph code: `(cid:`, one or more digits, `)`. */
  predicate IsCidCode(x: string)
  {
    |x| >= 7 && x[..5] == "(cid:" && x[|x| - 1] == ')' && AllIn(Digit, x, 5, |x| - 1)
  }

  /** Length of the glyph code at the start of `s`, or 0 when none starts there. */
  function CidCodeLength(s: string): (n: nat)
    ensures n == 0 || (n <= |s| && IsCidCode(s[..n]))
  {
    if |s| >= 5 && s[..5] == "(cid:" then
      var d := RunEnd(Digit, s, 5);
      if d > 5 && d < |s| && s[d] == ')' then
        assert s[..d + 1][..5] == "(cid:";
        assert forall m :: 5 <= m < d ==> s[..d + 1][m] == s[m];
        d + 1
      else 0
    else 0
  }

  /** The scanner's match is the only glyph code that starts at the front. */
  lemma CidCodeLengthUnique(s: string, m: nat)
    requires 0 < m <= |s| && IsCidCode(s[..m])
    ensures CidCodeLength(s) == m
  {
    assert s[..5] == s[..m][..5];
    assert forall k :: 5 <= k < m - 1 ==> s[k] == s[..m][k];
    assert s[m - 1] == s[..m][m - 1];
    RunEndUnique(Digit, s, 5, m - 1);
  }

  /** No glyph code starts anywhere in `s`. */
  predicate NoCidCode(s: string)
    decreases |s|
  {
    |s| == 0 || (CidCodeLength(s) == 0 && NoCidCode(s[1..]))
  }

  /** Step 1 (main.py:38). */
  function RemoveCidCodes(s: string): (r: string)
    ensures |r| <= |s|
    decreases |s|
  {
    if |s| == 0 then ""
    else
      var n := CidCodeLength(s);
      if n > 0 then RemoveCidCodes(s[n..]) else [s[0]] + RemoveCidCodes(s[1..])
  }

  /** Step 1 deletes characters and never adds or changes any. */
  lemma {:induction false} RemoveCidCodesKeeps(s: string)
    ensures multiset(RemoveCidCodes(s)) <= multiset(s)
    decreases |s|
  {
    if |s| > 0 {
      var n := CidCodeLength(s);
      if n > 0 {
        RemoveCidCodesKeeps(s[n..]);
        SubMultisetOfSuffix(s, n, RemoveCidCodes(s[n..]));
      } else {
        RemoveCidCodesKeeps(s[1..]);
        SubMultisetOfSuffix(s, 1, RemoveCidCodes(s[1..]));
      }
    }
  }

  /** What is drawn from a suffix of `s`, possibly with the first character of
      `s` in front, is drawn from `s`. */
  lemma SubMultisetOfSuffix(s: string, n: nat, r: string)
    requires 0 < n <= |s| && multiset(r) <= multiset(s[n..])
    ensures multiset(r) <= multiset(s)
    ensures multiset([s[0]] + r) <= multiset(s)
  {
    assert s == s[..n] + s[n..];
    assert s[..n] == [s[0]] + s[1..n];
  }

  /** Step 1 leaves a text unchanged exactly when no glyph code occurs in it;
      otherwise the text gets shorter. */
  lemma {:induction false} RemoveCidCodesFixedPoints(s: string)
    ensures RemoveCidCodes(s) == s <==> NoCidCode(s)
    ensures !NoCidCode(s) ==> |RemoveCidCodes(s)| < |s|
    decreases |s|
  {
    if |s| > 0 {
      var n := CidCodeLength(s);
      if n > 0 {
        assert |RemoveCidCodes(s[n..])| <= |s| - n;
      } else {
        RemoveCidCodesFixedPoints(s[1..]);
      }
    }
  }

  /** A glyph code starts at the front of `s`. */
  predicate CodeAtFront(s: string)
  {
    exists n :: 0 < n <= |s| && IsCidCode(s[..n])
  }

  /** `r` is `s` read left to right with every glyph code met on the way
      deleted: where a code starts, it is dropped and reading resumes after
      it; any other character is kept, in order. */
  predicate CodesDeleted(s: string, r: string)
    decreases |s|
  {
    if |s| == 0 then |r| == 0
    else if CodeAtFront(s) then
      exists n :: 0 < n <= |s| && IsCidCode(s[..n]) && CodesDeleted(s[n..], r)
    else |r| > 0 && r[0] == s[0] && CodesDeleted(s[1..], r[1..])
  }

  /** The scanner finds a code at the front exactly when one is there. */
  lemma CodeAtFrontLength(s: string)
    ensures CodeAtFront(s) <==> CidCodeLength(s) > 0
  {
    if CodeAtFront(s) {
      var n :| 0 < n <= |s| && IsCidCode(s[..n]);
      CidCodeLengthUnique(s, n);
    }
  }

  /** Step 1 deletes exactly the glyph codes a left-to-right reading meets. */
  lemma {:induction false} RemoveCidCodesDeletes(s: string)
    ensures CodesDeleted(s, RemoveCidCodes(s))
    decreases |s|
  {
    if |s| > 0 {
      var n := CidCodeLength(s);
      CodeAtFrontLength(s);
      if n > 0 {
        RemoveCidCodesDeletes(s[n..]);
      } else {
        RemoveCidCodesDeletes(s[1..]);
      }
    }
  }

  /** The deletion is determined by the text: step 1's output is the only
      text related to the input. */
  lemma {:induction false} CodesDeletedUnique(s: string, r: string)
    requires CodesDeleted(s, r)
    ensures r == RemoveCidCodes(s)
    decreases |s|
  {
    if |s| > 0 {
      CodeAtFrontLength(s);
      if CodeAtFront(s) {
        var n :| 0 < n <= |s| && IsCidCode(s[..n]) && CodesDeleted(s[n..], r);
        CidCodeLengthUnique(s, n);
        CodesDeletedUnique(s[n..], r);
      } else {
        CodesDeletedUnique(s[1..], r[1..]);
        assert r == [r[0]] + r[1..];
      }
    }
  }

  /** `a(cid:7)b` becomes `ab`. */
  lemma ExampleCidCode(s: string)
    requires s == "a(cid:7)b"
    ensures RemoveCidCodes(s) == "ab"
  {
    CidCodeBetween(s);
  }

  // The example lemmas hand a literal to a helper that takes it character by
  // character (`|x| == n && x[0] == ...`). Given the literal itself, the
  // verifier unfolds every function on it at once, which costs far more.
  // For the same reason the spacing examples assert `NoMatchAnywhere` on
  // each suffix in turn. The quantified `NoMatchAnywhereIf` is used only
  // on the shortest text.
  lemma CidCodeBetween(x: string)
    requires |x| == 9 && x[0] == 'a' && x[1] == '(' && x[2] == 'c' && x[3] == 'i' && x[4] == 'd' && x[5] == ':' && x[6] == '7' && x[7] == ')' && x[8] == 'b'
    ensures var y := RemoveCidCodes(x); |y| == 2 && y[0] == 'a' && y[1] == 'b'
  {
    assert CidCodeLength(x) == 0 by {
      assert x[..5][0] == 'a';
    }
    assert CidCodeLength(x[1..]) == 7 by {
      var c := x[1..][..7];
      assert c[..5] == "(cid:" && c[6] == ')' && AllIn(Digit, c, 5, 6);
      CidCodeLengthUnique(x[1..], 7);
    }
    assert x[1..][7..] == x[8..];
    assert RemoveCidCodes(x[8..]) == x[8..];
  }

  // ---------------------------------------------------------------------
  // Step 2: the characters of the class `[ยง#\+]` are deleted.

  /** The class of step 2 as the source file spells it: the two Thai letters
      U+0E22 and U+0E07 (the bytes of a UTF-8 section sign read as TIS-620),
      `#` and `+`. The section sign U+00A7 itself is not in the class. */
  predicate IsNoiseSymbol(c: char)
  {
    c == '\U{0E22}' || c == '\U{0E07}' || c == '#' || c == '+'
  }

  /** Step 2 (main.py:39). */
  function RemoveSymbols(s: string): (r: string)
    ensures forall k :: 0 <= k < |r| ==> !IsNoiseSymbol(r[k])
    decreases |s|
  {
    if |s| == 0 then ""
    else (if IsNoiseSymbol(s[0]) then "" else [s[0]]) + RemoveSymbols(s[1..])
  }

  /** Step 2 deletes every noise symbol and keeps every other character, as
      many times as it occurs. */
  lemma {:induction false} RemoveSymbolsCounts(s: string)
    ensures forall c :: !IsNoiseSymbol(c) ==> multiset(RemoveSymbols(s))[c] == multiset(s)[c]
    ensures forall c :: IsNoiseSymbol(c) ==> multiset(RemoveSymbols(s))[c] == 0
    decreases |s|
  {
    if |s| > 0 {
      RemoveSymbolsCounts(s[1..]);
      assert s == [s[0]] + s[1..];
    }
  }

  /** Step 2 keeps the order of what it keeps: it works piecewise. */
  lemma {:induction false} RemoveSymbolsAppend(a: string, b: string)
    ensures RemoveSymbols(a + b) == RemoveSymbols(a) + RemoveSymbols(b)
    decreases |a|
  {
    if |a| > 0 {
      assert (a + b)[0] == a[0];
      assert (a + b)[1..] == a[1..] + b;
      RemoveSymbolsAppend(a[1..], b);
    } else {
      assert a + b == b;
    }
  }

  /** Step 2 leaves a text unchanged exactly when it holds no noise symbol. */
  lemma {:induction false} RemoveSymbolsFixedPoints(s: string)
    ensures RemoveSymbols(s) == s <==> forall k :: 0 <= k < |s| ==> !IsNoiseSymbol(s[k])
    decreases |s|
  {
    if |s| > 0 {
      RemoveSymbolsFixedPoints(s[1..]);
      assert forall k :: 1 <= k < |s| ==> s[k] == s[1..][k - 1];
    }
  }

  // ---------------------------------------------------------------------
  // Steps 3-6: a space is inserted after the one-character first group.

  /** The four spacing passes. In each pattern the first group is one
      character and the replacement is `\1 \2`. */
  datatype SpacingRule =
    | CaseBoundary      // ([a-z0-9])([A-Z])       main.py:41
    | AcronymBoundary   // ([A-Z])([A-Z][a-z])     main.py:43
    | LetterDigit       // ([a-zA-Z])([0-9])       main.py:45
    | AfterPunctuation  // ([.,;:!?])([^\s])       main.py:47

  predicate IsPunctuation(c: char) { c == '.' || c == ',' || c == ';' || c == ':' || c == '!' || c == '?' }

  /** Length of the rule's match at the start of `s`, or 0 when there is none.
      Every character a pattern matches is a non-space. */
  function MatchLength(rule: SpacingRule, s: string): (n: nat)
    ensures n == 0 || (2 <= n <= 3 && n <= |s|)
    ensures forall k :: 0 <= k < n ==> s[k] != ' '
  {
    match rule
    case CaseBoundary =>
      if |s| >= 2 && (IsLower(s[0]) || IsDigit(s[0])) && IsUpper(s[1]) then 2 else 0
    case AcronymBoundary =>
      if |s| >= 3 && IsUpper(s[0]) && IsUpper(s[1]) && IsLower(s[2]) then 3 else 0
    case LetterDigit =>
      if |s| >= 2 && IsLetter(s[0]) && IsDigit(s[1]) then 2 else 0
    case AfterPunctuation =>
      if |s| >= 2 && IsPunctuation(s[0]) && !IsSpace(s[1]) then 2 else 0
  }

  /** A match depends only on the characters it covers. */
  lemma MatchIsLocal(rule: SpacingRule, x: string, y: string)
    requires MatchLength(rule, x) > 0
    requires MatchLength(rule, x) <= |y| && y[..MatchLength(rule, x)] == x[..MatchLength(rule, x)]
    ensures MatchLength(rule, y) == MatchLength(rule, x)
  {
    var n := MatchLength(rule, x);
    assert forall k :: 0 <= k < n ==> y[k] == y[..n][k] == x[..n][k] == x[k];
  }

  /** No match of the rule starts anywhere in `s`. */
  predicate NoMatchAnywhere(rule: SpacingRule, s: string)
    decreases |s|
  {
    |s| == 0 || (MatchLength(rule, s) == 0 && NoMatchAnywhere(rule, s[1..]))
  }

  /** No match of the rule starts at any index. */
  lemma {:induction false} NoMatchAnywhereAt(rule: SpacingRule, s: string)
    requires NoMatchAnywhere(rule, s)
    ensures forall k :: 0 <= k < |s| ==> MatchLength(rule, s[k..]) == 0
    decreases |s|
  {
    if |s| > 0 {
      NoMatchAnywhereAt(rule, s[1..]);
      assert forall k :: 1 <= k < |s| ==> s[k..] == s[1..][k - 1..];
    }
  }

  /** The converse of `NoMatchAnywhereAt`: a text where no match of the rule
      starts at any index has no match anywhere. */
  lemma {:induction false} NoMatchAnywhereIf(rule: SpacingRule, s: string)
    requires forall k :: 0 <= k < |s| ==> MatchLength(rule, s[k..]) == 0
    ensures NoMatchAnywhere(rule, s)
    decreases |s|
  {
    if |s| > 0 {
      assert s[0..] == s;
      forall k | 0 <= k < |s[1..]|
        ensures MatchLength(rule, s[1..][k..]) == 0
      {
        assert s[1..][k..] == s[k + 1..];
      }
      NoMatchAnywhereIf(rule, s[1..]);
    }
  }

  /** One spacing pass (main.py:41, 43, 45, 47). */
  function InsertSpaces(rule: SpacingRule, s: string): (r: string)
    ensures |r| >= |s|
    ensures |s| > 0 ==> r[0] == s[0]
    decreases |s|
  {
    if |s| == 0 then ""
    else
      var n := MatchLength(rule, s);
      if n > 0 then [s[0], ' '] + s[1..n] + InsertSpaces(rule, s[n..])
      else [s[0]] + InsertSpaces(rule, s[1..])
  }

  /** The second character of a pass's output. */
  lemma InsertSpacesSecond(rule: SpacingRule, s: string)
    requires |s| >= 2
    ensures |InsertSpaces(rule, s)| >= 2
    ensures InsertSpaces(rule, s)[1] == if MatchLength(rule, s) > 0 then ' ' else s[1]
  {
    if MatchLength(rule, s) == 0 {
      assert InsertSpaces(rule, s) == [s[0]] + InsertSpaces(rule, s[1..]);
    }
  }

  /** `r` is `s` with zero or more spaces inserted. */
  predicate SpacesInserted(s: string, r: string)
    decreases |r|
  {
    if |r| == 0 then |s| == 0
    else
      || (r[0] == ' ' && SpacesInserted(s, r[1..]))
      || (|s| > 0 && r[0] == s[0] && SpacesInserted(s[1..], r[1..]))
  }

  lemma {:induction false} SpacesInsertedPrefix(p: string, x: string, y: string)
    requires SpacesInserted(x, y)
    ensures SpacesInserted(p + x, p + y)
    decreases |p|
  {
    if |p| > 0 {
      SpacesInsertedPrefix(p[1..], x, y);
      assert (p + x)[1..] == p[1..] + x;
      assert (p + y)[1..] == p[1..] + y;
      assert (p + y)[0] == p[0] == (p + x)[0];
    } else {
      assert p + x == x && p + y == y;
    }
  }

  /** Steps 3-6 only insert spaces: deleting the inserted spaces gives the
      pass's input back. */
  lemma {:induction false} InsertSpacesOnlyInserts(rule: SpacingRule, s: string)
    ensures SpacesInserted(s, InsertSpaces(rule, s))
    decreases |s|
  {
    if |s| > 0 {
      var n := MatchLength(rule, s);
      if n > 0 {
        InsertSpacesOnlyInserts(rule, s[n..]);
        SpacesInsertedAfterMatch(s, n, InsertSpaces(rule, s[n..]));
      } else {
        InsertSpacesOnlyInserts(rule, s[1..]);
      }
    }
  }

  /** The output shape of a pass at a match: the first character, the
      inserted space, the rest of the match, then the pass on what follows. */
  lemma SpacesInsertedAfterMatch(s: string, n: nat, rest: string)
    requires 1 <= n <= |s| && SpacesInserted(s[n..], rest)
    ensures SpacesInserted(s, [s[0], ' '] + s[1..n] + rest)
  {
    var r := [s[0], ' '] + s[1..n] + rest;
    SpacesInsertedPrefix(s[1..n], s[n..], rest);
    assert s[1..n] + s[n..] == s[1..];
    assert r[1..] == [' '] + (s[1..n] + rest);
    assert r[1..][1..] == s[1..n] + rest;
  }

  /** A pass with nothing to match changes nothing. */
  lemma {:induction false} InsertSpacesIdle(rule: SpacingRule, s: string)
    requires NoMatchAnywhere(rule, s)
    ensures InsertSpaces(rule, s) == s
    decreases |s|
  {
    if |s| > 0 {
      InsertSpacesIdle(rule, s[1..]);
    }
  }

  /** No match of the rule starts among the first `i` indices of `s`. */
  predicate NoMatchBefore(rule: SpacingRule, s: string, i: nat)
    requires i <= |s|
    decreases i
  {
    i == 0 || (MatchLength(rule, s) == 0 && NoMatchBefore(rule, s[1..], i - 1))
  }

  /** A pass over a text with exactly one match, at index `i`, inserts one
      space, right after the match's first character. */
  lemma {:induction false} InsertSpacesOneMatch(rule: SpacingRule, s: string, i: nat)
    requires i < |s| && NoMatchBefore(rule, s, i) && MatchLength(rule, s[i..]) > 0
    requires NoMatchAnywhere(rule, s[i + MatchLength(rule, s[i..])..])
    ensures InsertSpaces(rule, s) == s[..i + 1] + " " + s[i + 1..]
    decreases i
  {
    if i == 0 {
      assert s[0..] == s;
      InsertSpacesMatchFirst(rule, s);
    } else {
      var rest := InsertSpaces(rule, s[1..]);
      assert rest == s[1..][..i] + " " + s[1..][i..] by {
        assert s[1..][i - 1..] == s[i..];
        InsertSpacesOneMatch(rule, s[1..], i - 1);
      }
      InsertSpacesNoMatchFirst(rule, s);
      SpliceAfterFirst(s, i, rest);
    }
  }

  /** Putting back the first character of `s` in front of `s[1..]` with a
      space spliced in at index `i` splices the space in at `i + 1`. */
  lemma SpliceAfterFirst(s: string, i: nat, rest: string)
    requires 1 <= i < |s| && rest == s[1..][..i] + " " + s[1..][i..]
    ensures [s[0]] + rest == s[..i + 1] + " " + s[i + 1..]
  {
    assert s[..i + 1] == [s[0]] + s[1..][..i];
    assert s[i + 1..] == s[1..][i..];
  }

  lemma InsertSpacesMatchFirst(rule: SpacingRule, s: string)
    requires |s| > 0 && MatchLength(rule, s) > 0
    requires NoMatchAnywhere(rule, s[MatchLength(rule, s)..])
    ensures InsertSpaces(rule, s) == s[..1] + " " + s[1..]
  {
    var n := MatchLength(rule, s);
    var rest := InsertSpaces(rule, s[n..]);
    assert rest == s[n..] by { InsertSpacesIdle(rule, s[n..]); }
    assert InsertSpaces(rule, s) == [s[0], ' '] + s[1..n] + rest;
    SpliceAtFirst(s, n, rest);
  }

  /** The first character, a space, then the rest of `s` put back together. */
  lemma SpliceAtFirst(s: string, n: nat, rest: string)
    requires 1 <= n <= |s| && rest == s[n..]
    ensures [s[0], ' '] + s[1..n] + rest == s[..1] + " " + s[1..]
  {
    assert s[1..] == s[1..n] + s[n..];
  }

  lemma InsertSpacesNoMatchFirst(rule: SpacingRule, s: string)
    requires |s| > 0 && MatchLength(rule, s) == 0
    ensures InsertSpaces(rule, s) == [s[0]] + InsertSpaces(rule, s[1..])
  {
  }

  /** Steps 3, 4 and 5 are complete in one pass: their output holds no match
      of their own pattern, so running the pass again changes nothing. */
  lemma {:induction false} InsertSpacesComplete(rule: SpacingRule, s: string)
    requires rule != AfterPunctuation
    ensures NoMatchAnywhere(rule, InsertSpaces(rule, s))
    decreases |s|
  {
    if |s| > 0 {
      var n := MatchLength(rule, s);
      if n > 0 {
        InsertSpacesComplete(rule, s[n..]);
        CompleteAfterMatch(rule, s, InsertSpaces(rule, s[n..]));
      } else {
        InsertSpacesComplete(rule, s[1..]);
        CompleteAfterSkip(rule, s);
      }
    }
  }

  /** The inductive step of `InsertSpacesComplete` when a match starts the
      text: the inserted space separates the match's two halves. */
  lemma CompleteAfterMatch(rule: SpacingRule, s: string, rest: string)
    requires rule != AfterPunctuation && |s| > 0 && MatchLength(rule, s) > 0
    requires NoMatchAnywhere(rule, rest)
    ensures NoMatchAnywhere(rule, [s[0], ' '] + s[1..MatchLength(rule, s)] + rest)
  {
    var u := s[1..MatchLength(rule, s)] + rest;
    assert NoMatchAnywhere(rule, u) by { MatchTailClear(rule, s, rest); }
    var v := [' '] + u;
    assert NoMatchAnywhere(rule, v) by {
      assert MatchLength(rule, v) == 0 by { assert v[0] == ' '; }
      NoMatchCons(rule, ' ', u);
    }
    var w := [s[0]] + v;
    assert NoMatchAnywhere(rule, w) by {
      assert MatchLength(rule, w) == 0 by { assert w[1] == ' '; }
      NoMatchCons(rule, s[0], v);
    }
    assert [s[0], ' '] + s[1..MatchLength(rule, s)] + rest == w;
  }

  /** What follows the first character of a match of steps 3-5 starts no
      match, whatever comes after it. */
  lemma MatchTailClear(rule: SpacingRule, s: string, rest: string)
    requires rule != AfterPunctuation && |s| > 0 && MatchLength(rule, s) > 0
    requires NoMatchAnywhere(rule, rest)
    ensures NoMatchAnywhere(rule, s[1..MatchLength(rule, s)] + rest)
  {
    var n := MatchLength(rule, s);
    if n == 3 {
      NoMatchCons(rule, s[2], rest);
      assert s[1..n] + rest == [s[1]] + ([s[2]] + rest);
      NoMatchCons(rule, s[1], [s[2]] + rest);
    } else {
      assert s[1..n] + rest == [s[1]] + rest;
      NoMatchCons(rule, s[1], rest);
    }
  }

  /** A character that starts no match, put before a text without matches,
      gives a text without matches. */
  lemma NoMatchCons(rule: SpacingRule, c: char, x: string)
    requires NoMatchAnywhere(rule, x) && MatchLength(rule, [c] + x) == 0
    ensures NoMatchAnywhere(rule, [c] + x)
  {
    assert ([c] + x)[1..] == x;
  }

  /** The inductive step of `InsertSpacesComplete` when no match starts the
      text: the first character cannot start a match in the output either. */
  lemma CompleteAfterSkip(rule: SpacingRule, s: string)
    requires rule != AfterPunctuation && |s| > 0 && MatchLength(rule, s) == 0
    requires NoMatchAnywhere(rule, InsertSpaces(rule, s[1..]))
    ensures NoMatchAnywhere(rule, InsertSpaces(rule, s))
  {
    var r := InsertSpaces(rule, s);
    var rest := InsertSpaces(rule, s[1..]);
    assert r == [s[0]] + rest;
    assert r[1..] == rest;
    if |s| >= 2 {
      assert r[1] == s[1];
      if |s| >= 3 {
        InsertSpacesSecond(rule, s[1..]);
        assert r[2] == rest[1];
        assert r[2] == ' ' || r[2] == s[2];
      } else {
        assert s[1..][1..] == [];
        assert MatchLength(rule, s[1..]) == 0;
        assert rest == [s[1]] + InsertSpaces(rule, s[1..][1..]);
        assert |r| == 2;
      }
    }
    assert MatchLength(rule, r) == 0;
  }

  /** The reference reading of a spacing pass: a space goes after the first
      character of every window of `s` that matches the rule. */
  function SpaceAfterEveryMatch(rule: SpacingRule, s: string): (r: string)
    ensures |r| >= |s|
    decreases |s|
  {
    if |s| == 0 then ""
    else [s[0]] + (if MatchLength(rule, s) > 0 then " " else "") + SpaceAfterEveryMatch(rule, s[1..])
  }

  /** No match of steps 3-5 starts inside another one. */
  lemma NoMatchInside(rule: SpacingRule, s: string, i: nat)
    requires rule != AfterPunctuation && 0 < i < MatchLength(rule, s)
    ensures MatchLength(rule, s[i..]) == 0
  {
    assert s[i..][0] == s[i];
    if i + 1 < |s| {
      assert s[i..][1] == s[i + 1];
    }
  }

  /** Characters that start no match are copied unchanged by the reference
      reading. */
  lemma {:induction false} SpaceAfterSkips(rule: SpacingRule, s: string, a: nat, j: nat)
    requires a <= j <= |s|
    requires forall i :: a <= i < j ==> MatchLength(rule, s[i..]) == 0
    ensures SpaceAfterEveryMatch(rule, s[a..]) == s[a..j] + SpaceAfterEveryMatch(rule, s[j..])
    decreases j - a
  {
    if a < j {
      SpaceAfterSkips(rule, s, a + 1, j);
      assert s[a..][1..] == s[a + 1..];
      assert s[a..j] == [s[a]] + s[a + 1..j];
    }
  }

  /** Steps 3-5 put a space after the first character of every match and
      nowhere else: resuming after a match skips no match, because none starts
      inside one. */
  lemma {:induction false} InsertSpacesEveryMatch(rule: SpacingRule, s: string)
    requires rule != AfterPunctuation
    ensures InsertSpaces(rule, s) == SpaceAfterEveryMatch(rule, s)
    decreases |s|
  {
    if |s| > 0 {
      var n := MatchLength(rule, s);
      if n > 0 {
        InsertSpacesEveryMatch(rule, s[n..]);
        forall i | 1 <= i < n
          ensures MatchLength(rule, s[i..]) == 0
        {
          NoMatchInside(rule, s, i);
        }
        SpaceAfterSkips(rule, s, 1, n);
      } else {
        InsertSpacesEveryMatch(rule, s[1..]);
      }
    }
  }

  /** Step 6 is not the reference reading: on `..x` the second dot is consumed
      as the character after the first, so the match it starts is skipped. */
  lemma AfterPunctuationSkipsOverlap(s: string)
    requires s == "..x"
    ensures SpaceAfterEveryMatch(AfterPunctuation, s) == ". . x"
    ensures InsertSpaces(AfterPunctuation, s) == ". .x"
  {
    assert s[1..] == ".x" && s[1..][1..] == "x";
    assert SpaceAfterEveryMatch(AfterPunctuation, "x") == "x";
    DotsStep6(s);
  }

  /** Inserting spaces next to a match leaves the match as it was, and
      inserting spaces inside one breaks it up. */
  lemma SpacesInsertedMatch(rule: SpacingRule, s: string, r: string)
    requires SpacesInserted(s, r)
    ensures MatchLength(rule, r) == 0 || MatchLength(rule, s) == MatchLength(rule, r)
  {
    var n := MatchLength(rule, r);
    if n > 0 {
      SpacesInsertedNonSpacePrefix(s, r, n);
      MatchIsLocal(rule, r, s);
    }
  }

  lemma {:induction false} SpacesInsertedNonSpacePrefix(s: string, r: string, n: nat)
    requires SpacesInserted(s, r)
    requires n <= |r| && forall k :: 0 <= k < n ==> r[k] != ' '
    ensures n <= |s| && s[..n] == r[..n]
    decreases n
  {
    if n > 0 {
      SpacesInsertedNonSpacePrefix(s[1..], r[1..], n - 1);
      assert s[..n] == [s[0]] + s[1..][..n - 1];
      assert r[..n] == [r[0]] + r[1..][..n - 1];
    }
  }

  /** Inserting spaces never creates a match of a spacing pattern. */
  lemma {:induction false} SpacesInsertedKeepsNoMatch(rule: SpacingRule, s: string, r: string)
    requires SpacesInserted(s, r) && NoMatchAnywhere(rule, s)
    ensures NoMatchAnywhere(rule, r)
    decreases |r|
  {
    if |r| > 0 {
      SpacesInsertedMatch(rule, s, r);
      if r[0] == ' ' && SpacesInserted(s, r[1..]) {
        SpacesInsertedKeepsNoMatch(rule, s, r[1..]);
      } else {
        SpacesInsertedKeepsNoMatch(rule, s[1..], r[1..]);
      }
    }
  }

  // ---------------------------------------------------------------------
  // Step 7: ` +` becomes one space.

  /** `s` without its leading spaces. */
  function DropBlanks(s: string): (r: string)
    ensures |r| <= |s| && r == s[|s| - |r|..]
    ensures |r| == 0 || r[0] != ' '
    ensures forall k :: 0 <= k < |s| - |r| ==> s[k] == ' '
    decreases |s|
  {
    if |s| > 0 && s[0] == ' ' then DropBlanks(s[1..]) else s
  }

  /** Step 7 (main.py:49): each run of spaces becomes a single space. */
  function CollapseSpaces(s: string): (r: string)
    decreases |s|
  {
    if |s| == 0 then ""
    else if s[0] == ' ' then " " + CollapseSpaces(DropBlanks(s))
    else [s[0]] + CollapseSpaces(s[1..])
  }

  /** No two adjacent spaces. */
  predicate NoDoubleSpace(s: string)
    decreases |s|
  {
    |s| < 2 || (!(s[0] == ' ' && s[1] == ' ') && NoDoubleSpace(s[1..]))
  }

  lemma {:induction false} NoDoubleSpaceAt(s: string)
    requires NoDoubleSpace(s)
    ensures forall k :: 0 <= k < |s| - 1 ==> !(s[k] == ' ' && s[k + 1] == ' ')
    decreases |s|
  {
    if |s| >= 2 {
      NoDoubleSpaceAt(s[1..]);
      assert forall k :: 1 <= k < |s| ==> s[k] == s[1..][k - 1];
    }
  }

  /** The converse of `NoDoubleSpaceAt`: a text with no space followed by a
      space anywhere has no run of two spaces. */
  lemma {:induction false} NoDoubleSpaceIf(s: string)
    requires forall k :: 0 <= k < |s| - 1 ==> !(s[k] == ' ' && s[k + 1] == ' ')
    ensures NoDoubleSpace(s)
    decreases |s|
  {
    if |s| >= 2 {
      forall k | 0 <= k < |s[1..]| - 1
        ensures !(s[1..][k] == ' ' && s[1..][k + 1] == ' ')
      {
        assert s[1..][k] == s[k + 1] && s[1..][k + 1] == s[k + 2];
      }
      NoDoubleSpaceIf(s[1..]);
    }
  }

  /** `s` is `t` with every space of `t` widened into a non-empty run of
      spaces. */
  predicate Widened(t: string, s: string)
    decreases |t| + |s|
  {
    if |t| == 0 then |s| == 0
    else if |s| == 0 then false
    else if t[0] == ' ' then s[0] == ' ' && (Widened(t[1..], s[1..]) || Widened(t, s[1..]))
    else s[0] == t[0] && Widened(t[1..], s[1..])
  }

  lemma {:induction false} WidenedRefl(s: string)
    ensures Widened(s, s)
    decreases |s|
  {
    if |s| > 0 {
      WidenedRefl(s[1..]);
    }
  }

  /** The first character of the collapsed text. */
  lemma CollapseSpacesHead(s: string)
    requires |s| > 0
    ensures |CollapseSpaces(s)| > 0
    ensures CollapseSpaces(s)[0] == s[0]
  {
  }

  /** Step 7 output has no two adjacent spaces, and the input is that output
      with its spaces widened back into the original runs. */
  lemma {:induction false} CollapseSpacesWidens(s: string)
    ensures Widened(CollapseSpaces(s), s)
    ensures NoDoubleSpace(CollapseSpaces(s))
    decreases |s|
  {
    if |s| > 0 {
      var t := CollapseSpaces(s);
      if s[0] == ' ' {
        var d := DropBlanks(s);
        CollapseSpacesWidens(d);
        if |d| > 0 {
          CollapseSpacesHead(d);
        }
        assert t[1..] == CollapseSpaces(d);
        if |s| > 1 && s[1] == ' ' {
          assert DropBlanks(s[1..]) == d;
          CollapseSpacesWidens(s[1..]);
          assert CollapseSpaces(s[1..]) == t;
        } else {
          assert d == s[1..];
        }
      } else {
        CollapseSpacesWidens(s[1..]);
        if |s| > 1 {
          CollapseSpacesHead(s[1..]);
        }
      }
    }
  }

  lemma {:induction false} WidenedSkipsRun(t: string, s: string)
    requires Widened(t, s) && |t| > 0 && t[0] == ' '
    requires |t| == 1 || t[1] != ' '
    ensures Widened(t[1..], DropBlanks(s))
    decreases |s|
  {
    if Widened(t[1..], s[1..]) {
      if |t| > 1 {
        assert s[1..][0] == t[1];
      }
      assert DropBlanks(s) == s[1..];
    } else {
      WidenedSkipsRun(t, s[1..]);
    }
  }

  /** Step 7 is the only way to obtain `s` by widening a text without two
      adjacent spaces. */
  lemma {:induction false} CollapseSpacesUnique(t: string, s: string)
    requires Widened(t, s) && NoDoubleSpace(t)
    ensures t == CollapseSpaces(s)
    decreases |s|
  {
    if |t| > 0 {
      if t[0] == ' ' {
        WidenedSkipsRun(t, s);
        CollapseSpacesUnique(t[1..], DropBlanks(s));
      } else {
        CollapseSpacesUnique(t[1..], s[1..]);
      }
    }
  }

  /** Step 7 leaves a text unchanged exactly when it has no two adjacent
      spaces; in particular it is idempotent. */
  lemma CollapseSpacesFixedPoints(s: string)
    ensures CollapseSpaces(s) == s <==> NoDoubleSpace(s)
    ensures CollapseSpaces(CollapseSpaces(s)) == CollapseSpaces(s)
  {
    CollapseSpacesWidens(s);
    if NoDoubleSpace(s) {
      WidenedRefl(s);
      CollapseSpacesUnique(s, s);
    }
    var t := CollapseSpaces(s);
    WidenedRefl(t);
    CollapseSpacesUnique(t, t);
  }

  lemma {:induction false} WidenedNonSpacePrefix(t: string, s: string, n: nat)
    requires Widened(t, s)
    requires n <= |t| && forall k :: 0 <= k < n ==> t[k] != ' '
    ensures n <= |s| && s[..n] == t[..n]
    decreases n
  {
    if n > 0 {
      WidenedNonSpacePrefix(t[1..], s[1..], n - 1);
      assert s[..n] == [s[0]] + s[1..][..n - 1];
      assert t[..n] == [t[0]] + t[1..][..n - 1];
    }
  }

  /** Collapsing spaces never creates a match of a spacing pattern. */
  lemma {:induction false} WidenedKeepsNoMatch(rule: SpacingRule, t: string, s: string)
    requires Widened(t, s) && NoMatchAnywhere(rule, s)
    ensures NoMatchAnywhere(rule, t)
    decreases |t| + |s|
  {
    if |t| > 0 {
      if t[0] == ' ' {
        if Widened(t[1..], s[1..]) {
          WidenedKeepsNoMatch(rule, t[1..], s[1..]);
        } else {
          WidenedKeepsNoMatch(rule, t, s[1..]);
        }
      } else {
        var n := MatchLength(rule, t);
        if n > 0 {
          WidenedNonSpacePrefix(t, s, n);
          MatchIsLocal(rule, t, s);
        }
        WidenedKeepsNoMatch(rule, t[1..], s[1..]);
      }
    }
  }

  // ---------------------------------------------------------------------
  // The spaces-ignored view of a text.

  /** `s` with every space deleted. */
  function RemoveSpaces(s: string): (r: string)
    ensures ' ' !in r
    ensures forall c :: c != ' ' ==> multiset(r)[c] == multiset(s)[c]
    decreases |s|
  {
    if |s| == 0 then ""
    else
      assert s == [s[0]] + s[1..];
      (if s[0] == ' ' then "" else [s[0]]) + RemoveSpaces(s[1..])
  }

  lemma {:induction false} SpacesInsertedKeepsText(s: string, r: string)
    requires SpacesInserted(s, r)
    ensures RemoveSpaces(r) == RemoveSpaces(s)
    decreases |r|
  {
    if |r| > 0 {
      if r[0] == ' ' && SpacesInserted(s, r[1..]) {
        SpacesInsertedKeepsText(s, r[1..]);
      } else {
        SpacesInsertedKeepsText(s[1..], r[1..]);
      }
    }
  }

  lemma {:induction false} WidenedKeepsText(t: string, s: string)
    requires Widened(t, s)
    ensures RemoveSpaces(t) == RemoveSpaces(s)
    decreases |t| + |s|
  {
    if |t| > 0 {
      if t[0] == ' ' {
        if Widened(t[1..], s[1..]) {
          WidenedKeepsText(t[1..], s[1..]);
        } else {
          WidenedKeepsText(t, s[1..]);
        }
      } else {
        WidenedKeepsText(t[1..], s[1..]);
      }
    }
  }

  // ---------------------------------------------------------------------
  // The whole pipeline.

  /** Steps 1 and 2: glyph codes, then noise symbols, deleted. */
  function StripArtifacts(text: string): string
  {
    RemoveSymbols(RemoveCidCodes(text))
  }

  /** Steps 3 to 6, in source order. */
  function SpacingPasses(text: string): string
  {
    InsertSpaces(AfterPunctuation,
      InsertSpaces(LetterDigit,
        InsertSpaces(AcronymBoundary,
          InsertSpaces(CaseBoundary, text))))
  }

  /** `fix_spacing` (main.py:35-50). */
  function FixSpacing(text: string): string
  {
    CollapseSpaces(SpacingPasses(StripArtifacts(text)))
  }

  /** A glyph code holds `:` directly followed by a digit, which the pass of
      step 6 would split. */
  lemma CidCodeHasPunctuationMatch(s: string)
    requires CidCodeLength(s) > 0
    ensures |s| > 5 && MatchLength(AfterPunctuation, s[4..]) == 2
  {
    assert s[..5][4] == ':';
    assert s[4..][0] == s[4] && s[4..][1] == s[5];
  }

  lemma {:induction false} NoPunctuationMatchNoCidCode(s: string)
    requires NoMatchAnywhere(AfterPunctuation, s)
    ensures NoCidCode(s)
    decreases |s|
  {
    if |s| > 0 {
      NoMatchAnywhereAt(AfterPunctuation, s);
      if CidCodeLength(s) > 0 {
        CidCodeHasPunctuationMatch(s);
      }
      NoPunctuationMatchNoCidCode(s[1..]);
    }
  }

  /** `fix_spacing` changes nothing but spaces: deleting every space from its
      output and from the text after steps 1 and 2 gives the same string. */
  lemma FixSpacingKeepsText(text: string)
    ensures RemoveSpaces(FixSpacing(text)) == RemoveSpaces(StripArtifacts(text))
  {
    var t2 := StripArtifacts(text);
    var t3 := InsertSpaces(CaseBoundary, t2);
    var t4 := InsertSpaces(AcronymBoundary, t3);
    var t5 := InsertSpaces(LetterDigit, t4);
    var t6 := InsertSpaces(AfterPunctuation, t5);
    InsertSpacesOnlyInserts(CaseBoundary, t2);
    InsertSpacesOnlyInserts(AcronymBoundary, t3);
    InsertSpacesOnlyInserts(LetterDigit, t4);
    InsertSpacesOnlyInserts(AfterPunctuation, t5);
    SpacesInsertedKeepsText(t2, t3);
    SpacesInsertedKeepsText(t3, t4);
    SpacesInsertedKeepsText(t4, t5);
    SpacesInsertedKeepsText(t5, t6);
    CollapseSpacesWidens(t6);
    WidenedKeepsText(CollapseSpaces(t6), t6);
  }

  /** Every character other than a space occurs in the output exactly as often
      as in the input with glyph codes deleted; noise symbols do not occur. */
  lemma FixSpacingCounts(text: string)
    ensures forall c :: c != ' ' && !IsNoiseSymbol(c) ==>
      multiset(FixSpacing(text))[c] == multiset(RemoveCidCodes(text))[c]
    ensures forall k :: 0 <= k < |FixSpacing(text)| ==> !IsNoiseSymbol(FixSpacing(text)[k])
  {
    var r, t1 := FixSpacing(text), RemoveCidCodes(text);
    var t2 := RemoveSymbols(t1);
    assert forall c :: c != ' ' ==> multiset(r)[c] == multiset(t2)[c] by {
      FixSpacingKeepsText(text);
      assert forall c :: c != ' ' ==> multiset(RemoveSpaces(r))[c] == multiset(r)[c];
      assert forall c :: c != ' ' ==> multiset(RemoveSpaces(t2))[c] == multiset(t2)[c];
    }
    RemoveSymbolsCounts(t1);
    forall k | 0 <= k < |r|
      ensures !IsNoiseSymbol(r[k])
    {
      assert r[k] in multiset(r);
    }
  }

  /** The output never holds two adjacent spaces. */
  lemma FixSpacingNoDoubleSpace(text: string)
    ensures var r := FixSpacing(text);
      forall k :: 0 <= k < |r| - 1 ==> !(r[k] == ' ' && r[k + 1] == ' ')
  {
    CollapseSpacesWidens(SpacingPasses(StripArtifacts(text)));
    NoDoubleSpaceAt(FixSpacing(text));
  }

  /** The output has no match of the patterns of steps 3, 4 and 5 left: the
      later passes and the collapsing of spaces never undo an earlier pass. */
  lemma FixSpacingSeparates(text: string)
    ensures NoMatchAnywhere(CaseBoundary, FixSpacing(text))
    ensures NoMatchAnywhere(AcronymBoundary, FixSpacing(text))
    ensures NoMatchAnywhere(LetterDigit, FixSpacing(text))
  {
    var t2 := StripArtifacts(text);
    var t3 := InsertSpaces(CaseBoundary, t2);
    var t4 := InsertSpaces(AcronymBoundary, t3);
    var t5 := InsertSpaces(LetterDigit, t4);
    var t6 := InsertSpaces(AfterPunctuation, t5);
    var r := CollapseSpaces(t6);
    InsertSpacesComplete(CaseBoundary, t2);
    InsertSpacesComplete(AcronymBoundary, t3);
    InsertSpacesComplete(LetterDigit, t4);
    InsertSpacesOnlyInserts(AcronymBoundary, t3);
    InsertSpacesOnlyInserts(LetterDigit, t4);
    InsertSpacesOnlyInserts(AfterPunctuation, t5);
    SpacesInsertedKeepsNoMatch(CaseBoundary, t3, t4);
    SpacesInsertedKeepsNoMatch(CaseBoundary, t4, t5);
    SpacesInsertedKeepsNoMatch(AcronymBoundary, t4, t5);
    SpacesInsertedKeepsNoMatch(CaseBoundary, t5, t6);
    SpacesInsertedKeepsNoMatch(AcronymBoundary, t5, t6);
    SpacesInsertedKeepsNoMatch(LetterDigit, t5, t6);
    CollapseSpacesWidens(t6);
    WidenedKeepsNoMatch(CaseBoundary, r, t6);
    WidenedKeepsNoMatch(AcronymBoundary, r, t6);
    WidenedKeepsNoMatch(LetterDigit, r, t6);
  }

  /** The same, spelled out per index: in the output no lower-case letter or
      digit is followed by an upper-case letter, no letter by a digit, and no
      two upper-case letters by a lower-case one. */
  lemma FixSpacingBoundaries(text: string)
    ensures var r := FixSpacing(text);
      && (forall k :: 0 <= k < |r| - 1 ==> !((IsLower(r[k]) || IsDigit(r[k])) && IsUpper(r[k + 1])))
      && (forall k :: 0 <= k < |r| - 1 ==> !(IsLetter(r[k]) && IsDigit(r[k + 1])))
      && (forall k :: 0 <= k < |r| - 2 ==> !(IsUpper(r[k]) && IsUpper(r[k + 1]) && IsLower(r[k + 2])))
  {
    var r := FixSpacing(text);
    FixSpacingSeparates(text);
    CaseBoundaryNowhere(r);
    LetterDigitNowhere(r);
    AcronymBoundaryNowhere(r);
  }

  lemma CaseBoundaryNowhere(r: string)
    requires NoMatchAnywhere(CaseBoundary, r)
    ensures forall k :: 0 <= k < |r| - 1 ==> !((IsLower(r[k]) || IsDigit(r[k])) && IsUpper(r[k + 1]))
  {
    NoMatchAnywhereAt(CaseBoundary, r);
    forall k | 0 <= k < |r| - 1
      ensures !((IsLower(r[k]) || IsDigit(r[k])) && IsUpper(r[k + 1]))
    {
      assert MatchLength(CaseBoundary, r[k..]) == 0;
      assert r[k..][0] == r[k] && r[k..][1] == r[k + 1];
    }
  }

  lemma LetterDigitNowhere(r: string)
    requires NoMatchAnywhere(LetterDigit, r)
    ensures forall k :: 0 <= k < |r| - 1 ==> !(IsLetter(r[k]) && IsDigit(r[k + 1]))
  {
    NoMatchAnywhereAt(LetterDigit, r);
    forall k | 0 <= k < |r| - 1
      ensures !(IsLetter(r[k]) && IsDigit(r[k + 1]))
    {
      assert MatchLength(LetterDigit, r[k..]) == 0;
      assert r[k..][0] == r[k] && r[k..][1] == r[k + 1];
    }
  }

  lemma AcronymBoundaryNowhere(r: string)
    requires NoMatchAnywhere(AcronymBoundary, r)
    ensures forall k :: 0 <= k < |r| - 2 ==> !(IsUpper(r[k]) && IsUpper(r[k + 1]) && IsLower(r[k + 2]))
  {
    NoMatchAnywhereAt(AcronymBoundary, r);
    forall k | 0 <= k < |r| - 2
      ensures !(IsUpper(r[k]) && IsUpper(r[k + 1]) && IsLower(r[k + 2]))
    {
      assert MatchLength(AcronymBoundary, r[k..]) == 0;
      assert r[k..][0] == r[k] && r[k..][1] == r[k + 1] && r[k..][2] == r[k + 2];
    }
  }

  /** `fix_spacing` is idempotent on every text whose output has no
      punctuation mark directly before a non-space: then each of the seven
      passes leaves that output as it is. */
  lemma FixSpacingIdempotentWhenSettled(text: string)
    requires NoMatchAnywhere(AfterPunctuation, FixSpacing(text))
    ensures FixSpacing(FixSpacing(text)) == FixSpacing(text)
  {
    var r := FixSpacing(text);
    NoPunctuationMatchNoCidCode(r);
    RemoveCidCodesFixedPoints(r);
    FixSpacingCounts(text);
    RemoveSymbolsFixedPoints(r);
    assert StripArtifacts(r) == r;
    FixSpacingSeparates(text);
    InsertSpacesIdle(CaseBoundary, r);
    InsertSpacesIdle(AcronymBoundary, r);
    InsertSpacesIdle(LetterDigit, r);
    InsertSpacesIdle(AfterPunctuation, r);
    assert SpacingPasses(r) == r;
    CollapseSpacesWidens(SpacingPasses(StripArtifacts(text)));
    CollapseSpacesFixedPoints(r);
  }

  /** A text without `(` and without noise symbols passes steps 1 and 2
      unchanged. */
  lemma StripArtifactsIdle(s: string)
    requires forall k :: 0 <= k < |s| ==> s[k] != '(' && !IsNoiseSymbol(s[k])
    ensures StripArtifacts(s) == s
  {
    NoOpenParenNoCidCode(s);
    RemoveCidCodesFixedPoints(s);
    RemoveSymbolsFixedPoints(s);
  }

  lemma {:induction false} NoOpenParenNoCidCode(s: string)
    requires forall k :: 0 <= k < |s| ==> s[k] != '('
    ensures NoCidCode(s)
    decreases |s|
  {
    if |s| > 0 {
      if |s| >= 5 {
        assert s[..5][0] == s[0];
      }
      NoOpenParenNoCidCode(s[1..]);
    }
  }

  /** A text that no pass would change is its own normal form. A glyph code
      needs no separate exclusion: its `:` before a digit is a match of step 6. */
  lemma SettledText(t: string)
    requires forall k :: 0 <= k < |t| ==> !IsNoiseSymbol(t[k])
    requires NoMatchAnywhere(CaseBoundary, t) && NoMatchAnywhere(AcronymBoundary, t)
    requires NoMatchAnywhere(LetterDigit, t) && NoMatchAnywhere(AfterPunctuation, t)
    requires NoDoubleSpace(t)
    ensures FixSpacing(t) == t
  {
    NoPunctuationMatchNoCidCode(t);
    RemoveCidCodesFixedPoints(t);
    RemoveSymbolsFixedPoints(t);
    InsertSpacesIdle(CaseBoundary, t);
    InsertSpacesIdle(AcronymBoundary, t);
    InsertSpacesIdle(LetterDigit, t);
    InsertSpacesIdle(AfterPunctuation, t);
    CollapseSpacesFixedPoints(t);
  }

  /** `firstAid` becomes `first Aid`: step 3 splits a lower-case letter from the upper-case letter after it. */
  lemma ExampleCaseBoundary(s: string)
    requires s == "firstAid"
    ensures FixSpacing(s) == "first Aid"
  {
    FirstAidWhole(s);
  }

  /** The whole pipeline on the example's characters. */
  lemma FirstAidWhole(x: string)
    requires |x| == 8 && x[0] == 'f' && x[1] == 'i' && x[2] == 'r' && x[3] == 's' && x[4] == 't' && x[5] == 'A' && x[6] == 'i' && x[7] == 'd'
    ensures var y := FixSpacing(x); |y| == 9 && y[0] == 'f' && y[1] == 'i' && y[2] == 'r' && y[3] == 's' && y[4] == 't' && y[5] == ' ' && y[6] == 'A' && y[7] == 'i' && y[8] == 'd'
  {
    assert StripArtifacts(x) == x by { StripArtifactsIdle(x); }
    FirstAidPasses(x);
    var y := SpacingPasses(x);
    assert NoDoubleSpace(y) by { assert NoDoubleSpace(y[8..]); assert NoDoubleSpace(y[7..]); assert NoDoubleSpace(y[6..]); assert NoDoubleSpace(y[5..]); assert NoDoubleSpace(y[4..]); assert NoDoubleSpace(y[3..]); assert NoDoubleSpace(y[2..]); assert NoDoubleSpace(y[1..]); }
    CollapseSpacesFixedPoints(y);
  }

  /** The four insertion passes on `firstAid`. */
  lemma FirstAidPasses(x: string)
    requires |x| == 8 && x[0] == 'f' && x[1] == 'i' && x[2] == 'r' && x[3] == 's' && x[4] == 't' && x[5] == 'A' && x[6] == 'i' && x[7] == 'd'
    ensures var y := SpacingPasses(x); |y| == 9 && y[0] == 'f' && y[1] == 'i' && y[2] == 'r' && y[3] == 's' && y[4] == 't' && y[5] == ' ' && y[6] == 'A' && y[7] == 'i' && y[8] == 'd'
  {
    var t := InsertSpaces(CaseBoundary, x);
    FirstAidStep3(x);
    FirstAidStable(AcronymBoundary, t);
    FirstAidStable(LetterDigit, t);
    FirstAidStable(AfterPunctuation, t);
  }

  /** Step 3 on `firstAid` splits the match at index 4. */
  lemma FirstAidStep3(x: string)
    requires |x| == 8 && x[0] == 'f' && x[1] == 'i' && x[2] == 'r' && x[3] == 's' && x[4] == 't' && x[5] == 'A' && x[6] == 'i' && x[7] == 'd'
    ensures var y := InsertSpaces(CaseBoundary, x); |y| == 9 && y[0] == 'f' && y[1] == 'i' && y[2] == 'r' && y[3] == 's' && y[4] == 't' && y[5] == ' ' && y[6] == 'A' && y[7] == 'i' && y[8] == 'd'
  {
    assert NoMatchBefore(CaseBoundary, x[3..], 1);
    assert NoMatchBefore(CaseBoundary, x[2..], 2);
    assert NoMatchBefore(CaseBoundary, x[1..], 3);
    assert NoMatchAnywhere(CaseBoundary, x[7..]);
    assert NoMatchAnywhere(CaseBoundary, x[6..]);
    InsertSpacesOneMatch(CaseBoundary, x, 4);
  }

  /** No insertion pass finds anything to split in `first Aid`. */
  lemma FirstAidStable(rule: SpacingRule, x: string)
    requires |x| == 9 && x[0] == 'f' && x[1] == 'i' && x[2] == 'r' && x[3] == 's' && x[4] == 't' && x[5] == ' ' && x[6] == 'A' && x[7] == 'i' && x[8] == 'd'
    ensures InsertSpaces(rule, x) == x
  {
    assert NoMatchAnywhere(rule, x[8..]);
    assert NoMatchAnywhere(rule, x[7..]);
    assert NoMatchAnywhere(rule, x[6..]);
    assert NoMatchAnywhere(rule, x[5..]);
    assert NoMatchAnywhere(rule, x[4..]);
    assert NoMatchAnywhere(rule, x[3..]);
    assert NoMatchAnywhere(rule, x[2..]);
    assert NoMatchAnywhere(rule, x[1..]);
    InsertSpacesIdle(rule, x);
  }

  /** `AIModel` becomes `AI Model`: step 4 splits an acronym from the capitalised word after it. */
  lemma ExampleAcronym(s: string)
    requires s == "AIModel"
    ensures FixSpacing(s) == "AI Model"
  {
    AiModelWhole(s);
  }

  /** The whole pipeline on the example's characters. */
  lemma AiModelWhole(x: string)
    requires |x| == 7 && x[0] == 'A' && x[1] == 'I' && x[2] == 'M' && x[3] == 'o' && x[4] == 'd' && x[5] == 'e' && x[6] == 'l'
    ensures var y := FixSpacing(x); |y| == 8 && y[0] == 'A' && y[1] == 'I' && y[2] == ' ' && y[3] == 'M' && y[4] == 'o' && y[5] == 'd' && y[6] == 'e' && y[7] == 'l'
  {
    assert StripArtifacts(x) == x by { StripArtifactsIdle(x); }
    AiModelPasses(x);
    var y := SpacingPasses(x);
    assert NoDoubleSpace(y) by { assert NoDoubleSpace(y[7..]); assert NoDoubleSpace(y[6..]); assert NoDoubleSpace(y[5..]); assert NoDoubleSpace(y[4..]); assert NoDoubleSpace(y[3..]); assert NoDoubleSpace(y[2..]); assert NoDoubleSpace(y[1..]); }
    CollapseSpacesFixedPoints(y);
  }

  /** The four insertion passes on `AIModel`. */
  lemma AiModelPasses(x: string)
    requires |x| == 7 && x[0] == 'A' && x[1] == 'I' && x[2] == 'M' && x[3] == 'o' && x[4] == 'd' && x[5] == 'e' && x[6] == 'l'
    ensures var y := SpacingPasses(x); |y| == 8 && y[0] == 'A' && y[1] == 'I' && y[2] == ' ' && y[3] == 'M' && y[4] == 'o' && y[5] == 'd' && y[6] == 'e' && y[7] == 'l'
  {
    AiModelIdle(CaseBoundary, x);
    var t := InsertSpaces(AcronymBoundary, x);
    AiModelStep4(x);
    AiModelStable(LetterDigit, t);
    AiModelStable(AfterPunctuation, t);
  }

  /** Step 4 on `AIModel` splits the match at index 1. */
  lemma AiModelStep4(x: string)
    requires |x| == 7 && x[0] == 'A' && x[1] == 'I' && x[2] == 'M' && x[3] == 'o' && x[4] == 'd' && x[5] == 'e' && x[6] == 'l'
    ensures var y := InsertSpaces(AcronymBoundary, x); |y| == 8 && y[0] == 'A' && y[1] == 'I' && y[2] == ' ' && y[3] == 'M' && y[4] == 'o' && y[5] == 'd' && y[6] == 'e' && y[7] == 'l'
  {
    assert NoMatchAnywhere(AcronymBoundary, x[6..]);
    assert NoMatchAnywhere(AcronymBoundary, x[5..]);
    assert NoMatchAnywhere(AcronymBoundary, x[4..]);
    InsertSpacesOneMatch(AcronymBoundary, x, 1);
  }

  /** Only step 4 changes `AIModel`: the other insertion passes find nothing to split. */
  lemma AiModelIdle(rule: SpacingRule, x: string)
    requires rule != AcronymBoundary
    requires |x| == 7 && x[0] == 'A' && x[1] == 'I' && x[2] == 'M' && x[3] == 'o' && x[4] == 'd' && x[5] == 'e' && x[6] == 'l'
    ensures InsertSpaces(rule, x) == x
  {
    assert NoMatchAnywhere(rule, x[6..]);
    assert NoMatchAnywhere(rule, x[5..]);
    assert NoMatchAnywhere(rule, x[4..]);
    assert NoMatchAnywhere(rule, x[3..]);
    assert NoMatchAnywhere(rule, x[2..]);
    assert NoMatchAnywhere(rule, x[1..]);
    InsertSpacesIdle(rule, x);
  }

  /** No insertion pass finds anything to split in `AI Model`. */
  lemma AiModelStable(rule: SpacingRule, x: string)
    requires |x| == 8 && x[0] == 'A' && x[1] == 'I' && x[2] == ' ' && x[3] == 'M' && x[4] == 'o' && x[5] == 'd' && x[6] == 'e' && x[7] == 'l'
    ensures InsertSpaces(rule, x) == x
  {
    assert NoMatchAnywhere(rule, x[7..]);
    assert NoMatchAnywhere(rule, x[6..]);
    assert NoMatchAnywhere(rule, x[5..]);
    assert NoMatchAnywhere(rule, x[4..]);
    assert NoMatchAnywhere(rule, x[3..]);
    assert NoMatchAnywhere(rule, x[2..]);
    assert NoMatchAnywhere(rule, x[1..]);
    InsertSpacesIdle(rule, x);
  }

  /** `a1` becomes `a 1`: step 5 splits a letter from the digit after it. */
  lemma ExampleLetterDigit(s: string)
    requires s == "a1"
    ensures FixSpacing(s) == "a 1"
  {
    AOneWhole(s);
  }

  /** The whole pipeline on the example's characters. */
  lemma AOneWhole(x: string)
    requires |x| == 2 && x[0] == 'a' && x[1] == '1'
    ensures var y := FixSpacing(x); |y| == 3 && y[0] == 'a' && y[1] == ' ' && y[2] == '1'
  {
    assert StripArtifacts(x) == x by { StripArtifactsIdle(x); }
    AOnePasses(x);
    var y := SpacingPasses(x);
    assert NoDoubleSpace(y) by { NoDoubleSpaceIf(y); }
    CollapseSpacesFixedPoints(y);
  }

  /** The four insertion passes on `a1`. */
  lemma AOnePasses(x: string)
    requires |x| == 2 && x[0] == 'a' && x[1] == '1'
    ensures var y := SpacingPasses(x); |y| == 3 && y[0] == 'a' && y[1] == ' ' && y[2] == '1'
  {
    AOneIdle(CaseBoundary, x);
    AOneIdle(AcronymBoundary, x);
    var t := InsertSpaces(LetterDigit, x);
    AOneStep5(x);
    AOneStable(AfterPunctuation, t);
  }

  /** Step 5 on `a1` splits the match at index 0. */
  lemma AOneStep5(x: string)
    requires |x| == 2 && x[0] == 'a' && x[1] == '1'
    ensures var y := InsertSpaces(LetterDigit, x); |y| == 3 && y[0] == 'a' && y[1] == ' ' && y[2] == '1'
  {
    InsertSpacesOneMatch(LetterDigit, x, 0);
  }

  /** Only step 5 changes `a1`: the other insertion passes find nothing to split. */
  lemma AOneIdle(rule: SpacingRule, x: string)
    requires rule != LetterDigit
    requires |x| == 2 && x[0] == 'a' && x[1] == '1'
    ensures InsertSpaces(rule, x) == x
  {
    assert NoMatchAnywhere(rule, x[1..]);
    InsertSpacesIdle(rule, x);
  }

  /** No insertion pass finds anything to split in `a 1`. */
  lemma AOneStable(rule: SpacingRule, x: string)
    requires |x| == 3 && x[0] == 'a' && x[1] == ' ' && x[2] == '1'
    ensures InsertSpaces(rule, x) == x
  {
    NoMatchAnywhereIf(rule, x);
    InsertSpacesIdle(rule, x);
  }

  /** `end.Next` becomes `end. Next`: step 6 puts a space after a punctuation mark. */
  lemma ExamplePunctuation(s: string)
    requires s == "end.Next"
    ensures FixSpacing(s) == "end. Next"
  {
    EndNextWhole(s);
  }

  /** The whole pipeline on the example's characters. */
  lemma EndNextWhole(x: string)
    requires |x| == 8 && x[0] == 'e' && x[1] == 'n' && x[2] == 'd' && x[3] == '.' && x[4] == 'N' && x[5] == 'e' && x[6] == 'x' && x[7] == 't'
    ensures var y := FixSpacing(x); |y| == 9 && y[0] == 'e' && y[1] == 'n' && y[2] == 'd' && y[3] == '.' && y[4] == ' ' && y[5] == 'N' && y[6] == 'e' && y[7] == 'x' && y[8] == 't'
  {
    assert StripArtifacts(x) == x by { StripArtifactsIdle(x); }
    EndNextPasses(x);
    var y := SpacingPasses(x);
    assert NoDoubleSpace(y) by { assert NoDoubleSpace(y[8..]); assert NoDoubleSpace(y[7..]); assert NoDoubleSpace(y[6..]); assert NoDoubleSpace(y[5..]); assert NoDoubleSpace(y[4..]); assert NoDoubleSpace(y[3..]); assert NoDoubleSpace(y[2..]); assert NoDoubleSpace(y[1..]); }
    CollapseSpacesFixedPoints(y);
  }

  /** The four insertion passes on `end.Next`. */
  lemma EndNextPasses(x: string)
    requires |x| == 8 && x[0] == 'e' && x[1] == 'n' && x[2] == 'd' && x[3] == '.' && x[4] == 'N' && x[5] == 'e' && x[6] == 'x' && x[7] == 't'
    ensures var y := SpacingPasses(x); |y| == 9 && y[0] == 'e' && y[1] == 'n' && y[2] == 'd' && y[3] == '.' && y[4] == ' ' && y[5] == 'N' && y[6] == 'e' && y[7] == 'x' && y[8] == 't'
  {
    EndNextIdle(CaseBoundary, x);
    EndNextIdle(AcronymBoundary, x);
    EndNextIdle(LetterDigit, x);
    EndNextStep6(x);
  }

  /** Step 6 on `end.Next` splits the match at index 3. */
  lemma EndNextStep6(x: string)
    requires |x| == 8 && x[0] == 'e' && x[1] == 'n' && x[2] == 'd' && x[3] == '.' && x[4] == 'N' && x[5] == 'e' && x[6] == 'x' && x[7] == 't'
    ensures var y := InsertSpaces(AfterPunctuation, x); |y| == 9 && y[0] == 'e' && y[1] == 'n' && y[2] == 'd' && y[3] == '.' && y[4] == ' ' && y[5] == 'N' && y[6] == 'e' && y[7] == 'x' && y[8] == 't'
  {
    assert NoMatchBefore(AfterPunctuation, x[2..], 1);
    assert NoMatchBefore(AfterPunctuation, x[1..], 2);
    assert NoMatchAnywhere(AfterPunctuation, x[7..]);
    assert NoMatchAnywhere(AfterPunctuation, x[6..]);
    assert NoMatchAnywhere(AfterPunctuation, x[5..]);
    InsertSpacesOneMatch(AfterPunctuation, x, 3);
  }

  /** Only step 6 changes `end.Next`: the other insertion passes find nothing to split. */
  lemma EndNextIdle(rule: SpacingRule, x: string)
    requires rule != AfterPunctuation
    requires |x| == 8 && x[0] == 'e' && x[1] == 'n' && x[2] == 'd' && x[3] == '.' && x[4] == 'N' && x[5] == 'e' && x[6] == 'x' && x[7] == 't'
    ensures InsertSpaces(rule, x) == x
  {
    assert NoMatchAnywhere(rule, x[7..]);
    assert NoMatchAnywhere(rule, x[6..]);
    assert NoMatchAnywhere(rule, x[5..]);
    assert NoMatchAnywhere(rule, x[4..]);
    assert NoMatchAnywhere(rule, x[3..]);
    assert NoMatchAnywhere(rule, x[2..]);
    assert NoMatchAnywhere(rule, x[1..]);
    InsertSpacesIdle(rule, x);
  }

  /** `..x` becomes `. .x`: the second dot was consumed as the character after the first, so step 6 does not split it from `x` ... */
  lemma ExampleNotIdempotentFirst(s: string)
    requires s == "..x"
    ensures FixSpacing(s) == ". .x"
  {
    DotsWhole(s);
  }

  /** The whole pipeline on the example's characters. */
  lemma DotsWhole(x: string)
    requires |x| == 3 && x[0] == '.' && x[1] == '.' && x[2] == 'x'
    ensures var y := FixSpacing(x); |y| == 4 && y[0] == '.' && y[1] == ' ' && y[2] == '.' && y[3] == 'x'
  {
    assert StripArtifacts(x) == x by { StripArtifactsIdle(x); }
    DotsPasses(x);
    var y := SpacingPasses(x);
    assert NoDoubleSpace(y) by { assert NoDoubleSpace(y[3..]); assert NoDoubleSpace(y[2..]); assert NoDoubleSpace(y[1..]); }
    CollapseSpacesFixedPoints(y);
  }

  /** The four insertion passes on `..x`. */
  lemma DotsPasses(x: string)
    requires |x| == 3 && x[0] == '.' && x[1] == '.' && x[2] == 'x'
    ensures var y := SpacingPasses(x); |y| == 4 && y[0] == '.' && y[1] == ' ' && y[2] == '.' && y[3] == 'x'
  {
    DotsIdle(CaseBoundary, x);
    DotsIdle(AcronymBoundary, x);
    DotsIdle(LetterDigit, x);
    DotsStep6(x);
  }

  /** Step 6 on `..x` splits the match at index 0. */
  lemma DotsStep6(x: string)
    requires |x| == 3 && x[0] == '.' && x[1] == '.' && x[2] == 'x'
    ensures var y := InsertSpaces(AfterPunctuation, x); |y| == 4 && y[0] == '.' && y[1] == ' ' && y[2] == '.' && y[3] == 'x'
  {
    assert NoMatchAnywhere(AfterPunctuation, x[2..]);
    InsertSpacesOneMatch(AfterPunctuation, x, 0);
  }

  /** Only step 6 changes `..x`: the other insertion passes find nothing to split. */
  lemma DotsIdle(rule: SpacingRule, x: string)
    requires rule != AfterPunctuation
    requires |x| == 3 && x[0] == '.' && x[1] == '.' && x[2] == 'x'
    ensures InsertSpaces(rule, x) == x
  {
    assert NoMatchAnywhere(rule, x[2..]);
    assert NoMatchAnywhere(rule, x[1..]);
    InsertSpacesIdle(rule, x);
  }

  /** ... and a second run of `fix_spacing` turns `. .x` into `. . x`, so it is not idempotent. */
  lemma ExampleNotIdempotentSecond(s: string)
    requires s == ". .x"
    ensures FixSpacing(s) == ". . x"
  {
    SpacedDotsWhole(s);
  }

  /** The whole pipeline on the example's characters. */
  lemma SpacedDotsWhole(x: string)
    requires |x| == 4 && x[0] == '.' && x[1] == ' ' && x[2] == '.' && x[3] == 'x'
    ensures var y := FixSpacing(x); |y| == 5 && y[0] == '.' && y[1] == ' ' && y[2] == '.' && y[3] == ' ' && y[4] == 'x'
  {
    assert StripArtifacts(x) == x by { StripArtifactsIdle(x); }
    SpacedDotsPasses(x);
    var y := SpacingPasses(x);
    assert NoDoubleSpace(y) by { assert NoDoubleSpace(y[4..]); assert NoDoubleSpace(y[3..]); assert NoDoubleSpace(y[2..]); assert NoDoubleSpace(y[1..]); }
    CollapseSpacesFixedPoints(y);
  }

  /** The four insertion passes on `. .x`. */
  lemma SpacedDotsPasses(x: string)
    requires |x| == 4 && x[0] == '.' && x[1] == ' ' && x[2] == '.' && x[3] == 'x'
    ensures var y := SpacingPasses(x); |y| == 5 && y[0] == '.' && y[1] == ' ' && y[2] == '.' && y[3] == ' ' && y[4] == 'x'
  {
    SpacedDotsIdle(CaseBoundary, x);
    SpacedDotsIdle(AcronymBoundary, x);
    SpacedDotsIdle(LetterDigit, x);
    SpacedDotsStep6(x);
  }

  /** Step 6 on `. .x` splits the match at index 2. */
  lemma SpacedDotsStep6(x: string)
    requires |x| == 4 && x[0] == '.' && x[1] == ' ' && x[2] == '.' && x[3] == 'x'
    ensures var y := InsertSpaces(AfterPunctuation, x); |y| == 5 && y[0] == '.' && y[1] == ' ' && y[2] == '.' && y[3] == ' ' && y[4] == 'x'
  {
    assert NoMatchBefore(AfterPunctuation, x[1..], 1);
    InsertSpacesOneMatch(AfterPunctuation, x, 2);
  }

  /** Only step 6 changes `. .x`: the other insertion passes find nothing to split. */
  lemma SpacedDotsIdle(rule: SpacingRule, x: string)
    requires rule != AfterPunctuation
    requires |x| == 4 && x[0] == '.' && x[1] == ' ' && x[2] == '.' && x[3] == 'x'
    ensures InsertSpaces(rule, x) == x
  {
    assert NoMatchAnywhere(rule, x[3..]);
    assert NoMatchAnywhere(rule, x[2..]);
    assert NoMatchAnywhere(rule, x[1..]);
    InsertSpacesIdle(rule, x);
  }

  /** `fix_spacing` is not idempotent: on `..x` a second run changes the
      output of the first. */
  lemma FixSpacingNotIdempotent(s: string)
    requires s == "..x"
    ensures FixSpacing(FixSpacing(s)) != FixSpacing(s)
  {
    ExampleNotIdempotentFirst(s);
    var t := FixSpacing(s);
    ExampleNotIdempotentSecond(t);
    assert FixSpacing(t)[3] != t[3];
  }
}
