/**
  The two `os.path` helpers the classifier calls, written out as string
  functions with the POSIX separator `/` (Python's `posixpath`).
 */
module Paths {
  import opened Text

  /** The last index below `n` holding `c`, or -1. */
  function LastIndexBelow(s: string, c: char, n: nat): (r: int)
    requires n <= |s|
    ensures -1 <= r < n
    ensures r >= 0 ==> s[r] == c
    ensures forall k :: r < k < n ==> s[k] != c
  {
    if n == 0 then -1
    else if s[n - 1] == c then n - 1
    else LastIndexBelow(s, c, n - 1)
  }

  /** `str.rfind` for one character: the last index of `c` in `s`, or -1. */
  function RFind(s: string, c: char): (r: int)
    ensures -1 <= r < |s|
    ensures r >= 0 ==> s[r] == c
    ensures forall k :: r < k < |s| ==> s[k] != c
  {
    LastIndexBelow(s, c, |s|)
  }

  /** `os.path.basename`: everything after the last `/`. */
  function Basename(p: string): string
  {
    p[RFind(p, '/') + 1..]
  }

  /** The base name is the longest suffix of the path without a `/`. */
  lemma BasenameShape(p: string)
    ensures var b := Basename(p);
      && '/' !in b
      && |b| <= |p| && b == p[|p| - |b|..]
      && (|b| < |p| ==> p[|p| - |b| - 1] == '/')
  {
    var i := RFind(p, '/') + 1;
    assert forall k :: 0 <= k < |p[i..]| ==> p[i..][k] == p[i + k];
  }

  /** Some character of `s` is not a dot. */
  predicate HasNonDot(s: string)
  {
    exists k | 0 <= k < |s| :: s[k] != '.'
  }

  /** The name has a dot with some non-dot character before it: exactly the
      names `os.path.splitext` gives a non-empty extension. */
  predicate HasExtension(name: string)
  {
    exists k :: 0 <= k < |name| && name[k] == '.' && HasNonDot(name[..k])
  }

  /** `os.path.splitext(p)[1]`: from the last dot of the last path component
      to the end, unless that component is only dots up to that last dot (a
      leading-dot name such as `.pdf` has no extension). */
  function Extension(p: string): (e: string)
  {
    var sepIndex := RFind(p, '/');
    var dotIndex := RFind(p, '.');
    if dotIndex > sepIndex && HasNonDot(p[sepIndex + 1..dotIndex]) then p[dotIndex..] else ""
  }

  /** The extension is empty or is a suffix of the path that starts with its
      only dot and holds no `/`. */
  lemma ExtensionShape(p: string)
    ensures var e := Extension(p);
      e == "" || (e[0] == '.' && '.' !in e[1..] && '/' !in e && |e| <= |p| && e == p[|p| - |e|..])
  {
    var dotIndex := RFind(p, '.');
    if Extension(p) != "" {
      var e := p[dotIndex..];
      assert forall k :: 0 <= k < |e[1..]| ==> e[1..][k] == p[dotIndex + 1 + k];
    }
  }

  /** The extension is non-empty exactly when the base name has a dot
      preceded by a non-dot character. */
  lemma ExtensionPresent(p: string)
    ensures Extension(p) != "" <==> HasExtension(Basename(p))
  {
    if Extension(p) != "" {
      ExtensionPresentOnly(p);
    }
    if HasExtension(Basename(p)) {
      ExtensionPresentIf(p);
    }
  }

  lemma ExtensionPresentOnly(p: string)
    requires Extension(p) != ""
    ensures HasExtension(Basename(p))
  {
    DotInName(p, RFind(p, '/') + 1, RFind(p, '.'));
  }

  /** A dot at index `dot` with a non-dot between `from` and it makes
      `p[from..]` a name with an extension. */
  lemma DotInName(p: string, from: nat, dot: nat)
    requires from <= dot < |p| && p[dot] == '.' && HasNonDot(p[from..dot])
    ensures HasExtension(p[from..])
  {
    var b := p[from..];
    var k := dot - from;
    var w :| 0 <= w < k && p[from..dot][w] != '.';
    assert b[k] == '.' && b[..k][w] == b[w] == p[from + w];
  }

  lemma ExtensionPresentIf(p: string)
    requires HasExtension(Basename(p))
    ensures Extension(p) != ""
  {
    var from := RFind(p, '/') + 1;
    var b := Basename(p);
    var k :| 0 <= k < |b| && b[k] == '.' && HasNonDot(b[..k]);
    var w :| 0 <= w < k && b[..k][w] != '.';
    assert from + k < |p| && p[from + w] != '.' && p[from + k] == '.' by {
      assert b == p[from..];
      assert b[..k][w] == b[w];
    }
    DotAfterNonDot(p, from + w, from + k);
  }

  /** A dot after a non-dot character, both after the last `/`, gives an
      extension. */
  lemma DotAfterNonDot(p: string, w: nat, i: nat)
    requires RFind(p, '/') < w < i < |p|
    requires p[w] != '.' && p[i] == '.'
    ensures Extension(p) != ""
  {
    var sepIndex := RFind(p, '/');
    var dotIndex := RFind(p, '.');
    assert p[sepIndex + 1..dotIndex][w - sepIndex - 1] == p[w];
  }

  /** `str.rfind` on a concatenation looks in the right part first. */
  lemma RFindAppend(a: string, b: string, c: char)
    ensures RFind(a + b, c) == if RFind(b, c) >= 0 then |a| + RFind(b, c) else RFind(a, c)
  {
    var rb := RFind(b, c);
    var ra := RFind(a, c);
    if rb >= 0 {
      assert (a + b)[|a| + rb] == c;
      assert forall k :: |a| + rb < k < |a + b| ==> (a + b)[k] != c;
    } else {
      assert forall k :: |a| <= k < |a + b| ==> (a + b)[k] != c;
      if ra >= 0 {
        assert (a + b)[ra] == c;
        assert forall k :: ra < k < |a| ==> (a + b)[k] != c;
      }
    }
  }

  /** A path is its directory part (up to and including the last `/`)
      followed by its base name. */
  lemma BasenameSplit(p: string)
    ensures p == p[..RFind(p, '/') + 1] + Basename(p)
    ensures RFind(Basename(p), '/') == -1
  {
  }

  /** The extension depends only on the last path component. */
  lemma {:induction false} ExtensionOfBasename(p: string)
    ensures Extension(p) == Extension(Basename(p))
  {
    var sepIndex := RFind(p, '/');
    var dir := p[..sepIndex + 1];
    var b := Basename(p);
    BasenameSplit(p);
    RFindAppend(dir, b, '.');
    var db := RFind(b, '.');
    if db >= 0 {
      ExtensionWithDot(p, dir, b, db);
    } else {
      assert RFind(p, '.') == RFind(dir, '.') <= sepIndex;
    }
  }

  lemma ExtensionWithDot(p: string, dir: string, b: string, db: nat)
    requires p == dir + b && RFind(p, '/') == |dir| - 1 && RFind(b, '/') == -1
    requires db == RFind(b, '.') && RFind(p, '.') == |dir| + db
    ensures Extension(p) == Extension(b)
  {
    assert p[|dir|..|dir| + db] == b[0..db];
    assert p[|dir| + db..] == b[db..];
    assert Extension(b) == if HasNonDot(b[0..db]) then b[db..] else "";
    assert Extension(p) == if HasNonDot(p[|dir|..|dir| + db]) then p[|dir| + db..] else "";
  }

  /** A path made of a stem without `/` or `.`, a dot and a suffix without
      `/` or `.` is its own base name, and its extension is the dot and the
      suffix. */
  lemma PlainFileName(stem: string, suffix: string)
    requires |stem| > 0 && '/' !in stem && '.' !in stem
    requires '/' !in suffix && '.' !in suffix
    ensures Basename(stem + "." + suffix) == stem + "." + suffix
    ensures Extension(stem + "." + suffix) == "." + suffix
  {
    var p := stem + "." + suffix;
    var d := |stem|;
    PlainFileNameIndices(stem, suffix);
    assert Basename(p) == p[RFind(p, '/') + 1..];
    assert p[0..] == p;
    assert p[0..d] == stem;
    assert p[0..d][0] != '.';
    assert p[d..] == "." + suffix;
  }

  lemma PlainFileNameIndices(stem: string, suffix: string)
    requires '/' !in stem && '.' !in stem
    requires '/' !in suffix && '.' !in suffix
    ensures RFind(stem + "." + suffix, '/') == -1
    ensures RFind(stem + "." + suffix, '.') == |stem|
  {
    var p := stem + "." + suffix;
    var d := |stem|;
    assert forall k :: 0 <= k < d ==> p[k] == stem[k];
    assert forall k :: d < k < |p| ==> p[k] == suffix[k - d - 1];
    assert p[d] == '.';
  }
}
