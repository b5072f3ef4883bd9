/**
  The invoice field extractor `parse_invoice` (parsers/invoice_parser.py).

  The page texts come in as a sequence of strings: opening the PDF and
  extracting each page's text is library I/O outside the model. The two
  regular expressions are written as scanners that try to match at one
  index, `TotalAt` and `ItemAt`, each paired with a declarative description
  of what a match is (`IsTotalMatch`, `IsLineMatch`) and proved equal to it.
  Both patterns are deterministic: at most one match starts at any index
  (`TotalMatchUnique`, `ItemAtComplete`), so backtracking finds nothing the
  scanners miss.
 */
module Invoice {
  import opened Text

  // ---------------------------------------------------------------------
  // Page text concatenation (parsers/invoice_parser.py:6-8).

  /** The scanned text: each page's text followed by a line feed, in page
      order, accumulated from the left as the loop does. */
  function Joined(pages: seq<string>): string
  {
    if |pages| == 0 then "" else Joined(pages[..|pages| - 1]) + pages[|pages| - 1] + "\n"
  }

  /** Sum of the page lengths. */
  function TotalLength(pages: seq<string>): nat
  {
    if |pages| == 0 then 0 else TotalLength(pages[..|pages| - 1]) + |pages[|pages| - 1]|
  }

  /** The loop of parsers/invoice_parser.py:6-8. */
  method JoinPages(pages: seq<string>) returns (text: string)
    ensures text == Joined(pages)
    ensures |text| == TotalLength(pages) + |pages|
  {
    text := "";
    var i := 0;
    while i < |pages|
      invariant 0 <= i <= |pages|
      invariant text == Joined(pages[..i])
      invariant |text| == TotalLength(pages[..i]) + i
    {
      assert pages[..i + 1][..i] == pages[..i];
      text := text + pages[i] + "\n";
      i := i + 1;
    }
    assert pages[..i] == pages;
  }

  /** Joining is a homomorphism: the text of two runs of pages is the text
      of the first followed by the text of the second. */
  lemma {:induction false} JoinedAppend(a: seq<string>, b: seq<string>)
    ensures Joined(a + b) == Joined(a) + Joined(b)
    decreases |b|
  {
    if |b| == 0 {
      assert a + b == a;
    } else {
      var b', last := b[..|b| - 1], b[|b| - 1];
      JoinedAppend(a, b');
      assert Joined(a + b) == Joined(a + b') + last + "\n" by {
        assert (a + b)[..|a + b| - 1] == a + b';
        assert (a + b)[|a + b| - 1] == last;
      }
      assert Joined(b) == Joined(b') + last + "\n";
    }
  }

  /** Page `k` sits in the text right after the text of the pages before it,
      and is followed by a line feed. */
  lemma JoinedPlacesPage(pages: seq<string>, k: nat)
    requires k < |pages|
    ensures var off := |Joined(pages[..k])|;
      && off + |pages[k]| < |Joined(pages)|
      && Joined(pages)[off..off + |pages[k]|] == pages[k]
      && Joined(pages)[off + |pages[k]|] == '\n'
  {
    var pre, page, post := pages[..k], pages[k], pages[k + 1..];
    assert Joined(pages) == Joined(pre) + page + "\n" + Joined(post) by {
      assert pages == pre + [page] + post;
      JoinedAppend(pre + [page], post);
      JoinedAppend(pre, [page]);
      assert Joined([page]) == page + "\n" by {
        assert [page][..0] == [];
      }
    }
    LineBetween(Joined(pre), page, Joined(post));
  }

  /** In `a + p + "\n" + c`, `p` starts at `|a|` and a line feed follows it. */
  lemma LineBetween(a: string, p: string, c: string)
    ensures var j := a + p + "\n" + c;
      && |a| + |p| < |j|
      && j[|a|..|a| + |p|] == p
      && j[|a| + |p|] == '\n'
  {
    var j := a + p + "\n" + c;
    assert forall i :: 0 <= i < |p| ==> j[|a| + i] == p[i];
  }

  // ---------------------------------------------------------------------
  // Shared field shape: `[\d,]+\.\d{2}`.

  /** `t[lo..hi]` is an amount: a non-empty run of digits and commas, a dot,
      then two digits. */
  predicate AmountAt(t: string, lo: nat, hi: nat)
  {
    lo + 4 <= hi <= |t| && AllIn(DigitOrComma, t, lo, hi - 3)
    && t[hi - 3] == '.' && IsDigit(t[hi - 2]) && IsDigit(t[hi - 1])
  }

  /** The whole of `s` is an amount. */
  predicate IsAmount(s: string)
  {
    AmountAt(s, 0, |s|)
  }

  lemma AmountSlice(t: string, lo: nat, hi: nat)
    requires AmountAt(t, lo, hi)
    ensures IsAmount(t[lo..hi])
  {
    assert forall k :: 0 <= k < hi - lo ==> t[lo..hi][k] == t[lo + k];
  }

  /** The amount scanner: an amount starting at `p` ends where the run of
      digits and commas ends, three characters further. */
  function AmountEnd(t: string, p: nat): (r: Option<nat>)
    requires p <= |t|
    ensures r.Some? ==> AmountAt(t, p, r.value)
    ensures forall hi: nat :: AmountAt(t, p, hi) ==> r == Some(hi)
  {
    var d := RunEnd(DigitOrComma, t, p);
    if d > p && d + 3 <= |t| && t[d] == '.' && IsDigit(t[d + 1]) && IsDigit(t[d + 2]) then Some(d + 3)
    else None
  }

  // ---------------------------------------------------------------------
  // The total (parsers/invoice_parser.py:9-10):
  // `Total\s*[:\-]?\s*\$?([\d,]+\.\d{2})`, ignoring letter case.

  /** `total` in any letter case starts at index `i`. */
  predicate KeywordAt(t: string, i: nat)
  {
    i + 5 <= |t|
    && LowerChar(t[i]) == 't' && LowerChar(t[i + 1]) == 'o' && LowerChar(t[i + 2]) == 't'
    && LowerChar(t[i + 3]) == 'a' && LowerChar(t[i + 4]) == 'l'
  }

  predicate IsSepChar(c: char) { c == ':' || c == '-' }

  /** `t[lo..hi]` matches `\s*[:\-]?\s*`: whitespace, or whitespace around
      one colon or dash. */
  predicate GapAt(t: string, lo: nat, hi: nat)
    requires lo <= hi <= |t|
  {
    || AllIn(Space, t, lo, hi)
    || exists s :: lo <= s < hi && IsSepChar(t[s]) && AllIn(Space, t, lo, s) && AllIn(Space, t, s + 1, hi)
  }

  /** Where a total match starts, where its captured amount starts and where
      the match ends. */
  datatype TotalSpan = TotalSpan(start: nat, amountStart: nat, end: nat)

  /** The total pattern matches `t[m.start..m.end]`, capturing
      `t[m.amountStart..m.end]`. */
  predicate IsTotalMatch(t: string, m: TotalSpan)
  {
    && KeywordAt(t, m.start)
    && m.start + 5 <= m.amountStart
    && AmountAt(t, m.amountStart, m.end)
    && (|| GapAt(t, m.start + 5, m.amountStart)
        || (m.start + 5 < m.amountStart && t[m.amountStart - 1] == '$'
            && GapAt(t, m.start + 5, m.amountStart - 1)))
  }

  /** The matcher's reading of `\s*[:\-]?\s*` from index `lo`: greedy
      whitespace, an optional colon or dash, greedy whitespace again. */
  function GapEnd(t: string, lo: nat): (c: nat)
    requires lo <= |t|
    ensures lo <= c <= |t| && GapAt(t, lo, c)
  {
    var a := RunEnd(Space, t, lo);
    var b := if a < |t| && IsSepChar(t[a]) then a + 1 else a;
    GapOfRuns(t, lo, a, b, RunEnd(Space, t, b));
    RunEnd(Space, t, b)
  }

  /** Spaces, at most one colon or dash, then spaces form a gap. */
  lemma GapOfRuns(t: string, lo: nat, a: nat, b: nat, c: nat)
    requires lo <= a <= b <= c <= |t|
    requires AllIn(Space, t, lo, a) && AllIn(Space, t, b, c)
    requires b == a || (b == a + 1 && IsSepChar(t[a]))
    ensures GapAt(t, lo, c)
  {
    if b == a {
      assert AllIn(Space, t, lo, c);
    } else {
      assert IsSepChar(t[a]) && AllIn(Space, t, lo, a) && AllIn(Space, t, a + 1, c);
    }
  }

  /** A gap followed by a character that is neither whitespace nor a colon
      or dash is the one the matcher reads. */
  lemma GapEndUnique(t: string, lo: nat, g: nat)
    requires lo <= g < |t| && GapAt(t, lo, g)
    requires !IsSpace(t[g]) && !IsSepChar(t[g])
    ensures GapEnd(t, lo) == g
  {
    if AllIn(Space, t, lo, g) {
      RunEndUnique(Space, t, lo, g);
      RunEndUnique(Space, t, g, g);
    } else {
      var s :| lo <= s < g && IsSepChar(t[s]) && AllIn(Space, t, lo, s) && AllIn(Space, t, s + 1, g);
      RunEndUnique(Space, t, lo, s);
      RunEndUnique(Space, t, s + 1, g);
    }
  }

  /** The total pattern tried at index `i`, as the matcher runs it. */
  function TotalAt(t: string, i: nat): (r: Option<TotalSpan>)
    requires i <= |t|
    ensures r.Some? ==> r.value.start == i && IsTotalMatch(t, r.value)
  {
    if !KeywordAt(t, i) then None
    else
      var c := GapEnd(t, i + 5);
      var p := if c < |t| && t[c] == '$' then c + 1 else c;
      match AmountEnd(t, p)
      case None => None
      case Some(e) => Some(TotalSpan(i, p, e))
  }

  /** Every match the declarative description admits is the one the matcher
      finds at its start index. */
  lemma TotalAtComplete(t: string, m: TotalSpan)
    requires IsTotalMatch(t, m)
    ensures TotalAt(t, m.start) == Some(m)
  {
    var g := TotalGap(t, m);
    assert AmountAt(t, m.amountStart, m.end);
    TotalAtFromGap(t, m.start, g, m.amountStart, m.end);
  }

  /** `TotalAt` once the gap, the amount start and the amount are known. */
  lemma TotalAtFromGap(t: string, i: nat, g: nat, p: nat, e: nat)
    requires KeywordAt(t, i) && i + 5 <= g < |t| && GapAt(t, i + 5, g)
    requires !IsSpace(t[g]) && !IsSepChar(t[g])
    requires if t[g] == '$' then g + 1 == p else g == p
    requires AmountAt(t, p, e)
    ensures TotalAt(t, i) == Some(TotalSpan(i, p, e))
  {
    GapEndUnique(t, i + 5, g);
    var q := if t[g] == '$' then g + 1 else g;
    assert q == p;
    assert AmountEnd(t, q) == Some(e);
  }

  /** Where the gap of a total match ends: at the `$`, or at the amount when
      there is no `$`. */
  lemma TotalGap(t: string, m: TotalSpan) returns (g: nat)
    requires IsTotalMatch(t, m)
    ensures m.start + 5 <= g < |t| && GapAt(t, m.start + 5, g)
    ensures !IsSpace(t[g]) && !IsSepChar(t[g])
    ensures if t[g] == '$' then g + 1 == m.amountStart else g == m.amountStart
  {
    var i, q := m.start, m.amountStart;
    assert InClass(DigitOrComma, t[q]);
    g := if q > i + 5 && t[q - 1] == '$' && GapAt(t, i + 5, q - 1) then q - 1 else q;
  }

  /** At most one total match starts at each index. */
  lemma TotalMatchUnique(t: string, m: TotalSpan, m': TotalSpan)
    requires IsTotalMatch(t, m) && IsTotalMatch(t, m') && m.start == m'.start
    ensures m == m'
  {
    TotalAtComplete(t, m);
    TotalAtComplete(t, m');
  }

  /** `re.search`: the leftmost match starting at or after `from`. */
  function FindTotal(t: string, from: nat): (r: Option<TotalSpan>)
    requires from <= |t|
    ensures r.Some? ==> from <= r.value.start && IsTotalMatch(t, r.value)
    ensures forall m :: IsTotalMatch(t, m) && from <= m.start ==>
      r.Some? && r.value.start <= m.start
    decreases |t| - from
  {
    var here := TotalAt(t, from);
    if here.Some? then here
    else if from == |t| then
      assert forall m :: IsTotalMatch(t, m) ==> m.start < |t|;
      None
    else
      assert forall m :: IsTotalMatch(t, m) && m.start == from ==> TotalAt(t, m.start) == Some(m)
        by { forall m | IsTotalMatch(t, m) && m.start == from { TotalAtComplete(t, m); } }
      FindTotal(t, from + 1)
  }

  const NotFound: string := "Not found"

  /** `total.group(1) if total else "Not found"`. */
  function ExtractTotal(t: string): string
  {
    match FindTotal(t, 0)
    case Some(m) => t[m.amountStart..m.end]
    case None => NotFound
  }

  /** The total is the amount captured by the leftmost match, or the
      sentinel exactly when nothing matches. */
  lemma ExtractTotalSpec(t: string)
    ensures ExtractTotal(t) == NotFound <==> forall m :: !IsTotalMatch(t, m)
    ensures ExtractTotal(t) != NotFound ==>
      exists m :: IsTotalMatch(t, m) && ExtractTotal(t) == t[m.amountStart..m.end]
        && forall m' :: IsTotalMatch(t, m') ==> m.start <= m'.start
  {
    match FindTotal(t, 0)
    case Some(m) =>
      AmountSlice(t, m.amountStart, m.end);
      NotFoundIsNoAmount();
    case None =>
  }

  /** The sentinel cannot be mistaken for an amount. */
  lemma NotFoundIsNoAmount()
    ensures !IsAmount(NotFound)
  {
    assert NotFound[0] == 'N';
  }

  /** A found total is a substring of the text shaped like an amount. */
  lemma ExtractTotalShape(t: string)
    ensures ExtractTotal(t) == NotFound || IsAmount(ExtractTotal(t))
    ensures ExtractTotal(t) == NotFound || Contains(t, ExtractTotal(t))
  {
    match FindTotal(t, 0)
    case Some(m) =>
      AmountSlice(t, m.amountStart, m.end);
      assert OccursAt(ExtractTotal(t), t, m.amountStart);
    case None =>
  }

  /** The pattern has no word boundary in front of `Total`: in
      `Subtotal: $10.00` it matches from index 3 and captures `10.00`. */
  lemma ExampleSubtotal(t: string)
    requires t == "Subtotal: $10.00"
    ensures FindTotal(t, 0) == Some(TotalSpan(3, 11, 16))
    ensures ExtractTotal(t) == "10.00"
  {
    SubtotalLine(t);
  }

  // The example lemmas hand a literal to a helper that takes it character by
  // character (`|x| == n && x[0] == ...`). Given the literal itself, the
  // verifier unfolds every function on it at once, which costs far more.
  lemma SubtotalLine(x: string)
    requires |x| == 16 && x[0] == 'S' && x[1] == 'u' && x[2] == 'b' && x[3] == 't' && x[4] == 'o' && x[5] == 't' && x[6] == 'a' && x[7] == 'l'
    requires x[8] == ':' && x[9] == ' ' && x[10] == '$' && x[11] == '1' && x[12] == '0' && x[13] == '.' && x[14] == '0' && x[15] == '0'
    ensures FindTotal(x, 0) == Some(TotalSpan(3, 11, 16))
    ensures var v := ExtractTotal(x); |v| == 5 && v[0] == '1' && v[1] == '0' && v[2] == '.' && v[3] == '0' && v[4] == '0'
  {
    assert GapAt(x, 8, 10) by {
      assert IsSepChar(x[8]) && AllIn(Space, x, 8, 8) && AllIn(Space, x, 9, 10);
    }
    assert AmountAt(x, 11, 16) by {
      assert AllIn(DigitOrComma, x, 11, 13);
    }
    TotalAtFromGap(x, 3, 10, 11, 16);
    assert FindTotal(x, 2) == FindTotal(x, 3) by {
      assert !KeywordAt(x, 2);
    }
    assert FindTotal(x, 1) == FindTotal(x, 2) by {
      assert !KeywordAt(x, 1);
    }
    assert FindTotal(x, 0) == FindTotal(x, 1) by {
      assert !KeywordAt(x, 0);
    }
  }

  // ---------------------------------------------------------------------
  // Line items (parsers/invoice_parser.py:12-17):
  // `(\w+)\s+(\d+)\s+\$([\d,]+\.\d{2})`.

  /** The bounds of one line-item match: the item name is
      `t[start..itemEnd]`, the quantity `t[qtyStart..qtyEnd]`, the price
      `t[priceStart..end]`; a `$` sits just before the price. */
  datatype LineMatch = LineMatch(start: nat, itemEnd: nat, qtyStart: nat, qtyEnd: nat, priceStart: nat, end: nat)

  /** The line-item pattern matches `t[m.start..m.end]` with these groups. */
  predicate IsLineMatch(t: string, m: LineMatch)
  {
    && m.start < m.itemEnd < m.qtyStart < m.qtyEnd && m.qtyEnd + 1 < m.priceStart
    && AmountAt(t, m.priceStart, m.end)
    && AllIn(Word, t, m.start, m.itemEnd)
    && AllIn(Space, t, m.itemEnd, m.qtyStart)
    && AllIn(Digit, t, m.qtyStart, m.qtyEnd)
    && AllIn(Space, t, m.qtyEnd, m.priceStart - 1)
    && t[m.priceStart - 1] == '$'
  }

  /** The line-item pattern tried at index `i`, as the matcher runs it. */
  function ItemAt(t: string, i: nat): (r: Option<LineMatch>)
    requires i <= |t|
    ensures r.Some? ==> r.value.start == i && IsLineMatch(t, r.value)
  {
    var a := RunEnd(Word, t, i);
    var b := RunEnd(Space, t, a);
    var c := RunEnd(Digit, t, b);
    var d := RunEnd(Space, t, c);
    if i < a && a < b && b < c && c < d && d < |t| && t[d] == '$' then
      match AmountEnd(t, d + 1)
      case None => None
      case Some(e) => Some(LineMatch(i, a, b, c, d + 1, e))
    else None
  }

  /** Every line-item match the declarative description admits is the one
      the matcher finds at its start index. */
  lemma ItemAtComplete(t: string, m: LineMatch)
    requires IsLineMatch(t, m)
    ensures ItemAt(t, m.start) == Some(m)
  {
    RunEndUnique(Word, t, m.start, m.itemEnd);
    RunEndUnique(Space, t, m.itemEnd, m.qtyStart);
    RunEndUnique(Digit, t, m.qtyStart, m.qtyEnd);
    RunEndUnique(Space, t, m.qtyEnd, m.priceStart - 1);
  }

  // ---------------------------------------------------------------------
  // The `re.finditer` driver, over the table of attempts: `tries[p]` is what
  // the pattern matches when tried at index `p`.

  /** The line-item pattern tried at every index of `t`, the end included. */
  function Attempts(t: string): (tries: seq<Option<LineMatch>>)
    ensures |tries| == |t| + 1
    ensures forall p :: 0 <= p < |tries| ==> tries[p] == ItemAt(t, p)
    ensures forall p :: 0 <= p < |tries| && tries[p].Some? ==>
      tries[p].value.start == p && IsLineMatch(t, tries[p].value)
  {
    seq(|t| + 1, p requires 0 <= p <= |t| => ItemAt(t, p))
  }

  /** Each attempt that succeeds matches a non-empty span starting where it
      was tried and ending inside the text. */
  ghost predicate Advancing(tries: seq<Option<LineMatch>>)
  {
    forall p :: 0 <= p < |tries| && tries[p].Some? ==>
      tries[p].value.start == p < tries[p].value.end < |tries|
  }

  lemma AttemptsAdvance(t: string)
    ensures Advancing(Attempts(t))
  {
    var tries := Attempts(t);
    forall p | 0 <= p < |tries| && tries[p].Some?
      ensures tries[p].value.start == p < tries[p].value.end < |tries|
    {
      assert tries[p] == ItemAt(t, p);
    }
  }

  /** `re.finditer` from index `from`: try the pattern at the current index;
      after a match continue at its end, otherwise one index further. */
  function Scan(tries: seq<Option<LineMatch>>, from: nat): (ms: seq<LineMatch>)
    requires Advancing(tries) && from <= |tries|
    ensures forall k :: 0 <= k < |ms| ==>
      from <= ms[k].start < |tries| && tries[ms[k].start] == Some(ms[k])
    ensures forall j, k :: 0 <= j < k < |ms| ==> ms[j].end <= ms[k].start
    decreases |tries| - from
  {
    if from == |tries| then []
    else
      match tries[from]
      case Some(m) =>
        var rest := Scan(tries, m.end);
        assert forall k :: 0 < k <= |rest| ==> ([m] + rest)[k] == rest[k - 1];
        [m] + rest
      case None => Scan(tries, from + 1)
  }

  /** Index `p` lies inside one of the matches `ms`. */
  ghost predicate Covered(ms: seq<LineMatch>, p: nat)
  {
    exists k :: 0 <= k < |ms| && ms[k].start <= p < ms[k].end
  }

  /** `ms` is a scan from `from`: successful attempts at or after `from`, in
      text order and pairwise disjoint, such that every index at or after
      `from` where the attempt succeeds lies inside one of them. */
  ghost predicate ScanOf(tries: seq<Option<LineMatch>>, from: nat, ms: seq<LineMatch>)
  {
    && (forall k :: 0 <= k < |ms| ==>
          from <= ms[k].start < ms[k].end && ms[k].start < |tries| && tries[ms[k].start] == Some(ms[k]))
    && (forall j, k :: 0 <= j < k < |ms| ==> ms[j].end <= ms[k].start)
    && (forall p {:trigger Covered(ms, p)} :: from <= p < |tries| && tries[p].Some? ==> Covered(ms, p))
  }

  /** `Scan` is a scan: every successful attempt it does not report starts
      inside a match it does, so it skips only overlapping matches. */
  lemma {:induction false} ScanScans(tries: seq<Option<LineMatch>>, from: nat)
    requires Advancing(tries) && from <= |tries|
    ensures ScanOf(tries, from, Scan(tries, from))
    decreases |tries| - from
  {
    if from < |tries| {
      match tries[from]
      case Some(m0) =>
        ScanScans(tries, m0.end);
        ScanOfCons(tries, from, m0, Scan(tries, m0.end));
      case None =>
        ScanScans(tries, from + 1);
        ScanOfSkip(tries, from, Scan(tries, from + 1));
    }
  }

  /** A successful attempt at `from` followed by a scan from its end is a scan
      from `from`. */
  lemma ScanOfCons(tries: seq<Option<LineMatch>>, from: nat, m0: LineMatch, rest: seq<LineMatch>)
    requires Advancing(tries) && from < |tries| && tries[from] == Some(m0)
    requires ScanOf(tries, m0.end, rest)
    ensures ScanOf(tries, from, [m0] + rest)
  {
    ConsAttempts(tries, from, m0, rest);
    ConsOrdered(m0, rest);
    ConsCovers(tries, from, m0, rest);
  }

  /** The first conjunct of `ScanOf` for a successful attempt in front. */
  lemma ConsAttempts(tries: seq<Option<LineMatch>>, from: nat, m0: LineMatch, rest: seq<LineMatch>)
    requires Advancing(tries) && from < |tries| && tries[from] == Some(m0)
    requires forall k :: 0 <= k < |rest| ==>
      m0.end <= rest[k].start < rest[k].end && rest[k].start < |tries| && tries[rest[k].start] == Some(rest[k])
    ensures var ms := [m0] + rest; forall k :: 0 <= k < |ms| ==>
      from <= ms[k].start < ms[k].end && ms[k].start < |tries| && tries[ms[k].start] == Some(ms[k])
  {
    var ms := [m0] + rest;
    assert forall k :: 0 < k < |ms| ==> ms[k] == rest[k - 1];
  }

  /** The second conjunct of `ScanOf` for a match in front of later ones. */
  lemma ConsOrdered(m0: LineMatch, rest: seq<LineMatch>)
    requires forall k :: 0 <= k < |rest| ==> m0.end <= rest[k].start
    requires forall j, k :: 0 <= j < k < |rest| ==> rest[j].end <= rest[k].start
    ensures var ms := [m0] + rest; forall j, k :: 0 <= j < k < |ms| ==> ms[j].end <= ms[k].start
  {
    var ms := [m0] + rest;
    assert forall k :: 0 < k < |ms| ==> ms[k] == rest[k - 1];
  }

  /** The third conjunct of `ScanOf` for a successful attempt in front. */
  lemma ConsCovers(tries: seq<Option<LineMatch>>, from: nat, m0: LineMatch, rest: seq<LineMatch>)
    requires m0.start == from
    requires forall p {:trigger Covered(rest, p)} :: m0.end <= p < |tries| && tries[p].Some? ==> Covered(rest, p)
    ensures forall p {:trigger Covered([m0] + rest, p)} :: from <= p < |tries| && tries[p].Some? ==> Covered([m0] + rest, p)
  {
    forall p | from <= p < |tries| && tries[p].Some?
      ensures Covered([m0] + rest, p)
    {
      if p >= m0.end {
        assert Covered(rest, p);
      }
      ConsCovered(m0, rest, p);
    }
  }

  /** An index inside the first match, or covered by the later ones, is
      covered by all of them. */
  lemma ConsCovered(m0: LineMatch, rest: seq<LineMatch>, p: nat)
    requires m0.start <= p < m0.end || Covered(rest, p)
    ensures Covered([m0] + rest, p)
  {
    var ms := [m0] + rest;
    if m0.start <= p < m0.end {
      assert ms[0] == m0;
    } else {
      var k :| 0 <= k < |rest| && rest[k].start <= p < rest[k].end;
      assert ms[k + 1] == rest[k];
    }
  }

  /** A failed attempt at `from` adds nothing to the scan from `from + 1`. */
  lemma ScanOfSkip(tries: seq<Option<LineMatch>>, from: nat, ms: seq<LineMatch>)
    requires from < |tries| && tries[from] == None
    requires ScanOf(tries, from + 1, ms)
    ensures ScanOf(tries, from, ms)
  {
  }

  /** A scan is empty exactly when no attempt at or after `from` succeeds. */
  lemma ScanEmpty(tries: seq<Option<LineMatch>>, from: nat, ms: seq<LineMatch>)
    requires ScanOf(tries, from, ms)
    ensures |ms| == 0 <==> forall p :: from <= p < |tries| ==> tries[p].None?
  {
    if |ms| > 0 {
      assert tries[ms[0].start] == Some(ms[0]);
    } else {
      forall p | from <= p < |tries|
        ensures tries[p].None?
      {
        assert !Covered(ms, p);
      }
    }
  }

  /** A scan's first match starts at the first index at or after `from`
      where the attempt succeeds. */
  lemma ScanFirst(tries: seq<Option<LineMatch>>, from: nat, ms: seq<LineMatch>, p: nat)
    requires ScanOf(tries, from, ms) && |ms| > 0
    requires from <= p < |tries| && tries[p].Some?
    ensures ms[0].start <= p
  {
    assert Covered(ms, p);
    var k :| 0 <= k < |ms| && ms[k].start <= p < ms[k].end;
    if k > 0 {
      assert ms[0].end <= ms[k].start;
    }
  }

  /** After its first match, a scan goes on as a scan from that match's end. */
  lemma ScanTail(tries: seq<Option<LineMatch>>, from: nat, ms: seq<LineMatch>)
    requires ScanOf(tries, from, ms) && |ms| > 0
    ensures ScanOf(tries, ms[0].end, ms[1..])
  {
    var rest := ms[1..];
    assert from <= ms[0].start < ms[0].end;
    forall p | ms[0].end <= p < |tries| && tries[p].Some?
      ensures Covered(rest, p)
    {
      assert Covered(ms, p);
      var k :| 0 <= k < |ms| && ms[k].start <= p < ms[k].end;
      assert k != 0;
      assert rest[k - 1] == ms[k];
    }
  }

  /** The scan from a given index is unique: `Scan` is the only sequence of
      matches a left-to-right, non-overlapping, nothing-skipped scan can
      report. */
  lemma {:induction false} ScanUnique(tries: seq<Option<LineMatch>>, from: nat, a: seq<LineMatch>, b: seq<LineMatch>)
    requires ScanOf(tries, from, a) && ScanOf(tries, from, b)
    ensures a == b
    decreases |a|
  {
    assert |a| == 0 <==> |b| == 0 by {
      ScanEmpty(tries, from, a);
      ScanEmpty(tries, from, b);
    }
    if |a| > 0 {
      assert a[0] == b[0] by {
        ScanFirst(tries, from, a, b[0].start);
        ScanFirst(tries, from, b, a[0].start);
        assert tries[a[0].start] == Some(a[0]) && tries[b[0].start] == Some(b[0]);
      }
      assert a[1..] == b[1..] by {
        ScanTail(tries, from, a);
        ScanTail(tries, from, b);
        ScanUnique(tries, a[0].end, a[1..], b[1..]);
      }
      assert a == [a[0]] + a[1..];
      assert b == [b[0]] + b[1..];
    }
  }

  // ---------------------------------------------------------------------
  // The line items of a text.

  /** All line-item matches of `t` from index `from` on, as `re.finditer`
      reports them. */
  function FindItems(t: string, from: nat): (ms: seq<LineMatch>)
    requires from <= |t|
    ensures forall k :: 0 <= k < |ms| ==> IsLineMatch(t, ms[k]) && from <= ms[k].start
    ensures forall j, k :: 0 <= j < k < |ms| ==> ms[j].end <= ms[k].start
  {
    AttemptsAdvance(t);
    Scan(Attempts(t), from)
  }

  /** Every line-item match of `t` at or after `from` is reported or starts
      inside a reported one. */
  lemma FindItemsCovers(t: string, from: nat, m: LineMatch)
    requires from <= |t|
    requires IsLineMatch(t, m) && from <= m.start
    ensures Covered(FindItems(t, from), m.start)
  {
    AttemptsAdvance(t);
    ScanScans(Attempts(t), from);
    ItemAtComplete(t, m);
    assert Attempts(t)[m.start].Some?;
  }

  /** The scan reports nothing exactly when no match starts at or after
      `from`. */
  lemma FindItemsEmpty(t: string, from: nat)
    requires from <= |t|
    ensures |FindItems(t, from)| == 0 <==> forall m :: IsLineMatch(t, m) ==> m.start < from
  {
    var ms := FindItems(t, from);
    forall m | IsLineMatch(t, m) && from <= m.start
      ensures |ms| > 0
    {
      FindItemsCovers(t, from, m);
      assert Covered(ms, m.start);
    }
    if |ms| > 0 {
      assert IsLineMatch(t, ms[0]) && from <= ms[0].start;
    }
  }

  /** `Widget 4 $19.99` holds exactly one line item, reported as the row
      `Widget`, `4`, `19.99`. */
  lemma ExampleWidget(t: string)
    requires t == "Widget 4 $19.99"
    ensures FindItems(t, 0) == [LineMatch(0, 6, 7, 8, 10, 15)]
    ensures InvoiceRecord(t)[1].1 == Table([[("Item", "Widget"), ("Quantity", "4"), ("Price", "19.99")]])
  {
    WidgetLine(t);
    WidgetRow(t);
  }

  lemma WidgetRow(x: string)
    requires |x| == 15 && x[0] == 'W' && x[1] == 'i' && x[2] == 'd' && x[3] == 'g' && x[4] == 'e' && x[5] == 't' && x[6] == ' '
    requires x[7] == '4' && x[8] == ' ' && x[9] == '$' && x[10] == '1' && x[11] == '9' && x[12] == '.' && x[13] == '9' && x[14] == '9'
    ensures IsLineMatch(x, LineMatch(0, 6, 7, 8, 10, 15))
    ensures ItemRow(x, LineMatch(0, 6, 7, 8, 10, 15)) == [("Item", "Widget"), ("Quantity", "4"), ("Price", "19.99")]
  {
    assert AllIn(Word, x, 0, 6) && AllIn(Space, x, 6, 7) && AllIn(Digit, x, 7, 8) && AllIn(Space, x, 8, 9);
    assert AllIn(DigitOrComma, x, 10, 12);
    assert x[0..6] == "Widget";
    assert x[7..8] == "4";
    assert x[10..15] == "19.99";
  }

  lemma WidgetLine(x: string)
    requires |x| == 15 && x[0] == 'W' && x[1] == 'i' && x[2] == 'd' && x[3] == 'g' && x[4] == 'e' && x[5] == 't' && x[6] == ' '
    requires x[7] == '4' && x[8] == ' ' && x[9] == '$' && x[10] == '1' && x[11] == '9' && x[12] == '.' && x[13] == '9' && x[14] == '9'
    ensures IsLineMatch(x, LineMatch(0, 6, 7, 8, 10, 15))
    ensures FindItems(x, 0) == [LineMatch(0, 6, 7, 8, 10, 15)]
    ensures InvoiceRecord(x)[1].1 == Table([ItemRow(x, LineMatch(0, 6, 7, 8, 10, 15))])
  {
    var m := LineMatch(0, 6, 7, 8, 10, 15);
    assert IsLineMatch(x, m) by {
      assert AllIn(Word, x, 0, 6) && AllIn(Space, x, 6, 7) && AllIn(Digit, x, 7, 8) && AllIn(Space, x, 8, 9);
      assert AllIn(DigitOrComma, x, 10, 12);
    }
    ItemAtComplete(x, m);
    AttemptsAdvance(x);
    var tries := Attempts(x);
    assert tries[0] == Some(m);
    assert tries[15] == None by {
      assert ItemAt(x, 15) == None;
    }
    assert Scan(tries, 15) == [] by {
      assert Scan(tries, 16) == [];
    }
    assert Scan(tries, 0) == [m] + Scan(tries, 15);
    assert ItemTable(x, [m]) == [ItemRow(x, m)];
  }

  // ---------------------------------------------------------------------
  // The result record (parsers/invoice_parser.py:13-21).

  /** A field value: a string, or the table of line items. */
  datatype Value = Str(text: string) | Table(rows: seq<seq<(string, string)>>)

  /** All of `s` is in `cls` and it is not empty. */
  predicate RunOf(cls: CharClass, s: string)
  {
    |s| > 0 && AllIn(cls, s, 0, |s|)
  }

  /** One line item with its keys in source order: the item is a word, the
      quantity a run of digits, the price an amount, each the text of its
      group. */
  function ItemRow(t: string, m: LineMatch): (row: seq<(string, string)>)
    requires IsLineMatch(t, m)
    ensures |row| == 3 && row[0].0 == "Item" && row[1].0 == "Quantity" && row[2].0 == "Price"
    ensures RunOf(Word, row[0].1) && OccursAt(row[0].1, t, m.start) && |row[0].1| == m.itemEnd - m.start
    ensures RunOf(Digit, row[1].1) && OccursAt(row[1].1, t, m.qtyStart) && |row[1].1| == m.qtyEnd - m.qtyStart
    ensures IsAmount(row[2].1) && OccursAt(row[2].1, t, m.priceStart) && |row[2].1| == m.end - m.priceStart
  {
    var item, qty, price := t[m.start..m.itemEnd], t[m.qtyStart..m.qtyEnd], t[m.priceStart..m.end];
    assert forall j :: 0 <= j < |item| ==> item[j] == t[m.start + j];
    assert forall j :: 0 <= j < |qty| ==> qty[j] == t[m.qtyStart + j];
    AmountSlice(t, m.priceStart, m.end);
    [("Item", item), ("Quantity", qty), ("Price", price)]
  }

  /** The table of line items, one row per match, in text order. */
  function ItemTable(t: string, ms: seq<LineMatch>): (rows: seq<seq<(string, string)>>)
    requires forall k :: 0 <= k < |ms| ==> IsLineMatch(t, ms[k])
    ensures |rows| == |ms|
    ensures forall k :: 0 <= k < |ms| ==> rows[k] == ItemRow(t, ms[k])
  {
    seq(|ms|, k requires 0 <= k < |ms| => ItemRow(t, ms[k]))
  }

  /** The record `parse_invoice` returns for the scanned text `t`, as an
      ordered list of key-value pairs. */
  function InvoiceRecord(t: string): seq<(string, Value)>
  {
    var ms := FindItems(t, 0);
    [ ("Total", Str(ExtractTotal(t))),
      ("Line Items", if |ms| == 0 then Str(NotFound) else Table(ItemTable(t, ms))) ]
  }

  /** `Line Items` is the sentinel exactly when the text has no line-item
      match; otherwise it is the table of the matches the scan reports, in
      text order, every row being a word, a digit run and an amount. */
  lemma InvoiceRecordItems(t: string)
    ensures var r := InvoiceRecord(t);
      && (r[1].1 == Str(NotFound) <==> forall m :: !IsLineMatch(t, m))
      && (r[1].1 != Str(NotFound) ==>
            && r[1].1.Table?
            && |r[1].1.rows| == |FindItems(t, 0)| > 0
            && forall k :: 0 <= k < |r[1].1.rows| ==>
                 var row := r[1].1.rows[k];
                 && |row| == 3 && row[0].0 == "Item" && row[1].0 == "Quantity" && row[2].0 == "Price"
                 && RunOf(Word, row[0].1) && RunOf(Digit, row[1].1) && IsAmount(row[2].1))
  {
    var ms := FindItems(t, 0);
    FindItemsEmpty(t, 0);
    if |ms| > 0 {
      var rows := ItemTable(t, ms);
      forall k | 0 <= k < |rows|
        ensures var row := rows[k];
          && |row| == 3 && row[0].0 == "Item" && row[1].0 == "Quantity" && row[2].0 == "Price"
          && RunOf(Word, row[0].1) && RunOf(Digit, row[1].1) && IsAmount(row[2].1)
      {
        assert rows[k] == ItemRow(t, ms[k]);
      }
    }
  }

  /** `parse_invoice` on the page texts: the record of the joined text. */
  method ParseInvoice(pages: seq<string>) returns (record: seq<(string, Value)>)
    ensures |record| == 2 && record[0].0 == "Total" && record[1].0 == "Line Items"
    ensures record[0].1 == Str(ExtractTotal(Joined(pages)))
    ensures record[1].1 == Str(NotFound) <==> forall m :: !IsLineMatch(Joined(pages), m)
    ensures record == InvoiceRecord(Joined(pages))
  {
    var text := JoinPages(pages);
    record := InvoiceRecord(text);
    InvoiceRecordItems(text);
  }
}
