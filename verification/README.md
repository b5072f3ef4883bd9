# Document-type detection, text normalization and invoice field extraction

This project models the core of a small document-parsing application in Dafny
and proves properties of the model. The core has three parts:

- **`detect_file_type`** (`main.py`) maps a file path to one of the supported
  document kinds `resume`, `invoice`, `latex`. It can also return no kind,
  and then the application asks the user. The kind comes from the lower-cased
  extension; for a PDF, the word `resume` or `invoice` in the base name decides.
- **`fix_spacing`** (`main.py`) is the text normalizer. It runs seven
  `re.sub` passes in order:
  1. it deletes PDF glyph codes `(cid:N)`;
  2. it deletes a class of noise symbols;
  3. it puts a space between a lower-case letter or digit and an upper-case letter;
  4. it puts a space inside an upper-case run before its last letter when a
     lower-case letter follows;
  5. it puts a space between a letter and a digit;
  6. it puts a space after punctuation that is followed by a non-space;
  7. it collapses runs of spaces into one.
- **`parse_invoice`** (`parsers/invoice_parser.py`) joins the texts of a PDF's
  pages, each followed by a line feed. It finds the first case-insensitive
  `Total … amount` match and collects every `word quantity $price` line item.
  It returns a record with the keys `Total` and `Line Items`. The sentinel
  `Not found` stands for a field that matched nothing.

The files:

| file | module | contents |
|---|---|---|
| `text.dfy` | `Text` | `Option`, ASCII character classes, `str.lower()`, the substring test, greedy runs |
| `paths.dfy` | `Paths` | `os.path.basename` and `os.path.splitext(...)[1]`, with the POSIX separator |
| `classifier.dfy` | `Classifier` | `SUPPORTED_TYPES` and `detect_file_type` |
| `normalizer.dfy` | `Normalizer` | the seven passes of `fix_spacing` and their composition |
| `invoice.dfy` | `Invoice` | page joining, the total search, the line-item `finditer` loop, the result record |

The core runs nine regular expressions: the seven `re.sub` patterns of
`fix_spacing` (main.py:38, 39, 41, 43, 45, 47 and 49) and the two patterns of
`parse_invoice` (parsers/invoice_parser.py:9 and 12). All nine are modelled.
Each is a function that tries its pattern at one index and returns the match
there, if any:

- Steps 2 to 6 match one character (`IsNoiseSymbol`) or a window of two or
  three characters (`MatchLength`), so the scanner is its own definition.
- The patterns with greedy runs have a scanner and, separately, a
  declarative description of what a match is. A lemma proves the two
  agree:
  - `CidCodeLength` against `IsCidCode`;
  - `CollapseSpaces` against `Widened` and `NoDoubleSpace`;
  - `AmountEnd` against `AmountAt`;
  - `GapEnd` against `GapAt`;
  - `TotalAt` against `IsTotalMatch`;
  - `ItemAt` against `IsLineMatch`.

The glyph code, the amount, the total and the line item have at most one
match starting at an index. Python's backtracking therefore cannot find a
match other than the one the scanner computes. `CidCodeLengthUnique`,
`AmountEnd`, `TotalMatchUnique` and `ItemAtComplete` prove it.

Two of the pieces are not unique on their own. The model reads them as
Python's greedy matcher does:

- Step 7's ` +` matches every non-empty prefix of a run of spaces. Nothing
  follows the `+`, so the greedy engine takes the whole run, as `DropBlanks`
  does.
- The gap `\s*[:\-]?\s*` of the total pattern can match several prefixes. At
  the start of ` :x` it matches the empty string, ` ` and ` :`. A gap
  followed by a character outside `\s` and `[:\-]` is the greedy one
  (`GapEndUnique`). Inside the total pattern the gap is always followed by
  `$`, a digit or a comma, so there it is read one way only.

The driver loops are modelled too:

- `re.search` is the leftmost-match search `FindTotal`.
- `re.finditer` is `Scan`. It is proved equal to the only left-to-right,
  non-overlapping scan that skips no match that does not overlap a
  reported one (`ScanOf`).
- `re.sub` is `RemoveCidCodes`, `RemoveSymbols`, `InsertSpaces` and
  `CollapseSpaces`. Each resumes after a match, as `re.sub` does.
  `RemoveCidCodes` is proved equal to the declarative deletion
  `CodesDeleted`. `InsertSpaces` only inserts spaces (`SpacesInserted`).
  For steps 3 to 5 it is proved equal to the reference reading
  `SpaceAfterEveryMatch`, which puts a space after the first character of
  every matching window (`InsertSpacesEveryMatch`). Step 6 is not: a match
  of `([.,;:!?])([^\s])` can start on the character that ends the previous
  one, and `re.sub` skips it (`AfterPunctuationSkipsOverlap`, on `..x`).

Two behaviours of the code are easy to miss:

- **`fix_spacing` is not idempotent.**
  - `..x` becomes `. .x`, and a second run gives `. . x`. Step 6 consumes
    the second dot as the character after the first dot, so it does not
    split that dot from the `x` in the same pass.
  - `FixSpacingNotIdempotent` proves this counterexample.
  - `FixSpacingIdempotentWhenSettled` proves the case in which a second run
    changes nothing: the output has no punctuation mark directly before a
    non-space.
- **The noise-symbol class does not hold `§`.** The class on main.py:39
  holds U+0E22, U+0E07, `#` and `+`. The two Thai letters are the UTF-8
  bytes of `§` read as TIS-620. The model uses the class as written, so `§`
  itself is kept.

## Model

| member | source | states |
|---|---|---|
| `Classifier.DetectFileType` | main.py:20-33 | `.tex` (in any letter case) gives `latex`. A `.pdf` gives `resume` exactly when the lower-cased base name contains `resume`. It gives `invoice` exactly when the name contains `invoice` but not `resume`. Every other path gives no kind. Each answer is stated as an if-and-only-if over the path. |
| `Classifier.DetectFileTypeIgnoresDirectory` | main.py:21-26 | Two paths with the same base name get the same answer, whatever their directories. |
| `Classifier.NamesDistinct` | main.py:18 | The three kinds have pairwise different names. |
| `Classifier.DetectFileTypeSupported` | main.py:18-33 | Every answer is no kind or a name from `SUPPORTED_TYPES`. |
| `Classifier.ExampleUnnamedPdf` | main.py:22-29 | `scan.pdf` is ambiguous: no kind. |
| `Classifier.ExampleInvoicePdf` | main.py:26-27 | `invoice_7.pdf` is an invoice. |
| `Classifier.ExampleBothKeywords` | main.py:21-25 | `Resume_Invoice.PDF` is a resume. `resume` is checked first, and the extension is compared lower-cased. |
| `Classifier.ExampleTex` | main.py:30-31 | `notes.tex` is LaTeX. |
| `Classifier.ExampleDirectoryIgnored` | main.py:24-29 | `resume/scan.pdf` gets no kind: a directory named `resume` does not count. |
| `Paths.RFind` | main.py:21 | The index returned holds the character, and no later index does; -1 means the character is absent. |
| `Paths.BasenameShape` | main.py:24 | The base name is the longest suffix of the path without `/`. |
| `Paths.ExtensionShape` | main.py:21 | The extension is empty, or it is a suffix of the path that starts with its only dot and holds no `/`. |
| `Paths.ExtensionPresent` | main.py:21 | The extension is non-empty exactly when the base name has a dot with a non-dot character before it. A leading-dot name such as `.pdf` therefore has no extension. |
| `Paths.ExtensionOfBasename` | main.py:21 | The extension of a path is the extension of its base name. |
| `Text.Lower` | main.py:21 | `str.lower()` on ASCII keeps the length and lower-cases exactly the upper-case letters. |
| `Text.NotContainsLower` | main.py:24 | If a word's first letter appears, in either case, at no index where the word would fit, the word is not in the lower-cased text. |
| `Text.ContainsLowerPrefix` | main.py:24-27 | A text that starts with a word, in any letter case, contains that word once lower-cased. |
| `Normalizer.CidCodeLength` | main.py:38 | A non-zero answer is the length of a `(cid:digits)` code at the front of the text. |
| `Normalizer.CidCodeLengthUnique` | main.py:38 | Every glyph code at the front of the text is the one the scanner measures. |
| `Normalizer.RemoveCidCodesKeeps` | main.py:38 | Step 1 adds no character: the output's multiset of characters is contained in the input's. |
| `Normalizer.CodeAtFrontLength` | main.py:38 | The scanner reports a glyph code at the front exactly when one starts there. |
| `Normalizer.RemoveCidCodesDeletes` | main.py:38 | Step 1's output is the input read left to right: each glyph code met is dropped and reading resumes after it, and every other character is kept, in order. |
| `Normalizer.CodesDeletedUnique` | main.py:38 | That reading determines the output: any text it relates to the input is step 1's output. |
| `Normalizer.ExampleCidCode` | main.py:38 | `a(cid:7)b` becomes `ab`. |
| `Normalizer.RemoveCidCodesFixedPoints` | main.py:38 | Step 1 leaves a text unchanged exactly when it holds no glyph code; otherwise the text gets shorter. |
| `Normalizer.RemoveSymbols` | main.py:39 | The output of step 2 holds no noise symbol. |
| `Normalizer.RemoveSymbolsCounts` | main.py:39 | Step 2 keeps every other character exactly as often as it occurs, and removes every noise symbol. |
| `Normalizer.RemoveSymbolsAppend` | main.py:39 | Step 2 works piecewise over a concatenation, so it keeps order. |
| `Normalizer.RemoveSymbolsFixedPoints` | main.py:39 | Step 2 leaves a text unchanged exactly when it holds no noise symbol. |
| `Normalizer.MatchLength` | main.py:41-47 | A match of steps 3-6 has length 2 or 3, fits in the text, and covers no space. |
| `Normalizer.MatchIsLocal` | main.py:41-47 | A match depends only on the characters it covers. |
| `Normalizer.InsertSpacesSecond` | main.py:41-47 | The second output character is the inserted space when a match starts the text, and the second input character otherwise. |
| `Normalizer.InsertSpacesOnlyInserts` | main.py:41-47 | A spacing pass only inserts spaces: deleting the inserted spaces gives the input back. |
| `Normalizer.InsertSpacesIdle` | main.py:41-47 | A pass over a text without a match changes nothing. |
| `Normalizer.InsertSpacesOneMatch` | main.py:41-47 | A text with exactly one match, at index `i`, gets exactly one space, at index `i + 1`. |
| `Normalizer.InsertSpacesComplete` | main.py:41-45 | Steps 3, 4 and 5 leave no match of their own pattern, so each is idempotent on its own. |
| `Normalizer.InsertSpacesEveryMatch` | main.py:41-45 | Steps 3, 4 and 5 put a space after the first character of every window that matches their pattern and nowhere else; resuming after a match skips no match. |
| `Normalizer.AfterPunctuationSkipsOverlap` | main.py:47 | Step 6 differs from that reading: on `..x` the second dot is consumed by the first match, so `re.sub` gives `. .x` where a space after every match would give `. . x`. |
| `Normalizer.SpacesInsertedKeepsNoMatch` | main.py:41-47 | Inserting spaces never creates a match of a spacing pattern. |
| `Normalizer.CollapseSpacesWidens` | main.py:49 | Step 7's output has no two adjacent spaces. The input is that output with each space widened back into its original run. |
| `Normalizer.CollapseSpacesUnique` | main.py:49 | Step 7's output is the only text without double spaces that widens to the input. |
| `Normalizer.CollapseSpacesFixedPoints` | main.py:49 | Step 7 leaves a text unchanged exactly when it has no two adjacent spaces, and step 7 is idempotent. |
| `Normalizer.WidenedKeepsNoMatch` | main.py:41-49 | Collapsing spaces never creates a match of a spacing pattern. |
| `Normalizer.CidCodeHasPunctuationMatch` | main.py:38-47 | Every glyph code holds a `:` directly before a digit, which step 6 would split. |
| `Normalizer.FixSpacingKeepsText` | main.py:35-50 | `fix_spacing` changes only spaces: with all spaces deleted, its output equals the text after steps 1 and 2. |
| `Normalizer.FixSpacingCounts` | main.py:35-50 | Every character other than a space or a noise symbol occurs in the output exactly as often as in the text without glyph codes. No noise symbol remains. |
| `Normalizer.FixSpacingNoDoubleSpace` | main.py:48-50 | The output never holds two adjacent spaces. |
| `Normalizer.FixSpacingSeparates` | main.py:40-50 | The output holds no match of steps 3, 4 or 5: later passes never undo earlier ones. |
| `Normalizer.FixSpacingBoundaries` | main.py:40-45 | In the output, no lower-case letter or digit stands before an upper-case letter. No letter stands before a digit. No two upper-case letters stand before a lower-case one. |
| `Normalizer.FixSpacingIdempotentWhenSettled` | main.py:35-50 | When the output has no punctuation mark before a non-space, running `fix_spacing` on the output changes nothing. |
| `Normalizer.StripArtifactsIdle` | main.py:38-39 | A text without `(` and without noise symbols passes steps 1 and 2 unchanged. |
| `Normalizer.SettledText` | main.py:35-50 | A text that no pass would change is its own normal form. Such a text has no noise symbol, no match of steps 3-6 and no two adjacent spaces. A glyph code needs no separate condition, because its `:` before a digit is a match of step 6. |
| `Normalizer.ExampleCaseBoundary` | main.py:40-41 | `firstAid` becomes `first Aid`. |
| `Normalizer.ExampleAcronym` | main.py:42-43 | `AIModel` becomes `AI Model`. |
| `Normalizer.ExampleLetterDigit` | main.py:44-45 | `a1` becomes `a 1`: step 5 splits a letter from a following digit. |
| `Normalizer.ExamplePunctuation` | main.py:46-47 | `end.Next` becomes `end. Next`: step 6 splits a dot from the letter after it, and step 3 does not fire because `.` is not a lower-case letter. |
| `Normalizer.ExampleNotIdempotentFirst` | main.py:46-49 | `..x` becomes `. .x`. |
| `Normalizer.ExampleNotIdempotentSecond` | main.py:46-49 | `. .x` becomes `. . x`. |
| `Normalizer.FixSpacingNotIdempotent` | main.py:35-50 | `fix_spacing` is not idempotent: a second run on the output for `..x` changes it. |
| `Invoice.JoinPages` | parsers/invoice_parser.py:6-8 | The loop builds the joined text. Its length is the sum of the page lengths plus one line feed per page. |
| `Invoice.JoinedAppend` | parsers/invoice_parser.py:6-8 | Joining distributes over concatenation: the text of two runs of pages is the first's text followed by the second's. |
| `Invoice.JoinedPlacesPage` | parsers/invoice_parser.py:6-8 | Page `k` occurs whole in the text, right after the earlier pages' text, and a line feed follows it. |
| `Invoice.AmountEnd` | parsers/invoice_parser.py:9 | The amount scanner's answer is an amount `[\d,]+\.\d{2}`, and it is the only amount that starts at that index. |
| `Invoice.GapEnd` | parsers/invoice_parser.py:9 | The greedy reading of `\s*[:\-]?\s*` ends at a gap. |
| `Invoice.GapEndUnique` | parsers/invoice_parser.py:9 | A gap followed by a character that is neither whitespace nor `:` or `-` is the one the greedy reading finds. |
| `Invoice.TotalAt` | parsers/invoice_parser.py:9 | A total match found at index `i` starts at `i` and is a match of the total pattern, ignoring letter case. |
| `Invoice.TotalAtComplete` | parsers/invoice_parser.py:9 | Every match of the total pattern is the one the scanner finds at its start. |
| `Invoice.TotalMatchUnique` | parsers/invoice_parser.py:9 | At most one total match starts at any index. |
| `Invoice.FindTotal` | parsers/invoice_parser.py:9 | `re.search` returns a match at or after the start index, and no match starts earlier. |
| `Invoice.ExtractTotalSpec` | parsers/invoice_parser.py:9-10 | `Total` is the sentinel exactly when no match exists. Otherwise it is the amount captured by the leftmost match. |
| `Invoice.NotFoundIsNoAmount` | parsers/invoice_parser.py:10 | The sentinel is not shaped like an amount, so it cannot be mistaken for a found total. |
| `Invoice.ExampleSubtotal` | parsers/invoice_parser.py:9-10 | The pattern has no word boundary before `Total`: in `Subtotal: $10.00` the match starts at index 3 and the total is `10.00`. |
| `Invoice.ExtractTotalShape` | parsers/invoice_parser.py:9-10 | A found total is shaped like an amount and occurs in the text. |
| `Invoice.ItemAt` | parsers/invoice_parser.py:12 | A line-item match found at index `i` starts at `i` and is a match of `(\w+)\s+(\d+)\s+\$([\d,]+\.\d{2})`. |
| `Invoice.ItemAtComplete` | parsers/invoice_parser.py:12 | Every line-item match is the one the scanner finds at its start. |
| `Invoice.Attempts` | parsers/invoice_parser.py:12 | The table holds one attempt per index, the end included, and each successful attempt is a match starting there. |
| `Invoice.AttemptsAdvance` | parsers/invoice_parser.py:12 | Every successful attempt is non-empty and ends inside the text, so `finditer` makes progress. |
| `Invoice.Scan` | parsers/invoice_parser.py:12 | `finditer` reports successful attempts in text order, and they do not overlap. |
| `Invoice.ScanScans` | parsers/invoice_parser.py:12 | Every successful attempt that `finditer` does not report starts inside one it does report. |
| `Invoice.ScanEmpty` | parsers/invoice_parser.py:12 | A scan is empty exactly when no attempt from the start index succeeds. |
| `Invoice.ScanFirst` | parsers/invoice_parser.py:12 | A scan's first match is the first successful attempt. |
| `Invoice.ScanTail` | parsers/invoice_parser.py:12 | After its first match, a scan continues as a scan from that match's end. |
| `Invoice.ScanUnique` | parsers/invoice_parser.py:12 | There is only one scan from a given index, so `finditer`'s output is determined by the matches alone. |
| `Invoice.FindItems` | parsers/invoice_parser.py:12-17 | The reported line items are matches at or after the start index, in text order, and do not overlap. |
| `Invoice.FindItemsCovers` | parsers/invoice_parser.py:12 | Every line-item match is reported or starts inside a reported one. |
| `Invoice.FindItemsEmpty` | parsers/invoice_parser.py:12-20 | Nothing is reported exactly when no line-item match exists at or after the start index. |
| `Invoice.ExampleWidget` | parsers/invoice_parser.py:12-20 | `Widget 4 $19.99` has exactly one line item, and its row is `Widget`, `4`, `19.99`. |
| `Invoice.ItemRow` | parsers/invoice_parser.py:13-17 | A row has the keys `Item`, `Quantity`, `Price` in that order. The values are a word, a digit run and an amount. Each one occurs in the scanned text at the start of its group and has its group's length, so it is exactly the group's text. |
| `Invoice.ItemTable` | parsers/invoice_parser.py:13-17 | The table has one row per match, in match order. |
| `Invoice.InvoiceRecordItems` | parsers/invoice_parser.py:18-21 | `Line Items` is the sentinel exactly when the text has no line-item match. Any other value is a table. The table is non-empty, has one row per reported match, and every row is well formed. |
| `Invoice.ParseInvoice` | parsers/invoice_parser.py:4-21 | The record has the keys `Total` and `Line Items`, in that order. `Total` is the extracted total of the joined page texts. `Line Items` is the sentinel exactly when that text has no line-item match. |

## Left out

- Opening the PDF and extracting page text (`pdfplumber`, parsers/invoice_parser.py:5 and 8) is library I/O. `ParseInvoice` takes the page texts as a sequence of strings.
- `page.extract_text()` can return `None`, and then `+ "\n"` raises a `TypeError`. Pages are strings in the model, so this crash is not modelled.
- Character classes, `str.lower()` and `re.IGNORECASE` are modelled on ASCII only. Python's Unicode-aware `\w`, `\d`, `\s` and case mapping agree with the model on ASCII text. Outside ASCII they differ: for example `é` is `\w` in Python and in no class here.
- `os.path` is modelled as `posixpath`, with `/` as the only separator. Windows path rules (backslashes, drive letters) are left out.
- The regular-expression engine in general is left out. Only the nine patterns of the core are modelled, each as a scanner for that one pattern.
- The Tk application, the file-dialog filter list `FILE_TYPES` (main.py:12-16), the prompt that asks for a type when `detect_file_type` returns no kind, and the other parsers (PDF, LaTeX, resume) are outside the core.
