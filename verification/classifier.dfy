/**
  The document-kind classifier of main.py: a path string is mapped to one of
  the supported kinds, or to no kind when the caller must ask the user.
 */
module Classifier {
  import opened Text
  import opened Paths

  /** The kinds the application can parse, in the order the type-choice
      dialog lists them (main.py:18). */
  const SupportedTypes: seq<string> := ["resume", "invoice", "latex"]

  datatype DocKind = Resume | Invoice | Latex
  {
    /** The string main.py uses for this kind. */
    function Name(): (n: string)
      ensures n in SupportedTypes
    {
      match this
      case Resume => "resume"
      case Invoice => "invoice"
      case Latex => "latex"
    }
  }

  /** The extension, lower-cased, is `.pdf`. */
  predicate IsPdf(path: string) { Lower(Extension(path)) == ".pdf" }

  /** The extension, lower-cased, is `.tex`. */
  predicate IsTex(path: string) { Lower(Extension(path)) == ".tex" }

  /** The lower-cased base name contains `word`. */
  predicate NameMentions(path: string, word: string) { Contains(Lower(Basename(path)), word) }

  /** `detect_file_type`: `None` is the "ambiguous" answer that makes the
      application ask the user. */
  function DetectFileType(path: string): (kind: Option<DocKind>)
    ensures IsTex(path) ==> kind == Some(Latex)
    ensures kind == Some(Latex) ==> IsTex(path)
    ensures kind == Some(Resume) <==> IsPdf(path) && NameMentions(path, "resume")
    ensures kind == Some(Invoice) <==> IsPdf(path) && !NameMentions(path, "resume") && NameMentions(path, "invoice")
    ensures kind == None <==>
      !IsTex(path) && !(IsPdf(path) && (NameMentions(path, "resume") || NameMentions(path, "invoice")))
  {
    var ext := Lower(Extension(path));
    if ext == ".pdf" then
      if Contains(Lower(Basename(path)), "resume") then Some(Resume)
      else if Contains(Lower(Basename(path)), "invoice") then Some(Invoice)
      else None
    else if ext == ".tex" then Some(Latex)
    else None
  }

  /** Keywords are looked for in the base name only, and the extension is
      taken from it too: two paths with the same base name get the same kind,
      whatever their directories are called. */
  lemma {:induction false} DetectFileTypeIgnoresDirectory(p: string, q: string)
    requires Basename(p) == Basename(q)
    ensures DetectFileType(p) == DetectFileType(q)
  {
    ExtensionOfBasename(p);
    ExtensionOfBasename(q);
  }

  /** Distinct kinds have distinct names. */
  lemma NamesDistinct(a: DocKind, b: DocKind)
    ensures a.Name() == b.Name() <==> a == b
  {
  }

  /** Every answer is `None` or one of the supported type names. */
  lemma DetectFileTypeSupported(path: string)
    ensures DetectFileType(path) == None || DetectFileType(path).value.Name() in SupportedTypes
  {
  }

  /** `scan.pdf` names neither keyword, so the caller must ask. */
  lemma ExampleUnnamedPdf(p: string)
    requires p == "scan.pdf"
    ensures DetectFileType(p) == None
  {
    ScanPdf(p);
  }

  // The example lemmas hand a literal to a helper that takes it character by
  // character (`|x| == n && x[0] == ...`). Given the literal itself, the
  // verifier unfolds every function on it at once, which costs far more.
  lemma ScanPdf(x: string)
    requires |x| == 8 && x[0] == 's' && x[1] == 'c' && x[2] == 'a' && x[3] == 'n' && x[4] == '.' && x[5] == 'p' && x[6] == 'd' && x[7] == 'f'
    ensures DetectFileType(x) == None
  {
    PlainPdf(x, 4);
    NotContainsLower(x, "resume");
    NotContainsLower(x, "invoice");
  }

  /** `invoice_7.pdf` is an invoice. */
  lemma ExampleInvoicePdf(p: string)
    requires p == "invoice_7.pdf"
    ensures DetectFileType(p) == Some(Invoice)
  {
    InvoicePdf(p);
  }

  lemma InvoicePdf(x: string)
    requires |x| == 13 && x[0] == 'i' && x[1] == 'n' && x[2] == 'v' && x[3] == 'o' && x[4] == 'i' && x[5] == 'c' && x[6] == 'e' && x[7] == '_' && x[8] == '7' && x[9] == '.' && x[10] == 'p' && x[11] == 'd' && x[12] == 'f'
    ensures DetectFileType(x) == Some(Invoice)
  {
    PlainPdf(x, 9);
    NotContainsLower(x, "resume");
    ContainsLowerPrefix(x, "invoice");
  }

  /** A name holding both keywords is a resume: `resume` is checked first,
      and the extension's letter case does not matter. */
  lemma ExampleBothKeywords(p: string)
    requires p == "Resume_Invoice.PDF"
    ensures DetectFileType(p) == Some(Resume)
  {
    ResumeInvoicePdf(p);
  }

  lemma ResumeInvoicePdf(x: string)
    requires |x| == 18 && x[0] == 'R' && x[1] == 'e' && x[2] == 's' && x[3] == 'u' && x[4] == 'm' && x[5] == 'e' && x[6] == '_' && x[7] == 'I' && x[8] == 'n' && x[9] == 'v' && x[10] == 'o' && x[11] == 'i' && x[12] == 'c' && x[13] == 'e' && x[14] == '.' && x[15] == 'P' && x[16] == 'D' && x[17] == 'F'
    ensures DetectFileType(x) == Some(Resume)
  {
    PlainPdf(x, 14);
    ContainsLowerPrefix(x, "resume");
  }

  /** `notes.tex` is LaTeX source. */
  lemma ExampleTex(p: string)
    requires p == "notes.tex"
    ensures DetectFileType(p) == Some(Latex)
  {
    NotesTex(p);
  }

  lemma NotesTex(x: string)
    requires |x| == 9 && x[0] == 'n' && x[1] == 'o' && x[2] == 't' && x[3] == 'e' && x[4] == 's' && x[5] == '.' && x[6] == 't' && x[7] == 'e' && x[8] == 'x'
    ensures DetectFileType(x) == Some(Latex)
  {
    PlainPath(x, 5);
    assert Lower(x[5..]) == ".tex";
  }

  /** A directory named `resume` does not make its PDFs resumes. */
  lemma ExampleDirectoryIgnored(p: string)
    requires p == "resume/scan.pdf"
    ensures DetectFileType(p) == None
  {
    DirectoryScanPdf(p);
  }

  lemma DirectoryScanPdf(x: string)
    requires |x| == 15 && x[0] == 'r' && x[1] == 'e' && x[2] == 's' && x[3] == 'u' && x[4] == 'm' && x[5] == 'e' && x[6] == '/' && x[7] == 's' && x[8] == 'c' && x[9] == 'a' && x[10] == 'n' && x[11] == '.' && x[12] == 'p' && x[13] == 'd' && x[14] == 'f'
    ensures DetectFileType(x) == None
  {
    var b := x[7..];
    assert RFind(x, '/') == 6;
    assert Basename(x) == b;
    assert Basename(b) == b by { PlainPath(b, 4); }
    DetectFileTypeIgnoresDirectory(x, b);
    ScanPdf(b);
  }

  /** A name without `/` whose only dot is at index `d`, followed by `pdf` in
      any letter case, is its own base name and a PDF. */
  lemma PlainPdf(x: string, d: nat)
    requires 0 < d && |x| == d + 4 && x[d] == '.'
    requires LowerChar(x[d + 1]) == 'p' && LowerChar(x[d + 2]) == 'd' && LowerChar(x[d + 3]) == 'f'
    requires forall k :: 0 <= k < d ==> x[k] != '/' && x[k] != '.'
    ensures Basename(x) == x && IsPdf(x) && !IsTex(x)
  {
    PlainPath(x, d);
    assert Lower(x[d..]) == ".pdf";
    assert ".pdf"[1] != ".tex"[1];
  }

  /** A name without `/` whose only dot is at index `d`, after at least one
      character, is its own base name and has the extension `p[d..]`. */
  lemma PlainPath(p: string, d: nat)
    requires 0 < d < |p| && p[d] == '.'
    requires forall k :: 0 <= k < |p| ==> p[k] != '/' && (k == d || p[k] != '.')
    ensures Basename(p) == p && Extension(p) == p[d..]
  {
    assert p == p[..d] + "." + p[d + 1..];
    PlainFileName(p[..d], p[d + 1..]);
  }
}
