/**
  The Flask service: the extension check, the ordered checks of the upload
  endpoint, the highlight extraction loop and the document it writes.
  PyMuPDF is replaced by a `Pdf` value (pages of annotation records), python-docx
  by a list of styled paragraphs, werkzeug's `secure_filename` by a parameter.
 */
module Server {
  import opened Wrappers
  import opened Text

  const ALLOWED_EXTENSIONS: set<string> := {"pdf"}
  /** PyMuPDF's annotation type code for a highlight. */
  const HIGHLIGHT_TYPE := 8

  const NO_FILE_PART := "No file part"
  const NO_FILE_SELECTED := "No file selected"
  const INVALID_TYPE := "Invalid file type. Please upload a PDF."

  const OUTPUT_PREFIX := "highlights_"
  const OUTPUT_SUFFIX := ".docx"

  const HEADING_TEXT := "Highlighted Text"
  const NO_HIGHLIGHTS_TEXT := "No highlighted text found in the PDF."

  /** One annotation: its type code and the page text clipped to its rectangle. */
  datatype Annot = Annot(typeCode: int, clipText: string)

  /** An opened PDF as the extraction loop sees it: the annotations of each page,
      in order, and, when reading fails, the position (counted over all
      annotations in page order) at which the exception is raised. */
  datatype Pdf = Pdf(pages: seq<seq<Annot>>, failAt: Option<nat>)

  /** A heading of level 0 has python-docx's `Title` style; `add_paragraph`
      without a style has `Normal`. */
  datatype Style = Title | Normal | ListBullet
  datatype Paragraph = Paragraph(style: Style, text: string)

  /** The `file` part of a multipart request. */
  datatype FilePart = FilePart(filename: string, content: Pdf)

  datatype Response =
    | Rejected(status: nat, error: string)
    | Attachment(downloadName: string, document: seq<Paragraph>)

  // ---------------------------------------------------------------- allowed_file

  function AllowedFile(filename: string): bool {
    '.' in filename && Lower(RSplitOnce(filename, '.')[1]) in ALLOWED_EXTENSIONS
  }

  /** The name ends in a dot followed by three characters that lower to `pdf`. */
  predicate HasPdfSuffix(filename: string) {
    |filename| >= 4 && filename[|filename| - 4] == '.' && Lower(filename[|filename| - 3..]) == "pdf"
  }

  lemma LowerPdfHasNoDot(ext: string)
    requires Lower(ext) == "pdf"
    ensures |ext| == 3 && '.' !in ext
  {
    assert Lower(ext)[0] == LowerChar(ext[0]);
    assert Lower(ext)[1] == LowerChar(ext[1]);
    assert Lower(ext)[2] == LowerChar(ext[2]);
  }

  /** `allowed_file` accepts exactly the names ending case-insensitively in `.pdf`
      (so `a.PDF` and `.pdf`, but not `pdf` or `a.pdf.txt`). */
  lemma AllowedFileIffPdfSuffix(filename: string)
    ensures AllowedFile(filename) <==> HasPdfSuffix(filename)
  {
    if AllowedFile(filename) {
      var parts := RSplitOnce(filename, '.');
      LowerPdfHasNoDot(parts[1]);
      assert filename[|filename| - 3..] == parts[1];
    }
    if HasPdfSuffix(filename) {
      var n := |filename|;
      var ext := filename[n - 3..];
      LowerPdfHasNoDot(ext);
      assert filename[n - 4] == '.';
      var parts := RSplitOnce(filename, '.');
      var k := |parts[1]|;
      assert filename[n - k..] == parts[1];
      assert filename[n - k - 1] == '.';
      assert parts[1] == ext;
    }
  }

  /** `a.PDF` and `.pdf` are accepted. */
  lemma AllowedFileAcceptsExamples()
    ensures AllowedFile("a.PDF") && AllowedFile(".pdf")
  {
    AllowedFileIffPdfSuffix("a.PDF");
    AllowedFileIffPdfSuffix(".pdf");
    assert "a.PDF"[2..] == "PDF" && ".pdf"[1..] == "pdf";
    assert Lower("PDF") == [LowerChar('P'), LowerChar('D'), LowerChar('F')];
    assert Lower("pdf") == "pdf";
  }

  /** `pdf` and `a.pdf.txt` are rejected. */
  lemma AllowedFileRejectsExamples()
    ensures !AllowedFile("pdf") && !AllowedFile("a.pdf.txt")
  {
    AllowedFileIffPdfSuffix("pdf");
    AllowedFileIffPdfSuffix("a.pdf.txt");
    assert "a.pdf.txt"[6..] == "txt";
    assert Lower("txt")[0] == 't';
  }

  // ---------------------------------------------------------------- output name

  /** `highlights_` + the secured name up to its last dot (all of it when it has
      no dot) + `.docx`. */
  function OutputName(secured: string): (name: string)
    ensures |name| >= |OUTPUT_PREFIX| + |OUTPUT_SUFFIX|
    ensures name[..|OUTPUT_PREFIX|] == OUTPUT_PREFIX && name[|name| - |OUTPUT_SUFFIX|..] == OUTPUT_SUFFIX
    ensures var stem := name[|OUTPUT_PREFIX|..|name| - |OUTPUT_SUFFIX|];
      stem <= secured &&
      if '.' in secured then |stem| < |secured| && secured[|stem|] == '.' && '.' !in secured[|stem| + 1..]
      else stem == secured
  {
    var stem := RSplitOnce(secured, '.')[0];
    var name := OUTPUT_PREFIX + stem + OUTPUT_SUFFIX;
    assert name[|OUTPUT_PREFIX|..|name| - |OUTPUT_SUFFIX|] == stem;
    name
  }

  // ---------------------------------------------------------------- extract_highlighted_text

  /** Every annotation of the document, page by page. */
  function Flatten(pages: seq<seq<Annot>>): seq<Annot> {
    if pages == [] then [] else pages[0] + Flatten(pages[1..])
  }

  lemma {:induction false} FlattenAppend(a: seq<seq<Annot>>, b: seq<seq<Annot>>)
    ensures Flatten(a + b) == Flatten(a) + Flatten(b)
  {
    if a == [] {
      assert a + b == b;
    } else {
      assert (a + b)[1..] == a[1..] + b;
      FlattenAppend(a[1..], b);
    }
  }

  /** An annotation whose text is kept: a highlight with a non-empty clip. */
  predicate IsKept(a: Annot) {
    a.typeCode == HIGHLIGHT_TYPE && a.clipText != ""
  }

  /** The stripped clip text of the kept annotations, in order. */
  function Kept(annots: seq<Annot>): seq<string> {
    if annots == [] then []
    else
      var rest := Kept(annots[..|annots| - 1]);
      var a := annots[|annots| - 1];
      if IsKept(a) then rest + [Strip(a.clipText)] else rest
  }

  /** Keeping distributes over concatenation: page order, then annotation order. */
  lemma {:induction false} KeptAppend(xs: seq<Annot>, ys: seq<Annot>)
    ensures Kept(xs + ys) == Kept(xs) + Kept(ys)
    decreases |ys|
  {
    if ys == [] {
      assert xs + ys == xs;
    } else {
      var last := |ys| - 1;
      assert (xs + ys)[..|xs + ys| - 1] == xs + ys[..last];
      KeptAppend(xs, ys[..last]);
    }
  }

  /** A text is extracted exactly when some annotation is a highlight with a
      non-empty clip that strips to it. */
  lemma {:induction false} KeptMembers(annots: seq<Annot>, t: string)
    ensures t in Kept(annots) <==> exists a :: a in annots && IsKept(a) && Strip(a.clipText) == t
  {
    if annots != [] {
      var init := annots[..|annots| - 1];
      var a := annots[|annots| - 1];
      KeptMembers(init, t);
      assert annots == init + [a];
      if t in Kept(annots) && !(t in Kept(init)) {
        assert a in annots;
      }
      if exists b :: b in annots && IsKept(b) && Strip(b.clipText) == t {
        var b :| b in annots && IsKept(b) && Strip(b.clipText) == t;
        if b != a {
          assert b in init;
        }
      }
    }
  }

  /** A highlight whose clip is only whitespace is kept, as the empty string. */
  lemma WhitespaceClipGivesEmpty(a: Annot)
    requires a.typeCode == HIGHLIGHT_TYPE && a.clipText != "" && AllSpace(a.clipText)
    ensures Kept([a]) == [""]
  {
    assert [a][..0] == [];
    StripIsTrimmedInfix(a.clipText);
  }

  /** How many annotations are visited before the exception, if any, cuts the loop. */
  function Visited(failAt: Option<nat>, total: nat): (n: nat)
    ensures n <= total
    ensures failAt.None? ==> n == total
  {
    match failAt
    case None => total
    case Some(k) => if k < total then k else total
  }

  /** What `extract_highlighted_text` returns for a document. */
  function Highlights(pdf: Pdf): seq<string> {
    var all := Flatten(pdf.pages);
    Kept(all[..Visited(pdf.failAt, |all|)])
  }

  /** An exception swallowed during extraction returns what was gathered before
      it: a prefix of what the undisturbed extraction returns. */
  lemma ExceptionKeepsPrefix(pdf: Pdf)
    ensures Highlights(pdf) <= Highlights(pdf.(failAt := None))
  {
    var all := Flatten(pdf.pages);
    var n := Visited(pdf.failAt, |all|);
    SplitAt(all, n);
    KeptAppend(all[..n], all[n..]);
  }

  /** Visiting one more annotation keeps at most its stripped text. */
  lemma KeptNext(all: seq<Annot>, n: nat)
    requires n < |all|
    ensures Kept(all[..n + 1]) == if IsKept(all[n]) then Kept(all[..n]) + [Strip(all[n].clipText)] else Kept(all[..n])
  {
    assert all[..n + 1][..n] == all[..n];
  }

  lemma TakeOneMore<T>(s: seq<T>, n: nat)
    requires n < |s|
    ensures s[..n + 1] == s[..n] + [s[n]]
  {
  }

  lemma SplitAt<T>(s: seq<T>, n: nat)
    requires n <= |s|
    ensures s[..n] + s[n..] == s && s[..|s|] == s
  {
  }

  /** Page `p`'s annotations follow those of the pages before it, in the
      order of the whole document. */
  lemma PageInPlace(pages: seq<seq<Annot>>, p: nat)
    requires p < |pages|
    ensures var start := |Flatten(pages[..p])|;
      && |Flatten(pages[..p + 1])| == start + |pages[p]| <= |Flatten(pages)|
      && forall i :: 0 <= i < |pages[p]| ==> Flatten(pages)[start + i] == pages[p][i]
  {
    TakeOneMore(pages, p);
    FlattenAppend(pages[..p], [pages[p]]);
    assert Flatten([pages[p]]) == pages[p] by {
      assert [pages[p]][1..] == [];
    }
    SplitAt(pages, p + 1);
    FlattenAppend(pages[..p + 1], pages[p + 1..]);
  }

  /** The nested loop over pages and annotations; an exception at an annotation
      ends it and the highlights gathered so far are returned. */
  method ExtractHighlightedText(pdf: Pdf) returns (highlights: seq<string>)
    ensures highlights == Highlights(pdf)
  {
    highlights := [];
    ghost var all := Flatten(pdf.pages);
    var seen := 0;
    for p := 0 to |pdf.pages|
      invariant seen == |Flatten(pdf.pages[..p])| <= |all|
      invariant pdf.failAt.Some? ==> seen <= pdf.failAt.value
      invariant highlights == Kept(all[..seen])
    {
      var annots := pdf.pages[p];
      PageInPlace(pdf.pages, p);
      ghost var start := seen;
      for j := 0 to |annots|
        invariant seen == start + j
        invariant pdf.failAt.Some? ==> seen <= pdf.failAt.value
        invariant highlights == Kept(all[..seen])
      {
        if pdf.failAt == Some(seen) {
          assert Visited(pdf.failAt, |all|) == seen;
          return;
        }
        var a := annots[j];
        assert a == all[seen];
        ghost var before := highlights;
        if a.typeCode == HIGHLIGHT_TYPE {
          var text := a.clipText;
          if text != "" {
            highlights := highlights + [Strip(text)];
          }
        }
        assert highlights == Kept(all[..seen + 1]) by {
          KeptNext(all, seen);
          assert highlights == if IsKept(a) then before + [Strip(a.clipText)] else before;
        }
        seen := seen + 1;
      }
    }
    SplitAt(pdf.pages, |pdf.pages|);
    assert Visited(pdf.failAt, |all|) == seen;
  }

  // ---------------------------------------------------------------- save_to_docx

  /** The document written for a list of highlights: the title, then either the
      placeholder paragraph alone or one bullet per highlight, in order. */
  predicate IsDocumentFor(doc: seq<Paragraph>, highlights: seq<string>) {
    && |doc| == 1 + (if highlights == [] then 1 else |highlights|)
    && doc[0] == Paragraph(Title, HEADING_TEXT)
    && (highlights == [] ==> doc[1] == Paragraph(Normal, NO_HIGHLIGHTS_TEXT))
    && (forall i :: 0 <= i < |highlights| ==> doc[i + 1] == Paragraph(ListBullet, highlights[i]))
  }

  /** The texts of the bulleted paragraphs, in order. */
  function BulletTexts(doc: seq<Paragraph>): seq<string> {
    if doc == [] then []
    else
      var rest := BulletTexts(doc[..|doc| - 1]);
      var p := doc[|doc| - 1];
      if p.style == ListBullet then rest + [p.text] else rest
  }

  lemma {:induction false} BulletsUpTo(doc: seq<Paragraph>, highlights: seq<string>, n: nat)
    requires n <= |highlights| && n < |doc|
    requires doc[0] == Paragraph(Title, HEADING_TEXT)
    requires forall i :: 0 <= i < n ==> doc[i + 1] == Paragraph(ListBullet, highlights[i])
    ensures BulletTexts(doc[..n + 1]) == highlights[..n]
  {
    if n == 0 {
      assert doc[..1][..0] == [];
    } else {
      BulletsUpTo(doc, highlights, n - 1);
      assert doc[..n + 1][..n] == doc[..n];
      TakeOneMore(highlights, n - 1);
    }
  }

  /** Reading the bullets back from the document gives the highlights, and the
      placeholder paragraph is there exactly when there are none. */
  lemma DocumentRoundTrip(doc: seq<Paragraph>, highlights: seq<string>)
    requires IsDocumentFor(doc, highlights)
    ensures BulletTexts(doc) == highlights
    ensures Paragraph(Normal, NO_HIGHLIGHTS_TEXT) in doc <==> highlights == []
  {
    if highlights == [] {
      assert doc[..1][..0] == [];
      assert BulletTexts(doc[..1]) == [];
      assert doc[..|doc| - 1] == doc[..1];
      assert BulletTexts(doc) == BulletTexts(doc[..1]);
    } else {
      BulletsUpTo(doc, highlights, |highlights|);
      SplitAt(doc, |doc|);
      SplitAt(highlights, |highlights|);
      forall k | 0 <= k < |doc|
        ensures doc[k] != Paragraph(Normal, NO_HIGHLIGHTS_TEXT)
      {
        if k > 0 {
          assert doc[k] == Paragraph(ListBullet, highlights[k - 1]);
        }
      }
    }
  }

  /** `save_to_docx`: the title, then the placeholder or one bullet per highlight. */
  method SaveToDocx(highlights: seq<string>) returns (doc: seq<Paragraph>)
    ensures IsDocumentFor(doc, highlights)
  {
    doc := [Paragraph(Title, HEADING_TEXT)];
    if highlights == [] {
      doc := doc + [Paragraph(Normal, NO_HIGHLIGHTS_TEXT)];
    } else {
      var i := 0;
      while i < |highlights|
        invariant 0 <= i <= |highlights|
        invariant |doc| == 1 + i
        invariant doc[0] == Paragraph(Title, HEADING_TEXT)
        invariant forall k :: 0 <= k < i ==> doc[k + 1] == Paragraph(ListBullet, highlights[k])
      {
        doc := doc + [Paragraph(ListBullet, highlights[i])];
        i := i + 1;
      }
    }
  }

  // ---------------------------------------------------------------- upload_file

  /** The upload endpoint: the first failing check decides a 400 answer;
      otherwise the document of the file's highlights is sent under the derived
      name. `secureFilename` stands for werkzeug's `secure_filename`. */
  method UploadFile(files: map<string, FilePart>, secureFilename: string -> string) returns (resp: Response)
    ensures "file" !in files ==> resp == Rejected(400, NO_FILE_PART)
    ensures "file" in files && files["file"].filename == "" ==> resp == Rejected(400, NO_FILE_SELECTED)
    ensures "file" in files && files["file"].filename != "" && !AllowedFile(files["file"].filename) ==>
      resp == Rejected(400, INVALID_TYPE)
    ensures "file" in files && AllowedFile(files["file"].filename) ==>
      resp.Attachment? &&
      resp.downloadName == OutputName(secureFilename(files["file"].filename)) &&
      IsDocumentFor(resp.document, Highlights(files["file"].content))
  {
    if "file" !in files {
      return Rejected(400, NO_FILE_PART);
    }
    var file := files["file"];
    if file.filename == "" {
      return Rejected(400, NO_FILE_SELECTED);
    }
    if AllowedFile(file.filename) {
      var filename := secureFilename(file.filename);
      var highlights := ExtractHighlightedText(file.content);
      var outputFilename := OutputName(filename);
      var document := SaveToDocx(highlights);
      return Attachment(outputFilename, document);
    } else {
      return Rejected(400, INVALID_TYPE);
    }
  }
}
