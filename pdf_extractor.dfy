/** `src/utils/pdfExtractor.ts`: the text of a PDF is each page's text items
    joined by a space, every page followed by a newline, and the whole trimmed.
    The PDF parser is not modelled: a document arrives already parsed, as
    `None` when it cannot be opened, with `Unreadable` for a page that cannot
    be loaded. */
module PdfExtractor {
  import opened Wrappers
  import opened Strings

  const PdfError: string := "Failed to extract text from PDF"

  /** One page of a parsed PDF: the `str` of each text item in order. */
  datatype Page = Page(items: seq<string>) | Unreadable

  predicate AllReadable(pages: seq<Page>) {
    forall i | 0 <= i < |pages| :: pages[i].Page?
  }

  /** The accumulated `fullText` after the given pages, before trimming. */
  function FullText(pages: seq<Page>): string
    requires AllReadable(pages)
  {
    if pages == [] then ""
    else FullText(pages[..|pages| - 1]) + JoinWith(pages[|pages| - 1].items, " ") + "\n"
  }

  /** What `extractTextFromPDF` resolves to, or the message it throws. */
  function PdfText(document: Option<seq<Page>>): Result<string, string> {
    if document.None? || !AllReadable(document.value) then Failure(PdfError)
    else Success(Trim(FullText(document.value)))
  }

  /** `extractTextFromPDF(file)`, over the parsed document. */
  method ExtractTextFromPdf(document: Option<seq<Page>>) returns (r: Result<string, string>)
    ensures r == PdfText(document)
  {
    if document.None? {
      return Failure(PdfError);
    }
    var pages := document.value;
    var fullText := "";
    var i := 0;
    while i < |pages|
      invariant 0 <= i <= |pages|
      invariant AllReadable(pages[..i])
      invariant fullText == FullText(pages[..i])
    {
      match pages[i]
      case Unreadable =>
        return Failure(PdfError);
      case Page(items) =>
        assert pages[..i + 1][..i] == pages[..i];
        fullText := fullText + JoinWith(items, " ") + "\n";
      i := i + 1;
    }
    assert pages[..i] == pages;
    return Success(Trim(fullText));
  }

  // ---------------------------------------------------------------------------
  // Lemmas

  /** Extraction fails exactly when the document cannot be opened or one of
      its pages cannot be loaded, and then always with the same message;
      otherwise the text has no white space at either end. */
  lemma PdfTextOutcome(document: Option<seq<Page>>)
    ensures PdfText(document).Failure? <==>
      document.None? || exists i | 0 <= i < |document.value| :: document.value[i].Unreadable?
    ensures PdfText(document).Failure? ==> PdfText(document).error == PdfError
    ensures PdfText(document).Success? ==>
      var t := PdfText(document).value;
      t == Trim(FullText(document.value)) && (t == "" || (!IsWs(t[0]) && !IsWs(t[|t| - 1])))
  {
    if document.Some? && AllReadable(document.value) {
      TrimSlice(FullText(document.value));
    }
  }

  /** Page text accumulates: the text of two runs of pages is the text of the
      first followed by the text of the second. */
  lemma {:induction false} FullTextAppend(a: seq<Page>, b: seq<Page>)
    requires AllReadable(a) && AllReadable(b)
    ensures AllReadable(a + b)
    ensures FullText(a + b) == FullText(a) + FullText(b)
    decreases |b|
  {
    AllReadableAppend(a, b);
    if b == [] {
      assert a + b == a;
    } else {
      var b' := b[..|b| - 1];
      var p := b[|b| - 1];
      AllReadablePrefix(b);
      AllReadableAppend(a, b');
      FullTextAppend(a, b');
      assert b' + [p] == b;
      assert (a + b') + [p] == a + b;
      FullTextSnoc(a + b', p);
      FullTextSnoc(b', p);
    }
  }

  /** One more readable page adds its line to the text. */
  lemma FullTextSnoc(pages: seq<Page>, p: Page)
    requires AllReadable(pages) && p.Page?
    ensures AllReadable(pages + [p])
    ensures FullText(pages + [p]) == FullText(pages) + (JoinWith(p.items, " ") + "\n")
  {
    AllReadableAppend(pages, [p]);
    assert (pages + [p])[..|pages|] == pages;
  }

  /** Runs of readable pages stay readable when put together. */
  lemma AllReadableAppend(a: seq<Page>, b: seq<Page>)
    requires AllReadable(a) && AllReadable(b)
    ensures AllReadable(a + b)
  {
    forall i | 0 <= i < |a + b| ensures (a + b)[i].Page? {
      if i >= |a| { assert (a + b)[i] == b[i - |a|]; }
    }
  }

  /** A prefix of a readable run is readable. */
  lemma AllReadablePrefix(b: seq<Page>)
    requires AllReadable(b) && b != []
    ensures AllReadable(b[..|b| - 1])
  {
    var c := b[..|b| - 1];
    forall i | 0 <= i < |c| ensures c[i].Page? {
      assert c[i] == b[i];
    }
  }

  /** A PDF without pages yields the empty string (which the OCR service then
      rejects as a document without text). */
  lemma NoPagesNoText()
    ensures PdfText(Some([])) == Success("")
  {
  }

  /** A one-page document with items "Hello" and "world" yields "Hello world". */
  lemma OnePageExample()
    ensures PdfText(Some([Page(["Hello", "world"])])) == Success("Hello world")
  {
    var pages := [Page(["Hello", "world"])];
    assert pages[..0] == [];
    var joined := JoinWith(["Hello", "world"], " ");
    assert joined == "Hello world";
    var full := FullText(pages);
    assert full == joined + "\n";
    assert !IsWs(full[0]);
    assert TrimStart(full) == full;
    assert full[..|full| - 1] == joined;
    assert TrimEnd(full) == TrimEnd(joined);
    assert !IsWs(joined[|joined| - 1]);
    assert Trim(full) == "Hello world";
    assert AllReadable(pages);
    assert PdfText(Some(pages)) == Success(Trim(full));
  }
}
