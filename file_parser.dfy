/** Text extraction from an uploaded file, dispatched on its declared MIME
    type.  The reading libraries are not modelled: an uploaded file carries
    what each of them yields for it (or the value it throws). */
module FileParser {
  import opened Wrappers
  import opened Strings

  const PlainTextType: string := "text/plain"
  const DocxType: string := "application/vnd.openxmlformats-officedocument.wordprocessingml.document"
  const PdfType: string := "application/pdf"

  const PdfFailure: string := "Could not parse PDF. Please copy and paste the text instead."
  const UnsupportedFailure: string := "Unsupported file type. Please use TXT, DOCX, or PDF."
  const ExtractionFallback: string := "Failed to extract text from file."

  /** One page as the PDF library delivers it: the `str` of each text item,
      or the value thrown while fetching the page or its text content. */
  type PageRead = Result<seq<string>, Thrown>

  /** An uploaded file: its declared type and the outcome of each reader. */
  datatype UploadedFile = UploadedFile(
    mimeType: string,
    /** `file.text()` */
    plainText: Result<string, Thrown>,
    /** `file.arrayBuffer()` followed by the DOCX library's raw-text value */
    docxRawText: Result<string, Thrown>,
    /** opening the PDF (its pages 1..numPages, in order), or what opening threw */
    pdfPages: Result<seq<PageRead>, Thrown>)

  /** A page's text items joined with single spaces. */
  function PageText(tokens: seq<string>): string
  {
    Join(tokens, " ")
  }

  /** The text of a PDF whose pages all read: every page's text followed by a
      blank line, in page order. */
  function PdfText(pages: seq<seq<string>>): string
    decreases |pages|
  {
    if pages == [] then ""
    else PdfText(pages[..|pages| - 1]) + PageText(pages[|pages| - 1]) + "\n\n"
  }

  predicate AllPagesRead(pages: seq<PageRead>)
  {
    forall k :: 0 <= k < |pages| ==> pages[k].Success?
  }

  function PageTokens(pages: seq<PageRead>): (tokens: seq<seq<string>>)
    requires AllPagesRead(pages)
    ensures |tokens| == |pages|
    ensures forall k :: 0 <= k < |pages| ==> tokens[k] == pages[k].value
  {
    seq(|pages|, k requires 0 <= k < |pages| && pages[k].Success? => pages[k].value)
  }

  /** The inner `try` of the PDF branch: any failure while opening or
      reading becomes the dedicated PDF error. */
  function PdfBranch(pdf: Result<seq<PageRead>, Thrown>): Result<string, Thrown>
  {
    if pdf.Success? && AllPagesRead(pdf.value) then Success(PdfText(PageTokens(pdf.value)))
    else Failure(ErrorValue(PdfFailure))
  }

  /** The body of the outer `try`: the dispatch on the declared type. */
  function Dispatch(file: UploadedFile): Result<string, Thrown>
  {
    if file.mimeType == PlainTextType then file.plainText
    else if file.mimeType == DocxType then file.docxRawText
    else if file.mimeType == PdfType then PdfBranch(file.pdfPages)
    else Failure(ErrorValue(UnsupportedFailure))
  }

  /** The outer `catch`: whatever was thrown is rethrown as an Error with the
      thrown Error's message, or the generic message. */
  function Rethrow(r: Result<string, Thrown>): Result<string, Thrown>
  {
    match r
    case Success(text) => Success(text)
    case Failure(err) => Failure(ErrorValue(MessageOr(err, ExtractionFallback)))
  }

  /** `extractTextFromFile`: the text it resolves to, or the Error it
      rejects with. */
  function Extraction(file: UploadedFile): Result<string, Thrown>
  {
    Rethrow(Dispatch(file))
  }

  /** What extraction promises for each kind of file. */
  lemma ExtractionSpec(file: UploadedFile)
    ensures file.mimeType == PlainTextType && file.plainText.Success? ==>
      Extraction(file) == Success(file.plainText.value)
    ensures file.mimeType == DocxType && file.docxRawText.Success? ==>
      Extraction(file) == Success(file.docxRawText.value)
    ensures file.mimeType == PdfType ==>
      (Extraction(file).Success? <==> file.pdfPages.Success? && AllPagesRead(file.pdfPages.value))
    ensures file.mimeType == PdfType && Extraction(file).Failure? ==>
      Extraction(file) == Failure(ErrorValue(PdfFailure))
    ensures file.mimeType !in {PlainTextType, DocxType, PdfType} ==>
      Extraction(file) == Failure(ErrorValue(UnsupportedFailure))
    ensures file.mimeType == PlainTextType && file.plainText.Failure? ==>
      Extraction(file) == Failure(ErrorValue(MessageOr(file.plainText.error, ExtractionFallback)))
    ensures file.mimeType == DocxType && file.docxRawText.Failure? ==>
      Extraction(file) == Failure(ErrorValue(MessageOr(file.docxRawText.error, ExtractionFallback)))
    ensures file.mimeType in {PlainTextType, DocxType} && Dispatch(file) == Failure(NonError) ==>
      Extraction(file) == Failure(ErrorValue(ExtractionFallback))
    ensures Extraction(file).Failure? ==> Extraction(file).error.ErrorValue?
  {
  }

  /** A page's text holds its items in order, one space between neighbours:
      no items give "", one item gives itself, and each further item follows
      a single space. */
  lemma PageTextSpec(items: seq<string>, item: string)
    ensures PageText([]) == "" && PageText([item]) == item
    ensures items != [] ==> PageText(items + [item]) == PageText(items) + " " + item
  {
    JoinSnoc(items, item, " ");
  }

  /** Reading pages one after another: the text of a concatenation of pages
      is the concatenation of their texts. */
  lemma {:induction false} PdfTextAppend(a: seq<seq<string>>, b: seq<seq<string>>)
    ensures PdfText(a + b) == PdfText(a) + PdfText(b)
    decreases |b|
  {
    if b == [] {
      assert a + b == a;
    } else {
      var init := b[..|b| - 1];
      PdfTextAppend(a, init);
      assert (a + b)[..|a + b| - 1] == a + init;
      assert (a + b)[|a + b| - 1] == b[|b| - 1];
    }
  }

  /** A zero-page PDF yields the empty text; otherwise the first page's text
      comes first, followed by a blank line and the rest. */
  lemma PdfTextFirstPage(page: seq<string>, rest: seq<seq<string>>)
    ensures PdfText([]) == ""
    ensures PdfText([page] + rest) == PageText(page) + "\n\n" + PdfText(rest)
  {
    PdfTextAppend([page], rest);
    assert [page][..0] == [];
  }

  /** Three one-item pages "Page1", "Page2", "Page3" come out in page order,
      each followed by a blank line. */
  lemma ThreePageExample()
    ensures PdfText([["Page1"], ["Page2"], ["Page3"]]) == "Page1\n\nPage2\n\nPage3\n\n"
  {
    PdfTextFirstPage(["Page3"], []);
    assert [["Page3"]] + [] == [["Page3"]];
    PdfTextFirstPage(["Page2"], [["Page3"]]);
    assert [["Page2"]] + [["Page3"]] == [["Page2"], ["Page3"]];
    PdfTextFirstPage(["Page1"], [["Page2"], ["Page3"]]);
    assert [["Page1"]] + [["Page2"], ["Page3"]] == [["Page1"], ["Page2"], ["Page3"]];
  }

  /** The page-assembly loop of the PDF branch: fetch each page in turn,
      append its joined text and a blank line; stop at the first page that
      fails. */
  method AssemblePdfText(pages: seq<PageRead>) returns (r: Result<string, Thrown>)
    ensures r.Success? <==> AllPagesRead(pages)
    ensures r.Success? ==> r.value == PdfText(PageTokens(pages))
  {
    var fullText := "";
    var i := 0;
    while i < |pages|
      invariant 0 <= i <= |pages|
      invariant AllPagesRead(pages[..i])
      invariant fullText == PdfText(PageTokens(pages[..i]))
    {
      var page := pages[i];
      if page.Failure? {
        return Failure(page.error);
      }
      assert pages[..i + 1][..i] == pages[..i];
      assert PageTokens(pages[..i + 1])[..i] == PageTokens(pages[..i]);
      fullText := fullText + PageText(page.value) + "\n\n";
      i := i + 1;
    }
    assert pages[..i] == pages;
    r := Success(fullText);
  }

  /** `extractTextFromFile`, with its PDF branch run as a loop over pages. */
  method ExtractTextFromFile(file: UploadedFile) returns (r: Result<string, Thrown>)
    ensures r == Extraction(file)
  {
    var outcome: Result<string, Thrown>;
    if file.mimeType == PlainTextType {
      outcome := file.plainText;
    } else if file.mimeType == DocxType {
      outcome := file.docxRawText;
    } else if file.mimeType == PdfType {
      if file.pdfPages.Failure? {
        outcome := Failure(ErrorValue(PdfFailure));
      } else {
        var assembled := AssemblePdfText(file.pdfPages.value);
        outcome := if assembled.Success? then assembled else Failure(ErrorValue(PdfFailure));
      }
    } else {
      outcome := Failure(ErrorValue(UnsupportedFailure));
    }
    match outcome {
      case Success(text) => r := Success(text);
      case Failure(err) => r := Failure(ErrorValue(MessageOr(err, ExtractionFallback)));
    }
  }
}
