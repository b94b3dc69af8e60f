/**
 * The extraction pipeline of app/pdf_processing.py. The PDF, OCR and image
 * libraries are not modelled; what they report about one document is the
 * input `PdfDocument`.
 */
module PdfProcessing {
  import opened Wrappers
  import opened PyText

  /** What enumerating the embedded images of one page gave. */
  datatype PageImages =
    | Enumerated(ocr: seq<Option<string>>)  // per image: the OCR text, or None when decoding or OCR raised
    | EnumerationFailed                     // `page.get_images` raised

  /**
   * What the libraries report about one PDF file.
   * - primaryPages: PyMuPDF's `page.get_text()` per page; None when opening or iterating raised.
   * - secondaryPages: pdfplumber's `page.extract_text()` per page (None for a page without
   *   text or one that raised); None when `pdfplumber.open` raised.
   * - imagePages: per page, the images PyMuPDF reports; None when the document did not open.
   */
  datatype PdfDocument = PdfDocument(
    primaryPages: Option<seq<string>>,
    secondaryPages: Option<seq<Option<string>>>,
    imagePages: Option<seq<PageImages>>)

  /** The marker put in front of every OCR line. */
  const OcrTag: string := "[OCR]"

  // ---------------------------------------------------------------------------
  // Native text: convert_pdf_to_text

  predicate AllYield(pages: seq<Option<string>>) {
    forall i | 0 <= i < |pages| :: pages[i].Some?
  }

  function Texts(pages: seq<Option<string>>): seq<string>
    requires AllYield(pages)
  {
    seq(|pages|, i requires 0 <= i < |pages| => pages[i].value)
  }

  /**
   * The text `convert_pdf_to_text` returns: the primary page texts in page
   * order; when those are blank, followed by the secondary page texts; and ""
   * when the text is still blank or any step raised. It is "" or holds a
   * non-whitespace character, and a non-empty result starts with the primary text.
   */
  function NativeText(doc: PdfDocument): (r: string)
    ensures r == "" || !IsBlank(r)
    ensures r != "" ==>
              && doc.primaryPages.Some?
              && |Concat(doc.primaryPages.value)| <= |r|
              && r[..|Concat(doc.primaryPages.value)|] == Concat(doc.primaryPages.value)
  {
    match doc.primaryPages
    case None => ""
    case Some(pages) =>
      var primary := Concat(pages);
      if !IsBlank(primary) then primary
      else match doc.secondaryPages
        case None => ""
        case Some(fallback) =>
          if !AllYield(fallback) then ""
          else
            var both := primary + Concat(Texts(fallback));
            if IsBlank(both) then "" else both
  }

  method ConvertPdfToText(doc: PdfDocument) returns (text: string)
    ensures text == NativeText(doc)
  {
    if doc.primaryPages.None? {
      return "";  // fitz.open or page iteration raised
    }
    var pages := doc.primaryPages.value;
    text := "";
    for i := 0 to |pages|
      invariant text == Concat(pages[..i])
    {
      assert pages[..i + 1][..i] == pages[..i];
      text := text + pages[i];
    }
    assert pages[..|pages|] == pages;
    if IsBlank(text) {
      if doc.secondaryPages.None? {
        return "";  // pdfplumber.open raised
      }
      var fallback := doc.secondaryPages.value;
      ghost var primary := text;
      for j := 0 to |fallback|
        invariant AllYield(fallback[..j])
        invariant text == primary + Concat(Texts(fallback[..j]))
      {
        match fallback[j]
        case None =>
          return "";  // `text += None` raises TypeError
        case Some(pageText) =>
          assert Texts(fallback[..j + 1]) == Texts(fallback[..j]) + [pageText];
          text := text + pageText;
      }
      assert fallback[..|fallback|] == fallback;
    }
    if IsBlank(text) {
      return "";  // the ValueError raised for a blank result
    }
  }

  /** Non-blank primary text is the result, and the secondary parser plays no part. */
  lemma PrimaryTextWins(doc: PdfDocument, otherFallback: Option<seq<Option<string>>>)
    requires doc.primaryPages.Some? && !IsBlank(Concat(doc.primaryPages.value))
    ensures NativeText(doc) == Concat(doc.primaryPages.value)
    ensures NativeText(doc.(secondaryPages := otherFallback)) == NativeText(doc)
  {
  }

  /** Blank primary text is kept, and the secondary page texts are appended after it. */
  lemma FallbackIsAppended(doc: PdfDocument)
    requires doc.primaryPages.Some? && IsBlank(Concat(doc.primaryPages.value))
    requires doc.secondaryPages.Some? && AllYield(doc.secondaryPages.value)
    ensures var both := Concat(doc.primaryPages.value) + Concat(Texts(doc.secondaryPages.value));
      NativeText(doc) == if IsBlank(both) then "" else both
  {
  }

  /** A secondary page that yields no text makes the whole native text "". */
  lemma FallbackPageWithoutTextFails(doc: PdfDocument, p: nat)
    requires doc.primaryPages.Some? && IsBlank(Concat(doc.primaryPages.value))
    requires doc.secondaryPages.Some? && p < |doc.secondaryPages.value|
    requires doc.secondaryPages.value[p].None?
    ensures NativeText(doc) == ""
  {
  }

  // ---------------------------------------------------------------------------
  // OCR text: extract_images_from_pdf

  /** The OCR texts of the images that decoded and were recognised, in image order. */
  function Recognized(images: seq<Option<string>>): seq<string> {
    if images == [] then []
    else
      Recognized(images[..|images| - 1])
      + match images[|images| - 1] case None => [] case Some(t) => [t]
  }

  /** The recognised OCR texts of all pages, in page order and then image order. */
  function PagesRecognized(pages: seq<PageImages>): seq<string> {
    if pages == [] then []
    else
      PagesRecognized(pages[..|pages| - 1])
      + match pages[|pages| - 1] case EnumerationFailed => [] case Enumerated(images) => Recognized(images)
  }

  predicate AllEnumerated(pages: seq<PageImages>) {
    forall p | 0 <= p < |pages| :: pages[p].Enumerated?
  }

  /**
   * The text `extract_images_from_pdf` returns: the recognised OCR texts with no
   * separator, or "" when the document did not open or a page's images could
   * not be enumerated.
   */
  function ImageText(doc: PdfDocument): (r: string)
    ensures r != "" ==>
              && doc.imagePages.Some?
              && AllEnumerated(doc.imagePages.value)
              && PagesRecognized(doc.imagePages.value) != []
  {
    match doc.imagePages
    case None => ""
    case Some(pages) => if AllEnumerated(pages) then Concat(PagesRecognized(pages)) else ""
  }

  method ExtractImagesFromPdf(doc: PdfDocument) returns (textFromImages: string)
    ensures textFromImages == ImageText(doc)
  {
    textFromImages := "";
    if doc.imagePages.None? {
      return "";  // fitz.open raised
    }
    var pages := doc.imagePages.value;
    assert pages[..0] == [];
    for p := 0 to |pages|
      invariant AllEnumerated(pages[..p])
      invariant textFromImages == Concat(PagesRecognized(pages[..p]))
    {
      if pages[p].EnumerationFailed? {
        EnumerationFailureDiscardsAll(doc, p);
        return "";  // the outer handler discards what was accumulated
      }
      var images := pages[p].ocr;
      ghost var before := textFromImages;
      textFromImages := AppendPageOcr(textFromImages, images);
      PageDone(pages, p, before, textFromImages);
    }
    assert pages[..|pages|] == pages;
    assert AllEnumerated(pages);
  }

  /** After the images of page `p`: the outer loop's invariant holds for `p + 1`. */
  lemma PageDone(pages: seq<PageImages>, p: nat, before: string, after: string)
    requires p < |pages| && pages[p].Enumerated?
    requires AllEnumerated(pages[..p]) && before == Concat(PagesRecognized(pages[..p]))
    requires after == before + Concat(Recognized(pages[p].ocr))
    ensures AllEnumerated(pages[..p + 1]) && after == Concat(PagesRecognized(pages[..p + 1]))
  {
    PagesRecognizedStep(pages, p);
    ConcatAppend(PagesRecognized(pages[..p]), Recognized(pages[p].ocr));
  }

  /** The inner loop of `extract_images_from_pdf`: the OCR texts of one page's images appended to `text`. */
  method AppendPageOcr(text: string, images: seq<Option<string>>) returns (textFromImages: string)
    ensures textFromImages == text + Concat(Recognized(images))
  {
    textFromImages := text;
    for k := 0 to |images|
      invariant textFromImages == text + Concat(Recognized(images[..k]))
    {
      RecognizedStep(images, k);
      match images[k]
      case None =>      // decoding or OCR raised: logged, the image is skipped
      case Some(ocrText) =>
        textFromImages := textFromImages + ocrText;
    }
    assert images[..|images|] == images;
  }

  lemma RecognizedStep(images: seq<Option<string>>, k: nat)
    requires k < |images|
    ensures Concat(Recognized(images[..k + 1])) ==
      Concat(Recognized(images[..k])) + match images[k] case None => "" case Some(t) => t
  {
    assert images[..k + 1][..k] == images[..k];
    var before := Recognized(images[..k]);
    match images[k]
    case None =>
      assert Recognized(images[..k + 1]) == before + [];
      assert before + [] == before;
    case Some(t) =>
      assert Recognized(images[..k + 1]) == before + [t];
      ConcatAppend(before, [t]);
      assert [t][..0] == [];
  }

  lemma PagesRecognizedStep(pages: seq<PageImages>, p: nat)
    requires p < |pages| && pages[p].Enumerated?
    ensures PagesRecognized(pages[..p + 1]) == PagesRecognized(pages[..p]) + Recognized(pages[p].ocr)
    ensures AllEnumerated(pages[..p]) ==> AllEnumerated(pages[..p + 1])
  {
    assert pages[..p + 1][..p] == pages[..p];
  }

  lemma {:induction false} RecognizedAppend(a: seq<Option<string>>, b: seq<Option<string>>)
    ensures Recognized(a + b) == Recognized(a) + Recognized(b)
    decreases |b|
  {
    if b == [] {
      assert a + b == a;
    } else {
      var b' := b[..|b| - 1];
      assert (a + b)[..|a + b| - 1] == a + b';
      RecognizedAppend(a, b');
    }
  }

  lemma {:induction false} PagesRecognizedAppend(a: seq<PageImages>, b: seq<PageImages>)
    ensures PagesRecognized(a + b) == PagesRecognized(a) + PagesRecognized(b)
    decreases |b|
  {
    if b == [] {
      assert a + b == a;
    } else {
      var b', last := b[..|b| - 1], b[|b| - 1];
      var page := match last case EnumerationFailed => [] case Enumerated(images) => Recognized(images);
      assert (a + b)[..|a + b| - 1] == a + b';
      assert (a + b)[|a + b| - 1] == last;
      assert PagesRecognized(b) == PagesRecognized(b') + page;
      assert PagesRecognized(a + b) == PagesRecognized(a + b') + page;
      PagesRecognizedAppend(a, b');
    }
  }

  /** An image whose decoding or OCR fails contributes nothing, and the images after it still do. */
  lemma FailedImageIsSkipped(images: seq<Option<string>>, k: nat)
    requires k < |images| && images[k].None?
    ensures Recognized(images) == Recognized(images[..k] + images[k + 1..])
  {
    var before, after := images[..k], images[k + 1..];
    var failed: seq<Option<string>> := [None];
    assert images == (before + failed) + after;
    assert Recognized(failed) == [] by {
      assert failed[..0] == [];
    }
    calc {
      Recognized(images);
      { RecognizedAppend(before + failed, after); }
      Recognized(before + failed) + Recognized(after);
      { RecognizedAppend(before, failed); }
      Recognized(before) + Recognized(after);
      { RecognizedAppend(before, after); }
      Recognized(before + after);
    }
  }

  /**
   * Fault isolation at document level: the OCR text of a document with a failing
   * image is that of the same document with the image removed.
   */
  lemma FailedImageContributesNothing(doc: PdfDocument, p: nat, k: nat)
    requires doc.imagePages.Some? && p < |doc.imagePages.value|
    requires doc.imagePages.value[p].Enumerated?
    requires k < |doc.imagePages.value[p].ocr| && doc.imagePages.value[p].ocr[k].None?
    ensures var pages := doc.imagePages.value;
      var images := pages[p].ocr;
      ImageText(doc) == ImageText(doc.(imagePages := Some(pages[p := Enumerated(images[..k] + images[k + 1..])])))
  {
    var pages := doc.imagePages.value;
    var images := pages[p].ocr;
    var page' := Enumerated(images[..k] + images[k + 1..]);
    var pages' := pages[p := page'];
    FailedImageIsSkipped(images, k);
    assert pages == pages[..p] + [pages[p]] + pages[p + 1..];
    assert pages' == pages[..p] + [page'] + pages[p + 1..];
    assert PagesRecognized([pages[p]]) == PagesRecognized([page']) by {
      assert [pages[p]][..0] == [] && [page'][..0] == [];
    }
    PagesRecognizedAppend(pages[..p] + [pages[p]], pages[p + 1..]);
    PagesRecognizedAppend(pages[..p], [pages[p]]);
    PagesRecognizedAppend(pages[..p] + [page'], pages[p + 1..]);
    PagesRecognizedAppend(pages[..p], [page']);
    assert AllEnumerated(pages) <==> AllEnumerated(pages') by {
      assert forall q | 0 <= q < |pages| :: pages[q].Enumerated? == pages'[q].Enumerated?;
    }
  }

  /** A page whose images cannot be enumerated discards all OCR text, that of earlier pages included. */
  lemma EnumerationFailureDiscardsAll(doc: PdfDocument, p: nat)
    requires doc.imagePages.Some? && p < |doc.imagePages.value|
    requires doc.imagePages.value[p].EnumerationFailed?
    ensures ImageText(doc) == ""
  {
  }

  /** Three images on one page, the second corrupt: the text of the first and the third, in order. */
  lemma MiddleImageCorrupt(a: string, c: string)
    ensures ImageText(PdfDocument(None, None, Some([Enumerated([Some(a), None, Some(c)])]))) == a + c
  {
    var images := [Some(a), None, Some(c)];
    FailedImageIsSkipped(images, 1);
    assert images[..1] + images[2..] == [Some(a)] + [Some(c)];
    RecognizedAppend([Some(a)], [Some(c)]);
    assert [Some(a)][..0] == [] && [Some(c)][..0] == [];
    assert Recognized(images) == [a, c];
    var pages := [Enumerated(images)];
    assert pages[..0] == [];
    assert PagesRecognized(pages) == [a, c];
    assert [a, c][..1] == [a] && [a][..0] == [];
    assert Concat([a]) == a;
    assert Concat([a, c]) == a + c;
  }

  // ---------------------------------------------------------------------------
  // Combination: extract_text_and_images

  function TagLines(lines: seq<string>): seq<string> {
    seq(|lines|, i requires 0 <= i < |lines| => OcrTag + lines[i])
  }

  /**
   * The OCR text with `[OCR]` in front of each of its lines, the lines joined
   * by "\n": empty exactly for empty OCR text, and otherwise starting with `[OCR]`.
   */
  function TagOcr(ocrText: string): (r: string)
    ensures r == "" <==> ocrText == ""
    ensures r != "" ==> |OcrTag| <= |r| && r[..|OcrTag|] == OcrTag
  {
    if ocrText == "" then ocrText else JoinLines(TagLines(SplitLines(ocrText)))
  }

  /**
   * The tagged OCR part has one line per line of the OCR text, each the OCR
   * line behind `[OCR]`, and no boundary after its last line.
   */
  lemma TaggedLines(ocrText: string)
    ensures SplitLines(TagOcr(ocrText)) == TagLines(SplitLines(ocrText))
    ensures var tagged := TagOcr(ocrText);
      tagged != "" ==> !IsLineBreak(tagged[|tagged| - 1])
  {
    if ocrText != "" {
      var ocrLines := SplitLines(ocrText);
      var lines := TagLines(ocrLines);
      assert TagOcr(ocrText) == JoinLines(lines);
      assert lines != [] && lines[|lines| - 1] != "";
      TaggedLinesUnbroken(ocrLines);
      SplitJoin(lines);
      JoinLinesEnd(lines);
    }
  }

  /** The tag adds no line boundary. */
  lemma TaggedLinesUnbroken(lines: seq<string>)
    requires forall i | 0 <= i < |lines| :: HasNoBreak(lines[i])
    ensures forall i | 0 <= i < |lines| :: HasNoBreak(TagLines(lines)[i])
  {
    forall i | 0 <= i < |lines|
      ensures HasNoBreak(TagLines(lines)[i])
    {
      var tagged := TagLines(lines)[i];
      assert tagged == OcrTag + lines[i];
      forall j | 0 <= j < |tagged|
        ensures !IsLineBreak(tagged[j])
      {
        if j >= |OcrTag| {
          assert tagged[j] == lines[i][j - |OcrTag|];
        }
      }
    }
  }

  /** Every line of the tagged OCR part starts with `[OCR]`. */
  lemma EveryOcrLineTagged(ocrText: string)
    ensures forall line | line in SplitLines(TagOcr(ocrText)) :: |line| >= |OcrTag| && line[..|OcrTag|] == OcrTag
  {
    TaggedLines(ocrText);
  }

  /**
   * The tag is the only change: removing it from each tagged line and joining
   * the lines by "\n" gives back OCR text that uses "\n" as its only line
   * boundary, short of a final "\n". Tesseract usually ends a page with "\f",
   * another boundary, so its output commonly falls outside this lemma; for it
   * `TaggedLines` still gives one tagged line per OCR line.
   */
  lemma TaggingLosesNothing(ocrText: string)
    requires OnlyNewlineBreaks(ocrText)
    ensures var tagged := SplitLines(TagOcr(ocrText));
      JoinLines(seq(|tagged|, i requires 0 <= i < |tagged| => RemoveTag(tagged[i]))) + TrailingNewline(ocrText) == ocrText
  {
    TaggedLines(ocrText);
    var tagged := SplitLines(TagOcr(ocrText));
    var lines := SplitLines(ocrText);
    assert seq(|tagged|, i requires 0 <= i < |tagged| => RemoveTag(tagged[i])) == lines by {
      forall i | 0 <= i < |tagged| ensures RemoveTag(tagged[i]) == lines[i] {
        assert tagged[i] == OcrTag + lines[i];
        assert (OcrTag + lines[i])[..|OcrTag|] == OcrTag;
        assert (OcrTag + lines[i])[|OcrTag|..] == lines[i];
      }
    }
    JoinSplit(ocrText);
  }

  /** The line without a leading `[OCR]`. */
  function RemoveTag(line: string): string {
    if |line| >= |OcrTag| && line[..|OcrTag|] == OcrTag then line[|OcrTag|..] else line
  }

  /**
   * The text `extract_text_and_images` returns: the native text, a blank line,
   * then the tagged OCR text. It starts with the native text, it is never empty,
   * and without OCR text it is the native text and "\n\n" alone.
   */
  function ExtractTextAndImages(doc: PdfDocument): (combined: string)
    ensures |combined| >= |NativeText(doc)| + 2
    ensures combined[..|NativeText(doc)|] == NativeText(doc)
    ensures combined[|NativeText(doc)|..|NativeText(doc)| + 2] == "\n\n"
    ensures ImageText(doc) == "" ==> combined == NativeText(doc) + "\n\n"
    ensures combined[|NativeText(doc)| + 2..] == TagOcr(ImageText(doc))
  {
    NativeText(doc) + "\n\n" + TagOcr(ImageText(doc))
  }

  /** A combined result is blank exactly when neither extractor found any text. */
  lemma CombinedBlankIffNothingFound(doc: PdfDocument)
    ensures IsBlank(ExtractTextAndImages(doc)) <==> NativeText(doc) == "" && ImageText(doc) == ""
  {
    var native := NativeText(doc);
    var combined := ExtractTextAndImages(doc);
    if native != "" {
      var i :| 0 <= i < |native| && !IsSpace(native[i]);
      assert combined[i] == native[i];
    } else if ImageText(doc) != "" {
      assert combined[2] == TagOcr(ImageText(doc))[0] == '[';
    } else {
      assert combined == "\n\n";
    }
  }

  /** The tagged OCR part holds no "\r": the line boundaries are all replaced by "\n". */
  lemma TagOcrHasNoCarriageReturn(ocrText: string)
    ensures NoCarriageReturn(TagOcr(ocrText))
  {
    if ocrText != "" {
      var lines := TagLines(SplitLines(ocrText));
      TaggedLinesUnbroken(SplitLines(ocrText));
      forall i | 0 <= i < |lines|
        ensures NoCarriageReturn(lines[i])
      {
        BreakFreeHasNoCarriageReturn(lines[i]);
      }
      JoinLinesHasNoCarriageReturn(lines);
    }
  }

  /**
   * The combined text holds a "\r" exactly when the native text does, so a
   * text-mode read gives it back unchanged exactly then.
   */
  lemma CombinedCarriageReturns(doc: PdfDocument)
    ensures NoCarriageReturn(ExtractTextAndImages(doc)) <==> NoCarriageReturn(NativeText(doc))
    ensures ReadText(ExtractTextAndImages(doc)) == ExtractTextAndImages(doc) <==> NoCarriageReturn(NativeText(doc))
  {
    var native, tagged := NativeText(doc), TagOcr(ImageText(doc));
    TagOcrHasNoCarriageReturn(ImageText(doc));
    NoCarriageReturnAppend(native, "\n\n");
    NoCarriageReturnAppend(native + "\n\n", tagged);
    ReadTextUnchanged(ExtractTextAndImages(doc));
  }

  /**
   * A file PyMuPDF cannot open, and a PDF with no text and no images, both give
   * "\n\n": not the empty string that the upload route takes as an extraction
   * failure.
   */
  lemma EmptyDocumentIsNotAFailure()
    ensures var doc := PdfDocument(None, None, None);
      NativeText(doc) == "" && ImageText(doc) == "" && ExtractTextAndImages(doc) == "\n\n"
    ensures var doc := PdfDocument(Some([]), Some([]), Some([]));
      NativeText(doc) == "" && ImageText(doc) == "" && ExtractTextAndImages(doc) == "\n\n"
  {
    var doc := PdfDocument(Some([]), Some([]), Some([]));
    assert Concat([]) == "";
    assert Texts([]) == [];
    assert PagesRecognized([]) == [];
  }

  /**
   * Extraction that reports total failure as "": the combined text when either
   * extractor found something, "" when the combined text is blank.
   */
  function ExtractOrFail(doc: PdfDocument): (r: string)
    ensures r == "" <==> NativeText(doc) == "" && ImageText(doc) == ""
    ensures r != "" ==> r == ExtractTextAndImages(doc)
  {
    var combined := ExtractTextAndImages(doc);
    CombinedBlankIffNothingFound(doc);
    if IsBlank(combined) then "" else combined
  }
}
