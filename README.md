# PDFer: extraction pipeline and job store

PDFer is a small Flask application. It accepts an uploaded PDF and extracts its
text. It also runs OCR on the images embedded in the PDF. It stores the result as
a text file under a generated job id and lets the user query the job's status,
preview the text and download it. This project models the two pieces that carry
original logic:

- **The extraction pipeline** (`app/pdf_processing.py`), in module `PdfProcessing`.
  - `convert_pdf_to_text` reads the PyMuPDF page texts. When those are blank, it
    falls back to pdfplumber once, for the whole document.
  - `extract_images_from_pdf` accumulates the OCR text of every embedded image.
    A failing image is skipped. A document-level failure gives "".
  - `extract_text_and_images` puts `[OCR]` in front of every OCR line and joins
    the native text, a blank line and the tagged OCR lines.

  The two loop functions are imperative methods (`ConvertPdfToText`,
  `ExtractImagesFromPdf`). Each is proved equal to a specification function
  (`NativeText`, `ImageText`), and the source's promises are lemmas about those
  functions. The combination is a pure function.
- **The job store and route decisions** (`app/routes.py`), in module `Routes`.
  The module-level dict `processed_files` and the text files of the temporary
  folder are the fields of class `JobStore`. The routes `upload`, `status`,
  `download` and `preview` are its methods. Each returns a reply that names the
  outcome and its HTTP status code.

The PDF, image and OCR libraries are replaced by their observable results:
`PdfDocument` holds, for one file:

- the PyMuPDF page texts;
- the pdfplumber page texts, where `None` stands for a page without text;
- for each page, the OCR result of each image, or a failure of the whole page.

A library call that raises is an `Option` that is `None`.

Python's string behaviour is modelled in module `PyText`:

- `IsSpace` is `str.isspace` with Python's full set of whitespace characters.
  `not s.strip()` is `IsBlank`.
- `SplitLines` is `str.splitlines` with Python's full set of line boundaries.
  `"\r\n"` counts as one boundary, and a final boundary does not start an empty
  line.
- `JoinLines` is `"\n".join` and `Concat` is `"".join`. The accumulation with
  `+=` is `Concat` of the parts.

Facts about the code that shape the model:

- `app/routes.py` has no route that re-runs a job.
- `processed_files` maps a job id to the path of its text file only (`app/routes.py:56`).
- The text file is always named after the job id (`app/routes.py:50`).
- The uploaded PDF is saved under its sanitised file name in the same folder as
  the text files (`app/routes.py:38-40`).
- A document without text and without images is stored as a job. See "## Findings".

## Model

| member | source | states |
|---|---|---|
| `PyText.IsSpace` | app/pdf_processing.py:27 | the characters `strip()` removes: every line boundary is one of them, and no printable ASCII character is |
| `PyText.IsBlank` | app/pdf_processing.py:33 | `not s.strip()`: the empty string is blank, and a blank string holds no printable ASCII character |
| `PyText.BlankAppend` | app/pdf_processing.py:27-33 | text followed by more text strips to nothing exactly when both parts do |
| `PyText.Concat` | app/pdf_processing.py:24-25 | the text accumulated with `+=` starts with the first part |
| `PyText.ConcatBlank` | app/pdf_processing.py:24-27 | the accumulated text strips to nothing exactly when every part does |
| `PyText.ConcatAppend` | app/pdf_processing.py:24-31 | accumulating with `+=` over two runs of parts equals the two accumulations one after the other |
| `PyText.LineEnd` | app/pdf_processing.py:82 | where `splitlines` ends the first line: the index of the first line boundary, or the length when there is none |
| `PyText.SplitLines` | app/pdf_processing.py:82 | no line of `s.splitlines()` contains a line boundary; the result is empty exactly for the empty string, has at most one line per character, and its first line is the text up to the first boundary |
| `PyText.SplitAtBoundary` | app/pdf_processing.py:82 | a line without boundaries, one boundary ("\r\n", or any single boundary character other than a "\r" followed by "\n") and the rest split into that line followed by the lines of the rest |
| `PyText.SplitOneLine` | app/pdf_processing.py:82 | a non-empty line without boundaries splits into itself |
| `PyText.JoinLines` | app/pdf_processing.py:82 | `"\n".join(lines)` starts with the first line |
| `PyText.SplitJoin` | app/pdf_processing.py:82 | `"\n".join(lines).splitlines() == lines` for lines without boundaries whose last line is not empty |
| `PyText.JoinLinesHasNoCarriageReturn` | app/pdf_processing.py:82 | lines without "\r" joined by "\n" hold no "\r" |
| `PyText.ReadText` | app/routes.py:103-104 | a text-mode read turns each "\r\n" and each lone "\r" into "\n": the result holds no "\r" and is never longer than the file's text |
| `PyText.ReadTextUnchanged` | app/routes.py:103-104 | reading back what was written gives it unchanged exactly when it holds no "\r" |
| `PyText.ReadTextPrefix` | app/routes.py:103-104 | text without "\r" reads as itself, followed by the read of what comes after it |
| `PyText.ReadTextAtCarriageReturn` | app/routes.py:103-104 | text without "\r", then "\r\n" or a "\r" not followed by "\n", reads as that text and one "\n", followed by the read of the rest |
| `PyText.CarriageReturnsReadAsNewlines` | app/routes.py:103-104 | "a\r\nb\rc" reads as "a\nb\nc" |
| `PyText.JoinSplit` | app/pdf_processing.py:82 | `"\n".join(s.splitlines())` gives back `s` short of a final "\n", for text whose only boundary is "\n" |
| `PdfProcessing.NativeText` | app/pdf_processing.py:12-40 | the native text is "" or holds a non-whitespace character, and when not "" it starts with the PyMuPDF text |
| `PdfProcessing.ConvertPdfToText` | app/pdf_processing.py:12-40 | the loops compute exactly the native text: primary pages in order, the secondary pages appended when that is blank, "" on a blank result or any failure |
| `PdfProcessing.PrimaryTextWins` | app/pdf_processing.py:22-36 | non-blank primary text is the result as it is, and the secondary parser's output has no influence on it |
| `PdfProcessing.FallbackIsAppended` | app/pdf_processing.py:27-36 | blank primary text is kept and the secondary page texts are appended in page order; "" if the whole is still blank |
| `PdfProcessing.FallbackPageWithoutTextFails` | app/pdf_processing.py:29-40 | a secondary page that yields no text makes the native text "" |
| `PdfProcessing.ImageText` | app/pdf_processing.py:42-72 | the OCR text is "" unless the document opened, every page's images were enumerated and at least one image was recognised |
| `PdfProcessing.AppendPageOcr` | app/pdf_processing.py:56-66 | the inner loop appends the OCR texts of one page's recognised images, in image order, and skips the failing ones |
| `PdfProcessing.ExtractImagesFromPdf` | app/pdf_processing.py:42-72 | the nested loops compute exactly the OCR texts of the recognised images, in page order then image order, with no separator; "" when the document does not open or a page cannot be enumerated |
| `PdfProcessing.FailedImageIsSkipped` | app/pdf_processing.py:57-66 | on one page, a failing image contributes nothing and the images after it are still included |
| `PdfProcessing.FailedImageContributesNothing` | app/pdf_processing.py:53-66 | the OCR text of a document with a failing image equals that of the same document with the image removed |
| `PdfProcessing.EnumerationFailureDiscardsAll` | app/pdf_processing.py:53-70 | a page whose images cannot be enumerated makes the OCR text "", discarding what earlier pages gave |
| `PdfProcessing.MiddleImageCorrupt` | app/pdf_processing.py:54-66 | three images on a page with the second one corrupt give the texts of the first and third, in order |
| `PdfProcessing.TagOcr` | app/pdf_processing.py:81-82 | the tagged OCR part is empty exactly when the OCR text is, and otherwise starts with `[OCR]` |
| `PdfProcessing.TaggedLines` | app/pdf_processing.py:81-82 | the tagged OCR part has one line per OCR line, each the OCR line behind `[OCR]`, and no boundary after its last line |
| `PdfProcessing.TaggedLinesUnbroken` | app/pdf_processing.py:82 | putting `[OCR]` in front of lines without boundaries adds no boundary |
| `PyText.JoinLinesEnd` | app/pdf_processing.py:82 | `"\n".join(lines)` ends with the last character of a non-empty last line |
| `PdfProcessing.EveryOcrLineTagged` | app/pdf_processing.py:81-82 | every line of the tagged OCR part starts with `[OCR]` |
| `PdfProcessing.TaggingLosesNothing` | app/pdf_processing.py:81-82 | removing the tags and joining the lines by "\n" gives back the OCR text, short of a final "\n", when "\n" is its only line boundary |
| `PdfProcessing.ExtractTextAndImages` | app/pdf_processing.py:74-89 | the combined text starts with the native text, then "\n\n", then the tagged OCR part; it is never empty; without OCR text it is exactly native + "\n\n" |
| `PdfProcessing.CombinedBlankIffNothingFound` | app/pdf_processing.py:77-84 | the combined text is blank exactly when both the native text and the OCR text are "" |
| `PdfProcessing.TagOcrHasNoCarriageReturn` | app/pdf_processing.py:81-82 | the tagged OCR part holds no "\r", whatever the OCR text |
| `PdfProcessing.CombinedCarriageReturns` | app/pdf_processing.py:84 | the combined text holds a "\r" exactly when the native text does, and a text-mode read gives it back unchanged exactly when the native text holds none |
| `PdfProcessing.EmptyDocumentIsNotAFailure` | app/pdf_processing.py:84 | a file PyMuPDF cannot open, and a PDF with no text and no images, both give "\n\n", which the upload's emptiness test lets through |
| `PdfProcessing.ExtractOrFail` | app/pdf_processing.py:74-89 | corrected extraction: "" exactly when neither extractor found text, otherwise the combined text |
| `Routes.TextPathInjective` | app/routes.py:49-51 | distinct job ids get distinct text file paths |
| `Routes.SavePathCanBeTextPath` | app/routes.py:38-40 | the PDF of an upload whose name sanitises to `<id>.txt` is saved on the text file of job `<id>` |
| `Routes.PdfPathIsNoTextPath` | app/routes.py:50-51 | a PDF saved under `<id>.pdf` never lands on a text file, whatever the two ids |
| `Routes.JobStore.constructor` | app/routes.py:16-21 | the store starts empty, with its temporary folder fixed |
| `Routes.JobStore.StoreText` | app/routes.py:48-56 | the new job maps to `<TEMP_FOLDER>/<id>.txt`, that file holds the text, and no earlier job's text changes |
| `Routes.JobStore.Upload` | app/routes.py:27-64 | 400 without a file part or with an empty file name; 500 when the save fails, with nothing changed; never the "Failed to extract" 500. Otherwise a redirect to the new id, the PDF saved under its sanitised name, the new job holding the combined text, and each earlier job's text unchanged unless its text file has the PDF's name, in which case it is the PDF |
| `Routes.JobStore.UploadFixed` | app/routes.py:27-64 | corrected upload: 400 as above; 500 on a failed save; 500 without a new job when neither extractor found text; otherwise a redirect and the new job holding the text. Under every outcome no earlier job's text changes |
| `Routes.JobStore.Status` | app/routes.py:66-74 | "completed" with the id (200) exactly when the id is a key of `processed_files`, otherwise "not found" (404); nothing is modified |
| `Routes.JobStore.Download` | app/routes.py:76-89 | 404 exactly for unknown ids; an attachment of the file's bytes as stored exactly when the job's text file exists; 500 otherwise; nothing is modified |
| `Routes.JobStore.Preview` | app/routes.py:91-114 | 404 exactly for unknown ids; when the job's text file exists and is UTF-8, that text read in text mode (`ReadText`) with a download link to the same id; 500 when the file is gone or not UTF-8; nothing is modified |
| `Routes.UploadReplacesJobText` | app/routes.py:38-40 | an upload named `<id>.txt` for a stored job `<id>` succeeds; the download of job `<id>` then serves the new PDF's bytes, and its preview answers 500 for bytes that are not UTF-8 and shows them read as text otherwise |
| `Routes.UploadThenLookUp` | app/routes.py:43-110 | as written, an upload with a non-empty name that saves succeeds; status is "completed", the download is the combined text, and the preview is the combined text read in text mode, equal to it exactly when the native text holds no "\r" |
| `Routes.UploadFixedThenLookUp` | app/routes.py:43-110 | with the corrected route, an upload succeeds exactly when an extractor found text; the lookups then give that text, the preview read in text mode as above |

## Findings

| source | as written | input that shows it | evidently intended | confidence | as-written member | corrected member |
|---|---|---|---|---|---|---|
| app/pdf_processing.py:84 | `combined_text = text + "\n\n" + text_from_images` is never empty, so the test `if not extracted_text` at app/routes.py:45 never fires | a PDF with no selectable text for either parser and no images, or a file PyMuPDF cannot open: extraction gives "\n\n" and the upload stores it as a job | the route tests for an empty extraction and answers "Failed to extract text from the PDF" (app/routes.py:45-46), and the module's own check (app/pdf_processing.py:94-97) reads an empty result as "Extraction failed or yielded no text": an extraction that found nothing is "" and the upload answers 500 without creating a job | high (not executed) | `PdfProcessing.EmptyDocumentIsNotAFailure` | `PdfProcessing.ExtractOrFail` |
| app/routes.py:38-40 | the PDF is saved under its sanitised file name in `TEMP_FOLDER`, where the text files of the jobs are named `<job id>.txt` | a second upload of a file named `<id>.txt` for a stored job `<id>` (a UUID with ".txt" is left as it is by `secure_filename`): the PDF's bytes replace that job's text file: its download serves the PDF, and its preview answers 500 (a PDF is normally not UTF-8) | `processed_files` and the text files are the only record of earlier jobs (app/routes.py:50-56, 84-85, 100-104), and an upload creates one new job: no upload alters another job's text | high (not executed) | `Routes.UploadReplacesJobText` | `Routes.JobStore.UploadFixed` |

`Routes.JobStore.Upload` and `Routes.UploadThenLookUp` model the route as
written. `Routes.JobStore.UploadFixed` combines both corrections: it saves the
PDF under `<id>.pdf`, and it runs `ExtractOrFail` in front of the route's own
emptiness test. `ExtractOrFail` equals `ExtractTextAndImages` whenever it is not "".
A blank combined text and "nothing found" coincide
(`CombinedBlankIffNothingFound`), so testing `not extracted_text.strip()` in the
route would be the same fix.

## Left out

- PyMuPDF, pdfplumber, pytesseract and PIL are not modelled. Their results are the fields of `PdfDocument`. A page whose `get_text` or `extract_text` raises is the same, for the result, as a document that fails to open.
- The exception handler of `extract_text_and_images` (app/pdf_processing.py:87-89) is unreachable. Both extractors catch every exception, and `splitlines`, `join` and `+` do not raise. The model has no path for it.
- `secure_filename` (app/routes.py:38) is not modelled: its result is the parameter `safeName` of `Upload`. Saving to the folder itself, for an empty `safeName`, fails; any other failure of `file.save` is the flag `pdfSaved`. A failed save is taken to leave no file behind.
- The UTF-8 encoding is not modelled. A file's bytes are either `Text(t)`, the encoding of `t`, or `Binary(b)`, bytes that do not decode. The model takes on trust that a `Binary` value really fails to decode.
- `uuid.uuid4` (app/routes.py:49) is replaced by the `jobId` argument. `Upload` and `UploadFixed` require that id to be fresh.
- Creating `TEMP_FOLDER` (app/routes.py:16-18) is not modelled. Writing the text file (app/routes.py:52-53) is a map update and is taken to succeed. Reading it back (app/routes.py:103-104) is a lookup followed by `ReadText`, and fails for `Binary` bytes.
- Writing in text mode turns "\n" into the platform's line separator. The model takes it to be "\n", as on POSIX systems.
- Files removed from the folder by something outside the application are not an operation of the model. The 500 replies of `Download` and `Preview` for a missing file cover their effect.
- Flask plumbing is not modelled: templates, the redirect URL, JSON bodies beyond the reply kind, `send_file`'s streaming and all logging. The `index` route is not modelled either.
- The `if file:` test at app/routes.py:37 always holds once the file name is not empty, so the model has no branch for it.
- Concurrent requests on the unsynchronised `processed_files` dict are not modelled.
- app/utils.py (S3 upload and presigned URLs) and app/static/js/scripts.js (a timer-driven progress bar) are not part of this model.
- Characters are Unicode scalar values. Python strings may also hold lone surrogates, and writing one at app/routes.py:52-53 raises `UnicodeEncodeError` (a 500). That failure is covered by the assumption above that the write succeeds.
- PdfProcessing.TaggingLosesNothing: stated for OCR text whose only line boundary is "\n". Tesseract usually ends each page with "\f", another boundary, which `splitlines` drops; for such text `TaggedLines` still gives one tagged line per OCR line.
