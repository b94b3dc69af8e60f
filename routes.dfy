/**
 * The job store and the decisions of the upload, status, download and preview
 * routes of app/routes.py. Flask, rendering and logging are not modelled: each
 * route returns a reply that names the outcome, with its HTTP status code.
 */
module Routes {
  import opened Wrappers
  import opened PdfProcessing
  import opened PyText

  /** `os.path.join(TEMP_FOLDER, f"{job_id}.txt")`. */
  function TextPath(tempFolder: string, jobId: string): string {
    tempFolder + "/" + jobId + ".txt"
  }

  /** Distinct job ids get distinct text files. */
  lemma TextPathInjective(tempFolder: string, a: string, b: string)
    requires TextPath(tempFolder, a) == TextPath(tempFolder, b)
    ensures a == b
  {
    var n := |tempFolder| + 1;
    assert |a| == |b|;
    assert TextPath(tempFolder, a)[n..n + |a|] == a;
    assert TextPath(tempFolder, b)[n..n + |b|] == b;
  }

  /** `os.path.join(TEMP_FOLDER, filename)`: where the upload route saves the PDF under its sanitised name. */
  function SavePath(tempFolder: string, filename: string): string {
    tempFolder + "/" + filename
  }

  /** Where the corrected upload route saves the PDF: named after the job id, with a `.pdf` suffix. */
  function PdfPath(tempFolder: string, jobId: string): string {
    tempFolder + "/" + jobId + ".pdf"
  }

  /** A PDF saved under the sanitised name `<id>.txt` lands on the text file of job `<id>`. */
  lemma SavePathCanBeTextPath(tempFolder: string, jobId: string)
    ensures SavePath(tempFolder, jobId + ".txt") == TextPath(tempFolder, jobId)
  {
    assert tempFolder + "/" + (jobId + ".txt") == tempFolder + "/" + jobId + ".txt";
  }

  /** No PDF saved by the corrected route lands on a text file, whatever the two ids. */
  lemma PdfPathIsNoTextPath(tempFolder: string, a: string, b: string)
    ensures PdfPath(tempFolder, a) != TextPath(tempFolder, b)
  {
    var p, t := PdfPath(tempFolder, a), TextPath(tempFolder, b);
    assert p[|p| - 3] == 'p' && t[|t| - 3] == 't';
  }

  /**
   * The bytes of a file: the UTF-8 encoding of `text`, or bytes that are not
   * valid UTF-8 (a PDF's binary marker line and compressed streams usually are not).
   */
  datatype FileContent = Text(text: string) | Binary(bytes: seq<bv8>)

  /**
   * The `file` part of an upload request: its file name, the bytes `file.save`
   * writes, and what the PDF libraries report on them.
   */
  datatype UploadedFile = UploadedFile(filename: string, content: FileContent, pdf: PdfDocument)

  datatype UploadReply =
    | Redirect(jobId: string)  // to the preview of the new job
    | NoFilePart               // "No file part in the request"
    | NoFileSelected           // "No file selected for uploading"
    | ExtractionFailed         // "Failed to extract text from the PDF"
    | ProcessingError          // "An error occurred while processing the file"
  {
    function Code(): int {
      match this
      case Redirect(_) => 302
      case NoFilePart | NoFileSelected => 400
      case ExtractionFailed | ProcessingError => 500
    }
  }

  datatype StatusReply = Completed(fileId: string) | NotFound {
    function Code(): int {
      if Completed? then 200 else 404
    }
  }

  datatype DownloadReply =
    | Attachment(path: string, content: FileContent)  // the file's bytes, as stored
    | FileNotFound  // unknown id
    | SendError     // send_file raised, e.g. the text file is gone
  {
    function Code(): int {
      match this
      case Attachment(_, _) => 200
      case FileNotFound => 404
      case SendError => 500
    }
  }

  datatype PreviewReply =
    | Rendered(jobId: string, extractedText: string, downloadFileId: string)
    | JobNotFound  // unknown id
    | ReadError    // reading the text file raised
  {
    function Code(): int {
      match this
      case Rendered(_, _, _) => 200
      case JobNotFound => 404
      case ReadError => 500
    }
  }

  /**
   * The process-wide state of the routes: `processed_files`, from job id to the
   * path of its text file, and the files of the temporary folder.
   */
  class JobStore {
    const tempFolder: string
    var processedFiles: map<string, string>
    var files: map<string, FileContent>

    /** Every job's text file is named after its id. */
    ghost predicate Valid()
      reads this
    {
      forall id | id in processedFiles :: processedFiles[id] == TextPath(tempFolder, id)
    }

    /** The file on disk for a job, if the job is known and its file exists. */
    function JobFile(jobId: string): Option<FileContent>
      reads this
    {
      if jobId in processedFiles && processedFiles[jobId] in files
      then Some(files[processedFiles[jobId]])
      else None
    }

    /** Module start: an empty `processed_files` over whatever the folder already holds. */
    constructor (tempFolder: string, files: map<string, FileContent>)
      ensures Valid()
      ensures this.tempFolder == tempFolder && processedFiles == map[] && this.files == files
    {
      this.tempFolder := tempFolder;
      processedFiles := map[];
      this.files := files;
    }

    /**
     * Writes a job's text file and records the job: the text is readable under
     * the new id, and no earlier job's text changes.
     */
    method StoreText(jobId: string, text: string)
      requires Valid()
      requires jobId !in processedFiles
      modifies this
      ensures Valid()
      ensures processedFiles == old(processedFiles)[jobId := TextPath(tempFolder, jobId)]
      ensures files == old(files)[TextPath(tempFolder, jobId) := Text(text)]
      ensures JobFile(jobId) == Some(Text(text))
      ensures forall id | id in old(processedFiles) :: JobFile(id) == old(JobFile(id))
    {
      var textFilePath := TextPath(tempFolder, jobId);
      files := files[textFilePath := Text(text)];
      processedFiles := processedFiles[jobId := textFilePath];
      forall id | id in old(processedFiles)
        ensures processedFiles[id] == old(processedFiles)[id] != textFilePath
      {
        if old(processedFiles)[id] == textFilePath {
          TextPathInjective(tempFolder, id, jobId);
        }
      }
    }

    /**
     * POST /upload as written. `safeName` is what `secure_filename` made of the
     * file name; `pdfSaved` says whether `file.save` succeeded (saving to the
     * folder itself, for an empty `safeName`, always fails); `jobId` is the value
     * `uuid.uuid4()` produced. The PDF is saved in the folder of the text files,
     * so it replaces the text of any job whose text file has its name; the
     * emptiness test never fires, since the combined text is never "".
     */
    method Upload(file: Option<UploadedFile>, safeName: string, pdfSaved: bool, jobId: string)
      returns (reply: UploadReply)
      requires Valid()
      requires jobId !in processedFiles
      modifies this
      ensures Valid()
      ensures reply != ExtractionFailed
      ensures file.None? ==> reply == NoFilePart
      ensures file.Some? && file.value.filename == "" ==> reply == NoFileSelected
      ensures file.Some? && file.value.filename != "" ==>
                reply == if safeName != "" && pdfSaved then Redirect(jobId) else ProcessingError
      ensures reply.Redirect? ==>
                && processedFiles == old(processedFiles)[jobId := TextPath(tempFolder, jobId)]
                && files == old(files)[SavePath(tempFolder, safeName) := file.value.content]
                                      [TextPath(tempFolder, jobId) := Text(ExtractTextAndImages(file.value.pdf))]
                && JobFile(jobId) == Some(Text(ExtractTextAndImages(file.value.pdf)))
                && forall id | id in old(processedFiles) ::
                     JobFile(id) == if processedFiles[id] == SavePath(tempFolder, safeName)
                                    then Some(file.value.content) else old(JobFile(id))
      ensures !reply.Redirect? ==> processedFiles == old(processedFiles) && files == old(files)
    {
      if file.None? {
        return NoFilePart;
      }
      var f := file.value;
      if f.filename == "" {
        return NoFileSelected;
      }
      if safeName == "" || !pdfSaved {
        return ProcessingError;  // file.save raised
      }
      var pdfPath := SavePath(tempFolder, safeName);
      files := files[pdfPath := f.content];
      var extractedText := ExtractTextAndImages(f.pdf);
      if extractedText == "" {
        return ExtractionFailed;
      }
      StoreText(jobId, extractedText);
      forall id | id in old(processedFiles)
        ensures JobFile(id) == if processedFiles[id] == pdfPath then Some(f.content) else old(JobFile(id))
      {
        assert processedFiles[id] == old(processedFiles)[id];
      }
      reply := Redirect(jobId);
    }

    /**
     * POST /upload corrected: the id comes first, the PDF is saved under
     * `<id>.pdf`, and an extraction that found nothing answers 500 without a
     * job. Whatever the outcome, no earlier job's text changes.
     */
    method UploadFixed(file: Option<UploadedFile>, pdfSaved: bool, jobId: string) returns (reply: UploadReply)
      requires Valid()
      requires jobId !in processedFiles
      modifies this
      ensures Valid()
      ensures file.None? ==> reply == NoFilePart
      ensures file.Some? && file.value.filename == "" ==> reply == NoFileSelected
      ensures file.Some? && file.value.filename != "" ==>
                reply == if !pdfSaved then ProcessingError
                         else if ExtractOrFail(file.value.pdf) == "" then ExtractionFailed
                         else Redirect(jobId)
      ensures reply.Redirect? ==>
                && processedFiles == old(processedFiles)[jobId := TextPath(tempFolder, jobId)]
                && files == old(files)[PdfPath(tempFolder, jobId) := file.value.content]
                                      [TextPath(tempFolder, jobId) := Text(ExtractOrFail(file.value.pdf))]
                && JobFile(jobId) == Some(Text(ExtractOrFail(file.value.pdf)))
      ensures reply == ExtractionFailed ==>
                && processedFiles == old(processedFiles)
                && files == old(files)[PdfPath(tempFolder, jobId) := file.value.content]
      ensures !reply.Redirect? && reply != ExtractionFailed ==>
                processedFiles == old(processedFiles) && files == old(files)
      ensures forall id | id in old(processedFiles) :: JobFile(id) == old(JobFile(id))
    {
      if file.None? {
        return NoFilePart;
      }
      var f := file.value;
      if f.filename == "" {
        return NoFileSelected;
      }
      if !pdfSaved {
        return ProcessingError;  // file.save raised
      }
      var pdfPath := PdfPath(tempFolder, jobId);
      files := files[pdfPath := f.content];
      forall id | id in old(processedFiles)
        ensures JobFile(id) == old(JobFile(id))
      {
        PdfPathIsNoTextPath(tempFolder, jobId, id);
      }
      var extractedText := ExtractOrFail(f.pdf);
      if extractedText == "" {
        return ExtractionFailed;
      }
      StoreText(jobId, extractedText);
      reply := Redirect(jobId);
    }

    /** GET /status/<job_id>. */
    method Status(jobId: string) returns (reply: StatusReply)
      ensures reply.Completed? <==> jobId in processedFiles
      ensures reply.Completed? ==> reply.fileId == jobId
      ensures reply.Code() == if jobId in processedFiles then 200 else 404
    {
      if jobId in processedFiles {
        reply := Completed(jobId);
      } else {
        reply := NotFound;
      }
    }

    /** GET /download/<file_id>. */
    method Download(fileId: string) returns (reply: DownloadReply)
      ensures fileId !in processedFiles <==> reply == FileNotFound
      ensures reply.Attachment? <==> JobFile(fileId).Some?
      ensures reply.Attachment? ==> reply.path == processedFiles[fileId] && Some(reply.content) == JobFile(fileId)
    {
      if fileId !in processedFiles {
        return FileNotFound;
      }
      var filePath := processedFiles[fileId];
      if filePath !in files {
        return SendError;
      }
      reply := Attachment(filePath, files[filePath]);
    }

    /**
     * GET /preview/<job_id>. The text file is read in text mode: bytes that are
     * not UTF-8 raise, and line endings come back as "\n".
     */
    method Preview(jobId: string) returns (reply: PreviewReply)
      ensures jobId !in processedFiles <==> reply == JobNotFound
      ensures reply.Rendered? <==> JobFile(jobId).Some? && JobFile(jobId).value.Text?
      ensures reply.Rendered? ==>
                && reply.extractedText == ReadText(JobFile(jobId).value.text)
                && reply.jobId == jobId && reply.downloadFileId == jobId
    {
      if jobId !in processedFiles {
        return JobNotFound;
      }
      var filePath := processedFiles[jobId];
      if filePath !in files {
        return ReadError;  // open raised: the file is gone
      }
      match files[filePath]
      case Binary(_) =>
        return ReadError;  // UnicodeDecodeError
      case Text(text) =>
        reply := Rendered(jobId, ReadText(text), jobId);
    }
  }

  /**
   * Uploading a PDF whose name sanitises to `<id>.txt`, for a job `<id>` already
   * stored, replaces that job's text file: its download now serves the bytes of
   * the new PDF, and its preview fails when those bytes are not UTF-8 and shows
   * them read as text otherwise.
   */
  method UploadReplacesJobText(store: JobStore, file: UploadedFile, victim: string, jobId: string)
    returns (upload: UploadReply, download: DownloadReply, preview: PreviewReply)
    requires store.Valid() && jobId !in store.processedFiles
    requires victim in store.processedFiles && file.filename != ""
    modifies store
    ensures upload == Redirect(jobId)
    ensures download == Attachment(TextPath(store.tempFolder, victim), file.content)
    ensures file.content.Binary? ==> preview == ReadError
    ensures file.content.Text? ==> preview == Rendered(victim, ReadText(file.content.text), victim)
  {
    SavePathCanBeTextPath(store.tempFolder, victim);
    upload := store.Upload(Some(file), victim + ".txt", true, jobId);
    download := store.Download(victim);
    preview := store.Preview(victim);
  }

  /**
   * A successful upload followed by the three lookups: the job is completed,
   * its download is the stored text file, and its preview shows the extracted
   * text read back in text mode, which is that text exactly when the native
   * text holds no "\r". As written, every saved upload succeeds.
   */
  method UploadThenLookUp(store: JobStore, file: UploadedFile, safeName: string, jobId: string)
    returns (upload: UploadReply, status: StatusReply, download: DownloadReply, preview: PreviewReply)
    requires store.Valid() && jobId !in store.processedFiles
    modifies store
    ensures upload.Redirect? <==> file.filename != "" && safeName != ""
    ensures upload.Redirect? ==>
              && status == Completed(jobId)
              && download == Attachment(TextPath(store.tempFolder, jobId), Text(ExtractTextAndImages(file.pdf)))
              && preview == Rendered(jobId, ReadText(ExtractTextAndImages(file.pdf)), jobId)
              && (preview.extractedText == ExtractTextAndImages(file.pdf) <==> NoCarriageReturn(NativeText(file.pdf)))
  {
    upload := store.Upload(Some(file), safeName, true, jobId);
    status := store.Status(jobId);
    download := store.Download(jobId);
    preview := store.Preview(jobId);
    CombinedCarriageReturns(file.pdf);
  }

  /**
   * The same with the corrected route: the upload succeeds exactly when an
   * extractor found text, and the lookups then give that text.
   */
  method UploadFixedThenLookUp(store: JobStore, file: UploadedFile, jobId: string)
    returns (upload: UploadReply, status: StatusReply, download: DownloadReply, preview: PreviewReply)
    requires store.Valid() && jobId !in store.processedFiles
    modifies store
    ensures upload.Redirect? <==> file.filename != "" && ExtractOrFail(file.pdf) != ""
    ensures upload.Redirect? ==>
              && status == Completed(jobId)
              && download == Attachment(TextPath(store.tempFolder, jobId), Text(ExtractTextAndImages(file.pdf)))
              && preview == Rendered(jobId, ReadText(ExtractTextAndImages(file.pdf)), jobId)
              && (preview.extractedText == ExtractTextAndImages(file.pdf) <==> NoCarriageReturn(NativeText(file.pdf)))
  {
    upload := store.UploadFixed(Some(file), true, jobId);
    status := store.Status(jobId);
    download := store.Download(jobId);
    preview := store.Preview(jobId);
    CombinedCarriageReturns(file.pdf);
  }
}
