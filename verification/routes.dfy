/** The `/classify_file` route: the error table, the order of the request checks, and how
    the outcome of extraction and classification becomes an HTTP status. Flask's request and
    response objects are not modelled: the parsed form is an outcome value, and a response is
    a status with either an error message or the classified document. */
module Routes {
  import opened Outcomes
  import opened Chars
  import opened Documents
  import opened ValidTypes
  import opened Extractor
  import opened Classifier

  /** The keys of `HTTP_ERRORS`. */
  datatype ErrorKey = FileRequired | FileType | FileTooLarge | ProcessingError

  /** One entry of `HTTP_ERRORS`: the message and the status code. */
  datatype ErrorInfo = ErrorInfo(message: string, status: int)

  /** `HTTP_ERRORS[key]`. */
  function HttpError(key: ErrorKey): ErrorInfo {
    match key
    case FileRequired => ErrorInfo("No file provided", 400)
    case FileType => ErrorInfo("File type not allowed", 415)
    case FileTooLarge => ErrorInfo("File exceeds size limit", 413)
    case ProcessingError => ErrorInfo("Error processing document", 500)
  }

  /** The table read backwards: the key whose entry carries `status`, if any. Every status
      belongs to at most one key, so an error response's status alone says which error it
      is. */
  function ErrorKeyOf(status: int): (k: Option<ErrorKey>)
    ensures k.Some? ==> HttpError(k.value).status == status
    ensures k.None? ==> forall key: ErrorKey :: HttpError(key).status != status
  {
    if status == 400 then Some(FileRequired)
    else if status == 415 then Some(FileType)
    else if status == 413 then Some(FileTooLarge)
    else if status == 500 then Some(ProcessingError)
    else None
  }

  /** Each key has its own status: reading the table backwards gives the key back. */
  lemma ErrorKeyOfHttpError(key: ErrorKey)
    ensures ErrorKeyOf(HttpError(key).status) == Some(key)
  {
  }

  /** The JSON body of a response: `{"error": message}` or the classified document. */
  datatype Body = ErrorBody(message: string) | DocumentBody(doc: ClassifiedDoc)

  /** A status code with its JSON body. */
  datatype Response = Response(status: int, body: Body)

  /** `error_response(key)`. */
  function ErrorResponse(key: ErrorKey): (r: Response)
    ensures r.body.ErrorBody? && r.body.message == HttpError(key).message
    ensures ErrorKeyOf(r.status) == Some(key)
  {
    Response(HttpError(key).status, ErrorBody(HttpError(key).message))
  }

  /** What reading `request.files` gives: the part named "file" (or none), a request over the
      size limit, or some other exception while parsing the form. */
  datatype FormOutcome = Form(file: Option<Upload>) | TooLarge | Unreadable

  /** The inner `try`: extract, then classify against the given similarities. `scores` stands
      for what building the classifier and embedding the text gives: the similarities, or the
      exception that was raised. */
  function Pipeline(file: Upload, scores: Result<seq<Score>, Exc>, extractedAt: Timestamp, classifiedAt: Timestamp): (r: Result<ClassifiedDoc, Exc>)
    ensures r.Success? <==>
      ProcessDocument(file, extractedAt).Success? && scores.Success? && scores.value != []
    ensures r.Success? ==>
      && r.value.fileName == file.filename
      && r.value.textContent == ProcessDocument(file, extractedAt).value.extractedText
      && r.value.processedAt == extractedAt
      && r.value.classifiedAt == classifiedAt
  {
    match ProcessDocument(file, extractedAt)
    case Failure(e) => Failure(e)
    case Success(doc) =>
      match scores
      case Failure(e) => Failure(e)
      case Success(s) => ClassifyDocument(doc, s, classifiedAt)
  }

  /** `classify_file_route`. A missing file part or an empty file name gives 400, a name the
      gate rejects gives 415 (only once a named file is present), a request over the size limit
      gives 413, any exception from extraction or classification or from reading the form gives
      500, and otherwise the classified document comes back with 200. */
  function ClassifyFileRoute(form: FormOutcome, scores: Result<seq<Score>, Exc>, extractedAt: Timestamp, classifiedAt: Timestamp): (r: Response)
    ensures r.status == 400 <==> form.Form? && (form.file.None? || form.file.value.filename == "")
    ensures r.status == 415 <==>
      form.Form? && form.file.Some? && form.file.value.filename != "" && !IsAllowedFile(form.file.value.filename)
    ensures r.status == 413 <==> form.TooLarge?
    ensures r.status == 200 <==>
      form.Form? && form.file.Some? && IsAllowedFile(form.file.value.filename)
      && Pipeline(form.file.value, scores, extractedAt, classifiedAt).Success?
    ensures r.status == 500 <==>
      form.Unreadable?
      || (form.Form? && form.file.Some? && IsAllowedFile(form.file.value.filename)
          && Pipeline(form.file.value, scores, extractedAt, classifiedAt).Failure?)
    ensures r.status in {200, 400, 413, 415, 500}
    ensures r.body.DocumentBody? <==> r.status == 200
    ensures r.body.DocumentBody? ==> r.body.doc.fileName == form.file.value.filename
    ensures r.body.ErrorBody? ==>
      ErrorKeyOf(r.status).Some? && r.body.message == HttpError(ErrorKeyOf(r.status).value).message
  {
    match form
    case TooLarge => ErrorResponse(FileTooLarge)
    case Unreadable => ErrorResponse(ProcessingError)
    case Form(None) => ErrorResponse(FileRequired)
    case Form(Some(file)) =>
      if file.filename == "" then ErrorResponse(FileRequired)
      else if !IsAllowedFile(file.filename) then ErrorResponse(FileType)
      else
        match Pipeline(file, scores, extractedAt, classifiedAt)
        case Success(doc) => Response(200, DocumentBody(doc))
        case Failure(_) => ErrorResponse(ProcessingError)
  }

  /** A name that ends in ".pdf" after lowercasing has the extension "pdf". */
  lemma PdfNameHasPdfExtension(filename: string)
    requires IsPdfName(filename)
    ensures Extension(filename) == Some(filename[|filename| - 3..])
    ensures Lower(filename[|filename| - 3..]) == "pdf"
  {
    var l := Lower(filename);
    var n := |filename|;
    assert l[n - 4..] == ".pdf";
    assert l[n - 4] == '.' && l[n - 3] == 'p' && l[n - 2] == 'd' && l[n - 1] == 'f';
    LowerCharDot(filename[n - 4]);
    LowerCharDot(filename[n - 3]);
    LowerCharDot(filename[n - 2]);
    LowerCharDot(filename[n - 1]);
    assert LastDot(filename) == Some(n - 4) by {
      AllowedIffLastDotExtension(filename, n - 4);
    }
    LowerSuffix(filename, n - 3);
  }

  /** A name whose extension lowercases to "pdf" ends in ".pdf" after lowercasing. */
  lemma PdfExtensionIsPdfName(filename: string, k: nat)
    requires LastDot(filename) == Some(k)
    requires Lower(filename[k + 1..]) == "pdf"
    ensures IsPdfName(filename)
  {
    var l := Lower(filename);
    var n := |filename|;
    LowerSuffix(filename, k + 1);
    assert k == n - 4;
    LowerCharDot(filename[k]);
    assert l[n - 4..] == [l[k]] + l[k + 1..];
  }

  /** Cross-file agreement of the gate and the dispatch: the extractor takes the PDF path
      exactly when the name has an extension and that extension, lowercased, is "pdf". So a
      name the gate lets through goes to the PDF reader when its extension is "pdf" and to OCR
      when it is "png" or "jpg". */
  lemma PdfDispatchMatchesGate(filename: string)
    ensures IsPdfName(filename) <==> Extension(filename).Some? && Lower(Extension(filename).value) == "pdf"
    ensures IsAllowedFile(filename) && !IsPdfName(filename) ==>
      Lower(Extension(filename).value) == "png" || Lower(Extension(filename).value) == "jpg"
  {
    PdfDispatchIffPdfExtension(filename);
  }

  /** The dispatch condition read through the last dot. */
  lemma PdfDispatchIffPdfExtension(filename: string)
    ensures IsPdfName(filename) <==> LastDot(filename).Some? && Lower(filename[LastDot(filename).value + 1..]) == "pdf"
  {
    if IsPdfName(filename) {
      PdfNameHasPdfExtension(filename);
    }
    match LastDot(filename)
    case None =>
    case Some(k) =>
      if Lower(filename[k + 1..]) == "pdf" {
        PdfExtensionIsPdfName(filename, k);
      }
  }

  /** A request with an allowed, non-empty name is answered by the pipeline: 200 with the
      classified document when extraction and classification both succeed, and 500 with the
      processing error otherwise. */
  lemma AllowedRequestReachesPipeline(file: Upload, scores: Result<seq<Score>, Exc>, extractedAt: Timestamp, classifiedAt: Timestamp)
    requires IsAllowedFile(file.filename)
    ensures var r := ClassifyFileRoute(Form(Some(file)), scores, extractedAt, classifiedAt);
      var p := Pipeline(file, scores, extractedAt, classifiedAt);
      && (p.Success? ==> r == Response(200, DocumentBody(p.value)))
      && (p.Failure? ==> r == ErrorResponse(ProcessingError))
  {
    assert file.filename != "" by {
      if file.filename == "" {
        NoDotNotAllowed(file.filename);
      }
    }
  }

  /** As written, building the classifier reads reference texts that the configuration does
      not define, so it raises before any similarity is computed. The configuration is not
      modelled: the exception is an input here, passed as `scores`. Every upload that passes
      the gate is then answered with the processing error. */
  lemma MissingReferenceTextsFails(file: Upload, extractedAt: Timestamp, classifiedAt: Timestamp)
    requires IsAllowedFile(file.filename)
    ensures ClassifyFileRoute(Form(Some(file)), Failure(OtherError), extractedAt, classifiedAt)
      == ErrorResponse(ProcessingError)
  {
    AllowedRequestReachesPipeline(file, Failure(OtherError), extractedAt, classifiedAt);
  }

  /** With the reference texts in place, an allowed upload whose extraction succeeds is
      classified and answered with 200. */
  lemma AllowedUploadClassified(file: Upload, scores: seq<Score>, extractedAt: Timestamp, classifiedAt: Timestamp)
    requires IsAllowedFile(file.filename)
    ensures ProcessDocument(file, extractedAt).Success? && scores != [] ==>
      var r := ClassifyFileRoute(Form(Some(file)), Success(scores), extractedAt, classifiedAt);
      && r.status == 200
      && r.body == DocumentBody(ClassifyDocument(ProcessDocument(file, extractedAt).value, scores, classifiedAt).value)
  {
    AllowedRequestReachesPipeline(file, Success(scores), extractedAt, classifiedAt);
  }
}
