/** `Extractor`: PDF-or-image dispatch, the PDF page filter, and the policy that turns
    extraction failures into empty documents. The PDF and OCR engines are not modelled;
    what they would produce for an upload is given as an outcome value. */
module Extractor {
  import opened Outcomes
  import opened Chars
  import opened Text
  import opened Words
  import opened TextCleaner
  import opened Documents

  /** What the PDF engine makes of an upload: the text of each page (`None` when a page has
      no text layer), a malformed-structure error, or some other exception. */
  datatype PdfOutcome = PdfPages(pages: seq<Option<string>>) | PdfSyntaxError | PdfRaised(error: Exc)

  /** What opening the upload as an image and running OCR on it gives. */
  datatype ImageOutcome = OcrText(text: string) | OcrRaised(error: Exc)

  /** An uploaded file: its name, and what each engine would make of its bytes. */
  datatype Upload = Upload(filename: string, pdf: PdfOutcome, image: ImageOutcome)

  /** `[word for word in words if len(word) > 2]`. */
  function LongWords(words: seq<string>): (r: seq<string>)
    ensures forall k :: 0 <= k < |r| ==> |r[k]| > 2
  {
    if words == [] then []
    else if |words[0]| > 2 then [words[0]] + LongWords(words[1..])
    else LongWords(words[1..])
  }

  /** The filter keeps exactly the words longer than two characters. */
  lemma {:induction false} LongWordsMembers(words: seq<string>)
    ensures forall w :: w in LongWords(words) <==> w in words && |w| > 2
  {
    if words != [] {
      LongWordsMembers(words[1..]);
      assert words == [words[0]] + words[1..];
    }
  }

  /** The filter works word by word: filtering a concatenation filters each part, so the
      kept words stay in their order and a repeated word is kept every time. */
  lemma {:induction false} LongWordsAppend(a: seq<string>, b: seq<string>)
    ensures LongWords(a + b) == LongWords(a) + LongWords(b)
  {
    if a == [] {
      assert a + b == b;
    } else {
      assert (a + b)[1..] == a[1..] + b;
      LongWordsAppend(a[1..], b);
    }
  }

  /** One word is kept exactly when it is longer than two characters. */
  lemma LongWordsSingle(w: string)
    ensures LongWords([w]) == if |w| > 2 then [w] else []
  {
    assert [w][1..] == [];
  }

  /** What one page with text adds to the PDF text: its long words joined by spaces, and a
      newline. The words of that line are the page's long words. */
  function PageLine(text: string): (r: string)
    ensures |r| > 0 && r[|r| - 1] == '\n'
    ensures Split(r) == LongWords(Split(text))
  {
    var long := LongWords(Split(text));
    LongWordsMembers(Split(text));
    assert forall k :: 0 <= k < |long| ==> long[k] in long;
    SplitJoin(long);
    SplitDropTrailingSpaces(JoinWithSpace(long), "\n");
    JoinWithSpace(long) + "\n"
  }

  /** The page loop: pages whose text is `None` or empty add nothing, and every page with
      text ends its line with a newline. */
  function PagesText(pages: seq<Option<string>>): (r: string)
    ensures r != [] ==> r[|r| - 1] == '\n'
  {
    if pages == [] then []
    else
      var line := match pages[0] case Some(t) => if t != "" then PageLine(t) else [] case None => [];
      line + PagesText(pages[1..])
  }

  /** The reference reading of the page filter: the words longer than two characters of
      every page, page by page and in their original order. */
  function PageWords(pages: seq<Option<string>>): (ws: seq<string>)
    ensures forall k :: 0 <= k < |ws| ==> IsToken(ws[k]) && |ws[k]| > 2
  {
    if pages == [] then []
    else
      var first := match pages[0] case Some(t) => (LongWordsMembers(Split(t)); LongWords(Split(t))) case None => [];
      assert forall k :: 0 <= k < |first| ==> first[k] in first;
      first + PageWords(pages[1..])
  }

  /** The words of the text the page loop builds are exactly the long words of the pages. */
  lemma {:induction false} PagesTextWords(pages: seq<Option<string>>)
    ensures Split(PagesText(pages)) == PageWords(pages)
  {
    if pages != [] {
      PagesTextWords(pages[1..]);
      var rest := PagesText(pages[1..]);
      match pages[0]
      case None =>
        assert PagesText(pages) == rest;
      case Some(t) =>
        var long := LongWords(Split(t));
        LongWordsMembers(Split(t));
        assert forall k :: 0 <= k < |long| ==> long[k] in long;
        SplitJoin(long);
        if t != "" {
          assert PagesText(pages) == JoinWithSpace(long) + ['\n'] + rest;
          SplitSeparated(JoinWithSpace(long), '\n', rest);
        } else {
          assert PagesText(pages) == rest;
        }
    }
  }

  /** `extract_text_pdf`: the page text stripped; a malformed PDF gives the empty text and
      every other exception propagates. The words of the text are the long words of the
      pages and the text has no whitespace at either end. */
  function ExtractTextPdf(outcome: PdfOutcome): (r: Result<string, Exc>)
    ensures outcome.PdfSyntaxError? ==> r == Success("")
    ensures outcome.PdfRaised? ==> r == Failure(outcome.error)
    ensures outcome.PdfPages? ==> r.Success? && Split(r.value) == PageWords(outcome.pages)
    ensures outcome.PdfPages? ==> NonSpace(r.value) == Concat(PageWords(outcome.pages))
    ensures r.Success? ==> Stripped(r.value)
  {
    match outcome
    case PdfPages(pages) =>
      SplitStrip(PagesText(pages));
      PagesTextWords(pages);
      Success(Strip(PagesText(pages)))
    case PdfSyntaxError => Success("")
    case PdfRaised(e) => Failure(e)
  }

  /** The PDF text is empty exactly when no page has a word longer than two characters; in
      particular a PDF without pages gives the empty text. */
  lemma PdfTextEmptyIffNoLongWords(pages: seq<Option<string>>)
    ensures ExtractTextPdf(PdfPages(pages)) == Success("") <==> PageWords(pages) == []
  {
    var text := ExtractTextPdf(PdfPages(pages)).value;
    SplitEmpty(text);
  }

  /** A page without text, or with empty text, adds nothing to the PDF text, and a PDF
      without pages gives the empty text. */
  lemma SilentPageAddsNothing(p: Option<string>, pages: seq<Option<string>>)
    requires p.None? || p == Some("")
    ensures ExtractTextPdf(PdfPages([p] + pages)) == ExtractTextPdf(PdfPages(pages))
    ensures ExtractTextPdf(PdfPages([])) == Success("")
  {
    assert ([p] + pages)[1..] == pages;
    assert PagesText([p] + pages) == PagesText(pages);
  }

  /** `extract_text_image`: the OCR text, unchanged, or the exception it raised. */
  function ExtractTextImage(outcome: ImageOutcome): (r: Result<string, Exc>)
    ensures r.Success? <==> outcome.OcrText?
    ensures r.Success? ==> r.value == outcome.text
    ensures r.Failure? ==> r.error == outcome.error
  {
    match outcome
    case OcrText(t) => Success(t)
    case OcrRaised(e) => Failure(e)
  }

  /** The dispatch condition `file.filename.lower().endswith(".pdf")`. */
  predicate IsPdfName(filename: string) {
    var l := Lower(filename);
    |l| >= 4 && l[|l| - 4..] == ".pdf"
  }

  /** The raw text of the path the dispatch chooses. */
  function RawText(file: Upload): Result<string, Exc> {
    if IsPdfName(file.filename) then ExtractTextPdf(file.pdf) else ExtractTextImage(file.image)
  }

  /** The error policy of `process_document` applied to the raw text of the chosen path. */
  function FromRawText(filename: string, raw: Result<string, Exc>, now: Timestamp): (r: Result<ExtractedDoc, Exc>)
    ensures r.Failure? <==> raw == Failure(ValueError)
    ensures r.Failure? ==> r.error == ValueError
    ensures r.Success? ==> r.value.filePath == filename && r.value.processedAt == now
    ensures r.Success? ==> AllKept(r.value.extractedText) && Stripped(r.value.extractedText)
    ensures raw == Failure(OtherError) ==> r.Success? && r.value.extractedText == ""
    ensures raw.Success? ==> r.Success? && r.value.extractedText == CleanText(raw.value)
  {
    match raw
    case Success(text) => Success(ExtractedDoc(filename, CleanText(text), now))
    case Failure(ValueError) => Failure(ValueError)
    case Failure(OtherError) => Success(ExtractedDoc(filename, "", now))
  }

  /** `process_document`: the cleaned raw text of the chosen path under the original name.
      A `ValueError` from the chosen path propagates; any other exception gives a document
      with the same name and empty text. */
  function ProcessDocument(file: Upload, now: Timestamp): (r: Result<ExtractedDoc, Exc>)
    ensures r.Failure? <==>
      if IsPdfName(file.filename) then file.pdf == PdfRaised(ValueError) else file.image == OcrRaised(ValueError)
    ensures r.Failure? ==> r.error == ValueError
    ensures r.Success? ==> r.value.filePath == file.filename && r.value.processedAt == now
    ensures r.Success? ==> AllKept(r.value.extractedText) && Stripped(r.value.extractedText)
    ensures IsPdfName(file.filename) && (file.pdf.PdfSyntaxError? || file.pdf == PdfRaised(OtherError)) ==>
      r.Success? && r.value.extractedText == ""
    ensures !IsPdfName(file.filename) && file.image == OcrRaised(OtherError) ==>
      r.Success? && r.value.extractedText == ""
    ensures IsPdfName(file.filename) && file.pdf.PdfPages? ==>
      r.Success? && NonSpace(r.value.extractedText) == RemoveSpecial(Concat(PageWords(file.pdf.pages)))
    ensures !IsPdfName(file.filename) && file.image.OcrText? ==>
      r.Success? && r.value.extractedText == CleanText(file.image.text)
  {
    FromRawText(file.filename, RawText(file), now)
  }

  /** The words of the text of a one-page PDF are the long words of that page. */
  lemma OnePageWords(t: string)
    ensures var r := ExtractTextPdf(PdfPages([Some(t)]));
      r.Success? && Split(r.value) == LongWords(Split(t))
  {
    assert PageWords([Some(t)]) == LongWords(Split(t)) + PageWords([]);
  }

  /** The words of the example page "a an the big cats". */
  lemma ExamplePageSplit()
    ensures Split("a an the big cats") == ["a", "an", "the", "big", "cats"]
  {
    var ws := ["a", "an", "the", "big", "cats"];
    assert JoinWithSpace(ws) == "a an the big cats";
    SplitJoin(ws);
  }

  /** One step of the filter: the first word is kept exactly when it is longer than two
      characters. */
  lemma LongWordsCons(w: string, ws: seq<string>)
    ensures LongWords([w] + ws) == (if |w| > 2 then [w] else []) + LongWords(ws)
  {
    assert ([w] + ws)[1..] == ws;
  }

  /** The long words of the example page. */
  lemma ExampleLongWords()
    ensures LongWords(["a", "an", "the", "big", "cats"]) == ["the", "big", "cats"]
  {
    LongWordsCons("cats", []);
    LongWordsCons("big", ["cats"]);
    LongWordsCons("the", ["big", "cats"]);
    LongWordsCons("an", ["the", "big", "cats"]);
    LongWordsCons("a", ["an", "the", "big", "cats"]);
  }

  /** Words of one or two characters are dropped and the rest keep their order: the words of
      the text of a single page reading "a an the big cats" are "the", "big" and "cats". */
  lemma ShortWordsFiltered()
    ensures var r := ExtractTextPdf(PdfPages([Some("a an the big cats")]));
      r.Success? && Split(r.value) == ["the", "big", "cats"]
  {
    ExamplePageSplit();
    ExampleLongWords();
    OnePageWords("a an the big cats");
  }

  /** A name that does not end in ".pdf" goes to OCR; when opening it as an image fails with
      anything but a `ValueError`, the document keeps its name and has empty text. */
  lemma UnsupportedFileGivesEmptyText(pdf: PdfOutcome, now: Timestamp)
    ensures var r := ProcessDocument(Upload("test.txt", pdf, OcrRaised(OtherError)), now);
      r.Success? && r.value.filePath == "test.txt" && r.value.extractedText == ""
  {
    assert !IsPdfName("test.txt") by {
      assert Lower("test.txt")[4..] == ".txt";
    }
  }
}
