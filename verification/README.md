# Document classifier core in Dafny

A model of the decision logic of a small document-classification service. An uploaded PDF
or image is turned into text, the text is cleaned, the cleaned text is labelled with the
most similar reference category, and an HTTP route wraps it all in status codes. The model
covers five parts of the service:

- `clean_text` (`TextCleaner`, with `Text`, `Words` and `Chars`). Each `re.sub` is modelled
  as the regular-expression engine's left-to-right scan. Properties stated:
  - the output alphabet;
  - no whitespace at either end;
  - the output is never longer than the input;
  - its non-whitespace characters are those of the input with the special characters removed;
  - the match rules of the blank-line and broken-word patterns.
- The extractor (`Extractor`). This covers:
  - the PDF page filter;
  - the dispatch on the lowercased file name;
  - the policy that turns a malformed PDF and most exceptions into empty text, while a
    `ValueError` propagates.
- The classifier's decision rule (`Classifier`): the first best category, relabelled
  "unknown" below the confidence threshold.
- The upload gate `is_allowed_file` (`ValidTypes`). The allowed extensions and the threshold
  come from `Config`.
- The `/classify_file` route (`Routes`): the error table and the chain of checks that
  decides the status code.

Exceptions are values of `Outcomes.Exc`: `ValueError`, or `OtherError` for any other
exception. Things the service gets from libraries are parameters of the model:
- what the PDF and OCR engines make of an upload;
- the similarities the embedding model produces;
- the form Flask parses;
- the current time.

## Model

| member | source | states |
|---|---|---|
| TextCleaner.CollapseSpaces | src/utils/clean_text.py:8 | After `\s+` becomes " ", every whitespace character is a plain space and is not followed by whitespace. The non-whitespace characters are unchanged, the text does not grow, and the first character is whitespace exactly when it was before. |
| TextCleaner.CollapseSingleSpaced | src/utils/clean_text.py:8 | The collapse leaves a single-spaced string unchanged, so applying line 8 twice is the same as applying it once. |
| TextCleaner.BlankLinesMatchSpec | src/utils/clean_text.py:9 | The match the blank-line scan takes at a position is the longest match of `\n\s*\n` there, and the scan finds none exactly when the pattern matches nowhere at that position. |
| TextCleaner.BlankLinesMatch | src/utils/clean_text.py:9 | Where `\n\s*\n` matches at a position, the end the engine takes. The match is non-empty and lies inside the text. `BlankLinesMatchSpec` shows it is the longest match. |
| TextCleaner.BlankLinesFrom | src/utils/clean_text.py:9 | The scan of `re.sub` for the blank-line pattern from a position on. Where no newline follows that position, it copies the rest unchanged. |
| TextCleaner.CollapseBlankLines | src/utils/clean_text.py:9 | The blank-line rewrite leaves a text without newlines unchanged. |
| TextCleaner.BlankLinesRewriteIsNoOp | src/utils/clean_text.py:8-9 | The `\n\s*\n` rewrite leaves the stripped result of the whitespace collapse unchanged, so line 9 is a plain strip. |
| TextCleaner.CollapseStripIsJoinSplit | src/utils/clean_text.py:8-9 | The collapse followed by the strip equals `" ".join(text.split())`. |
| TextCleaner.SplitCollapseSpaces | src/utils/clean_text.py:8 | The whitespace collapse keeps the words of the text. |
| TextCleaner.NormalIsJoinSplit | src/utils/clean_text.py:8-9 | A single-spaced string with no whitespace at either end is the space-join of its words. |
| TextCleaner.ChainEndLongest | src/utils/clean_text.py:11 | Every chain `\w(?:\s\w)*` that starts at a position ends no later than the longest one, and a shorter chain is followed by whitespace. |
| TextCleaner.BrokenWordMatchSpec | src/utils/clean_text.py:11 | The broken-word match taken at a position is the longest span there that is a chain of at least two single word characters, with no word character before or after it. The scan takes no match exactly when no such span starts there. |
| TextCleaner.BrokenWordMatch | src/utils/clean_text.py:11 | Where the broken-word pattern matches at a position, the end the engine takes, after giving back one pair when a word character follows the longest chain. The match is non-empty. `BrokenWordMatchSpec` shows it is the longest match. |
| TextCleaner.RemoveSpaceChars | src/utils/clean_text.py:11 | `m.group(0).replace(" ", "")` leaves no plain space and does not grow the text. `RemoveSpaceCharsKeepsOthers` shows every other character keeps its count. |
| TextCleaner.RemoveSpaceCharsKeepsOthers | src/utils/clean_text.py:11 | `replace(" ", "")` keeps every other character as often as it occurs, and so keeps the non-whitespace characters. |
| TextCleaner.JoinFrom | src/utils/clean_text.py:10-11 | The scan of the broken-word rewrite from a position on keeps the non-whitespace characters in order and does not grow the text. `JoinFromCopies` and `JoinFromAtMatch` pin down where it changes the text. |
| TextCleaner.JoinBrokenWords | src/utils/clean_text.py:10-11 | The whole broken-word rewrite keeps the non-whitespace characters in order and does not grow the text. |
| TextCleaner.JoinFromCopies | src/utils/clean_text.py:11 | Text outside a match is copied unchanged: where no broken word starts anywhere in a stretch, the scan copies that stretch character for character and carries on after it. |
| TextCleaner.JoinFromAtMatch | src/utils/clean_text.py:11 | Where the longest broken word at the scan position ends at `e`, exactly that span is replaced by its characters without the spaces, and the scan carries on at `e`. |
| TextCleaner.JoinBrokenWordsNoMatch | src/utils/clean_text.py:11 | A text in which no broken word starts passes the rewrite unchanged, spaces included. |
| TextCleaner.NoLoneWordCharNoMatch | src/utils/clean_text.py:10-11 | A broken word starts with a word character that has no word character on either side, so a text without such a character has no broken word: separate words of two or more word characters are never merged. |
| TextCleaner.JoinFromKeepsPlainSpaced | src/utils/clean_text.py:11 | The broken-word rewrite adds no whitespace: where every whitespace character of the input is a plain space, the same holds for the output. |
| CleanTextExamples.SpacedWordJoined | src/utils/clean_text.py:10-11 | Two or more word characters spelled out with single spaces are joined back into the word. |
| CleanTextExamples.InvoiceIsJoined | src/utils/clean_text.py:10 | "i n v o i c e" becomes "invoice". |
| CleanTextExamples.SpacedInvoice | src/utils/clean_text.py:10 | "invoice" spelled out is "i n v o i c e". |
| CleanTextExamples.CleanTextSpaced | src/utils/clean_text.py:3-15 | The whole `clean_text` turns two or more word characters, spelled out with single spaces, back into the word. |
| CleanTextExamples.CleanTextInvoice | src/utils/clean_text.py:10 | `clean_text` of "invoice" spelled out, which `SpacedInvoice` shows is "i n v o i c e", is "invoice". |
| CleanTextExamples.ChainBeforeLongerWordMatch | src/utils/clean_text.py:11 | In "a b cd" the match at the start is "a b": the chain "a b c" runs into "d", so the engine gives back one pair. |
| CleanTextExamples.ChainBeforeLongerWord | src/utils/clean_text.py:11 | "a b cd" becomes "ab cd". |
| TextCleaner.RemoveSpecial | src/utils/clean_text.py:13 | After the filter, every character is a word character, whitespace, or one of `. , : / -`, and the text does not grow. |
| TextCleaner.RemoveSpecialAppend | src/utils/clean_text.py:13 | The filter works character by character: filtering a concatenation filters each part, so the kept characters keep their order. |
| TextCleaner.RemoveSpecialSingle | src/utils/clean_text.py:13 | One character is kept exactly when it is a word character, whitespace, or one of `. , : / -`. |
| TextCleaner.RemoveSpecialKeepsKept | src/utils/clean_text.py:13 | The filter removes only special characters: every kept character occurs as often as in the input. |
| TextCleaner.RemoveSpecialAllKept | src/utils/clean_text.py:13 | A text made only of kept characters passes the filter unchanged. |
| TextCleaner.NonSpaceRemoveSpecial | src/utils/clean_text.py:13 | Filtering commutes with taking the non-whitespace characters. |
| TextCleaner.CleanTextKeepsClean | src/utils/clean_text.py:3-15 | Text that is already clean comes through `clean_text` unchanged: single-spaced, with no whitespace at either end, only kept characters and no lone word character. The spaces between its words stay where they are. |
| CleanTextExamples.CleanTextKeepsShortWords | src/utils/clean_text.py:3-15 | `clean_text("ab cd") == "ab cd"`: two short separate words keep the space between them. |
| Text.Strip | src/utils/clean_text.py:15 | `str.strip()` returns the middle slice of the input and drops only whitespace around it. The result has no whitespace at either end, and the non-whitespace characters are unchanged. |
| Text.StripStripped | src/utils/clean_text.py:15 | `strip()` leaves a text with no whitespace at either end unchanged. |
| TextCleaner.CleanText | src/utils/clean_text.py:3-15 | The output consists only of word characters, whitespace and `. , : / -`. Its only whitespace character is the plain space, there is no whitespace at either end, and it is never longer than the input, so `clean_text("")` is "". Its non-whitespace characters are exactly those of the input with the special characters removed. |
| TextCleaner.CleanTextStages | src/utils/clean_text.py:8-15 | `clean_text` is the collapse and strip, then the broken-word rewrite, the filter and the final strip: the blank-line pass can be dropped. |
| Words.Split | src/services/document_extractor.py:23 | `str.split()` gives non-empty whitespace-free words whose concatenation is exactly the non-whitespace characters of the input. |
| Words.SplitJoin | src/services/document_extractor.py:23-25 | Splitting undoes joining: `" ".join(ws).split() == ws` when every element is a word. |
| Words.JoinWithSpace | src/services/document_extractor.py:25 | `" ".join(ws)`: a list of one word is that word, and longer lists put one space between neighbours. `Words.SplitJoin` shows that `split()` undoes it. |
| Words.SplitSeparated | src/services/document_extractor.py:25 | A whitespace character separates the words on its two sides: the words of `a + "\n" + b` are those of `a` followed by those of `b`. |
| Words.SplitStrip | src/services/document_extractor.py:27 | Stripping keeps the words. |
| Extractor.LongWords | src/services/document_extractor.py:24 | Every word the filter keeps is longer than two characters. |
| Extractor.LongWordsMembers | src/services/document_extractor.py:24 | A word is among the kept words exactly when it is in the input and longer than two characters. Order and repeats are stated by `LongWordsAppend` and `LongWordsSingle`. |
| Extractor.LongWordsAppend | src/services/document_extractor.py:24 | The filter works word by word: filtering a concatenation filters each part. So the kept words keep their order, and a repeated word is kept every time. |
| Extractor.LongWordsSingle | src/services/document_extractor.py:24 | One word is kept exactly when it is longer than two characters. |
| Extractor.PageLine | src/services/document_extractor.py:23-25 | What one page with text adds ends in a newline, and its words are the page's long words. |
| Extractor.PagesText | src/services/document_extractor.py:17-25 | The page loop's text is empty or ends in a newline. `PagesTextWords` gives its words. |
| Extractor.PageWords | src/services/document_extractor.py:19-25 | The reference reading of the page filter: the long words of each page, pages in order and words in order. Each is a word longer than two characters. |
| Extractor.PagesTextWords | src/services/document_extractor.py:19-25 | The words of the text the page loop builds are exactly the reference page words, in order. |
| Extractor.SilentPageAddsNothing | src/services/document_extractor.py:17-21 | A page whose text is `None` or empty adds nothing, and a PDF without pages gives "". |
| Extractor.ExtractTextPdf | src/services/document_extractor.py:14-33 | A malformed PDF gives "", and any other exception propagates. Otherwise the words of the text are the reference page words, its non-whitespace characters are their concatenation, and it has no whitespace at either end. |
| Extractor.PdfTextEmptyIffNoLongWords | src/services/document_extractor.py:17-27 | The PDF text is empty exactly when no page has a word longer than two characters. |
| Extractor.ExtractTextImage | src/services/document_extractor.py:35-44 | The OCR text is returned unchanged, and an exception from opening or reading the image propagates. |
| Extractor.IsPdfName | src/services/document_extractor.py:50 | The dispatch condition: the lowercased name ends in ".pdf". `Routes.PdfDispatchMatchesGate` relates it to the gate's extension. |
| Chars.Lower | src/services/document_extractor.py:50 | ASCII `str.lower()`: the same length, with each character lowercased by `LowerChar`. The gate's lowercasing at src/utils/valid_types.py:4 is the same function. |
| Extractor.RawText | src/services/document_extractor.py:50-53 | The raw text comes from the PDF path for a ".pdf" name and from OCR otherwise. `ProcessDocument`'s contract states the outcome of each path. |
| Extractor.OnePageWords | src/services/document_extractor.py:19-27 | The words of a one-page PDF's text are the long words of that page. |
| Extractor.ShortWordsFiltered | tests/unit/test_extractor.py:128-144 | A page reading "a an the big cats" gives the words "the", "big" and "cats". |
| Extractor.FromRawText | src/services/document_extractor.py:55-62 | The result is a failure exactly when the raw text is a `ValueError`. Any other exception gives empty text under the same name. A raw text gives its cleaned form under the same name. |
| Extractor.ProcessDocument | src/services/document_extractor.py:46-62 | The PDF path is taken exactly when the lowercased name ends in ".pdf", and only a `ValueError` from the chosen path propagates. A malformed PDF or another exception gives empty text under the same name. The text is always cleaned, with no whitespace at either end. A PDF's non-whitespace characters are the filtered page words' characters. |
| Extractor.UnsupportedFileGivesEmptyText | tests/unit/test_extractor.py:101-113 | "test.txt" goes to OCR, and when that fails it gives a document named "test.txt" with empty text. |
| Classifier.BestIndex | src/services/document_classifier.py:48 | `max` with a key returns the first entry with the highest similarity. |
| Classifier.FirstMaxUnique | src/services/document_classifier.py:48 | There is only one first maximum. |
| Classifier.ClassifyDocument | src/services/document_classifier.py:47-64 | An empty score map raises `ValueError`. Otherwise the confidence is the highest similarity and the label is the first category that reaches it. The label is "unknown" below the threshold and is always "unknown" or one of the categories. Name, text and processing time are copied. |
| Classifier.UnknownIffBelowThreshold | src/services/document_classifier.py:52-53 | When no category is itself "unknown", the label is "unknown" exactly when the best similarity is strictly below 0.3. A similarity of exactly 0.3 keeps its category. |
| Classifier.ClassificationDependsOnlyOnScores | tests/unit/test_classifier.py:79-87 | The same similarities give the same label and confidence, whatever the document and the time. |
| Classifier.ClassifierExamples | src/services/document_classifier.py:48-53 | A tie goes to the earlier category, a best similarity of 0.3 keeps its category, and 0.29 becomes "unknown" with confidence 0.29. |
| ValidTypes.LastDot | src/utils/valid_types.py:4 | The position found is a '.' with no '.' after it, and none is found only when the name has no '.'. |
| ValidTypes.Extension | src/utils/valid_types.py:4 | `rsplit('.', 1)[1]` behind the `'.' in filename` guard: the text after the last dot. `ExtensionIsLastPart` states what that means. |
| ValidTypes.ExtensionIsLastPart | src/utils/valid_types.py:4 | There is no extension exactly when the name has no '.'. Otherwise the name is a stem, a '.', and the extension, and the extension contains no '.'. |
| ValidTypes.IsAllowedFile | src/utils/valid_types.py:3-4 | `is_allowed_file`: the extension, lowercased, is in the allow-list of src/config.py line 16. `AllowedIffLastDotExtension` states it through the last dot. |
| ValidTypes.AllowedIffLastDotExtension | src/utils/valid_types.py:4 | A name is allowed exactly when the text after its last dot, lowercased, is "pdf", "png" or "jpg". |
| ValidTypes.NoDotNotAllowed | src/utils/valid_types.py:4 | A name without a '.' is never allowed. |
| ValidTypes.LastExtensionCounts | src/utils/valid_types.py:4 | Only the last extension counts, in any letter case: "x.exe.PDF" is allowed and "x.pdf.exe" is not. |
| ValidTypes.TrailingDotNotAllowed | src/utils/valid_types.py:4 | "x." is not allowed. |
| ValidTypes.EmptyStemAllowed | src/utils/valid_types.py:4 | ".pdf" is allowed and "pdf" is not. |
| Routes.ErrorKeyOf | src/api/routes.py:11-16 | Reading the error table backwards: a status belongs to at most one error key, and the key found has that status. |
| Routes.HttpError | src/api/routes.py:11-16 | The `HTTP_ERRORS` table: four keys, each with its message and status. `ErrorKeyOf` reads it backwards. |
| Routes.ErrorResponse | src/api/routes.py:19-21 | `error_response(key)` is an error body with the key's message, and its status leads back to the key. |
| Routes.ErrorKeyOfHttpError | src/api/routes.py:11-21 | Each error key has its own status and message. |
| Routes.Pipeline | src/api/routes.py:42-49 | The inner block succeeds exactly when extraction succeeds and the similarities are available and non-empty. Its document keeps the upload's name and the cleaned text. |
| Routes.ClassifyFileRoute | src/api/routes.py:24-59 | The route's status code depends on the request:<br>• 400 exactly when the file part is missing or the name is empty;<br>• 415 exactly when a named file has a name the gate rejects;<br>• 413 exactly when the request is too large;<br>• 200, with the classified document, exactly when an allowed file gets through extraction and classification;<br>• 500 otherwise.<br>Every error body carries its status's message. |
| Routes.PdfDispatchMatchesGate | src/services/document_extractor.py:50 | The extractor takes the PDF path exactly when the name's last extension, lowercased, is "pdf". So an allowed name that is not a PDF has the extension "png" or "jpg". |
| Routes.AllowedRequestReachesPipeline | src/api/routes.py:38-53 | A request with an allowed name gets 200 with the pipeline's document when extraction and classification succeed, and 500 with the processing error otherwise. |
| Routes.MissingReferenceTextsFails | src/services/document_classifier.py:18 | As written, building the classifier raises, and every upload that passes the gate is answered 500 with the processing error. |
| Routes.AllowedUploadClassified | src/api/routes.py:42-49 | With the similarities available, an allowed upload whose extraction succeeds is answered 200 with its classification. |

## Left out

- Unicode character classes. `\w` is ASCII `[A-Za-z0-9_]` and `lower()` is ASCII lowercasing. Whitespace is exactly Python's `str.isspace` set, which is what `\s` and `str.split()` use.
- Idempotence of `clean_text` is not stated, because it does not hold: the filter can leave two spaces between single letters, and a second pass joins them.
- The embedding model and `compute_similarity` (numpy floating point, possibly NaN). The similarities are given reals, in the reference map's order, and the `float()` conversion is the identity.
- The reference texts and their similarities are a parameter. As written, `src/config.py` defines no `REFERENCE_TEXTS`, so building the classifier raises and every allowed upload gets 500 (see "## Findings").
- pdfplumber, PIL and pytesseract: what they make of an upload is an outcome value (pages, malformed PDF, or an exception).
- `datetime.now()` is a parameter, and `to_dict`/`isoformat` and the JSON encoding are not modelled. A response body is the error message or the classified document itself.
- Logging is not modelled.
- Flask app construction and `MAX_CONTENT_LENGTH` enforcement: the parsed form is an outcome (file part or none, too large, or unreadable).
- Building the extractor and the classifier for each request is a performance matter. Its possible exception is part of the similarities parameter.
- A batch route: `src/api/routes.py` has none.

## Findings

| source | as written | input that shows it | evidently intended | confidence | as-written member | corrected member |
|---|---|---|---|---|---|---|
| src/services/document_classifier.py:18 | `DocumentClassifier()` reads `config.REFERENCE_TEXTS`, but the `Config` dataclass (src/config.py:5-19) has no such field. The constructor raises `AttributeError` at src/api/routes.py:44, inside the inner `try`. | any upload the gate accepts, e.g. "a.pdf" | the configuration supplies the reference texts, and an allowed upload that extracts cleanly is answered 200 with its classification | high for the missing field; not executed | Routes.MissingReferenceTextsFails | Routes.AllowedUploadClassified |
