/** `DocumentClassifier.classify_document` after the embedding step: the first category with
    the highest similarity wins, and it is relabelled "unknown" when that similarity is below
    the confidence threshold. The embedding model and the cosine similarity are not modelled;
    the similarities of the document to each reference category come in as given reals, in
    the reference map's iteration order. */
module Classifier {
  import opened Outcomes
  import opened Config
  import opened Documents

  /** One entry of `classification_results`: a category and its similarity to the document. */
  datatype Score = Score(category: string, similarity: real)

  /** The label that replaces a category whose similarity is too low. */
  const Unknown: string := "unknown"

  /** `i` is where Python's `max(..., key=...)` stops: no entry scores higher, and every entry
      before `i` scores strictly lower. */
  predicate IsFirstMax(scores: seq<Score>, i: int) {
    && 0 <= i < |scores|
    && (forall j :: 0 <= j < |scores| ==> scores[j].similarity <= scores[i].similarity)
    && (forall j :: 0 <= j < i ==> scores[j].similarity < scores[i].similarity)
  }

  /** The index `max` returns: a left-to-right scan that replaces the current best only by a
      strictly larger similarity. */
  function BestIndex(scores: seq<Score>): (i: nat)
    requires |scores| > 0
    ensures IsFirstMax(scores, i)
  {
    if |scores| == 1 then 0
    else
      var prefix := scores[..|scores| - 1];
      var b := BestIndex(prefix);
      assert forall j :: 0 <= j < |prefix| ==> prefix[j] == scores[j];
      if scores[|scores| - 1].similarity > scores[b].similarity then |scores| - 1 else b
  }

  /** There is only one first maximum, so `IsFirstMax` pins down the winner completely. */
  lemma FirstMaxUnique(scores: seq<Score>, i: int, j: int)
    requires IsFirstMax(scores, i) && IsFirstMax(scores, j)
    ensures i == j
  {
    assert scores[i].similarity == scores[j].similarity;
  }

  /** `classify_document` on the given similarities. An empty map makes `max` raise
      `ValueError`. Otherwise the reported confidence is the highest similarity, the label is
      the first category that reaches it, or "unknown" when it is below the threshold, and the
      name, text and processing time are copied from the extracted document. */
  function ClassifyDocument(doc: ExtractedDoc, scores: seq<Score>, now: Timestamp): (r: Result<ClassifiedDoc, Exc>)
    ensures r.Failure? <==> scores == []
    ensures r.Failure? ==> r.error == ValueError
    ensures r.Success? ==>
      && r.value.fileName == doc.filePath
      && r.value.processedAt == doc.processedAt
      && r.value.textContent == doc.extractedText
      && r.value.classifiedAt == now
    ensures r.Success? ==> exists i :: IsFirstMax(scores, i) && r.value.confidence == scores[i].similarity
    ensures r.Success? && r.value.confidence < ConfidenceThreshold ==> r.value.fileType == Unknown
    ensures r.Success? && r.value.confidence >= ConfidenceThreshold ==>
      forall i :: IsFirstMax(scores, i) ==> r.value.fileType == scores[i].category
    ensures r.Success? ==>
      r.value.fileType == Unknown || exists j :: 0 <= j < |scores| && scores[j].category == r.value.fileType
  {
    if scores == [] then Failure(ValueError)
    else
      var best := BestIndex(scores);
      var confidence := scores[best].similarity;
      var docType := if confidence < ConfidenceThreshold then Unknown else scores[best].category;
      forall i | IsFirstMax(scores, i)
        ensures i == best
      {
        FirstMaxUnique(scores, i, best);
      }
      Success(ClassifiedDoc(doc.filePath, docType, confidence, doc.processedAt, doc.extractedText, now))
  }

  /** When no category is itself called "unknown", the label is "unknown" exactly when the best
      similarity is strictly below the threshold; a similarity equal to the threshold keeps its
      category. */
  lemma UnknownIffBelowThreshold(doc: ExtractedDoc, scores: seq<Score>, now: Timestamp)
    requires scores != []
    requires forall j :: 0 <= j < |scores| ==> scores[j].category != Unknown
    ensures var r := ClassifyDocument(doc, scores, now);
      r.Success? && (r.value.fileType == Unknown <==> r.value.confidence < ConfidenceThreshold)
  {
    var r := ClassifyDocument(doc, scores, now);
    var i :| IsFirstMax(scores, i) && r.value.confidence == scores[i].similarity;
  }

  /** The decision depends on the similarities alone: two documents with the same similarities
      get the same label and the same confidence. */
  lemma ClassificationDependsOnlyOnScores(d1: ExtractedDoc, d2: ExtractedDoc, scores: seq<Score>, t1: Timestamp, t2: Timestamp)
    requires scores != []
    ensures var r1 := ClassifyDocument(d1, scores, t1);
      var r2 := ClassifyDocument(d2, scores, t2);
      r1.Success? && r2.Success?
      && r1.value.fileType == r2.value.fileType
      && r1.value.confidence == r2.value.confidence
  {
    var r1 := ClassifyDocument(d1, scores, t1);
    var r2 := ClassifyDocument(d2, scores, t2);
    var i :| IsFirstMax(scores, i) && r1.value.confidence == scores[i].similarity;
    var j :| IsFirstMax(scores, j) && r2.value.confidence == scores[j].similarity;
    FirstMaxUnique(scores, i, j);
  }

  /** Ties go to the earlier category, and a best similarity exactly at the threshold keeps
      its category while one just below it does not. */
  lemma ClassifierExamples(doc: ExtractedDoc, now: Timestamp)
    ensures var r := ClassifyDocument(doc, [Score("invoice", 0.8), Score("bank_statement", 0.8)], now);
      r.Success? && r.value.fileType == "invoice" && r.value.confidence == 0.8
    ensures var r := ClassifyDocument(doc, [Score("invoice", 0.1), Score("drivers_license", 0.3)], now);
      r.Success? && r.value.fileType == "drivers_license" && r.value.confidence == 0.3
    ensures var r := ClassifyDocument(doc, [Score("invoice", 0.29)], now);
      r.Success? && r.value.fileType == Unknown && r.value.confidence == 0.29
  {
    var s1 := [Score("invoice", 0.8), Score("bank_statement", 0.8)];
    assert IsFirstMax(s1, 0);
    var s2 := [Score("invoice", 0.1), Score("drivers_license", 0.3)];
    assert IsFirstMax(s2, 1);
    var s3 := [Score("invoice", 0.29)];
    assert IsFirstMax(s3, 0);
    var r1 := ClassifyDocument(doc, s1, now);
    var i1 :| IsFirstMax(s1, i1) && r1.value.confidence == s1[i1].similarity;
    FirstMaxUnique(s1, i1, 0);
    var r2 := ClassifyDocument(doc, s2, now);
    var i2 :| IsFirstMax(s2, i2) && r2.value.confidence == s2[i2].similarity;
    FirstMaxUnique(s2, i2, 1);
    var r3 := ClassifyDocument(doc, s3, now);
    var i3 :| IsFirstMax(s3, i3) && r3.value.confidence == s3[i3].similarity;
    FirstMaxUnique(s3, i3, 0);
  }
}
