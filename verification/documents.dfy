/** The records that flow through the pipeline. */
module Documents {

  /** A `datetime` value; the model never inspects it, it only copies it. */
  datatype Timestamp = Timestamp(ticks: int)

  /** `ExtractedDoc`: an upload's name, its cleaned text and when it was processed. */
  datatype ExtractedDoc = ExtractedDoc(filePath: string, extractedText: string, processedAt: Timestamp)

  /** `ClassifiedDoc`: the extracted document with its label and the winning similarity. */
  datatype ClassifiedDoc = ClassifiedDoc(
    fileName: string,
    fileType: string,
    confidence: real,
    processedAt: Timestamp,
    textContent: string,
    classifiedAt: Timestamp)
}
