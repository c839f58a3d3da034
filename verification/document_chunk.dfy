/**
 * `DocumentChunk` and its `Metadata`: one passage of a document with the
 * provenance the chunker attaches to it.
 */
module DocumentChunks {
  import opened Wrappers

  /** Every chunk comes from a PDF. */
  const DOCUMENT_TYPE: string := "pdf"

  datatype Metadata = Metadata(
    source: string,
    pageNumber: int,
    chapter: Option<string>,
    heading: Option<string>,
    subheading: Option<string>,
    chunkIndex: int,
    contentLength: int,
    documentType: string)

  /** A chunk; `id` is the random UUID drawn when it was constructed. */
  datatype DocumentChunk = DocumentChunk(id: string, content: string, metadata: Metadata)

  /** What every constructed chunk satisfies: its length field is its content's length and its type is "pdf". */
  predicate WellFormed(c: DocumentChunk) {
    c.metadata.contentLength == |c.content| && c.metadata.documentType == DOCUMENT_TYPE
  }

  /** `Metadata(source, pageNumber, chapter, heading, subheading, chunkIndex, contentLength)`. */
  function NewMetadata(source: string, pageNumber: int, chapter: Option<string>, heading: Option<string>,
                       subheading: Option<string>, chunkIndex: int, contentLength: int): (m: Metadata)
    ensures m.documentType == DOCUMENT_TYPE
    ensures m.source == source && m.pageNumber == pageNumber && m.chunkIndex == chunkIndex
    ensures m.chapter == chapter && m.heading == heading && m.subheading == subheading
    ensures m.contentLength == contentLength
  {
    Metadata(source, pageNumber, chapter, heading, subheading, chunkIndex, contentLength, DOCUMENT_TYPE)
  }

  /**
   * `new DocumentChunk(content, source, pageNumber, chapter, heading, subheading, chunkIndex)`;
   * the UUID the constructor draws is passed in as `id`.
   */
  function NewDocumentChunk(id: string, content: string, source: string, pageNumber: int, chapter: Option<string>,
                            heading: Option<string>, subheading: Option<string>, chunkIndex: int): (c: DocumentChunk)
    ensures WellFormed(c)
    ensures c.id == id && c.content == content
    ensures c.metadata.source == source && c.metadata.pageNumber == pageNumber && c.metadata.chunkIndex == chunkIndex
    ensures c.metadata.chapter == chapter && c.metadata.heading == heading && c.metadata.subheading == subheading
  {
    DocumentChunk(id, content, NewMetadata(source, pageNumber, chapter, heading, subheading, chunkIndex, |content|))
  }
}
