/**
 * `DocumentService.upsertDocumentChunks`: check that every chunk has an
 * embedding, clear the collection, then upsert one point per chunk in a
 * single batch. The store calls are returned in order; applying them to a
 * store gives the store afterwards.
 */
module DocumentUpload {
  import opened Wrappers
  import opened DocumentChunks
  import opened VectorStore

  /** The keys every metadata map has. */
  const BASE_KEYS: set<string> := {"source", "page_number", "chunk_index", "content_length", "document_type"}

  /** The hierarchy keys, present only for non-null fields. */
  const HIERARCHY_KEYS: set<string> := {"chapter", "heading", "subheading"}

  /** The value the metadata map holds under `k`, if any. */
  function MetadataValue(md: Metadata, k: string): Option<JavaValue> {
    if k == "source" then Some(JString(md.source))
    else if k == "page_number" then Some(JInteger(md.pageNumber))
    else if k == "chunk_index" then Some(JInteger(md.chunkIndex))
    else if k == "content_length" then Some(JInteger(md.contentLength))
    else if k == "document_type" then Some(JString(md.documentType))
    else if k == "chapter" && md.chapter.Some? then Some(JString(md.chapter.value))
    else if k == "heading" && md.heading.Some? then Some(JString(md.heading.value))
    else if k == "subheading" && md.subheading.Some? then Some(JString(md.subheading.value))
    else None
  }

  /** The metadata map of one chunk: five fields always, each hierarchy field only when it is non-null. */
  function MetadataMap(c: DocumentChunk): (m: map<string, JavaValue>)
    ensures forall k :: k in m <==> MetadataValue(c.metadata, k).Some?
    ensures forall k :: k in m ==> m[k] == MetadataValue(c.metadata, k).value
  {
    map k | k in BASE_KEYS + HIERARCHY_KEYS && MetadataValue(c.metadata, k).Some? :: MetadataValue(c.metadata, k).value
  }

  /** The map has the five base fields and no key beyond the hierarchy keys. */
  lemma MetadataKeys(c: DocumentChunk)
    ensures BASE_KEYS <= MetadataMap(c).Keys <= BASE_KEYS + HIERARCHY_KEYS
  {
  }

  /** Each hierarchy key is present exactly when its field is non-null. */
  lemma MetadataHierarchy(c: DocumentChunk)
    ensures "chapter" in MetadataMap(c) <==> c.metadata.chapter.Some?
    ensures "heading" in MetadataMap(c) <==> c.metadata.heading.Some?
    ensures "subheading" in MetadataMap(c) <==> c.metadata.subheading.Some?
  {
  }

  /** No metadata value is of a type `createDocumentPoint` drops, and none is stored under "content". */
  lemma MetadataAllCopied(c: DocumentChunk)
    ensures "content" !in MetadataMap(c)
    ensures forall k :: k in MetadataMap(c) ==> !MetadataMap(c)[k].JOther?
  {
  }

  /** The point of one chunk, built by `createDocumentPoint`. */
  function ChunkPoint(c: DocumentChunk, embedding: seq<real>): Point {
    CreateDocumentPoint(c.id, c.content, embedding, MetadataMap(c))
  }

  /** `upsertDocumentChunks(chunks, embeddings)`: the store calls it makes, or the exception it throws. */
  function UpsertDocumentChunks(chunks: seq<DocumentChunk>, embeddings: seq<seq<real>>): (r: Result<seq<StoreCall>>)
    ensures r.Err? <==> |chunks| != |embeddings|
    ensures r.Err? ==> r.failure == IllegalArgument
    ensures r.Ok? ==> |r.value| == 2 && r.value[0] == ClearAll && r.value[1].Upsert?
    ensures r.Ok? ==> |r.value[1].points| == |chunks|
    ensures r.Ok? ==> forall i :: 0 <= i < |chunks| ==> r.value[1].points[i] == ChunkPoint(chunks[i], embeddings[i])
  {
    if |chunks| != |embeddings| then Err(IllegalArgument)
    else Ok([ClearAll, Upsert(seq(|chunks|, i requires 0 <= i < |chunks| => ChunkPoint(chunks[i], embeddings[i])))])
  }

  /**
   * Every stored payload carries the chunk's content and each metadata entry,
   * and nothing else, read back as the result maps show them.
   */
  lemma ChunkPayload(c: DocumentChunk, embedding: seq<real>)
    ensures var back := ReadPayload(ChunkPoint(c, embedding).payload);
      && back.Keys == {"content"} + MetadataMap(c).Keys
      && back["content"] == JString(c.content)
      && forall k :: k in MetadataMap(c) ==> back[k] == ReadBack(MetadataMap(c)[k])
  {
    MetadataAllCopied(c);
    CopiedPayloadRoundTrip(c.content, MetadataMap(c));
  }

  /** After the upload the store holds exactly the new chunks' points: nothing that was there before survives. */
  lemma UploadReplacesStore(store: Store, chunks: seq<DocumentChunk>, embeddings: seq<seq<real>>)
    requires |chunks| == |embeddings|
    ensures var after := ApplyAll(store, UpsertDocumentChunks(chunks, embeddings).value);
      after.Keys == set c | c in chunks :: c.id
  {
    var calls := UpsertDocumentChunks(chunks, embeddings).value;
    var points := calls[1].points;
    assert calls == [ClearAll, Upsert(points)];
    ClearThenUpsert(store, points);
    ChunkIds(chunks, points);
  }

  /** A batch with one point per chunk, each carrying its chunk's id, has exactly the chunks' ids. */
  lemma ChunkIds(chunks: seq<DocumentChunk>, points: seq<Point>)
    requires |points| == |chunks|
    requires forall i :: 0 <= i < |chunks| ==> points[i].id == chunks[i].id
    ensures Ids(points) == set c | c in chunks :: c.id
  {
    forall k | k in Ids(points)
      ensures k in set c | c in chunks :: c.id
    {
      var i :| 0 <= i < |points| && points[i].id == k;
      assert chunks[i] in chunks;
    }
    forall k | k in set c | c in chunks :: c.id
      ensures k in Ids(points)
    {
      var i :| 0 <= i < |chunks| && chunks[i].id == k;
      assert points[i] in points;
    }
  }

  /** The point stored under a chunk's id is that chunk's, paired with its own embedding, unless a later chunk reuses the id. */
  lemma UploadPairsPositionally(store: Store, chunks: seq<DocumentChunk>, embeddings: seq<seq<real>>, i: nat)
    requires |chunks| == |embeddings| && i < |chunks|
    requires forall j :: i < j < |chunks| ==> chunks[j].id != chunks[i].id
    ensures var after := ApplyAll(store, UpsertDocumentChunks(chunks, embeddings).value);
      chunks[i].id in after && after[chunks[i].id] == ChunkPoint(chunks[i], embeddings[i])
  {
    var calls := UpsertDocumentChunks(chunks, embeddings).value;
    var points := calls[1].points;
    assert calls == [ClearAll, Upsert(points)];
    ClearThenUpsert(store, points);
    UpsertLastWins(map[], points, i);
  }
}
