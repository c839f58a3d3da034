/**
 * The older `QdrantService.upsertDocumentChunks` of the PDF-processing
 * module: it builds each payload field by field and stores the embedding as
 * the named vector "fast-bge-small-en-v1.5", and it upserts without clearing
 * the collection first.
 */
module LegacyQdrant {
  import opened Wrappers
  import opened DocumentChunks
  import opened VectorStore
  import opened DocumentUpload

  /** The name the collection's vector is stored under. */
  const VECTOR_NAME: string := "fast-bge-small-en-v1.5"

  /** The keys this service may write. */
  const LEGACY_KEYS: set<string> := {"content", "source", "page_number", "chunk_index", "content_length",
                                     "document_type", "chapter", "heading", "subheading"}

  /** The value the service puts under `k`: the six fixed fields, then each hierarchy field only when non-null. */
  function LegacyValue(c: DocumentChunk, k: string): Option<StoreValue> {
    var md := c.metadata;
    if k == "content" then Some(StringValue(c.content))
    else if k == "source" then Some(StringValue(md.source))
    else if k == "page_number" then Some(IntegerValue(md.pageNumber))
    else if k == "chunk_index" then Some(IntegerValue(md.chunkIndex))
    else if k == "content_length" then Some(IntegerValue(md.contentLength))
    else if k == "document_type" then Some(StringValue(md.documentType))
    else if k == "chapter" && md.chapter.Some? then Some(StringValue(md.chapter.value))
    else if k == "heading" && md.heading.Some? then Some(StringValue(md.heading.value))
    else if k == "subheading" && md.subheading.Some? then Some(StringValue(md.subheading.value))
    else None
  }

  /** The payload as this service writes it, field by field. */
  function LegacyPayload(c: DocumentChunk): (p: Payload)
    ensures forall k :: k in p <==> LegacyValue(c, k).Some?
    ensures forall k :: k in p ==> p[k] == LegacyValue(c, k).value
  {
    map k | k in LEGACY_KEYS && LegacyValue(c, k).Some? :: LegacyValue(c, k).value
  }

  /** The point of one chunk: its id, its embedding as the named vector, its payload. */
  function LegacyPoint(c: DocumentChunk, embedding: seq<real>): Point {
    Point(c.id, Named(map[VECTOR_NAME := embedding]), LegacyPayload(c))
  }

  /** `upsertDocumentChunks(chunks, embeddings)`: one upsert of every chunk's point, or the exception. */
  function LegacyUpsert(chunks: seq<DocumentChunk>, embeddings: seq<seq<real>>): (r: Result<seq<StoreCall>>)
    ensures r.Err? <==> |chunks| != |embeddings|
    ensures r.Err? ==> r.failure == IllegalArgument
    ensures r.Ok? ==> |r.value| == 1 && r.value[0].Upsert?
    ensures r.Ok? ==> |r.value[0].points| == |chunks|
    ensures r.Ok? ==> forall i :: 0 <= i < |chunks| ==> r.value[0].points[i] == LegacyPoint(chunks[i], embeddings[i])
  {
    if |chunks| != |embeddings| then Err(IllegalArgument)
    else Ok([Upsert(seq(|chunks|, i requires 0 <= i < |chunks| => LegacyPoint(chunks[i], embeddings[i])))])
  }

  /** Both services store the same payload for a chunk; only the vector's shape differs. */
  lemma PayloadsAgree(c: DocumentChunk, embedding: seq<real>)
    ensures LegacyPoint(c, embedding).payload == ChunkPoint(c, embedding).payload
    ensures LegacyPoint(c, embedding).id == ChunkPoint(c, embedding).id
    ensures LegacyPoint(c, embedding).vectors == Named(map[VECTOR_NAME := embedding])
    ensures ChunkPoint(c, embedding).vectors == Unnamed(embedding)
  {
    var legacy := LegacyPayload(c);
    var current := DocumentPayload(c.content, MetadataMap(c));
    MetadataAllCopied(c);
    forall k
      ensures k in legacy <==> k in current
      ensures k in legacy ==> legacy[k] == current[k]
    {
      ValueAgrees(c, k);
    }
    assert legacy.Keys == current.Keys;
  }

  /** Under each key the service writes what the metadata map holds there, as the newer service converts it. */
  lemma ValueAgrees(c: DocumentChunk, k: string)
    ensures k == "content" ==> LegacyValue(c, k) == Some(StringValue(c.content))
    ensures k != "content" && k !in MetadataMap(c) ==> LegacyValue(c, k).None?
    ensures k != "content" && k in MetadataMap(c) ==> LegacyValue(c, k) == ToStoreValue(MetadataMap(c)[k])
  {
  }

  /** Points already stored survive the upload unless a chunk reuses their id; the chunks' ids are added. */
  lemma LegacyUploadKeeps(store: Store, chunks: seq<DocumentChunk>, embeddings: seq<seq<real>>, k: string)
    requires |chunks| == |embeddings| && k in store
    requires forall i :: 0 <= i < |chunks| ==> chunks[i].id != k
    ensures var after := ApplyAll(store, LegacyUpsert(chunks, embeddings).value);
      && after.Keys == store.Keys + (set c | c in chunks :: c.id)
      && after[k] == store[k]
  {
    var points := LegacyUpsert(chunks, embeddings).value[0].points;
    assert LegacyUpsert(chunks, embeddings).value == [Upsert(points)];
    UpsertOnly(store, points);
    UpsertKeeps(store, points, k);
    ChunkIds(chunks, points);
  }
}
