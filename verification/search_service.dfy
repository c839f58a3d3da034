/**
 * `QdrantMcpSearchService`: the two search tools of the MCP server.
 *
 * Similarity search embeds the query, asks the store for the nearest points
 * and sorts the records by score, highest first. Filter search checks that
 * some filter is given, scrolls the store with the filter and sorts the
 * records by their chunk index, records without one last. Both sorts are
 * the stable `List.sort`, modelled by `Sorting.SortBy`. The store's search
 * and scroll are parameters.
 */
module SearchService {
  import opened Wrappers
  import opened JavaText
  import opened VectorStore
  import opened Sorting
  import opened Embedding

  /** The limit of a similarity search when none is given. */
  const DEFAULT_SIMILAR_LIMIT: int := 3

  /** The limit of a filter search when none is given. */
  const DEFAULT_FILTER_LIMIT: int := 50

  /** The nearest-neighbour request `searchSimilarVectors` sends: the query vector and the limit. */
  datatype SearchRequest = SearchRequest(vector: seq<real>, limit: int)

  // ---------------------------------------------------------------------------
  // Similarity search
  // ---------------------------------------------------------------------------

  /** `sortByScoreComparator()`: `a` may come before `b` when its score is not lower. */
  function ScoreFirst(a: ScoredRecord, b: ScoredRecord): bool {
    a.score >= b.score
  }

  lemma ScoreOrderIsTotal()
    ensures TotalPreorder(ScoreFirst)
  {
  }

  /** The records of a batch of scored points, in the store's order. */
  function ScoredRecords(points: seq<ScoredPoint>): (r: seq<ScoredRecord>)
    ensures |r| == |points|
    ensures forall i :: 0 <= i < |points| ==> r[i] == ConvertPointToMap(points[i])
  {
    seq(|points|, i requires 0 <= i < |points| => ConvertPointToMap(points[i]))
  }

  /** Scores never increase along the sequence. */
  predicate ScoreDescending(r: seq<ScoredRecord>) {
    forall i, j :: 0 <= i < j < |r| ==> r[i].score >= r[j].score
  }

  /**
   * `searchSimilarChunks(query, limit)`: the store's answer to the query
   * embedding, highest score first; any failure gives no results.
   */
  function SearchSimilarChunks(query: string, limit: Option<int>, m: Embedder,
                               search: SearchRequest -> Result<seq<ScoredPoint>>): (r: seq<ScoredRecord>)
    ensures GenerateQueryEmbedding(m, query).Err? ==> r == []
    ensures GenerateQueryEmbedding(m, query).Ok? ==>
      var request := SearchRequest(GenerateQueryEmbedding(m, query).value, limit.GetOr(DEFAULT_SIMILAR_LIMIT));
      && (search(request).Err? ==> r == [])
      && (search(request).Ok? ==> multiset(r) == multiset(ScoredRecords(search(request).value)))
    ensures ScoreDescending(r)
  {
    match GenerateQueryEmbedding(m, query)
    case Err(_) => []
    case Ok(vector) =>
      match search(SearchRequest(vector, limit.GetOr(DEFAULT_SIMILAR_LIMIT)))
      case Err(_) => []
      case Ok(points) =>
        var records := ScoredRecords(points);
        ScoreOrderIsTotal();
        SortSorted(records, ScoreFirst);
        SortPermutes(records, ScoreFirst);
        SortBy(records, ScoreFirst)
  }

  /**
   * Records with equal scores keep the store's order, and that with the
   * descending order and the permutation fixes the result: it is the one
   * stable sort of the store's answer.
   */
  lemma SimilarTiesKeepStoreOrder(query: string, limit: Option<int>, m: Embedder,
                                  search: SearchRequest -> Result<seq<ScoredPoint>>, y: ScoredRecord)
    requires GenerateQueryEmbedding(m, query).Ok?
    requires search(SearchRequest(GenerateQueryEmbedding(m, query).value, limit.GetOr(DEFAULT_SIMILAR_LIMIT))).Ok?
    ensures var points := search(SearchRequest(GenerateQueryEmbedding(m, query).value, limit.GetOr(DEFAULT_SIMILAR_LIMIT))).value;
      EqualsOf(SearchSimilarChunks(query, limit, m, search), y, ScoreFirst) == EqualsOf(ScoredRecords(points), y, ScoreFirst)
  {
    var points := search(SearchRequest(GenerateQueryEmbedding(m, query).value, limit.GetOr(DEFAULT_SIMILAR_LIMIT))).value;
    ScoreOrderIsTotal();
    SortStable(ScoredRecords(points), y, ScoreFirst);
  }

  // ---------------------------------------------------------------------------
  // Filter search
  // ---------------------------------------------------------------------------

  /** A point as the scroll returns it: no score. */
  datatype RetrievedPoint = RetrievedPoint(id: string, payload: Payload)

  /** The map `convertRetrievedPointToMap` builds: "id" and "payload". */
  datatype RetrievedRecord = RetrievedRecord(id: string, payload: map<string, JavaValue>)

  /** `convertRetrievedPointToMap`: the id and the readable payload values. */
  function ConvertRetrievedPoint(p: RetrievedPoint): (r: RetrievedRecord)
    ensures r.id == p.id
    ensures forall k :: k in r.payload <==> k in p.payload && !p.payload[k].Structured?
    ensures forall k :: k in r.payload ==> Some(r.payload[k]) == FromStoreValue(p.payload[k])
  {
    RetrievedRecord(p.id, ReadPayload(p.payload))
  }

  /** A retrieved point reads back as a scored point with the same id and payload would, without the score. */
  lemma RetrievedLikeScored(p: RetrievedPoint, score: real)
    ensures ConvertRetrievedPoint(p).id == ConvertPointToMap(ScoredPoint(p.id, score, p.payload)).id
    ensures ConvertRetrievedPoint(p).payload == ConvertPointToMap(ScoredPoint(p.id, score, p.payload)).payload
  {
  }

  /** The keys `extractChunkIndex` looks under, in order. */
  const CHUNK_INDEX_KEYS: seq<string> := ["chunkIndex", "chunk_index", "index", "order", "sequence"]

  /** The value under the first of `keys` the payload has. */
  function FirstPresent(payload: map<string, JavaValue>, keys: seq<string>): (r: Option<JavaValue>)
    ensures r.None? <==> forall i :: 0 <= i < |keys| ==> keys[i] !in payload
    decreases |keys|
  {
    if |keys| == 0 then None
    else if keys[0] in payload then Some(payload[keys[0]])
    else FirstPresent(payload, keys[1..])
  }

  /** `keys[i]` is in the payload, holds `v`, and no earlier key is in it. */
  predicate FirstKeyAt(payload: map<string, JavaValue>, keys: seq<string>, i: nat, v: JavaValue) {
    && i < |keys|
    && keys[i] in payload && payload[keys[i]] == v
    && forall j :: 0 <= j < i ==> keys[j] !in payload
  }

  /** What `FirstPresent` finds sits under the first present key. */
  lemma {:induction false} FirstPresentIsFirst(payload: map<string, JavaValue>, keys: seq<string>)
    requires FirstPresent(payload, keys).Some?
    ensures exists i: nat :: FirstKeyAt(payload, keys, i, FirstPresent(payload, keys).value)
    decreases |keys|
  {
    if keys[0] in payload {
      assert FirstKeyAt(payload, keys, 0, payload[keys[0]]);
    } else {
      FirstPresentIsFirst(payload, keys[1..]);
      var v := FirstPresent(payload, keys).value;
      var i: nat :| FirstKeyAt(payload, keys[1..], i, v);
      assert FirstKeyAt(payload, keys, i + 1, v);
    }
  }

  /** The chunk index a value stands for: an int, a narrowed long, or a parsed string. */
  function IndexValue(v: JavaValue): (r: Option<int>)
    ensures r.Some? ==> InInt32(r.value) || v.JInteger?
    ensures v.JDouble? || v.JBoolean? || v.JOther? ==> r.None?
    ensures v.JInteger? ==> r == Some(v.i)
    ensures v.JLong? ==> r == Some(ToInt32(v.l))
    ensures v.JString? ==> r == ParseInt(v.s)
    ensures v.JString? ==> (r.Some? <==> IsSignedDecimal(v.s) && InInt32(DecimalValue(v.s)))
  {
    match v
    case JInteger(i) => Some(i)
    case JLong(l) => Some(ToInt32(l))
    case JString(s) => ParseInt(s)
    case _ => None
  }

  /** `extractChunkIndex(payload)`: the first key present decides; no later key is tried. */
  function ExtractChunkIndex(payload: Option<map<string, JavaValue>>): (r: Option<int>)
    ensures payload.None? ==> r.None?
    ensures payload.Some? && FirstPresent(payload.value, CHUNK_INDEX_KEYS).None? ==> r.None?
    ensures payload.Some? && FirstPresent(payload.value, CHUNK_INDEX_KEYS).Some? ==>
      r == IndexValue(FirstPresent(payload.value, CHUNK_INDEX_KEYS).value)
  {
    if payload.None? then None
    else
      match FirstPresent(payload.value, CHUNK_INDEX_KEYS)
      case None => None
      case Some(v) => IndexValue(v)
  }

  /** An unreadable value under an earlier key hides a good one under a later key. */
  lemma EarlierKeyDecides(n: int)
    ensures var payload := map["chunkIndex" := JString("first"), "chunk_index" := JLong(n)];
      ExtractChunkIndex(Some(payload)).None?
  {
    var payload := map["chunkIndex" := JString("first"), "chunk_index" := JLong(n)];
    assert CHUNK_INDEX_KEYS[0] in payload;
  }

  /** A chunk index the upload stored comes back: the "chunk_index" integer, read back as a long. */
  lemma StoredIndexReadBack(payload: map<string, JavaValue>, n: int)
    requires InInt32(n)
    requires "chunk_index" in payload && payload["chunk_index"] == JLong(n)
    requires "chunkIndex" !in payload
    ensures ExtractChunkIndex(Some(payload)) == Some(n)
  {
    assert CHUNK_INDEX_KEYS[0] !in payload && CHUNK_INDEX_KEYS[1] in payload;
  }

  /** The chunk index of a record. */
  function RecordIndex(r: RetrievedRecord): Option<int> {
    ExtractChunkIndex(Some(r.payload))
  }

  /** `Integer.compare`. */
  function Compare(a: int, b: int): (c: int)
    ensures c < 0 <==> a < b
    ensures c == 0 <==> a == b
  {
    if a < b then -1 else if a == b then 0 else 1
  }

  /** The comparator of `sortByChunkIndex` on two chunk indices; a missing index is greater than any present one. */
  function IndexCompare(a: Option<int>, b: Option<int>): (c: int)
    ensures a.None? && b.None? ==> c == 0
    ensures a.None? && b.Some? ==> c > 0
    ensures a.Some? && b.None? ==> c < 0
    ensures a.Some? && b.Some? ==> (c <= 0 <==> a.value <= b.value)
  {
    if a.None? && b.None? then 0
    else if a.None? then 1
    else if b.None? then -1
    else Compare(a.value, b.value)
  }

  /** `a` may come before `b`. */
  function IndexFirst(a: RetrievedRecord, b: RetrievedRecord): bool {
    IndexCompare(RecordIndex(a), RecordIndex(b)) <= 0
  }

  /** The comparator is a valid one: total and transitive, so the library sort accepts it. */
  lemma IndexOrderIsTotal()
    ensures TotalPreorder(IndexFirst)
  {
    forall a, b, c | IndexFirst(a, b) && IndexFirst(b, c)
      ensures IndexFirst(a, c)
    {
    }
  }

  /** Present indices ascend, and every missing index comes after all present ones. */
  predicate IndexAscending(r: seq<RetrievedRecord>) {
    forall i, j :: 0 <= i < j < |r| ==>
      && (RecordIndex(r[i]).None? ==> RecordIndex(r[j]).None?)
      && (RecordIndex(r[i]).Some? && RecordIndex(r[j]).Some? ==> RecordIndex(r[i]).value <= RecordIndex(r[j]).value)
  }

  /** Being sorted by the comparator is being in ascending index order. */
  lemma SortedIsAscending(r: seq<RetrievedRecord>)
    ensures Sorted(r, IndexFirst) <==> IndexAscending(r)
  {
  }

  /** `sortByChunkIndex(results)`. */
  function SortByChunkIndex(records: seq<RetrievedRecord>): (r: seq<RetrievedRecord>)
    ensures multiset(r) == multiset(records)
    ensures IndexAscending(r)
  {
    IndexOrderIsTotal();
    SortSorted(records, IndexFirst);
    SortPermutes(records, IndexFirst);
    SortedIsAscending(SortBy(records, IndexFirst));
    SortBy(records, IndexFirst)
  }

  /** Records with equal indices, and records with none, keep the store's order. */
  lemma ChunkIndexSortStable(records: seq<RetrievedRecord>, y: RetrievedRecord)
    ensures EqualsOf(SortByChunkIndex(records), y, IndexFirst) == EqualsOf(records, y, IndexFirst)
  {
    IndexOrderIsTotal();
    SortStable(records, y, IndexFirst);
  }

  /** The records of a batch of retrieved points, in the store's order. */
  function RetrievedRecords(points: seq<RetrievedPoint>): (r: seq<RetrievedRecord>)
    ensures |r| == |points|
    ensures forall i :: 0 <= i < |points| ==> r[i] == ConvertRetrievedPoint(points[i])
  {
    seq(|points|, i requires 0 <= i < |points| => ConvertRetrievedPoint(points[i]))
  }

  /** At least one filter is given: a non-blank text filter or a page number. */
  predicate HasFilter(chapter: Option<string>, heading: Option<string>, subheading: Option<string>,
                      pageNumber: Option<int>) {
    Given(chapter) || Given(heading) || Given(subheading) || pageNumber.Some?
  }

  /**
   * `searchWithFilters(chapter, heading, subheading, pageNumber, limit)`: an
   * invalid-argument error, whether from the check or the store, reaches the
   * caller; any other failure of the store gives no results.
   */
  function SearchWithFilters(chapter: Option<string>, heading: Option<string>, subheading: Option<string>,
                             pageNumber: Option<int>, limit: Option<int>,
                             scroll: ScrollRequest -> Result<seq<RetrievedPoint>>): (r: Result<seq<RetrievedRecord>>)
    ensures !HasFilter(chapter, heading, subheading, pageNumber) ==> r == Err(IllegalArgument)
    ensures HasFilter(chapter, heading, subheading, pageNumber) ==>
      var answer := scroll(FilterRequest(chapter, heading, subheading, pageNumber, limit.GetOr(DEFAULT_FILTER_LIMIT)));
      && (answer.Err? && answer.failure == IllegalArgument ==> r == Err(IllegalArgument))
      && (answer.Err? && answer.failure != IllegalArgument ==> r == Ok([]))
      && (answer.Ok? ==> r.Ok? && multiset(r.value) == multiset(RetrievedRecords(answer.value)))
    ensures r.Ok? ==> IndexAscending(r.value)
  {
    if !HasFilter(chapter, heading, subheading, pageNumber) then Err(IllegalArgument)
    else
      match scroll(FilterRequest(chapter, heading, subheading, pageNumber, limit.GetOr(DEFAULT_FILTER_LIMIT)))
      case Err(f) => if f == IllegalArgument then Err(IllegalArgument) else Ok([])
      case Ok(points) => Ok(SortByChunkIndex(RetrievedRecords(points)))
  }

  /**
   * The filter search's records are the one stable sort of the store's
   * answer: any sequence in ascending index order that keeps each group of
   * equal indices in the store's order is the result.
   */
  lemma FilterResultIsTheStableSort(points: seq<RetrievedPoint>, r: seq<RetrievedRecord>)
    requires IndexAscending(r)
    requires forall y :: EqualsOf(r, y, IndexFirst) == EqualsOf(RetrievedRecords(points), y, IndexFirst)
    ensures r == SortByChunkIndex(RetrievedRecords(points))
  {
    IndexOrderIsTotal();
    SortedIsAscending(r);
    TheStableSort(RetrievedRecords(points), r, IndexFirst);
  }
}
