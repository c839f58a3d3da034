/**
 * The vector-store side of `QdrantService` (qdrant-client): building a point
 * from a chunk, reading a scored point back into a result record, building
 * the metadata filter of a scroll, and the store those calls act on.
 *
 * The store is a map from point id to point, and the calls a service makes
 * are recorded in order; the network, the collection name and the gRPC
 * builders are not modelled.
 */
module VectorStore {
  import opened Wrappers
  import opened JavaText

  /** A Java object in a metadata or result map: the boxed types the code tests for, and anything else. */
  datatype JavaValue =
    | JString(s: string)
    | JInteger(i: int)
    | JLong(l: int)
    | JDouble(d: real)
    | JBoolean(b: bool)
    | JOther

  /** A payload value as the store keeps it (`JsonWithInt.Value`); `Structured` is a null, list or struct value. */
  datatype StoreValue =
    | StringValue(s: string)
    | IntegerValue(i: int)
    | DoubleValue(d: real)
    | BoolValue(b: bool)
    | Structured

  type Payload = map<string, StoreValue>

  /** The vectors of a point: one unnamed vector, or vectors by name. */
  datatype Vectors = Unnamed(data: seq<real>) | Named(byName: map<string, seq<real>>)

  /** A stored point; its id is the chunk id, used as a UUID. */
  datatype Point = Point(id: string, vectors: Vectors, payload: Payload)

  /** The store value a metadata value becomes, if its type is one the code copies; a `Long` is narrowed to an `int` first. */
  function ToStoreValue(v: JavaValue): (r: Option<StoreValue>)
    ensures r.None? <==> v.JOther?
    ensures v.JLong? ==> r == Some(IntegerValue(ToInt32(v.l)))
  {
    match v
    case JString(s) => Some(StringValue(s))
    case JInteger(i) => Some(IntegerValue(i))
    case JLong(l) => Some(IntegerValue(ToInt32(l)))
    case JDouble(d) => Some(DoubleValue(d))
    case JBoolean(b) => Some(BoolValue(b))
    case JOther => None
  }

  /**
   * The payload of `createDocumentPoint`: "content" first, then every metadata
   * entry of a copied type, which may overwrite "content".
   */
  function DocumentPayload(content: string, metadata: map<string, JavaValue>): (p: Payload)
    ensures forall k :: k in metadata && !metadata[k].JOther? ==> k in p && p[k] == ToStoreValue(metadata[k]).value
    ensures forall k :: k in p && k != "content" ==> k in metadata && !metadata[k].JOther?
    ensures "content" in p
    ensures "content" !in metadata || metadata["content"].JOther? ==> p["content"] == StringValue(content)
  {
    var copied := map k | k in metadata && ToStoreValue(metadata[k]).Some? :: ToStoreValue(metadata[k]).value;
    map["content" := StringValue(content)] + copied
  }

  /** `createDocumentPoint(chunkId, content, embedding, metadata)`. */
  function CreateDocumentPoint(chunkId: string, content: string, embedding: seq<real>,
                               metadata: map<string, JavaValue>): (p: Point)
    ensures p.id == chunkId && p.vectors == Unnamed(embedding)
    ensures p.payload == DocumentPayload(content, metadata)
  {
    Point(chunkId, Unnamed(embedding), DocumentPayload(content, metadata))
  }

  /** The Java object a store value is read back as; an integer comes back as a `Long`. */
  function FromStoreValue(v: StoreValue): (r: Option<JavaValue>)
    ensures r.None? <==> v.Structured?
  {
    match v
    case StringValue(s) => Some(JString(s))
    case IntegerValue(i) => Some(JLong(i))
    case DoubleValue(d) => Some(JDouble(d))
    case BoolValue(b) => Some(JBoolean(b))
    case Structured => None
  }

  /** The payload map of a result: string, integer, double and bool values, every other kind dropped. */
  function ReadPayload(p: Payload): (r: map<string, JavaValue>)
    ensures forall k :: k in r <==> k in p && !p[k].Structured?
    ensures forall k :: k in r ==> Some(r[k]) == FromStoreValue(p[k])
  {
    map k | k in p && FromStoreValue(p[k]).Some? :: FromStoreValue(p[k]).value
  }

  /** A scored point as the search returns it. */
  datatype ScoredPoint = ScoredPoint(id: string, score: real, payload: Payload)

  /** The map `convertPointToMap` builds: "score", "id" and "payload". */
  datatype ScoredRecord = ScoredRecord(score: real, id: string, payload: map<string, JavaValue>)

  /** `convertPointToMap`. */
  function ConvertPointToMap(p: ScoredPoint): (r: ScoredRecord)
    ensures r.score == p.score && r.id == p.id
    ensures r.payload == ReadPayload(p.payload)
  {
    ScoredRecord(p.score, p.id, ReadPayload(p.payload))
  }

  /** A copied metadata value as a result map shows it: an `Integer` or a narrowed `Long` comes back as a `Long`. */
  function ReadBack(v: JavaValue): JavaValue {
    match v
    case JInteger(i) => JLong(i)
    case JLong(l) => JLong(ToInt32(l))
    case _ => v
  }

  /** Storing a metadata value and reading it back gives `ReadBack` of it; a value of another type is gone. */
  lemma PayloadRoundTrip(content: string, metadata: map<string, JavaValue>, k: string)
    requires k in metadata && k != "content"
    ensures var back := ReadPayload(DocumentPayload(content, metadata));
      && (k in back <==> !metadata[k].JOther?)
      && (k in back ==> back[k] == ReadBack(metadata[k]))
  {
  }

  /** Metadata of copied types only, without a "content" key, is stored and read back whole, next to the content. */
  lemma CopiedPayloadRoundTrip(content: string, metadata: map<string, JavaValue>)
    requires "content" !in metadata
    requires forall k :: k in metadata ==> !metadata[k].JOther?
    ensures var back := ReadPayload(DocumentPayload(content, metadata));
      && back.Keys == {"content"} + metadata.Keys
      && back["content"] == JString(content)
      && forall k :: k in metadata ==> back[k] == ReadBack(metadata[k])
  {
  }

  /** The content always survives a round trip unless the metadata carries a copied "content" entry. */
  lemma ContentRoundTrip(content: string, metadata: map<string, JavaValue>)
    requires "content" !in metadata || metadata["content"].JOther?
    ensures var back := ReadPayload(DocumentPayload(content, metadata));
      "content" in back && back["content"] == JString(content)
  {
  }

  // ---------------------------------------------------------------------------
  // searchWithFilters: the filter of the scroll request
  // ---------------------------------------------------------------------------

  /** A field condition: a full-text match on a string field or an exact match on an integer field. */
  datatype Condition = MatchText(key: string, text: string) | MatchInteger(key: string, value: int)

  /** A scroll request: all conditions must hold; at most `limit` points, with payload. */
  datatype ScrollRequest = ScrollRequest(must: seq<Condition>, limit: int)

  /** A filter value counts when it is present and not blank. */
  predicate Given(v: Option<string>) {
    v.Some? && !IsBlank(v.value)
  }

  function TextCondition(key: string, v: Option<string>): seq<Condition> {
    if Given(v) then [MatchText(key, v.value)] else []
  }

  /** The conditions of `searchWithFilters`, in the order the code adds them. */
  function FilterConditions(chapter: Option<string>, heading: Option<string>, subheading: Option<string>,
                            pageNumber: Option<int>): (r: seq<Condition>)
    ensures |r| <= 4
    ensures MatchText("chapter", chapter.GetOr("")) in r <==> Given(chapter)
    ensures MatchText("heading", heading.GetOr("")) in r <==> Given(heading)
    ensures MatchText("subheading", subheading.GetOr("")) in r <==> Given(subheading)
    ensures pageNumber.Some? ==> MatchInteger("page_number", pageNumber.value) in r
    ensures forall c :: c in r ==>
      || (Given(chapter) && c == MatchText("chapter", chapter.value))
      || (Given(heading) && c == MatchText("heading", heading.value))
      || (Given(subheading) && c == MatchText("subheading", subheading.value))
      || (pageNumber.Some? && c == MatchInteger("page_number", pageNumber.value))
  {
    TextCondition("chapter", chapter) + TextCondition("heading", heading) + TextCondition("subheading", subheading)
      + (if pageNumber.Some? then [MatchInteger("page_number", pageNumber.value)] else [])
  }

  /** `searchWithFilters(chapter, heading, subheading, pageNumber, limit)`: the request sent to the store. */
  function FilterRequest(chapter: Option<string>, heading: Option<string>, subheading: Option<string>,
                         pageNumber: Option<int>, limit: int): (r: ScrollRequest)
    ensures r.limit == limit
    ensures r.must == FilterConditions(chapter, heading, subheading, pageNumber)
  {
    ScrollRequest(FilterConditions(chapter, heading, subheading, pageNumber), limit)
  }

  // ---------------------------------------------------------------------------
  // The store
  // ---------------------------------------------------------------------------

  type Store = map<string, Point>

  /** A call a service makes on the store. */
  datatype StoreCall = ClearAll | Upsert(points: seq<Point>)

  /** Upserting a batch: each point replaces any stored point with its id, later points in the batch winning. */
  function UpsertAll(store: Store, points: seq<Point>): (r: Store)
    ensures r.Keys == store.Keys + Ids(points)
    ensures forall k :: k in store && (forall i :: 0 <= i < |points| ==> points[i].id != k) ==> r[k] == store[k]
    decreases |points|
  {
    if |points| == 0 then store
    else UpsertAll(store[points[0].id := points[0]], points[1..])
  }

  /** The store after one call. */
  function Apply(store: Store, call: StoreCall): Store {
    match call
    case ClearAll => map[]
    case Upsert(points) => UpsertAll(store, points)
  }

  /** The store after a sequence of calls, in order. */
  function ApplyAll(store: Store, calls: seq<StoreCall>): Store
    decreases |calls|
  {
    if |calls| == 0 then store else ApplyAll(Apply(store, calls[0]), calls[1..])
  }

  /** In a batch, the last point with a given id is the one stored under it. */
  lemma {:induction false} UpsertLastWins(store: Store, points: seq<Point>, i: nat)
    requires i < |points|
    requires forall j :: i < j < |points| ==> points[j].id != points[i].id
    ensures UpsertAll(store, points)[points[i].id] == points[i]
    decreases |points|
  {
    if i > 0 {
      UpsertLastWins(store[points[0].id := points[0]], points[1..], i - 1);
    }
  }

  /** The ids of a batch of points. */
  function Ids(points: seq<Point>): set<string> {
    set p | p in points :: p.id
  }

  /** Clearing and then upserting a batch leaves exactly the batch. */
  lemma ClearThenUpsert(store: Store, points: seq<Point>)
    ensures ApplyAll(store, [ClearAll, Upsert(points)]) == UpsertAll(map[], points)
    ensures ApplyAll(store, [ClearAll, Upsert(points)]).Keys == Ids(points)
  {
    var calls := [ClearAll, Upsert(points)];
    assert calls[1..] == [Upsert(points)] && calls[1..][1..] == [];
    var empty: Store := map[];
    assert ApplyAll(store, calls) == ApplyAll(empty, [Upsert(points)]);
    assert ApplyAll(empty, [Upsert(points)]) == ApplyAll(UpsertAll(empty, points), []);
    assert empty.Keys + Ids(points) == Ids(points);
  }

  /** Upserting a batch alone keeps every stored point whose id the batch does not use. */
  lemma UpsertOnly(store: Store, points: seq<Point>)
    ensures ApplyAll(store, [Upsert(points)]) == UpsertAll(store, points)
    ensures ApplyAll(store, [Upsert(points)]).Keys == store.Keys + Ids(points)
  {
    assert [Upsert(points)][1..] == [];
  }

  /** A stored point whose id the batch does not use is left as it was. */
  lemma UpsertKeeps(store: Store, points: seq<Point>, k: string)
    requires k in store
    requires forall i :: 0 <= i < |points| ==> points[i].id != k
    ensures k in ApplyAll(store, [Upsert(points)]) && ApplyAll(store, [Upsert(points)])[k] == store[k]
  {
    UpsertOnly(store, points);
  }
}
