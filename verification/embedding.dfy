/**
 * `EmbeddingService`: the truncation of a tokenised text to the model's
 * maximum length and the fallback to a zero vector when an embedding fails.
 *
 * The tokenizer and the ONNX inference (mean pooling and L2 normalisation
 * included) are parameters: each either yields its result or fails, as a
 * thrown exception would.
 */
module Embedding {
  import opened Wrappers
  import opened DocumentChunks

  /** A tokenised text: one token id and one mask entry per token. */
  datatype Encoding = Encoding(ids: seq<int>, attentionMask: seq<int>)

  /** The three tensors passed to the model. */
  datatype ModelInputs = ModelInputs(inputIds: seq<int>, attentionMask: seq<int>, tokenTypeIds: seq<int>)

  /** The configured model: tokenizer, inference, maximum length and dimensions. */
  datatype Embedder = Embedder(
    tokenize: string -> Result<Encoding>,
    infer: ModelInputs -> Result<seq<real>>,
    maxLength: int,
    dimensions: int)

  /** `n` zeros. */
  function Zeros<T>(n: nat, zero: T): (r: seq<T>)
    ensures |r| == n && forall i :: 0 <= i < n ==> r[i] == zero
  {
    seq(n, _ => zero)
  }

  /** `Arrays.copyOf(a, n)`: the first `n` entries, padded with zeros; a negative length throws. */
  function CopyOf(a: seq<int>, n: int): (r: Result<seq<int>>)
    ensures r.Err? <==> n < 0
    ensures r.Err? ==> r.failure == NegativeArraySize
    ensures r.Ok? ==> |r.value| == n
    ensures r.Ok? ==> forall i :: 0 <= i < n && i < |a| ==> r.value[i] == a[i]
    ensures r.Ok? ==> forall i :: |a| <= i < n ==> r.value[i] == 0
  {
    if n < 0 then Err(NegativeArraySize)
    else if n <= |a| then Ok(a[..n])
    else Ok(a + Zeros(n - |a|, 0))
  }

  /** Copying to a length no longer than the array keeps a prefix, and copying again to a shorter length is one copy. */
  lemma CopyOfPrefix(a: seq<int>, n: int, m: int)
    requires 0 <= m <= n
    ensures n <= |a| ==> CopyOf(a, n).value == a[..n]
    ensures CopyOf(CopyOf(a, n).value, m) == CopyOf(a, m)
  {
    var once := CopyOf(a, n).value;
    var twice := CopyOf(once, m).value;
    assert |twice| == |CopyOf(a, m).value|;
    forall i | 0 <= i < m
      ensures twice[i] == CopyOf(a, m).value[i]
    {
      assert twice[i] == once[i];
    }
    assert twice == CopyOf(a, m).value;
  }

  /**
   * The inputs of `generateSingleEmbedding`: ids and mask cut to the maximum
   * length when the ids are longer, and all-zero token types as long as the ids.
   */
  function PrepareInputs(enc: Encoding, maxLength: int): (r: Result<ModelInputs>)
    ensures r.Err? <==> |enc.ids| > maxLength && maxLength < 0
    ensures r.Err? ==> r.failure == NegativeArraySize
    ensures r.Ok? && |enc.ids| <= maxLength ==> r.value.inputIds == enc.ids && r.value.attentionMask == enc.attentionMask
    ensures r.Ok? && |enc.ids| > maxLength ==> r.value.inputIds == enc.ids[..maxLength]
    ensures r.Ok? && |enc.ids| > maxLength ==> r.value.attentionMask == CopyOf(enc.attentionMask, maxLength).value
    ensures r.Ok? ==> |r.value.inputIds| <= maxLength
    ensures r.Ok? ==> |r.value.tokenTypeIds| == |r.value.inputIds|
    ensures r.Ok? ==> forall i :: 0 <= i < |r.value.tokenTypeIds| ==> r.value.tokenTypeIds[i] == 0
  {
    if |enc.ids| <= maxLength then Ok(ModelInputs(enc.ids, enc.attentionMask, Zeros(|enc.ids|, 0)))
    else
      var ids :- CopyOf(enc.ids, maxLength);
      var mask := CopyOf(enc.attentionMask, maxLength).value;
      Ok(ModelInputs(ids, mask, Zeros(|ids|, 0)))
  }

  /** Preparing inputs that were already prepared changes nothing. */
  lemma PrepareIdempotent(enc: Encoding, maxLength: int)
    requires PrepareInputs(enc, maxLength).Ok?
    ensures var p := PrepareInputs(enc, maxLength).value;
      PrepareInputs(Encoding(p.inputIds, p.attentionMask), maxLength) == Ok(p)
  {
  }

  /** `generateSingleEmbedding(text)`: tokenise, truncate, run the model; any step may fail. */
  function SingleEmbedding(m: Embedder, text: string): (r: Result<seq<real>>)
    ensures m.tokenize(text).Err? ==> r.Err?
    ensures m.tokenize(text).Ok? && PrepareInputs(m.tokenize(text).value, m.maxLength).Err? ==> r.Err?
    ensures r.Err? <==>
      || m.tokenize(text).Err?
      || PrepareInputs(m.tokenize(text).value, m.maxLength).Err?
      || m.infer(PrepareInputs(m.tokenize(text).value, m.maxLength).value).Err?
    ensures m.tokenize(text).Ok? && PrepareInputs(m.tokenize(text).value, m.maxLength).Ok? ==>
      r == m.infer(PrepareInputs(m.tokenize(text).value, m.maxLength).value)
  {
    var enc :- m.tokenize(text);
    var inputs :- PrepareInputs(enc, m.maxLength);
    m.infer(inputs)
  }

  /** `new float[dimensions]`: zeros, or a thrown exception for a negative size. */
  function ZeroVector(dimensions: int): (r: Result<seq<real>>)
    ensures r.Err? <==> dimensions < 0
    ensures r.Ok? ==> r.value == Zeros(dimensions, 0.0)
  {
    if dimensions < 0 then Err(NegativeArraySize) else Ok(Zeros(dimensions, 0.0))
  }

  /** One text's embedding with the service's fallback: a failed embedding becomes the zero vector. */
  function EmbedOrZero(m: Embedder, text: string): Result<seq<real>> {
    match SingleEmbedding(m, text)
    case Ok(v) => Ok(v)
    case Err(_) => ZeroVector(m.dimensions)
  }

  /** `generateQueryEmbedding(query)`. */
  function GenerateQueryEmbedding(m: Embedder, query: string): (r: Result<seq<real>>)
    ensures r.Err? <==> SingleEmbedding(m, query).Err? && m.dimensions < 0
    ensures SingleEmbedding(m, query).Ok? ==> r == SingleEmbedding(m, query)
    ensures SingleEmbedding(m, query).Err? && m.dimensions >= 0 ==> r == Ok(Zeros(m.dimensions, 0.0))
  {
    EmbedOrZero(m, query)
  }

  /** Some chunk's embedding fails and so does its fallback. */
  predicate FallbackFails(m: Embedder, chunks: seq<DocumentChunk>) {
    exists i :: 0 <= i < |chunks| && EmbedOrZero(m, chunks[i].content).Err?
  }

  /** `generateEmbeddings(chunks)`: the chunks' embeddings in order, each failure replaced by the zero vector. */
  function GenerateEmbeddings(m: Embedder, chunks: seq<DocumentChunk>): (r: Result<seq<seq<real>>>)
    ensures r.Ok? ==> |r.value| == |chunks|
    decreases |chunks|
  {
    if |chunks| == 0 then Ok([])
    else
      var e :- EmbedOrZero(m, chunks[0].content);
      var rest :- GenerateEmbeddings(m, chunks[1..]);
      Ok([e] + rest)
  }

  /** Each chunk's vector is its own embedding, or zeros when that failed. */
  predicate EachEmbedded(m: Embedder, chunks: seq<DocumentChunk>, vs: seq<seq<real>>) {
    && |vs| == |chunks|
    && forall i :: 0 <= i < |chunks| ==> Ok(vs[i]) == EmbedOrZero(m, chunks[i].content)
  }

  /**
   * One vector per chunk, in chunk order; a failed chunk gets zeros and the
   * batch goes on. Only a negative dimension count makes the call throw, and
   * only when some embedding fails.
   */
  lemma {:induction false} EmbeddingsPerChunk(m: Embedder, chunks: seq<DocumentChunk>)
    ensures GenerateEmbeddings(m, chunks).Err? <==> FallbackFails(m, chunks)
    ensures GenerateEmbeddings(m, chunks).Err? ==> GenerateEmbeddings(m, chunks).failure == NegativeArraySize
    ensures GenerateEmbeddings(m, chunks).Ok? ==> EachEmbedded(m, chunks, GenerateEmbeddings(m, chunks).value)
    decreases |chunks|
  {
    if |chunks| > 0 {
      var tail := chunks[1..];
      EmbeddingsPerChunk(m, tail);
      var r := GenerateEmbeddings(m, chunks);
      var head := EmbedOrZero(m, chunks[0].content);
      if FallbackFails(m, tail) {
        var i :| 0 <= i < |tail| && EmbedOrZero(m, tail[i].content).Err?;
        assert chunks[i + 1] == tail[i];
      }
      if FallbackFails(m, chunks) && head.Ok? {
        var i :| 0 <= i < |chunks| && EmbedOrZero(m, chunks[i].content).Err?;
        assert i > 0 && chunks[i] == tail[i - 1];
      }
      if r.Ok? {
        var rest := GenerateEmbeddings(m, tail).value;
        assert r.value == [head.value] + rest;
        forall i | 0 <= i < |chunks|
          ensures Ok(r.value[i]) == EmbedOrZero(m, chunks[i].content)
        {
          if i > 0 {
            assert r.value[i] == rest[i - 1] && chunks[i] == tail[i - 1];
          }
        }
      }
    }
  }

  /** With a usable dimension count the call never throws, and a chunk whose embedding fails gets zeros. */
  lemma FailedChunkGetsZeros(m: Embedder, chunks: seq<DocumentChunk>, i: nat)
    requires m.dimensions >= 0 && i < |chunks|
    requires SingleEmbedding(m, chunks[i].content).Err?
    ensures GenerateEmbeddings(m, chunks).Ok?
    ensures GenerateEmbeddings(m, chunks).value[i] == Zeros(m.dimensions, 0.0)
  {
    EmbeddingsPerChunk(m, chunks);
  }

  /** Embedding two batches one after the other gives the embeddings of the joined batch. */
  lemma {:induction false} EmbeddingsConcat(m: Embedder, a: seq<DocumentChunk>, b: seq<DocumentChunk>)
    requires GenerateEmbeddings(m, a).Ok? && GenerateEmbeddings(m, b).Ok?
    ensures GenerateEmbeddings(m, a + b) == Ok(GenerateEmbeddings(m, a).value + GenerateEmbeddings(m, b).value)
    decreases |a|
  {
    var vb := GenerateEmbeddings(m, b).value;
    if |a| == 0 {
      assert a + b == b;
      assert GenerateEmbeddings(m, a).value + vb == vb;
    } else {
      var ab := a + b;
      assert ab[1..] == a[1..] + b && ab[0] == a[0];
      var head := EmbedOrZero(m, a[0].content);
      var ra := GenerateEmbeddings(m, a[1..]).value;
      assert GenerateEmbeddings(m, a) == Ok([head.value] + ra);
      EmbeddingsConcat(m, a[1..], b);
      assert GenerateEmbeddings(m, ab[1..]) == Ok(ra + vb);
      assert GenerateEmbeddings(m, ab) == Ok([head.value] + (ra + vb));
      assert [head.value] + (ra + vb) == ([head.value] + ra) + vb;
    }
  }
}
