# pdf-qdrant-mcp in Dafny

A model of the ingestion and retrieval core of pdf-qdrant-mcp, a Java
service that does three things:

- it cuts PDF page text into overlapping chunks tagged with the outline
  (bookmark) hierarchy;
- it embeds and uploads the chunks to a Qdrant vector collection;
- it answers similarity and metadata-filter searches over that collection.

| file | module | models |
|---|---|---|
| `wrappers.dfy` | `Wrappers` | `Option`, and `Result` with the Java exception kinds the core throws |
| `java_text.dfy` | `JavaText` | the JDK string operations the core relies on: `trim`, `lastIndexOf(' ', from)`, `split("\\s+")`, `String.join(" ", …)`, `Integer.parseInt`, `Long.intValue`, `Paths.get(p).getFileName()` |
| `document_chunk.dfy` | `DocumentChunks` | `DocumentChunk` and its `Metadata` |
| `outline.dfy` | `Outline` | `PdfExtractor.extractOutlineHierarchy` with its walk and destination resolution, over plain datatypes for the outline tree, destinations and name dictionaries |
| `font_stripper.dfy` | `FontStripper` | the line-grouping state machine of `FontAwareTextStripper`, `TextWithFont.isHeader` and `deduplicateText` |
| `text_chunker.dfy` | `TextChunker` | `chunkText`, `chunkTextWithOutlineMetadata` and `chunkBySentences` |
| `vector_store.dfy` | `VectorStore` | `QdrantService` (qdrant-client): payload conversion in `createDocumentPoint`, `convertPointToMap`, the filter of `searchWithFilters`, and the store as a map from point id to point |
| `document_service.dfy` | `DocumentUpload` | `DocumentService.upsertDocumentChunks` |
| `legacy_qdrant.dfy` | `LegacyQdrant` | the older `QdrantService.upsertDocumentChunks` in pdf-processing |
| `embedding.dfy` | `Embedding` | `EmbeddingService`: the fallback policy and token truncation |
| `sorting.dfy` | `Sorting` | `List.sort`, a stable sort, as insertion sort |
| `search_service.dfy` | `SearchService` | `QdrantMcpSearchService` |

Modelling conventions:

- Strings are `seq<char>`, and a Dafny `char` is a Unicode scalar value. Java counts UTF-16 code units, so lengths, window sizes and cut positions agree with Java only on text inside the Basic Multilingual Plane (see "## Left out").
- Java `null` is `None`.
- An exception is an `Err` of `Result`. A caught exception is the branch that handles it.
- Integers are unbounded. Where the code narrows a `long` to an `int`, the narrowing is written out (`JavaText.ToInt32`). The two places where the chunker's own `int` arithmetic can wrap, `start + chunkSize` and `end - overlap`, are not modelled (see "## Left out").
- Font sizes are integers in hundredths of a point: the 0.1pt tolerance is 10 and the 22pt header threshold is 2200. The tolerance is compared exactly, not in `float` arithmetic (see "## Left out").
- Scores and vector entries are `real`.

The page-text map the chunker iterates is a `HashMap` keyed by page numbers
1..n. It iterates in ascending page order, so it is a sequence of pages in
that order.

What the code gets from outside is a parameter:

- the chunk size and overlap;
- the UUID each chunk constructor draws: `freshId(i)` for the i-th chunk;
- the tokenizer, the ONNX inference, the maximum length and the dimension count, all in `Embedding.Embedder`;
- the store's answers to a search or a scroll request.

The store itself is a map from id to point. A service's effect on it is the
list of calls it makes (`ClearAll`, `Upsert(points)`), applied in order by
`VectorStore.ApplyAll`.

Each operation has a partner that pins it down:

- **Chunk windows.** `chunkText`'s loop (`TextChunker.ChunkWindows`) equals the functional windows. The windows are bounded, snapped, strictly advancing, gap-free, overlapping by at most `overlap`, and covering.
- **Page loop.** It equals a look-back definition of the sticky hierarchy (`StickyHierarchy`), and blank pages can be deleted without effect (`BlankPagesIgnored`).
- **Sentence loop.** It equals fixed-size blocks of sentences (`SentenceChunksAreBlocks`).
- **Outline walk.** It equals a fold over the pre-order visit list (`WalkIsPreorder`).
- **Character pass of `deduplicateText`.** It equals a by-position reference (`CollapseDropsRepeatsOfPredecessor`), and it is idempotent.
- **Payloads.** Each payload round-trips through the result maps.
- **The two upload services.** They store the same payload (`PayloadsAgree`).
- **Both sorts.** Each is proved the unique stable sort of the store's answer.

## Model

| member | source | states |
|---|---|---|
| DocumentChunks.NewDocumentChunk | qdrant-client/src/main/java/com/spyder/qdrant/model/DocumentChunk.java:21-25 | the chunk keeps the drawn id and its content unchanged, its content length is the length of the content, its type is "pdf", and source, page, hierarchy and index are stored as given |
| DocumentChunks.NewMetadata | qdrant-client/src/main/java/com/spyder/qdrant/model/DocumentChunk.java:54-63 | every argument is stored in its own field, and the document type is always "pdf" |
| JavaText.Trim | pdf-processing/src/main/java/com/spyder/pdfprocessing/service/TextChunker.java:99 | the result is no longer than the input, starts and ends with a char above U+0020, and is empty exactly when the input is blank |
| JavaText.TrimSplits | pdf-processing/src/main/java/com/spyder/pdfprocessing/service/TextChunker.java:99 | the input is a blank run, then the trimmed text, then a blank run |
| JavaText.TrimIdempotent | pdf-processing/src/main/java/com/spyder/model/FontAwareTextStripper.java:75 | trimming twice is trimming once |
| JavaText.TrimPadded | pdf-processing/src/main/java/com/spyder/model/FontAwareTextStripper.java:62 | blank padding on either side does not change the trimmed text |
| JavaText.LastSpaceAtOrBefore | pdf-processing/src/main/java/com/spyder/pdfprocessing/service/TextChunker.java:93 | the result is a space at or before the given index, or -1, and no space lies between it and that index |
| JavaText.SplitOnWhitespace | pdf-processing/src/main/java/com/spyder/model/FontAwareTextStripper.java:76 | on a text that does not start with whitespace, the split gives the maximal whitespace-free runs in order |
| JavaText.TokensOfJoin | pdf-processing/src/main/java/com/spyder/model/FontAwareTextStripper.java:76-96 | splitting words joined with single spaces gives the same words back |
| JavaText.ParseInt | mcp-server/src/main/java/com/spyder/mcp/service/QdrantMcpSearchService.java:193-198 | a string parses exactly when it is an optional '+' or '-' followed by at least one digit and its value lies in the 32-bit range; the result is that signed decimal value, and anything else fails |
| JavaText.ParseIntExamples | mcp-server/src/main/java/com/spyder/mcp/service/QdrantMcpSearchService.java:193-198 | "+007" parses to 7 and "-42" to -42, while "x5", a lone "-" and 2147483648 (one past the range) fail |
| JavaText.ParseIntRoundTrip | pdf-processing/src/main/java/com/spyder/pdfprocessing/service/PdfExtractor.java:233 | every 32-bit integer written in decimal parses back to itself |
| JavaText.ToInt32 | mcp-server/src/main/java/com/spyder/mcp/service/QdrantMcpSearchService.java:190-191 | the result is a 32-bit integer congruent to the input modulo 2^32, and equal to it when it already fits |
| JavaText.FileName | pdf-processing/src/main/java/com/spyder/pdfprocessing/service/TextChunker.java:34 | the file name contains no '/'; a NUL char is an invalid path, and a path of only '/' has no file name, so `toString` on it throws |
| JavaText.FileNameOfJoinedPath | pdf-processing/src/main/java/com/spyder/pdfprocessing/service/TextChunker.java:34 | whatever the directory part, `dir/name` yields `name` |
| Outline.IndexOf | pdf-processing/src/main/java/com/spyder/pdfprocessing/service/PdfExtractor.java:196 | the position of the first occurrence of the page, or -1 exactly when the page is not in the tree |
| Outline.PageNumberOf | pdf-processing/src/main/java/com/spyder/pdfprocessing/service/PdfExtractor.java:195-196 | a page destination resolves to the page's 1-based position, which is 0 exactly when the page is not in the page tree |
| Outline.ResolveNamed | pdf-processing/src/main/java/com/spyder/pdfprocessing/service/PdfExtractor.java:213-248 | the catalog's /Dests decides when it has the name, else the name tree. A hit that is not a page destination gives null. Only when both miss is the name parsed, and it is accepted exactly in 1..numberOfPages |
| Outline.NumericNameResolves | pdf-processing/src/main/java/com/spyder/pdfprocessing/service/PdfExtractor.java:230-236 | a decimal page number in range that neither dictionary knows resolves to that page |
| Outline.ResolveDestination | pdf-processing/src/main/java/com/spyder/pdfprocessing/service/PdfExtractor.java:185-211 | a non-null destination is used as is. The action is consulted only when the destination is null, and a missing or non-GoTo action gives null. Any page found is in 0..numberOfPages |
| Outline.ActionIgnoredWithDestination | pdf-processing/src/main/java/com/spyder/pdfprocessing/service/PdfExtractor.java:187-208 | with a destination present, replacing the action changes nothing |
| Outline.GoToActsAsDestination | pdf-processing/src/main/java/com/spyder/pdfprocessing/service/PdfExtractor.java:189-199 | a GoTo action resolves exactly as its destination would if stored on the item |
| Outline.HierarchyOf | pdf-processing/src/main/java/com/spyder/pdfprocessing/service/PdfExtractor.java:136-139 | slot i of the stored triple is the i-th title of the path, or null past its end |
| Outline.DeepTitlesDropped | pdf-processing/src/main/java/com/spyder/pdfprocessing/service/PdfExtractor.java:136-139 | titles below the third level do not change the stored triple |
| Outline.ShallowPathKept | pdf-processing/src/main/java/com/spyder/pdfprocessing/service/PdfExtractor.java:136-139 | a path of at most three titles is stored whole, padded with nulls |
| Outline.Record | pdf-processing/src/main/java/com/spyder/pdfprocessing/service/PdfExtractor.java:133-144 | an unresolved item leaves the map alone; a resolved one overwrites its page's entry with its hierarchy |
| Outline.Walk | pdf-processing/src/main/java/com/spyder/pdfprocessing/service/PdfExtractor.java:119-152 | the walk only adds entries, and every page it adds is in 0..numberOfPages |
| Outline.ExtractOutlineHierarchy | pdf-processing/src/main/java/com/spyder/pdfprocessing/service/PdfExtractor.java:83-99 | a document without an outline gives the empty map; every key is a page number in 0..numberOfPages |
| Outline.UnresolvedItemStillVisitsChildren | pdf-processing/src/main/java/com/spyder/pdfprocessing/service/PdfExtractor.java:133-148 | an item whose page does not resolve adds nothing, but its children are still walked with its title appended to the path |
| Outline.WalkIsPreorder | pdf-processing/src/main/java/com/spyder/pdfprocessing/service/PdfExtractor.java:119-152 | the walk equals recording, in order, the pre-order list of (item, title path) visits: an item, then its subtree, then its next sibling |
| Outline.RecordAllKeys | pdf-processing/src/main/java/com/spyder/pdfprocessing/service/PdfExtractor.java:133-144 | recording a list of visits maps a page exactly when some visit resolves to it |
| Outline.RecordAllLastWriteWins | pdf-processing/src/main/java/com/spyder/pdfprocessing/service/PdfExtractor.java:143 | the page keeps the hierarchy of the last visit resolving to it |
| Outline.ExtractKeys | pdf-processing/src/main/java/com/spyder/pdfprocessing/service/PdfExtractor.java:119-152 | the outline map has a page exactly when some item, in pre-order, resolves to it |
| Outline.ExtractIsLastWrite | pdf-processing/src/main/java/com/spyder/pdfprocessing/service/PdfExtractor.java:143 | when two items resolve to the same page, the one later in pre-order decides its hierarchy |
| FontStripper.Flush | pdf-processing/src/main/java/com/spyder/model/FontAwareTextStripper.java:51-54 | only a non-empty buffer is emitted, trimmed and tagged with the buffer's font size |
| FontStripper.ProcessTextPosition | pdf-processing/src/main/java/com/spyder/model/FontAwareTextStripper.java:26-47 | a line starts exactly when the flag is set or the size, in hundredths of a point, moves by more than 10. It emits the old buffer and adopts the glyph's size; otherwise the glyph extends the buffer. The flag is raised exactly by "\n" or "\r", after the glyph is appended |
| FontStripper.EndPage | pdf-processing/src/main/java/com/spyder/model/FontAwareTextStripper.java:49-57 | the buffer is flushed and emptied and the newLine flag is set |
| FontStripper.ProcessAllKeepsLinesTrimmed | pdf-processing/src/main/java/com/spyder/model/FontAwareTextStripper.java:33-52 | whatever the glyphs, every emitted line is trimmed |
| FontStripper.LinesAtMostGlyphs | pdf-processing/src/main/java/com/spyder/model/FontAwareTextStripper.java:26-57 | a page emits at most one line per glyph, plus one for a buffer left from before |
| FontStripper.ContinueLine | pdf-processing/src/main/java/com/spyder/model/FontAwareTextStripper.java:31-40 | mid-line, glyphs of the same size and without breaks only extend the buffer |
| FontStripper.OneSizeOneLine | pdf-processing/src/main/java/com/spyder/model/FontAwareTextStripper.java:19-57 | a fresh page in one size without breaks becomes a single line: its whole text, trimmed, with that size. An empty text gives no line |
| FontStripper.HeaderIgnoresPadding | pdf-processing/src/main/java/com/spyder/model/FontAwareTextStripper.java:61-63 | blank padding does not change whether a line is a header (at least 22pt and not blank) |
| FontStripper.CollapseFrom | pdf-processing/src/main/java/com/spyder/model/FontAwareTextStripper.java:101-109 | the character pass never lengthens the text and leaves no two neighbouring equal letters |
| FontStripper.CollapseDropsRepeatsOfPredecessor | pdf-processing/src/main/java/com/spyder/model/FontAwareTextStripper.java:101-109 | the pass drops exactly the letters equal to the char just before them in the input, and keeps every non-letter |
| FontStripper.CollapseIdempotent | pdf-processing/src/main/java/com/spyder/model/FontAwareTextStripper.java:101-111 | a second character pass changes nothing |
| FontStripper.CollapseFixedPoints | pdf-processing/src/main/java/com/spyder/model/FontAwareTextStripper.java:101-111 | the pass leaves a text unchanged exactly when no letter repeats its neighbour |
| FontStripper.DeduplicateText | pdf-processing/src/main/java/com/spyder/model/FontAwareTextStripper.java:69-112 | a text of length at most 1 comes back as is. An even number (>1) of words whose halves agree gives the first half joined by single spaces, and the character pass does not run. Otherwise the trimmed text goes through the character pass: no repeated letters, not longer |
| FontStripper.DoubledPhraseRepaired | pdf-processing/src/main/java/com/spyder/model/FontAwareTextStripper.java:74-97 | any phrase rendered twice with a space between is repaired to one copy |
| FontStripper.ForgeExample | pdf-processing/src/main/java/com/spyder/model/FontAwareTextStripper.java:74 | "FORGE FORGE" becomes "FORGE" |
| FontStripper.LettersExample | pdf-processing/src/main/java/com/spyder/model/FontAwareTextStripper.java:100 | "AABBCC" becomes "ABC" |
| FontStripper.ShortExample | pdf-processing/src/main/java/com/spyder/model/FontAwareTextStripper.java:70-72 | a single char is returned untouched |
| TextChunker.WindowEnd | pdf-processing/src/main/java/com/spyder/pdfprocessing/service/TextChunker.java:90-97 | a window is at most `size` chars and stays in the text; it reaches the end when `start + size` does, and a positive size always makes progress |
| TextChunker.WindowEndSnaps | pdf-processing/src/main/java/com/spyder/pdfprocessing/service/TextChunker.java:92-97 | a cut inside the text moves back to the last space after `start`, if there is one, and otherwise stays |
| TextChunker.NextStart | pdf-processing/src/main/java/com/spyder/pdfprocessing/service/TextChunker.java:105 | the next start is strictly later, either one char on or `overlap` before the end |
| TextChunker.WindowsFrom | pdf-processing/src/main/java/com/spyder/pdfprocessing/service/TextChunker.java:88-106 | the loop visits no window exactly when it starts at or past the end; every window lies inside the text |
| TextChunker.WindowsFirst | pdf-processing/src/main/java/com/spyder/pdfprocessing/service/TextChunker.java:88-99 | the first window starts at `start`, and there are at most |text| - start windows |
| TextChunker.WindowsEach | pdf-processing/src/main/java/com/spyder/pdfprocessing/service/TextChunker.java:89-97 | every window starts inside the text and ends where the size cut and the snap put it |
| TextChunker.WindowsChain | pdf-processing/src/main/java/com/spyder/pdfprocessing/service/TextChunker.java:101-105 | every window but the last ends inside the text and is followed by the window at its next start |
| TextChunker.LastWindow | pdf-processing/src/main/java/com/spyder/pdfprocessing/service/TextChunker.java:101-103 | the loop ends after a window that reaches the end, or whose next start is past it |
| TextChunker.StartsIncrease | pdf-processing/src/main/java/com/spyder/pdfprocessing/service/TextChunker.java:105 | window starts strictly increase |
| TextChunker.ChunkIsTrimmedWindow | pdf-processing/src/main/java/com/spyder/pdfprocessing/service/TextChunker.java:99 | there is one chunk per window, and the i-th is the i-th window's text, trimmed |
| TextChunker.PageChunks | pdf-processing/src/main/java/com/spyder/pdfprocessing/service/TextChunker.java:81-109 | empty text gives no chunks. On non-empty text a negative size makes `substring` throw, and that is the only failure. Otherwise the result is the trimmed windows |
| TextChunker.ChunkBounds | pdf-processing/src/main/java/com/spyder/pdfprocessing/service/TextChunker.java:89-106 | non-empty text gives between 1 and |text| chunks, each at most `size` chars |
| TextChunker.ChunkText | pdf-processing/src/main/java/com/spyder/pdfprocessing/service/TextChunker.java:81-109 | the method with its loop computes exactly the functional chunks, including the empty-text and negative-size cases |
| TextChunker.ChunkWindows | pdf-processing/src/main/java/com/spyder/pdfprocessing/service/TextChunker.java:88-106 | the while loop, run to its break, yields the trimmed text of every window in order |
| TextChunker.WindowsOverlap | pdf-processing/src/main/java/com/spyder/pdfprocessing/service/TextChunker.java:101-105 | with size at least 1 and overlap at least 0, consecutive windows leave no gap and share at most `overlap` chars, and the last window ends at the end of the text |
| TextChunker.WindowsCover | pdf-processing/src/main/java/com/spyder/pdfprocessing/service/TextChunker.java:88-106 | under the same conditions every char of the text is in some window |
| TextChunker.UnspacedExample | pdf-processing/src/main/java/com/spyder/pdfprocessing/service/TextChunker.java:88-106 | 2500 chars without a space, size 1000 and overlap 100 give the windows [0,1000), [900,1900) and [1800,2500) |
| TextChunker.PageRecords | pdf-processing/src/main/java/com/spyder/pdfprocessing/service/TextChunker.java:62-75 | a processed page yields one chunk per window of its text |
| TextChunker.PageRecordsNumbered | pdf-processing/src/main/java/com/spyder/pdfprocessing/service/TextChunker.java:64-75 | a page's chunks are numbered on from the running index, each with its own drawn id and the file name |
| TextChunker.ChunkPagesNumbered | pdf-processing/src/main/java/com/spyder/pdfprocessing/service/TextChunker.java:36-75 | across all pages, the i-th chunk of the page loop carries index `index + i`, the id drawn for it, the file name, its content's length and type "pdf" |
| TextChunker.ChunkTextWithOutlineMetadata | pdf-processing/src/main/java/com/spyder/pdfprocessing/service/TextChunker.java:29-79 | it fails exactly when the path has no usable file name, or when the size is negative and some page is chunked. Otherwise the i-th chunk has index i, the i-th drawn id and the path's file name |
| TextChunker.CarriedIsLookback | pdf-processing/src/main/java/com/spyder/pdfprocessing/service/TextChunker.java:41-76 | carrying the hierarchy through the loop equals looking it up afresh for each page |
| TextChunker.StickyHierarchy | pdf-processing/src/main/java/com/spyder/pdfprocessing/service/TextChunker.java:37-54 | each page's chunks carry the outline entry of the latest processed page at or before it that has one, or all nulls when there is none |
| TextChunker.ChunkProvenance | pdf-processing/src/main/java/com/spyder/pdfprocessing/service/TextChunker.java:41-76 | every chunk is the trimmed window text of a processed page. It carries that page's number and sticky hierarchy |
| TextChunker.ChunkPagesOfProcessed | pdf-processing/src/main/java/com/spyder/pdfprocessing/service/TextChunker.java:49-75 | a processed page contributes its chunks under its own entry, or else under the carried hierarchy. That hierarchy is then carried on |
| TextChunker.BlankPagesIgnored | pdf-processing/src/main/java/com/spyder/pdfprocessing/service/TextChunker.java:45-47 | deleting the null and blank pages changes nothing, so an outline entry on a blank page is never applied |
| TextChunker.OutlineEntryReplacesAll | pdf-processing/src/main/java/com/spyder/pdfprocessing/service/TextChunker.java:50-54 | an entry on a processed page replaces all three fields, nulls included: what was in force before makes no difference |
| TextChunker.ChunkBySentences | pdf-processing/src/main/java/com/spyder/pdfprocessing/service/TextChunker.java:114-116 | empty text gives no chunks |
| TextChunker.Blocks | pdf-processing/src/main/java/com/spyder/pdfprocessing/service/TextChunker.java:122-127 | the blocks concatenate back to the sentences, in order. Each holds 1 to k sentences, and all but the last hold exactly k |
| TextChunker.RunWithinBlock | pdf-processing/src/main/java/com/spyder/pdfprocessing/service/TextChunker.java:129-133 | while the count stays within the maximum nothing is flushed, and the sentences accumulate in the buffer |
| TextChunker.FlushBeforeNext | pdf-processing/src/main/java/com/spyder/pdfprocessing/service/TextChunker.java:123-127 | a full buffer is emitted, trimmed, by the next sentence's step |
| TextChunker.RunIsEmitBlocks | pdf-processing/src/main/java/com/spyder/pdfprocessing/service/TextChunker.java:118-138 | the sentence loop emits one chunk per block of max(1, maxSentencesPerChunk) sentences |
| TextChunker.SentenceChunksAreBlocks | pdf-processing/src/main/java/com/spyder/pdfprocessing/service/TextChunker.java:111-141 | on non-empty text the chunks are those of consecutive blocks of max(1, max) sentences, in order |
| TextChunker.SentencesJoinedWithSpace | pdf-processing/src/main/java/com/spyder/pdfprocessing/service/TextChunker.java:129-132 | with no blank sentence, each chunk is its block's trimmed sentences joined by single spaces |
| VectorStore.ToStoreValue | qdrant-client/src/main/java/com/spyder/qdrant/service/QdrantService.java:98-108 | exactly the values of other types are dropped; a `Long` is stored narrowed to an `int` |
| VectorStore.DocumentPayload | qdrant-client/src/main/java/com/spyder/qdrant/service/QdrantService.java:90-109 | "content" is always present. Every metadata value of a copied type is stored under its key. No other key appears. The content survives unless the metadata carries a copied "content" |
| VectorStore.CreateDocumentPoint | qdrant-client/src/main/java/com/spyder/qdrant/service/QdrantService.java:79-121 | the point's id is the chunk id, its one vector is the embedding, and its payload is the converted metadata |
| VectorStore.FromStoreValue | qdrant-client/src/main/java/com/spyder/qdrant/service/QdrantService.java:149-157 | only a null, list or struct value has no reading |
| VectorStore.ReadPayload | qdrant-client/src/main/java/com/spyder/qdrant/service/QdrantService.java:146-158 | the result keeps exactly the string, integer, double and bool entries, each read back as its Java value |
| VectorStore.ConvertPointToMap | qdrant-client/src/main/java/com/spyder/qdrant/service/QdrantService.java:140-162 | a result holds the point's score and id and its readable payload |
| VectorStore.PayloadRoundTrip | qdrant-client/src/main/java/com/spyder/qdrant/service/QdrantService.java:94-109 | a metadata value stored and read back is present exactly when its type is copied, and comes back with integers as `Long` |
| VectorStore.CopiedPayloadRoundTrip | qdrant-client/src/main/java/com/spyder/qdrant/service/QdrantService.java:90-109 | metadata of copied types without a "content" key comes back whole, next to the content |
| VectorStore.ContentRoundTrip | qdrant-client/src/main/java/com/spyder/qdrant/service/QdrantService.java:91-99 | the content comes back unless a copied "content" metadata entry overwrote it |
| VectorStore.FilterConditions | qdrant-client/src/main/java/com/spyder/qdrant/service/QdrantService.java:189-226 | a text match on chapter, heading or subheading is present exactly when that filter is non-blank. A page-number match is present when a page is given. Nothing else is added |
| VectorStore.FilterRequest | qdrant-client/src/main/java/com/spyder/qdrant/service/QdrantService.java:228-239 | all conditions are required together, and the limit is passed through unchanged |
| VectorStore.UpsertAll | qdrant-client/src/main/java/com/spyder/qdrant/service/QdrantService.java:66-74 | an upsert adds the batch's ids and leaves every other stored point as it was |
| VectorStore.UpsertLastWins | qdrant-client/src/main/java/com/spyder/qdrant/service/QdrantService.java:66-74 | within a batch, the last point with an id is the one stored |
| VectorStore.ClearThenUpsert | qdrant-client/src/main/java/com/spyder/qdrant/service/QdrantService.java:123-138 | clearing and then upserting leaves exactly the batch's points |
| VectorStore.UpsertOnly | pdf-processing/src/main/java/com/spyder/service/QdrantService.java:148-155 | an upsert alone keeps the old ids and adds the batch's |
| VectorStore.UpsertKeeps | pdf-processing/src/main/java/com/spyder/service/QdrantService.java:148-155 | a stored point whose id the batch does not use is left as it was |
| DocumentUpload.MetadataMap | pdf-processing/src/main/java/com/spyder/pdfprocessing/service/DocumentService.java:40-56 | the map holds exactly the five fixed fields and each non-null hierarchy field, with their values |
| DocumentUpload.MetadataKeys | pdf-processing/src/main/java/com/spyder/pdfprocessing/service/DocumentService.java:41-45 | source, page_number, chunk_index, content_length and document_type are always present, and only hierarchy keys may be added |
| DocumentUpload.MetadataHierarchy | pdf-processing/src/main/java/com/spyder/pdfprocessing/service/DocumentService.java:48-56 | each of chapter, heading and subheading is present exactly when its field is non-null |
| DocumentUpload.MetadataAllCopied | pdf-processing/src/main/java/com/spyder/pdfprocessing/service/DocumentService.java:40-56 | no metadata value is of a type the point builder drops, and none sits under "content" |
| DocumentUpload.UpsertDocumentChunks | pdf-processing/src/main/java/com/spyder/pdfprocessing/service/DocumentService.java:21-68 | when the lengths differ it throws before any store call. Otherwise it clears, then makes one batched upsert of one point per chunk, paired positionally with its embedding |
| DocumentUpload.ChunkPayload | pdf-processing/src/main/java/com/spyder/pdfprocessing/service/DocumentService.java:58-63 | a stored chunk reads back as its content plus each metadata entry, and nothing else |
| DocumentUpload.UploadReplacesStore | pdf-processing/src/main/java/com/spyder/pdfprocessing/service/DocumentService.java:29-67 | after the upload the store holds exactly the chunks' ids: nothing from before survives |
| DocumentUpload.ChunkIds | pdf-processing/src/main/java/com/spyder/pdfprocessing/service/DocumentService.java:35-64 | one point per chunk with the chunk's id gives exactly the chunks' ids |
| DocumentUpload.UploadPairsPositionally | pdf-processing/src/main/java/com/spyder/pdfprocessing/service/DocumentService.java:35-64 | the point stored under a chunk's id is that chunk's point with its own embedding, unless a later chunk reuses the id |
| LegacyQdrant.LegacyPayload | pdf-processing/src/main/java/com/spyder/service/QdrantService.java:114-131 | the payload has content, source, page_number, chunk_index, content_length and document_type, and each hierarchy key exactly when its field is non-null |
| LegacyQdrant.LegacyUpsert | pdf-processing/src/main/java/com/spyder/service/QdrantService.java:89-157 | when the lengths differ it throws before any call. Otherwise it makes a single upsert, with no clear, of one point per chunk in order: the chunk's id, its embedding under "fast-bge-small-en-v1.5", its payload |
| LegacyQdrant.ValueAgrees | pdf-processing/src/main/java/com/spyder/service/QdrantService.java:114-131 | under every key the legacy payload holds what the newer service's metadata map converts to |
| LegacyQdrant.PayloadsAgree | pdf-processing/src/main/java/com/spyder/service/QdrantService.java:114-145 | both services store the same id and payload for a chunk; only the vector differs, named against unnamed |
| LegacyQdrant.LegacyUploadKeeps | pdf-processing/src/main/java/com/spyder/service/QdrantService.java:148-155 | the upload adds the chunks' ids and keeps every stored point whose id no chunk uses |
| Embedding.CopyOf | qdrant-client/src/main/java/com/spyder/qdrant/service/EmbeddingService.java:126-127 | a negative length throws. Otherwise the copy has the new length: the original entries, then zeros |
| Embedding.CopyOfPrefix | qdrant-client/src/main/java/com/spyder/qdrant/service/EmbeddingService.java:126-127 | a copy no longer than the array is a prefix, and copying twice is one copy to the shorter length |
| Embedding.PrepareInputs | qdrant-client/src/main/java/com/spyder/qdrant/service/EmbeddingService.java:119-132 | ids and mask are kept when the ids fit and cut to the maximum length when they are longer. Token types are all zero and as long as the ids. Only a negative maximum on a longer input throws |
| Embedding.PrepareIdempotent | qdrant-client/src/main/java/com/spyder/qdrant/service/EmbeddingService.java:124-132 | preparing prepared inputs again changes nothing |
| Embedding.SingleEmbedding | qdrant-client/src/main/java/com/spyder/qdrant/service/EmbeddingService.java:117-158 | the embedding fails exactly when tokenizing, truncating (a negative maximum length with longer ids) or the model fails; when the first two succeed, the model runs on the prepared inputs |
| Embedding.ZeroVector | qdrant-client/src/main/java/com/spyder/qdrant/service/EmbeddingService.java:91-95 | the fallback is all zeros of the configured length, and throws only for a negative length |
| Embedding.GenerateQueryEmbedding | qdrant-client/src/main/java/com/spyder/qdrant/service/EmbeddingService.java:105-112 | a successful embedding is returned as is, and a failed one becomes the zero vector. The call throws only when the fallback cannot be built |
| Embedding.GenerateEmbeddings | qdrant-client/src/main/java/com/spyder/qdrant/service/EmbeddingService.java:81-100 | on success there is exactly one vector per chunk |
| Embedding.EmbeddingsPerChunk | qdrant-client/src/main/java/com/spyder/qdrant/service/EmbeddingService.java:85-96 | each chunk's vector, in order, is its own embedding or zeros when that failed. The call throws exactly when some fallback cannot be built |
| Embedding.FailedChunkGetsZeros | qdrant-client/src/main/java/com/spyder/qdrant/service/EmbeddingService.java:91-95 | with a usable dimension count a failed chunk gets zeros and the batch goes on |
| Embedding.EmbeddingsConcat | qdrant-client/src/main/java/com/spyder/qdrant/service/EmbeddingService.java:87-96 | embedding two batches one after the other is embedding the joined batch |
| Sorting.SortPermutes | mcp-server/src/main/java/com/spyder/mcp/service/QdrantMcpSearchService.java:50 | the sort is a permutation of its input |
| Sorting.SortSorted | mcp-server/src/main/java/com/spyder/mcp/service/QdrantMcpSearchService.java:50 | under a total, transitive comparator the result is sorted |
| Sorting.SortStable | mcp-server/src/main/java/com/spyder/mcp/service/QdrantMcpSearchService.java:50 | the elements the comparator calls equal keep their input order |
| Sorting.SortedUnique | mcp-server/src/main/java/com/spyder/mcp/service/QdrantMcpSearchService.java:50 | two sorted sequences that agree on every class of equal elements, in order, are equal |
| Sorting.TheStableSort | mcp-server/src/main/java/com/spyder/mcp/service/QdrantMcpSearchService.java:50 | any sorted sequence that keeps every class of equal elements in input order is the sort's result |
| SearchService.ScoreOrderIsTotal | mcp-server/src/main/java/com/spyder/mcp/service/QdrantMcpSearchService.java:61-65 | the reversed score comparator is total and transitive |
| SearchService.ScoredRecords | mcp-server/src/main/java/com/spyder/mcp/service/QdrantMcpSearchService.java:44-47 | one record per point, in the store's order |
| SearchService.SearchSimilarChunks | mcp-server/src/main/java/com/spyder/mcp/service/QdrantMcpSearchService.java:27-59 | the store is asked with the query embedding and the limit, 3 when none is given. The result is a permutation of its answer, highest score first. A failure of the embedding or the store gives an empty list |
| SearchService.SimilarTiesKeepStoreOrder | mcp-server/src/main/java/com/spyder/mcp/service/QdrantMcpSearchService.java:50 | records with equal scores keep the store's order |
| SearchService.ConvertRetrievedPoint | mcp-server/src/main/java/com/spyder/mcp/service/QdrantMcpSearchService.java:123-145 | the record has the id, no score, and exactly the string, integer, double and bool payload entries |
| SearchService.RetrievedLikeScored | mcp-server/src/main/java/com/spyder/mcp/service/QdrantMcpSearchService.java:123-145 | a retrieved point reads back like a scored point with the same id and payload, less the score |
| SearchService.FirstPresent | mcp-server/src/main/java/com/spyder/mcp/service/QdrantMcpSearchService.java:182-186 | nothing is found exactly when none of the keys is present |
| SearchService.FirstPresentIsFirst | mcp-server/src/main/java/com/spyder/mcp/service/QdrantMcpSearchService.java:182-186 | what is found sits under the first present key, and no earlier key is present |
| SearchService.IndexValue | mcp-server/src/main/java/com/spyder/mcp/service/QdrantMcpSearchService.java:188-201 | an `Integer` is its own index, a `Long` is narrowed by `intValue`, a `String` is `parseInt` of it (an index exactly when it is a signed decimal in the 32-bit range), and a double, bool or other value gives no index |
| SearchService.ExtractChunkIndex | mcp-server/src/main/java/com/spyder/mcp/service/QdrantMcpSearchService.java:178-202 | a null payload or one with none of the five keys gives null. Otherwise the value under the first present key decides |
| SearchService.EarlierKeyDecides | mcp-server/src/main/java/com/spyder/mcp/service/QdrantMcpSearchService.java:182-198 | an unparseable "chunkIndex" hides a good "chunk_index": no later key is tried |
| SearchService.StoredIndexReadBack | mcp-server/src/main/java/com/spyder/mcp/service/QdrantMcpSearchService.java:183-191 | the "chunk_index" the upload stores, read back as a `Long`, gives the index back |
| SearchService.Compare | mcp-server/src/main/java/com/spyder/mcp/service/QdrantMcpSearchService.java:166 | the sign of the result orders the two ints |
| SearchService.IndexCompare | mcp-server/src/main/java/com/spyder/mcp/service/QdrantMcpSearchService.java:161-166 | two missing indices compare equal, a missing index is greater than a present one, and present ones compare as ints |
| SearchService.IndexOrderIsTotal | mcp-server/src/main/java/com/spyder/mcp/service/QdrantMcpSearchService.java:152-172 | the chunk-index comparator is total and transitive |
| SearchService.SortedIsAscending | mcp-server/src/main/java/com/spyder/mcp/service/QdrantMcpSearchService.java:152-172 | sorted by the comparator means exactly: present indices ascend, and all missing ones come last |
| SearchService.SortByChunkIndex | mcp-server/src/main/java/com/spyder/mcp/service/QdrantMcpSearchService.java:151-173 | the result is a permutation of the records with present indices ascending and missing ones last |
| SearchService.ChunkIndexSortStable | mcp-server/src/main/java/com/spyder/mcp/service/QdrantMcpSearchService.java:151-173 | records with equal indices, or with none, keep the store's order |
| SearchService.RetrievedRecords | mcp-server/src/main/java/com/spyder/mcp/service/QdrantMcpSearchService.java:97-100 | one record per point, in the store's order |
| SearchService.SearchWithFilters | mcp-server/src/main/java/com/spyder/mcp/service/QdrantMcpSearchService.java:71-116 | with no non-blank filter and no page it throws an invalid-argument error. The store is asked with the limit, 50 when none is given. An invalid-argument error from it is rethrown, and any other failure gives an empty list. Results are a permutation of its answer in chunk-index order |
| SearchService.FilterResultIsTheStableSort | mcp-server/src/main/java/com/spyder/mcp/service/QdrantMcpSearchService.java:151-173 | any sequence in chunk-index order that keeps equal indices in the store's order is the filter search's result |

## Left out

- **PDF loading and text extraction.** `extractText`, `extractTextWithPages`, `extractTextWithFontInfo` and `extractTextFromPage` are file I/O through PDFBox. The page texts, the glyphs of a page and the outline tree are inputs instead.
- **`processOutlineItem` and `extractOutline`.** These are the string-path variant of the outline walk, which the chunker does not use.
- **PDFBox calls in the stripper.** The calls into `PDFTextStripper` from `processTextPosition` and `endPage`, and the `TextWithFont.toString` formatting, are foreign library and floating-point formatting.
- **The ONNX session and the tokenizer.** Mean pooling and L2 normalisation are foreign inference and float numerics. They are the `infer` and `tokenize` parameters of `Embedding.Embedder`.
- **Network calls.** `createCollectionIfNotExists`, `createCollection`, `deleteCollection`, the REST path and the gRPC client calls are network I/O. Upload and clear are store calls applied to a map. A failing store call is not modelled, so `DocumentUpload.UpsertDocumentChunks` and `LegacyQdrant.LegacyUpsert` always reach the store.
- **Logging.** It has no effect on results. This covers the hierarchy string that `chunkTextWithOutlineMetadata` builds only to log it.
- **UUID generation.** The random id of each chunk is the parameter `freshId`.
- **The legacy `DocumentChunk` class.** `com.spyder.model.DocumentChunk`, used by the legacy `QdrantService`, is not part of this model. `LegacyQdrant` assumes it has the fields of the qdrant-client `DocumentChunk`.
- **Null strings.** `chunkText(null)` and `chunkBySentences(null, …)` are not modelled, since strings are never null. A chunk constructed with null content, which throws on `content.length()`, is not modelled either. Null page texts are modelled, as `Page.text == None`.
- **The comparator's catch block.** It returns 0, but it is unreachable: every record built by `convertRetrievedPointToMap` has a map payload.
- **NaN.** Scores, font sizes and vector entries are not floats, so no NaN ordering is modelled.
- TextChunker.WindowEnd: `start + chunkSize` is computed without the 32-bit wrap-around of Java `int`, which only matters for a chunk size near 2^31.
- TextChunker.NextStart: `end - overlap` is computed without the 32-bit wrap-around of Java `int`. For an overlap at or below `end - 2^31` (such as `Integer.MIN_VALUE`) Java's difference wraps negative and the next start is `start + 1`, where the model jumps to `end - overlap`, past the text. So `TextChunker.PageChunks`, `TextChunker.ChunkText` and `TextChunker.ChunkTextWithOutlineMetadata` give other windows than Java for such overlaps; for "ab cd" with size 2 and overlap `Integer.MIN_VALUE` the model gives one chunk and Java four. The window lemmas assume a non-negative overlap, where no wrap occurs.
- TextChunker.WindowEnd: window sizes, `text.length()` and the snap positions of `lastIndexOf(' ', end)` count Unicode scalar values, while Java counts UTF-16 code units. On text with characters outside the Basic Multilingual Plane, Java cuts its windows at other positions and may split a surrogate pair, which a `seq<char>` cannot represent. The same holds for `TextChunker.PageChunks`, `TextChunker.ChunkBounds` and `TextChunker.ChunkText`, which use these windows.
- DocumentChunks.NewDocumentChunk: the content length counts Unicode scalar values, while `content.length()` counts UTF-16 code units. For a character outside the Basic Multilingual Plane (such as U+1D400) the model counts 1 where Java counts 2.
- FontStripper.ProcessTextPosition: font sizes are kept in hundredths of a point and the 0.1pt tolerance is compared exactly. Java compares the `float` difference with 0.1, so the outcome of a change of exactly 0.1pt depends on float rounding: `12.1f - 12.0f` is slightly more than 0.1, so Java starts a new line where the model continues it.
- TextChunker.ChunkBySentences: the split of the text after '.', '!' or '?' (`split("(?<=[.!?])\\s+")`) is taken as the `sentences` input and not derived from the text, because Dafny has no regular expressions.
- TextChunker.SentencesJoinedWithSpace: stated only when no sentence is blank. A blank sentence adds an empty piece after a space, so "joined by single spaces" does not hold for it.
- FontStripper.CollapseFrom: `Character.isLetter` is restricted to the ASCII letters, because Unicode letter categories are not modelled.
- JavaText.ParseInt: only ASCII digits are accepted, while `Integer.parseInt` also accepts other Unicode decimal digits.
- JavaText.FileName: models Unix path semantics only.
- SearchService.SearchSimilarChunks: the results are stated as a permutation ordered by score, with ties in the store's order. `float` scores are modelled as reals, so NaN is not covered.
- TextChunker.ChunkTextWithOutlineMetadata: the page map is taken as a sequence in ascending page order. That is the iteration order of the `HashMap` of small `Integer` keys that `PdfExtractor` fills.
