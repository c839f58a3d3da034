/**
 * `TextChunker`: cutting page text into overlapping, word-snapped windows,
 * numbering the chunks of a whole document while carrying the outline
 * hierarchy forward, and grouping sentences into fixed-size chunks.
 */
module TextChunker {
  import opened Wrappers
  import opened JavaText
  import opened DocumentChunks
  import Outline

  /** The chunking properties: window size and overlap, in chars. Neither has a default. */
  datatype Chunking = Chunking(size: int, overlap: int)

  function Min(a: int, b: int): int {
    if a <= b then a else b
  }

  function Max(a: int, b: int): int {
    if a >= b then a else b
  }

  // ---------------------------------------------------------------------------
  // chunkText: the window loop
  // ---------------------------------------------------------------------------

  /** The half-open char range `[start, end)` of one chunk. */
  datatype Window = Window(start: nat, end: nat)

  /**
   * `end` is where a cut at `cut` lands after moving back to the last space in
   * `(start, cut]`: that space when there is one, `cut` itself otherwise.
   */
  predicate SnappedBack(text: string, start: nat, cut: nat, end: nat)
    requires start <= cut < |text|
  {
    || (end == cut && forall k :: start < k <= cut ==> text[k] != ' ')
    || (start < end <= cut && text[end] == ' ' && forall k :: end < k <= cut ==> text[k] != ' ')
  }

  /**
   * Where the window that starts at `start` ends: `size` chars on, capped at the
   * end of the text; when that cut falls inside the text it moves back to the
   * last space after `start`, if there is one.
   */
  function WindowEnd(text: string, start: nat, size: nat): (end: nat)
    requires start < |text|
    ensures start <= end <= |text| && end - start <= size
    ensures start + size >= |text| ==> end == |text|
    ensures size >= 1 ==> start < end
  {
    var capped := Min(start + size, |text|);
    if capped < |text| then
      var lastSpace := LastSpaceAtOrBefore(text, capped);
      if lastSpace > start then lastSpace else capped
    else capped
  }

  /** Inside the text the cut `size` chars on snaps back to the last space after `start`. */
  lemma WindowEndSnaps(text: string, start: nat, size: nat)
    requires start + size < |text|
    ensures SnappedBack(text, start, start + size, WindowEnd(text, start, size))
  {
  }

  /** The next start: back `overlap` chars from `end`, but always at least one char on. */
  function NextStart(start: nat, end: nat, overlap: int): (next: nat)
    ensures next > start
    ensures next == start + 1 || next == end - overlap
  {
    Max(start + 1, end - overlap)
  }

  /** Every window lies inside `text`. */
  predicate InText(text: string, ws: seq<Window>) {
    forall i :: 0 <= i < |ws| ==> ws[i].start <= ws[i].end <= |text|
  }

  /** The windows the loop visits from `start` on. */
  function WindowsFrom(text: string, size: nat, overlap: int, start: nat): (r: seq<Window>)
    ensures |r| == 0 <==> start >= |text|
    ensures InText(text, r)
    decreases |text| - start
  {
    if start >= |text| then []
    else
      var end := WindowEnd(text, start, size);
      if end >= |text| then [Window(start, end)]
      else
        var rest := WindowsFrom(text, size, overlap, NextStart(start, end, overlap));
        var r := [Window(start, end)] + rest;
        assert forall i :: 1 <= i < |r| ==> r[i] == rest[i - 1];
        r
  }

  /** The first window starts at `start`, and there are at most |text| - start windows. */
  lemma {:induction false} WindowsFirst(text: string, size: nat, overlap: int, start: nat)
    ensures var r := WindowsFrom(text, size, overlap, start);
      |r| > 0 ==> r[0] == Window(start, WindowEnd(text, start, size)) && start + |r| <= |text|
    decreases |text| - start
  {
    if start < |text| {
      var end := WindowEnd(text, start, size);
      if end < |text| {
        WindowsFirst(text, size, overlap, NextStart(start, end, overlap));
      }
    }
  }

  /** Each window of `r` starts inside the text, at or after `start`, and ends where `WindowEnd` puts it. */
  predicate EndsWhereSized(text: string, size: nat, start: nat, r: seq<Window>) {
    forall i :: 0 <= i < |r| ==> start <= r[i].start < |text| && r[i].end == WindowEnd(text, r[i].start, size)
  }

  lemma {:induction false} WindowsEach(text: string, size: nat, overlap: int, start: nat)
    ensures EndsWhereSized(text, size, start, WindowsFrom(text, size, overlap, start))
    decreases |text| - start
  {
    var r := WindowsFrom(text, size, overlap, start);
    if start < |text| {
      var end := WindowEnd(text, start, size);
      if end < |text| {
        var next := NextStart(start, end, overlap);
        var rest := WindowsFrom(text, size, overlap, next);
        WindowsEach(text, size, overlap, next);
        assert r == [Window(start, end)] + rest;
        forall i | 0 <= i < |r|
          ensures start <= r[i].start < |text| && r[i].end == WindowEnd(text, r[i].start, size)
        {
          if i > 0 {
            assert r[i] == rest[i - 1];
          }
        }
      } else {
        assert r == [Window(start, end)];
      }
    }
  }

  /** Each window of `r` but the last ends inside the text and is followed by the window at its `NextStart`. */
  ghost predicate Chained(text: string, overlap: int, r: seq<Window>) {
    forall i, j :: 0 <= i && j == i + 1 && j < |r| ==>
      r[i].end < |text| && r[j].start == NextStart(r[i].start, r[i].end, overlap)
  }

  lemma {:induction false} WindowsChain(text: string, size: nat, overlap: int, start: nat)
    ensures Chained(text, overlap, WindowsFrom(text, size, overlap, start))
    decreases |text| - start
  {
    var r := WindowsFrom(text, size, overlap, start);
    if start < |text| {
      var end := WindowEnd(text, start, size);
      if end < |text| {
        var next := NextStart(start, end, overlap);
        var rest := WindowsFrom(text, size, overlap, next);
        WindowsChain(text, size, overlap, next);
        WindowsFirst(text, size, overlap, next);
        assert r == [Window(start, end)] + rest;
        forall i, j | 0 <= i && j == i + 1 && j < |r|
          ensures r[i].end < |text| && r[j].start == NextStart(r[i].start, r[i].end, overlap)
        {
          assert r[j] == rest[j - 1];
          if i > 0 {
            assert r[i] == rest[i - 1];
          }
        }
      } else {
        assert r == [Window(start, end)];
      }
    }
  }

  /** The loop stops after a window that reaches the end or whose successor would start past it. */
  lemma {:induction false} LastWindow(text: string, size: nat, overlap: int, start: nat)
    ensures var ws := WindowsFrom(text, size, overlap, start);
      |ws| > 0 ==> ws[|ws| - 1].end == |text| || NextStart(ws[|ws| - 1].start, ws[|ws| - 1].end, overlap) >= |text|
    decreases |text| - start
  {
    var ws := WindowsFrom(text, size, overlap, start);
    if |ws| > 1 {
      var next := NextStart(start, WindowEnd(text, start, size), overlap);
      LastWindow(text, size, overlap, next);
      assert ws[1..] == WindowsFrom(text, size, overlap, next);
    }
  }

  /** The window starts strictly increase. */
  predicate StartsIncreasing(ws: seq<Window>) {
    forall i, j :: 0 <= i < j < |ws| ==> ws[i].start < ws[j].start
  }

  lemma {:induction false} StartsIncrease(text: string, size: nat, overlap: int, start: nat)
    ensures StartsIncreasing(WindowsFrom(text, size, overlap, start))
    decreases |text| - start
  {
    var ws := WindowsFrom(text, size, overlap, start);
    if start < |text| {
      var end := WindowEnd(text, start, size);
      if end < |text| {
        var next := NextStart(start, end, overlap);
        var rest := WindowsFrom(text, size, overlap, next);
        StartsIncrease(text, size, overlap, next);
        WindowsEach(text, size, overlap, next);
        assert ws == [Window(start, end)] + rest;
        forall i, j | 0 <= i < j < |ws|
          ensures ws[i].start < ws[j].start
        {
          assert ws[j] == rest[j - 1];
          if i > 0 {
            assert ws[i] == rest[i - 1];
          }
        }
      } else {
        assert ws == [Window(start, end)];
      }
    }
  }

  /** All windows of `text`, starting at 0. */
  function Windows(text: string, size: nat, overlap: int): seq<Window> {
    WindowsFrom(text, size, overlap, 0)
  }

  /** The trimmed text of each window. */
  function ChunksOf(text: string, ws: seq<Window>): seq<string>
    requires InText(text, ws)
  {
    if |ws| == 0 then [] else [Trim(text[ws[0].start..ws[0].end])] + ChunksOf(text, ws[1..])
  }

  /** One chunk per window, the i-th being the i-th window's text, trimmed. */
  lemma {:induction false} ChunkIsTrimmedWindow(text: string, ws: seq<Window>, i: nat)
    requires InText(text, ws) && i < |ws|
    ensures |ChunksOf(text, ws)| == |ws|
    ensures ChunksOf(text, ws)[i] == Trim(text[ws[i].start..ws[i].end])
  {
    if i > 0 {
      ChunkIsTrimmedWindow(text, ws[1..], i - 1);
    } else {
      ChunkCount(text, ws);
    }
  }

  lemma {:induction false} ChunkCount(text: string, ws: seq<Window>)
    requires InText(text, ws)
    ensures |ChunksOf(text, ws)| == |ws|
  {
    if |ws| > 0 {
      ChunkCount(text, ws[1..]);
    }
  }

  /** `chunkText` with a usable window size. */
  function Chunks(text: string, size: nat, overlap: int): seq<string> {
    ChunksOf(text, Windows(text, size, overlap))
  }

  /**
   * `chunkText(text)`: nothing for empty text; a negative size makes the first
   * `substring` throw; otherwise the trimmed windows.
   */
  function PageChunks(text: string, cfg: Chunking): (r: Result<seq<string>>)
    ensures |text| == 0 ==> r == Ok([])
    ensures r.Err? <==> |text| > 0 && cfg.size < 0
    ensures r.Ok? && |text| > 0 ==> r.value == Chunks(text, cfg.size, cfg.overlap)
  {
    if |text| == 0 then Ok([])
    else if cfg.size < 0 then Err(IndexOutOfBounds)
    else Ok(Chunks(text, cfg.size, cfg.overlap))
  }

  /** Non-empty text gives between 1 and |text| chunks, none longer than the window size. */
  lemma ChunkBounds(text: string, size: nat, overlap: int)
    requires |text| > 0
    ensures var cs := Chunks(text, size, overlap);
      1 <= |cs| <= |text| && forall i :: 0 <= i < |cs| ==> |cs[i]| <= size
  {
    var ws := Windows(text, size, overlap);
    var cs := Chunks(text, size, overlap);
    ChunkCount(text, ws);
    WindowsFirst(text, size, overlap, 0);
    WindowsEach(text, size, overlap, 0);
    forall i | 0 <= i < |cs|
      ensures |cs[i]| <= size
    {
      ChunkIsTrimmedWindow(text, ws, i);
      assert ws[i].end == WindowEnd(text, ws[i].start, size);
      assert |cs[i]| <= ws[i].end - ws[i].start;
    }
  }

  /** One turn of the loop: the window at `start`, then the windows from the next start, if any. */
  lemma ChunksOfStep(text: string, size: nat, overlap: int, start: nat)
    requires start < |text|
    ensures var end := WindowEnd(text, start, size);
      end >= |text| ==> ChunksOf(text, WindowsFrom(text, size, overlap, start)) == [Trim(text[start..end])]
    ensures var end := WindowEnd(text, start, size);
      end < |text| ==>
        ChunksOf(text, WindowsFrom(text, size, overlap, start))
        == [Trim(text[start..end])] + ChunksOf(text, WindowsFrom(text, size, overlap, NextStart(start, end, overlap)))
  {
    var ws := WindowsFrom(text, size, overlap, start);
    assert ws[0] == Window(start, WindowEnd(text, start, size));
  }

  /** `chunkText`: the guards, then the window loop. */
  method ChunkText(text: string, cfg: Chunking) returns (r: Result<seq<string>>)
    ensures r == PageChunks(text, cfg)
  {
    if |text| == 0 {
      return Ok([]);
    }
    if cfg.size < 0 {
      return Err(IndexOutOfBounds);
    }
    var chunks := ChunkWindows(text, cfg.size, cfg.overlap);
    return Ok(chunks);
  }

  /** The window loop of `chunkText`, computing what `Chunks` describes. */
  method ChunkWindows(text: string, size: nat, overlap: int) returns (chunks: seq<string>)
    ensures chunks == Chunks(text, size, overlap)
  {
    chunks := [];
    var start: nat := 0;
    while start < |text|
      invariant chunks + ChunksOf(text, WindowsFrom(text, size, overlap, start)) == Chunks(text, size, overlap)
      decreases |text| - start
    {
      var end := WindowEnd(text, start, size);
      ChunksOfStep(text, size, overlap, start);
      ghost var before := chunks;
      chunks := chunks + [Trim(text[start..end])];
      if end >= |text| {
        return;
      }
      ghost var later := ChunksOf(text, WindowsFrom(text, size, overlap, NextStart(start, end, overlap)));
      assert before + ([Trim(text[start..end])] + later) == chunks + later;
      start := NextStart(start, end, overlap);
    }
    assert WindowsFrom(text, size, overlap, start) == [];
    assert chunks + [] == chunks;
  }

  /**
   * With a positive size and a non-negative overlap consecutive windows leave no
   * gap and share at most `overlap` chars, and the last window reaches the end.
   */
  lemma WindowsOverlap(text: string, size: nat, overlap: int)
    requires size >= 1 && overlap >= 0
    ensures var ws := Windows(text, size, overlap);
      forall i, j :: 0 <= i && j == i + 1 && j < |ws| ==>
        ws[j].start <= ws[i].end && ws[i].end - ws[j].start <= overlap
    ensures var ws := Windows(text, size, overlap);
      |ws| > 0 ==> ws[|ws| - 1].end == |text|
  {
    var ws := Windows(text, size, overlap);
    LastWindow(text, size, overlap, 0);
    WindowsEach(text, size, overlap, 0);
    WindowsChain(text, size, overlap, 0);
    forall i, j | 0 <= i && j == i + 1 && j < |ws|
      ensures ws[j].start <= ws[i].end && ws[i].end - ws[j].start <= overlap
    {
      assert ws[i].start < ws[i].end == WindowEnd(text, ws[i].start, size);
    }
    if |ws| > 0 {
      var last := ws[|ws| - 1];
      assert last.start < last.end == WindowEnd(text, last.start, size);
    }
  }

  /** Some window of `ws` contains position `k`. */
  predicate Covers(ws: seq<Window>, k: int) {
    exists i :: 0 <= i < |ws| && ws[i].start <= k < ws[i].end
  }

  lemma {:induction false} WindowsCoverFrom(text: string, size: nat, overlap: int, start: nat, k: int)
    requires size >= 1 && overlap >= 0
    requires start <= k < |text|
    ensures Covers(WindowsFrom(text, size, overlap, start), k)
    decreases |text| - start
  {
    var ws := WindowsFrom(text, size, overlap, start);
    var end := WindowEnd(text, start, size);
    assert ws[0] == Window(start, end);
    if k < end {
      assert ws[0].start <= k < ws[0].end;
    } else {
      var next := NextStart(start, end, overlap);
      WindowsCoverFrom(text, size, overlap, next, k);
      var rest := WindowsFrom(text, size, overlap, next);
      assert ws[1..] == rest;
      var i :| 0 <= i < |rest| && rest[i].start <= k < rest[i].end;
      assert ws[i + 1] == rest[i];
    }
  }

  /** Under the same conditions every char of the text lies in some window. */
  lemma WindowsCover(text: string, size: nat, overlap: int, k: int)
    requires size >= 1 && overlap >= 0
    requires 0 <= k < |text|
    ensures Covers(Windows(text, size, overlap), k)
  {
    WindowsCoverFrom(text, size, overlap, 0, k);
  }

  /** 2500 chars without a space, size 1000, overlap 100: windows at 0, 900 and 1800. */
  lemma UnspacedExample(text: string)
    requires |text| == 2500
    requires forall k :: 0 <= k < |text| ==> text[k] != ' '
    ensures Windows(text, 1000, 100) == [Window(0, 1000), Window(900, 1900), Window(1800, 2500)]
  {
    assert WindowEnd(text, 0, 1000) == 1000;
    assert WindowEnd(text, 900, 1000) == 1900;
    assert WindowEnd(text, 1800, 1000) == 2500;
    assert WindowsFrom(text, 1000, 100, 1800) == [Window(1800, 2500)];
    assert WindowsFrom(text, 1000, 100, 900) == [Window(900, 1900), Window(1800, 2500)];
  }

  // ---------------------------------------------------------------------------
  // chunkTextWithOutlineMetadata: pages, numbering and the sticky hierarchy
  // ---------------------------------------------------------------------------

  /** One entry of the page-text map: a page number and its text, which may be null. */
  datatype Page = Page(number: int, text: Option<string>)

  /** A page the chunker looks at: its text is present and not blank. */
  predicate Processed(p: Page) {
    p.text.Some? && !IsBlank(p.text.value)
  }

  /** The chunks of one processed page, numbered from `index` on, all tagged with `h`. */
  function PageRecords(p: Page, h: Outline.Hierarchy, fileName: string, cfg: Chunking,
                       freshId: nat -> string, index: nat): (r: seq<DocumentChunk>)
    requires Processed(p) && cfg.size >= 0
    ensures |r| == |Chunks(p.text.value, cfg.size, cfg.overlap)|
  {
    var contents := Chunks(p.text.value, cfg.size, cfg.overlap);
    seq(|contents|, i requires 0 <= i < |contents| =>
      NewDocumentChunk(freshId(index + i), contents[i], fileName, p.number, h.chapter, h.heading, h.subheading, index + i))
  }

  /**
   * The page loop, from chunk number `index` on, with `h` the hierarchy in force:
   * blank pages are skipped; an outline entry of a processed page replaces `h`.
   */
  function ChunkPages(pages: seq<Page>, outline: map<int, Outline.Hierarchy>, fileName: string, cfg: Chunking,
                      freshId: nat -> string, index: nat, h: Outline.Hierarchy): seq<DocumentChunk>
    requires cfg.size >= 0
  {
    if |pages| == 0 then []
    else if !Processed(pages[0]) then ChunkPages(pages[1..], outline, fileName, cfg, freshId, index, h)
    else
      var p := pages[0];
      var current := if p.number in outline then outline[p.number] else h;
      var here := PageRecords(p, current, fileName, cfg, freshId, index);
      here + ChunkPages(pages[1..], outline, fileName, cfg, freshId, index + |here|, current)
  }

  /** The chunks of `r` are well formed, tagged with `fileName` and numbered on from `index`, each with the id drawn for its number. */
  predicate Numbered(r: seq<DocumentChunk>, index: nat, fileName: string, freshId: nat -> string) {
    forall i :: 0 <= i < |r| ==>
      && r[i].metadata.chunkIndex == index + i
      && r[i].id == freshId(index + i)
      && r[i].metadata.source == fileName
      && WellFormed(r[i])
  }

  /** A page's chunks are numbered on from `index`. */
  lemma PageRecordsNumbered(p: Page, h: Outline.Hierarchy, fileName: string, cfg: Chunking,
                            freshId: nat -> string, index: nat)
    requires Processed(p) && cfg.size >= 0
    ensures Numbered(PageRecords(p, h, fileName, cfg, freshId, index), index, fileName, freshId)
  {
  }

  /** Two numbered runs, the second going on where the first stops, make one numbered run. */
  lemma NumberedConcat(a: seq<DocumentChunk>, b: seq<DocumentChunk>, index: nat, fileName: string, freshId: nat -> string)
    requires Numbered(a, index, fileName, freshId) && Numbered(b, index + |a|, fileName, freshId)
    ensures Numbered(a + b, index, fileName, freshId)
  {
    forall i | |a| <= i < |a + b|
      ensures (a + b)[i] == b[i - |a|]
    {
    }
  }

  /** The page loop numbers its chunks consecutively from `index`. */
  lemma {:induction false} ChunkPagesNumbered(pages: seq<Page>, outline: map<int, Outline.Hierarchy>, fileName: string,
                                              cfg: Chunking, freshId: nat -> string, index: nat, h: Outline.Hierarchy)
    requires cfg.size >= 0
    ensures Numbered(ChunkPages(pages, outline, fileName, cfg, freshId, index, h), index, fileName, freshId)
  {
    if |pages| > 0 {
      if !Processed(pages[0]) {
        ChunkPagesNumbered(pages[1..], outline, fileName, cfg, freshId, index, h);
      } else {
        var p := pages[0];
        var current := if p.number in outline then outline[p.number] else h;
        var here := PageRecords(p, current, fileName, cfg, freshId, index);
        var rest := ChunkPages(pages[1..], outline, fileName, cfg, freshId, index + |here|, current);
        ChunkPagesNumbered(pages[1..], outline, fileName, cfg, freshId, index + |here|, current);
        PageRecordsNumbered(p, current, fileName, cfg, freshId, index);
        NumberedConcat(here, rest, index, fileName, freshId);
      }
    }
  }

  /** Some page of `pages` would be chunked. */
  predicate AnyProcessed(pages: seq<Page>) {
    exists k :: 0 <= k < |pages| && Processed(pages[k])
  }

  /**
   * `chunkTextWithOutlineMetadata`: pages in ascending order, chunks numbered
   * from 0, each tagged with the file name of `sourcePath`.
   */
  function ChunkTextWithOutlineMetadata(pages: seq<Page>, outline: map<int, Outline.Hierarchy>, sourcePath: string,
                                        cfg: Chunking, freshId: nat -> string): (r: Result<seq<DocumentChunk>>)
    ensures r.Err? <==> FileName(sourcePath).Err? || (cfg.size < 0 && AnyProcessed(pages))
    ensures r.Ok? ==> forall i :: 0 <= i < |r.value| ==>
      && r.value[i].metadata.chunkIndex == i
      && r.value[i].id == freshId(i)
      && r.value[i].metadata.source == FileName(sourcePath).value
      && WellFormed(r.value[i])
  {
    var fileName :- FileName(sourcePath);
    if cfg.size >= 0 then
      ChunkPagesNumbered(pages, outline, fileName, cfg, freshId, 0, Outline.NoHierarchy);
      Ok(ChunkPages(pages, outline, fileName, cfg, freshId, 0, Outline.NoHierarchy))
    else if AnyProcessed(pages) then Err(IndexOutOfBounds)
    else Ok([])
  }

  /**
   * The hierarchy in force at page index `j`: the outline entry of the latest
   * processed page at or before `j` that has one, or all-null when none has.
   */
  function StickyAt(pages: seq<Page>, outline: map<int, Outline.Hierarchy>, j: int): Outline.Hierarchy
    requires j < |pages|
    decreases j + 1
  {
    if j < 0 then Outline.NoHierarchy
    else if Processed(pages[j]) && pages[j].number in outline then outline[pages[j].number]
    else StickyAt(pages, outline, j - 1)
  }

  /** The page loop again, with each page's hierarchy looked up by `StickyAt` instead of carried. */
  function ByLookback(pages: seq<Page>, outline: map<int, Outline.Hierarchy>, fileName: string, cfg: Chunking,
                      freshId: nat -> string, j: nat, index: nat): seq<DocumentChunk>
    requires cfg.size >= 0 && j <= |pages|
    decreases |pages| - j
  {
    if j == |pages| then []
    else if !Processed(pages[j]) then ByLookback(pages, outline, fileName, cfg, freshId, j + 1, index)
    else
      var here := PageRecords(pages[j], StickyAt(pages, outline, j), fileName, cfg, freshId, index);
      here + ByLookback(pages, outline, fileName, cfg, freshId, j + 1, index + |here|)
  }

  lemma {:induction false} CarriedIsLookback(pages: seq<Page>, outline: map<int, Outline.Hierarchy>, fileName: string,
                                             cfg: Chunking, freshId: nat -> string, j: nat, index: nat)
    requires cfg.size >= 0 && j <= |pages|
    ensures ChunkPages(pages[j..], outline, fileName, cfg, freshId, index, StickyAt(pages, outline, j - 1))
         == ByLookback(pages, outline, fileName, cfg, freshId, j, index)
    decreases |pages| - j
  {
    if j < |pages| {
      assert pages[j..][0] == pages[j];
      assert pages[j..][1..] == pages[j + 1..];
      if Processed(pages[j]) {
        var here := PageRecords(pages[j], StickyAt(pages, outline, j), fileName, cfg, freshId, index);
        CarriedIsLookback(pages, outline, fileName, cfg, freshId, j + 1, index + |here|);
      } else {
        CarriedIsLookback(pages, outline, fileName, cfg, freshId, j + 1, index);
      }
    }
  }

  /**
   * The hierarchy is sticky: the document's chunks are those of each processed
   * page in turn, tagged with the hierarchy `StickyAt` finds for that page.
   */
  lemma StickyHierarchy(pages: seq<Page>, outline: map<int, Outline.Hierarchy>, fileName: string, cfg: Chunking,
                        freshId: nat -> string)
    requires cfg.size >= 0
    ensures ChunkPages(pages, outline, fileName, cfg, freshId, 0, Outline.NoHierarchy)
         == ByLookback(pages, outline, fileName, cfg, freshId, 0, 0)
  {
    CarriedIsLookback(pages, outline, fileName, cfg, freshId, 0, 0);
    assert pages[0..] == pages;
  }

  /** The tagging of a chunk equals `h`. */
  predicate TaggedWith(c: DocumentChunk, h: Outline.Hierarchy) {
    c.metadata.chapter == h.chapter && c.metadata.heading == h.heading && c.metadata.subheading == h.subheading
  }

  /** `c` carries the number, one window's text and the sticky hierarchy of a processed page at index `lo` or later. */
  ghost predicate FromPage(pages: seq<Page>, outline: map<int, Outline.Hierarchy>, cfg: Chunking, lo: nat, c: DocumentChunk)
    requires cfg.size >= 0
  {
    exists k :: lo <= k < |pages| && Processed(pages[k]) && PageOrigin(pages, outline, cfg, k, c)
  }

  /** `c` carries the number, one window's text and the sticky hierarchy of the processed page `pages[k]`. */
  predicate PageOrigin(pages: seq<Page>, outline: map<int, Outline.Hierarchy>, cfg: Chunking, k: nat, c: DocumentChunk)
    requires cfg.size >= 0 && k < |pages| && Processed(pages[k])
  {
    && c.metadata.pageNumber == pages[k].number
    && c.content in Chunks(pages[k].text.value, cfg.size, cfg.overlap)
    && TaggedWith(c, StickyAt(pages, outline, k))
  }

  /** Every chunk of `r` comes from a processed page at index `lo` or later. */
  ghost predicate AllFromPage(pages: seq<Page>, outline: map<int, Outline.Hierarchy>, cfg: Chunking, lo: nat, r: seq<DocumentChunk>)
    requires cfg.size >= 0
  {
    forall i :: 0 <= i < |r| ==> FromPage(pages, outline, cfg, lo, r[i])
  }

  lemma FromPageWeaken(pages: seq<Page>, outline: map<int, Outline.Hierarchy>, cfg: Chunking, lo: nat, r: seq<DocumentChunk>)
    requires cfg.size >= 0 && AllFromPage(pages, outline, cfg, lo + 1, r)
    ensures AllFromPage(pages, outline, cfg, lo, r)
  {
    forall i | 0 <= i < |r|
      ensures FromPage(pages, outline, cfg, lo, r[i])
    {
      assert FromPage(pages, outline, cfg, lo + 1, r[i]);
      var k :| lo + 1 <= k < |pages| && Processed(pages[k]) && PageOrigin(pages, outline, cfg, k, r[i]);
      assert lo <= k;
    }
  }

  lemma FromPageConcat(pages: seq<Page>, outline: map<int, Outline.Hierarchy>, cfg: Chunking, lo: nat, a: seq<DocumentChunk>,
                       b: seq<DocumentChunk>)
    requires cfg.size >= 0 && AllFromPage(pages, outline, cfg, lo, a) && AllFromPage(pages, outline, cfg, lo, b)
    ensures AllFromPage(pages, outline, cfg, lo, a + b)
  {
    forall i | 0 <= i < |a + b|
      ensures FromPage(pages, outline, cfg, lo, (a + b)[i])
    {
      if i >= |a| {
        assert (a + b)[i] == b[i - |a|];
      }
    }
  }

  /** The chunks of a processed page all come from that page. */
  lemma PageRecordsFromPage(pages: seq<Page>, outline: map<int, Outline.Hierarchy>, fileName: string, cfg: Chunking,
                            freshId: nat -> string, j: nat, index: nat)
    requires cfg.size >= 0 && j < |pages| && Processed(pages[j])
    ensures AllFromPage(pages, outline, cfg, j, PageRecords(pages[j], StickyAt(pages, outline, j), fileName, cfg, freshId, index))
  {
    var here := PageRecords(pages[j], StickyAt(pages, outline, j), fileName, cfg, freshId, index);
    forall i | 0 <= i < |here|
      ensures FromPage(pages, outline, cfg, j, here[i])
    {
      assert PageOrigin(pages, outline, cfg, j, here[i]);
    }
  }

  lemma {:induction false} LookbackProvenance(pages: seq<Page>, outline: map<int, Outline.Hierarchy>, fileName: string,
                                              cfg: Chunking, freshId: nat -> string, j: nat, index: nat)
    requires cfg.size >= 0 && j <= |pages|
    ensures AllFromPage(pages, outline, cfg, j, ByLookback(pages, outline, fileName, cfg, freshId, j, index))
    decreases |pages| - j
  {
    if j < |pages| {
      if Processed(pages[j]) {
        var here := PageRecords(pages[j], StickyAt(pages, outline, j), fileName, cfg, freshId, index);
        var rest := ByLookback(pages, outline, fileName, cfg, freshId, j + 1, index + |here|);
        LookbackProvenance(pages, outline, fileName, cfg, freshId, j + 1, index + |here|);
        FromPageWeaken(pages, outline, cfg, j, rest);
        PageRecordsFromPage(pages, outline, fileName, cfg, freshId, j, index);
        FromPageConcat(pages, outline, cfg, j, here, rest);
      } else {
        LookbackProvenance(pages, outline, fileName, cfg, freshId, j + 1, index);
        FromPageWeaken(pages, outline, cfg, j, ByLookback(pages, outline, fileName, cfg, freshId, j + 1, index));
      }
    }
  }

  /** Each emitted chunk carries the number, a window and the sticky hierarchy of a processed page. */
  lemma ChunkProvenance(pages: seq<Page>, outline: map<int, Outline.Hierarchy>, sourcePath: string, cfg: Chunking,
                        freshId: nat -> string, i: nat)
    requires cfg.size >= 0 && FileName(sourcePath).Ok?
    requires i < |ChunkTextWithOutlineMetadata(pages, outline, sourcePath, cfg, freshId).value|
    ensures FromPage(pages, outline, cfg, 0, ChunkTextWithOutlineMetadata(pages, outline, sourcePath, cfg, freshId).value[i])
  {
    var fileName := FileName(sourcePath).value;
    StickyHierarchy(pages, outline, fileName, cfg, freshId);
    LookbackProvenance(pages, outline, fileName, cfg, freshId, 0, 0);
    assert ChunkTextWithOutlineMetadata(pages, outline, sourcePath, cfg, freshId).value
        == ByLookback(pages, outline, fileName, cfg, freshId, 0, 0);
  }

  /** The loop on a processed first page: its chunks under its own entry or the carried hierarchy, then the rest. */
  lemma ChunkPagesOfProcessed(p: Page, rest: seq<Page>, outline: map<int, Outline.Hierarchy>, fileName: string,
                              cfg: Chunking, freshId: nat -> string, index: nat, h: Outline.Hierarchy)
    requires cfg.size >= 0 && Processed(p)
    ensures var current := if p.number in outline then outline[p.number] else h;
      var here := PageRecords(p, current, fileName, cfg, freshId, index);
      ChunkPages([p] + rest, outline, fileName, cfg, freshId, index, h)
        == here + ChunkPages(rest, outline, fileName, cfg, freshId, index + |here|, current)
  {
    assert ([p] + rest)[0] == p && ([p] + rest)[1..] == rest;
  }

  /** The processed pages of `pages`, in order. */
  function ProcessedPages(pages: seq<Page>): (r: seq<Page>)
    ensures forall i :: 0 <= i < |r| ==> Processed(r[i])
    ensures |r| <= |pages|
  {
    if |pages| == 0 then []
    else (if Processed(pages[0]) then [pages[0]] else []) + ProcessedPages(pages[1..])
  }

  /**
   * Blank pages have no effect at all: dropping them changes neither the chunks
   * nor the hierarchy, so an outline entry on a blank page is never applied.
   */
  lemma {:induction false} BlankPagesIgnored(pages: seq<Page>, outline: map<int, Outline.Hierarchy>, fileName: string,
                                             cfg: Chunking, freshId: nat -> string, index: nat, h: Outline.Hierarchy)
    requires cfg.size >= 0
    ensures ChunkPages(pages, outline, fileName, cfg, freshId, index, h)
         == ChunkPages(ProcessedPages(pages), outline, fileName, cfg, freshId, index, h)
  {
    if |pages| > 0 {
      var p := pages[0];
      if Processed(p) {
        var current := if p.number in outline then outline[p.number] else h;
        var here := PageRecords(p, current, fileName, cfg, freshId, index);
        BlankPagesIgnored(pages[1..], outline, fileName, cfg, freshId, index + |here|, current);
        ProcessedFirstPage(pages, outline, fileName, cfg, freshId, index, h);
      } else {
        BlankPagesIgnored(pages[1..], outline, fileName, cfg, freshId, index, h);
        assert ProcessedPages(pages) == [] + ProcessedPages(pages[1..]) == ProcessedPages(pages[1..]);
      }
    }
  }

  /** A processed first page is kept, so the loop over the processed pages starts with its chunks too. */
  lemma ProcessedFirstPage(pages: seq<Page>, outline: map<int, Outline.Hierarchy>, fileName: string,
                           cfg: Chunking, freshId: nat -> string, index: nat, h: Outline.Hierarchy)
    requires cfg.size >= 0 && |pages| > 0 && Processed(pages[0])
    requires var p := pages[0];
      var current := if p.number in outline then outline[p.number] else h;
      var next := index + |PageRecords(p, current, fileName, cfg, freshId, index)|;
      ChunkPages(pages[1..], outline, fileName, cfg, freshId, next, current)
        == ChunkPages(ProcessedPages(pages[1..]), outline, fileName, cfg, freshId, next, current)
    ensures ChunkPages(pages, outline, fileName, cfg, freshId, index, h)
         == ChunkPages(ProcessedPages(pages), outline, fileName, cfg, freshId, index, h)
  {
    var p := pages[0];
    var kept := ProcessedPages(pages[1..]);
    assert ProcessedPages(pages) == [p] + kept;
    ChunkPagesOfProcessed(p, kept, outline, fileName, cfg, freshId, index, h);
  }

  /**
   * An outline entry on a processed page replaces all three fields, whatever was
   * in force before and even where the entry's fields are null.
   */
  lemma OutlineEntryReplacesAll(p: Page, rest: seq<Page>, outline: map<int, Outline.Hierarchy>, fileName: string,
                                cfg: Chunking, freshId: nat -> string, index: nat, h1: Outline.Hierarchy, h2: Outline.Hierarchy)
    requires cfg.size >= 0 && Processed(p) && p.number in outline
    ensures ChunkPages([p] + rest, outline, fileName, cfg, freshId, index, h1)
         == ChunkPages([p] + rest, outline, fileName, cfg, freshId, index, h2)
    ensures var r := ChunkPages([p] + rest, outline, fileName, cfg, freshId, index, h1);
      forall i :: 0 <= i < |Chunks(p.text.value, cfg.size, cfg.overlap)| ==> TaggedWith(r[i], outline[p.number])
  {
    assert ([p] + rest)[0] == p && ([p] + rest)[1..] == rest;
  }

  // ---------------------------------------------------------------------------
  // chunkBySentences
  // ---------------------------------------------------------------------------

  /** The builder step: a separating space when the buffer is non-empty, then the trimmed sentence. */
  function Append(current: string, sentence: string): string {
    if |current| > 0 then current + " " + Trim(sentence) else current + Trim(sentence)
  }

  /** The loop state: chunks so far, the buffer, and the number of sentences in it. */
  datatype SentenceState = SentenceState(chunks: seq<string>, current: string, count: int)

  const Start: SentenceState := SentenceState([], "", 0)

  /** One iteration: flush a full buffer, then add the sentence. */
  function Step(st: SentenceState, sentence: string, maxPerChunk: int): SentenceState {
    var flushed :=
      if st.count > 0 && st.count >= maxPerChunk then SentenceState(st.chunks + [Trim(st.current)], "", 0) else st;
    SentenceState(flushed.chunks, Append(flushed.current, sentence), flushed.count + 1)
  }

  function RunFrom(st: SentenceState, sentences: seq<string>, maxPerChunk: int): SentenceState
    decreases |sentences|
  {
    if |sentences| == 0 then st else RunFrom(Step(st, sentences[0], maxPerChunk), sentences[1..], maxPerChunk)
  }

  /** After the loop: a non-empty buffer becomes the last chunk. */
  function Finish(st: SentenceState): seq<string> {
    if |st.current| > 0 then st.chunks + [Trim(st.current)] else st.chunks
  }

  /** `chunkBySentences(text, max)`, with `sentences` the result of splitting `text` after `.`, `!` or `?`. */
  function ChunkBySentences(text: string, sentences: seq<string>, maxPerChunk: int): (r: seq<string>)
    ensures |text| == 0 ==> r == []
  {
    if |text| == 0 then [] else Finish(RunFrom(Start, sentences, maxPerChunk))
  }

  /** The concatenation of a sequence of blocks. */
  function Flatten(bs: seq<seq<string>>): seq<string> {
    if |bs| == 0 then [] else bs[0] + Flatten(bs[1..])
  }

  /** Consecutive blocks of `k` sentences, the last holding the rest. */
  function Blocks(ss: seq<string>, k: nat): (r: seq<seq<string>>)
    requires k >= 1
    ensures Flatten(r) == ss
    ensures |r| == 0 <==> |ss| == 0
    ensures |r| <= |ss|
    ensures forall i :: 0 <= i < |r| ==> 1 <= |r[i]| <= k
    ensures forall i :: 0 <= i < |r| - 1 ==> |r[i]| == k
    decreases |ss|
  {
    if |ss| == 0 then []
    else if |ss| <= k then [ss]
    else
      assert ss[..k] + ss[k..] == ss;
      [ss[..k]] + Blocks(ss[k..], k)
  }

  /** The buffer after appending the sentences of `b` to `current`. */
  function Accumulate(current: string, b: seq<string>): string
    decreases |b|
  {
    if |b| == 0 then current else Accumulate(Append(current, b[0]), b[1..])
  }

  /** The chunk a full block becomes. */
  function BlockText(b: seq<string>): string {
    Trim(Accumulate("", b))
  }

  /** Every block becomes a chunk, except that a last block whose buffer stayed empty is dropped. */
  function Emit(bs: seq<seq<string>>): seq<string> {
    if |bs| == 0 then []
    else if |bs| == 1 then (if |Accumulate("", bs[0])| > 0 then [BlockText(bs[0])] else [])
    else [BlockText(bs[0])] + Emit(bs[1..])
  }

  lemma {:induction false} RunFromAppend(st: SentenceState, a: seq<string>, b: seq<string>, m: int)
    ensures RunFrom(st, a + b, m) == RunFrom(RunFrom(st, a, m), b, m)
    decreases |a|
  {
    if |a| > 0 {
      assert (a + b)[0] == a[0];
      assert (a + b)[1..] == a[1..] + b;
      RunFromAppend(Step(st, a[0], m), a[1..], b, m);
    } else {
      assert a + b == b;
    }
  }

  /** Inside one block nothing is flushed: the sentences just accumulate. */
  lemma {:induction false} RunWithinBlock(cs: seq<string>, current: string, c: nat, b: seq<string>, m: int)
    requires c + |b| <= Max(1, m)
    ensures RunFrom(SentenceState(cs, current, c), b, m) == SentenceState(cs, Accumulate(current, b), c + |b|)
    decreases |b|
  {
    if |b| > 0 {
      RunWithinBlock(cs, Append(current, b[0]), c + 1, b[1..], m);
    }
  }

  /** A full buffer is flushed by the next sentence's step. */
  lemma FlushBeforeNext(cs: seq<string>, a: string, k: nat, rest: seq<string>, m: int)
    requires |rest| > 0 && k >= Max(1, m)
    ensures Finish(RunFrom(SentenceState(cs, a, k), rest, m)) == Finish(RunFrom(SentenceState(cs + [Trim(a)], "", 0), rest, m))
  {
    var full, empty := SentenceState(cs, a, k), SentenceState(cs + [Trim(a)], "", 0);
    var next := SentenceState(cs + [Trim(a)], Append("", rest[0]), 1);
    assert Step(full, rest[0], m) == next;
    assert Step(empty, rest[0], m) == next;
    assert RunFrom(full, rest, m) == RunFrom(next, rest[1..], m);
    assert RunFrom(empty, rest, m) == RunFrom(next, rest[1..], m);
  }

  /** Blocks of 1 to `k` sentences, all but the last exactly `k`. */
  predicate WellSized(bs: seq<seq<string>>, k: nat) {
    forall i :: 0 <= i < |bs| ==> 1 <= |bs[i]| <= k && (i < |bs| - 1 ==> |bs[i]| == k)
  }

  /** A run over the first block's sentences accumulates them; the rest of the run starts from that buffer. */
  lemma RunThroughBlock(cs: seq<string>, b: seq<string>, rest: seq<string>, m: int)
    requires |b| <= Max(1, m)
    ensures Finish(RunFrom(SentenceState(cs, "", 0), b + rest, m))
         == Finish(RunFrom(SentenceState(cs, Accumulate("", b), |b|), rest, m))
  {
    RunFromAppend(SentenceState(cs, "", 0), b, rest, m);
    RunWithinBlock(cs, "", 0, b, m);
  }

  /** A full block followed by more sentences is flushed as one chunk before the rest is run. */
  lemma RunFullBlock(cs: seq<string>, b: seq<string>, rest: seq<string>, m: int, out: seq<string>)
    requires |b| == Max(1, m) && |rest| > 0
    requires Finish(RunFrom(SentenceState(cs + [BlockText(b)], "", 0), rest, m)) == out
    ensures Finish(RunFrom(SentenceState(cs, "", 0), b + rest, m)) == out
  {
    RunThroughBlock(cs, b, rest, m);
    FlushBeforeNext(cs, Accumulate("", b), |b|, rest, m);
  }

  /** Well-sized blocks, one or more, hold at least one sentence. */
  lemma FlattenNonEmpty(bs: seq<seq<string>>, k: nat)
    requires |bs| > 0 && WellSized(bs, k)
    ensures |Flatten(bs)| > 0
  {
    assert Flatten(bs) == bs[0] + Flatten(bs[1..]);
  }

  /** Running over well-sized blocks emits one chunk per block. */
  lemma {:induction false} RunOverBlocks(cs: seq<string>, bs: seq<seq<string>>, m: int)
    requires WellSized(bs, Max(1, m))
    ensures Finish(RunFrom(SentenceState(cs, "", 0), Flatten(bs), m)) == cs + Emit(bs)
    decreases |bs|
  {
    var k := Max(1, m);
    if |bs| == 1 {
      assert Flatten(bs) == bs[0] + [];
      RunThroughBlock(cs, bs[0], [], m);
    } else if |bs| > 1 {
      var b, later := bs[0], bs[1..];
      var first := BlockText(b);
      assert Flatten(bs) == b + Flatten(later);
      assert WellSized(later, k);
      FlattenNonEmpty(later, k);
      RunOverBlocks(cs + [first], later, m);
      RunFullBlock(cs, b, Flatten(later), m, (cs + [first]) + Emit(later));
      assert Emit(bs) == [first] + Emit(later);
      assert (cs + [first]) + Emit(later) == cs + ([first] + Emit(later));
    }
  }

  lemma RunIsEmitBlocks(cs: seq<string>, ss: seq<string>, m: int)
    ensures Finish(RunFrom(SentenceState(cs, "", 0), ss, m)) == cs + Emit(Blocks(ss, Max(1, m)))
  {
    RunOverBlocks(cs, Blocks(ss, Max(1, m)), m);
  }

  /**
   * `chunkBySentences` cuts the sentences into consecutive blocks of
   * max(1, maxPerChunk), in order, one chunk per block.
   */
  lemma SentenceChunksAreBlocks(text: string, sentences: seq<string>, maxPerChunk: int)
    requires |text| > 0
    ensures ChunkBySentences(text, sentences, maxPerChunk) == Emit(Blocks(sentences, Max(1, maxPerChunk)))
  {
    RunIsEmitBlocks([], sentences, maxPerChunk);
  }

  /** The sentences trimmed. */
  function TrimAll(ss: seq<string>): seq<string> {
    if |ss| == 0 then [] else [Trim(ss[0])] + TrimAll(ss[1..])
  }

  /** No sentence is blank. */
  predicate NoneBlank(ss: seq<string>) {
    forall i :: 0 <= i < |ss| ==> !IsBlank(ss[i])
  }

  lemma {:induction false} AccumulateJoins(current: string, b: seq<string>)
    requires |current| > 0 && |b| > 0
    ensures Accumulate(current, b) == current + " " + JoinWithSpaces(TrimAll(b))
    decreases |b|
  {
    var t := Trim(b[0]);
    var a := current + " " + t;
    assert Accumulate(current, b) == Accumulate(a, b[1..]);
    if |b| == 1 {
      assert TrimAll(b) == [t];
    } else {
      var j := JoinWithSpaces(TrimAll(b[1..]));
      AccumulateJoins(a, b[1..]);
      assert TrimAll(b) == [t] + TrimAll(b[1..]);
      assert JoinWithSpaces(TrimAll(b)) == t + " " + j;
      assert a + " " + j == current + " " + (t + " " + j);
    }
  }

  lemma {:induction false} JoinOfTrimmed(ws: seq<string>)
    requires |ws| > 0
    requires forall i :: 0 <= i < |ws| ==> |ws[i]| > 0 && IsTrimmed(ws[i])
    ensures IsTrimmed(JoinWithSpaces(ws)) && |JoinWithSpaces(ws)| > 0
    ensures JoinWithSpaces(ws)[0] == ws[0][0]
    ensures JoinWithSpaces(ws)[|JoinWithSpaces(ws)| - 1] == ws[|ws| - 1][|ws[|ws| - 1]| - 1]
  {
    if |ws| > 1 {
      JoinOfTrimmed(ws[1..]);
    }
  }

  /** Trimming sentence by sentence keeps their number and order. */
  lemma {:induction false} TrimAllEach(ss: seq<string>)
    ensures |TrimAll(ss)| == |ss|
    ensures forall i :: 0 <= i < |ss| ==> TrimAll(ss)[i] == Trim(ss[i])
  {
    if |ss| > 0 {
      TrimAllEach(ss[1..]);
      assert TrimAll(ss) == [Trim(ss[0])] + TrimAll(ss[1..]);
    }
  }

  lemma BlockJoined(b: seq<string>)
    requires |b| > 0 && NoneBlank(b)
    ensures |Accumulate("", b)| > 0
    ensures BlockText(b) == JoinWithSpaces(TrimAll(b))
  {
    var first := Trim(b[0]);
    var ts := TrimAll(b);
    TrimAllEach(b);
    assert ts == [first] + TrimAll(b[1..]);
    var j := JoinWithSpaces(ts);
    assert Append("", b[0]) == "" + first == first;
    assert Accumulate("", b) == Accumulate(first, b[1..]);
    if |b| > 1 {
      AccumulateJoins(first, b[1..]);
    }
    assert Accumulate("", b) == j;
    forall i | 0 <= i < |ts|
      ensures |ts[i]| > 0 && IsTrimmed(ts[i])
    {
      assert ts[i] == Trim(b[i]);
    }
    JoinOfTrimmed(ts);
    TrimOfTrimmed(j);
  }

  /** Each chunk of `r` is the matching block's trimmed sentences joined by single spaces. */
  predicate JoinedBlocks(r: seq<string>, bs: seq<seq<string>>) {
    |r| == |bs| && forall i :: 0 <= i < |bs| ==> r[i] == JoinWithSpaces(TrimAll(bs[i]))
  }

  lemma JoinedCons(x: string, r: seq<string>, bs: seq<seq<string>>)
    requires |bs| > 0 && JoinedBlocks(r, bs[1..]) && x == JoinWithSpaces(TrimAll(bs[0]))
    ensures JoinedBlocks([x] + r, bs)
  {
    forall i | 1 <= i < |bs|
      ensures ([x] + r)[i] == r[i - 1] && bs[i] == bs[1..][i - 1]
    {
    }
  }

  lemma {:induction false} EmitJoined(bs: seq<seq<string>>)
    requires forall i :: 0 <= i < |bs| ==> |bs[i]| > 0 && NoneBlank(bs[i])
    ensures JoinedBlocks(Emit(bs), bs)
  {
    if |bs| == 1 {
      BlockJoined(bs[0]);
      assert Emit(bs) == [BlockText(bs[0])];
    } else if |bs| > 1 {
      BlockJoined(bs[0]);
      EmitJoined(bs[1..]);
      assert Emit(bs) == [BlockText(bs[0])] + Emit(bs[1..]);
      JoinedCons(BlockText(bs[0]), Emit(bs[1..]), bs);
    }
  }

  /** When no sentence is blank, each chunk is its block's trimmed sentences joined by single spaces. */
  lemma SentencesJoinedWithSpace(text: string, sentences: seq<string>, maxPerChunk: int)
    requires |text| > 0 && NoneBlank(sentences)
    ensures var bs := Blocks(sentences, Max(1, maxPerChunk));
      ChunkBySentences(text, sentences, maxPerChunk) == seq(|bs|, i requires 0 <= i < |bs| => JoinWithSpaces(TrimAll(bs[i])))
  {
    var bs := Blocks(sentences, Max(1, maxPerChunk));
    SentenceChunksAreBlocks(text, sentences, maxPerChunk);
    BlocksOfNoneBlank(sentences, Max(1, maxPerChunk));
    EmitJoined(bs);
    var want := seq(|bs|, i requires 0 <= i < |bs| => JoinWithSpaces(TrimAll(bs[i])));
    assert Emit(bs) == want;
  }

  /** Blocks of sentences none of which is blank have no blank sentence either. */
  predicate EachNoneBlank(bs: seq<seq<string>>) {
    forall i :: 0 <= i < |bs| ==> NoneBlank(bs[i])
  }

  lemma {:induction false} BlocksOfNoneBlank(ss: seq<string>, k: nat)
    requires k >= 1 && NoneBlank(ss)
    ensures EachNoneBlank(Blocks(ss, k))
    decreases |ss|
  {
    if |ss| > k {
      var bs := Blocks(ss, k);
      var rest := Blocks(ss[k..], k);
      assert NoneBlank(ss[k..]) by {
        forall i | 0 <= i < |ss[k..]| ensures !IsBlank(ss[k..][i]) {
          assert ss[k..][i] == ss[k + i];
        }
      }
      BlocksOfNoneBlank(ss[k..], k);
      assert bs == [ss[..k]] + rest;
      forall i | 0 <= i < |bs|
        ensures NoneBlank(bs[i])
      {
        if i > 0 {
          assert bs[i] == rest[i - 1];
        }
      }
    }
  }
}
