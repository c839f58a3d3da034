/**
 * `FontAwareTextStripper`: the state machine that groups the glyphs PDFBox
 * reports for a page into lines of one font size, the header test on a line,
 * and the repair of duplicated words and letters in a line's text.
 *
 * Font sizes are integers in hundredths of a point, so the 0.1pt tolerance is
 * 10 and the 22pt header threshold is 2200.
 */
module FontStripper {
  import opened JavaText

  /** Font sizes below differ from the previous line's size by more than this start a new line. */
  const SIZE_TOLERANCE: int := 10
  /** Lines set at this size or larger are headers. */
  const HEADER_MIN_SIZE: int := 2200

  /** `TextWithFont`: a line's text and the font size it was set in. */
  datatype TextWithFont = TextWithFont(text: string, fontSize: int)

  /** One `TextPosition`: the glyph's Unicode text and its font size. */
  datatype Glyph = Glyph(unicode: string, fontSize: int)

  /** The stripper's fields: lines emitted so far, the line buffer, its font size, the newLine flag. */
  datatype StripperState = StripperState(elements: seq<TextWithFont>, line: string, fontSize: int, newLine: bool)

  /** A freshly constructed stripper: nothing emitted, empty buffer, size 0, at the start of a line. */
  const Fresh: StripperState := StripperState([], "", 0, true)

  function Abs(x: int): nat {
    if x < 0 then -x else x
  }

  predicate IsLineBreak(unicode: string) {
    unicode == "\n" || unicode == "\r"
  }

  /** `TextWithFont.isHeader`: at least 22pt and not blank. */
  predicate IsHeader(t: TextWithFont) {
    t.fontSize >= HEADER_MIN_SIZE && !IsBlank(t.text)
  }

  /** Padding a line with blanks does not change whether it is a header. */
  lemma HeaderIgnoresPadding(t: TextWithFont, pre: string, post: string)
    requires IsBlank(pre) && IsBlank(post)
    ensures IsHeader(TextWithFont(pre + t.text + post, t.fontSize)) <==> IsHeader(t)
  {
    TrimPadded(pre, t.text, post);
  }

  /** The lines after flushing a non-empty buffer, trimmed and tagged with the buffer's font size. */
  function Flush(st: StripperState): (r: seq<TextWithFont>)
    ensures |st.line| == 0 ==> r == st.elements
    ensures |st.line| > 0 ==> r == st.elements + [TextWithFont(Trim(st.line), st.fontSize)]
  {
    if |st.line| > 0 then st.elements + [TextWithFont(Trim(st.line), st.fontSize)] else st.elements
  }

  /** Whether glyph `g` opens a new line: the flag is set or the size moved by more than 0.1pt, compared exactly in hundredths. */
  predicate StartsLine(st: StripperState, g: Glyph) {
    st.newLine || Abs(g.fontSize - st.fontSize) > SIZE_TOLERANCE
  }

  /**
   * `processTextPosition`: on a line start, emit the buffer (if non-empty) and
   * adopt the glyph's size; then append the glyph, and raise the newLine flag
   * exactly when the glyph is a line break.
   */
  function ProcessTextPosition(st: StripperState, g: Glyph): (r: StripperState)
    ensures StartsLine(st, g) ==> r.elements == Flush(st) && r.line == g.unicode && r.fontSize == g.fontSize
    ensures !StartsLine(st, g) ==> r.elements == st.elements && r.line == st.line + g.unicode && r.fontSize == st.fontSize
    ensures r.newLine <==> IsLineBreak(g.unicode)
  {
    var begun := if StartsLine(st, g) then StripperState(Flush(st), "", g.fontSize, false) else st;
    StripperState(begun.elements, begun.line + g.unicode, begun.fontSize, IsLineBreak(g.unicode))
  }

  /** `endPage`: emit the buffer if non-empty and arm the newLine flag for the next page. */
  function EndPage(st: StripperState): (r: StripperState)
    ensures r.elements == Flush(st) && r.line == "" && r.newLine && r.fontSize == st.fontSize
  {
    StripperState(Flush(st), "", st.fontSize, true)
  }

  /** The glyphs of a page fed one by one. */
  function ProcessAll(st: StripperState, glyphs: seq<Glyph>): StripperState
    decreases |glyphs|
  {
    if |glyphs| == 0 then st else ProcessAll(ProcessTextPosition(st, glyphs[0]), glyphs[1..])
  }

  /** One page: its glyphs, then `endPage`. */
  function ProcessPage(st: StripperState, glyphs: seq<Glyph>): StripperState {
    EndPage(ProcessAll(st, glyphs))
  }

  /** Every emitted line is trimmed. */
  predicate LinesTrimmed(lines: seq<TextWithFont>) {
    forall i :: 0 <= i < |lines| ==> IsTrimmed(lines[i].text)
  }

  /** Every emitted line is trimmed, whatever the glyphs. */
  lemma {:induction false} ProcessAllKeepsLinesTrimmed(st: StripperState, glyphs: seq<Glyph>)
    requires LinesTrimmed(st.elements)
    ensures LinesTrimmed(ProcessAll(st, glyphs).elements)
    ensures LinesTrimmed(ProcessPage(st, glyphs).elements)
    decreases |glyphs|
  {
    if |glyphs| > 0 {
      ProcessAllKeepsLinesTrimmed(ProcessTextPosition(st, glyphs[0]), glyphs[1..]);
    }
  }

  /** A page never yields more lines than it has glyphs, plus the one left in the buffer. */
  lemma {:induction false} LinesAtMostGlyphs(st: StripperState, glyphs: seq<Glyph>)
    ensures |ProcessAll(st, glyphs).elements| <= |st.elements| + |glyphs|
    ensures |ProcessPage(st, glyphs).elements| <= |st.elements| + |glyphs| + (if |st.line| > 0 then 1 else 0)
    decreases |glyphs|
  {
    if |glyphs| > 0 {
      LinesAtMostGlyphs(ProcessTextPosition(st, glyphs[0]), glyphs[1..]);
    }
  }

  /** The concatenated Unicode text of some glyphs. */
  function Text(glyphs: seq<Glyph>): string {
    if |glyphs| == 0 then "" else glyphs[0].unicode + Text(glyphs[1..])
  }

  /** All glyphs set in size `size`. */
  predicate UniformSize(glyphs: seq<Glyph>, size: int) {
    forall i :: 0 <= i < |glyphs| ==> glyphs[i].fontSize == size
  }

  /** No glyph is a line break. */
  predicate NoBreaks(glyphs: seq<Glyph>) {
    forall i :: 0 <= i < |glyphs| ==> !IsLineBreak(glyphs[i].unicode)
  }

  /** Mid-line, glyphs of the line's own size and without breaks just extend the buffer. */
  lemma {:induction false} ContinueLine(st: StripperState, glyphs: seq<Glyph>)
    requires !st.newLine && UniformSize(glyphs, st.fontSize) && NoBreaks(glyphs)
    ensures ProcessAll(st, glyphs) == st.(line := st.line + Text(glyphs))
    decreases |glyphs|
  {
    if |glyphs| == 0 {
      assert st.line + "" == st.line;
    } else {
      var next := ProcessTextPosition(st, glyphs[0]);
      assert next == st.(line := st.line + glyphs[0].unicode);
      ContinueLine(next, glyphs[1..]);
      assert st.line + glyphs[0].unicode + Text(glyphs[1..]) == st.line + Text(glyphs);
    }
  }

  /**
   * A page set in one size with no line breaks becomes one line: its whole text,
   * trimmed, tagged with that size (nothing when the text is empty).
   */
  lemma OneSizeOneLine(glyphs: seq<Glyph>, size: int)
    requires |glyphs| > 0 && UniformSize(glyphs, size) && NoBreaks(glyphs)
    ensures |Text(glyphs)| > 0 ==> ProcessPage(Fresh, glyphs).elements == [TextWithFont(Trim(Text(glyphs)), size)]
    ensures |Text(glyphs)| == 0 ==> ProcessPage(Fresh, glyphs).elements == []
  {
    var first := ProcessTextPosition(Fresh, glyphs[0]);
    assert first == StripperState([], glyphs[0].unicode, size, false);
    ContinueLine(first, glyphs[1..]);
  }

  // ---------------------------------------------------------------------------
  // deduplicateText
  // ---------------------------------------------------------------------------

  /** `Character.isLetter`, restricted to the ASCII letters. */
  predicate IsLetter(c: char) {
    ('A' <= c <= 'Z') || ('a' <= c <= 'z')
  }

  /** No two neighbouring chars are the same letter. */
  predicate NoRepeatedLetters(s: string) {
    forall i :: 0 < i < |s| ==> !(IsLetter(s[i]) && s[i] == s[i - 1])
  }

  /**
   * The character pass: walk the text keeping `prev`, the last char kept; a
   * char is dropped exactly when it is a letter equal to `prev`.
   */
  function CollapseFrom(s: string, prev: char): (r: string)
    ensures |r| <= |s|
    ensures NoRepeatedLetters(r)
    ensures |r| > 0 ==> !(IsLetter(r[0]) && r[0] == prev)
  {
    if |s| == 0 then ""
    else if s[0] != prev || !IsLetter(s[0]) then [s[0]] + CollapseFrom(s[1..], s[0])
    else CollapseFrom(s[1..], prev)
  }

  /** The character pass starts from `'\0'`, which is not a letter. */
  function CollapseRepeatedLetters(s: string): string {
    CollapseFrom(s, '\0')
  }

  /** The chars the character pass keeps, by position: all but a letter repeating its predecessor. */
  function KeepByPosition(s: string, prev: char): string
    decreases |s|
  {
    if |s| == 0 then ""
    else (if IsLetter(s[0]) && s[0] == prev then "" else [s[0]]) + KeepByPosition(s[1..], s[0])
  }

  /**
   * The last kept char always equals the previous input char, so the pass drops
   * exactly the letters equal to the char right before them in the input.
   */
  lemma {:induction false} CollapseDropsRepeatsOfPredecessor(s: string, prev: char)
    ensures CollapseFrom(s, prev) == KeepByPosition(s, prev)
    decreases |s|
  {
    if |s| > 0 {
      CollapseDropsRepeatsOfPredecessor(s[1..], s[0]);
      if !(s[0] != prev || !IsLetter(s[0])) {
        assert s[0] == prev;
        CollapseDropsRepeatsOfPredecessor(s[1..], prev);
      }
    }
  }

  /** Text without repeated letters passes through unchanged. */
  lemma {:induction false} CollapseKeepsRepeatFree(s: string, prev: char)
    requires NoRepeatedLetters(s)
    requires |s| > 0 ==> !(IsLetter(s[0]) && s[0] == prev)
    ensures CollapseFrom(s, prev) == s
    decreases |s|
  {
    if |s| > 0 {
      assert NoRepeatedLetters(s[1..]) by {
        forall i | 0 < i < |s[1..]| ensures !(IsLetter(s[1..][i]) && s[1..][i] == s[1..][i - 1]) {
          assert s[1..][i] == s[i + 1] && s[1..][i - 1] == s[i];
        }
      }
      assert |s| > 1 ==> s[1..][0] == s[1];
      CollapseKeepsRepeatFree(s[1..], s[0]);
      assert [s[0]] + s[1..] == s;
    }
  }

  /** The character pass is idempotent. */
  lemma CollapseIdempotent(s: string)
    ensures CollapseRepeatedLetters(CollapseRepeatedLetters(s)) == CollapseRepeatedLetters(s)
  {
    CollapseKeepsRepeatFree(CollapseRepeatedLetters(s), '\0');
  }

  /** The character pass changes nothing exactly when no letter repeats its neighbour. */
  lemma CollapseFixedPoints(s: string)
    ensures CollapseRepeatedLetters(s) == s <==> NoRepeatedLetters(s)
  {
    if NoRepeatedLetters(s) {
      CollapseKeepsRepeatFree(s, '\0');
    }
  }

  /** Whether the word pass fires: an even number (> 1) of words whose halves agree word for word. */
  predicate IsDoubled(words: seq<string>) {
    |words| > 1 && |words| % 2 == 0 && words[..|words| / 2] == words[|words| / 2..]
  }

  /**
   * `deduplicateText`: strings of length at most 1 come back untouched; a
   * doubled word sequence collapses to its first half joined by single spaces
   * and nothing else is done; otherwise the trimmed text goes through the
   * character pass.
   */
  function DeduplicateText(text: string): (r: string)
    ensures |text| <= 1 ==> r == text
    ensures |text| > 1 && IsDoubled(SplitOnWhitespace(Trim(text))) ==>
      var words := SplitOnWhitespace(Trim(text));
      r == JoinWithSpaces(words[..|words| / 2])
    ensures |text| > 1 && !IsDoubled(SplitOnWhitespace(Trim(text))) ==>
      r == CollapseRepeatedLetters(Trim(text)) && NoRepeatedLetters(r) && |r| <= |Trim(text)|
  {
    if |text| <= 1 then text
    else
      var trimmed := Trim(text);
      var words := SplitOnWhitespace(trimmed);
      if IsDoubled(words) then JoinWithSpaces(words[..|words| / 2])
      else CollapseRepeatedLetters(trimmed)
  }

  /** A word free of trimmable chars (so also of whitespace). */
  predicate IsPrintableWord(w: string) {
    |w| > 0 && forall k :: 0 <= k < |w| ==> !IsTrimmable(w[k])
  }

  lemma PrintableWordsAreWords(ws: seq<string>)
    requires forall i :: 0 <= i < |ws| ==> IsPrintableWord(ws[i])
    ensures forall i :: 0 <= i < |ws| ==> IsWord(ws[i])
  {
    forall i | 0 <= i < |ws| ensures IsWord(ws[i]) {
      assert forall k :: 0 <= k < |ws[i]| ==> !IsTrimmable(ws[i][k]);
    }
  }

  /** The words of a join of printable words are those words. */
  lemma SplitOfPrintableJoin(ws: seq<string>)
    requires |ws| > 1
    requires forall i :: 0 <= i < |ws| ==> IsPrintableWord(ws[i])
    ensures Trim(JoinWithSpaces(ws)) == JoinWithSpaces(ws)
    ensures SplitOnWhitespace(JoinWithSpaces(ws)) == ws
    ensures |JoinWithSpaces(ws)| > 1
  {
    var text := JoinWithSpaces(ws);
    JoinOfPrintableWordsIsTrimmed(ws);
    TrimOfTrimmed(text);
    PrintableWordsAreWords(ws);
    TokensOfJoin(ws);
    JoinLength(ws);
    assert !IsTrimmable(text[0]);
  }

  /** A phrase rendered twice, separated by a space, is repaired to one copy. */
  lemma DoubledPhraseRepaired(ws: seq<string>)
    requires |ws| > 0
    requires forall i :: 0 <= i < |ws| ==> IsPrintableWord(ws[i])
    ensures DeduplicateText(JoinWithSpaces(ws + ws)) == JoinWithSpaces(ws)
  {
    var all := ws + ws;
    forall i | 0 <= i < |all|
      ensures IsPrintableWord(all[i])
    {
      if i >= |ws| {
        assert all[i] == ws[i - |ws|];
      }
    }
    SplitOfPrintableJoin(all);
    var text := JoinWithSpaces(all);
    assert |all| / 2 == |ws|;
    assert all[..|ws|] == ws && all[|ws|..] == ws;
    assert IsDoubled(SplitOnWhitespace(Trim(text)));
  }

  lemma {:induction false} JoinLength(ws: seq<string>)
    requires |ws| > 1 && forall i :: 0 <= i < |ws| ==> |ws[i]| > 0
    ensures |JoinWithSpaces(ws)| > 1
  {
    if |ws| > 2 {
      JoinLength(ws[1..]);
    }
  }

  /** The repair of a doubled rendering of a single word. */
  lemma ForgeExample()
    ensures DeduplicateText("FORGE FORGE") == "FORGE"
  {
    assert "FORGE FORGE" == JoinWithSpaces(["FORGE"] + ["FORGE"]);
    DoubledPhraseRepaired(["FORGE"]);
  }

  /** The repair of glyph-doubled letters. */
  lemma LettersExample()
    ensures DeduplicateText("AABBCC") == "ABC"
  {
    var s := "AABBCC";
    assert Trim(s) == s by { TrimOfTrimmed(s); }
    assert SplitOnWhitespace(s) == ["AABBCC"] by {
      assert WordLength(s) == 6;
      assert s[..6] == s && s[6..] == "";
    }
    assert CollapseFrom("C", 'C') == "";
    assert CollapseFrom("CC", 'B') == "C";
    assert CollapseFrom("BCC", 'B') == "C";
    assert CollapseFrom("BBCC", 'A') == "BC";
    assert CollapseFrom("ABBCC", 'A') == "BC";
  }

  /** A single char is left alone. */
  lemma ShortExample()
    ensures DeduplicateText("A") == "A"
  {
  }
}
