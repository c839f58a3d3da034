/**
 * The handful of `java.lang.String`, `Integer` and `java.nio.file.Path`
 * behaviours the pipeline relies on, defined once and shared by every
 * component: `trim`, `isEmpty` after trimming, `lastIndexOf`, `split("\\s+")`,
 * `String.join(" ", …)`, `Integer.parseInt`, `Long.intValue` and
 * `Paths.get(p).getFileName()`.
 */
module JavaText {
  import opened Wrappers

  // ---------------------------------------------------------------------------
  // trim()
  // ---------------------------------------------------------------------------

  /** `String.trim` removes every leading and trailing char whose code is at most U+0020. */
  predicate IsTrimmable(c: char) {
    c <= ' '
  }

  /** A string that trims to the empty string (`s.trim().isEmpty()`). */
  predicate IsBlank(s: string) {
    forall k :: 0 <= k < |s| ==> IsTrimmable(s[k])
  }

  /** True when `s` has nothing for `trim` to remove. */
  predicate IsTrimmed(s: string) {
    |s| == 0 || (!IsTrimmable(s[0]) && !IsTrimmable(s[|s| - 1]))
  }

  /**
   * `String.trim`: strips trimmable chars from the front, then from the back,
   * leaving a string that neither starts nor ends with one.
   */
  function Trim(s: string): (r: string)
    ensures |r| <= |s|
    ensures IsTrimmed(r)
    ensures |r| == 0 <==> IsBlank(s)
  {
    if |s| > 0 && IsTrimmable(s[0]) then Trim(s[1..])
    else if |s| > 0 && IsTrimmable(s[|s| - 1]) then Trim(s[..|s| - 1])
    else s
  }

  /** What `trim` removes is blank on both sides: `s` is a blank run, `trim(s)`, and another blank run. */
  lemma {:induction false} TrimSplits(s: string)
    ensures exists pre, post :: IsBlank(pre) && IsBlank(post) && s == pre + Trim(s) + post
  {
    if |s| > 0 && IsTrimmable(s[0]) {
      TrimSplits(s[1..]);
      var pre, post :| IsBlank(pre) && IsBlank(post) && s[1..] == pre + Trim(s[1..]) + post;
      ConsSplit(s[0], s[1..], pre, Trim(s), post);
      assert s == [s[0]] + s[1..];
    } else if |s| > 0 && IsTrimmable(s[|s| - 1]) {
      TrimSplits(s[..|s| - 1]);
      var pre, post :| IsBlank(pre) && IsBlank(post) && s[..|s| - 1] == pre + Trim(s[..|s| - 1]) + post;
      SnocSplit(s[..|s| - 1], s[|s| - 1], pre, Trim(s), post);
      assert s == s[..|s| - 1] + [s[|s| - 1]];
    } else {
      var none: string := "";
      assert IsBlank(none) && s == none + Trim(s) + none;
    }
  }

  lemma ConsSplit(c: char, t: string, pre: string, r: string, post: string)
    requires IsTrimmable(c) && IsBlank(pre) && IsBlank(post) && t == pre + r + post
    ensures IsBlank([c] + pre) && [c] + t == ([c] + pre) + r + post
  {
    assert forall k :: 1 <= k < |[c] + pre| ==> ([c] + pre)[k] == pre[k - 1];
  }

  lemma SnocSplit(t: string, c: char, pre: string, r: string, post: string)
    requires IsTrimmable(c) && IsBlank(pre) && IsBlank(post) && t == pre + r + post
    ensures IsBlank(post + [c]) && t + [c] == pre + r + (post + [c])
  {
    assert forall k :: 0 <= k < |post| ==> (post + [c])[k] == post[k];
  }

  /** Trimming an already trimmed string changes nothing. */
  lemma TrimOfTrimmed(s: string)
    requires IsTrimmed(s)
    ensures Trim(s) == s
  {
  }

  /** `trim` is idempotent. */
  lemma TrimIdempotent(s: string)
    ensures Trim(Trim(s)) == Trim(s)
  {
    TrimOfTrimmed(Trim(s));
  }

  /** Only the trimmed core matters: `(pre + s + post).trim()` equals `s.trim()` for blank `pre` and `post`. */
  lemma {:induction false} TrimPadded(pre: string, s: string, post: string)
    requires IsBlank(pre) && IsBlank(post)
    ensures Trim(pre + s + post) == Trim(s)
    decreases |pre| + |s| + |post|
  {
    var whole := pre + s + post;
    if |pre| > 0 {
      assert whole[0] == pre[0];
      assert whole[1..] == pre[1..] + s + post;
      TrimPadded(pre[1..], s, post);
    } else if |s| > 0 && IsTrimmable(s[0]) {
      assert whole == s + post && whole[0] == s[0];
      assert whole[1..] == "" + s[1..] + post;
      TrimPadded("", s[1..], post);
    } else if |post| > 0 {
      assert whole == s + post;
      assert whole[|whole| - 1] == post[|post| - 1];
      assert whole[..|whole| - 1] == "" + s + post[..|post| - 1];
      if |s| == 0 {
        assert IsBlank(whole);
        assert Trim(whole) == "" == Trim(s);
      } else {
        TrimPadded("", s, post[..|post| - 1]);
      }
    } else {
      assert whole == s;
    }
  }

  // ---------------------------------------------------------------------------
  // lastIndexOf(' ', from)
  // ---------------------------------------------------------------------------

  /**
   * `s.lastIndexOf(' ', from)`: the greatest index `k <= from` (clamped to the
   * last index of `s`) holding a space, or -1 when there is none.
   */
  function LastSpaceAtOrBefore(s: string, from: int): (r: int)
    ensures -1 <= r < |s| && (r == -1 || r <= from)
    ensures r >= 0 ==> s[r] == ' '
    ensures forall k :: r < k <= from && 0 <= k < |s| ==> s[k] != ' '
    decreases if from < 0 then 0 else from + 1
  {
    if from < 0 || |s| == 0 then -1
    else if from >= |s| then LastSpaceAtOrBefore(s, |s| - 1)
    else if s[from] == ' ' then from
    else LastSpaceAtOrBefore(s, from - 1)
  }

  // ---------------------------------------------------------------------------
  // split("\\s+") and String.join(" ", …)
  // ---------------------------------------------------------------------------

  /** The regex class `\s`: space, tab, newline, vertical tab, form feed, carriage return. */
  predicate IsRegexSpace(c: char) {
    c == ' ' || c == '\t' || c == '\n' || c == '\U{B}' || c == '\U{C}' || c == '\r'
  }

  /** A word as `split("\\s+")` yields it: non-empty and free of `\s`. */
  predicate IsWord(w: string) {
    |w| > 0 && forall k :: 0 <= k < |w| ==> !IsRegexSpace(w[k])
  }

  /** The length of the run of non-`\s` chars at the front of `s`. */
  function WordLength(s: string): (n: nat)
    ensures n <= |s|
    ensures forall k :: 0 <= k < n ==> !IsRegexSpace(s[k])
    ensures n < |s| ==> IsRegexSpace(s[n])
  {
    if |s| == 0 || IsRegexSpace(s[0]) then 0 else 1 + WordLength(s[1..])
  }

  /** The maximal runs of non-`\s` chars of `s`, in order. */
  function Tokens(s: string): (r: seq<string>)
    ensures forall i :: 0 <= i < |r| ==> IsWord(r[i])
    decreases |s|
  {
    if |s| == 0 then []
    else if IsRegexSpace(s[0]) then Tokens(s[1..])
    else
      var n := WordLength(s);
      [s[..n]] + Tokens(s[n..])
  }

  /**
   * `s.split("\\s+")`: an input without any match comes back whole (so "" gives
   * [""]); a leading separator contributes a leading empty string; trailing empty
   * strings are removed.
   */
  function SplitOnWhitespace(s: string): (r: seq<string>)
    ensures |s| > 0 && !IsRegexSpace(s[0]) ==> r == Tokens(s)
  {
    if |s| == 0 then [""]
    else if IsRegexSpace(s[0]) then (if Tokens(s) == [] then [] else [""] + Tokens(s))
    else Tokens(s)
  }

  /** `String.join(" ", ws)`. */
  function JoinWithSpaces(ws: seq<string>): string {
    if |ws| == 0 then ""
    else if |ws| == 1 then ws[0]
    else ws[0] + " " + JoinWithSpaces(ws[1..])
  }

  lemma WordLengthOfWord(w: string, rest: string)
    requires IsWord(w)
    requires |rest| == 0 || IsRegexSpace(rest[0])
    ensures WordLength(w + rest) == |w|
  {
    var n := WordLength(w + rest);
    assert forall k :: 0 <= k < |w| ==> (w + rest)[k] == w[k];
    assert |rest| > 0 ==> (w + rest)[|w|] == rest[0];
  }

  /** Splitting words joined with single spaces gives the words back. */
  lemma {:induction false} TokensOfJoin(ws: seq<string>)
    requires forall i :: 0 <= i < |ws| ==> IsWord(ws[i])
    ensures Tokens(JoinWithSpaces(ws)) == ws
  {
    if |ws| == 0 {
    } else if |ws| == 1 {
      WordLengthOfWord(ws[0], "");
      assert ws[0] + "" == ws[0];
      assert ws[0][..|ws[0]|] == ws[0];
      assert ws[0][|ws[0]|..] == "";
    } else {
      var w := ws[0];
      var tail := JoinWithSpaces(ws[1..]);
      var s := w + " " + tail;
      assert s == w + (" " + tail);
      WordLengthOfWord(w, " " + tail);
      assert s[..|w|] == w;
      assert s[|w|..] == " " + tail;
      assert (" " + tail)[1..] == tail;
      TokensOfJoin(ws[1..]);
      assert [w] + ws[1..] == ws;
    }
  }

  /** A join of trimmed-safe words is already trimmed. */
  lemma JoinOfPrintableWordsIsTrimmed(ws: seq<string>)
    requires |ws| > 0
    requires forall i :: 0 <= i < |ws| ==> |ws[i]| > 0
    requires forall i, k :: 0 <= i < |ws| && 0 <= k < |ws[i]| ==> !IsTrimmable(ws[i][k])
    ensures IsTrimmed(JoinWithSpaces(ws))
    ensures |JoinWithSpaces(ws)| > 0
    ensures JoinWithSpaces(ws)[0] == ws[0][0]
    ensures JoinWithSpaces(ws)[|JoinWithSpaces(ws)| - 1] == ws[|ws| - 1][|ws[|ws| - 1]| - 1]
  {
    if |ws| > 1 {
      JoinOfPrintableWordsIsTrimmed(ws[1..]);
    }
  }

  // ---------------------------------------------------------------------------
  // Integer.parseInt and Long.intValue
  // ---------------------------------------------------------------------------

  const INT_MIN: int := -0x8000_0000
  const INT_MAX: int := 0x7FFF_FFFF

  predicate InInt32(x: int) {
    INT_MIN <= x <= INT_MAX
  }

  predicate IsDigit(c: char) {
    '0' <= c <= '9'
  }

  predicate AllDigits(s: string) {
    forall k :: 0 <= k < |s| ==> IsDigit(s[k])
  }

  /** The decimal value of a string of ASCII digits. */
  function DigitsValue(s: string): (v: nat)
    requires AllDigits(s)
  {
    if |s| == 0 then 0
    else
      assert IsDigit(s[|s| - 1]);
      DigitsValue(s[..|s| - 1]) * 10 + (s[|s| - 1] as int - '0' as int)
  }

  /** An optional '+' or '-' followed by at least one ASCII digit. */
  predicate IsSignedDecimal(s: string) {
    && |s| > 0
    && (if s[0] == '-' || s[0] == '+' then |s| > 1 && AllDigits(s[1..]) else AllDigits(s))
  }

  /** The value a signed decimal denotes: its digits read in base ten, negated after a '-'. */
  function DecimalValue(s: string): int
    requires IsSignedDecimal(s)
  {
    var digits := if s[0] == '-' || s[0] == '+' then s[1..] else s;
    if s[0] == '-' then -(DigitsValue(digits) as int) else DigitsValue(digits)
  }

  /**
   * `Integer.parseInt(s)`: an optional sign followed by at least one digit, with
   * a value inside the 32-bit range; anything else is a NumberFormatException,
   * modelled as `None`.
   */
  function ParseInt(s: string): (r: Option<int>)
    ensures r.Some? ==> InInt32(r.value)
    ensures r.Some? ==> |s| > 0 && AllDigits(s[1..])
    ensures r.Some? ==> s[0] == '+' || s[0] == '-' || IsDigit(s[0])
    ensures r.Some? <==> IsSignedDecimal(s) && InInt32(DecimalValue(s))
    ensures r.Some? ==> r.value == DecimalValue(s)
  {
    if |s| == 0 then None
    else if s[0] == '-' || s[0] == '+' then
      if |s| == 1 || !AllDigits(s[1..]) then None
      else
        var magnitude: int := DigitsValue(s[1..]);
        var v: int := if s[0] == '-' then -magnitude else magnitude;
        if InInt32(v) then Some(v) else None
    else if AllDigits(s) then
      var v := DigitsValue(s);
      if InInt32(v) then Some(v) else None
    else None
  }

  /** The decimal digits of `n` without sign or leading zeros (`Integer.toString` for `n >= 0`). */
  function NatToDigits(n: nat): (s: string)
    ensures |s| > 0 && AllDigits(s)
  {
    if n < 10 then [('0' as int + n) as char]
    else NatToDigits(n / 10) + [('0' as int + n % 10) as char]
  }

  /** The decimal spelling of an integer, with a leading '-' when negative. */
  function IntToString(n: int): string {
    if n < 0 then "-" + NatToDigits(-n) else NatToDigits(n)
  }

  lemma {:induction false} DigitsRoundTrip(n: nat)
    ensures DigitsValue(NatToDigits(n)) == n
  {
    var s := NatToDigits(n);
    if n >= 10 {
      DigitsRoundTrip(n / 10);
      assert s[..|s| - 1] == NatToDigits(n / 10);
    }
  }

  /** A sign, leading zeros, a non-digit and a value one past the range, as `Integer.parseInt` treats them. */
  lemma ParseIntExamples()
    ensures ParseInt("+007") == Some(7)
    ensures ParseInt("-42") == Some(-42)
    ensures ParseInt("x5") == None
    ensures ParseInt("-") == None
    ensures ParseInt("2147483648") == None
  {
    assert DigitsValue("007") == 7 by {
      assert "007"[..2] == "00" && "00"[..1] == "0" && "0"[..0] == "";
    }
    assert DigitsValue("42") == 42 by {
      assert "42"[..1] == "4" && "4"[..0] == "";
    }
    assert !IsDigit('x');
    assert "2"[..0] == "";
    assert DigitsValue("2") == 2;
    assert "21"[..1] == "2";
    assert DigitsValue("21") == 21;
    assert "214"[..2] == "21";
    assert DigitsValue("214") == 214;
    assert "2147"[..3] == "214";
    assert DigitsValue("2147") == 2147;
    assert "21474"[..4] == "2147";
    assert DigitsValue("21474") == 21474;
    assert "214748"[..5] == "21474";
    assert DigitsValue("214748") == 214748;
    assert "2147483"[..6] == "214748";
    assert DigitsValue("2147483") == 2147483;
    assert "21474836"[..7] == "2147483";
    assert DigitsValue("21474836") == 21474836;
    assert "214748364"[..8] == "21474836";
    assert DigitsValue("214748364") == 214748364;
    assert "2147483648"[..9] == "214748364";
    assert DigitsValue("2147483648") == 2147483648;
  }

  /** A 32-bit integer written in decimal parses back to itself. */
  lemma ParseIntRoundTrip(n: int)
    requires InInt32(n)
    ensures ParseInt(IntToString(n)) == Some(n)
  {
    DigitsRoundTrip(if n < 0 then -n else n);
    if n < 0 {
      var s := IntToString(n);
      assert s[1..] == NatToDigits(-n);
    }
  }

  /** `Long.intValue`: keeps the low 32 bits, read as a two's-complement int. */
  function ToInt32(x: int): (r: int)
    ensures InInt32(r)
    ensures InInt32(x) ==> r == x
    ensures (x - r) % 0x1_0000_0000 == 0
  {
    (x - INT_MIN) % 0x1_0000_0000 + INT_MIN
  }

  // ---------------------------------------------------------------------------
  // Paths.get(p).getFileName().toString()
  // ---------------------------------------------------------------------------

  /** `p` without its trailing '/' characters. */
  function DropTrailingSlashes(p: string): (r: string)
    ensures |r| <= |p| && r == p[..|r|]
    ensures |r| == 0 || r[|r| - 1] != '/'
    ensures forall k :: |r| <= k < |p| ==> p[k] == '/'
  {
    if |p| > 0 && p[|p| - 1] == '/' then DropTrailingSlashes(p[..|p| - 1]) else p
  }

  /** The part of `p` after its last '/'. */
  function AfterLastSlash(p: string): (r: string)
    ensures |r| <= |p| && r == p[|p| - |r|..]
    ensures forall k :: 0 <= k < |r| ==> r[k] != '/'
    ensures |r| < |p| ==> p[|p| - |r| - 1] == '/'
  {
    if |p| == 0 || p[|p| - 1] == '/' then ""
    else AfterLastSlash(p[..|p| - 1]) + [p[|p| - 1]]
  }

  /**
   * `Paths.get(p).getFileName().toString()` on a Unix file system: the last
   * name element. A NUL char makes `Paths.get` throw; a path made only of '/'
   * has no file name, and `toString()` on the missing name throws.
   */
  function FileName(p: string): (r: Result<string>)
    ensures r.Ok? ==> forall k :: 0 <= k < |r.value| ==> r.value[k] != '/'
    ensures r.Ok? ==> |r.value| > 0 || |p| == 0
    ensures r == Err(InvalidPath) <==> '\0' in p
    ensures r == Err(NullPointer) <==> '\0' !in p && |p| > 0 && |DropTrailingSlashes(p)| == 0
  {
    if '\0' in p then Err(InvalidPath)
    else
      var q := DropTrailingSlashes(p);
      if |p| > 0 && |q| == 0 then Err(NullPointer)
      else Ok(AfterLastSlash(q))
  }

  /** Whatever comes before the last '/', only what follows it is kept. */
  lemma {:induction false} AfterLastSlashOfJoin(dir: string, name: string)
    requires '/' !in name
    ensures AfterLastSlash(dir + "/" + name) == name
    decreases |name|
  {
    var p := dir + "/" + name;
    if |name| == 0 {
      assert p[|p| - 1] == '/';
    } else {
      var init := name[..|name| - 1];
      assert p[..|p| - 1] == dir + "/" + init;
      assert p[|p| - 1] == name[|name| - 1];
      AfterLastSlashOfJoin(dir, init);
      assert init + [name[|name| - 1]] == name;
    }
  }

  /** The file name of `dir/name` is `name`, whatever the directory part. */
  lemma FileNameOfJoinedPath(dir: string, name: string)
    requires |name| > 0 && '/' !in name && '\0' !in name && '\0' !in dir
    ensures FileName(dir + "/" + name) == Ok(name)
  {
    var p := dir + "/" + name;
    assert p[|p| - 1] == name[|name| - 1];
    assert DropTrailingSlashes(p) == p;
    AfterLastSlashOfJoin(dir, name);
  }
}
