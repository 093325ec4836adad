/** The statistics panel of the text utilities view: character, word, line,
    sentence and paragraph counts and the estimated reading time, each
    computed from the text by the same string operations the view uses. */
module TextStats {
  import opened Wrappers
  import opened JsString

  datatype TextStatistics = TextStatistics(
    chars: nat,
    charsNoSpaces: nat,
    words: nat,
    lines: nat,
    sentences: nat,
    paragraphs: nat,
    readingTime: nat)

  /** Removing whitespace never lengthens the text, in UTF-16 code units too. */
  lemma {:induction false} RemoveWhitespaceShorter(s: String)
    ensures Utf16Length(RemoveWhitespace(s)) <= Utf16Length(s)
  {
    if |s| > 0 {
      RemoveWhitespaceShorter(s[1..]);
      if !IsWhitespace(s[0]) {
        assert ([s[0]] + RemoveWhitespace(s[1..]))[1..] == RemoveWhitespace(s[1..]);
      }
    }
  }

  /** The word count: the number of whitespace-separated pieces of the
      trimmed text, zero for a blank text. */
  function WordCount(text: String): (n: nat)
    ensures n == 0 <==> AllWhitespace(text)
  {
    var t := Trim(text);
    if t != [] then |SplitRuns(t, IsWhitespace)| else 0
  }

  /** The word count is the number of maximal runs of non-whitespace characters. */
  lemma WordCountIsRuns(text: String)
    ensures WordCount(text) == Runs(text, IsWhitespace)
  {
    var t := Trim(text);
    RunsTrim(text);
    if t != [] {
      SplitRunsCount(t, IsWhitespace);
    }
  }

  /** The line count: one more than the number of line feeds, zero for the
      empty text. */
  function LineCount(text: String): (n: nat)
    ensures n == 0 <==> text == []
    ensures text != [] ==> n == Count(text, {'\n'}) + 1
  {
    if text != [] then |Split(text, {'\n'})| else 0
  }

  /** The punctuation that ends a sentence: full stop, exclamation and
      question mark. */
  predicate IsTerminal(c: char) {
    c == '.' || c == '!' || c == '?'
  }

  /** How many strings of `xs` are not blank. */
  function CountNonBlank(xs: seq<String>): (n: nat)
    ensures n <= |xs|
    ensures n == 0 <==> forall k :: 0 <= k < |xs| ==> AllWhitespace(xs[k])
  {
    if |xs| == 0 then 0
    else
      TrimEmptyIff(xs[0]);
      (if Trim(xs[0]) != [] then 1 else 0) + CountNonBlank(xs[1..])
  }

  /** Every string of `xs` is blank. */
  predicate AllBlank(xs: seq<String>) {
    forall k :: 0 <= k < |xs| ==> AllWhitespace(xs[k])
  }

  /** Every character of `s` is whitespace or satisfies `sep`. */
  predicate BlankOr(s: String, sep: char -> bool) {
    forall i :: 0 <= i < |s| ==> IsWhitespace(s[i]) || sep(s[i])
  }

  lemma AllBlankCons(x: String, xs: seq<String>)
    ensures AllBlank([x] + xs) <==> AllWhitespace(x) && AllBlank(xs)
  {
    var ys := [x] + xs;
    assert ys[0] == x;
    assert forall k :: 0 <= k < |xs| ==> ys[k + 1] == xs[k];
    if AllWhitespace(x) && AllBlank(xs) {
      forall k | 0 <= k < |ys|
        ensures AllWhitespace(ys[k])
      {
        if k > 0 { assert ys[k] == xs[k - 1]; }
      }
    }
  }

  lemma AllWhitespaceCons(c: char, s: String)
    ensures AllWhitespace([c] + s) <==> IsWhitespace(c) && AllWhitespace(s)
  {
    var t := [c] + s;
    assert t[0] == c;
    assert forall i :: 0 <= i < |s| ==> t[i + 1] == s[i];
    if IsWhitespace(c) && AllWhitespace(s) {
      forall i | 0 <= i < |t|
        ensures IsWhitespace(t[i])
      {
        if i > 0 { assert t[i] == s[i - 1]; }
      }
    }
  }

  lemma AllWhitespaceAppend(a: String, b: String)
    ensures AllWhitespace(a + b) <==> AllWhitespace(a) && AllWhitespace(b)
  {
    var t := a + b;
    assert forall i :: 0 <= i < |a| ==> t[i] == a[i];
    assert forall i :: 0 <= i < |b| ==> t[|a| + i] == b[i];
    if AllWhitespace(a) && AllWhitespace(b) {
      forall i | 0 <= i < |t|
        ensures IsWhitespace(t[i])
      {
        if i >= |a| { assert t[i] == b[i - |a|]; }
      }
    }
  }

  lemma BlankOrSuffix(s: String, d: String, sep: char -> bool)
    requires |d| <= |s| && d == s[|s| - |d|..]
    requires forall i :: 0 <= i < |s| - |d| ==> sep(s[i])
    ensures BlankOr(s, sep) <==> BlankOr(d, sep)
  {
    assert forall i :: 0 <= i < |d| ==> d[i] == s[|s| - |d| + i];
  }

  /** Every piece of `s.split(/X+/)` is blank exactly when every character of
      `s` is whitespace or a separator. */
  lemma {:induction false} SplitRunsBlank(s: String, sep: char -> bool)
    ensures AllBlank(SplitRuns(s, sep)) <==> BlankOr(s, sep)
    decreases |s|
  {
    if |s| > 0 {
      if sep(s[0]) {
        var d := DropWhile(s, sep);
        SplitRunsBlank(d, sep);
        AllBlankCons("", SplitRuns(d, sep));
        BlankOrSuffix(s, d, sep);
      } else {
        var rest := SplitRuns(s[1..], sep);
        SplitRunsBlank(s[1..], sep);
        AllBlankCons([s[0]] + rest[0], rest[1..]);
        AllBlankCons(rest[0], rest[1..]);
        assert rest == [rest[0]] + rest[1..];
        AllWhitespaceCons(s[0], rest[0]);
        assert forall i :: 1 <= i < |s| ==> s[i] == s[1..][i - 1];
        assert BlankOr(s, sep) <==> (IsWhitespace(s[0]) || sep(s[0])) && BlankOr(s[1..], sep);
      }
    }
  }

  /** The sentence count: the non-blank pieces between runs of sentence
      punctuation, zero for a blank text. */
  function SentenceCount(text: String): (n: nat)
    ensures n <= SepRuns(text, IsTerminal) + 1
  {
    SplitRunsLength(text, IsTerminal);
    TrimEmptyIff(text);
    if Trim(text) != [] then CountNonBlank(SplitRuns(text, IsTerminal)) else 0
  }

  /** There are no sentences exactly when the text holds nothing but
      whitespace and sentence-ending punctuation. */
  lemma SentenceCountZero(text: String)
    ensures SentenceCount(text) == 0 <==> BlankOr(text, IsTerminal)
  {
    SplitRunsBlank(text, IsTerminal);
  }

  /** The largest `k < n` with `s[k] == '\n'`. */
  function LastLineFeed(s: String, n: nat): (r: Option<nat>)
    requires n <= |s|
    ensures r.Some? ==> r.value < n && s[r.value] == '\n'
    ensures forall k :: (if r.Some? then r.value + 1 else 0) <= k < n ==> s[k] != '\n'
  {
    if n == 0 then None
    else if s[n - 1] == '\n' then Some(n - 1)
    else LastLineFeed(s, n - 1)
  }

  /** Length of the match of `/\n\s*\n/` at the start of `s`, if it matches
      there: the greedy `\s*` takes the whole whitespace run and then backs off
      to the last line feed inside it. */
  function BreakAt(s: String): (r: Option<nat>)
    ensures r.Some? ==> 2 <= r.value <= |s| && s[0] == '\n' && s[r.value - 1] == '\n'
    ensures r.Some? ==> forall i :: 0 <= i < r.value ==> IsWhitespace(s[i])
    ensures (|s| > 0 && s[0] == '\n' && |s| > 1 && s[1] == '\n') ==> r.Some?
    ensures (forall i :: 1 <= i < |s| ==> s[i] != '\n') ==> r.None?
  {
    if |s| == 0 || s[0] != '\n' then None
    else
      var t := s[1..];
      var w := |t| - |TrimStart(t)|;
      match LastLineFeed(t, w)
      case None => None
      case Some(k) => Some(k + 2)
  }

  /** The pieces of `s` between paragraph breaks (a line feed, any
      whitespace, a line feed), with `cur` the piece collected so far. */
  function ParagraphPieces(s: String, cur: String): (r: seq<String>)
    ensures |r| >= 1
    decreases |s|
  {
    if |s| == 0 then [cur]
    else match BreakAt(s)
      case Some(n) => [cur] + ParagraphPieces(s[n..], [])
      case None => ParagraphPieces(s[1..], cur + [s[0]])
  }

  /** All pieces are blank exactly when the text they came from is. */
  lemma {:induction false} ParagraphPiecesBlank(s: String, cur: String)
    ensures AllBlank(ParagraphPieces(s, cur)) <==> AllWhitespace(cur) && AllWhitespace(s)
    decreases |s|
  {
    if |s| > 0 {
      match BreakAt(s)
      case Some(n) =>
        ParagraphPiecesBlank(s[n..], []);
        BreakBlank(s, cur, n);
      case None =>
        ParagraphPiecesBlank(s[1..], cur + [s[0]]);
        NoBreakBlank(s, cur);
    } else {
      AllBlankCons(cur, []);
      assert [cur] + [] == [cur];
    }
  }

  /** The step of `ParagraphPiecesBlank` at a paragraph break. */
  lemma BreakBlank(s: String, cur: String, n: nat)
    requires |s| > 0 && BreakAt(s) == Some(n)
    requires AllBlank(ParagraphPieces(s[n..], [])) <==> AllWhitespace(s[n..])
    ensures AllBlank(ParagraphPieces(s, cur)) <==> AllWhitespace(cur) && AllWhitespace(s)
  {
    WhitespacePrefix(s, n);
    var rest := ParagraphPieces(s[n..], []);
    assert ParagraphPieces(s, cur) == [cur] + rest;
    AllBlankCons(cur, rest);
  }

  /** Below a whitespace prefix, a string is blank exactly when its rest is. */
  lemma WhitespacePrefix(s: String, n: nat)
    requires n <= |s|
    requires forall i :: 0 <= i < n ==> IsWhitespace(s[i])
    ensures AllWhitespace(s) <==> AllWhitespace(s[n..])
  {
    assert forall i :: n <= i < |s| ==> s[i] == s[n..][i - n];
  }

  /** The step of `ParagraphPiecesBlank` where no break starts. */
  lemma NoBreakBlank(s: String, cur: String)
    requires |s| > 0 && BreakAt(s).None?
    requires AllBlank(ParagraphPieces(s[1..], cur + [s[0]])) <==> AllWhitespace(cur + [s[0]]) && AllWhitespace(s[1..])
    ensures AllBlank(ParagraphPieces(s, cur)) <==> AllWhitespace(cur) && AllWhitespace(s)
  {
    assert ParagraphPieces(s, cur) == ParagraphPieces(s[1..], cur + [s[0]]);
    AllWhitespaceAppend(cur, [s[0]]);
    AllWhitespaceAppend([s[0]], s[1..]);
    assert s == [s[0]] + s[1..];
  }

  /** A text without line feeds is one piece. */
  lemma {:induction false} ParagraphPiecesNoLineFeed(s: String, cur: String)
    requires forall i :: 0 <= i < |s| ==> s[i] != '\n'
    ensures ParagraphPieces(s, cur) == [cur + s]
    decreases |s|
  {
    if |s| > 0 {
      assert BreakAt(s).None?;
      assert ParagraphPieces(s, cur) == ParagraphPieces(s[1..], cur + [s[0]]);
      ParagraphPiecesNoLineFeed(s[1..], cur + [s[0]]);
      assert s == [s[0]] + s[1..];
      assert cur + [s[0]] + s[1..] == cur + s;
    } else {
      assert cur + s == cur;
    }
  }

  /** The paragraph count: the non-blank pieces between paragraph breaks,
      zero for a blank text. */
  function ParagraphCount(text: String): (n: nat)
    ensures n == 0 <==> AllWhitespace(text)
  {
    ParagraphPiecesBlank(text, []);
    TrimEmptyIff(text);
    if Trim(text) != [] then CountNonBlank(ParagraphPieces(text, [])) else 0
  }

  /** A non-blank text with no line feed is a single paragraph. */
  lemma OneLineOneParagraph(text: String)
    requires !AllWhitespace(text)
    requires forall i :: 0 <= i < |text| ==> text[i] != '\n'
    ensures ParagraphCount(text) == 1
  {
    ParagraphPiecesNoLineFeed(text, []);
    assert [] + text == text;
  }

  /** Reading time in whole minutes at 200 words a minute, rounded up. */
  function ReadingTime(words: nat): (minutes: nat)
    ensures 200 * minutes >= words
    ensures minutes > 0 ==> 200 * (minutes - 1) < words
    ensures minutes == 0 <==> words == 0
  {
    (words + 199) / 200
  }

  /** The `stats` memo of the text utilities view. */
  function Statistics(text: String): (st: TextStatistics)
    ensures st.charsNoSpaces <= st.chars
    ensures st.words == Runs(text, IsWhitespace)
    ensures st.words == 0 <==> AllWhitespace(text)
    ensures st.lines == 0 <==> text == []
    ensures st.paragraphs == 0 <==> AllWhitespace(text)
    ensures st.sentences == 0 <==> BlankOr(text, IsTerminal)
    ensures st.readingTime == 0 <==> AllWhitespace(text)
  {
    RemoveWhitespaceShorter(text);
    WordCountIsRuns(text);
    SentenceCountZero(text);
    var words := WordCount(text);
    TextStatistics(
      Utf16Length(text),
      Utf16Length(RemoveWhitespace(text)),
      words,
      LineCount(text),
      SentenceCount(text),
      ParagraphCount(text),
      ReadingTime(words))
  }
}
