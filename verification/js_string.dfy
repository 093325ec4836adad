/** The handful of ECMAScript string primitives the modelled code relies on:
    `\s` and `trim`, `split` on a separator, `join`, ASCII case mapping and
    `length` measured in UTF-16 code units. Strings are sequences of Unicode
    scalar values. */
module JsString {

  type String = seq<char>

  /** ECMAScript LineTerminator: the characters `.` does not match without the `s` flag. */
  predicate IsLineTerminator(c: char) {
    c == '\n' || c == '\r' || c == '\U{2028}' || c == '\U{2029}'
  }

  /** ECMAScript WhiteSpace or LineTerminator: exactly what `\s` matches and
      what `String.prototype.trim` removes. */
  predicate IsWhitespace(c: char) {
    || c == '\t' || c == '\U{000B}' || c == '\U{000C}' || c == ' '
    || c == '\U{00A0}' || c == '\U{FEFF}' || c == '\U{1680}'
    || ('\U{2000}' <= c <= '\U{200A}')
    || c == '\U{202F}' || c == '\U{205F}' || c == '\U{3000}'
    || IsLineTerminator(c)
  }

  predicate AllWhitespace(s: String) {
    forall i :: 0 <= i < |s| ==> IsWhitespace(s[i])
  }

  predicate IsAsciiUpper(c: char) { 'A' <= c <= 'Z' }
  predicate IsAsciiLower(c: char) { 'a' <= c <= 'z' }
  predicate IsAsciiDigit(c: char) { '0' <= c <= '9' }

  /** The longest suffix of `s` that does not start with a character satisfying `p`. */
  function DropWhile(s: String, p: char -> bool): (r: String)
    ensures |r| <= |s| && r == s[|s| - |r|..]
    ensures forall i :: 0 <= i < |s| - |r| ==> p(s[i])
    ensures r == [] || !p(r[0])
  {
    if |s| > 0 && p(s[0]) then
      var r := DropWhile(s[1..], p);
      assert s[1..][|s| - 1 - |r|..] == s[|s| - |r|..];
      assert forall i :: 1 <= i < |s| - |r| ==> s[i] == s[1..][i - 1];
      r
    else s
  }

  /** `String.prototype.trimStart`. */
  function TrimStart(s: String): (r: String)
  {
    DropWhile(s, IsWhitespace)
  }

  /** `String.prototype.trimEnd`. */
  function TrimEnd(s: String): (r: String)
    ensures |r| <= |s| && r == s[..|r|]
    ensures forall i :: |r| <= i < |s| ==> IsWhitespace(s[i])
    ensures r == [] || !IsWhitespace(r[|r| - 1])
  {
    if |s| > 0 && IsWhitespace(s[|s| - 1]) then TrimEnd(s[..|s| - 1]) else s
  }

  /** `String.prototype.trim`: the middle of `s` between its whitespace margins. */
  function Trim(s: String): (r: String)
    ensures |r| <= |s|
  {
    TrimEnd(TrimStart(s))
  }

  /** Trim keeps a contiguous slice of its input, starting where trimStart starts. */
  lemma TrimSlice(s: String)
    ensures var a := |s| - |TrimStart(s)|; a + |Trim(s)| <= |s| && Trim(s) == s[a..a + |Trim(s)|]
  {
    var t := TrimStart(s);
    var r := TrimEnd(t);
    var a := |s| - |t|;
    assert t == s[a..];
    assert r == t[..|r|];
    assert forall i :: 0 <= i < |r| ==> r[i] == s[a + i];
  }

  /** What Trim removes on either side is whitespace. */
  lemma TrimMargins(s: String)
    ensures forall i :: 0 <= i < |s| - |TrimStart(s)| ==> IsWhitespace(s[i])
    ensures forall i :: |s| - |TrimStart(s)| + |Trim(s)| <= i < |s| ==> IsWhitespace(s[i])
  {
    TrimSlice(s);
    var t := TrimStart(s);
    var r := TrimEnd(t);
    forall i | |s| - |t| + |r| <= i < |s|
      ensures IsWhitespace(s[i])
    {
      assert s[i] == t[i - (|s| - |t|)];
    }
  }

  /** A non-empty trimmed string starts and ends with a non-whitespace character. */
  lemma TrimEnds(s: String)
    ensures Trim(s) == [] || (!IsWhitespace(Trim(s)[0]) && !IsWhitespace(Trim(s)[|Trim(s)| - 1]))
  {
    var t := TrimStart(s);
    var r := TrimEnd(t);
    if r != [] {
      assert r[0] == t[0];
    }
  }

  /** Trim empties exactly the all-whitespace strings. */
  lemma TrimEmptyIff(s: String)
    ensures Trim(s) == [] <==> AllWhitespace(s)
  {
    TrimSlice(s);
    TrimMargins(s);
    TrimEnds(s);
    if !AllWhitespace(s) {
      var j :| 0 <= j < |s| && !IsWhitespace(s[j]);
    }
  }

  /** A string without whitespace margins is its own trim. */
  lemma TrimIdentity(s: String)
    requires |s| == 0 || (!IsWhitespace(s[0]) && !IsWhitespace(s[|s| - 1]))
    ensures Trim(s) == s
  {
    TrimSlice(s);
    TrimMargins(s);
  }

  /** The characters of `s` that are not whitespace, in order. */
  function RemoveWhitespace(s: String): (r: String)
    ensures |r| <= |s|
    ensures forall i :: 0 <= i < |r| ==> !IsWhitespace(r[i])
    ensures r == [] <==> AllWhitespace(s)
  {
    if |s| == 0 then []
    else if IsWhitespace(s[0]) then RemoveWhitespace(s[1..])
    else [s[0]] + RemoveWhitespace(s[1..])
  }

  /** Number of characters of `s` that belong to `seps`. */
  function Count(s: String, seps: set<char>): nat
  {
    if |s| == 0 then 0 else (if s[0] in seps then 1 else 0) + Count(s[1..], seps)
  }

  /** `s.split(sep)` where every character of `seps` is a one-character
      separator (a string separator when `seps` is a singleton, a regex
      character class such as `/[,&]/` otherwise). */
  function Split(s: String, seps: set<char>): (r: seq<String>)
    ensures |r| == Count(s, seps) + 1
    ensures forall k, i :: 0 <= k < |r| && 0 <= i < |r[k]| ==> r[k][i] !in seps
  {
    if |s| == 0 then [""]
    else
      var rest := Split(s[1..], seps);
      if s[0] in seps then [""] + rest
      else [[s[0]] + rest[0]] + rest[1..]
  }

  /** The strings of `xs` with `sep` between neighbours. */
  function Join(xs: seq<String>, sep: String): String
  {
    if |xs| == 0 then ""
    else if |xs| == 1 then xs[0]
    else xs[0] + sep + Join(xs[1..], sep)
  }

  /** Splitting on a separator and joining with it gives back the string. */
  lemma {:induction false} JoinSplit(s: String, c: char)
    ensures Join(Split(s, {c}), [c]) == s
  {
    if |s| > 0 {
      var rest := Split(s[1..], {c});
      JoinSplit(s[1..], c);
      if s[0] != c && |rest| > 1 {
        assert Join(rest, [c]) == rest[0] + [c] + Join(rest[1..], [c]);
        assert s == [s[0]] + s[1..];
      }
    }
  }

  lemma {:induction false} SplitPrefix(x: String, t: String, seps: set<char>)
    requires forall i :: 0 <= i < |x| ==> x[i] !in seps
    ensures Split(x + t, seps) == [x + Split(t, seps)[0]] + Split(t, seps)[1..]
  {
    if |x| > 0 {
      assert (x + t)[1..] == x[1..] + t;
      SplitPrefix(x[1..], t, seps);
      assert [x[0]] + (x[1..] + Split(t, seps)[0]) == x + Split(t, seps)[0];
    } else {
      assert x + t == t;
      var r := Split(t, seps);
      assert r == [r[0]] + r[1..];
      assert x + r[0] == r[0];
    }
  }

  /** Joining separator-free pieces and splitting again gives back the pieces. */
  lemma {:induction false} SplitJoin(xs: seq<String>, c: char, seps: set<char>)
    requires c in seps && |xs| >= 1
    requires forall k, i :: 0 <= k < |xs| && 0 <= i < |xs[k]| ==> xs[k][i] !in seps
    ensures Split(Join(xs, [c]), seps) == xs
  {
    if |xs| == 1 {
      SplitPrefix(xs[0], "", seps);
      assert xs[0] + "" == xs[0];
      assert Split("", seps) == [""];
      assert Join(xs, [c]) == xs[0];
      assert xs == [xs[0]];
    } else {
      var y := Join(xs[1..], [c]);
      SplitJoin(xs[1..], c, seps);
      assert xs[0] + [c] + y == xs[0] + ([c] + y);
      SplitPrefix(xs[0], [c] + y, seps);
      assert ([c] + y)[1..] == y;
      assert Split([c] + y, seps) == [""] + Split(y, seps);
      assert Join(xs, [c]) == xs[0] + ([c] + y);
      assert Split(Join(xs, [c]), seps) == [xs[0] + ""] + Split(y, seps);
      assert xs[0] + "" == xs[0];
      assert xs == [xs[0]] + xs[1..];
    }
  }

  /** `s.split(/X+/)` for a character class X given as `sep`: the pieces
      between maximal runs of separator characters. */
  function SplitRuns(s: String, sep: char -> bool): (r: seq<String>)
    ensures |r| >= 1
    ensures forall k, i :: 0 <= k < |r| && 0 <= i < |r[k]| ==> !sep(r[k][i])
    decreases |s|
  {
    if |s| == 0 then [""]
    else if sep(s[0]) then [""] + SplitRuns(DropWhile(s, sep), sep)
    else
      var rest := SplitRuns(s[1..], sep);
      [[s[0]] + rest[0]] + rest[1..]
  }

  /** Number of maximal runs of characters NOT satisfying `sep`, counted at
      the last character of each run. */
  function Runs(s: String, sep: char -> bool): nat
  {
    if |s| == 0 then 0
    else (if !sep(s[0]) && (|s| == 1 || sep(s[1])) then 1 else 0) + Runs(s[1..], sep)
  }

  /** Number of maximal runs of characters satisfying `sep`. */
  function SepRuns(s: String, sep: char -> bool): nat
  {
    if |s| == 0 then 0
    else (if sep(s[0]) && (|s| == 1 || !sep(s[1])) then 1 else 0) + SepRuns(s[1..], sep)
  }

  lemma {:induction false} SepRunsDropWhile(s: String, sep: char -> bool)
    requires |s| > 0 && sep(s[0])
    ensures SepRuns(s, sep) == 1 + SepRuns(DropWhile(s, sep), sep)
  {
    if |s| > 1 && sep(s[1]) {
      SepRunsDropWhile(s[1..], sep);
    }
  }

  /** One more piece than there are separator runs. */
  lemma {:induction false} SplitRunsLength(s: String, sep: char -> bool)
    ensures |SplitRuns(s, sep)| == 1 + SepRuns(s, sep)
    decreases |s|
  {
    if |s| > 0 {
      if sep(s[0]) {
        SepRunsDropWhile(s, sep);
        SplitRunsLength(DropWhile(s, sep), sep);
      } else {
        SplitRunsLength(s[1..], sep);
      }
    }
  }

  lemma {:induction false} RunsMinusSepRuns(s: String, sep: char -> bool)
    requires |s| > 0 && !sep(s[|s| - 1])
    ensures Runs(s, sep) == SepRuns(s, sep) + (if sep(s[0]) then 0 else 1)
  {
    if |s| > 1 {
      RunsMinusSepRuns(s[1..], sep);
    }
  }

  /** A string with no separator at either end splits into exactly its runs. */
  lemma SplitRunsCount(s: String, sep: char -> bool)
    requires |s| > 0 && !sep(s[0]) && !sep(s[|s| - 1])
    ensures |SplitRuns(s, sep)| == Runs(s, sep)
  {
    SplitRunsLength(s, sep);
    RunsMinusSepRuns(s, sep);
  }

  lemma {:induction false} RunsSkipSeparators(s: String, sep: char -> bool)
    ensures Runs(DropWhile(s, sep), sep) == Runs(s, sep)
  {
    if |s| > 0 && sep(s[0]) {
      RunsSkipSeparators(s[1..], sep);
    }
  }

  lemma {:induction false} RunsAppendSeparator(s: String, c: char, sep: char -> bool)
    requires sep(c)
    ensures Runs(s + [c], sep) == Runs(s, sep)
  {
    if |s| > 0 {
      assert (s + [c])[1..] == s[1..] + [c];
      RunsAppendSeparator(s[1..], c, sep);
    }
  }

  lemma {:induction false} RunsTrimEnd(s: String)
    ensures Runs(TrimEnd(s), IsWhitespace) == Runs(s, IsWhitespace)
    decreases |s|
  {
    if |s| > 0 && IsWhitespace(s[|s| - 1]) {
      RunsTrimEnd(s[..|s| - 1]);
      assert s == s[..|s| - 1] + [s[|s| - 1]];
      RunsAppendSeparator(s[..|s| - 1], s[|s| - 1], IsWhitespace);
    }
  }

  /** Trimming does not change the number of words. */
  lemma RunsTrim(s: String)
    ensures Runs(Trim(s), IsWhitespace) == Runs(s, IsWhitespace)
  {
    RunsTrimEnd(TrimStart(s));
    RunsSkipSeparators(s, IsWhitespace);
  }

  /** ASCII-only `toLowerCase` of one character. */
  function AsciiLowerChar(c: char): (d: char)
    ensures !IsAsciiUpper(d)
    ensures !IsAsciiUpper(c) ==> d == c
    ensures IsAsciiUpper(c) ==> IsAsciiLower(d) && d as int - c as int == 'a' as int - 'A' as int
  {
    if IsAsciiUpper(c) then (c as int + ('a' as int - 'A' as int)) as char else c
  }

  /** ASCII-only `toUpperCase` of one character. */
  function AsciiUpperChar(c: char): (d: char)
    ensures !IsAsciiLower(d)
    ensures !IsAsciiLower(c) ==> d == c
    ensures IsAsciiLower(c) ==> IsAsciiUpper(d) && c as int - d as int == 'a' as int - 'A' as int
  {
    if IsAsciiLower(c) then (c as int - ('a' as int - 'A' as int)) as char else c
  }

  /** `String.prototype.toLowerCase`, restricted to ASCII letters. */
  function AsciiLower(s: String): (r: String)
    ensures |r| == |s|
    ensures forall i :: 0 <= i < |s| ==> r[i] == AsciiLowerChar(s[i])
  {
    seq(|s|, i requires 0 <= i < |s| => AsciiLowerChar(s[i]))
  }

  /** `String.prototype.toUpperCase`, restricted to ASCII letters. */
  function AsciiUpper(s: String): (r: String)
    ensures |r| == |s|
    ensures forall i :: 0 <= i < |s| ==> r[i] == AsciiUpperChar(s[i])
  {
    seq(|s|, i requires 0 <= i < |s| => AsciiUpperChar(s[i]))
  }

  /** `String.prototype.length`: UTF-16 code units, two for a character outside the BMP. */
  function Utf16Length(s: String): (n: nat)
    ensures |s| <= n <= 2 * |s|
  {
    if |s| == 0 then 0 else (if s[0] as int > 0xFFFF then 2 else 1) + Utf16Length(s[1..])
  }
}
