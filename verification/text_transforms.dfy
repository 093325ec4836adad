/** The transforming tools of the text utilities view: duplicate-line removal,
    the text cleaner and the ASCII case conversions. */
module TextTransforms {
  import opened JsString

  // ---------------------------------------------------------------------
  // Duplicate-line removal
  // ---------------------------------------------------------------------

  predicate Distinct(xs: seq<String>) {
    forall i, j :: 0 <= i < j < |xs| ==> xs[i] != xs[j]
  }

  /** Position of the first occurrence of `x` in `xs`. */
  function FirstIndex(xs: seq<String>, x: String): (i: nat)
    requires x in xs
    ensures i < |xs| && xs[i] == x && x !in xs[..i]
  {
    if xs[0] == x then 0 else 1 + FirstIndex(xs[1..], x)
  }

  /** The distinct lines of `xs` restricted to the lines not in `seen`: a `Set`
      iterates in insertion order, so each line is kept at its first
      occurrence. */
  function UniqueFrom(xs: seq<String>, seen: set<String>): (r: seq<String>)
    ensures |r| <= |xs|
    ensures Distinct(r)
    ensures forall x :: x in r <==> x in xs && x !in seen
    ensures forall i, j :: 0 <= i < j < |r| ==> FirstIndex(xs, r[i]) < FirstIndex(xs, r[j])
  {
    if |xs| == 0 then []
    else if xs[0] in seen then UniqueFrom(xs[1..], seen)
    else [xs[0]] + UniqueFrom(xs[1..], seen + {xs[0]})
  }

  function Unique(xs: seq<String>): (r: seq<String>)
    ensures |r| <= |xs|
    ensures Distinct(r)
    ensures forall x :: x in r <==> x in xs
    ensures forall i, j :: 0 <= i < j < |r| ==> FirstIndex(xs, r[i]) < FirstIndex(xs, r[j])
  {
    UniqueFrom(xs, {})
  }

  /** Lines that are already distinct and unseen pass through unchanged. */
  lemma {:induction false} UniqueFromDistinct(xs: seq<String>, seen: set<String>)
    requires Distinct(xs)
    requires forall k :: 0 <= k < |xs| ==> xs[k] !in seen
    ensures UniqueFrom(xs, seen) == xs
  {
    if |xs| > 0 {
      var t := xs[1..];
      DistinctTail(xs, seen);
      UniqueFromDistinct(t, seen + {xs[0]});
      UniqueFromKeep(xs, seen);
      assert xs == [xs[0]] + t;
    }
  }

  /** The tail of distinct unseen lines is distinct and unseen once the
      head is seen too. */
  lemma DistinctTail(xs: seq<String>, seen: set<String>)
    requires |xs| > 0 && Distinct(xs)
    requires forall k :: 0 <= k < |xs| ==> xs[k] !in seen
    ensures Distinct(xs[1..])
    ensures forall k :: 0 <= k < |xs[1..]| ==> xs[1..][k] !in seen + {xs[0]}
  {
    var t := xs[1..];
    assert forall k :: 0 <= k < |t| ==> t[k] == xs[k + 1];
  }

  /** An unseen first line is kept, and the rest is deduplicated with it seen. */
  lemma UniqueFromKeep(xs: seq<String>, seen: set<String>)
    requires |xs| > 0 && xs[0] !in seen
    ensures UniqueFrom(xs, seen) == [xs[0]] + UniqueFrom(xs[1..], seen + {xs[0]})
  {
  }

  /** Nothing is dropped exactly when the lines are distinct. */
  lemma {:induction false} UniqueFromKeepsAll(xs: seq<String>, seen: set<String>)
    ensures |UniqueFrom(xs, seen)| == |xs|
        <==> Distinct(xs) && forall k :: 0 <= k < |xs| ==> xs[k] !in seen
  {
    if |xs| > 0 {
      UniqueFromKeepsAll(xs[1..], seen + {xs[0]});
      if Distinct(xs) && forall k :: 0 <= k < |xs| ==> xs[k] !in seen {
        UniqueFromDistinct(xs, seen);
      }
      if |UniqueFrom(xs, seen)| == |xs| {
        assert xs[0] !in seen;
        assert forall k :: 1 <= k < |xs| ==> xs[k] == xs[1..][k - 1];
      }
    }
  }

  lemma UniqueKeepsAll(xs: seq<String>)
    ensures |Unique(xs)| == |xs| <==> Distinct(xs)
  {
    UniqueFromKeepsAll(xs, {});
  }

  /** Result of the duplicate remover: the text shown and the count reported. */
  datatype Deduplicated = Deduplicated(output: String, removed: nat)

  /** `removeDuplicates`: split on line feeds, keep each line's first
      occurrence, join with line feeds and report how many lines went. */
  function RemoveDuplicates(text: String): (r: Deduplicated)
    ensures Split(r.output, {'\n'}) == Unique(Split(text, {'\n'}))
    ensures r.removed == |Split(text, {'\n'})| - |Split(r.output, {'\n'})|
    ensures r.removed == 0 <==> Distinct(Split(text, {'\n'}))
  {
    var lines := Split(text, {'\n'});
    var unique := Unique(lines);
    assert lines[0] in lines;
    SplitJoin(unique, '\n', {'\n'});
    UniqueKeepsAll(lines);
    Deduplicated(Join(unique, "\n"), |lines| - |unique|)
  }

  /** Removing duplicates a second time removes nothing and changes nothing. */
  lemma RemoveDuplicatesIdempotent(text: String)
    ensures RemoveDuplicates(RemoveDuplicates(text).output).removed == 0
    ensures RemoveDuplicates(RemoveDuplicates(text).output).output == RemoveDuplicates(text).output
  {
    var once := RemoveDuplicates(text).output;
    var lines := Split(once, {'\n'});
    UniqueFromDistinct(lines, {});
    JoinSplit(once, '\n');
  }

  // ---------------------------------------------------------------------
  // Text cleaner
  // ---------------------------------------------------------------------

  /** `s.replace(/X+/g, rep)` for a character class X given as `p` and a
      one-character replacement. */
  function ReplaceRuns(s: String, p: char -> bool, rep: char): (r: String)
    ensures |r| <= |s|
    ensures |r| == 0 <==> |s| == 0
    ensures |s| > 0 ==> r[0] == (if p(s[0]) then rep else s[0])
    ensures forall i :: 0 <= i < |r| ==> r[i] == rep || (!p(r[i]) && r[i] in s)
    ensures p(rep) ==> forall i :: 0 <= i < |r| - 1 ==> !(p(r[i]) && p(r[i + 1]))
    decreases |s|
  {
    if |s| == 0 then []
    else if p(s[0]) then [rep] + ReplaceRuns(DropWhile(s, p), p, rep)
    else [s[0]] + ReplaceRuns(s[1..], p, rep)
  }

  /** A string whose every `p` character is already a lone `rep` is left as it is. */
  lemma {:induction false} ReplaceRunsNothingToDo(s: String, p: char -> bool, rep: char)
    requires forall i :: 0 <= i < |s| ==> p(s[i]) ==> s[i] == rep
    requires forall i :: 0 <= i < |s| - 1 ==> !(p(s[i]) && p(s[i + 1]))
    ensures ReplaceRuns(s, p, rep) == s
    decreases |s|
  {
    if |s| > 0 {
      if p(s[0]) {
        assert DropWhile(s, p) == s[1..];
      }
      ReplaceRunsNothingToDo(s[1..], p, rep);
      assert s == [s[0]] + s[1..];
    }
  }

  /** Every run of whitespace replaced by one space. */
  function CollapseWhitespace(s: String): (r: String)
    ensures forall i :: 0 <= i < |r| ==> IsWhitespace(r[i]) ==> r[i] == ' '
    ensures forall i :: 0 <= i < |r| - 1 ==> !(IsWhitespace(r[i]) && IsWhitespace(r[i + 1]))
  {
    ReplaceRuns(s, IsWhitespace, ' ')
  }

  lemma {:induction false} RemoveWhitespaceDropWhile(s: String)
    ensures RemoveWhitespace(DropWhile(s, IsWhitespace)) == RemoveWhitespace(s)
  {
    if |s| > 0 && IsWhitespace(s[0]) {
      RemoveWhitespaceDropWhile(s[1..]);
    }
  }

  /** Collapsing whitespace keeps every other character, in order. */
  lemma {:induction false} CollapseKeepsText(s: String)
    ensures RemoveWhitespace(CollapseWhitespace(s)) == RemoveWhitespace(s)
    decreases |s|
  {
    if |s| > 0 {
      var r := CollapseWhitespace(s);
      if IsWhitespace(s[0]) {
        var d := DropWhile(s, IsWhitespace);
        CollapseKeepsText(d);
        RemoveWhitespaceDropWhile(s);
        assert r == [' '] + CollapseWhitespace(d);
        assert r[1..] == CollapseWhitespace(d);
      } else {
        CollapseKeepsText(s[1..]);
        assert r == [s[0]] + CollapseWhitespace(s[1..]);
        assert r[1..] == CollapseWhitespace(s[1..]);
      }
    }
  }

  predicate IsLineFeed(c: char) { c == '\n' }

  /** Every run of line feeds replaced by one space. */
  function LineFeedsToSpaces(s: String): (r: String)
    ensures forall i :: 0 <= i < |r| ==> r[i] != '\n'
  {
    ReplaceRuns(s, IsLineFeed, ' ')
  }

  /** ASCII letters, ASCII digits and whitespace: what removing special
      characters keeps. */
  predicate IsPlain(c: char) {
    IsAsciiUpper(c) || IsAsciiLower(c) || IsAsciiDigit(c) || IsWhitespace(c)
  }

  /** `s` with every character that is not plain removed. */
  function StripSpecial(s: String): (r: String)
    ensures |r| <= |s|
    ensures forall i :: 0 <= i < |r| ==> IsPlain(r[i]) && r[i] in s
    ensures forall c :: c in s && IsPlain(c) ==> c in r
  {
    if |s| == 0 then []
    else if IsPlain(s[0]) then [s[0]] + StripSpecial(s[1..])
    else StripSpecial(s[1..])
  }

  /** `a` can be obtained from `b` by deleting characters. */
  predicate IsSubsequence(a: String, b: String)
    decreases |b|
  {
    if |a| == 0 then true
    else if |b| == 0 then false
    else if a[0] == b[0] then IsSubsequence(a[1..], b[1..])
    else IsSubsequence(a, b[1..])
  }

  lemma {:induction false} StripSpecialSubsequence(s: String)
    ensures IsSubsequence(StripSpecial(s), s)
  {
    if |s| > 0 {
      StripSpecialSubsequence(s[1..]);
      if !IsPlain(s[0]) {
        SubsequenceSkip(StripSpecial(s[1..]), s[1..], s[0]);
        assert s == [s[0]] + s[1..];
      }
    }
  }

  /** A subsequence of `b` is one of `[c] + b` too. */
  lemma {:induction false} SubsequenceSkip(a: String, b: String, c: char)
    requires IsSubsequence(a, b)
    ensures IsSubsequence(a, [c] + b)
    decreases |b|, 1
  {
    assert ([c] + b)[1..] == b;
    if |a| > 0 && a[0] == c {
      SubsequenceTail(a, b);
    }
  }

  /** Dropping the first character of a subsequence keeps it one. */
  lemma {:induction false} SubsequenceTail(a: String, b: String)
    requires |a| > 0 && IsSubsequence(a, b)
    ensures IsSubsequence(a[1..], b)
    decreases |b|, 0
  {
    if a[0] == b[0] {
      SubsequenceSkip(a[1..], b[1..], b[0]);
    } else {
      SubsequenceTail(a, b[1..]);
      SubsequenceSkip(a[1..], b[1..], b[0]);
    }
    assert b == [b[0]] + b[1..];
  }

  /** Text that is already plain is left as it is, so stripping is idempotent. */
  lemma {:induction false} StripSpecialPlain(s: String)
    requires forall i :: 0 <= i < |s| ==> IsPlain(s[i])
    ensures StripSpecial(s) == s
  {
    if |s| > 0 {
      StripSpecialPlain(s[1..]);
      assert s == [s[0]] + s[1..];
    }
  }

  lemma StripSpecialIdempotent(s: String)
    ensures StripSpecial(StripSpecial(s)) == StripSpecial(s)
  {
    StripSpecialPlain(StripSpecial(s));
  }

  datatype CleanOptions = CleanOptions(removeSpaces: bool, removeLineBreaks: bool, removeSpecialChars: bool)

  /** No whitespace at either end and no two whitespace characters in a row. */
  predicate Tidy(s: String) {
    && (|s| == 0 || (!IsWhitespace(s[0]) && !IsWhitespace(s[|s| - 1])))
    && forall i :: 0 <= i < |s| - 1 ==> !(IsWhitespace(s[i]) && IsWhitespace(s[i + 1]))
  }

  /** Trimming a collapsed string leaves it tidy and free of line feeds. */
  lemma TrimCollapsed(c: String)
    requires forall i :: 0 <= i < |c| ==> IsWhitespace(c[i]) ==> c[i] == ' '
    requires forall i :: 0 <= i < |c| - 1 ==> !(IsWhitespace(c[i]) && IsWhitespace(c[i + 1]))
    ensures Tidy(Trim(c))
    ensures forall i :: 0 <= i < |Trim(c)| ==> IsWhitespace(Trim(c)[i]) ==> Trim(c)[i] == ' '
  {
    TrimSlice(c);
    TrimEnds(c);
    var r := Trim(c);
    var a := |c| - |TrimStart(c)|;
    assert forall i :: 0 <= i < |r| ==> r[i] == c[a + i];
  }

  /** The `removeSpaces` step: collapse whitespace runs, then trim. */
  function SqueezeSpaces(s: String): (r: String)
    ensures Tidy(r)
    ensures forall i :: 0 <= i < |r| ==> IsWhitespace(r[i]) ==> r[i] == ' '
    ensures forall i :: 0 <= i < |r| ==> r[i] != '\n'
    ensures RemoveWhitespace(r) == RemoveWhitespace(s)
  {
    var c := CollapseWhitespace(s);
    TrimCollapsed(c);
    CollapseKeepsText(s);
    TrimKeepsText(c);
    Trim(c)
  }

  lemma {:induction false} TrimEndKeepsText(s: String)
    ensures RemoveWhitespace(TrimEnd(s)) == RemoveWhitespace(s)
    decreases |s|
  {
    if |s| > 0 && IsWhitespace(s[|s| - 1]) {
      var t := s[..|s| - 1];
      TrimEndKeepsText(t);
      assert s == t + [s[|s| - 1]];
      RemoveWhitespaceAppend(t, [s[|s| - 1]]);
      assert RemoveWhitespace(t) + [] == RemoveWhitespace(t);
    }
  }

  lemma TrimKeepsText(s: String)
    ensures RemoveWhitespace(Trim(s)) == RemoveWhitespace(s)
  {
    RemoveWhitespaceDropWhile(s);
    TrimEndKeepsText(TrimStart(s));
  }

  lemma {:induction false} RemoveWhitespaceAppend(a: String, b: String)
    ensures RemoveWhitespace(a + b) == RemoveWhitespace(a) + RemoveWhitespace(b)
  {
    if |a| > 0 {
      RemoveWhitespaceAppend(a[1..], b);
      assert (a + b)[1..] == a[1..] + b;
    } else {
      assert a + b == b;
    }
  }

  /** Collapsing and trimming a second time changes nothing. */
  lemma SqueezeSpacesIdempotent(s: String)
    ensures SqueezeSpaces(SqueezeSpaces(s)) == SqueezeSpaces(s)
  {
    var r := SqueezeSpaces(s);
    ReplaceRunsNothingToDo(r, IsWhitespace, ' ');
    assert CollapseWhitespace(r) == r;
    TrimIdentity(r);
  }

  lemma LineFeedsToSpacesNothingToDo(a: String)
    ensures (forall i :: 0 <= i < |a| ==> a[i] != '\n') ==> LineFeedsToSpaces(a) == a
  {
    if forall i :: 0 <= i < |a| ==> a[i] != '\n' {
      ReplaceRunsNothingToDo(a, IsLineFeed, ' ');
    }
  }

  /** The `removeLineBreaks` step, which has nothing to do after squeezing. */
  function LineBreaksStep(a: String, on: bool): (r: String)
    ensures on ==> forall i :: 0 <= i < |r| ==> r[i] != '\n'
    ensures (forall i :: 0 <= i < |a| ==> a[i] != '\n') ==> r == a
  {
    LineFeedsToSpacesNothingToDo(a);
    if on then LineFeedsToSpaces(a) else a
  }

  /** `cleanText`: the three optional steps in the order the view applies them. */
  function CleanText(text: String, opts: CleanOptions): (r: String)
    ensures opts.removeSpaces && !opts.removeSpecialChars ==> Tidy(r)
    ensures opts.removeSpaces && !opts.removeSpecialChars ==> RemoveWhitespace(r) == RemoveWhitespace(text)
    ensures opts.removeLineBreaks || opts.removeSpaces ==> forall i :: 0 <= i < |r| ==> r[i] != '\n'
    ensures opts.removeSpecialChars ==> forall i :: 0 <= i < |r| ==> IsPlain(r[i])
    ensures !opts.removeSpaces && !opts.removeLineBreaks && !opts.removeSpecialChars ==> r == text
  {
    var a := if opts.removeSpaces then SqueezeSpaces(text) else text;
    var b := LineBreaksStep(a, opts.removeLineBreaks);
    assert opts.removeSpaces ==> b == a;
    assert opts.removeLineBreaks || opts.removeSpaces ==> forall i :: 0 <= i < |b| ==> b[i] != '\n';
    if opts.removeSpecialChars then
      StripKeepsNoLineFeed(b);
      StripSpecial(b)
    else b
  }

  /** Stripping special characters adds no line feed. */
  lemma StripKeepsNoLineFeed(b: String)
    ensures (forall i :: 0 <= i < |b| ==> b[i] != '\n') ==> forall i :: 0 <= i < |StripSpecial(b)| ==> StripSpecial(b)[i] != '\n'
  {
    if forall i :: 0 <= i < |b| ==> b[i] != '\n' {
      assert '\n' !in b;
    }
  }

  // ---------------------------------------------------------------------
  // Case conversion
  // ---------------------------------------------------------------------

  datatype CaseType = Upper | Lower | Snake | Kebab

  /** The separator a word-splitting conversion inserts. */
  predicate IsWordSeparator(c: char) { c == '_' || c == '-' }

  /** `s` without any occurrence of `c`. */
  function RemoveChar(s: String, c: char): (r: String)
    ensures forall i :: 0 <= i < |r| ==> r[i] != c
  {
    if |s| == 0 then []
    else (if s[0] == c then [] else [s[0]]) + RemoveChar(s[1..], c)
  }

  /** Every ASCII capital replaced by `sep` and its lower-case letter. */
  function MarkCapitals(s: String, sep: char): (r: String)
    ensures forall i :: 0 <= i < |r| ==> r[i] == sep || IsAsciiLower(r[i]) || (!IsAsciiUpper(r[i]) && r[i] in s)
  {
    if |s| == 0 then []
    else if IsAsciiUpper(s[0]) then [sep, AsciiLowerChar(s[0])] + MarkCapitals(s[1..], sep)
    else [s[0]] + MarkCapitals(s[1..], sep)
  }

  /** `s` without a leading `sep`, if it has one. */
  function DropLeading(s: String, sep: char): (r: String)
    ensures r == s || (|s| > 0 && s[0] == sep && r == s[1..])
  {
    if |s| > 0 && s[0] == sep then s[1..] else s
  }

  /** The snake and kebab conversions: whitespace runs become `sep`, every
      capital gets a `sep` in front, one leading `sep` is dropped and the
      result is lower-cased. */
  function SeparateWords(text: String, sep: char): (r: String)
    requires IsWordSeparator(sep)
    ensures forall i :: 0 <= i < |r| ==> !IsWhitespace(r[i]) && !IsAsciiUpper(r[i])
  {
    var a := ReplaceRuns(text, IsWhitespace, sep);
    var b := MarkCapitals(a, sep);
    var c := DropLeading(b, sep);
    AsciiLower(c)
  }

  lemma RemoveCharCons(c: char, t: String, x: char)
    ensures RemoveChar([c] + t, x) == (if c == x then [] else [c]) + RemoveChar(t, x)
  {
    assert ([c] + t)[1..] == t;
  }

  lemma AsciiLowerCons(c: char, t: String)
    ensures AsciiLower([c] + t) == [AsciiLowerChar(c)] + AsciiLower(t)
  {
  }

  /** Replacing whitespace runs by a separator keeps the other characters. */
  lemma {:induction false} ReplaceRunsKeepsText(s: String, sep: char)
    requires IsWordSeparator(sep)
    ensures RemoveChar(ReplaceRuns(s, IsWhitespace, sep), sep) == RemoveChar(RemoveWhitespace(s), sep)
    decreases |s|
  {
    if |s| > 0 {
      if IsWhitespace(s[0]) {
        var d := DropWhile(s, IsWhitespace);
        ReplaceRunsKeepsText(d, sep);
        RemoveWhitespaceDropWhile(s);
        RemoveCharCons(sep, ReplaceRuns(d, IsWhitespace, sep), sep);
      } else {
        ReplaceRunsKeepsText(s[1..], sep);
        RemoveCharCons(s[0], ReplaceRuns(s[1..], IsWhitespace, sep), sep);
        RemoveCharCons(s[0], RemoveWhitespace(s[1..]), sep);
      }
    }
  }

  /** Marking capitals inserts separators and lower-cases the capitals, nothing else. */
  lemma {:induction false} MarkCapitalsKeepsText(s: String, sep: char)
    requires IsWordSeparator(sep)
    ensures RemoveChar(MarkCapitals(s, sep), sep) == AsciiLower(RemoveChar(s, sep))
  {
    if |s| > 0 {
      MarkCapitalsKeepsText(s[1..], sep);
      assert s == [s[0]] + s[1..];
      MarkCapitalsStep(s[0], s[1..], sep);
    }
  }

  /** One step of `MarkCapitalsKeepsText`: the claim for `[c] + t` follows from the claim for `t`. */
  lemma MarkCapitalsStep(c: char, t: String, sep: char)
    requires IsWordSeparator(sep)
    requires RemoveChar(MarkCapitals(t, sep), sep) == AsciiLower(RemoveChar(t, sep))
    ensures RemoveChar(MarkCapitals([c] + t, sep), sep) == AsciiLower(RemoveChar([c] + t, sep))
  {
    var m := MarkCapitals(t, sep);
    var u := RemoveChar(t, sep);
    assert ([c] + t)[1..] == t;
    RemoveCharCons(c, t, sep);
    if IsAsciiUpper(c) {
      var l := AsciiLowerChar(c);
      assert MarkCapitals([c] + t, sep) == [sep] + ([l] + m);
      RemoveCharCons(sep, [l] + m, sep);
      RemoveCharCons(l, m, sep);
      AsciiLowerCons(c, u);
    } else {
      assert MarkCapitals([c] + t, sep) == [c] + m;
      RemoveCharCons(c, m, sep);
      if c != sep {
        AsciiLowerCons(c, u);
      }
    }
  }

  /** Lower-casing commutes with removing a separator. */
  lemma {:induction false} RemoveCharLower(x: String, sep: char)
    requires IsWordSeparator(sep)
    ensures RemoveChar(AsciiLower(x), sep) == AsciiLower(RemoveChar(x, sep))
  {
    if |x| > 0 {
      RemoveCharLower(x[1..], sep);
      assert x == [x[0]] + x[1..];
      AsciiLowerCons(x[0], x[1..]);
      RemoveCharCons(AsciiLowerChar(x[0]), AsciiLower(x[1..]), sep);
      RemoveCharCons(x[0], x[1..], sep);
      if x[0] != sep {
        AsciiLowerCons(x[0], RemoveChar(x[1..], sep));
      }
    }
  }

  /** Snake and kebab case keep every non-whitespace character of the text,
      lower-cased and in order; the only thing they add is separators. */
  lemma SeparateWordsKeepsText(text: String, sep: char)
    requires IsWordSeparator(sep)
    ensures RemoveChar(SeparateWords(text, sep), sep) == AsciiLower(RemoveChar(RemoveWhitespace(text), sep))
  {
    var a := ReplaceRuns(text, IsWhitespace, sep);
    var b := MarkCapitals(a, sep);
    var c := DropLeading(b, sep);
    var t := RemoveChar(a, sep);
    assert t == RemoveChar(RemoveWhitespace(text), sep) by {
      ReplaceRunsKeepsText(text, sep);
    }
    assert RemoveChar(b, sep) == AsciiLower(t) by {
      MarkCapitalsKeepsText(a, sep);
    }
    assert RemoveChar(c, sep) == RemoveChar(b, sep) by {
      if c != b {
        RemoveCharCons(sep, c, sep);
        assert b == [sep] + c;
      }
    }
    assert RemoveChar(SeparateWords(text, sep), sep) == AsciiLower(RemoveChar(c, sep)) by {
      RemoveCharLower(c, sep);
    }
    assert AsciiLower(AsciiLower(t)) == AsciiLower(t);
  }

  /** `convertCase` for the ASCII conversions. */
  function ConvertCase(text: String, kind: CaseType): (r: String)
    ensures kind == Upper ==> |r| == |text| && forall i :: 0 <= i < |r| ==> !IsAsciiLower(r[i])
    ensures kind == Lower ==> |r| == |text| && forall i :: 0 <= i < |r| ==> !IsAsciiUpper(r[i])
    ensures kind in {Snake, Kebab} ==> forall i :: 0 <= i < |r| ==> !IsWhitespace(r[i]) && !IsAsciiUpper(r[i])
    ensures kind == Snake ==> RemoveChar(r, '_') == AsciiLower(RemoveChar(RemoveWhitespace(text), '_'))
    ensures kind == Kebab ==> RemoveChar(r, '-') == AsciiLower(RemoveChar(RemoveWhitespace(text), '-'))
  {
    SeparateWordsKeepsText(text, '_');
    SeparateWordsKeepsText(text, '-');
    match kind
    case Upper => AsciiUpper(text)
    case Lower => AsciiLower(text)
    case Snake => SeparateWords(text, '_')
    case Kebab => SeparateWords(text, '-')
  }

  /** Upper- and lower-casing only change the case of letters. */
  lemma CaseConversionKeepsLetters(text: String)
    ensures AsciiLower(ConvertCase(text, Upper)) == AsciiLower(text)
    ensures AsciiUpper(ConvertCase(text, Lower)) == AsciiUpper(text)
  {
    assert forall i :: 0 <= i < |text| ==> AsciiLowerChar(AsciiUpperChar(text[i])) == AsciiLowerChar(text[i]);
    assert forall i :: 0 <= i < |text| ==> AsciiUpperChar(AsciiLowerChar(text[i])) == AsciiUpperChar(text[i]);
  }

  lemma CaseConversionIdempotent(text: String, kind: CaseType)
    requires kind in {Upper, Lower}
    ensures ConvertCase(ConvertCase(text, kind), kind) == ConvertCase(text, kind)
  {
  }

  /** Only one leading separator is dropped: whitespace before a leading
      capital leaves a separator at the front of the result. */
  lemma LeadingSeparatorKept(text: String, sep: char)
    requires IsWordSeparator(sep)
    requires |text| >= 2 && IsWhitespace(text[0]) && IsAsciiUpper(text[1])
    ensures |SeparateWords(text, sep)| > 0 && SeparateWords(text, sep)[0] == sep
  {
    var d := DropWhile(text, IsWhitespace);
    assert d == text[1..];
    var a := ReplaceRuns(text, IsWhitespace, sep);
    assert a == [sep] + ReplaceRuns(d, IsWhitespace, sep);
    assert a[1] == text[1];
    var m := MarkCapitals(a[1..], sep);
    assert a == [sep] + a[1..];
    assert MarkCapitals(a, sep) == [sep] + m;
    assert m[0] == sep;
  }
}
