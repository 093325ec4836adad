/** The positional line diff of the compare view (src/views/diff-compare.tsx):
    `computeDiff` pairs the i-th lines of the two texts, `stats` counts the
    four kinds of entry, `handleCopyDiff` renders the diff as text and
    `handleSwap` exchanges the two texts. */
module LineDiff {
  import opened Wrappers
  import opened JsString

  datatype DiffType = Added | Removed | Unchanged | Modified

  /** One entry of the diff; `None` stands for an `undefined` field. */
  datatype DiffLine = DiffLine(kind: DiffType, left: Option<String>, right: Option<String>,
                               leftNum: Option<nat>, rightNum: Option<nat>)

  /** The two switches of the view, together with the engine's
      `String.prototype.toLowerCase`, which maps the whole of Unicode and is
      left abstract here. */
  datatype Filters = Filters(ignoreWhitespace: bool, ignoreCase: bool, lower: String -> String)

  /** Lower-casing never turns a line without a line feed into one with a
      line feed, which holds of the Unicode case mapping. */
  ghost predicate KeepsLines(lower: String -> String) {
    forall s :: '\n' !in s ==> '\n' !in lower(s)
  }

  /** The ASCII case mapping is one lowering that keeps lines. */
  lemma AsciiLowerKeepsLines()
    ensures KeepsLines(AsciiLower)
  {
    forall s | '\n' !in s ensures '\n' !in AsciiLower(s) {
      assert forall i :: 0 <= i < |s| ==> AsciiLower(s)[i] == AsciiLowerChar(s[i]);
    }
  }

  /** The lines of a text: the pieces between its line feeds. */
  function Lines(text: String): (r: seq<String>)
    ensures |r| >= 1
    ensures forall k, i :: 0 <= k < |r| && 0 <= i < |r[k]| ==> r[k][i] != '\n'
  {
    Split(text, {'\n'})
  }

  /** The filters applied to one line: trimmed first, then lower-cased. */
  function Normalize(line: String, f: Filters): String {
    var t := if f.ignoreWhitespace then Trim(line) else line;
    if f.ignoreCase then f.lower(t) else t
  }

  function NormalizeAll(lines: seq<String>, f: Filters): (r: seq<String>)
    ensures |r| == |lines|
  {
    seq(|lines|, i requires 0 <= i < |lines| => Normalize(lines[i], f))
  }

  function Max(a: nat, b: nat): nat { if a < b then b else a }

  /** The line at index `i`, or `None` past the end. */
  function LineAt(lines: seq<String>, i: nat): Option<String> {
    if i < |lines| then Some(lines[i]) else None
  }

  /** The entry for position `i`, as the body of the loop builds it. */
  function EntryAt(ls: seq<String>, rs: seq<String>, i: nat): DiffLine {
    var l := LineAt(ls, i);
    var r := LineAt(rs, i);
    if l.None? && r.Some? then DiffLine(Added, None, r, None, Some(i + 1))
    else if l.Some? && r.None? then DiffLine(Removed, l, None, Some(i + 1), None)
    else if l == r then DiffLine(Unchanged, l, r, Some(i + 1), Some(i + 1))
    else DiffLine(Modified, l, r, Some(i + 1), Some(i + 1))
  }

  /** What an entry at position `i` is, stated without reference to how it is built. */
  predicate Describes(d: DiffLine, ls: seq<String>, rs: seq<String>, i: nat) {
    && (d.kind == Added <==> |ls| <= i < |rs|)
    && (d.kind == Removed <==> |rs| <= i < |ls|)
    && (d.kind == Unchanged <==> i < |ls| && i < |rs| && ls[i] == rs[i])
    && (d.kind == Modified <==> i < |ls| && i < |rs| && ls[i] != rs[i])
    && d.left == (if i < |ls| then Some(ls[i]) else None)
    && d.right == (if i < |rs| then Some(rs[i]) else None)
    && d.leftNum == (if i < |ls| then Some(i + 1) else None)
    && d.rightNum == (if i < |rs| then Some(i + 1) else None)
  }

  /** The loop of `computeDiff` over the (filtered) line lists. */
  method DiffLines(ls: seq<String>, rs: seq<String>) returns (diff: seq<DiffLine>)
    ensures |diff| == Max(|ls|, |rs|)
    ensures forall i :: 0 <= i < |diff| ==> Describes(diff[i], ls, rs, i)
    ensures diff == DiffOf(ls, rs)
  {
    diff := [];
    var maxLines := Max(|ls|, |rs|);
    var i := 0;
    while i < maxLines
      invariant 0 <= i <= maxLines
      invariant |diff| == i
      invariant forall j :: 0 <= j < i ==> Describes(diff[j], ls, rs, j)
    {
      var leftLine := LineAt(ls, i);
      var rightLine := LineAt(rs, i);
      var entry;
      if leftLine.None? && rightLine.Some? {
        entry := DiffLine(Added, None, rightLine, None, Some(i + 1));
      } else if leftLine.Some? && rightLine.None? {
        entry := DiffLine(Removed, leftLine, None, Some(i + 1), None);
      } else if leftLine == rightLine {
        entry := DiffLine(Unchanged, leftLine, rightLine, Some(i + 1), Some(i + 1));
      } else {
        entry := DiffLine(Modified, leftLine, rightLine, Some(i + 1), Some(i + 1));
      }
      diff := diff + [entry];
      i := i + 1;
    }
    DiffIsDetermined(diff, DiffOf(ls, rs), ls, rs);
  }

  /** `Describes` pins an entry down completely. */
  lemma DescribesUnique(d: DiffLine, e: DiffLine, ls: seq<String>, rs: seq<String>, i: nat)
    requires Describes(d, ls, rs, i) && Describes(e, ls, rs, i)
    ensures d == e
  {
  }

  /** Two diffs of the right length that describe the same line lists entry
      by entry are equal, so the loop and the function compute the same diff. */
  lemma DiffIsDetermined(a: seq<DiffLine>, b: seq<DiffLine>, ls: seq<String>, rs: seq<String>)
    requires |a| == |b|
    requires forall i :: 0 <= i < |a| ==> Describes(a[i], ls, rs, i)
    requires forall i :: 0 <= i < |b| ==> Describes(b[i], ls, rs, i)
    ensures a == b
  {
    forall i | 0 <= i < |a| ensures a[i] == b[i] {
      DescribesUnique(a[i], b[i], ls, rs, i);
    }
  }

  /** `computeDiff` as a function, entry by entry. */
  function DiffOf(ls: seq<String>, rs: seq<String>): (r: seq<DiffLine>)
    ensures |r| == Max(|ls|, |rs|)
    ensures forall i :: 0 <= i < |r| ==> Describes(r[i], ls, rs, i)
  {
    seq(Max(|ls|, |rs|), i requires 0 <= i => EntryAt(ls, rs, i))
  }

  /** `computeDiff`: nothing when both texts are empty, otherwise the
      positional diff of the filtered lines (an empty text is one empty line). */
  function ComputeDiff(left: String, right: String, f: Filters): (r: seq<DiffLine>)
    ensures left == [] && right == [] ==> r == []
    ensures !(left == [] && right == []) ==>
      var ls := NormalizeAll(Lines(left), f);
      var rs := NormalizeAll(Lines(right), f);
      && |r| == Max(|ls|, |rs|)
      && forall i :: 0 <= i < |r| ==> Describes(r[i], ls, rs, i)
  {
    if left == [] && right == [] then []
    else DiffOf(NormalizeAll(Lines(left), f), NormalizeAll(Lines(right), f))
  }

  // ---------------------------------------------------------------------
  // stats

  function CountKind(diff: seq<DiffLine>, k: DiffType): (n: nat)
    ensures n <= |diff|
  {
    if |diff| == 0 then 0 else (if diff[0].kind == k then 1 else 0) + CountKind(diff[1..], k)
  }

  /** The counts of the `stats` memo; `same` is its `unchanged` count. */
  datatype Stats = Stats(added: nat, removed: nat, modified: nat, same: nat, total: nat)

  /** The `stats` memo: one filter-count per kind and the length. */
  function ComputeStats(diff: seq<DiffLine>): (s: Stats)
    ensures s.added + s.removed + s.modified + s.same == s.total == |diff|
  {
    KindsPartition(diff);
    Stats(CountKind(diff, Added), CountKind(diff, Removed), CountKind(diff, Modified),
          CountKind(diff, Unchanged), |diff|)
  }

  /** Every entry has exactly one of the four kinds. */
  lemma {:induction false} KindsPartition(diff: seq<DiffLine>)
    ensures CountKind(diff, Added) + CountKind(diff, Removed) + CountKind(diff, Modified)
          + CountKind(diff, Unchanged) == |diff|
  {
    if |diff| > 0 {
      KindsPartition(diff[1..]);
    }
  }

  /** Entries whose kind is decided by positions alone counted by index range. */
  lemma {:induction false} CountKindRange(diff: seq<DiffLine>, k: DiffType, lo: nat, hi: nat)
    requires lo <= hi <= |diff|
    requires forall i :: 0 <= i < |diff| ==> (diff[i].kind == k <==> lo <= i < hi)
    ensures CountKind(diff, k) == hi - lo
    decreases |diff|
  {
    if |diff| > 0 {
      var t := diff[1..];
      if lo == 0 {
        if hi == 0 {
          CountKindRange(t, k, 0, 0);
        } else {
          CountKindRange(t, k, 0, hi - 1);
        }
      } else {
        CountKindRange(t, k, lo - 1, hi - 1);
      }
    }
  }

  /** Exactly the extra lines of the right text are added and exactly the
      extra lines of the left text are removed, so at most one of the two
      counts is non-zero. */
  lemma AddedRemovedCounts(left: String, right: String, f: Filters)
    requires left != [] || right != []
    ensures var s := ComputeStats(ComputeDiff(left, right, f));
      var nl := |Lines(left)|;
      var nr := |Lines(right)|;
      && s.added == (if nr > nl then nr - nl else 0)
      && s.removed == (if nl > nr then nl - nr else 0)
      && (s.added == 0 || s.removed == 0)
  {
    var ls := NormalizeAll(Lines(left), f);
    var rs := NormalizeAll(Lines(right), f);
    var d := ComputeDiff(left, right, f);
    CountKindRange(d, Added, |ls|, Max(|ls|, |rs|));
    CountKindRange(d, Removed, |rs|, Max(|ls|, |rs|));
  }

  function SwapKind(k: DiffType): DiffType {
    match k
    case Added => Removed
    case Removed => Added
    case _ => k
  }

  lemma {:induction false} CountKindSwapped(a: seq<DiffLine>, b: seq<DiffLine>, k: DiffType)
    requires |a| == |b|
    requires forall i :: 0 <= i < |a| ==> b[i].kind == SwapKind(a[i].kind)
    ensures CountKind(b, SwapKind(k)) == CountKind(a, k)
  {
    if |a| > 0 {
      CountKindSwapped(a[1..], b[1..], k);
      assert (b[0].kind == SwapKind(k)) == (a[0].kind == k) by {
        match k case Added => case Removed => case Unchanged => case Modified =>
      }
    }
  }

  /** `handleSwap` exchanges the texts: the diff has the same length, added
      and removed counts trade places, modified and unchanged stay. */
  lemma SwapExchangesCounts(left: String, right: String, f: Filters)
    ensures var s := ComputeStats(ComputeDiff(left, right, f));
      var t := ComputeStats(ComputeDiff(right, left, f));
      && t.added == s.removed && t.removed == s.added
      && t.modified == s.modified && t.same == s.same && t.total == s.total
  {
    var a := ComputeDiff(left, right, f);
    var b := ComputeDiff(right, left, f);
    if left != [] || right != [] {
      assert forall i :: 0 <= i < |a| ==> b[i].kind == SwapKind(a[i].kind);
      CountKindSwapped(a, b, Added);
      CountKindSwapped(a, b, Removed);
      CountKindSwapped(a, b, Modified);
      CountKindSwapped(a, b, Unchanged);
    }
  }

  /** Every entry is unchanged exactly when the filtered line lists agree:
      identical texts, or texts that differ only in what the filters
      ignore, give no added, removed or modified line. */
  lemma AllUnchangedIff(left: String, right: String, f: Filters)
    requires left != [] || right != []
    ensures var d := ComputeDiff(left, right, f);
      (forall i :: 0 <= i < |d| ==> d[i].kind == Unchanged)
        <==> NormalizeAll(Lines(left), f) == NormalizeAll(Lines(right), f)
  {
    var ls := NormalizeAll(Lines(left), f);
    var rs := NormalizeAll(Lines(right), f);
    var d := ComputeDiff(left, right, f);
    if |ls| < |rs| {
      assert d[|ls|].kind == Added;
    } else if |rs| < |ls| {
      assert d[|rs|].kind == Removed;
    } else if forall i :: 0 <= i < |d| ==> d[i].kind == Unchanged {
      forall i | 0 <= i < |ls| ensures ls[i] == rs[i] {
        assert d[i].kind == Unchanged;
      }
    }
  }

  /** Comparing a text with itself shows only unchanged lines. */
  lemma SelfDiffUnchanged(text: String, f: Filters)
    ensures var s := ComputeStats(ComputeDiff(text, text, f));
      s.added == 0 && s.removed == 0 && s.modified == 0 && s.same == s.total
  {
    var d := ComputeDiff(text, text, f);
    if text != [] {
      AllUnchangedIff(text, text, f);
      CountKindRange(d, Unchanged, 0, |d|);
      CountKindRange(d, Added, 0, 0);
      CountKindRange(d, Removed, 0, 0);
      CountKindRange(d, Modified, 0, 0);
    }
  }

  /** With `ignoreWhitespace`, texts whose lines differ only in leading
      and trailing whitespace show only unchanged lines. */
  lemma WhitespaceOnlyDifference(left: String, right: String, f: Filters)
    requires f.ignoreWhitespace && (left != [] || right != [])
    requires |Lines(left)| == |Lines(right)|
    requires forall i :: 0 <= i < |Lines(left)| ==> Trim(Lines(left)[i]) == Trim(Lines(right)[i])
    ensures var d := ComputeDiff(left, right, f);
      forall i :: 0 <= i < |d| ==> d[i].kind == Unchanged
  {
    var ls := NormalizeAll(Lines(left), f);
    var rs := NormalizeAll(Lines(right), f);
    assert ls == rs by {
      forall i | 0 <= i < |ls| ensures ls[i] == rs[i] {
        assert ls[i] == Normalize(Lines(left)[i], f);
        assert rs[i] == Normalize(Lines(right)[i], f);
      }
    }
    AllUnchangedIff(left, right, f);
  }

  /** With `ignoreCase` alone, texts whose lines differ only in case show
      only unchanged lines. */
  lemma CaseOnlyDifference(left: String, right: String, f: Filters)
    requires f.ignoreCase && !f.ignoreWhitespace && (left != [] || right != [])
    requires |Lines(left)| == |Lines(right)|
    requires forall i :: 0 <= i < |Lines(left)| ==> f.lower(Lines(left)[i]) == f.lower(Lines(right)[i])
    ensures var d := ComputeDiff(left, right, f);
      forall i :: 0 <= i < |d| ==> d[i].kind == Unchanged
  {
    var ls := NormalizeAll(Lines(left), f);
    var rs := NormalizeAll(Lines(right), f);
    assert ls == rs by {
      forall i | 0 <= i < |ls| ensures ls[i] == rs[i] {
        assert ls[i] == Normalize(Lines(left)[i], f);
        assert rs[i] == Normalize(Lines(right)[i], f);
      }
    }
    AllUnchangedIff(left, right, f);
  }

  // ---------------------------------------------------------------------
  // handleCopyDiff

  /** A template-literal hole: an absent field prints as `undefined`. */
  function Show(o: Option<String>): String {
    match o
    case Some(s) => s
    case None => "undefined"
  }

  const Arrow: String := " \U{2192} "

  /** The kind a rendered line announces in its first two characters. */
  function KindOfMark(line: String): Option<DiffType> {
    if |line| < 2 || line[1] != ' ' then None
    else if line[0] == '+' then Some(Added)
    else if line[0] == '-' then Some(Removed)
    else if line[0] == '~' then Some(Modified)
    else if line[0] == ' ' then Some(Unchanged)
    else None
  }

  /** One entry as `handleCopyDiff` prints it: a two-character mark from
      which the kind can be read back, then the line for added, removed
      and unchanged entries, or both lines around an arrow for modified ones. */
  function RenderLine(d: DiffLine): (r: String)
    ensures |r| >= 2 && KindOfMark(r) == Some(d.kind)
    ensures d.kind == Added ==> r[2..] == Show(d.right)
    ensures d.kind == Removed || d.kind == Unchanged ==> r[2..] == Show(d.left)
    ensures d.kind == Modified ==> r[2..] == Show(d.left) + Arrow + Show(d.right)
  {
    match d.kind
    case Added => "+ " + Show(d.right)
    case Removed => "- " + Show(d.left)
    case Modified => "~ " + Show(d.left) + Arrow + Show(d.right)
    case Unchanged => "  " + Show(d.left)
  }

  /** The copied diff text: the rendered entries joined by newlines. */
  function RenderDiff(diff: seq<DiffLine>): String {
    Join(seq(|diff|, i requires 0 <= i < |diff| => RenderLine(diff[i])), "\n")
  }

  /** No field of an entry holds a newline. */
  predicate SingleLine(d: DiffLine) {
    && (d.left.Some? ==> '\n' !in d.left.value)
    && (d.right.Some? ==> '\n' !in d.right.value)
  }

  lemma RenderLineSingle(d: DiffLine)
    requires SingleLine(d)
    ensures '\n' !in RenderLine(d)
  {
  }

  /** Filtering never introduces a newline into a line. */
  lemma NormalizeSingleLine(line: String, f: Filters)
    requires KeepsLines(f.lower)
    requires '\n' !in line
    ensures '\n' !in Normalize(line, f)
  {
    var t := if f.ignoreWhitespace then Trim(line) else line;
    assert '\n' !in t by {
      if f.ignoreWhitespace {
        TrimSlice(line);
        var a := |line| - |TrimStart(line)|;
        assert t == line[a..a + |t|];
      }
    }
  }

  /** The copied text has exactly one line per entry, and splitting it on
      newlines gives back each rendered entry in order. */
  lemma RenderOneLinePerEntry(left: String, right: String, f: Filters)
    requires KeepsLines(f.lower)
    requires left != [] || right != []
    ensures var d := ComputeDiff(left, right, f);
      Split(RenderDiff(d), {'\n'}) == seq(|d|, i requires 0 <= i < |d| => RenderLine(d[i]))
  {
    var d := ComputeDiff(left, right, f);
    var ls := NormalizeAll(Lines(left), f);
    var rs := NormalizeAll(Lines(right), f);
    forall i | 0 <= i < |ls| ensures '\n' !in ls[i] {
      var k := Lines(left);
      assert forall j :: 0 <= j < |k[i]| ==> k[i][j] != '\n';
      NormalizeSingleLine(k[i], f);
    }
    forall i | 0 <= i < |rs| ensures '\n' !in rs[i] {
      var k := Lines(right);
      assert forall j :: 0 <= j < |k[i]| ==> k[i][j] != '\n';
      NormalizeSingleLine(k[i], f);
    }
    var xs := seq(|d|, i requires 0 <= i < |d| => RenderLine(d[i]));
    forall k, i | 0 <= k < |xs| && 0 <= i < |xs[k]| ensures xs[k][i] !in {'\n'} {
      assert SingleLine(d[k]);
      RenderLineSingle(d[k]);
    }
    assert |xs| >= 1 by { assert |ls| >= 1; }
    SplitJoin(xs, '\n', {'\n'});
  }
}
