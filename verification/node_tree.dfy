/** `parseHTMLToNodes` and its inner `traverseNode` (src/utils/export-to-docx.ts):
    the HTML, after equation extraction, is parsed by the browser's DOMParser
    (here an abstract parameter yielding a DOM forest) and each DOM node is
    turned into a `ParsedNode`. */
module NodeTree {
  import opened Wrappers
  import opened JsString
  import opened EquationExtract

  /** The three kinds of DOM node `traverseNode` tells apart. */
  datatype Dom = DomText(text: String) | DomElement(tag: String, children: seq<Dom>) | DomOther

  /** A `ParsedNode` as `traverseNode` builds it: a text node keeps its
      content, an equation node its LaTeX, an element node its lower-cased
      tag and its surviving children. */
  datatype ParsedNode =
    | TextNode(content: String)
    | EquationNode(latex: String)
    | ElementNode(tag: String, children: seq<ParsedNode>)

  /** The node's `type` field, on which all later dispatch is done. */
  function TypeName(n: ParsedNode): String {
    match n
    case TextNode(_) => "text"
    case EquationNode(_) => "equation"
    case ElementNode(tag, _) => tag
  }

  // ---------------------------------------------------------------------
  // Placeholder matching: `text.match(/\[EQUATION:KIND:(.*?)\]/)`

  /** The capture of `(.*?)\]` run on `u`: the text up to the first `]`,
      provided no line terminator comes first (`.` does not match one). */
  function CaptureAt(u: String): (r: Option<String>)
    ensures r.Some? ==> |r.value| < |u| && u[..|r.value|] == r.value && u[|r.value|] == ']'
    ensures r.Some? ==> forall j :: 0 <= j < |r.value| ==> u[j] != ']' && !IsLineTerminator(u[j])
    ensures r.None? ==> forall j :: 0 <= j < |u| && u[j] == ']' ==> exists k :: 0 <= k < j && IsLineTerminator(u[k])
  {
    if |u| == 0 then None
    else if u[0] == ']' then Some([])
    else if IsLineTerminator(u[0]) then None
    else match CaptureAt(u[1..])
      case Some(c) => Some([u[0]] + c)
      case None =>
        assert forall j :: 1 <= j < |u| ==> u[j] == u[1..][j - 1];
        None
  }

  /** The marker of kind `k` starts at index `i` of `t`. */
  predicate MarkerAt(t: String, k: Kind, i: nat) {
    i + |Marker(k)| <= |t| && t[i..i + |Marker(k)|] == Marker(k)
  }

  /** The capture of a match of the placeholder regex starting at index `i`, if one starts there. */
  function MatchAt(t: String, k: Kind, i: nat): Option<String>
    requires i <= |t|
  {
    if MarkerAt(t, k, i) then CaptureAt(t[i + |Marker(k)|..]) else None
  }

  /** The leftmost match at or after `from`: its start index and capture. */
  function FirstMatchFrom(t: String, k: Kind, from: nat): (r: Option<(nat, String)>)
    requires from <= |t|
    ensures r.Some? ==> from <= r.value.0 <= |t| && MatchAt(t, k, r.value.0) == Some(r.value.1)
    ensures forall j :: from <= j < (if r.Some? then r.value.0 else |t| + 1) ==> MatchAt(t, k, j).None?
    decreases |t| - from
  {
    var m := MatchAt(t, k, from);
    if m.Some? then Some((from, m.value))
    else if from == |t| then None
    else FirstMatchFrom(t, k, from + 1)
  }

  /** The body of the leftmost placeholder of kind `k`, or `None` when
      there is none. */
  function FirstCapture(t: String, k: Kind): Option<String> {
    match FirstMatchFrom(t, k, 0)
    case Some((_, c)) => Some(c)
    case None => None
  }

  // ---------------------------------------------------------------------
  // traverseNode

  /** `traverseNode` on a text node. */
  function TraverseText(s: String): (r: Option<ParsedNode>)
    ensures r.None? <==> AllWhitespace(s)
    ensures r.Some? ==> r.value.TextNode? || r.value.EquationNode?
    ensures r.Some? && r.value.TextNode? ==> r.value.content == s
    ensures r.Some? && r.value.EquationNode? ==> r.value.latex != []
  {
    var display := FirstCapture(s, Display);
    var inline := FirstCapture(s, Inline);
    if Trim(s) == [] then None
    else if display.Some? && display.value != [] then Some(EquationNode(display.value))
    else if inline.Some? && inline.value != [] then Some(EquationNode(inline.value))
    else Some(TextNode(s))
  }

  /** `traverseNode`: text nodes as above, elements with their tag
      lower-cased and their children traversed, anything else dropped. */
  function Traverse(d: Dom): (r: Option<ParsedNode>)
    ensures d.DomOther? ==> r.None?
    ensures d.DomElement? ==> r.Some? && r.value.ElementNode?
    decreases d, 1
  {
    match d
    case DomText(s) => TraverseText(s)
    case DomElement(tag, children) => Some(ElementNode(AsciiLower(tag), TraverseAll(children)))
    case DomOther => None
  }

  /** The children loop: each child traversed, the dropped ones omitted. */
  function TraverseAll(ds: seq<Dom>): (r: seq<ParsedNode>)
    ensures |r| <= |ds|
    decreases ds, 0
  {
    if |ds| == 0 then []
    else
      var rest := TraverseAll(ds[1..]);
      match Traverse(ds[0])
      case Some(n) => [n] + rest
      case None => rest
  }

  /** `parseHTMLToNodes`: extraction, then the (foreign) DOM parser, then
      the traversal of the body's child nodes. */
  function ParseHtmlToNodes(html: String, parse: String -> seq<Dom>): (r: seq<ParsedNode>)
    ensures |r| <= |parse(ExtractLatexEquations(html))|
  {
    TraverseAll(parse(ExtractLatexEquations(html)))
  }

  // ---------------------------------------------------------------------
  // Properties

  /** The traversal of a child list distributes over concatenation, so the
      surviving nodes keep document order. */
  lemma {:induction false} TraverseAllAppend(a: seq<Dom>, b: seq<Dom>)
    ensures TraverseAll(a + b) == TraverseAll(a) + TraverseAll(b)
    decreases |a|
  {
    if |a| == 0 {
      assert a + b == b;
    } else {
      assert (a + b)[0] == a[0] && (a + b)[1..] == a[1..] + b;
      TraverseAllAppend(a[1..], b);
    }
  }

  /** One child contributes its node if it has one, and nothing otherwise. */
  lemma TraverseAllSingle(d: Dom)
    ensures TraverseAll([d]) == (match Traverse(d) case Some(n) => [n] case None => [])
  {
    assert [d][1..] == [];
  }

  /** Children that are all dropped (whitespace-only text, comments and the
      like) leave an empty child list. */
  lemma {:induction false} TraverseAllDropped(ds: seq<Dom>)
    requires forall j :: 0 <= j < |ds| ==> Traverse(ds[j]).None?
    ensures TraverseAll(ds) == []
  {
    if |ds| > 0 {
      TraverseAllDropped(ds[1..]);
    }
  }

  /** An element's tag comes out lower-cased: no ASCII capital survives,
      and a tag already in lower case is kept as is. */
  lemma ElementTagLowered(tag: String, children: seq<Dom>)
    ensures var r := Traverse(DomElement(tag, children));
      && r == Some(ElementNode(r.value.tag, TraverseAll(children)))
      && |r.value.tag| == |tag|
      && (forall j :: 0 <= j < |tag| ==> !IsAsciiUpper(r.value.tag[j]))
      && ((forall j :: 0 <= j < |tag| ==> !IsAsciiUpper(tag[j])) ==> r.value.tag == tag)
  {
    var t := AsciiLower(tag);
    if forall j :: 0 <= j < |tag| ==> !IsAsciiUpper(tag[j]) {
      assert t == tag;
    }
  }

  /** A text node with no placeholder of either kind is kept, untrimmed,
      unless it is whitespace only. */
  lemma PlainTextKept(s: String)
    requires !AllWhitespace(s)
    requires forall j :: 0 <= j <= |s| ==> !MarkerAt(s, Display, j) && !MarkerAt(s, Inline, j)
    ensures Traverse(DomText(s)) == Some(TextNode(s))
  {
    assert FirstMatchFrom(s, Display, 0).None?;
    assert FirstMatchFrom(s, Inline, 0).None?;
  }

  /** No `[` means no placeholder can start. */
  lemma NoBracketNoMarker(s: String, k: Kind, j: nat)
    requires '[' !in s
    ensures !MarkerAt(s, k, j)
  {
    if j + |Marker(k)| <= |s| {
      assert s[j..j + |Marker(k)|][0] == s[j] != Marker(k)[0];
    }
  }

  /** Text without `[` is never an equation: it survives as a text node,
      untrimmed, or is dropped when whitespace only. */
  lemma TextWithoutBracket(s: String)
    requires '[' !in s
    ensures Traverse(DomText(s)) == if AllWhitespace(s) then None else Some(TextNode(s))
  {
    forall j | 0 <= j <= |s| ensures !MarkerAt(s, Display, j) && !MarkerAt(s, Inline, j) {
      NoBracketNoMarker(s, Display, j);
      NoBracketNoMarker(s, Inline, j);
    }
    if !AllWhitespace(s) {
      PlainTextKept(s);
    }
  }

  /** The leftmost display placeholder decides: when its body is non-empty
      the whole text node, the text around it included, becomes one
      equation node with that body, whatever inline placeholders the text
      also holds. */
  lemma {:induction false} FirstDisplayPlaceholderWins(pre: String, u: String, s: String)
    requires s == pre + (Marker(Display) + u)
    requires forall j :: 0 <= j < |pre| ==> !MarkerAt(s, Display, j)
    requires CaptureAt(u).Some? && CaptureAt(u).value != []
    ensures Traverse(DomText(s)) == Some(EquationNode(CaptureAt(u).value))
  {
    var m := Marker(Display);
    assert s[|pre|..|pre| + |m|] == m;
    assert s[|pre| + |m|..] == u;
    assert MatchAt(s, Display, |pre|) == CaptureAt(u);
    var r := FirstMatchFrom(s, Display, 0);
    assert r.Some? && r.value.0 == |pre|;
    assert s[|pre|] == '[';
    assert !AllWhitespace(s);
  }

  /** A display placeholder preceded by text without `[`: the text node is
      replaced wholesale by the equation node. */
  lemma DisplayPlaceholderWins(pre: String, u: String, s: String)
    requires '[' !in pre
    requires s == pre + (Marker(Display) + u)
    requires CaptureAt(u).Some? && CaptureAt(u).value != []
    ensures Traverse(DomText(s)) == Some(EquationNode(CaptureAt(u).value))
  {
    var m := Marker(Display);
    forall j | 0 <= j < |pre| ensures !MarkerAt(s, Display, j) {
      assert s[j] == pre[j];
      if j + |m| <= |s| {
        assert s[j..j + |m|][0] != m[0];
      }
    }
    FirstDisplayPlaceholderWins(pre, u, s);
  }

  /** Display takes precedence over inline: an inline placeholder that comes
      first in the text node is ignored when a display one follows. */
  lemma DisplayBeatsEarlierInline(a: String, u: String, s: String)
    requires '[' !in a
    requires s == Placeholder(Inline, a) + (Marker(Display) + u)
    requires CaptureAt(u).Some? && CaptureAt(u).value != []
    ensures Traverse(DomText(s)) == Some(EquationNode(CaptureAt(u).value))
  {
    var pre := Placeholder(Inline, a);
    InlinePlaceholderChars(a);
    forall j | 0 <= j < |pre| ensures !MarkerAt(s, Display, j) {
      assert s[j] == pre[j];
      if j == 0 {
        NotMarkerAt(s, Display, 0, 10);
      } else {
        NotMarkerAt(s, Display, j, 0);
      }
    }
    FirstDisplayPlaceholderWins(pre, u, s);
  }

  /** A marker cannot start where one of its characters is missing. */
  lemma NotMarkerAt(t: String, k: Kind, i: nat, d: nat)
    requires d < |Marker(k)| && i + d < |t| && t[i + d] != Marker(k)[d]
    ensures !MarkerAt(t, k, i)
  {
    if i + |Marker(k)| <= |t| {
      assert t[i..i + |Marker(k)|][d] == t[i + d];
    }
  }

  /** An inline placeholder whose body has no `[` holds `[` only at its
      start, and differs from a display marker at index 10. */
  lemma InlinePlaceholderChars(a: String)
    requires '[' !in a
    ensures |Placeholder(Inline, a)| > 10 && Placeholder(Inline, a)[10] == 'I' != Marker(Display)[10]
    ensures forall j :: 0 < j < |Placeholder(Inline, a)| ==> Placeholder(Inline, a)[j] != '[' == Marker(Display)[0]
  {
    var mi := Marker(Inline);
    var p := Placeholder(Inline, a);
    assert p == mi + (a + "]");
    forall j | 0 < j < |p| ensures p[j] != '[' {
      if j < |mi| {
        assert p[j] == mi[j];
      } else if j < |mi| + |a| {
        assert p[j] == a[j - |mi|];
      } else {
        assert p[j] == ']';
      }
    }
  }

  /** The capture stops at the first `]`: a display body that itself holds
      a `]` (as in `\sqrt[3]{x}`) reaches the equation node cut short. */
  lemma BodyCutAtBracket(x: String, y: String, s: String)
    requires x != [] && ']' !in x && forall j :: 0 <= j < |x| ==> !IsLineTerminator(x[j])
    requires s == Placeholder(Display, x + "]" + y)
    ensures Traverse(DomText(s)) == Some(EquationNode(x))
  {
    var u := x + "]" + y + "]";
    assert s == [] + (Marker(Display) + u);
    CaptureStopsAtBracket(x, y + "]");
    assert u == x + ("]" + (y + "]"));
    DisplayPlaceholderWins([], u, s);
  }

  /** The capture runs up to the first `]` when no line break precedes it. */
  lemma {:induction false} CaptureStopsAtBracket(x: String, rest: String)
    requires ']' !in x && forall j :: 0 <= j < |x| ==> !IsLineTerminator(x[j])
    ensures CaptureAt(x + ("]" + rest)) == Some(x)
  {
    var u := x + ("]" + rest);
    if |x| > 0 {
      assert u[0] == x[0] && u[1..] == x[1..] + ("]" + rest);
      CaptureStopsAtBracket(x[1..], rest);
      assert [x[0]] + x[1..] == x;
    }
  }

  /** A placeholder whose body is well formed (non-empty, without `]` or a
      line break) comes back as an equation node with exactly that body. */
  lemma DisplayPlaceholderRoundTrip(body: String, s: String)
    requires body != [] && ']' !in body && forall j :: 0 <= j < |body| ==> !IsLineTerminator(body[j])
    requires s == Placeholder(Display, body)
    ensures Traverse(DomText(s)) == Some(EquationNode(body))
  {
    var u := body + "]";
    assert s == [] + (Marker(Display) + u);
    CaptureStopsAtBracket(body, []);
    assert body + ("]" + []) == u;
    DisplayPlaceholderWins([], u, s);
  }

  /** An inline placeholder with a well-formed body, alone in its text
      node, comes back as an equation node with exactly that body; the node
      does not record that the equation was inline. */
  lemma InlinePlaceholderRoundTrip(body: String, s: String)
    requires body != [] && '[' !in body && ']' !in body
    requires forall j :: 0 <= j < |body| ==> !IsLineTerminator(body[j])
    requires s == Placeholder(Inline, body)
    ensures Traverse(DomText(s)) == Some(EquationNode(body))
  {
    InlinePlaceholderHasNoDisplay(body, s);
    assert FirstMatchFrom(s, Display, 0).None?;
    CaptureStopsAtBracket(body, []);
    assert body + ("]" + []) == body + "]";
    FirstInlinePlaceholder(body + "]", s);
  }

  /** With no display placeholder in the text node, an inline placeholder at
      its start decides. */
  lemma FirstInlinePlaceholder(u: String, s: String)
    requires s == Marker(Inline) + u
    requires FirstCapture(s, Display).None?
    requires CaptureAt(u).Some? && CaptureAt(u).value != []
    ensures Traverse(DomText(s)) == Some(EquationNode(CaptureAt(u).value))
  {
    var mi := Marker(Inline);
    assert s[0..|mi|] == mi;
    assert s[|mi|..] == u;
    assert MatchAt(s, Inline, 0) == CaptureAt(u);
    assert FirstMatchFrom(s, Inline, 0) == Some((0, CaptureAt(u).value));
    assert s[0] == '[';
    assert !AllWhitespace(s);
    assert Trim(s) != [];
    assert FirstCapture(s, Inline) == CaptureAt(u);
    assert TraverseText(s) == Some(EquationNode(CaptureAt(u).value));
  }

  /** No display marker starts inside an inline placeholder whose body has no `[`. */
  lemma InlinePlaceholderHasNoDisplay(body: String, s: String)
    requires '[' !in body
    requires s == Placeholder(Inline, body)
    ensures forall j :: 0 <= j <= |s| ==> !MarkerAt(s, Display, j)
  {
    var m := Marker(Display);
    var mi := Marker(Inline);
    assert s == mi + (body + "]");
    forall j | 0 <= j <= |s| ensures !MarkerAt(s, Display, j) {
      if j + |m| <= |s| {
        if j == 0 {
          assert s[j..j + |m|][10] == s[10] == 'I' != m[10];
        } else if j < |mi| {
          assert s[j..j + |m|][0] == s[j] == mi[j] != m[0];
        } else {
          assert s[j] == body[j - |mi|];
          assert s[j..j + |m|][0] == s[j] != m[0];
        }
      }
    }
  }

  /** `$$$$` extracts to a display placeholder with an empty capture, which
      is falsy; with no inline placeholder either, the text survives as a
      plain text node. */
  lemma EmptyDisplayIsText(s: String)
    requires s == Placeholder(Display, [])
    ensures Traverse(DomText(s)) == Some(TextNode(s))
  {
    var m := Marker(Display);
    assert s == m + "]";
    assert FirstCapture(s, Display) == Some([]) by {
      assert s[0..|m|] == m;
      assert s[|m|..] == "]";
      assert MatchAt(s, Display, 0) == Some([]);
    }
    forall j | 0 <= j <= |s| ensures !MarkerAt(s, Inline, j) {
      if j == 0 {
        assert s[10] == 'D';
        NotMarkerAt(s, Inline, 0, 10);
      } else if j < |s| {
        assert s[j] != '[';
        NotMarkerAt(s, Inline, j, 0);
      }
    }
    assert FirstMatchFrom(s, Inline, 0).None?;
    assert s[0] == '[';
  }
}
