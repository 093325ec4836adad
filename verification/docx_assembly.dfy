/** `createTextRun`, `nodeToParagraph` with its inner `processNode`, and
    `createDocxDocument` (src/utils/export-to-docx.ts): parsed nodes become
    runs, runs become paragraphs, paragraphs become one document section.
    The `docx` objects are modelled by the fields the code sets on them;
    paragraph spacing is not modelled. */
module DocxAssembly {
  import opened Wrappers
  import opened JsString
  import opened NodeTree
  import Escape

  /** A run of a paragraph: a formatted text run, a math object holding
      OMML, or the styled text run used when building the math object fails. */
  datatype Run =
    | TextRun(text: String, bold: bool, italic: bool, underline: bool)
    | MathRun(omml: String)
    | StyledRun(text: String, italic: bool, font: String, size: nat, color: String)

  const FallbackFont: String := "Cambria Math"
  const FallbackSize: nat := 24
  const FallbackColor: String := "0070C0"

  /** The run `processNode` emits from its catch branch: the raw LaTeX in
      italic Cambria Math, size 24, colour 0070C0. */
  function FallbackRun(latex: String): (r: Run)
    ensures r.StyledRun? && r.text == latex && r.italic
    ensures r.font == "Cambria Math" && r.size == 24 && r.color == "0070C0"
  {
    StyledRun(latex, true, FallbackFont, FallbackSize, FallbackColor)
  }

  datatype Heading = Heading1 | Heading2 | Heading3

  /** How a paragraph is listed: not at all, as a bullet, or numbered
      against a numbering definition. */
  datatype ListStyle = NotListed | Bullet(level: nat) | Numbered(reference: String, level: nat)

  datatype Para = Para(runs: seq<Run>, heading: Option<Heading>, list: ListStyle, centered: bool)

  const NumberingReference: String := "default-numbering"

  datatype Alignment = Start
  datatype NumberingLevel = NumberingLevel(level: nat, format: String, text: String, alignment: Alignment)
  datatype NumberingConfig = NumberingConfig(reference: String, levels: seq<NumberingLevel>)

  /** A document: the paragraphs of its single section and its numbering definitions. */
  datatype Document = Document(paragraphs: seq<Para>, numbering: seq<NumberingConfig>)

  // ---------------------------------------------------------------------
  // Field access with JavaScript's `undefined` read as "absent"

  /** A node's text content, empty unless it is a text node. */
  function ContentOf(n: ParsedNode): String {
    if n.TextNode? then n.content else ""
  }

  /** A node's LaTeX source, empty unless it is an equation node. */
  function LatexOf(n: ParsedNode): String {
    if n.EquationNode? then n.latex else ""
  }

  // ---------------------------------------------------------------------
  // processNode

  /** `createTextRun`. */
  function CreateTextRun(n: ParsedNode, bold: bool, italic: bool, underline: bool): (r: Run)
    ensures r.TextRun? && r.text == ContentOf(n)
    ensures r.bold == bold && r.italic == italic && r.underline == underline
  {
    TextRun(ContentOf(n), bold, italic, underline)
  }

  /** Every text run has at least the given formatting switched on. */
  predicate AtLeast(runs: seq<Run>, bold: bool, italic: bool, underline: bool) {
    forall j :: 0 <= j < |runs| && runs[j].TextRun? ==>
      (bold ==> runs[j].bold) && (italic ==> runs[j].italic) && (underline ==> runs[j].underline)
  }

  /** Every styled run is the fallback for a LaTeX source that failed to convert. */
  predicate FallbacksFailed(runs: seq<Run>, tryMath: String -> Option<String>) {
    forall j :: 0 <= j < |runs| && runs[j].StyledRun? ==>
      runs[j] == FallbackRun(runs[j].text) && tryMath(runs[j].text).None?
  }

  /** `processNode(n, bold, italic, underline)`. `tryMath` is the outcome of
      the whole `try` block for a LaTeX source: the OMML placed in the math
      object, or `None` when that block throws. Dispatch is on the node's
      `type` string, as in the source. */
  function ProcessNode(n: ParsedNode, bold: bool, italic: bool, underline: bool,
                       tryMath: String -> Option<String>): (r: seq<Run>)
    ensures AtLeast(r, bold, italic, underline)
    ensures FallbacksFailed(r, tryMath)
    decreases n, 1
  {
    var t := TypeName(n);
    if t == "text" then [CreateTextRun(n, bold, italic, underline)]
    else if t == "equation" && LatexOf(n) != "" then
      match tryMath(LatexOf(n))
      case Some(omml) => [MathRun(omml)]
      case None => [FallbackRun(LatexOf(n))]
    else
      var isBold := bold || t == "strong" || t == "b";
      var isItalic := italic || t == "em" || t == "i";
      var isUnderline := underline || t == "u";
      match n
      case ElementNode(_, children) => ProcessAll(children, isBold, isItalic, isUnderline, tryMath)
      case _ => []
  }

  /** The runs of a list of nodes, concatenated in order. */
  function ProcessAll(ns: seq<ParsedNode>, bold: bool, italic: bool, underline: bool,
                      tryMath: String -> Option<String>): (r: seq<Run>)
    ensures AtLeast(r, bold, italic, underline)
    ensures FallbacksFailed(r, tryMath)
    decreases ns, 0
  {
    if |ns| == 0 then []
    else
      var head := ProcessNode(ns[0], bold, italic, underline, tryMath);
      var tail := ProcessAll(ns[1..], bold, italic, underline, tryMath);
      assert forall j :: |head| <= j < |head + tail| ==> (head + tail)[j] == tail[j - |head|];
      head + tail
  }

  // ---------------------------------------------------------------------
  // nodeToParagraph

  /** The runs, or a single empty run when there are none. */
  function OrEmptyRun(runs: seq<Run>): (r: seq<Run>)
    ensures |r| > 0
    ensures runs != [] ==> r == runs
  {
    if |runs| > 0 then runs else [TextRun("", false, false, false)]
  }

  function HeadingOf(t: String): Heading {
    if t == "h1" then Heading1 else if t == "h2" then Heading2 else Heading3
  }

  /** Every paragraph has a run, and every listed paragraph sits at level 0,
      numbered ones against the default numbering definition. */
  predicate WellFormed(ps: seq<Para>) {
    forall j :: 0 <= j < |ps| ==>
      && |ps[j].runs| > 0
      && (ps[j].list.Bullet? ==> ps[j].list.level == 0)
      && (ps[j].list.Numbered? ==> ps[j].list.reference == NumberingReference && ps[j].list.level == 0)
  }

  /** The `li` children of a `ul`/`ol`, one paragraph each; other children are skipped. */
  function ListItems(items: seq<ParsedNode>, style: ListStyle, tryMath: String -> Option<String>): (r: seq<Para>)
    ensures |r| <= |items|
    ensures forall j :: 0 <= j < |r| ==> |r[j].runs| > 0 && r[j].list == style && r[j].heading.None?
  {
    if |items| == 0 then []
    else
      var rest := ListItems(items[1..], style, tryMath);
      var li := items[0];
      if TypeName(li) == "li" then
        var runs := match li case ElementNode(_, cs) => ProcessAll(cs, false, false, false, tryMath) case _ => [];
        [Para(OrEmptyRun(runs), None, style, false)] + rest
      else rest
  }

  /** `nodeToParagraph`. */
  function NodeToParagraphs(n: ParsedNode, tryMath: String -> Option<String>): (r: seq<Para>)
    ensures WellFormed(r)
    decreases n, 1
  {
    var t := TypeName(n);
    var children := match n case ElementNode(_, cs) => cs case _ => [];
    if t == "p" then
      [Para(OrEmptyRun(ProcessAll(children, false, false, false, tryMath)), None, NotListed, false)]
    else if t == "h1" || t == "h2" || t == "h3" then
      [Para(OrEmptyRun(ProcessAll(children, false, false, false, tryMath)), Some(HeadingOf(t)), NotListed, false)]
    else if t == "ul" || t == "ol" then
      ListItems(children, if t == "ul" then Bullet(0) else Numbered(NumberingReference, 0), tryMath)
    else if t == "div" || t == "span" then
      match n
      case ElementNode(_, cs) => NodeToParagraphsAll(cs, tryMath)
      case _ => []
    else if t == "equation" then
      var runs := ProcessNode(n, false, false, false, tryMath);
      if |runs| > 0 then [Para(runs, None, NotListed, true)] else []
    else
      var runs := ProcessAll(children, false, false, false, tryMath);
      if |runs| > 0 then [Para(runs, None, NotListed, false)] else []
  }

  /** The paragraphs of a list of nodes, concatenated in order. */
  function NodeToParagraphsAll(ns: seq<ParsedNode>, tryMath: String -> Option<String>): (r: seq<Para>)
    ensures WellFormed(r)
    decreases ns, 0
  {
    if |ns| == 0 then []
    else
      var head := NodeToParagraphs(ns[0], tryMath);
      var tail := NodeToParagraphsAll(ns[1..], tryMath);
      assert forall j :: |head| <= j < |head + tail| ==> (head + tail)[j] == tail[j - |head|];
      head + tail
  }

  // ---------------------------------------------------------------------
  // createDocxDocument

  const EmptyDocumentPara: Para := Para([TextRun("Empty document", false, false, false)], None, NotListed, false)

  /** The numbering definitions every exported document carries. */
  const DefaultNumbering: seq<NumberingConfig> :=
    [NumberingConfig(NumberingReference, [NumberingLevel(0, "decimal", "%1.", Start)])]

  /** Some numbering definition has this reference and defines this level. */
  predicate Defines(config: seq<NumberingConfig>, reference: String, level: nat) {
    exists c :: c in config && c.reference == reference &&
      exists l :: l in c.levels && l.level == level
  }

  /** `createDocxDocument` after parsing: the paragraphs of all nodes, or a
      single "Empty document" paragraph when there are none. */
  function CreateDocument(nodes: seq<ParsedNode>, tryMath: String -> Option<String>): (r: Document)
    ensures |r.paragraphs| > 0
    ensures WellFormed(r.paragraphs)
    ensures NodeToParagraphsAll(nodes, tryMath) != [] ==> r.paragraphs == NodeToParagraphsAll(nodes, tryMath)
    ensures NodeToParagraphsAll(nodes, tryMath) == [] ==> r.paragraphs == [EmptyDocumentPara]
    ensures forall j :: 0 <= j < |r.paragraphs| && r.paragraphs[j].list.Numbered? ==>
      Defines(r.numbering, r.paragraphs[j].list.reference, r.paragraphs[j].list.level)
  {
    var ps := NodeToParagraphsAll(nodes, tryMath);
    var c := DefaultNumbering[0];
    assert c.levels[0] in c.levels;
    assert Defines(DefaultNumbering, NumberingReference, 0);
    Document(if |ps| > 0 then ps else [EmptyDocumentPara], DefaultNumbering)
  }

  /** The whole export up to the `Packer`: extraction, the (foreign) DOM
      parser, traversal and assembly. */
  function ExportDocument(html: String, parse: String -> seq<Dom>, tryMath: String -> Option<String>): (r: Document)
    ensures |r.paragraphs| > 0 && WellFormed(r.paragraphs)
  {
    CreateDocument(ParseHtmlToNodes(html, parse), tryMath)
  }

  /** What the `try` block of `processNode` yields with the real converter:
      `convertLatexToOMML` catches its own failures and returns the fallback
      OMML, so the block always produces a math object. */
  function SourceTryMath(engine: String -> Option<String>): String -> Option<String> {
    latex => Some(Escape.ConvertLatexToOmml(engine, latex))
  }

  // ---------------------------------------------------------------------
  // Properties of processNode

  /** The contents of the `text`-typed nodes of a tree, in document order:
      what the text runs should carry, independent of formatting. */
  function TextsOf(n: ParsedNode): seq<String>
    decreases n, 1
  {
    if TypeName(n) == "text" then [ContentOf(n)]
    else match n
      case ElementNode(_, cs) => TextsOfAll(cs)
      case _ => []
  }

  function TextsOfAll(ns: seq<ParsedNode>): seq<String>
    decreases ns, 0
  {
    if |ns| == 0 then [] else TextsOf(ns[0]) + TextsOfAll(ns[1..])
  }

  /** The texts of the text runs, in order. */
  function TextRunTexts(runs: seq<Run>): seq<String> {
    if |runs| == 0 then []
    else (if runs[0].TextRun? then [runs[0].text] else []) + TextRunTexts(runs[1..])
  }

  lemma {:induction false} TextRunTextsAppend(a: seq<Run>, b: seq<Run>)
    ensures TextRunTexts(a + b) == TextRunTexts(a) + TextRunTexts(b)
  {
    if |a| == 0 {
      assert a + b == b;
    } else {
      assert (a + b)[0] == a[0] && (a + b)[1..] == a[1..] + b;
      TextRunTextsAppend(a[1..], b);
    }
  }

  /** Each text node yields exactly one text run carrying its content, in
      document order, and no other node yields a text run. */
  lemma {:induction false} TextRunsFollowTextNodes(n: ParsedNode, bold: bool, italic: bool, underline: bool,
                                                   tryMath: String -> Option<String>)
    ensures TextRunTexts(ProcessNode(n, bold, italic, underline, tryMath)) == TextsOf(n)
    decreases n, 1
  {
    var t := TypeName(n);
    if t == "text" {
      assert TextRunTexts([CreateTextRun(n, bold, italic, underline)]) == [ContentOf(n)];
    } else if t == "equation" && LatexOf(n) != "" {
      assert n.EquationNode?;
    } else {
      match n
      case ElementNode(_, cs) =>
        TextRunsFollowTextNodesAll(cs, bold || t == "strong" || t == "b", italic || t == "em" || t == "i",
                                   underline || t == "u", tryMath);
      case _ =>
    }
  }

  lemma {:induction false} TextRunsFollowTextNodesAll(ns: seq<ParsedNode>, bold: bool, italic: bool, underline: bool,
                                                      tryMath: String -> Option<String>)
    ensures TextRunTexts(ProcessAll(ns, bold, italic, underline, tryMath)) == TextsOfAll(ns)
    decreases ns, 0
  {
    if |ns| > 0 {
      TextRunsFollowTextNodes(ns[0], bold, italic, underline, tryMath);
      TextRunsFollowTextNodesAll(ns[1..], bold, italic, underline, tryMath);
      TextRunTextsAppend(ProcessNode(ns[0], bold, italic, underline, tryMath),
                         ProcessAll(ns[1..], bold, italic, underline, tryMath));
    }
  }

  /** Below a `strong` or `b` element every text run is bold, below `em` or
      `i` every one is italic, below `u` every one is underlined. */
  lemma FormattingTagsSwitchOn(tag: String, cs: seq<ParsedNode>, bold: bool, italic: bool, underline: bool,
                               tryMath: String -> Option<String>)
    requires tag != "text" && tag != "equation"
    ensures var r := ProcessNode(ElementNode(tag, cs), bold, italic, underline, tryMath);
      AtLeast(r, bold || tag == "strong" || tag == "b", italic || tag == "em" || tag == "i", underline || tag == "u")
  {
  }

  /** No formatting tag in the subtree: the flags pass through unchanged,
      so every text run carries exactly the flags the node was given. */
  predicate NoFormattingTag(n: ParsedNode)
    decreases n, 1
  {
    var t := TypeName(n);
    && t != "strong" && t != "b" && t != "em" && t != "i" && t != "u"
    && match n
       case ElementNode(_, cs) => NoFormattingTagAll(cs)
       case _ => true
  }

  predicate NoFormattingTagAll(ns: seq<ParsedNode>)
    decreases ns, 0
  {
    |ns| > 0 ==> NoFormattingTag(ns[0]) && NoFormattingTagAll(ns[1..])
  }

  /** Every text run has exactly the given formatting. */
  predicate Exactly(runs: seq<Run>, bold: bool, italic: bool, underline: bool) {
    forall j :: 0 <= j < |runs| && runs[j].TextRun? ==>
      runs[j].bold == bold && runs[j].italic == italic && runs[j].underline == underline
  }

  lemma {:induction false} FlagsPassThrough(n: ParsedNode, bold: bool, italic: bool, underline: bool,
                                            tryMath: String -> Option<String>)
    requires NoFormattingTag(n)
    ensures Exactly(ProcessNode(n, bold, italic, underline, tryMath), bold, italic, underline)
    decreases n, 1
  {
    var t := TypeName(n);
    if t != "text" && !(t == "equation" && LatexOf(n) != "") {
      match n
      case ElementNode(_, cs) => FlagsPassThroughAll(cs, bold, italic, underline, tryMath);
      case _ =>
    }
  }

  lemma {:induction false} FlagsPassThroughAll(ns: seq<ParsedNode>, bold: bool, italic: bool, underline: bool,
                                               tryMath: String -> Option<String>)
    requires NoFormattingTagAll(ns)
    ensures Exactly(ProcessAll(ns, bold, italic, underline, tryMath), bold, italic, underline)
    decreases ns, 0
  {
    if |ns| > 0 {
      FlagsPassThrough(ns[0], bold, italic, underline, tryMath);
      FlagsPassThroughAll(ns[1..], bold, italic, underline, tryMath);
      var head := ProcessNode(ns[0], bold, italic, underline, tryMath);
      var tail := ProcessAll(ns[1..], bold, italic, underline, tryMath);
      assert forall j :: |head| <= j < |head + tail| ==> (head + tail)[j] == tail[j - |head|];
    }
  }

  /** An equation whose conversion throws yields exactly one run: the
      fallback with the raw LaTeX; the export goes on. */
  lemma EquationFallback(latex: String, bold: bool, italic: bool, underline: bool,
                         tryMath: String -> Option<String>)
    requires latex != [] && tryMath(latex).None?
    ensures ProcessNode(EquationNode(latex), bold, italic, underline, tryMath) == [FallbackRun(latex)]
  {
  }

  /** An equation whose conversion succeeds yields exactly one math run
      holding the OMML. */
  lemma EquationMath(latex: String, bold: bool, italic: bool, underline: bool,
                     tryMath: String -> Option<String>)
    requires latex != [] && tryMath(latex).Some?
    ensures ProcessNode(EquationNode(latex), bold, italic, underline, tryMath) == [MathRun(tryMath(latex).value)]
  {
  }

  /** With the real converter, which catches its own failures, the styled
      fallback run never appears: an equation always becomes a math run,
      holding the engine's OMML or the escaped fallback OMML. */
  lemma SourceNeverFallsBack(n: ParsedNode, bold: bool, italic: bool, underline: bool,
                             engine: String -> Option<String>)
    ensures var r := ProcessNode(n, bold, italic, underline, SourceTryMath(engine));
      forall j :: 0 <= j < |r| ==> !r[j].StyledRun?
    ensures n.EquationNode? && n.latex != [] && engine(n.latex).None? ==>
      ProcessNode(n, bold, italic, underline, SourceTryMath(engine)) == [MathRun(Escape.OmmlFallback(n.latex))]
  {
    var tm := SourceTryMath(engine);
    assert forall latex :: tm(latex).Some?;
  }

  // ---------------------------------------------------------------------
  // Properties of nodeToParagraph and createDocxDocument

  /** `p` and `h1`-`h3` always give exactly one paragraph, with the heading
      level of the tag, holding the children's runs or one empty run. */
  lemma BlockTagOneParagraph(tag: String, cs: seq<ParsedNode>, tryMath: String -> Option<String>)
    requires tag in {"p", "h1", "h2", "h3"}
    ensures var r := NodeToParagraphs(ElementNode(tag, cs), tryMath);
      && |r| == 1
      && r[0].runs == OrEmptyRun(ProcessAll(cs, false, false, false, tryMath))
      && r[0].heading == (if tag == "p" then None else Some(HeadingOf(tag)))
      && r[0].list == NotListed && !r[0].centered
  {
  }

  /** The number of `li` children of a list. */
  function CountItems(items: seq<ParsedNode>): nat {
    if |items| == 0 then 0 else (if TypeName(items[0]) == "li" then 1 else 0) + CountItems(items[1..])
  }

  /** `ul` and `ol` give one paragraph per `li` child and nothing for any
      other child: bullets at level 0 for `ul`, the default numbering at
      level 0 for `ol`. */
  lemma ListTagParagraphs(tag: String, cs: seq<ParsedNode>, tryMath: String -> Option<String>)
    requires tag == "ul" || tag == "ol"
    ensures var r := NodeToParagraphs(ElementNode(tag, cs), tryMath);
      && |r| == CountItems(cs)
      && forall j :: 0 <= j < |r| ==>
           r[j].list == (if tag == "ul" then Bullet(0) else Numbered("default-numbering", 0))
  {
    ListItemsCount(cs, if tag == "ul" then Bullet(0) else Numbered(NumberingReference, 0), tryMath);
  }

  lemma {:induction false} ListItemsCount(items: seq<ParsedNode>, style: ListStyle, tryMath: String -> Option<String>)
    ensures |ListItems(items, style, tryMath)| == CountItems(items)
  {
    if |items| > 0 {
      ListItemsCount(items[1..], style, tryMath);
    }
  }

  lemma {:induction false} NodeToParagraphsAllAppend(a: seq<ParsedNode>, b: seq<ParsedNode>, tryMath: String -> Option<String>)
    ensures NodeToParagraphsAll(a + b, tryMath) == NodeToParagraphsAll(a, tryMath) + NodeToParagraphsAll(b, tryMath)
  {
    if |a| == 0 {
      assert a + b == b;
    } else {
      assert (a + b)[0] == a[0] && (a + b)[1..] == a[1..] + b;
      NodeToParagraphsAllAppend(a[1..], b, tryMath);
    }
  }

  /** `div` and `span` are transparent: their paragraphs are their
      children's, concatenated in order. */
  lemma ContainerTransparent(tag: String, a: seq<ParsedNode>, b: seq<ParsedNode>, tryMath: String -> Option<String>)
    requires tag == "div" || tag == "span"
    ensures NodeToParagraphs(ElementNode(tag, a + b), tryMath)
         == NodeToParagraphsAll(a, tryMath) + NodeToParagraphsAll(b, tryMath)
  {
    NodeToParagraphsAllAppend(a, b, tryMath);
  }

  /** A bare text node gives no paragraph: it has no children to take runs from. */
  lemma BareTextNoParagraph(content: String, tryMath: String -> Option<String>)
    ensures NodeToParagraphs(TextNode(content), tryMath) == []
  {
  }

  /** A stand-alone equation node gives one centred paragraph with its one run. */
  lemma StandaloneEquationCentered(latex: String, tryMath: String -> Option<String>)
    requires latex != []
    ensures var r := NodeToParagraphs(EquationNode(latex), tryMath);
      && |r| == 1 && r[0].centered && |r[0].runs| == 1
      && r[0].runs[0] == (if tryMath(latex).Some? then MathRun(tryMath(latex).value) else FallbackRun(latex))
  {
  }

  lemma {:induction false} BareTextsNoParagraphs(ns: seq<ParsedNode>, tryMath: String -> Option<String>)
    requires forall j :: 0 <= j < |ns| ==> ns[j].TextNode?
    ensures NodeToParagraphsAll(ns, tryMath) == []
  {
    if |ns| > 0 {
      BareTextsNoParagraphs(ns[1..], tryMath);
    }
  }

  lemma {:induction false} TraverseTextsOnly(ds: seq<Dom>)
    requires forall j :: 0 <= j < |ds| ==> ds[j].DomText? && '[' !in ds[j].text
    ensures forall j :: 0 <= j < |TraverseAll(ds)| ==> TraverseAll(ds)[j].TextNode?
  {
    if |ds| > 0 {
      TraverseTextsOnly(ds[1..]);
      TextWithoutBracket(ds[0].text);
    }
  }

  /** Text directly in the body, outside any element, is lost: when the
      parsed body holds only text without placeholders, the document is
      the "Empty document" fallback. */
  lemma BodyTextOnlyIsEmptyDocument(html: String, parse: String -> seq<Dom>, tryMath: String -> Option<String>)
    requires var ds := parse(EquationExtract.ExtractLatexEquations(html));
      forall j :: 0 <= j < |ds| ==> ds[j].DomText? && '[' !in ds[j].text
    ensures ExportDocument(html, parse, tryMath).paragraphs == [EmptyDocumentPara]
  {
    var ds := parse(EquationExtract.ExtractLatexEquations(html));
    TraverseTextsOnly(ds);
    BareTextsNoParagraphs(TraverseAll(ds), tryMath);
  }
}
