/** Character escaping for XML and HTML text, and the markup the two LaTeX
    converters fall back to when the math engine throws
    (src/utils/latex-to-omml.ts and src/utils/latex-to-html.ts). */
module Escape {
  import opened Wrappers
  import opened JsString

  /** The apostrophe entity `escapeXml` emits. */
  const XmlApos: String := "&apos;"
  /** The apostrophe entity `escapeHtml` emits. */
  const HtmlApos: String := "&#039;"

  predicate IsApos(apos: String) { apos == XmlApos || apos == HtmlApos }

  /** The five characters both encoders replace. */
  predicate IsSpecial(c: char) { c == '&' || c == '<' || c == '>' || c == '"' || c == '\'' }

  /** `s.replace(/c/g, rep)`: every occurrence of one character replaced. */
  function ReplaceChar(s: String, c: char, rep: String): String
  {
    if |s| == 0 then "" else (if s[0] == c then rep else [s[0]]) + ReplaceChar(s[1..], c, rep)
  }

  /** The chain of five global replaces both `escapeXml` and `escapeHtml` run,
      `&` first; only the apostrophe's entity differs between them. */
  function EscapeMarkup(s: String, apos: String): String
  {
    var amp := ReplaceChar(s, '&', "&amp;");
    var lt := ReplaceChar(amp, '<', "&lt;");
    var gt := ReplaceChar(lt, '>', "&gt;");
    var quot := ReplaceChar(gt, '"', "&quot;");
    ReplaceChar(quot, '\'', apos)
  }

  /** `escapeXml` (latex-to-omml.ts). */
  function EscapeXml(s: String): String { EscapeMarkup(s, XmlApos) }

  /** `escapeHtml` (latex-to-html.ts). */
  function EscapeHtml(s: String): String { EscapeMarkup(s, HtmlApos) }

  /** Reference encoder: what one character becomes. */
  function Entity(c: char, apos: String): String
  {
    if c == '&' then "&amp;"
    else if c == '<' then "&lt;"
    else if c == '>' then "&gt;"
    else if c == '"' then "&quot;"
    else if c == '\'' then apos
    else [c]
  }

  /** Reference encoder applied character by character. */
  function EncodeEach(s: String, apos: String): String
  {
    if |s| == 0 then "" else Entity(s[0], apos) + EncodeEach(s[1..], apos)
  }

  /** True when `u` starts with one of the five entities. */
  predicate StartsEntity(u: String, apos: String) {
    "&amp;" <= u || "&lt;" <= u || "&gt;" <= u || "&quot;" <= u || apos <= u
  }

  /** Left-to-right entity decoder: the inverse of the encoders. */
  function Unescape(t: String, apos: String): String
    requires IsApos(apos)
    decreases |t|
  {
    if |t| == 0 then ""
    else if "&amp;" <= t then "&" + Unescape(t[5..], apos)
    else if "&lt;" <= t then "<" + Unescape(t[4..], apos)
    else if "&gt;" <= t then ">" + Unescape(t[4..], apos)
    else if "&quot;" <= t then "\"" + Unescape(t[6..], apos)
    else if apos <= t then "'" + Unescape(t[|apos|..], apos)
    else [t[0]] + Unescape(t[1..], apos)
  }

  lemma {:induction false} ReplaceCharAppend(a: String, b: String, c: char, rep: String)
    ensures ReplaceChar(a + b, c, rep) == ReplaceChar(a, c, rep) + ReplaceChar(b, c, rep)
  {
    if |a| == 0 {
      assert a + b == b;
    } else {
      assert (a + b)[1..] == a[1..] + b;
      ReplaceCharAppend(a[1..], b, c, rep);
    }
  }

  lemma {:induction false} ReplaceCharAbsent(s: String, c: char, rep: String)
    requires c !in s
    ensures ReplaceChar(s, c, rep) == s
  {
    if |s| > 0 {
      ReplaceCharAbsent(s[1..], c, rep);
      assert s == [s[0]] + s[1..];
    }
  }

  lemma EscapeMarkupAppend(a: String, b: String, apos: String)
    ensures EscapeMarkup(a + b, apos) == EscapeMarkup(a, apos) + EscapeMarkup(b, apos)
  {
    var a1, b1 := ReplaceChar(a, '&', "&amp;"), ReplaceChar(b, '&', "&amp;");
    ReplaceCharAppend(a, b, '&', "&amp;");
    var a2, b2 := ReplaceChar(a1, '<', "&lt;"), ReplaceChar(b1, '<', "&lt;");
    ReplaceCharAppend(a1, b1, '<', "&lt;");
    var a3, b3 := ReplaceChar(a2, '>', "&gt;"), ReplaceChar(b2, '>', "&gt;");
    ReplaceCharAppend(a2, b2, '>', "&gt;");
    var a4, b4 := ReplaceChar(a3, '"', "&quot;"), ReplaceChar(b3, '"', "&quot;");
    ReplaceCharAppend(a3, b3, '"', "&quot;");
    ReplaceCharAppend(a4, b4, '\'', apos);
  }

  lemma ReplaceCharSingle(c: char, x: char, rep: String)
    ensures ReplaceChar([c], x, rep) == if c == x then rep else [c]
  {
    assert [c][1..] == "";
  }

  /** A later pass never touches what an earlier pass produced. */
  lemma EscapeMarkupChar(c: char, apos: String)
    requires IsApos(apos)
    ensures EscapeMarkup([c], apos) == Entity(c, apos)
  {
    var s1 := ReplaceChar([c], '&', "&amp;");
    assert s1 == (if c == '&' then "&amp;" else [c]) by { ReplaceCharSingle(c, '&', "&amp;"); }
    var s2 := ReplaceChar(s1, '<', "&lt;");
    assert s2 == (if c == '&' then "&amp;" else if c == '<' then "&lt;" else [c]) by {
      if c == '<' { ReplaceCharSingle(c, '<', "&lt;"); } else { EntitiesOmit('<'); ReplaceCharAbsent(s1, '<', "&lt;"); }
    }
    var s3 := ReplaceChar(s2, '>', "&gt;");
    assert s3 == (if c == '>' then "&gt;" else s2) by {
      if c == '>' { ReplaceCharSingle(c, '>', "&gt;"); } else { EntitiesOmit('>'); ReplaceCharAbsent(s2, '>', "&gt;"); }
    }
    var s4 := ReplaceChar(s3, '"', "&quot;");
    assert s4 == (if c == '"' then "&quot;" else s3) by {
      if c == '"' { ReplaceCharSingle(c, '"', "&quot;"); } else { EntitiesOmit('"'); ReplaceCharAbsent(s3, '"', "&quot;"); }
    }
    assert ReplaceChar(s4, '\'', apos) == (if c == '\'' then apos else s4) by {
      if c == '\'' { ReplaceCharSingle(c, '\'', apos); } else { EntitiesOmit('\''); ReplaceCharAbsent(s4, '\'', apos); }
    }
  }

  /** The entities emitted by earlier passes contain none of the characters
      later passes replace. */
  lemma EntitiesOmit(x: char)
    requires x == '<' || x == '>' || x == '"' || x == '\''
    ensures x !in "&amp;"
    ensures x != '<' ==> x !in "&lt;"
    ensures x != '>' ==> x !in "&gt;"
    ensures x != '"' ==> x !in "&quot;"
  {
  }

  /** The chain of global replaces equals the per-character reference encoder. */
  lemma {:induction false} EscapeMarkupIsEncodeEach(s: String, apos: String)
    requires IsApos(apos)
    ensures EscapeMarkup(s, apos) == EncodeEach(s, apos)
  {
    if |s| == 0 {
      assert EscapeMarkup(s, apos) == "";
    } else {
      assert s == [s[0]] + s[1..];
      EscapeMarkupAppend([s[0]], s[1..], apos);
      EscapeMarkupChar(s[0], apos);
      EscapeMarkupIsEncodeEach(s[1..], apos);
    }
  }

  lemma UnescapeEntity(c: char, rest: String, apos: String)
    requires IsApos(apos)
    ensures Unescape(Entity(c, apos) + rest, apos) == [c] + Unescape(rest, apos)
  {
    var e := Entity(c, apos);
    var t := e + rest;
    if IsSpecial(c) {
      assert t[..|e|] == e && t[|e|..] == rest;
      assert t[1] == e[1] && t[2] == e[2];
      if c != '&' { assert t[1] != "&amp;"[1] || t[2] != "&amp;"[2]; }
      if c != '<' && c != '&' { assert t[1] != "&lt;"[1]; }
      if c != '>' && c != '&' && c != '<' { assert t[1] != "&gt;"[1]; }
      if c == '\'' { assert t[1] != "&quot;"[1]; }
    } else {
      assert t[0] == c && t[1..] == rest;
    }
  }

  lemma {:induction false} DecodeEncodeEach(s: String, apos: String)
    requires IsApos(apos)
    ensures Unescape(EncodeEach(s, apos), apos) == s
  {
    if |s| > 0 {
      DecodeEncodeEach(s[1..], apos);
      UnescapeEntity(s[0], EncodeEach(s[1..], apos), apos);
      assert s == [s[0]] + s[1..];
    }
  }

  lemma {:induction false} EncodeEachLonger(s: String, apos: String)
    requires IsApos(apos)
    ensures |EncodeEach(s, apos)| >= |s|
  {
    if |s| > 0 {
      EncodeEachLonger(s[1..], apos);
    }
  }

  lemma {:induction false} EncodeEachNoMarkup(s: String, apos: String)
    requires IsApos(apos)
    ensures forall i :: 0 <= i < |EncodeEach(s, apos)| ==> !(EncodeEach(s, apos)[i] in "<>\"'")
  {
    if |s| > 0 {
      var e, r' := Entity(s[0], apos), EncodeEach(s[1..], apos);
      var r := e + r';
      EncodeEachNoMarkup(s[1..], apos);
      forall i | 0 <= i < |r|
        ensures !(r[i] in "<>\"'")
      {
        if i >= |e| {
          assert r[i] == r'[i - |e|];
        }
      }
    }
  }

  lemma {:induction false} EncodeEachAmpersands(s: String, apos: String)
    requires IsApos(apos)
    ensures forall i :: 0 <= i < |EncodeEach(s, apos)| && EncodeEach(s, apos)[i] == '&' ==>
              StartsEntity(EncodeEach(s, apos)[i..], apos)
  {
    if |s| > 0 {
      var e, r' := Entity(s[0], apos), EncodeEach(s[1..], apos);
      var r := e + r';
      EncodeEachAmpersands(s[1..], apos);
      forall i | 0 <= i < |r| && r[i] == '&'
        ensures StartsEntity(r[i..], apos)
      {
        if i < |e| {
          assert i == 0;
          assert r[i..] == e + r';
          assert e <= r[i..];
        } else {
          assert r[i..] == r'[i - |e|..];
        }
      }
    }
  }

  lemma {:induction false} EncodeEachPlain(s: String, apos: String)
    requires IsApos(apos)
    requires forall i :: 0 <= i < |s| ==> !IsSpecial(s[i])
    ensures EncodeEach(s, apos) == s
  {
    if |s| > 0 {
      EncodeEachPlain(s[1..], apos);
      assert s == [s[0]] + s[1..];
    }
  }

  lemma EncodeEachSafe(s: String, apos: String)
    requires IsApos(apos)
    ensures |EncodeEach(s, apos)| >= |s|
    ensures forall i :: 0 <= i < |EncodeEach(s, apos)| ==> !(EncodeEach(s, apos)[i] in "<>\"'")
    ensures forall i :: 0 <= i < |EncodeEach(s, apos)| && EncodeEach(s, apos)[i] == '&' ==>
              StartsEntity(EncodeEach(s, apos)[i..], apos)
    ensures (forall i :: 0 <= i < |s| ==> !IsSpecial(s[i])) ==> EncodeEach(s, apos) == s
  {
    EncodeEachLonger(s, apos);
    EncodeEachNoMarkup(s, apos);
    EncodeEachAmpersands(s, apos);
    if forall i :: 0 <= i < |s| ==> !IsSpecial(s[i]) {
      EncodeEachPlain(s, apos);
    }
  }

  /** `escapeXml`: no markup character survives, every `&` begins an entity,
      plain text is untouched, and the entity decoder recovers the input. */
  lemma EscapeXmlSpec(s: String)
    ensures var r := EscapeXml(s);
      && |r| >= |s|
      && (forall i :: 0 <= i < |r| ==> !(r[i] in "<>\"'"))
      && (forall i :: 0 <= i < |r| && r[i] == '&' ==> StartsEntity(r[i..], XmlApos))
      && ((forall i :: 0 <= i < |s| ==> !IsSpecial(s[i])) ==> r == s)
      && Unescape(r, XmlApos) == s
  {
    EscapeMarkupIsEncodeEach(s, XmlApos);
    EncodeEachSafe(s, XmlApos);
    DecodeEncodeEach(s, XmlApos);
  }

  /** `escapeXml` is injective. */
  lemma EscapeXmlInjective(a: String, b: String)
    requires EscapeXml(a) == EscapeXml(b)
    ensures a == b
  {
    EscapeXmlSpec(a);
    EscapeXmlSpec(b);
  }

  /** `escapeHtml`: the same guarantees with `&#039;` for the apostrophe. */
  lemma EscapeHtmlSpec(s: String)
    ensures var r := EscapeHtml(s);
      && |r| >= |s|
      && (forall i :: 0 <= i < |r| ==> !(r[i] in "<>\"'"))
      && (forall i :: 0 <= i < |r| && r[i] == '&' ==> StartsEntity(r[i..], HtmlApos))
      && ((forall i :: 0 <= i < |s| ==> !IsSpecial(s[i])) ==> r == s)
      && Unescape(r, HtmlApos) == s
  {
    EscapeMarkupIsEncodeEach(s, HtmlApos);
    EncodeEachSafe(s, HtmlApos);
    DecodeEncodeEach(s, HtmlApos);
  }

  /** `escapeHtml` is injective. */
  lemma EscapeHtmlInjective(a: String, b: String)
    requires EscapeHtml(a) == EscapeHtml(b)
    ensures a == b
  {
    EscapeHtmlSpec(a);
    EscapeHtmlSpec(b);
  }

  const OmmlOpen: String :=
    "<m:oMath xmlns:m=\"http://schemas.openxmlformats.org/officeDocument/2006/math\"><m:r><m:t>"
  const OmmlClose: String := "</m:t></m:r></m:oMath>"

  /** The OMML `convertLatexToOMML` returns from its catch branch. */
  function OmmlFallback(latex: String): (r: String)
    ensures |r| >= |OmmlOpen| + |OmmlClose|
    ensures r[..|OmmlOpen|] == OmmlOpen && r[|r| - |OmmlClose|..] == OmmlClose
    ensures r[|OmmlOpen|..|r| - |OmmlClose|] == EscapeXml(latex)
    ensures Unescape(r[|OmmlOpen|..|r| - |OmmlClose|], XmlApos) == latex
    ensures forall i :: |OmmlOpen| <= i < |r| - |OmmlClose| ==> r[i] != '<'
  {
    var body := EscapeXml(latex);
    var r := OmmlOpen + body + OmmlClose;
    EscapeXmlSpec(latex);
    assert r[|OmmlOpen|..|r| - |OmmlClose|] == body;
    assert forall i :: |OmmlOpen| <= i < |r| - |OmmlClose| ==> r[i] == body[i - |OmmlOpen|];
    r
  }

  /** `convertLatexToOMML`: the math engine's OMML (MathJax then mml2omml,
      None when either throws), else the escaped-text fallback. It never fails. */
  function ConvertLatexToOmml(engine: String -> Option<String>, latex: String): (r: String)
    ensures engine(latex).Some? ==> r == engine(latex).value
    ensures engine(latex).None? ==> r == OmmlFallback(latex)
  {
    match engine(latex)
    case Some(omml) => omml
    case None => OmmlFallback(latex)
  }

  const SpanOpen: String := "<span style=\"color: red; font-style: italic;\">"
  const SpanClose: String := "</span>"

  /** The markup `convertLatexToSVG` returns from its catch branch. */
  function HtmlFallback(latex: String): (r: String)
    ensures |r| >= |SpanOpen| + |SpanClose|
    ensures r[..|SpanOpen|] == SpanOpen && r[|r| - |SpanClose|..] == SpanClose
    ensures r[|SpanOpen|..|r| - |SpanClose|] == EscapeHtml(latex)
    ensures Unescape(r[|SpanOpen|..|r| - |SpanClose|], HtmlApos) == latex
    ensures forall i :: |SpanOpen| <= i < |r| - |SpanClose| ==> r[i] != '<'
  {
    var body := EscapeHtml(latex);
    var r := SpanOpen + body + SpanClose;
    EscapeHtmlSpec(latex);
    assert r[|SpanOpen|..|r| - |SpanClose|] == body;
    assert forall i :: |SpanOpen| <= i < |r| - |SpanClose| ==> r[i] == body[i - |SpanOpen|];
    r
  }

  /** `convertLatexToSVG`: the engine's HTML, else the red italic fallback span. */
  function ConvertLatexToHtml(engine: String -> Option<String>, latex: String): (r: String)
    ensures engine(latex).Some? ==> r == engine(latex).value
    ensures engine(latex).None? ==> r == HtmlFallback(latex)
  {
    match engine(latex)
    case Some(html) => html
    case None => HtmlFallback(latex)
  }
}
