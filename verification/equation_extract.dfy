/** `extractLatexEquations` (src/utils/export-to-docx.ts): two global
    regex replaces run one after the other over the raw HTML. The display
    pass `/\$\$(.*?)\$\$/gs` rewrites `$$body$$` to `[EQUATION:DISPLAY:body]`;
    the inline pass `/\$([^$]+?)\$/g` then rewrites `$body$` to
    `[EQUATION:INLINE:body]`; bodies are trimmed. Each pass is written as the
    left-to-right, non-overlapping, leftmost-shortest scanner that a global
    `String.prototype.replace` performs. */
module EquationExtract {
  import opened Wrappers
  import opened JsString

  datatype Kind = Display | Inline

  function Marker(k: Kind): String {
    match k
    case Display => "[EQUATION:DISPLAY:"
    case Inline => "[EQUATION:INLINE:"
  }

  /** The placeholder token that replaces one equation. */
  function Placeholder(k: Kind, body: String): String {
    Marker(k) + body + "]"
  }

  /** `$$` starts at index `j` of `s`. */
  predicate PairAt(s: String, j: int)
    requires 0 <= j < |s| - 1
  {
    s[j] == '$' && s[j + 1] == '$'
  }

  /** No `$$` anywhere in `s`. */
  predicate NoPair(s: String) {
    forall j :: 0 <= j < |s| - 1 ==> !PairAt(s, j)
  }

  /** Index of the first `$$` of `s`, if any. */
  function FindPair(s: String): (r: Option<nat>)
    ensures r.Some? ==> r.value < |s| - 1 && PairAt(s, r.value)
    ensures r.Some? ==> forall j :: 0 <= j < r.value ==> !PairAt(s, j)
    ensures r.None? <==> NoPair(s)
  {
    if |s| < 2 then None
    else if PairAt(s, 0) then Some(0)
    else
      var t := s[1..];
      assert forall j :: 1 <= j < |s| - 1 ==> (PairAt(s, j) <==> PairAt(t, j - 1));
      assert forall j :: 0 <= j < |t| - 1 ==> (PairAt(t, j) <==> PairAt(s, j + 1));
      match FindPair(t)
      case Some(k) => Some(k + 1)
      case None => None
  }

  /** Index of the first `$` of `s`, if any. */
  function FindDollar(s: String): (r: Option<nat>)
    ensures r.Some? ==> r.value < |s| && s[r.value] == '$' && '$' !in s[..r.value]
    ensures r.None? <==> '$' !in s
  {
    if |s| == 0 then None
    else if s[0] == '$' then Some(0)
    else match FindDollar(s[1..])
      case Some(k) => (assert s[..k + 1] == [s[0]] + s[1..][..k]; Some(k + 1))
      case None => None
  }

  /** A display match starts at index 0: `$$`, then a later `$$` (the `s`
      flag lets `.` cross line breaks). */
  predicate DisplayMatchAtStart(s: String) {
    |s| >= 2 && PairAt(s, 0) && FindPair(s[2..]).Some?
  }

  /** The display pass: `html.replace(/\$\$(.*?)\$\$/gs, ...)`. */
  function DisplayPass(s: String): String
    decreases |s|
  {
    if |s| == 0 then ""
    else if DisplayMatchAtStart(s) then
      var k := FindPair(s[2..]).value;
      Placeholder(Display, Trim(s[2..k + 2])) + DisplayPass(s[k + 4..])
    else [s[0]] + DisplayPass(s[1..])
  }

  /** An inline match starts at index 0: `$`, at least one non-`$`
      character (line breaks included), then `$`. */
  predicate InlineMatchAtStart(s: String) {
    |s| >= 1 && s[0] == '$' && FindDollar(s[1..]).Some? && FindDollar(s[1..]).value >= 1
  }

  /** The inline pass: `html.replace(/\$([^$]+?)\$/g, ...)`. */
  function InlinePass(s: String): String
    decreases |s|
  {
    if |s| == 0 then ""
    else if InlineMatchAtStart(s) then
      var k := FindDollar(s[1..]).value;
      Placeholder(Inline, Trim(s[1..k + 1])) + InlinePass(s[k + 2..])
    else [s[0]] + InlinePass(s[1..])
  }

  /** `extractLatexEquations`: display pass first, inline pass second. */
  function ExtractLatexEquations(html: String): String {
    InlinePass(DisplayPass(html))
  }

  /** No `$$ … $$` span: no `$$` followed, without overlap, by another `$$`. */
  predicate NoDisplaySpan(s: String) {
    forall p, q :: 0 <= p && p + 2 <= q < |s| - 1 && PairAt(s, p) ==> !PairAt(s, q)
  }

  /** No `$ … $` span: any two `$` with something between them have a `$` between them. */
  predicate NoInlineSpan(s: String) {
    forall p, q :: 0 <= p && p + 1 < q < |s| && s[p] == '$' && s[q] == '$' ==> '$' in s[p + 1..q]
  }

  lemma SuffixNoDisplaySpan(s: String)
    requires |s| > 0 && NoDisplaySpan(s)
    ensures NoDisplaySpan(s[1..])
  {
    forall p, q | 0 <= p && p + 2 <= q < |s[1..]| - 1 && PairAt(s[1..], p)
      ensures !PairAt(s[1..], q)
    {
      assert PairAt(s, p + 1);
      assert PairAt(s[1..], q) <==> PairAt(s, q + 1);
    }
  }

  lemma SuffixNoInlineSpan(s: String)
    requires |s| > 0 && NoInlineSpan(s)
    ensures NoInlineSpan(s[1..])
  {
    forall p, q | 0 <= p && p + 1 < q < |s[1..]| && s[1..][p] == '$' && s[1..][q] == '$'
      ensures '$' in s[1..][p + 1..q]
    {
      assert s[p + 1] == '$' && s[q + 1] == '$';
      assert s[1..][p + 1..q] == s[p + 2..q + 1];
    }
  }

  /** The display pass changes nothing exactly when there is no `$$ … $$` span. */
  lemma {:induction false} DisplayPassIdentityIff(s: String)
    ensures DisplayPass(s) == s <==> NoDisplaySpan(s)
    decreases |s|
  {
    if |s| > 0 {
      if DisplayMatchAtStart(s) {
        IdentityAtMatch(s);
      } else {
        DisplayPassIdentityIff(s[1..]);
        IdentityAtLiteral(s);
      }
    }
  }

  /** A match at the start both changes the text and is a span. */
  lemma IdentityAtMatch(s: String)
    requires DisplayMatchAtStart(s)
    ensures DisplayPass(s) != s && !NoDisplaySpan(s)
  {
    var k := FindPair(s[2..]).value;
    assert PairAt(s, 0) && PairAt(s, k + 2);
    DisplayPassHead(s);
  }

  /** Without a match at the start, the first character is copied and the
      question moves to the rest. */
  lemma IdentityAtLiteral(s: String)
    requires |s| > 0 && !DisplayMatchAtStart(s)
    requires DisplayPass(s[1..]) == s[1..] <==> NoDisplaySpan(s[1..])
    ensures DisplayPass(s) == s <==> NoDisplaySpan(s)
  {
    var r := DisplayPass(s);
    assert r == [s[0]] + DisplayPass(s[1..]);
    assert r[1..] == DisplayPass(s[1..]);
    if NoDisplaySpan(s) {
      SuffixNoDisplaySpan(s);
      assert s == [s[0]] + s[1..];
    } else {
      SpanInTail(s);
      assert r[1..] != s[1..];
    }
  }

  /** Without a match at the start, a span of `s` is a span of its tail. */
  lemma SpanInTail(s: String)
    requires |s| > 0 && !DisplayMatchAtStart(s) && !NoDisplaySpan(s)
    ensures !NoDisplaySpan(s[1..])
  {
    var p, q :| 0 <= p && p + 2 <= q < |s| - 1 && PairAt(s, p) && PairAt(s, q);
    PairLater(s, q);
    assert PairAt(s[1..], p - 1) && PairAt(s[1..], q - 1);
  }

  /** A `$$` at index 2 or later is found by the search after a leading `$$`. */
  lemma PairLater(s: String, q: int)
    requires 2 <= q < |s| - 1 && PairAt(s, q)
    ensures FindPair(s[2..]).Some?
  {
    assert PairAt(s[2..], q - 2);
  }

  lemma PlaceholderDollars(k: Kind, body: String)
    ensures var ph := Placeholder(k, body);
      |ph| == |Marker(k)| + |body| + 1 && ph[|ph| - 1] == ']'
      && forall i :: 0 <= i < |ph| && ph[i] == '$' ==> |Marker(k)| <= i < |ph| - 1 && body[i - |Marker(k)|] == '$'
  {
    var ph := Placeholder(k, body);
    forall i | 0 <= i < |ph| && ph[i] == '$'
      ensures |Marker(k)| <= i < |ph| - 1 && body[i - |Marker(k)|] == '$'
    {
    }
  }

  lemma TrimNoPair(s: String)
    requires NoPair(s)
    ensures NoPair(Trim(s))
  {
    TrimSlice(s);
    var a := |s| - |TrimStart(s)|;
    var t := Trim(s);
    forall j | 0 <= j < |t| - 1
      ensures !PairAt(t, j)
    {
      assert t[j] == s[a + j] && t[j + 1] == s[a + j + 1];
      assert !PairAt(s, a + j);
    }
  }

  /** A placeholder without `$$` that does not end in `$` cannot start a span. */
  lemma PrefixWithoutPair(ph: String, r': String)
    requires NoPair(ph) && |ph| > 0 && ph[|ph| - 1] != '$'
    requires NoDisplaySpan(r')
    ensures NoDisplaySpan(ph + r')
  {
    var r := ph + r';
    forall p | 0 <= p < |ph| && p < |r| - 1
      ensures !PairAt(r, p)
    {
      assert r[p] == ph[p];
      if p < |ph| - 1 {
        assert r[p + 1] == ph[p + 1];
        assert !PairAt(ph, p);
      }
    }
    forall p, q | 0 <= p && p + 2 <= q < |r| - 1 && PairAt(r, p)
      ensures !PairAt(r, q)
    {
      assert r[p] == r'[p - |ph|] && r[p + 1] == r'[p - |ph| + 1];
      assert PairAt(r', p - |ph|);
      assert r[q] == r'[q - |ph|] && r[q + 1] == r'[q - |ph| + 1];
      assert PairAt(r, q) == PairAt(r', q - |ph|);
    }
  }

  lemma PlaceholderNoPair(k: Kind, body: String)
    requires NoPair(body)
    ensures NoPair(Placeholder(k, body))
  {
    var ph := Placeholder(k, body);
    PlaceholderDollars(k, body);
    forall j | 0 <= j < |ph| - 1
      ensures !PairAt(ph, j)
    {
      if PairAt(ph, j) {
        var m := |Marker(k)|;
        assert body[j - m] == '$' && body[j + 1 - m] == '$';
        assert PairAt(body, j - m);
      }
    }
  }

  /** One literal character in front of a span-free string. */
  lemma LiteralPrefix(c: char, r': String)
    requires NoDisplaySpan(r')
    requires c == '$' && |r'| > 0 && r'[0] == '$' ==> NoPair(r'[1..])
    ensures NoDisplaySpan([c] + r')
  {
    var r := [c] + r';
    forall p, q | 0 <= p && p + 2 <= q < |r| - 1 && PairAt(r, p)
      ensures !PairAt(r, q)
    {
      assert r[q] == r'[q - 1] && r[q + 1] == r'[q];
      if p == 0 {
        assert r[0] == c && r[1] == r'[0];
        assert r'[1..][q - 2] == r'[q - 1] && r'[1..][q - 1] == r'[q];
        assert PairAt(r, q) == PairAt(r'[1..], q - 2);
      } else {
        assert r[p] == r'[p - 1] && r[p + 1] == r'[p];
        assert PairAt(r', p - 1);
        assert PairAt(r, q) == PairAt(r', q - 1);
      }
    }
  }

  lemma NoPairTail(tail: String)
    requires NoPair(tail) && |tail| >= 1
    ensures NoPair(tail[1..])
  {
    forall j | 0 <= j < |tail| - 2
      ensures !PairAt(tail[1..], j)
    {
      assert !PairAt(tail, j + 1);
    }
  }

  /** The display pass opens with a placeholder's `[` at a match and with
      the first character otherwise. */
  lemma DisplayPassHead(t: String)
    requires |t| > 0
    ensures |DisplayPass(t)| > 0
    ensures DisplayPass(t)[0] == if DisplayMatchAtStart(t) then '[' else t[0]
  {
  }

  /** A `$$` the display pass leaves in place has no `$$` anywhere after it. */
  lemma LiteralPair(s: String)
    requires |s| >= 1 && !DisplayMatchAtStart(s) && s[0] == '$'
    requires |DisplayPass(s[1..])| > 0 && DisplayPass(s[1..])[0] == '$'
    ensures NoPair(DisplayPass(s[1..])[1..])
  {
    var r' := DisplayPass(s[1..]);
    assert |s| >= 2 by {
      if |s| == 1 { assert false; }
    }
    assert s[1] == '$' by { DisplayPassHead(s[1..]); }
    assert PairAt(s, 0);
    var tail := s[2..];
    assert NoPair(tail);
    assert NoDisplaySpan(tail);
    DisplayPassIdentityIff(tail);
    if |tail| >= 1 {
      NoPairTail(tail);
      assert s[1..][2..] == tail[1..];
    }
    assert !DisplayMatchAtStart(s[1..]);
    assert s[1..][1..] == tail;
    assert r'[1..] == tail;
  }

  /** After the display pass no `$$ … $$` span is left: the pass is exhaustive. */
  lemma {:induction false} DisplayPassExhaustive(s: String)
    ensures NoDisplaySpan(DisplayPass(s))
    decreases |s|
  {
    if |s| == 0 {
    } else if DisplayMatchAtStart(s) {
      var k := FindPair(s[2..]).value;
      DisplayPassExhaustive(s[k + 4..]);
      ExhaustiveAtMatch(s, k);
    } else {
      DisplayPassExhaustive(s[1..]);
      ExhaustiveAtLiteral(s);
    }
  }

  /** A display placeholder followed by span-free output is span-free. */
  lemma ExhaustiveAtMatch(s: String, k: nat)
    requires DisplayMatchAtStart(s) && k == FindPair(s[2..]).value
    requires NoDisplaySpan(DisplayPass(s[k + 4..]))
    ensures NoDisplaySpan(DisplayPass(s))
  {
    var body := s[2..k + 2];
    var ph := Placeholder(Display, Trim(body));
    DisplayPassAtMatch(s, k);
    BodyNoPair(s, k);
    TrimNoPair(body);
    PlaceholderNoPair(Display, Trim(body));
    PlaceholderDollars(Display, Trim(body));
    PrefixWithoutPair(ph, DisplayPass(s[k + 4..]));
  }

  /** The body of a display match holds no `$$`. */
  lemma BodyNoPair(s: String, k: nat)
    requires DisplayMatchAtStart(s) && k == FindPair(s[2..]).value
    ensures NoPair(s[2..k + 2])
  {
    var body := s[2..k + 2];
    assert body == s[2..][..k];
    forall j | 0 <= j < |body| - 1
      ensures !PairAt(body, j)
    {
      assert !PairAt(s[2..], j);
    }
  }

  /** A copied character followed by span-free output is span-free. */
  lemma ExhaustiveAtLiteral(s: String)
    requires |s| > 0 && !DisplayMatchAtStart(s)
    requires NoDisplaySpan(DisplayPass(s[1..]))
    ensures NoDisplaySpan(DisplayPass(s))
  {
    var r' := DisplayPass(s[1..]);
    if s[0] == '$' && |r'| > 0 && r'[0] == '$' {
      LiteralPair(s);
    }
    LiteralPrefix(s[0], r');
  }

  /** The display pass is idempotent. */
  lemma DisplayPassIdempotent(s: String)
    ensures DisplayPass(DisplayPass(s)) == DisplayPass(s)
  {
    DisplayPassExhaustive(s);
    DisplayPassIdentityIff(DisplayPass(s));
  }

  /** A `$ … $` span at index 0 is a match there. */
  lemma InlineSpanAtStart(s: String, q: int)
    requires 1 < q < |s| && s[0] == '$' && s[q] == '$' && '$' !in s[1..q]
    ensures InlineMatchAtStart(s)
  {
    assert s[1..][..q - 1] == s[1..q];
    assert s[1..][q - 1] == '$';
  }

  lemma SpanInSuffix(s: String, p: int, q: int)
    requires 1 <= p && p + 1 < q < |s| && s[p] == '$' && s[q] == '$' && '$' !in s[p + 1..q]
    ensures !NoInlineSpan(s[1..])
  {
    assert s[1..][p - 1] == '$' && s[1..][q - 1] == '$';
    assert s[1..][p..q - 1] == s[p + 1..q];
  }

  /** The inline pass changes nothing exactly when there is no `$ … $` span. */
  lemma {:induction false} InlinePassIdentityIff(s: String)
    ensures InlinePass(s) == s <==> NoInlineSpan(s)
    decreases |s|
  {
    if |s| > 0 {
      if InlineMatchAtStart(s) {
        var k := FindDollar(s[1..]).value;
        assert s[0] == '$' && s[k + 1] == '$' && s[1..k + 1] == s[1..][..k];
        assert InlinePass(s)[0] == '[' != s[0];
      } else {
        InlinePassIdentityIff(s[1..]);
        assert s == [s[0]] + s[1..];
        if NoInlineSpan(s) {
          SuffixNoInlineSpan(s);
        } else {
          var p, q :| 0 <= p && p + 1 < q < |s| && s[p] == '$' && s[q] == '$' && '$' !in s[p + 1..q];
          if p == 0 {
            InlineSpanAtStart(s, q);
          } else {
            SpanInSuffix(s, p, q);
          }
        }
      }
    }
  }

  /** A string with no `$` passes through extraction unchanged. */
  lemma ExtractWithoutDollar(s: String)
    requires '$' !in s
    ensures ExtractLatexEquations(s) == s
  {
    DisplayPassIdentityIff(s);
    InlinePassIdentityIff(s);
  }

  /** A string with neither kind of span passes through extraction unchanged. */
  lemma ExtractWithoutSpans(s: String)
    requires NoDisplaySpan(s) && NoInlineSpan(s)
    ensures ExtractLatexEquations(s) == s
  {
    DisplayPassIdentityIff(s);
    InlinePassIdentityIff(s);
  }

  /** A display equation `$$body$$` whose closing `$$` is the first one after
      the opening becomes one display placeholder with the trimmed body, and
      scanning resumes after it. */
  lemma DisplayPassMatch(body: String, rest: String)
    requires NoPair(body) && (body == [] || body[|body| - 1] != '$')
    ensures DisplayPass("$$" + body + "$$" + rest) == Placeholder(Display, Trim(body)) + DisplayPass(rest)
  {
    var s := "$$" + body + "$$" + rest;
    var k := |body|;
    assert PairAt(s, 0) && s[2..] == body + ("$$" + rest) && s[2..k + 2] == body && s[k + 4..] == rest;
    assert FindPair(s[2..]) == Some(k) by { FindPairAfter(body, rest); }
    DisplayPassAtMatch(s, k);
  }

  /** One step of the display pass at a match whose closing `$$` is at `k`
      past the opening one. */
  lemma DisplayPassAtMatch(s: String, k: nat)
    requires |s| >= 2 && PairAt(s, 0) && FindPair(s[2..]) == Some(k)
    ensures DisplayPass(s) == Placeholder(Display, Trim(s[2..k + 2])) + DisplayPass(s[k + 4..])
  {
    assert DisplayMatchAtStart(s);
  }

  /** The first `$$` after text that has none and does not end in `$` is the
      one right behind it. */
  lemma FindPairAfter(body: String, rest: String)
    requires NoPair(body) && (body == [] || body[|body| - 1] != '$')
    ensures FindPair(body + ("$$" + rest)) == Some(|body|)
  {
    var t := body + ("$$" + rest);
    assert PairAt(t, |body|);
    forall j | 0 <= j < |body|
      ensures !PairAt(t, j)
    {
      if j < |body| - 1 {
        assert !PairAt(body, j);
      } else {
        assert t[j] == body[|body| - 1];
      }
    }
    FindPairIs(t, |body|);
  }

  /** A `$$` with none before it is the one the search finds. */
  lemma {:induction false} FindPairIs(s: String, k: nat)
    requires k < |s| - 1 && PairAt(s, k)
    requires forall j :: 0 <= j < k ==> !PairAt(s, j)
    ensures FindPair(s) == Some(k)
  {
    if k > 0 {
      assert !PairAt(s, 0);
      assert PairAt(s[1..], k - 1);
      forall j | 0 <= j < k - 1
        ensures !PairAt(s[1..], j)
      {
        assert !PairAt(s, j + 1);
      }
      FindPairIs(s[1..], k - 1);
    }
  }

  /** An inline equation `$body$` with a non-empty, `$`-free body becomes one
      inline placeholder with the trimmed body; line breaks do not stop it. */
  lemma InlinePassMatch(body: String, rest: String)
    requires |body| > 0 && '$' !in body
    ensures InlinePass("$" + body + "$" + rest) == Placeholder(Inline, Trim(body)) + InlinePass(rest)
  {
    var s := "$" + body + "$" + rest;
    var k := |body|;
    assert s[0] == '$' && s[1..] == body + ("$" + rest) && s[1..k + 1] == body && s[k + 2..] == rest;
    assert FindDollar(s[1..]) == Some(k) by { FindDollarAfter(body, rest); }
    InlinePassAtMatch(s, k);
  }

  /** One step of the inline pass at a match whose closing `$` is at `k`
      past the opening one. */
  lemma InlinePassAtMatch(s: String, k: nat)
    requires |s| >= 1 && s[0] == '$' && FindDollar(s[1..]) == Some(k) && k >= 1
    ensures InlinePass(s) == Placeholder(Inline, Trim(s[1..k + 1])) + InlinePass(s[k + 2..])
  {
  }

  /** The first `$` after `$`-free text is the one right behind it. */
  lemma FindDollarAfter(x: String, rest: String)
    requires '$' !in x
    ensures FindDollar(x + ("$" + rest)) == Some(|x|)
  {
    var t := x + ("$" + rest);
    assert t[..|x|] == x;
    FindDollarIs(t, |x|);
  }

  /** A `$` with none before it is the one the search finds. */
  lemma {:induction false} FindDollarIs(s: String, k: nat)
    requires k < |s| && s[k] == '$' && '$' !in s[..k]
    ensures FindDollar(s) == Some(k)
  {
    if k > 0 {
      assert s[0] == s[..k][0];
      assert s[1..][..k - 1] == s[..k][1..];
      FindDollarIs(s[1..], k - 1);
    }
  }

  /** Text without `$` is copied through by the display pass. */
  lemma {:induction false} DisplayPassLiteral(x: String, y: String)
    requires '$' !in x
    ensures DisplayPass(x + y) == x + DisplayPass(y)
  {
    if |x| > 0 {
      assert (x + y)[0] == x[0] && (x + y)[1..] == x[1..] + y;
      DisplayPassLiteral(x[1..], y);
      assert x == [x[0]] + x[1..];
    } else {
      assert x + y == y;
    }
  }

  /** Text without `$` is copied through by the inline pass. */
  lemma {:induction false} InlinePassLiteral(x: String, y: String)
    requires '$' !in x
    ensures InlinePass(x + y) == x + InlinePass(y)
  {
    if |x| > 0 {
      assert (x + y)[0] == x[0] && (x + y)[1..] == x[1..] + y;
      InlinePassLiteral(x[1..], y);
      assert x == [x[0]] + x[1..];
    } else {
      assert x + y == y;
    }
  }

  lemma TrimNoDollar(s: String)
    requires '$' !in s
    ensures '$' !in Trim(s)
  {
    TrimSlice(s);
    var a := |s| - |TrimStart(s)|;
    var t := Trim(s);
    assert forall i :: 0 <= i < |t| ==> t[i] == s[a + i];
  }

  /** One `$` between `$`-free text is not a `$$`. */
  lemma NoPairOne(x: String, y: String)
    requires '$' !in x && '$' !in y
    ensures NoPair(x + "$" + y)
  {
    var s := x + "$" + y;
    forall j | 0 <= j < |s| - 1 ensures !PairAt(s, j) {
      if j < |x| { assert s[j] == x[j]; }
      else if j == |x| { assert s[j + 1] == y[0]; }
      else { assert s[j] == y[j - |x| - 1]; }
    }
  }

  /** Two `$` separated by non-empty `$`-free text are not a `$$`. */
  lemma NoPairTwo(x: String, y: String)
    requires '$' !in x && '$' !in y && |y| > 0
    ensures NoPair(x + "$" + y + "$")
  {
    var s := x + "$" + y + "$";
    NoPairOne(x, y);
    assert s == (x + "$" + y) + "$";
    forall j | 0 <= j < |s| - 1 ensures !PairAt(s, j) {
      if j < |s| - 2 { assert !PairAt(x + "$" + y, j); }
      else { assert s[j] == y[|y| - 1]; }
    }
  }

  lemma DisplayPassNoPair(s: String)
    requires NoPair(s)
    ensures DisplayPass(s) == s
  {
    DisplayPassIdentityIff(s);
  }

  /** `$`-free text, then one inline equation, then the end of the input. */
  lemma InlinePassLastSpan(d: String, p: String, q: String, b: String)
    requires '$' !in p && '$' !in q && '$' !in b && |b| > 0
    requires d == p + (q + ("$" + b + "$"))
    ensures InlinePass(d) == p + (q + Placeholder(Inline, Trim(b)))
  {
    var e := "$" + b + "$";
    assert e == "$" + b + "$" + "";
    InlinePassLiteral(p, q + e);
    InlinePassLiteral(q, e);
    InlinePassMatch(b, "");
    assert InlinePass("") == "";
  }

  /** One display equation followed by text without `$$`. */
  lemma DisplayPassOneSpan(s: String, a: String, rest: String)
    requires NoPair(a) && (a == [] || a[|a| - 1] != '$') && NoPair(rest)
    requires s == "$$" + a + "$$" + rest
    ensures DisplayPass(s) == Placeholder(Display, Trim(a)) + rest
  {
    DisplayPassMatch(a, rest);
    DisplayPassNoPair(rest);
  }

  /** The display pass on `$$a$$ … $b$` leaves the inline part alone. */
  lemma DisplayPassThenText(s: String, a: String, sep: String, b: String)
    requires '$' !in a && '$' !in sep && '$' !in b && |b| > 0
    requires s == "$$" + a + "$$" + (sep + ("$" + b + "$"))
    ensures DisplayPass(s) == Placeholder(Display, Trim(a)) + (sep + ("$" + b + "$"))
  {
    NoPairTwo(sep, b);
    assert sep + ("$" + b + "$") == sep + "$" + b + "$";
    NoPairZero(a);
    DisplayPassOneSpan(s, a, sep + ("$" + b + "$"));
  }

  /** Display equations are replaced before inline ones: `$$a$$ … $b$`
      becomes a display placeholder for `a` and an inline one for `b`. */
  lemma ExtractDisplayThenInline(s: String, a: String, sep: String, b: String)
    requires '$' !in a && '$' !in sep && '$' !in b && |b| > 0
    requires s == "$$" + a + "$$" + (sep + ("$" + b + "$"))
    ensures ExtractLatexEquations(s) == Placeholder(Display, Trim(a)) + (sep + Placeholder(Inline, Trim(b)))
  {
    DisplayPassThenText(s, a, sep, b);
    TrimNoDollar(a);
    PlaceholderNoDollar(Display, Trim(a));
    InlinePassLastSpan(DisplayPass(s), Placeholder(Display, Trim(a)), sep, b);
  }

  lemma MarkerNoDollar(k: Kind)
    ensures '$' !in Marker(k)
  {
  }

  lemma PlaceholderNoDollar(k: Kind, body: String)
    requires '$' !in body
    ensures '$' !in Placeholder(k, body)
  {
    MarkerNoDollar(k);
  }

  /** `$`-free text has no `$$`. */
  lemma NoPairZero(x: String)
    requires '$' !in x
    ensures NoPair(x)
  {
  }

  /** A display body may keep a single `$`; the inline pass then matches from
      inside the display placeholder up to a later `$`, so in
      `$$a$b$$ x $c$` the inline placeholder lands inside the display one and
      the text after it is cut off. */
  lemma ExtractAcrossPlaceholder(s: String, a: String, b: String, x: String, c: String)
    requires '$' !in a && '$' !in b && '$' !in x && '$' !in c
    requires |a| > 0 && !IsWhitespace(a[0]) && |b| > 0 && !IsWhitespace(b[|b| - 1]) && |c| > 0
    requires s == "$$" + a + "$" + b + "$$" + x + "$" + c + "$"
    ensures ExtractLatexEquations(s) == Marker(Display) + a + Placeholder(Inline, Trim(b + "]" + x)) + c + "$"
  {
    var body := a + "$" + b;
    var rest := x + "$" + c + "$";
    var d := DisplayPass(s);
    assert d == Placeholder(Display, body) + rest by {
      assert s == "$$" + body + "$$" + rest;
      NoPairOne(a, b);
      assert body[|body| - 1] == b[|b| - 1];
      NoPairTwo(x, c);
      DisplayPassOneSpan(s, body, rest);
      TrimmedBody(a, b);
    }
    var lit := Marker(Display) + a;
    var q := Placeholder(Inline, Trim(b + "]" + x));
    assert d == lit + ("$" + (b + "]" + x) + "$" + (c + "$")) by {
      AcrossShape(Marker(Display), a, b, x, c);
    }
    assert InlinePass(d) == lit + (q + (c + "$")) by {
      MarkerNoDollar(Display);
      InlinePassSpanThenTail(d, lit, b + "]" + x, c);
    }
    Regroup(lit, q, c);
  }

  lemma Regroup(lit: String, q: String, c: String)
    ensures lit + (q + (c + "$")) == lit + q + c + "$"
  {
  }

  /** A body that starts and ends with non-whitespace is its own trim. */
  lemma TrimmedBody(a: String, b: String)
    requires |a| > 0 && !IsWhitespace(a[0]) && |b| > 0 && !IsWhitespace(b[|b| - 1])
    ensures Trim(a + "$" + b) == a + "$" + b
  {
    var body := a + "$" + b;
    assert body[0] == a[0];
    assert body[|body| - 1] == b[|b| - 1];
    TrimIdentity(body);
  }

  /** The display placeholder followed by the rest, regrouped around the two
      `$` the inline pass sees. */
  lemma AcrossShape(m: String, a: String, b: String, x: String, c: String)
    ensures m + (a + "$" + b) + "]" + (x + "$" + c + "$") == m + a + ("$" + (b + "]" + x) + "$" + (c + "$"))
  {
  }

  /** `$`-free text, one inline equation, then `$`-free text and a lone `$`. */
  lemma InlinePassSpanThenTail(d: String, lit: String, b: String, c: String)
    requires '$' !in lit && '$' !in b && |b| > 0 && '$' !in c
    requires d == lit + ("$" + b + "$" + (c + "$"))
    ensures InlinePass(d) == lit + (Placeholder(Inline, Trim(b)) + (c + "$"))
  {
    InlinePassLiteral(lit, "$" + b + "$" + (c + "$"));
    InlinePassMatch(b, c + "$");
    InlinePassLone(c);
  }
  lemma InlinePassLone(c: String)
    requires '$' !in c
    ensures InlinePass(c + "$") == c + "$"
  {
    InlinePassLiteral(c, "$");
    assert InlinePass("$") == "$";
  }

  /** `$$$$` yields a placeholder with an empty body. */
  lemma ExtractEmptyDisplay(s: String)
    requires s == "$$$$"
    ensures ExtractLatexEquations(s) == "[EQUATION:DISPLAY:]"
  {
    var d := Placeholder(Display, "");
    assert DisplayPass(s) == d by {
      assert s == "$$" + "" + "$$" + "";
      DisplayPassMatch("", "");
      assert Trim("") == "";
      assert DisplayPass("") == "";
    }
    assert InlinePass(d) == d by {
      PlaceholderNoDollar(Display, "");
      InlinePassLiteral(d, "");
      assert d + "" == d;
    }
  }
}
