/** Manual citation formatting of the citation generator: author-list
    splitting, the APA and MLA author joins, and the template table indexed by
    citation style and source type. */
module CitationFormat {
  import opened JsString

  datatype SourceType = Book | Website | Journal | Video
  datatype CitationStyle = Apa | Mla | Chicago | Harvard | Ieee

  /** The form fields of a citation; a field the user left out is `""`, as
      the destructuring defaults make it. */
  datatype Fields = Fields(
    authors: String,
    title: String,
    year: String,
    publisher: String,
    url: String,
    accessDate: String,
    journalName: String,
    volume: String,
    issue: String,
    pages: String,
    doi: String,
    websiteName: String,
    channelName: String,
    videoUrl: String)

  /** What a template literal prints for an array element past the end. */
  const Undefined: String := "undefined"

  /** The characters an author string is split on: comma and ampersand. */
  const AuthorSeparators: set<char> := {',', '&'}

  /** A name as it survives splitting: non-empty, trimmed, separator-free. */
  predicate IsName(n: String) {
    && n != []
    && !IsWhitespace(n[0])
    && !IsWhitespace(n[|n| - 1])
    && forall i :: 0 <= i < |n| ==> n[i] !in AuthorSeparators
  }

  /** The pieces of an author string, each trimmed, with the blank ones dropped. */
  function Names(pieces: seq<String>): (r: seq<String>)
    requires forall k, i :: 0 <= k < |pieces| && 0 <= i < |pieces[k]| ==> pieces[k][i] !in AuthorSeparators
    ensures |r| <= |pieces|
    ensures forall k :: 0 <= k < |r| ==> IsName(r[k])
  {
    if |pieces| == 0 then []
    else
      var t := Trim(pieces[0]);
      TrimmedName(pieces[0]);
      var rest := Names(pieces[1..]);
      if t != [] then [t] + rest else rest
  }

  /** A trimmed separator-free piece is a name unless it is blank. */
  lemma TrimmedName(p: String)
    requires forall i :: 0 <= i < |p| ==> p[i] !in AuthorSeparators
    ensures Trim(p) != [] ==> IsName(Trim(p))
  {
    TrimSlice(p);
    TrimEnds(p);
    var t := Trim(p);
    var a := |p| - |TrimStart(p)|;
    assert forall i :: 0 <= i < |t| ==> t[i] == p[a + i];
  }

  /** The names of an author string: split at every comma and ampersand,
      trimmed, blanks dropped. */
  function AuthorList(authors: String): (r: seq<String>)
    ensures forall k :: 0 <= k < |r| ==> IsName(r[k])
    ensures |r| <= Count(authors, AuthorSeparators) + 1
  {
    Names(Split(authors, AuthorSeparators))
  }

  /** Element `i` of a list, printed as `undefined` when there is none. */
  function ElementOr(xs: seq<String>, i: int): String {
    if 0 <= i < |xs| then xs[i] else Undefined
  }

  /** All elements but the last. */
  function DropLast(xs: seq<String>): (r: seq<String>)
    ensures |r| == if |xs| == 0 then 0 else |xs| - 1
    ensures forall k :: 0 <= k < |r| ==> r[k] == xs[k]
  {
    if |xs| == 0 then [] else xs[..|xs| - 1]
  }

  /** `formatAuthorAPA`: one name as is, two joined by an ampersand, more
      joined by commas with an ampersand before the last. */
  function FormatAuthorApa(authors: String): (r: String)
    ensures authors == [] ==> r == []
    ensures authors != [] && |AuthorList(authors)| == 1 ==> r == AuthorList(authors)[0]
    ensures authors != [] && |AuthorList(authors)| == 2 ==> r == AuthorList(authors)[0] + (" & " + AuthorList(authors)[1])
  {
    if authors == [] then ""
    else
      var list := AuthorList(authors);
      if |list| == 1 then list[0]
      else if |list| == 2 then list[0] + (" & " + list[1])
      else Join(DropLast(list), ", ") + (", & " + ElementOr(list, |list| - 1))
  }

  const EtAl: String := "et al."

  /** `formatAuthorMLA`: one name as is, two joined by `, and`, more cut to
      the first followed by `et al.`. */
  function FormatAuthorMla(authors: String): (r: String)
    ensures authors == [] ==> r == []
    ensures authors != [] && |AuthorList(authors)| == 1 ==> r == AuthorList(authors)[0]
    ensures authors != [] && |AuthorList(authors)| == 2 ==> r == AuthorList(authors)[0] + (", and " + AuthorList(authors)[1])
  {
    if authors == [] then ""
    else
      var list := AuthorList(authors);
      if |list| == 1 then list[0]
      else if |list| == 2 then list[0] + (", and " + list[1])
      else ElementOr(list, 0) + (", " + EtAl)
  }

  // ---------------------------------------------------------------------
  // Re-splitting formatted author lists
  // ---------------------------------------------------------------------

  lemma {:induction false} NamesAppend(a: seq<String>, b: seq<String>)
    requires forall k, i :: 0 <= k < |a| && 0 <= i < |a[k]| ==> a[k][i] !in AuthorSeparators
    requires forall k, i :: 0 <= k < |b| && 0 <= i < |b[k]| ==> b[k][i] !in AuthorSeparators
    ensures Names(a + b) == Names(a) + Names(b)
  {
    if |a| > 0 {
      assert (a + b)[0] == a[0];
      assert (a + b)[1..] == a[1..] + b;
      NamesAppend(a[1..], b);
    } else {
      assert a + b == b;
    }
  }

  /** Splitting at a separator character splits the pieces list there. */
  lemma {:induction false} SplitAtSeparator(x: String, c: char, y: String, seps: set<char>)
    requires c in seps
    ensures Split(x + ([c] + y), seps) == Split(x, seps) + Split(y, seps)
  {
    var s := x + ([c] + y);
    if |x| == 0 {
      assert s == [c] + y;
      assert s[1..] == y;
    } else {
      assert s[0] == x[0];
      assert s[1..] == x[1..] + ([c] + y);
      SplitAtSeparator(x[1..], c, y, seps);
      var sx := Split(x[1..], seps);
      var sy := Split(y, seps);
      SplitStep(s, sx + sy, seps);
      SplitStep(x, sx, seps);
      ConsPieces(x[0], sx, sy, seps);
    }
  }

  /** Consing a character onto a list of pieces commutes with appending more. */
  lemma ConsPieces(c: char, sx: seq<String>, sy: seq<String>, seps: set<char>)
    requires |sx| > 0
    ensures (if c in seps then [""] + (sx + sy) else [[c] + (sx + sy)[0]] + (sx + sy)[1..])
         == (if c in seps then [""] + sx else [[c] + sx[0]] + sx[1..]) + sy
  {
    if c in seps {
      assert [""] + (sx + sy) == ([""] + sx) + sy;
    } else {
      var h := [c] + sx[0];
      assert (sx + sy)[0] == sx[0];
      assert (sx + sy)[1..] == sx[1..] + sy;
      assert [h] + (sx[1..] + sy) == ([h] + sx[1..]) + sy;
    }
  }

  /** One step of `Split`, given the split of the tail. */
  lemma SplitStep(s: String, rest: seq<String>, seps: set<char>)
    requires |s| > 0 && rest == Split(s[1..], seps)
    ensures Split(s, seps) == if s[0] in seps then [""] + rest else [[s[0]] + rest[0]] + rest[1..]
  {
  }

  /** A separator between two strings separates their author lists. */
  lemma AuthorListAtSeparator(x: String, c: char, y: String)
    requires c in AuthorSeparators
    ensures AuthorList(x + ([c] + y)) == AuthorList(x) + AuthorList(y)
  {
    SplitAtSeparator(x, c, y, AuthorSeparators);
    NamesAppend(Split(x, AuthorSeparators), Split(y, AuthorSeparators));
  }

  lemma TrimLeadingSpace(p: String)
    ensures Trim([' '] + p) == Trim(p)
  {
    assert ([' '] + p)[1..] == p;
    assert TrimStart([' '] + p) == TrimStart(p);
  }

  /** Pieces that agree after trimming the first and are equal after it
      carry the same names. */
  lemma NamesSameHead(xs: seq<String>, ys: seq<String>)
    requires |xs| > 0 && |ys| > 0 && xs[1..] == ys[1..] && Trim(xs[0]) == Trim(ys[0])
    requires forall k, i :: 0 <= k < |xs| && 0 <= i < |xs[k]| ==> xs[k][i] !in AuthorSeparators
    requires forall k, i :: 0 <= k < |ys| && 0 <= i < |ys[k]| ==> ys[k][i] !in AuthorSeparators
    ensures Names(xs) == Names(ys)
  {
  }

  /** Leading whitespace does not change an author list. */
  lemma AuthorListSkipSpace(y: String)
    ensures AuthorList([' '] + y) == AuthorList(y)
  {
    SplitPrefix([' '], y, AuthorSeparators);
    var p := Split(y, AuthorSeparators);
    var q := Split([' '] + y, AuthorSeparators);
    assert q[0] == [' '] + p[0] && q[1..] == p[1..];
    TrimLeadingSpace(p[0]);
    NamesSameHead(q, p);
  }

  /** A separator-free string is a single piece. */
  lemma AuthorListPiece(n: String)
    requires forall i :: 0 <= i < |n| ==> n[i] !in AuthorSeparators
    ensures AuthorList(n) == Names([n])
  {
    SplitPrefix(n, "", AuthorSeparators);
    assert n + "" == n;
    assert Split(n, AuthorSeparators) == [n + ""];
  }

  /** A name on its own is its own author list. */
  lemma AuthorListName(n: String)
    requires IsName(n)
    ensures AuthorList(n) == [n]
  {
    AuthorListPiece(n);
    TrimIdentity(n);
  }

  lemma TrimTrailingSpace(n: String)
    requires IsName(n)
    ensures Trim(n + " ") == n
  {
    var s := n + " ";
    assert s[0] == n[0];
    assert TrimStart(s) == s;
    assert s[..|s| - 1] == n;
    assert TrimEnd(n) == n;
  }

  /** Trailing space is trimmed off a name. */
  lemma AuthorListNameSpace(n: String)
    requires IsName(n)
    ensures AuthorList(n + " ") == [n]
  {
    assert forall i :: 0 <= i < |n| ==> (n + " ")[i] == n[i];
    AuthorListPiece(n + " ");
    TrimTrailingSpace(n);
  }

  /** Leading space is trimmed off a name. */
  lemma AuthorListSpaceName(n: String)
    requires IsName(n)
    ensures AuthorList([' '] + n) == [n]
  {
    AuthorListSkipSpace(n);
    AuthorListName(n);
  }

  lemma CommaSpace(x: String, y: String)
    ensures x + ", " + y == x + ([','] + ([' '] + y))
  {
  }

  /** A name followed by `", "` contributes exactly itself to the author list. */
  lemma AuthorListCommaSpace(n: String, y: String)
    requires IsName(n)
    ensures AuthorList(n + ", " + y) == [n] + AuthorList(y)
  {
    assert n + ", " + y == n + ([','] + ([' '] + y)) by { CommaSpace(n, y); }
    assert AuthorList(n + ([','] + ([' '] + y))) == AuthorList(n) + AuthorList([' '] + y) by {
      AuthorListAtSeparator(n, ',', [' '] + y);
    }
    assert AuthorList(n) == [n] by { AuthorListName(n); }
    assert AuthorList([' '] + y) == AuthorList(y) by { AuthorListSkipSpace(y); }
  }

  /** Names joined with `", "` split back into the same names. */
  lemma {:induction false} AuthorListJoin(ns: seq<String>)
    requires |ns| >= 1 && forall k :: 0 <= k < |ns| ==> IsName(ns[k])
    ensures AuthorList(Join(ns, ", ")) == ns
  {
    if |ns| == 1 {
      AuthorListName(ns[0]);
    } else {
      var j := Join(ns[1..], ", ");
      assert Join(ns, ", ") == ns[0] + ", " + j;
      assert AuthorList(j) == ns[1..] by { AuthorListJoin(ns[1..]); }
      AuthorListCommaSpace(ns[0], j);
      assert ns == [ns[0]] + ns[1..];
    }
  }

  lemma AuthorListBlank(s: String)
    requires forall i :: 0 <= i < |s| ==> s[i] == ' '
    ensures AuthorList(s) == []
  {
    AuthorListPiece(s);
    TrimEmptyIff(s);
  }

  lemma SpaceAmpSpace(a: String, b: String)
    ensures a + (" & " + b) == (a + " ") + (['&'] + ([' '] + b))
  {
    var p := " & ";
    assert p == [' '] + (['&'] + [' ']);
  }

  /** Two names joined APA style split back into both. */
  lemma AuthorListApaPair(a: String, b: String)
    requires IsName(a) && IsName(b)
    ensures AuthorList(a + (" & " + b)) == [a, b]
  {
    SpaceAmpSpace(a, b);
    AuthorListAtSeparator(a + " ", '&', [' '] + b);
    AuthorListNameSpace(a);
    AuthorListSpaceName(b);
  }

  lemma ApaLastSeparator(last: String)
    ensures ", & " + last == [','] + (" " + (['&'] + ([' '] + last)))
  {
    var p := ", & ";
    var q := [','] + (" " + (['&'] + ([' '] + last)));
    assert |p + last| == |q|;
    forall i | 0 <= i < |q|
      ensures (p + last)[i] == q[i]
    {
      if i >= 4 {
        assert (p + last)[i] == last[i - 4];
      }
    }
  }

  /** `" & " + last` splits into `last`. */
  lemma AuthorListAmpName(last: String)
    requires IsName(last)
    ensures AuthorList(" " + (['&'] + ([' '] + last))) == [last]
  {
    AuthorListAtSeparator(" ", '&', [' '] + last);
    AuthorListBlank(" ");
    AuthorListSpaceName(last);
  }

  /** Three or more names joined APA style split back into all of them. */
  lemma AuthorListApaMany(init: seq<String>, last: String)
    requires |init| >= 1 && forall k :: 0 <= k < |init| ==> IsName(init[k])
    requires IsName(last)
    ensures AuthorList(Join(init, ", ") + (", & " + last)) == init + [last]
  {
    var j := Join(init, ", ");
    ApaLastSeparator(last);
    AuthorListAtSeparator(j, ',', " " + (['&'] + ([' '] + last)));
    AuthorListJoin(init);
    AuthorListAmpName(last);
  }

  lemma AuthorListEmpty()
    ensures AuthorList("") == []
  {
    assert Split("", AuthorSeparators) == [""];
  }

  /** Two or more names: the APA join of a name list splits back into it. */
  lemma AuthorListApaJoin(l: seq<String>)
    requires |l| >= 2 && forall k :: 0 <= k < |l| ==> IsName(l[k])
    ensures |l| == 2 ==> AuthorList(l[0] + (" & " + l[1])) == l
    ensures |l| > 2 ==> AuthorList(Join(DropLast(l), ", ") + (", & " + l[|l| - 1])) == l
  {
    if |l| == 2 {
      AuthorListApaPair(l[0], l[1]);
      assert l == [l[0], l[1]];
    } else {
      var init := DropLast(l);
      AuthorListApaMany(init, l[|l| - 1]);
      assert l == init + [l[|l| - 1]];
    }
  }

  /** Splitting an APA author list again gives back its names: the APA join
      is a faithful encoding of the names whenever there is at least one. */
  lemma FormatAuthorApaRoundTrip(authors: String)
    requires AuthorList(authors) != []
    ensures AuthorList(FormatAuthorApa(authors)) == AuthorList(authors)
  {
    var l := AuthorList(authors);
    assert authors != [] by { AuthorListEmpty(); }
    if |l| == 1 {
      AuthorListName(l[0]);
    } else {
      AuthorListApaJoin(l);
    }
  }

  /** Pieces that are all blank carry no names. */
  lemma {:induction false} NamesOfBlank(ps: seq<String>)
    requires forall k, i :: 0 <= k < |ps| && 0 <= i < |ps[k]| ==> ps[k][i] !in AuthorSeparators
    requires forall k :: 0 <= k < |ps| ==> AllWhitespace(ps[k])
    ensures Names(ps) == []
  {
    if |ps| > 0 {
      NamesOfBlank(ps[1..]);
    }
  }

  /** Only whitespace and separators: every piece is blank. */
  lemma {:induction false} SplitBlank(s: String)
    requires forall i :: 0 <= i < |s| ==> IsWhitespace(s[i]) || s[i] in AuthorSeparators
    ensures forall k :: 0 <= k < |Split(s, AuthorSeparators)| ==> AllWhitespace(Split(s, AuthorSeparators)[k])
  {
    if |s| > 0 {
      var rest := Split(s[1..], AuthorSeparators);
      SplitBlank(s[1..]);
      SplitStep(s, rest, AuthorSeparators);
      if s[0] !in AuthorSeparators {
        var p := [s[0]] + rest[0];
        assert forall i :: 1 <= i < |p| ==> p[i] == rest[0][i - 1];
      }
    }
  }

  /** An author string of nothing but whitespace and separators has no names. */
  lemma AuthorListNoNames(s: String)
    requires forall i :: 0 <= i < |s| ==> IsWhitespace(s[i]) || s[i] in AuthorSeparators
    ensures AuthorList(s) == []
  {
    SplitBlank(s);
    NamesOfBlank(Split(s, AuthorSeparators));
  }

  /** A non-empty author string with no names falls into the last branch and
      prints JavaScript's `undefined` for the missing last element. */
  lemma FormatAuthorApaNoNames(authors: String)
    requires authors != []
    requires forall i :: 0 <= i < |authors| ==> IsWhitespace(authors[i]) || authors[i] in AuthorSeparators
    ensures FormatAuthorApa(authors) == ", & undefined"
  {
    AuthorListNoNames(authors);
  }

  /** The MLA counterpart prints `undefined` for the missing first element. */
  lemma FormatAuthorMlaNoNames(authors: String)
    requires authors != []
    requires forall i :: 0 <= i < |authors| ==> IsWhitespace(authors[i]) || authors[i] in AuthorSeparators
    ensures FormatAuthorMla(authors) == "undefined, et al."
  {
    AuthorListNoNames(authors);
  }

  lemma EtAlIsName()
    ensures IsName(EtAl)
  {
    assert forall i :: 0 <= i < |EtAl| ==> EtAl[i] in {'e', 't', ' ', 'a', 'l', '.'};
  }

  /** `name, et al.` splits into the name and `et al.`. */
  lemma AuthorListEtAl(n: String)
    requires IsName(n)
    ensures AuthorList(n + (", " + EtAl)) == [n, EtAl]
  {
    EtAlIsName();
    CommaSpace(n, EtAl);
    assert n + (", " + EtAl) == n + ", " + EtAl;
    AuthorListAtSeparator(n, ',', [' '] + EtAl);
    AuthorListName(n);
    AuthorListSpaceName(EtAl);
  }

  /** `and ` in front of a name is still a name. */
  lemma AndIsName(b: String)
    requires IsName(b)
    ensures IsName("and " + b)
  {
    var n := "and " + b;
    assert forall i :: 4 <= i < |n| ==> n[i] == b[i - 4];
    assert n[|n| - 1] == b[|b| - 1];
  }

  /** Two names joined MLA style split into the first name and the second
      with `and ` glued to its front. */
  lemma AuthorListMlaPair(a: String, b: String)
    requires IsName(a) && IsName(b)
    ensures AuthorList(a + (", and " + b)) == [a, "and " + b]
  {
    var n := "and " + b;
    assert ", and " + b == [','] + ([' '] + n);
    AndIsName(b);
    AuthorListAtSeparator(a, ',', [' '] + n);
    AuthorListName(a);
    AuthorListSpaceName(n);
  }

  /** MLA's two-author join does not survive a second split: the second name
      comes back as `and ` followed by it, so re-formatting a formatted pair
      is not the identity. */
  lemma FormatAuthorMlaPair(authors: String)
    requires |AuthorList(authors)| == 2
    ensures AuthorList(FormatAuthorMla(authors)) == [AuthorList(authors)[0], "and " + AuthorList(authors)[1]]
  {
    var l := AuthorList(authors);
    assert authors != [] by { AuthorListEmpty(); }
    AuthorListMlaPair(l[0], l[1]);
  }

  /** MLA keeps only the first name of three or more, so splitting it again
      yields that name and `et al.`. */
  lemma FormatAuthorMlaEtAl(authors: String)
    requires |AuthorList(authors)| >= 3
    ensures AuthorList(FormatAuthorMla(authors)) == [AuthorList(authors)[0], EtAl]
  {
    FormatAuthorMlaMany(authors);
    AuthorListEtAl(AuthorList(authors)[0]);
  }

  /** Three or more names: MLA prints the first and `et al.`. */
  lemma FormatAuthorMlaMany(authors: String)
    requires |AuthorList(authors)| >= 3
    ensures FormatAuthorMla(authors) == AuthorList(authors)[0] + (", " + EtAl)
  {
    var l := AuthorList(authors);
    assert authors != [] by { AuthorListEmpty(); }
    assert ElementOr(l, 0) == l[0];
  }

  // ---------------------------------------------------------------------
  // The template table
  // ---------------------------------------------------------------------

  /** A template clause printed only when its field is non-empty. */
  function When(v: String, clause: String): String {
    if v == [] then [] else clause
  }

  /** A field, or a fallback when the field is empty. */
  function Or(v: String, fallback: String): String {
    if v == [] then fallback else v
  }

  const NoDate: String := "n.d."

  /** Who a citation names first: videos credit the channel and fall back to
      the authors; otherwise APA and Harvard use the APA author join, MLA and
      Chicago the MLA one, and IEEE the authors exactly as typed. */
  function Credit(f: Fields, t: SourceType, style: CitationStyle): String {
    if t == Video then Or(f.channelName, f.authors)
    else if style == Apa || style == Harvard then FormatAuthorApa(f.authors)
    else if style == Mla || style == Chicago then FormatAuthorMla(f.authors)
    else f.authors
  }

  /** How each style introduces a DOI. */
  function DoiPrefix(style: CitationStyle): String {
    match style
    case Apa => " https://doi.org/"
    case Chicago => " https://doi.org/"
    case Mla => " DOI: "
    case Harvard => " doi: "
    case Ieee => " doi: "
  }

  /** The DOI clause that closes a journal article, empty without a DOI. */
  function DoiClause(style: CitationStyle, doi: String): String {
    When(doi, DoiPrefix(style) + doi)
  }

  /** The Harvard date in parentheses, `n.d.` when there is no year. */
  function HarvardDate(year: String): String {
    " (" + (Or(year, NoDate) + ")")
  }

  /** `formatManualCitation`: one template per style and source type. Every
      template except MLA's video one opens with the credit; APA follows it
      with an optional year and Harvard with a mandatory date. The table is
      total, so the source's trailing `return ""` is unreachable. */
  function FormatManualCitation(f: Fields, t: SourceType, style: CitationStyle): String {
    match style
    case Apa => Credit(f, t, Apa) + (When(f.year, " (" + f.year + ")") + ApaRest(f, t))
    case Mla => if t == Video then MlaVideo(f) else Credit(f, t, Mla) + MlaRest(f, t)
    case Chicago => Credit(f, t, Chicago) + ChicagoRest(f, t)
    case Harvard => Credit(f, t, Harvard) + (HarvardDate(f.year) + HarvardRest(f, t))
    case Ieee => Credit(f, t, Ieee) + IeeeRest(f, t)
  }

  /** APA after the credit and the year. */
  function ApaRest(f: Fields, t: SourceType): String {
    match t
    case Book =>
      ". *" + (f.title + ("*" + (When(f.publisher, ". " + f.publisher) + ".")))
    case Website =>
      ". " + (f.title + (". " + (f.websiteName + (". "
        + When(f.url, "Retrieved " + Or(f.accessDate, NoDate) + " from " + f.url)))))
    case Journal =>
      (". " + (f.title + (". *" + (f.journalName + ("*"
        + (When(f.volume, ", " + f.volume) + (When(f.issue, "(" + f.issue + ")")
        + (When(f.pages, ", " + f.pages) + "."))))))))
      + DoiClause(Apa, f.doi)
    case Video =>
      ". *" + (f.title + ("* [Video]. YouTube. " + f.videoUrl))
  }

  /** MLA after the credit, for the templates that open with one. */
  function MlaRest(f: Fields, t: SourceType): String
    requires t != Video
  {
    match t
    case Book =>
      ". *" + (f.title + ("*. " + (f.publisher + (When(f.year, ", " + f.year) + "."))))
    case Website =>
      ". \"" + (f.title + (".\" *" + (f.websiteName + ("*" + (When(f.year, ", " + f.year)
        + (When(f.url, ", " + f.url) + (". Accessed " + (Or(f.accessDate, NoDate) + "."))))))))
    case Journal =>
      (". \"" + (f.title + (".\" *" + (f.journalName + ("*" + (When(f.volume, ", vol. " + f.volume)
        + (When(f.issue, ", no. " + f.issue) + (When(f.year, ", " + f.year)
        + (When(f.pages, ", pp. " + f.pages) + ".")))))))))
      + DoiClause(Mla, f.doi)
  }

  /** The MLA video template, which opens with the title. */
  function MlaVideo(f: Fields): String {
    "\"" + (f.title + (".\" YouTube, uploaded by " + (Or(f.channelName, f.authors)
      + (When(f.year, ", " + f.year) + (", " + (f.videoUrl + "."))))))
  }

  /** Chicago after the credit. */
  function ChicagoRest(f: Fields, t: SourceType): String {
    match t
    case Book =>
      ". *" + (f.title + ("*. " + (f.publisher + (When(f.year, ", " + f.year) + "."))))
    case Website =>
      ". \"" + (f.title + (".\" " + (f.websiteName + (When(f.year, ". " + f.year) + (". " + f.url)))))
    case Journal =>
      (". \"" + (f.title + (".\" *" + (f.journalName + ("* " + (f.volume
        + (When(f.issue, ", no. " + f.issue) + (" (" + (Or(f.year, NoDate) + (")"
        + (When(f.pages, ": " + f.pages) + ".")))))))))))
      + DoiClause(Chicago, f.doi)
    case Video =>
      ". \"" + (f.title + (".\" YouTube video" + (When(f.year, ", " + f.year) + (". " + f.videoUrl))))
  }

  /** Harvard after the credit and the date. */
  function HarvardRest(f: Fields, t: SourceType): String {
    match t
    case Book =>
      " *" + (f.title + ("*. " + (f.publisher + ".")))
    case Website =>
      " " + (f.title + (". [online] " + (f.websiteName + (". Available at: "
        + (f.url + (" [Accessed " + (Or(f.accessDate, NoDate) + "].")))))))
    case Journal =>
      (" '" + (f.title + ("', *" + (f.journalName + ("*"
        + (When(f.volume, ", " + f.volume) + (When(f.issue, "(" + f.issue + ")")
        + (When(f.pages, ", pp. " + f.pages) + "."))))))))
      + DoiClause(Harvard, f.doi)
    case Video =>
      " *" + (f.title + ("*. [video] Available at: " + f.videoUrl))
  }

  /** IEEE after the credit. */
  function IeeeRest(f: Fields, t: SourceType): String {
    match t
    case Book =>
      ", *" + (f.title + ("*. " + (f.publisher + (When(f.year, ", " + f.year) + "."))))
    case Website =>
      ", \"" + (f.title + (",\" " + (f.websiteName + (When(f.year, ", " + f.year)
        + (". [Online]. Available: " + (f.url + (". [Accessed: " + (Or(f.accessDate, NoDate) + "]."))))))))
    case Journal =>
      (", \"" + (f.title + (",\" *" + (f.journalName + ("*" + (When(f.volume, ", vol. " + f.volume)
        + (When(f.issue, ", no. " + f.issue) + (When(f.pages, ", pp. " + f.pages)
        + (When(f.year, ", " + f.year) + ".")))))))))
      + DoiClause(Ieee, f.doi)
    case Video =>
      ", \"" + (f.title + (",\" YouTube" + (When(f.year, ", " + f.year)
        + (". [Online Video]. Available: " + f.videoUrl))))
  }

  // ---------------------------------------------------------------------
  // Properties of the template table
  // ---------------------------------------------------------------------

  /** Every citation except an MLA video opens with its credit. */
  lemma CitationOpensWithCredit(f: Fields, t: SourceType, style: CitationStyle)
    requires !(style == Mla && t == Video)
    ensures Credit(f, t, style) <= FormatManualCitation(f, t, style)
  {
    var c := Credit(f, t, style);
    var r := FormatManualCitation(f, t, style);
    assert r == c + r[|c|..];
  }

  /** An MLA video opens with its quoted title instead. */
  lemma MlaVideoOpensWithTitle(f: Fields)
    ensures "\"" + f.title <= FormatManualCitation(f, Video, Mla)
  {
  }

  /** A video credits its channel whenever there is one: the authors are then
      ignored, and an empty channel is the same as a channel named after the
      authors. */
  lemma VideoCreditsChannel(f: Fields, style: CitationStyle, authors: String)
    ensures f.channelName != [] ==>
      FormatManualCitation(f, Video, style) == FormatManualCitation(f.(authors := authors), Video, style)
    ensures f.channelName == [] ==>
      FormatManualCitation(f, Video, style) == FormatManualCitation(f.(channelName := f.authors), Video, style)
  {
  }

  /** IEEE prints the author string verbatim in front of the rest of the
      entry, except for videos, which credit the channel. */
  lemma IeeeAuthorsVerbatim(f: Fields, t: SourceType)
    requires t != Video
    ensures FormatManualCitation(f, t, Ieee) == f.authors + FormatManualCitation(f.(authors := ""), t, Ieee)
  {
    var f0 := f.(authors := "");
    assert IeeeRest(f0, t) == IeeeRest(f, t);
  }

  /** A Harvard citation always dates itself right after the credit, with
      `n.d.` standing in for a missing year. */
  lemma HarvardAlwaysDated(f: Fields, t: SourceType)
    ensures f.year == [] ==> Credit(f, t, Harvard) + " (n.d.)" <= FormatManualCitation(f, t, Harvard)
    ensures f.year != [] ==> Credit(f, t, Harvard) + (" (" + f.year + ")") <= FormatManualCitation(f, t, Harvard)
  {
    HarvardOpening(f, t);
    if f.year == [] {
      assert HarvardDate(f.year) == " (n.d.)";
    } else {
      assert HarvardDate(f.year) == " (" + f.year + ")";
    }
  }

  lemma HarvardOpening(f: Fields, t: SourceType)
    ensures Credit(f, t, Harvard) + HarvardDate(f.year) <= FormatManualCitation(f, t, Harvard)
  {
    var c := Credit(f, t, Harvard);
    var d := HarvardDate(f.year);
    var rest := HarvardRest(f, t);
    HarvardShape(f, t);
    Assoc2(c, d, rest);
  }

  /** A Harvard citation: the credit, the date, then the rest. */
  lemma HarvardShape(f: Fields, t: SourceType)
    ensures FormatManualCitation(f, t, Harvard) == Credit(f, t, Harvard) + (HarvardDate(f.year) + HarvardRest(f, t))
  {
  }

  /** APA prints ` (year)` right after the credit when the year is given and
      nothing at all in its place otherwise; the rest of the entry does not
      depend on the year. */
  lemma ApaYearInserted(f: Fields, t: SourceType)
    requires f.year != []
    ensures
      var c := Credit(f, t, Apa);
      var r0 := FormatManualCitation(f.(year := ""), t, Apa);
      c <= r0 && FormatManualCitation(f, t, Apa) == c + (" (" + f.year + ")") + r0[|c|..]
  {
    var f0 := f.(year := "");
    var c := Credit(f, t, Apa);
    var rest := ApaRest(f, t);
    var r0 := FormatManualCitation(f0, t, Apa);
    assert r0 == c + rest by {
      CreditOfFields(f0, f, t, Apa);
      ApaRestIgnoresYear(f, t);
      assert When(f0.year, " (" + f0.year + ")") == [];
      assert [] + rest == rest;
    }
    assert r0[|c|..] == rest;
    Assoc3(c, " (" + f.year + ")", rest, []);
    assert rest + [] == rest;
  }

  /** APA after the year does not mention the year. */
  lemma ApaRestIgnoresYear(f: Fields, t: SourceType)
    ensures ApaRest(f.(year := ""), t) == ApaRest(f, t)
  {
  }

  /** The body of a journal article before its DOI clause. */
  function JournalBody(f: Fields, style: CitationStyle): (r: String)
    ensures f.doi == [] ==> r == FormatManualCitation(f, Journal, style)
  {
    FormatManualCitation(f.(doi := ""), Journal, style)
  }

  /** A journal article's DOI is appended at the very end, after the style's
      own prefix, and only when it is given. */
  lemma JournalDoiLast(f: Fields, style: CitationStyle)
    ensures f.doi == [] ==> FormatManualCitation(f, Journal, style) == JournalBody(f, style)
    ensures f.doi != [] ==>
      FormatManualCitation(f, Journal, style) == JournalBody(f, style) + (DoiPrefix(style) + f.doi)
  {
    JournalDoiClause(f, style);
  }

  lemma JournalDoiClause(f: Fields, style: CitationStyle)
    ensures FormatManualCitation(f, Journal, style) == FormatManualCitation(f.(doi := ""), Journal, style) + DoiClause(style, f.doi)
  {
    match style
    case Apa => JournalDoiApa(f);
    case Mla => JournalDoiMla(f);
    case Chicago => JournalDoiChicago(f);
    case Harvard => JournalDoiHarvard(f);
    case Ieee => JournalDoiIeee(f);
  }

  lemma JournalDoiApa(f: Fields)
    ensures FormatManualCitation(f, Journal, Apa) == FormatManualCitation(f.(doi := ""), Journal, Apa) + DoiClause(Apa, f.doi)
  {
    var f0 := f.(doi := "");
    var d := DoiClause(Apa, f.doi);
    var c := Credit(f, Journal, Apa);
    var y := When(f.year, " (" + f.year + ")");
    var b := ApaRest(f0, Journal);
    assert FormatManualCitation(f0, Journal, Apa) == c + (y + b) by {
      CreditOfFields(f0, f, Journal, Apa);
    }
    assert FormatManualCitation(f, Journal, Apa) == c + (y + (b + d)) by {
      ApaRestDoi(f);
    }
    Assoc3(c, y, b, d);
  }

  lemma ApaRestDoi(f: Fields)
    ensures ApaRest(f, Journal) == ApaRest(f.(doi := ""), Journal) + DoiClause(Apa, f.doi)
  {
    var b := ApaRest(f.(doi := ""), Journal);
    assert DoiClause(Apa, "") == [];
    assert b + [] == b;
  }

  lemma HarvardRestDoi(f: Fields)
    ensures HarvardRest(f, Journal) == HarvardRest(f.(doi := ""), Journal) + DoiClause(Harvard, f.doi)
  {
    var b := HarvardRest(f.(doi := ""), Journal);
    assert DoiClause(Harvard, "") == [];
    assert b + [] == b;
  }

  /** The credit depends on the authors and the channel only. */
  lemma CreditOfFields(f: Fields, g: Fields, t: SourceType, style: CitationStyle)
    requires f.authors == g.authors && f.channelName == g.channelName
    ensures Credit(f, t, style) == Credit(g, t, style)
  {
  }

  lemma Assoc3(c: String, y: String, b: String, d: String)
    ensures c + (y + (b + d)) == (c + (y + b)) + d
  {
  }

  lemma JournalDoiMla(f: Fields)
    ensures FormatManualCitation(f, Journal, Mla) == FormatManualCitation(f.(doi := ""), Journal, Mla) + DoiClause(Mla, f.doi)
  {
    var f0 := f.(doi := "");
    var d := DoiClause(Mla, f.doi);
    var c := Credit(f, Journal, Mla);
    var b := MlaRest(f0, Journal);
    assert FormatManualCitation(f0, Journal, Mla) == c + b by {
      MlaShape(f0, Journal);
      CreditOfFields(f0, f, Journal, Mla);
    }
    assert FormatManualCitation(f, Journal, Mla) == c + (b + d) by {
      MlaShape(f, Journal);
      MlaRestDoi(f);
    }
    Assoc2(c, b, d);
  }

  lemma MlaRestDoi(f: Fields)
    ensures MlaRest(f, Journal) == MlaRest(f.(doi := ""), Journal) + DoiClause(Mla, f.doi)
  {
    var b := MlaRest(f.(doi := ""), Journal);
    assert DoiClause(Mla, "") == [];
    assert b + [] == b;
  }

  /** An MLA citation other than a video: the credit, then the rest. */
  lemma MlaShape(f: Fields, t: SourceType)
    requires t != Video
    ensures FormatManualCitation(f, t, Mla) == Credit(f, t, Mla) + MlaRest(f, t)
  {
  }

  /** An APA citation: the credit, the optional year, then the rest. */
  lemma ApaShape(f: Fields, t: SourceType)
    ensures FormatManualCitation(f, t, Apa) == Credit(f, t, Apa) + (When(f.year, " (" + f.year + ")") + ApaRest(f, t))
  {
  }

  lemma Assoc2(c: String, b: String, d: String)
    ensures c + (b + d) == (c + b) + d
  {
  }

  lemma JournalDoiChicago(f: Fields)
    ensures FormatManualCitation(f, Journal, Chicago) == FormatManualCitation(f.(doi := ""), Journal, Chicago) + DoiClause(Chicago, f.doi)
  {
    var f0 := f.(doi := "");
    var d := DoiClause(Chicago, f.doi);
    var c := Credit(f, Journal, Chicago);
    var b := ChicagoRest(f0, Journal);
    assert FormatManualCitation(f0, Journal, Chicago) == c + b by {
      CreditOfFields(f0, f, Journal, Chicago);
    }
    assert FormatManualCitation(f, Journal, Chicago) == c + (b + d) by {
      ChicagoRestDoi(f);
    }
    Assoc2(c, b, d);
  }

  lemma ChicagoRestDoi(f: Fields)
    ensures ChicagoRest(f, Journal) == ChicagoRest(f.(doi := ""), Journal) + DoiClause(Chicago, f.doi)
  {
    var b := ChicagoRest(f.(doi := ""), Journal);
    assert DoiClause(Chicago, "") == [];
    assert b + [] == b;
  }


  lemma JournalDoiHarvard(f: Fields)
    ensures FormatManualCitation(f, Journal, Harvard) == FormatManualCitation(f.(doi := ""), Journal, Harvard) + DoiClause(Harvard, f.doi)
  {
    var f0 := f.(doi := "");
    var d := DoiClause(Harvard, f.doi);
    var c := Credit(f, Journal, Harvard);
    var y := HarvardDate(f.year);
    var b := HarvardRest(f0, Journal);
    assert FormatManualCitation(f0, Journal, Harvard) == c + (y + b) by {
      CreditOfFields(f0, f, Journal, Harvard);
    }
    assert FormatManualCitation(f, Journal, Harvard) == c + (y + (b + d)) by {
      HarvardRestDoi(f);
    }
    Assoc3(c, y, b, d);
  }

  lemma JournalDoiIeee(f: Fields)
    ensures FormatManualCitation(f, Journal, Ieee) == FormatManualCitation(f.(doi := ""), Journal, Ieee) + DoiClause(Ieee, f.doi)
  {
    var f0 := f.(doi := "");
    var d := DoiClause(Ieee, f.doi);
    var c := Credit(f, Journal, Ieee);
    var b := IeeeRest(f0, Journal);
    assert FormatManualCitation(f0, Journal, Ieee) == c + b by {
      CreditOfFields(f0, f, Journal, Ieee);
    }
    assert FormatManualCitation(f, Journal, Ieee) == c + (b + d) by {
      IeeeRestDoi(f);
    }
    Assoc2(c, b, d);
  }

  lemma IeeeRestDoi(f: Fields)
    ensures IeeeRest(f, Journal) == IeeeRest(f.(doi := ""), Journal) + DoiClause(Ieee, f.doi)
  {
    var b := IeeeRest(f.(doi := ""), Journal);
    assert DoiClause(Ieee, "") == [];
    assert b + [] == b;
  }


  /** A missing year prints as `n.d.` in every Harvard citation. */
  lemma HarvardUndated(f: Fields, t: SourceType)
    requires f.year == []
    ensures FormatManualCitation(f, t, Harvard) == FormatManualCitation(f.(year := NoDate), t, Harvard)
  {
    var g := f.(year := NoDate);
    assert HarvardDate(g.year) == HarvardDate(f.year);
    assert HarvardRest(g, t) == HarvardRest(f, t);
    CreditOfFields(f, g, t, Harvard);
  }

  /** A missing year prints as `n.d.` in a Chicago journal article. */
  lemma ChicagoJournalUndated(f: Fields)
    requires f.year == []
    ensures FormatManualCitation(f, Journal, Chicago) == FormatManualCitation(f.(year := NoDate), Journal, Chicago)
  {
    var g := f.(year := NoDate);
    assert ChicagoRest(g, Journal) == ChicagoRest(f, Journal);
    CreditOfFields(f, g, Journal, Chicago);
  }

  /** An APA book prints `. publisher` before its closing period exactly when
      the publisher is given. */
  lemma ApaBookPublisher(f: Fields)
    requires f.publisher != []
    ensures
      var r0 := FormatManualCitation(f.(publisher := ""), Book, Apa);
      |r0| > 0 && r0[|r0| - 1] == '.'
      && FormatManualCitation(f, Book, Apa) == r0[..|r0| - 1] + (". " + f.publisher + ".")
  {
    var g := f.(publisher := "");
    var c := Credit(f, Book, Apa);
    var y := When(f.year, " (" + f.year + ")");
    var h := ". *" + (f.title + "*");
    var p := ". " + f.publisher + ".";
    assert ApaRest(g, Book) == h + "." by {
      ApaBookRest(g);
      assert When(g.publisher, ". " + g.publisher) + "." == ".";
    }
    assert ApaRest(f, Book) == h + p by {
      ApaBookRest(f);
    }
    var r0 := FormatManualCitation(g, Book, Apa);
    assert r0 == c + (y + (h + ".")) by {
      ApaShape(g, Book);
      CreditOfFields(g, f, Book, Apa);
    }
    assert FormatManualCitation(f, Book, Apa) == c + (y + (h + p)) by {
      ApaShape(f, Book);
    }
    Assoc3(c, y, h, ".");
    Assoc3(c, y, h, p);
    assert r0[..|r0| - 1] == c + (y + h);
  }

  /** An APA book after the credit and the year: the italic title, then the
      optional publisher and the closing period. */
  lemma ApaBookRest(f: Fields)
    ensures ApaRest(f, Book) == (". *" + (f.title + "*")) + (When(f.publisher, ". " + f.publisher) + ".")
  {
    Assoc3(". *", f.title, "*", When(f.publisher, ". " + f.publisher) + ".");
  }

  /** An APA journal article with no volume, issue, pages or DOI keeps only
      the journal name after the title. */
  lemma ApaJournalMinimal(f: Fields)
    requires f.volume == [] && f.issue == [] && f.pages == [] && f.doi == []
    ensures FormatManualCitation(f, Journal, Apa)
         == Credit(f, Journal, Apa) + (When(f.year, " (" + f.year + ")") + (". " + (f.title + (". *" + (f.journalName + "*.")))))
  {
    assert ApaRest(f, Journal) == ". " + (f.title + (". *" + (f.journalName + "*."))) by {
      assert ("*" + ([] + ([] + ([] + ".")))) + [] == "*.";
    }
  }

  /** MLA and Chicago format books identically. */
  lemma MlaChicagoBooksAgree(f: Fields)
    ensures FormatManualCitation(f, Book, Mla) == FormatManualCitation(f, Book, Chicago)
  {
  }
}
