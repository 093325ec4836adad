/** The citation generator's list of generated citations: appending a
    manually formatted citation behind the required-field guard, and removing
    citations by id. */
module CitationList {
  import opened JsString
  import opened Wrappers
  import opened CitationFormat

  /** A generated citation: its id, the source type and form fields it was
      made from, and the formatted text under the style it was made in. */
  datatype Citation = Citation(
    id: String,
    sourceType: SourceType,
    fields: Fields,
    formatted: map<CitationStyle, String>)

  /** The error shown when a required field is missing. */
  const MissingFields: String := "Please fill in at least the title and author(s)"

  /** `handleGenerateCitation` on the manual path: refuse a draft without a
      title or without authors; otherwise format the draft in the current
      style and append it under the given fresh id. */
  function Generate(list: seq<Citation>, draft: Fields, t: SourceType, style: CitationStyle, id: String)
    : (r: Result<seq<Citation>>)
    ensures r.Failure? <==> draft.title == [] || draft.authors == []
    ensures r.Failure? ==> r.error == MissingFields
    ensures r.Success? ==> |r.value| == |list| + 1 && r.value[..|list|] == list
    ensures r.Success? ==>
      var c := r.value[|list|];
      && c.id == id && c.sourceType == t && c.fields == draft
      && c.formatted.Keys == {style}
      && c.formatted[style] == FormatManualCitation(draft, t, style)
  {
    if draft.title == [] || draft.authors == [] then Failure(MissingFields)
    else Success(list + [Citation(id, t, draft, map[style := FormatManualCitation(draft, t, style)])])
  }

  /** How many citations of `list` carry `id`. */
  function Carrying(list: seq<Citation>, id: String): nat {
    if |list| == 0 then 0
    else (if list[0].id == id then 1 else 0) + Carrying(list[1..], id)
  }

  /** `handleDeleteCitation`: keep, in order, every citation whose id differs. */
  function Delete(list: seq<Citation>, id: String): (r: seq<Citation>)
    ensures forall k :: 0 <= k < |r| ==> r[k] in list && r[k].id != id
    ensures forall k :: 0 <= k < |list| && list[k].id != id ==> list[k] in r
    ensures |r| + Carrying(list, id) == |list|
  {
    if |list| == 0 then []
    else if list[0].id == id then Delete(list[1..], id)
    else [list[0]] + Delete(list[1..], id)
  }

  /** Deleting from a concatenation deletes from both parts, so the kept
      citations stay in their original order. */
  lemma {:induction false} DeleteAppend(a: seq<Citation>, b: seq<Citation>, id: String)
    ensures Delete(a + b, id) == Delete(a, id) + Delete(b, id)
  {
    if |a| == 0 {
      assert a + b == b;
    } else {
      DeleteAppend(a[1..], b, id);
      DeleteAppendStep(a, b, id);
    }
  }

  /** The step of `DeleteAppend`: the claim for `a` follows from the claim for its tail. */
  lemma DeleteAppendStep(a: seq<Citation>, b: seq<Citation>, id: String)
    requires |a| > 0
    requires Delete(a[1..] + b, id) == Delete(a[1..], id) + Delete(b, id)
    ensures Delete(a + b, id) == Delete(a, id) + Delete(b, id)
  {
    var h := if a[0].id == id then [] else [a[0]];
    Assoc(h, Delete(a[1..], id), Delete(b, id));
    DeleteHeadOfAppend(a, b, id);
    DeleteStep(a, id);
  }

  /** Deleting from `a + b` starts the way deleting from `a` does. */
  lemma DeleteHeadOfAppend(a: seq<Citation>, b: seq<Citation>, id: String)
    requires |a| > 0
    ensures Delete(a + b, id) == (if a[0].id == id then [] else [a[0]]) + Delete(a[1..] + b, id)
  {
    assert (a + b)[0] == a[0];
    assert (a + b)[1..] == a[1..] + b;
    DeleteStep(a + b, id);
  }

  lemma Assoc<T>(h: seq<T>, x: seq<T>, y: seq<T>)
    ensures h + (x + y) == (h + x) + y
  {
  }

  /** One step of `Delete`: the head is kept unless it carries the id. */
  lemma DeleteStep(list: seq<Citation>, id: String)
    requires |list| > 0
    ensures Delete(list, id) == (if list[0].id == id then [] else [list[0]]) + Delete(list[1..], id)
  {
  }

  /** One citation is removed exactly when it carries the id. */
  lemma DeleteOne(c: Citation, id: String)
    ensures Delete([c], id) == if c.id == id then [] else [c]
  {
    assert [c][1..] == [];
  }

  /** A list with no citation carrying the id is left unchanged. */
  lemma {:induction false} DeleteAbsent(list: seq<Citation>, id: String)
    requires forall k :: 0 <= k < |list| ==> list[k].id != id
    ensures Delete(list, id) == list
  {
    if |list| > 0 {
      DeleteAbsent(list[1..], id);
      assert list == [list[0]] + list[1..];
    }
  }

  /** Deleting twice is deleting once. */
  lemma DeleteIdempotent(list: seq<Citation>, id: String)
    ensures Delete(Delete(list, id), id) == Delete(list, id)
  {
    var r := Delete(list, id);
    assert forall k :: 0 <= k < |r| ==> r[k] in r;
    DeleteAbsent(r, id);
  }

  /** Deleting a freshly generated citation by its id restores the list. */
  lemma GenerateThenDelete(list: seq<Citation>, draft: Fields, t: SourceType, style: CitationStyle, id: String)
    requires forall k :: 0 <= k < |list| ==> list[k].id != id
    requires Generate(list, draft, t, style, id).Success?
    ensures Delete(Generate(list, draft, t, style, id).value, id) == list
  {
    var c := Citation(id, t, draft, map[style := FormatManualCitation(draft, t, style)]);
    DeleteAppend(list, [c], id);
    DeleteAbsent(list, id);
    DeleteOne(c, id);
    assert list + [] == list;
  }
}
