/** `ResourceManager.search_notes`: a case-insensitive filter over the
    cached notes, matching the query against content, description and tags. */
module Search {
  import opened Wrappers
  import opened Text
  import opened NoteFormat
  import opened Store

  /** The fields searched when the caller names none (`search_in or [...]`). */
  const DefaultFields: seq<string> := ["content", "tags", "description"]

  function SearchFields(searchIn: Option<seq<string>>): seq<string> {
    match searchIn
    case None => DefaultFields
    case Some(fields) => if |fields| == 0 then DefaultFields else fields
  }

  /** The tag-query terms for the lowered query `q`: when tags are searched
      and `q` holds a comma, its comma-separated pieces, each stripped;
      otherwise `q` alone. Whenever tags are searched, no term holds a comma. */
  function QueryTerms(q: string, fields: seq<string>): (terms: seq<string>)
    ensures |terms| >= 1
    ensures !("tags" in fields && ',' in q) ==> terms == [q]
    ensures "tags" in fields && ',' in q ==>
              && |terms| == |Split(q, ',')| >= 2
              && forall i :: 0 <= i < |terms| ==> terms[i] == Strip(Split(q, ',')[i])
    ensures "tags" in fields ==> forall i :: 0 <= i < |terms| ==> ',' !in terms[i]
  {
    if "tags" in fields && ',' in q then
      var pieces := Split(q, ',');
      assert forall i, k :: 0 <= i < |pieces| && 0 <= k < |Strip(pieces[i])| ==> Strip(pieces[i])[k] != ',';
      seq(|pieces|, i requires 0 <= i < |pieces| => Strip(pieces[i]))
    else
      [q]
  }

  // ---------------------------------------------------------------------
  // Reference definition
  // ---------------------------------------------------------------------

  /** Some tag of the note, lowered, contains `term`. */
  ghost predicate TagHit(term: string, tags: seq<string>) {
    exists t :: t in tags && Occurs(term, Lower(t))
  }

  /** When a note belongs in the search result: the lowered query occurs in
      its lowered content, or in its non-empty lowered description, or the
      note has tags and every term (with `matchAllTags`) or some term
      (without it) occurs in one of its lowered tags; each only when the
      field is searched. */
  ghost predicate Matches(n: Note, query: string, searchIn: Option<seq<string>>, matchAllTags: bool) {
    var q := Lower(query);
    var fields := SearchFields(searchIn);
    var terms := QueryTerms(q, fields);
    || ("content" in fields && Occurs(q, Lower(n.content)))
    || ("description" in fields && n.description.Some? && n.description.value != ""
        && Occurs(q, Lower(n.description.value)))
    || ("tags" in fields && |n.tags| > 0
        && if matchAllTags then (forall term :: term in terms ==> TagHit(term, n.tags))
           else (exists term :: term in terms && TagHit(term, n.tags)))
  }

  // ---------------------------------------------------------------------
  // The scan itself
  // ---------------------------------------------------------------------

  /** `any(term in t.lower() for t in tags)` */
  function AnyTagContains(tags: seq<string>, term: string): (b: bool)
    ensures b <==> TagHit(term, tags)
    decreases |tags|
  {
    if |tags| == 0 then
      false
    else
      var b := Contains(Lower(tags[0]), term) || AnyTagContains(tags[1..], term);
      assert forall t :: t in tags <==> t == tags[0] || t in tags[1..];
      b
  }

  /** `all(any(term in t.lower() for t in tags) for term in terms)` */
  function AllTermsHit(terms: seq<string>, tags: seq<string>): (b: bool)
    ensures b <==> forall term :: term in terms ==> TagHit(term, tags)
    decreases |terms|
  {
    if |terms| == 0 then
      true
    else
      var b := AnyTagContains(tags, terms[0]) && AllTermsHit(terms[1..], tags);
      assert forall t :: t in terms <==> t == terms[0] || t in terms[1..];
      b
  }

  /** `any(any(term in t.lower() for t in tags) for term in terms)` */
  function AnyTermHits(terms: seq<string>, tags: seq<string>): (b: bool)
    ensures b <==> exists term :: term in terms && TagHit(term, tags)
    decreases |terms|
  {
    if |terms| == 0 then
      false
    else
      var b := AnyTagContains(tags, terms[0]) || AnyTermHits(terms[1..], tags);
      assert forall t :: t in terms <==> t == terms[0] || t in terms[1..];
      b
  }

  /** The per-note test of the search loop, with the query already lowered
      and the fields and terms already worked out. */
  function NoteMatches(n: Note, q: string, fields: seq<string>, terms: seq<string>, matchAllTags: bool): bool {
    || ("content" in fields && Contains(Lower(n.content), q))
    || ("description" in fields && n.description.Some? && n.description.value != ""
        && Contains(Lower(n.description.value), q))
    || ("tags" in fields && |n.tags| > 0
        && if matchAllTags then AllTermsHit(terms, n.tags) else AnyTermHits(terms, n.tags))
  }

  /** The scan's per-note test decides exactly the reference definition. */
  lemma NoteMatchesCorrect(n: Note, query: string, searchIn: Option<seq<string>>, matchAllTags: bool)
    ensures var q := Lower(query);
            var fields := SearchFields(searchIn);
            NoteMatches(n, q, fields, QueryTerms(q, fields), matchAllTags) <==> Matches(n, query, searchIn, matchAllTags)
  {
  }

  /** `search_notes`: the matching notes, under their own names and unchanged. */
  method SearchNotes(notes: Notes, query: string, searchIn: Option<seq<string>>, matchAllTags: bool)
    returns (results: Notes)
    ensures results.Keys <= notes.Keys
    ensures forall k :: k in results ==> results[k] == notes[k]
    ensures forall k :: k in notes ==> (k in results <==> Matches(notes[k], query, searchIn, matchAllTags))
  {
    var q := Lower(query);
    var fields := SearchFields(searchIn);
    var terms := QueryTerms(q, fields);
    results := map[];
    var pending := notes.Keys;
    while pending != {}
      invariant pending <= notes.Keys
      invariant results.Keys <= notes.Keys - pending
      invariant forall k :: k in results ==> results[k] == notes[k]
      invariant forall k :: k in notes && k !in pending ==>
                  (k in results <==> Matches(notes[k], query, searchIn, matchAllTags))
      decreases pending
    {
      var name :| name in pending;
      NoteMatchesCorrect(notes[name], query, searchIn, matchAllTags);
      if NoteMatches(notes[name], q, fields, terms, matchAllTags) {
        results := results[name := notes[name]];
      }
      pending := pending - {name};
    }
  }

  // ---------------------------------------------------------------------
  // Examples
  // ---------------------------------------------------------------------

  /** Matching ignores case: "alpha" finds a note whose content is
      "The Alpha Protocol" when all fields are searched. */
  lemma ContentMatchIgnoresCase(n: Note)
    requires n.content == "The Alpha Protocol"
    ensures Matches(n, "alpha", None, false)
  {
    assert Lower("alpha") == "alpha";
    assert Lower(n.content) == "the alpha protocol";
    assert OccursAt("alpha", Lower(n.content), 4);
  }

  /** With tags searched and a comma in the query, the terms are the
      stripped pieces, two of them when the query has two pieces. */
  lemma TwoPieceTerms(q: string, fields: seq<string>, first: string, second: string)
    requires "tags" in fields && ',' in q
    requires Split(q, ',') == [first, second]
    ensures QueryTerms(q, fields) == [Strip(first), Strip(second)]
  {
  }

  lemma ExampleQueryLowered()
    ensures Lower("urgent,final") == "urgent,final" && ',' in "urgent,final"
  {
    LowerKeepsLowerCase("urgent,final");
    assert "urgent,final"[6] == ',';
  }

  /** The query `urgent,final` searched over all fields yields the tag terms
      `urgent` and `final`. */
  lemma CommaQueryTerms()
    ensures QueryTerms(Lower("urgent,final"), DefaultFields) == ["urgent", "final"]
  {
    ExampleQueryLowered();
    assert "tags" in DefaultFields;
    ExampleSplit();
    TwoPieceTerms("urgent,final", DefaultFields, "urgent", "final");
    ExampleStrip();
  }

  lemma ExampleSplit()
    ensures Split("urgent,final", ',') == ["urgent", "final"]
  {
    var parts := ["urgent", "final"];
    assert JoinWith(parts[1..], ',') == "final";
    assert JoinWith(parts, ',') == "urgent" + "," + "final";
    assert "urgent" + "," + "final" == "urgent,final";
    SplitJoin(parts, ',');
  }

  lemma ExampleStrip()
    ensures Strip("urgent") == "urgent" && Strip("final") == "final"
  {
    assert LeadingSpaces("urgent") == 0 && TrailingSpaces("urgent") == 0;
    assert LeadingSpaces("final") == 0 && TrailingSpaces("final") == 0;
  }

  lemma FinalIsNoTag(tags: seq<string>)
    requires tags == ["urgent", "draft"]
    ensures !TagHit("final", tags)
  {
    LowerKeepsLowerCase("urgent");
    LowerKeepsLowerCase("draft");
    OccursKeepsChars("final", "urgent");
    OccursKeepsChars("final", "draft");
    assert 'f' in "final";
    assert forall t :: t in tags ==> t == "urgent" || t == "draft";
  }

  /** The terms of `urgent,final` against the tags `urgent` and `draft`:
      with `matchAllTags` the term `final` is missing, so the tags do not
      match; without it `urgent` suffices. */
  lemma TagTermsAllOrAny(n: Note)
    requires n.tags == ["urgent", "draft"]
    ensures !AllTermsHit(["urgent", "final"], n.tags)
    ensures AnyTermHits(["urgent", "final"], n.tags)
  {
    var terms := ["urgent", "final"];
    FinalIsNoTag(n.tags);
    assert "final" in terms;
    assert TagHit("urgent", n.tags) by {
      LowerKeepsLowerCase("urgent");
      assert OccursAt("urgent", "urgent", 0);
      assert "urgent" in n.tags;
    }
    assert "urgent" in terms;
  }

  /** A note tagged `urgent` and `draft`, with empty content and no
      description, is found by `urgent,final` only without `matchAllTags`. */
  lemma TagQueryAllOrAny(n: Note)
    requires n.tags == ["urgent", "draft"] && n.content == "" && n.description == None
    ensures !Matches(n, "urgent,final", None, true)
    ensures Matches(n, "urgent,final", None, false)
  {
    var q := Lower("urgent,final");
    CommaQueryTerms();
    TagTermsAllOrAny(n);
    NoteMatchesCorrect(n, "urgent,final", None, true);
    NoteMatchesCorrect(n, "urgent,final", None, false);
    assert Lower(n.content) == "";
    assert |q| > 0;
    assert !Contains("", q);
  }
}
