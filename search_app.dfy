/**
 * LuceneSearchApp: index() builds a fresh in-memory index from a batch of
 * documents, search() turns its six optional arguments into a BooleanQuery,
 * runs it and returns the stored titles of the hits. The Lucene index is
 * modelled by what it holds: per-field postings (term to the set of
 * document ids whose analysed field contains it), the (pubdate, id) numeric
 * entries, and the stored fields, by id.
 */
module SearchApp {
  import opened Wrappers
  import opened Text
  import opened Documents
  import opened Dates
  import opened Queries
  import opened Hits

  /** One indexed value of the numeric "pubdate" field. */
  datatype NumericEntry = NumericEntry(time: int, id: nat)

  /**
   * Why search throws: index() never ran (so `index` is null), the
   * BooleanQuery got more than MaxClauseCount clauses (TooManyClauses), or
   * a date bound is malformed.
   */
  datatype SearchError = IndexMissing | TooManyClauses | BadDate(error: DateError)

  /** The posting list of `t`; a term nobody contains has the empty one. */
  function Lookup(m: map<string, set<nat>>, t: string): set<nat> {
    if t in m then m[t] else {}
  }

  /** The postings after one document's terms are added under `id`. */
  function AddPostings(m: map<string, set<nat>>, terms: seq<string>, id: nat): (r: map<string, set<nat>>)
    ensures forall t, j :: j in Lookup(r, t) <==> j in Lookup(m, t) || (j == id && t in terms)
    decreases |terms|
  {
    if terms == [] then m
    else AddPostings(m[terms[0] := Lookup(m, terms[0]) + {id}], terms[1..], id)
  }

  /** `start`/`end` of search: null stays null (an open side), else stringToTime of it. */
  function ParseBound(date: Option<string>, isEndDate: bool): (r: Result<Option<int>, DateError>)
    ensures date.None? ==> r == Ok(None)
    ensures date.Some? ==> (r.Ok? <==> StringToTime(date.value, isEndDate).Ok?)
    ensures date.Some? && r.Ok? ==> r.value == Some(StringToTime(date.value, isEndDate).value)
    ensures date.Some? && r.Err? ==> r.error == StringToTime(date.value, isEndDate).error
  {
    match date
    case None => Ok(None)
    case Some(s) =>
      match StringToTime(s, isEndDate)
      case Ok(t) => Ok(Some(t))
      case Err(e) => Err(e)
  }

  /**
   * The clause building of search (the four loops, then the range clause),
   * with its exceptions in the order the source meets them: more term
   * clauses than the limit; a bad start date, then a bad end date; no room
   * left for the range clause.
   */
  method BuildQuery(inTitle: Option<seq<string>>, notInTitle: Option<seq<string>>,
                    inDescription: Option<seq<string>>, notInDescription: Option<seq<string>>,
                    startDate: Option<string>, endDate: Option<string>)
    returns (q: Result<seq<Clause>, SearchError>)
    ensures TermCount(inTitle, notInTitle, inDescription, notInDescription) > MaxClauseCount ==>
      q == Err(TooManyClauses)
    ensures (TermCount(inTitle, notInTitle, inDescription, notInDescription) <= MaxClauseCount
             && ParseBound(startDate, false).Err?) ==> q == Err(BadDate(ParseBound(startDate, false).error))
    ensures (TermCount(inTitle, notInTitle, inDescription, notInDescription) <= MaxClauseCount
             && ParseBound(startDate, false).Ok? && ParseBound(endDate, true).Err?) ==>
      q == Err(BadDate(ParseBound(endDate, true).error))
    ensures (TermCount(inTitle, notInTitle, inDescription, notInDescription) == MaxClauseCount
             && ParseBound(startDate, false).Ok? && ParseBound(endDate, true).Ok? && (startDate.Some? || endDate.Some?)) ==>
      q == Err(TooManyClauses)
    ensures q.Ok? <==> && ParseBound(startDate, false).Ok? && ParseBound(endDate, true).Ok?
                       && TermCount(inTitle, notInTitle, inDescription, notInDescription)
                          + (if startDate.Some? || endDate.Some? then 1 else 0) <= MaxClauseCount
    ensures q.Ok? ==> q.value == BuildClauses(inTitle, notInTitle, inDescription, notInDescription,
                                              ParseBound(startDate, false).value, ParseBound(endDate, true).value)
  {
    var terms := AddAllTermClauses(inTitle, notInTitle, inDescription, notInDescription);
    if terms.None? {
      return Err(TooManyClauses);
    }
    var bq := terms.value;
    var start := ParseBound(startDate, false);
    if start.Err? {
      return Err(BadDate(start.error));
    }
    var end := ParseBound(endDate, true);
    if end.Err? {
      return Err(BadDate(end.error));
    }
    if startDate.Some? || endDate.Some? {
      var added := AddClause(bq, Clause(RangeQuery(start.value, end.value, true, true), Must));
      if added.None? {
        return Err(TooManyClauses);
      }
      bq := added.value;
    }
    q := Ok(bq);
  }

  /** `m` holds, for field `f`, exactly the terms of `docs` (ids are positions). */
  ghost predicate PostingsOf(m: map<string, set<nat>>, docs: seq<RssDoc>, f: Field) {
    forall t, id: nat :: id in Lookup(m, t) <==> id < |docs| && t in FieldTerms(docs[id], f)
  }

  lemma SamePostings(m: map<string, set<nat>>, m': map<string, set<nat>>, docs: seq<RssDoc>, f: Field, t: string)
    requires PostingsOf(m, docs, f) && PostingsOf(m', docs, f)
    ensures Lookup(m, t) == Lookup(m', t)
  {
    forall id: nat ensures id in Lookup(m, t) <==> id in Lookup(m', t) {
      PostingsAt(m, docs, f, t, id);
      PostingsAt(m', docs, f, t, id);
    }
  }

  lemma PostingsAt(m: map<string, set<nat>>, docs: seq<RssDoc>, f: Field, t: string, id: nat)
    requires PostingsOf(m, docs, f)
    ensures id in Lookup(m, t) <==> id < |docs| && t in FieldTerms(docs[id], f)
  {
  }

  lemma PostingsOfEmpty(f: Field)
    ensures PostingsOf(map[], [], f)
  {
    forall t, id: nat ensures id !in Lookup(map[], t) { }
  }

  lemma PostingsAppend(m: map<string, set<nat>>, docs: seq<RssDoc>, doc: RssDoc, f: Field)
    requires PostingsOf(m, docs, f)
    ensures PostingsOf(AddPostings(m, FieldTerms(doc, f), |docs|), docs + [doc], f)
  {
    var docs' := docs + [doc];
    assert forall id :: 0 <= id < |docs| ==> docs'[id] == docs[id];
  }

  class LuceneSearchApp {
    /** Whether index() has run; before it the source's `index` directory is null. */
    var built: bool
    /** The stored fields; a document's id is its position. */
    var stored: seq<RssDoc>
    var titlePostings: map<string, set<nat>>
    var descriptionPostings: map<string, set<nat>>
    var pubDates: seq<NumericEntry>

    /** The postings and numeric entries are exactly those of the stored documents. */
    ghost predicate Valid()
      reads this
    {
      && PostingsOf(titlePostings, stored, Title)
      && PostingsOf(descriptionPostings, stored, Description)
      && |pubDates| == |stored|
      && (forall i :: 0 <= i < |pubDates| ==> pubDates[i] == NumericEntry(stored[i].pubDate, i))
    }

    constructor ()
      ensures Valid() && !built && stored == []
    {
      built := false;
      stored := [];
      titlePostings := map[];
      descriptionPostings := map[];
      pubDates := [];
      PostingsOfEmpty(Title);
      PostingsOfEmpty(Description);
    }

    /** index(docs): a new, empty index, then one document per input, in order. */
    method Index(docs: seq<RssDoc>)
      modifies this
      ensures Valid() && built
      ensures stored == docs
    {
      built := true;
      stored := [];
      titlePostings := map[];
      descriptionPostings := map[];
      pubDates := [];
      PostingsOfEmpty(Title);
      PostingsOfEmpty(Description);
      for i := 0 to |docs|
        invariant Valid() && built
        invariant stored == docs[..i]
      {
        AddDoc(docs[i]);
      }
    }

    /** addDoc: the document gets the next id, its terms and date are indexed and its fields stored. */
    method AddDoc(doc: RssDoc)
      requires Valid()
      modifies this
      ensures Valid() && built == old(built)
      ensures stored == old(stored) + [doc]
      ensures pubDates == old(pubDates) + [NumericEntry(doc.pubDate, |old(stored)|)]
    {
      var id := |stored|;
      PostingsAppend(titlePostings, stored, doc, Title);
      PostingsAppend(descriptionPostings, stored, doc, Description);
      titlePostings := AddPostings(titlePostings, FieldTerms(doc, Title), id);
      descriptionPostings := AddPostings(descriptionPostings, FieldTerms(doc, Description), id);
      pubDates := pubDates + [NumericEntry(doc.pubDate, id)];
      stored := stored + [doc];
    }

    /** Every document id of the current index: one per numeric entry. */
    function Universe(): set<nat>
      reads this
    {
      set e | e in pubDates :: e.id
    }

    lemma UniverseExact()
      requires Valid()
      ensures forall id: nat :: id in Universe() <==> id < |stored|
    {
      forall id: nat | id < |stored| ensures id in Universe() {
        assert pubDates[id] in pubDates;
      }
    }

    /** The documents one clause's query matches, read from the index. */
    function QueryDocs(q: Query): set<nat>
      reads this
    {
      match q
      case TermQuery(Title, t) => Lookup(titlePostings, t)
      case TermQuery(Description, t) => Lookup(descriptionPostings, t)
      case RangeQuery(lo, hi, li, hi') => set e | e in pubDates && InRange(e.time, lo, hi, li, hi') :: e.id
    }

    /** The intersection of the MUST clauses' documents (all documents when there is none). */
    function MustDocs(clauses: seq<Clause>): set<nat>
      reads this
    {
      if clauses == [] then Universe()
      else if clauses[0].occur == Must then QueryDocs(clauses[0].query) * MustDocs(clauses[1..])
      else MustDocs(clauses[1..])
    }

    /** The union of the MUST_NOT clauses' documents. */
    function MustNotDocs(clauses: seq<Clause>): set<nat>
      reads this
    {
      if clauses == [] then {}
      else if clauses[0].occur == MustNot then QueryDocs(clauses[0].query) + MustNotDocs(clauses[1..])
      else MustNotDocs(clauses[1..])
    }

    /** What the BooleanQuery matches: MUST sets intersected, MUST_NOT sets taken away. */
    function Matching(clauses: seq<Clause>): set<nat>
      reads this
    {
      if HasMust(clauses) then MustDocs(clauses) - MustNotDocs(clauses) else {}
    }

    lemma QueryDocsExact(q: Query)
      requires Valid()
      ensures forall id: nat :: id in QueryDocs(q) <==> id < |stored| && Holds(stored[id], q)
    {
      if q.RangeQuery? {
        forall id: nat | id < |stored| && Holds(stored[id], q) ensures id in QueryDocs(q) {
          assert pubDates[id] in pubDates;
        }
      }
    }

    lemma {:induction false} MustDocsExact(clauses: seq<Clause>)
      requires Valid()
      ensures forall id: nat :: id in MustDocs(clauses) <==> id < |stored| && AllMustHold(stored[id], clauses)
    {
      if clauses == [] {
        UniverseExact();
      } else {
        MustDocsExact(clauses[1..]);
        QueryDocsExact(clauses[0].query);
        forall id: nat | id < |stored| { ClauseKinds(stored[id], clauses); }
      }
    }

    lemma {:induction false} MustNotDocsExact(clauses: seq<Clause>)
      requires Valid()
      ensures forall id: nat :: id in MustNotDocs(clauses) <==> id < |stored| && SomeMustNotHolds(stored[id], clauses)
    {
      if clauses != [] {
        MustNotDocsExact(clauses[1..]);
        QueryDocsExact(clauses[0].query);
        forall id: nat | id < |stored| { ClauseKinds(stored[id], clauses); }
      }
    }

    /**
     * The postings-based evaluation agrees with the clause-by-clause
     * meaning: a document is matched exactly when the query accepts it.
     */
    lemma MatchingIsAccepts(clauses: seq<Clause>)
      requires Valid()
      ensures forall id: nat :: id in Matching(clauses) <==> id < |stored| && Accepts(stored[id], clauses)
    {
      MustDocsExact(clauses);
      MustNotDocsExact(clauses);
      forall id: nat | id < |stored| { ClauseKinds(stored[id], clauses); }
    }
  
    /**
     * searcher.search(bq, 100): ascending ids of accepted documents, at most
     * 100 of them, all of them when there are fewer, and no accepted
     * document left out in favour of a larger id.
     */
    function Hits(clauses: seq<Clause>): (r: seq<nat>)
      requires Valid()
      reads this
      ensures |r| <= BigEnoughHitCount
      ensures forall k :: 0 <= k < |r| ==> r[k] < |stored| && Accepts(stored[r[k]], clauses)
      ensures forall i, j :: 0 <= i < j < |r| ==> r[i] < r[j]
      ensures |r| < BigEnoughHitCount ==> forall id: nat :: id < |stored| && Accepts(stored[id], clauses) ==> id in r
      ensures forall id: nat, k :: id < |stored| && Accepts(stored[id], clauses) && id !in r && 0 <= k < |r| ==> r[k] < id
      ensures r == [] <==> forall id: nat :: id < |stored| ==> !Accepts(stored[id], clauses)
    {
      var r := TopHits(Matching(clauses), |stored|, BigEnoughHitCount);
      HitsAccepted(clauses);
      HitsComplete(clauses);
      HitsEmpty(clauses);
      r
    }

    /** The top hits of the postings evaluation are accepted documents. */
    lemma HitsAccepted(clauses: seq<Clause>)
      requires Valid()
      ensures var r := TopHits(Matching(clauses), |stored|, BigEnoughHitCount);
        forall k :: 0 <= k < |r| ==> r[k] < |stored| && Accepts(stored[r[k]], clauses)
    {
      MatchingIsAccepts(clauses);
    }

    /** No accepted document is left out of the top hits while the cap is not reached or for a larger id. */
    lemma HitsComplete(clauses: seq<Clause>)
      requires Valid()
      ensures var r := TopHits(Matching(clauses), |stored|, BigEnoughHitCount);
        && (|r| < BigEnoughHitCount ==> forall id: nat :: id < |stored| && Accepts(stored[id], clauses) ==> id in r)
        && (forall id: nat, k :: id < |stored| && Accepts(stored[id], clauses) && id !in r && 0 <= k < |r| ==> r[k] < id)
    {
      MatchingIsAccepts(clauses);
    }

    /** The top hits are empty exactly when no document is accepted. */
    lemma HitsEmpty(clauses: seq<Clause>)
      requires Valid()
      ensures TopHits(Matching(clauses), |stored|, BigEnoughHitCount) == []
        <==> forall id: nat :: id < |stored| ==> !Accepts(stored[id], clauses)
    {
      MatchingIsAccepts(clauses);
    }

    /**
     * search(inTitle, notInTitle, inDescription, notInDescription, startDate, endDate).
     * Errors in the order the source meets them: no index; more term
     * clauses than the limit; a bad start date, then a bad end date; no
     * room left for the range clause. Otherwise the stored title of each
     * hit of the clauses in source order, in hit order.
     */
    method Search(inTitle: Option<seq<string>>, notInTitle: Option<seq<string>>,
                  inDescription: Option<seq<string>>, notInDescription: Option<seq<string>>,
                  startDate: Option<string>, endDate: Option<string>)
      returns (r: Result<seq<string>, SearchError>)
      requires Valid()
      ensures !built ==> r == Err(IndexMissing)
      ensures built && TermCount(inTitle, notInTitle, inDescription, notInDescription) > MaxClauseCount ==>
        r == Err(TooManyClauses)
      ensures (built && TermCount(inTitle, notInTitle, inDescription, notInDescription) <= MaxClauseCount
               && ParseBound(startDate, false).Err?) ==> r == Err(BadDate(ParseBound(startDate, false).error))
      ensures (built && TermCount(inTitle, notInTitle, inDescription, notInDescription) <= MaxClauseCount
               && ParseBound(startDate, false).Ok? && ParseBound(endDate, true).Err?) ==>
        r == Err(BadDate(ParseBound(endDate, true).error))
      ensures (built && TermCount(inTitle, notInTitle, inDescription, notInDescription) == MaxClauseCount
               && ParseBound(startDate, false).Ok? && ParseBound(endDate, true).Ok? && (startDate.Some? || endDate.Some?)) ==>
        r == Err(TooManyClauses)
      ensures r.Ok? <==> && built && ParseBound(startDate, false).Ok? && ParseBound(endDate, true).Ok?
                         && TermCount(inTitle, notInTitle, inDescription, notInDescription)
                            + (if startDate.Some? || endDate.Some? then 1 else 0) <= MaxClauseCount
      ensures r.Ok? ==> |r.value| <= BigEnoughHitCount
      ensures r.Ok? ==>
        var hits := Hits(BuildClauses(inTitle, notInTitle, inDescription, notInDescription,
                                      ParseBound(startDate, false).value, ParseBound(endDate, true).value));
        |r.value| == |hits| && forall k :: 0 <= k < |hits| ==> r.value[k] == stored[hits[k]].title
    {
      if !built {
        return Err(IndexMissing);
      }
      var bq :- BuildQuery(inTitle, notInTitle, inDescription, notInDescription, startDate, endDate);
      var hits := Hits(bq);
      var results := StoredTitles(hits);
      r := Ok(results);
    }

    /** The loop over the hits: results.add(doc.get("title")) for each, in order. */
    method StoredTitles(hits: seq<nat>) returns (results: seq<string>)
      requires forall k :: 0 <= k < |hits| ==> hits[k] < |stored|
      ensures |results| == |hits|
      ensures forall k :: 0 <= k < |hits| ==> results[k] == stored[hits[k]].title
    {
      results := [];
      for i := 0 to |hits|
        invariant |results| == i
        invariant forall k :: 0 <= k < i ==> results[k] == stored[hits[k]].title
      {
        results := results + [stored[hits[i]].title];
      }
    }

    /**
     * Every returned document holds all required strings and none of the
     * forbidden ones, each in the named field, and lies in the date range.
     */
    lemma HitsSatisfyQuery(inTitle: Option<seq<string>>, notInTitle: Option<seq<string>>,
                           inDescription: Option<seq<string>>, notInDescription: Option<seq<string>>,
                           start: Option<int>, end: Option<int>, k: int)
      requires Valid()
      requires 0 <= k < |Hits(BuildClauses(inTitle, notInTitle, inDescription, notInDescription, start, end))|
      ensures var d := stored[Hits(BuildClauses(inTitle, notInTitle, inDescription, notInDescription, start, end))[k]];
        && AllIn(inTitle, FieldTerms(d, Title))
        && NoneIn(notInTitle, FieldTerms(d, Title))
        && AllIn(inDescription, FieldTerms(d, Description))
        && NoneIn(notInDescription, FieldTerms(d, Description))
        && InRange(d.pubDate, start, end, true, true)
    {
      var d := stored[Hits(BuildClauses(inTitle, notInTitle, inDescription, notInDescription, start, end))[k]];
      QuerySemantics(d, inTitle, notInTitle, inDescription, notInDescription, start, end);
    }

    /**
     * With no required string and no date bound (all lists null or empty,
     * or only forbidden strings) nothing is returned.
     */
    lemma NoRequiredClauseNoHits(inTitle: Option<seq<string>>, notInTitle: Option<seq<string>>,
                                 inDescription: Option<seq<string>>, notInDescription: Option<seq<string>>)
      requires Valid()
      requires Length(inTitle) == 0 && Length(inDescription) == 0
      ensures Hits(BuildClauses(inTitle, notInTitle, inDescription, notInDescription, None, None)) == []
    {
      var hits := Hits(BuildClauses(inTitle, notInTitle, inDescription, notInDescription, None, None));
      if hits != [] {
        QuerySemantics(stored[hits[0]], inTitle, notInTitle, inDescription, notInDescription, None, None);
      }
    }

    /** Every hit holds each required string of the query in that string's field. */
    lemma HitsHoldRequiredTerm(field: Field, t: string, clauses: seq<Clause>)
      requires Valid()
      requires Clause(TermQuery(field, t), Must) in clauses
      ensures forall k :: 0 <= k < |Hits(clauses)| ==> t in FieldTerms(stored[Hits(clauses)[k]], field)
    {
      var hits := Hits(clauses);
      var j :| 0 <= j < |clauses| && clauses[j] == Clause(TermQuery(field, t), Must);
      assert forall k :: 0 <= k < |hits| ==> Admits(stored[hits[k]], clauses[j]);
    }

    /**
     * A required string that no document holds in that field gives no
     * result; so does any string the analyzer cannot produce, such as one
     * with an upper-case letter, since query strings are not analysed.
     */
    lemma AbsentTermNoHits(field: Field, t: string, clauses: seq<Clause>)
      requires Valid()
      requires Clause(TermQuery(field, t), Must) in clauses
      requires !IsTerm(t) || forall id: nat :: id < |stored| ==> t !in FieldTerms(stored[id], field)
      ensures Hits(clauses) == []
    {
      var j :| 0 <= j < |clauses| && clauses[j] == Clause(TermQuery(field, t), Must);
      forall id: nat | id < |stored| ensures !Accepts(stored[id], clauses) {
        TokensAreTerms(FieldText(stored[id], field));
        assert !Admits(stored[id], clauses[j]);
      }
    }
  }

  /**
   * The index is a function of the stored documents: two indexes holding
   * the same documents answer every lookup alike, so a rebuild leaves no
   * trace of the corpus it replaced.
   */
  lemma RebuildReplaces(a: LuceneSearchApp, b: LuceneSearchApp)
    requires a.Valid() && b.Valid() && a.stored == b.stored
    ensures a.pubDates == b.pubDates
    ensures forall t :: Lookup(a.titlePostings, t) == Lookup(b.titlePostings, t)
    ensures forall t :: Lookup(a.descriptionPostings, t) == Lookup(b.descriptionPostings, t)
  {
    assert PostingsOf(a.titlePostings, a.stored, Title) && PostingsOf(b.titlePostings, b.stored, Title);
    assert PostingsOf(a.descriptionPostings, a.stored, Description) && PostingsOf(b.descriptionPostings, b.stored, Description);
    forall t ensures Lookup(a.titlePostings, t) == Lookup(b.titlePostings, t) {
      SamePostings(a.titlePostings, b.titlePostings, a.stored, Title, t);
    }
    forall t ensures Lookup(a.descriptionPostings, t) == Lookup(b.descriptionPostings, t) {
      SamePostings(a.descriptionPostings, b.descriptionPostings, a.stored, Description, t);
    }
    assert forall i :: 0 <= i < |a.pubDates| ==> a.pubDates[i] == b.pubDates[i];
  }
}
