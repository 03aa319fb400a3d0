/**
 * The BooleanQuery that search builds: one TermQuery clause per query
 * string, and a NumericRangeQuery on "pubdate" when a date bound is given;
 * and what each clause demands of a document.
 */
module Queries {
  import opened Wrappers
  import opened Text
  import opened Documents
  import opened Dates

  /** BooleanClause.Occur, the two kinds search uses. */
  datatype Occur = Must | MustNot

  /** TermQuery(new Term(field, term)), or NumericRangeQuery.newLongRange on "pubdate". */
  datatype Query =
    | TermQuery(field: Field, term: string)
    | RangeQuery(min: Option<int>, max: Option<int>, minInclusive: bool, maxInclusive: bool)

  datatype Clause = Clause(query: Query, occur: Occur)

  /** The clauses one optional term list contributes: none for null, else one per string. */
  function TermClauses(terms: Option<seq<string>>, field: Field, occur: Occur): (r: seq<Clause>)
    ensures |r| == Length(terms)
  {
    match terms
    case None => []
    case Some(xs) => seq(|xs|, k requires 0 <= k < |xs| => Clause(TermQuery(field, xs[k]), occur))
  }

  /** The range clause: present when either bound is, MUST, inclusive at both ends. */
  function DateClauses(start: Option<int>, end: Option<int>): seq<Clause> {
    if start.Some? || end.Some? then [Clause(RangeQuery(start, end, true, true), Must)] else []
  }

  /** All clauses, in the order search adds them. */
  function BuildClauses(inTitle: Option<seq<string>>, notInTitle: Option<seq<string>>,
                        inDescription: Option<seq<string>>, notInDescription: Option<seq<string>>,
                        start: Option<int>, end: Option<int>): (r: seq<Clause>)
    ensures |r| == TermCount(inTitle, notInTitle, inDescription, notInDescription)
                   + (if start.Some? || end.Some? then 1 else 0)
  {
    TermClauses(inTitle, Title, Must) + TermClauses(notInTitle, Title, MustNot)
      + TermClauses(inDescription, Description, Must) + TermClauses(notInDescription, Description, MustNot)
      + DateClauses(start, end)
  }

  /** The number of query strings in the four lists, one term clause each. */
  function TermCount(inTitle: Option<seq<string>>, notInTitle: Option<seq<string>>,
                     inDescription: Option<seq<string>>, notInDescription: Option<seq<string>>): nat {
    Length(inTitle) + Length(notInTitle) + Length(inDescription) + Length(notInDescription)
  }

  /** BooleanQuery.getMaxClauseCount(): Lucene's default limit of clauses in one BooleanQuery. */
  const MaxClauseCount: nat := 1024

  /** bq.add(c): throws TooManyClauses (None) when the query already holds MaxClauseCount clauses. */
  function AddClause(bq: seq<Clause>, c: Clause): (r: Option<seq<Clause>>)
    ensures r.Some? <==> |bq| < MaxClauseCount
    ensures r.Some? ==> r.value == bq + [c]
  {
    if |bq| >= MaxClauseCount then None else Some(bq + [c])
  }

  /**
   * One of the loops of search: bq.add(new TermQuery(...), occur) for each
   * string, or None at the add that overflows the clause limit.
   */
  method AppendTermClauses(bq: seq<Clause>, terms: Option<seq<string>>, field: Field, occur: Occur)
    returns (r: Option<seq<Clause>>)
    requires |bq| <= MaxClauseCount
    ensures r.Some? <==> |bq| + Length(terms) <= MaxClauseCount
    ensures r.Some? ==> r.value == bq + TermClauses(terms, field, occur)
  {
    var cs := bq;
    if terms.Some? {
      var xs := terms.value;
      for i := 0 to |xs|
        invariant |cs| == |bq| + i <= MaxClauseCount
        invariant cs[..|bq|] == bq
        invariant forall k :: 0 <= k < i ==> cs[|bq| + k] == Clause(TermQuery(field, xs[k]), occur)
      {
        var added := AddClause(cs, Clause(TermQuery(field, xs[i]), occur));
        if added.None? {
          return None;
        }
        cs := added.value;
      }
    }
    r := Some(cs);
  }

  /**
   * The four loops of search, in order: the term clauses of all four
   * lists, or None when they are more than the clause limit.
   */
  method AddAllTermClauses(inTitle: Option<seq<string>>, notInTitle: Option<seq<string>>,
                           inDescription: Option<seq<string>>, notInDescription: Option<seq<string>>)
    returns (r: Option<seq<Clause>>)
    ensures r.Some? <==> TermCount(inTitle, notInTitle, inDescription, notInDescription) <= MaxClauseCount
    ensures r.Some? ==>
      r.value == TermClauses(inTitle, Title, Must) + TermClauses(notInTitle, Title, MustNot)
                 + TermClauses(inDescription, Description, Must) + TermClauses(notInDescription, Description, MustNot)
  {
    ghost var ta, tb := TermClauses(inTitle, Title, Must), TermClauses(notInTitle, Title, MustNot);
    ghost var tc, td := TermClauses(inDescription, Description, Must), TermClauses(notInDescription, Description, MustNot);
    var a := AppendTermClauses([], inTitle, Title, Must);
    if a.None? { return None; }
    assert a.value == ta by { assert [] + ta == ta; }
    var b := AppendTermClauses(a.value, notInTitle, Title, MustNot);
    if b.None? { return None; }
    assert b.value == ta + tb && |b.value| == Length(inTitle) + Length(notInTitle);
    var c := AppendTermClauses(b.value, inDescription, Description, Must);
    if c.None? { return None; }
    assert c.value == ta + tb + tc && |c.value| == Length(inTitle) + Length(notInTitle) + Length(inDescription);
    r := AppendTermClauses(c.value, notInDescription, Description, MustNot);
  }

  /** Whether a timestamp lies within a range clause's bounds; a missing bound is open. */
  predicate InRange(t: int, min: Option<int>, max: Option<int>, minInclusive: bool, maxInclusive: bool) {
    && (min.None? || (if minInclusive then min.value <= t else min.value < t))
    && (max.None? || (if maxInclusive then t <= max.value else t < max.value))
  }

  /** Whether document `d` matches the query of a clause. */
  predicate Holds(d: RssDoc, q: Query) {
    match q
    case TermQuery(f, t) => t in FieldTerms(d, f)
    case RangeQuery(lo, hi, li, hi') => InRange(d.pubDate, lo, hi, li, hi')
  }

  /** Whether `d` satisfies one clause: MUST is "matches", MUST_NOT "does not match". */
  predicate Admits(d: RssDoc, c: Clause) {
    if c.occur == Must then Holds(d, c.query) else !Holds(d, c.query)
  }

  predicate HasMust(clauses: seq<Clause>) {
    exists k :: 0 <= k < |clauses| && clauses[k].occur == Must
  }

  /**
   * Whether a BooleanQuery of these clauses matches `d`: all clauses admit
   * it, and there is at least one MUST clause (a BooleanQuery with only
   * MUST_NOT clauses, or with none, matches no document).
   */
  predicate Accepts(d: RssDoc, clauses: seq<Clause>) {
    HasMust(clauses) && AdmitsAll(d, clauses)
  }

  predicate AdmitsAll(d: RssDoc, clauses: seq<Clause>) {
    forall k :: 0 <= k < |clauses| ==> Admits(d, clauses[k])
  }

  function Length(terms: Option<seq<string>>): nat {
    if terms.Some? then |terms.value| else 0
  }

  predicate Lists(terms: Option<seq<string>>, t: string) {
    terms.Some? && t in terms.value
  }

  /** Whether every string of the optional list is a term of `ts` (a null list asks nothing). */
  predicate AllIn(terms: Option<seq<string>>, ts: seq<string>) {
    terms.None? || forall t :: t in terms.value ==> t in ts
  }

  /** Whether no string of the optional list is a term of `ts`. */
  predicate NoneIn(terms: Option<seq<string>>, ts: seq<string>) {
    terms.None? || forall t :: t in terms.value ==> t !in ts
  }

  /**
   * Clause building: one clause per query string plus one for the dates;
   * a term clause on field f with occur o is there exactly when its string
   * is in the list for (f, o); the range clause is there exactly when a
   * bound is given, and is MUST and inclusive at both ends.
   */
  lemma ClauseLayout(inTitle: Option<seq<string>>, notInTitle: Option<seq<string>>,
                      inDescription: Option<seq<string>>, notInDescription: Option<seq<string>>,
                      start: Option<int>, end: Option<int>)
    ensures var cs := BuildClauses(inTitle, notInTitle, inDescription, notInDescription, start, end);
      |cs| == Length(inTitle) + Length(notInTitle) + Length(inDescription) + Length(notInDescription)
              + (if start.Some? || end.Some? then 1 else 0)
    ensures var cs := BuildClauses(inTitle, notInTitle, inDescription, notInDescription, start, end);
      forall t ::
        && (Clause(TermQuery(Title, t), Must) in cs <==> Lists(inTitle, t))
        && (Clause(TermQuery(Title, t), MustNot) in cs <==> Lists(notInTitle, t))
        && (Clause(TermQuery(Description, t), Must) in cs <==> Lists(inDescription, t))
        && (Clause(TermQuery(Description, t), MustNot) in cs <==> Lists(notInDescription, t))
    ensures var cs := BuildClauses(inTitle, notInTitle, inDescription, notInDescription, start, end);
      forall k :: 0 <= k < |cs| && cs[k].query.RangeQuery? ==> cs[k] == Clause(RangeQuery(start, end, true, true), Must)
    ensures var cs := BuildClauses(inTitle, notInTitle, inDescription, notInDescription, start, end);
      (exists k :: 0 <= k < |cs| && cs[k].query.RangeQuery?) <==> start.Some? || end.Some?
  {
    ClauseTerms(inTitle, notInTitle, inDescription, notInDescription, start, end);
    ClauseRange(inTitle, notInTitle, inDescription, notInDescription, start, end);
  }

  /** Each term clause comes from the list for its field and occur. */
  lemma ClauseTerms(inTitle: Option<seq<string>>, notInTitle: Option<seq<string>>,
                    inDescription: Option<seq<string>>, notInDescription: Option<seq<string>>,
                    start: Option<int>, end: Option<int>)
    ensures var cs := BuildClauses(inTitle, notInTitle, inDescription, notInDescription, start, end);
      forall t ::
        && (Clause(TermQuery(Title, t), Must) in cs <==> Lists(inTitle, t))
        && (Clause(TermQuery(Title, t), MustNot) in cs <==> Lists(notInTitle, t))
        && (Clause(TermQuery(Description, t), Must) in cs <==> Lists(inDescription, t))
        && (Clause(TermQuery(Description, t), MustNot) in cs <==> Lists(notInDescription, t))
  {
    forall t
      ensures var cs := BuildClauses(inTitle, notInTitle, inDescription, notInDescription, start, end);
        && (Clause(TermQuery(Title, t), Must) in cs <==> Lists(inTitle, t))
        && (Clause(TermQuery(Title, t), MustNot) in cs <==> Lists(notInTitle, t))
        && (Clause(TermQuery(Description, t), Must) in cs <==> Lists(inDescription, t))
        && (Clause(TermQuery(Description, t), MustNot) in cs <==> Lists(notInDescription, t))
    {
      TermClausesMembership(inTitle, Title, Must, t);
      TermClausesMembership(notInTitle, Title, MustNot, t);
      TermClausesMembership(inDescription, Description, Must, t);
      TermClausesMembership(notInDescription, Description, MustNot, t);
    }
  }

  /** Whether every clause is a term clause. */
  predicate TermsOnly(cs: seq<Clause>) {
    forall k :: 0 <= k < |cs| ==> cs[k].query.TermQuery?
  }

  lemma TermsOnlyConcat(a: seq<Clause>, b: seq<Clause>)
    requires TermsOnly(a) && TermsOnly(b)
    ensures TermsOnly(a + b)
  {
    forall k | 0 <= k < |a + b| ensures (a + b)[k].query.TermQuery? {
      if k < |a| { assert (a + b)[k] == a[k]; } else { assert (a + b)[k] == b[k - |a|]; }
    }
  }

  /** The only range clause is the last, there exactly when a bound is given. */
  lemma ClauseRange(inTitle: Option<seq<string>>, notInTitle: Option<seq<string>>,
                    inDescription: Option<seq<string>>, notInDescription: Option<seq<string>>,
                    start: Option<int>, end: Option<int>)
    ensures var cs := BuildClauses(inTitle, notInTitle, inDescription, notInDescription, start, end);
      forall k :: 0 <= k < |cs| && cs[k].query.RangeQuery? ==> cs[k] == Clause(RangeQuery(start, end, true, true), Must)
    ensures var cs := BuildClauses(inTitle, notInTitle, inDescription, notInDescription, start, end);
      (exists k :: 0 <= k < |cs| && cs[k].query.RangeQuery?) <==> start.Some? || end.Some?
  {
    var a := TermClauses(inTitle, Title, Must);
    var b := TermClauses(notInTitle, Title, MustNot);
    var c := TermClauses(inDescription, Description, Must);
    var d := TermClauses(notInDescription, Description, MustNot);
    var e := DateClauses(start, end);
    assert TermsOnly(a) && TermsOnly(b) && TermsOnly(c) && TermsOnly(d);
    TermsOnlyConcat(a, b);
    TermsOnlyConcat(a + b, c);
    TermsOnlyConcat(a + b + c, d);
    var p := a + b + c + d;
    var cs := BuildClauses(inTitle, notInTitle, inDescription, notInDescription, start, end);
    assert cs == p + e;
    RangeAfterTerms(p, e);
    if start.Some? || end.Some? {
      assert e[0].query.RangeQuery?;
    }
  }

  /** After term clauses only, every range clause comes from the tail. */
  lemma RangeAfterTerms(p: seq<Clause>, e: seq<Clause>)
    requires TermsOnly(p)
    ensures forall k :: 0 <= k < |p + e| && (p + e)[k].query.RangeQuery? ==> k >= |p| && (p + e)[k] == e[k - |p|]
    ensures forall k :: 0 <= k < |e| ==> (p + e)[|p| + k] == e[k]
  {
    assert forall k :: 0 <= k < |p| ==> (p + e)[k] == p[k];
  }

  /** A clause of a term list mentions its own field, occur and one of its strings. */
  lemma TermClausesMembership(terms: Option<seq<string>>, field: Field, occur: Occur, t: string)
    ensures forall f, o :: Clause(TermQuery(f, t), o) in TermClauses(terms, field, occur)
                           <==> f == field && o == occur && Lists(terms, t)
  {
    if terms.Some? {
      var xs := terms.value;
      if t in xs {
        var k :| 0 <= k < |xs| && xs[k] == t;
        assert TermClauses(terms, field, occur)[k] == Clause(TermQuery(field, t), occur);
      }
    }
  }

  lemma AdmitsAllConcat(d: RssDoc, a: seq<Clause>, b: seq<Clause>)
    ensures AdmitsAll(d, a + b) <==> AdmitsAll(d, a) && AdmitsAll(d, b)
  {
    if AdmitsAll(d, a) && AdmitsAll(d, b) {
      forall k | 0 <= k < |a + b| ensures Admits(d, (a + b)[k]) {
        if k >= |a| { assert (a + b)[k] == b[k - |a|]; } else { assert (a + b)[k] == a[k]; }
      }
    }
    if AdmitsAll(d, a + b) {
      forall k | 0 <= k < |a| ensures Admits(d, a[k]) { assert (a + b)[k] == a[k]; }
      forall k | 0 <= k < |b| ensures Admits(d, b[k]) { assert (a + b)[|a| + k] == b[k]; }
    }
  }

  lemma HasMustConcat(a: seq<Clause>, b: seq<Clause>)
    ensures HasMust(a + b) <==> HasMust(a) || HasMust(b)
  {
    if HasMust(a) {
      var k :| 0 <= k < |a| && a[k].occur == Must;
      assert (a + b)[k] == a[k];
    }
    if HasMust(b) {
      var k :| 0 <= k < |b| && b[k].occur == Must;
      assert (a + b)[|a| + k] == b[k];
    }
    if HasMust(a + b) {
      var k :| 0 <= k < |a + b| && (a + b)[k].occur == Must;
      if k >= |a| { assert (a + b)[k] == b[k - |a|]; } else { assert (a + b)[k] == a[k]; }
    }
  }

  lemma DateClausesSemantics(d: RssDoc, start: Option<int>, end: Option<int>)
    ensures AdmitsAll(d, DateClauses(start, end)) <==> InRange(d.pubDate, start, end, true, true)
    ensures HasMust(DateClauses(start, end)) <==> start.Some? || end.Some?
  {
    var r := DateClauses(start, end);
    if start.Some? || end.Some? {
      assert r[0].occur == Must;
      assert AdmitsAll(d, r) <==> Admits(d, r[0]);
    }
  }

  /** The clauses of a MUST list admit exactly the documents holding all its strings. */
  lemma RequiredClauses(d: RssDoc, terms: Option<seq<string>>, f: Field)
    ensures AdmitsAll(d, TermClauses(terms, f, Must)) <==> AllIn(terms, FieldTerms(d, f))
    ensures HasMust(TermClauses(terms, f, Must)) <==> Length(terms) > 0
  {
    var cs := TermClauses(terms, f, Must);
    if terms.Some? {
      var xs := terms.value;
      if AdmitsAll(d, cs) {
        forall t | t in xs ensures t in FieldTerms(d, f) {
          var k :| 0 <= k < |xs| && xs[k] == t;
          assert Admits(d, cs[k]);
        }
      }
      if |xs| > 0 { assert cs[0].occur == Must; }
    }
  }

  /** The clauses of a MUST_NOT list admit exactly the documents holding none of its strings. */
  lemma ForbiddenClauses(d: RssDoc, terms: Option<seq<string>>, f: Field)
    ensures AdmitsAll(d, TermClauses(terms, f, MustNot)) <==> NoneIn(terms, FieldTerms(d, f))
    ensures !HasMust(TermClauses(terms, f, MustNot))
  {
    var cs := TermClauses(terms, f, MustNot);
    if terms.Some? {
      var xs := terms.value;
      if AdmitsAll(d, cs) {
        forall t | t in xs ensures t !in FieldTerms(d, f) {
          var k :| 0 <= k < |xs| && xs[k] == t;
          assert Admits(d, cs[k]);
        }
      }
    }
  }

  /**
   * Matching semantics: the query search builds matches a document exactly
   * when it holds every required string and no forbidden string, each in
   * its own field, its date lies in the (inclusive, possibly open) range,
   * and at least one required string or a date bound was given.
   */
  lemma QuerySemantics(d: RssDoc, inTitle: Option<seq<string>>, notInTitle: Option<seq<string>>,
                       inDescription: Option<seq<string>>, notInDescription: Option<seq<string>>,
                       start: Option<int>, end: Option<int>)
    ensures Accepts(d, BuildClauses(inTitle, notInTitle, inDescription, notInDescription, start, end))
      <==> && (Length(inTitle) > 0 || Length(inDescription) > 0 || start.Some? || end.Some?)
           && AllIn(inTitle, FieldTerms(d, Title))
           && NoneIn(notInTitle, FieldTerms(d, Title))
           && AllIn(inDescription, FieldTerms(d, Description))
           && NoneIn(notInDescription, FieldTerms(d, Description))
           && InRange(d.pubDate, start, end, true, true)
  {
    var a := TermClauses(inTitle, Title, Must);
    var b := TermClauses(notInTitle, Title, MustNot);
    var c := TermClauses(inDescription, Description, Must);
    var e := TermClauses(notInDescription, Description, MustNot);
    var r := DateClauses(start, end);
    var cs := BuildClauses(inTitle, notInTitle, inDescription, notInDescription, start, end);
    assert cs == a + b + c + e + r;
    RequiredClauses(d, inTitle, Title);
    ForbiddenClauses(d, notInTitle, Title);
    RequiredClauses(d, inDescription, Description);
    ForbiddenClauses(d, notInDescription, Description);
    DateClausesSemantics(d, start, end);
    AdmitsAllConcat(d, a, b);
    AdmitsAllConcat(d, a + b, c);
    AdmitsAllConcat(d, a + b + c, e);
    AdmitsAllConcat(d, a + b + c + e, r);
    HasMustConcat(a, b);
    HasMustConcat(a + b, c);
    HasMustConcat(a + b + c, e);
    HasMustConcat(a + b + c + e, r);
  }

  /** Query strings are looked up as they are: one that is not an analysed term matches nothing. */
  lemma QueryTermsNotAnalysed(d: RssDoc, f: Field, t: string)
    requires !IsTerm(t)
    ensures !Holds(d, TermQuery(f, t))
  {
  }

  /** Title and description terms are separate: a title clause looks at the title only. */
  lemma FieldsAreSeparate(d: RssDoc, other: string, t: string)
    ensures Holds(d, TermQuery(Title, t)) == Holds(d.(description := other), TermQuery(Title, t))
    ensures Holds(d, TermQuery(Description, t)) == Holds(d.(title := other), TermQuery(Description, t))
  {
  }

  /**
   * startDate = endDate = D: the range runs from midnight of D to midnight
   * of the next day, both included, so it holds every document of day D
   * and also one stamped exactly at the following midnight.
   */
  lemma WholeDayRange(s: string, t: int)
    requires ParseDate(s).Ok? && ParseDate(s).value.day < IntMax
    ensures StringToTime(s, false).Ok? && StringToTime(s, true).Ok?
    ensures var lo := StringToTime(s, false).value;
      InRange(t, Some(lo), Some(StringToTime(s, true).value), true, true) <==> lo <= t <= lo + MillisPerDay
  {
    EndBoundIsNextMidnight(s);
  }

  /** Every MUST clause's query matches `d`. */
  predicate AllMustHold(d: RssDoc, clauses: seq<Clause>) {
    forall k :: 0 <= k < |clauses| && clauses[k].occur == Must ==> Holds(d, clauses[k].query)
  }

  /** Some MUST_NOT clause's query matches `d`. */
  predicate SomeMustNotHolds(d: RssDoc, clauses: seq<Clause>) {
    exists k :: 0 <= k < |clauses| && clauses[k].occur == MustNot && Holds(d, clauses[k].query)
  }

  lemma ClauseKinds(d: RssDoc, clauses: seq<Clause>)
    ensures Accepts(d, clauses) <==> HasMust(clauses) && AllMustHold(d, clauses) && !SomeMustNotHolds(d, clauses)
    ensures clauses != [] ==>
      (AllMustHold(d, clauses) <==> (clauses[0].occur == Must ==> Holds(d, clauses[0].query)) && AllMustHold(d, clauses[1..]))
    ensures clauses != [] ==>
      (SomeMustNotHolds(d, clauses) <==> (clauses[0].occur == MustNot && Holds(d, clauses[0].query)) || SomeMustNotHolds(d, clauses[1..]))
  {
    if clauses != [] {
      var tail := clauses[1..];
      assert forall k :: 0 <= k < |tail| ==> tail[k] == clauses[k + 1];
      if AllMustHold(d, tail) && (clauses[0].occur == Must ==> Holds(d, clauses[0].query)) {
        forall k | 0 <= k < |clauses| && clauses[k].occur == Must ensures Holds(d, clauses[k].query) {
          if k > 0 { assert clauses[k] == tail[k - 1]; }
        }
      }
      if SomeMustNotHolds(d, clauses) {
        var k :| 0 <= k < |clauses| && clauses[k].occur == MustNot && Holds(d, clauses[k].query);
        if k > 0 { assert clauses[k] == tail[k - 1]; }
      }
    }
  }
}
