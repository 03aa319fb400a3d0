/**
 * The documents the engine indexes and the analyzer that turns their text
 * into terms. RssFeedDocument is not part of this model; its three getters
 * become the fields of RssDoc. StandardAnalyzer is replaced by a plain
 * stand-in: ASCII letters are lower-cased, every character that is not an
 * ASCII letter or digit ends a term, and empty terms are dropped.
 */
module Documents {

  /** One RssFeedDocument: getTitle(), getDescription(), getPubDate().getTime(). */
  datatype RssDoc = RssDoc(title: string, description: string, pubDate: int)

  /** The two analysed fields; "pubdate" is numeric and queried by range only. */
  datatype Field = Title | Description

  function FieldText(d: RssDoc, f: Field): string {
    match f
    case Title => d.title
    case Description => d.description
  }

  predicate IsTermChar(c: char) {
    ('a' <= c <= 'z') || ('0' <= c <= '9')
  }

  predicate IsWordChar(c: char) {
    IsTermChar(c) || ('A' <= c <= 'Z')
  }

  function Lower(c: char): (l: char)
    requires IsWordChar(c)
    ensures IsTermChar(l)
  {
    if 'A' <= c <= 'Z' then (c as int - 'A' as int + 'a' as int) as char else c
  }

  /** A term the analyzer can produce: non-empty, lower-case letters and digits. */
  predicate IsTerm(t: string) {
    t != [] && forall k :: 0 <= k < |t| ==> IsTermChar(t[k])
  }

  /** The terms of `text`, where `pending` is the term being read when `text` starts. */
  function TermsFrom(text: string, pending: string): (r: seq<string>)
    requires pending == [] || IsTerm(pending)
    ensures forall k :: 0 <= k < |r| ==> IsTerm(r[k])
  {
    if text == [] then
      (if pending == [] then [] else [pending])
    else if IsWordChar(text[0]) then
      TermsFrom(text[1..], pending + [Lower(text[0])])
    else
      (if pending == [] then [] else [pending]) + TermsFrom(text[1..], [])
  }

  /** The analyzer stand-in: the same text always gives the same terms. */
  function Tokenize(text: string): (r: seq<string>)
    ensures forall k :: 0 <= k < |r| ==> IsTerm(r[k])
  {
    TermsFrom(text, [])
  }

  /** The terms a document holds in one field. */
  function FieldTerms(d: RssDoc, f: Field): seq<string> {
    Tokenize(FieldText(d, f))
  }

  lemma {:induction false} TermsFromTerm(t: string, pending: string)
    requires IsTerm(t) && (pending == [] || IsTerm(pending))
    ensures TermsFrom(t, pending) == [pending + t]
    decreases |t|
  {
    assert IsWordChar(t[0]) && Lower(t[0]) == t[0];
    if |t| == 1 {
      assert TermsFrom(t[1..], pending + [t[0]]) == [pending + [t[0]]];
      assert pending + t == pending + [t[0]];
    } else {
      TermsFromTerm(t[1..], pending + [t[0]]);
      assert pending + [t[0]] + t[1..] == pending + t;
    }
  }

  /** Analysis is idempotent: a term, analysed again, is exactly itself. */
  lemma TokenizeTerm(t: string)
    requires IsTerm(t)
    ensures Tokenize(t) == [t]
  {
    TermsFromTerm(t, []);
    assert [] + t == t;
  }

  lemma TokensAreTerms(text: string)
    ensures forall t :: t in Tokenize(text) ==> IsTerm(t)
  {
    var r := Tokenize(text);
    forall t | t in r ensures IsTerm(t) {
      var k :| 0 <= k < |r| && r[k] == t;
    }
  }
}
