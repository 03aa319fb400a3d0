/**
 * printQuery and printResults, returning the text they print: the header
 * line of a search, and the numbered result lines.
 */
module Output {
  import opened Wrappers
  import opened Text
  import opened Sorting

  /** "in title: [kim, korea]" for a present list, in the source's words. */
  function ListPart(caption: string, xs: Option<seq<string>>): Option<string> {
    if xs.Some? then Some(caption + ListToString(xs.value)) else None
  }

  function DatePart(caption: string, date: Option<string>): Option<string> {
    if date.Some? then Some(caption + date.value) else None
  }

  /** A part, as a list of no or one piece: the piece when the part is present. */
  function Present(part: Option<string>): (r: seq<string>)
    ensures |r| <= 1
    ensures r != [] <==> part.Some?
  {
    if part.Some? then [part.value] else []
  }

  /** One part of the header, followed by "; " when `more` says a later part follows. */
  function Segment(part: Option<string>, more: bool): string {
    if part.Some? then part.value + (if more then "; " else "") else ""
  }

  /**
   * printQuery, as written: each present part, followed by "; " exactly
   * when one of the later arguments is non-null, between "Search (" and "):".
   */
  function QueryHeader(inTitle: Option<seq<string>>, notInTitle: Option<seq<string>>,
                       inDescription: Option<seq<string>>, notInDescription: Option<seq<string>>,
                       startDate: Option<string>, endDate: Option<string>): (r: string)
    ensures |r| >= 10 && r[..8] == "Search (" && r[|r| - 2..] == "):"
    ensures (inTitle.None? && notInTitle.None? && inDescription.None? && notInDescription.None?
             && startDate.None? && endDate.None?) ==> r == "Search ():"
  {
    var parts := HeaderParts(inTitle, notInTitle, inDescription, notInDescription, startDate, endDate);
    Framed(parts);
    "Search (" + parts + "):"
  }

  /** The inside of the header: each present part, followed by "; " when a later argument is non-null. */
  function HeaderParts(inTitle: Option<seq<string>>, notInTitle: Option<seq<string>>,
                       inDescription: Option<seq<string>>, notInDescription: Option<seq<string>>,
                       startDate: Option<string>, endDate: Option<string>): string
  {
    Segment(ListPart("in title: ", inTitle),
            notInTitle.Some? || inDescription.Some? || notInDescription.Some? || startDate.Some? || endDate.Some?)
    + Segment(ListPart("not in title: ", notInTitle),
              inDescription.Some? || notInDescription.Some? || startDate.Some? || endDate.Some?)
    + Segment(ListPart("in description: ", inDescription),
              notInDescription.Some? || startDate.Some? || endDate.Some?)
    + Segment(ListPart("not in description: ", notInDescription), startDate.Some? || endDate.Some?)
    + Segment(DatePart("startDate: ", startDate), endDate.Some?)
    + Segment(DatePart("endDate: ", endDate), false)
  }

  /** The header's frame: "Search (" in front, "):" at the end. */
  lemma Framed(parts: string)
    ensures var r := "Search (" + parts + "):";
      |r| >= 10 && r[..8] == "Search (" && r[|r| - 2..] == "):"
  {
    var r := "Search (" + parts + "):";
    assert r[..8] == "Search (";
    assert r[|r| - 2..] == "):";
  }

  /**
   * The step printQuery repeats: a part followed by "; " exactly when a
   * later part is present, then the later parts joined by "; ", is the
   * join of this part's pieces and the later ones.
   */
  lemma JoinStep(p: Option<string>, rest: seq<string>, more: bool)
    requires more <==> rest != []
    ensures Segment(p, more) + Join(rest, "; ") == Join(Present(p) + rest, "; ")
  {
    if p.None? {
      assert Present(p) + rest == rest;
    } else if rest == [] {
      assert Present(p) + rest == [p.value];
    } else {
      var all := [p.value] + rest;
      assert all[1..] == rest;
      assert Present(p) + rest == all;
    }
  }

  /** Six parts laid out the printQuery way are the join of the present ones. */
  lemma SixParts(p0: Option<string>, p1: Option<string>, p2: Option<string>,
                 p3: Option<string>, p4: Option<string>, p5: Option<string>)
    ensures Segment(p0, p1.Some? || p2.Some? || p3.Some? || p4.Some? || p5.Some?)
      + (Segment(p1, p2.Some? || p3.Some? || p4.Some? || p5.Some?)
      + (Segment(p2, p3.Some? || p4.Some? || p5.Some?)
      + (Segment(p3, p4.Some? || p5.Some?)
      + (Segment(p4, p5.Some?)
      + Segment(p5, false)))))
      == Join(Present(p0) + (Present(p1) + (Present(p2) + (Present(p3) + (Present(p4) + Present(p5))))), "; ")
  {
    var r5 := Present(p5);
    JoinStep(p5, [], false);
    assert r5 + [] == r5;
    assert Segment(p5, false) + "" == Segment(p5, false);
    var r4 := Present(p4) + r5;
    JoinStep(p4, r5, p5.Some?);
    var r3 := Present(p3) + r4;
    JoinStep(p3, r4, p4.Some? || p5.Some?);
    var r2 := Present(p2) + r3;
    JoinStep(p2, r3, p3.Some? || p4.Some? || p5.Some?);
    var r1 := Present(p1) + r2;
    JoinStep(p1, r2, p2.Some? || p3.Some? || p4.Some? || p5.Some?);
    JoinStep(p0, r1, p1.Some? || p2.Some? || p3.Some? || p4.Some? || p5.Some?);
  }

  /** Concatenation of the header's pieces does not depend on grouping. */
  lemma Reassociate(g0: string, g1: string, g2: string, g3: string, g4: string, g5: string)
    ensures g0 + g1 + g2 + g3 + g4 + g5 == g0 + (g1 + (g2 + (g3 + (g4 + g5))))
  {
  }

  /** The inside of the header is the present parts, in fixed order, joined by "; ". */
  lemma HeaderPartsLayout(inTitle: Option<seq<string>>, notInTitle: Option<seq<string>>,
                          inDescription: Option<seq<string>>, notInDescription: Option<seq<string>>,
                          startDate: Option<string>, endDate: Option<string>)
    ensures HeaderParts(inTitle, notInTitle, inDescription, notInDescription, startDate, endDate)
      == Join(Present(ListPart("in title: ", inTitle))
              + (Present(ListPart("not in title: ", notInTitle))
              + (Present(ListPart("in description: ", inDescription))
              + (Present(ListPart("not in description: ", notInDescription))
              + (Present(DatePart("startDate: ", startDate))
              + Present(DatePart("endDate: ", endDate)))))), "; ")
  {
    var p0, p1, p2 := ListPart("in title: ", inTitle), ListPart("not in title: ", notInTitle), ListPart("in description: ", inDescription);
    var p3, p4, p5 := ListPart("not in description: ", notInDescription), DatePart("startDate: ", startDate), DatePart("endDate: ", endDate);
    SixParts(p0, p1, p2, p3, p4, p5);
    var g0, g1, g2 := Segment(p0, p1.Some? || p2.Some? || p3.Some? || p4.Some? || p5.Some?),
      Segment(p1, p2.Some? || p3.Some? || p4.Some? || p5.Some?), Segment(p2, p3.Some? || p4.Some? || p5.Some?);
    var g3, g4, g5 := Segment(p3, p4.Some? || p5.Some?), Segment(p4, p5.Some?), Segment(p5, false);
    assert HeaderParts(inTitle, notInTitle, inDescription, notInDescription, startDate, endDate)
      == g0 + g1 + g2 + g3 + g4 + g5;
    Reassociate(g0, g1, g2, g3, g4, g5);
  }

  /**
   * The header is "Search (", the present parts in fixed order joined by
   * "; " (so no leading or trailing separator), then "):".
   */
  lemma QueryHeaderLayout(inTitle: Option<seq<string>>, notInTitle: Option<seq<string>>,
                          inDescription: Option<seq<string>>, notInDescription: Option<seq<string>>,
                          startDate: Option<string>, endDate: Option<string>)
    ensures QueryHeader(inTitle, notInTitle, inDescription, notInDescription, startDate, endDate)
      == "Search ("
         + Join(Present(ListPart("in title: ", inTitle))
                + (Present(ListPart("not in title: ", notInTitle))
                + (Present(ListPart("in description: ", inDescription))
                + (Present(ListPart("not in description: ", notInDescription))
                + (Present(DatePart("startDate: ", startDate))
                + Present(DatePart("endDate: ", endDate)))))), "; ")
         + "):"
  {
    HeaderPartsLayout(inTitle, notInTitle, inDescription, notInDescription, startDate, endDate);
  }

  /** One numbered line of printResults: " " + (i+1) + ". " + title. */
  function ResultLine(i: nat, title: string): string {
    " " + NatToString(i + 1) + ". " + title
  }

  /**
   * printResults: " no results" for an empty list; otherwise the sorted
   * titles, the i-th on a line of its own numbered i+1.
   */
  method PrintResults(results: seq<string>) returns (lines: seq<string>)
    ensures results == [] ==> lines == [" no results"]
    ensures results != [] ==> |lines| == |results|
    ensures results != [] ==> forall i :: 0 <= i < |lines| ==> lines[i] == ResultLine(i, Sort(results)[i])
    ensures results != [] ==> exists sorted: seq<string> ::
      && Sorted(sorted) && multiset(sorted) == multiset(results) && |sorted| == |lines|
      && forall i :: 0 <= i < |lines| ==> lines[i] == ResultLine(i, sorted[i])
  {
    if |results| > 0 {
      var sorted := Sort(results);
      lines := [];
      for i := 0 to |sorted|
        invariant |lines| == i
        invariant forall k :: 0 <= k < i ==> lines[k] == ResultLine(k, sorted[k])
      {
        lines := lines + [ResultLine(i, sorted[i])];
      }
    } else {
      lines := [" no results"];
    }
  }

  /** A result line starts with its number, which reads back as i+1. */
  lemma ResultLineNumber(i: nat, title: string)
    requires i < IntMax
    ensures var n := NatToString(i + 1);
      ResultLine(i, title) == " " + n + ". " + title && AllDigits(n) && ParseInt(n) == Ok(i + 1)
  {
    ParseIntOfUnsigned(i + 1);
  }
}
