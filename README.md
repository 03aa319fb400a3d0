# LuceneSearchApp, modelled in Dafny

`LuceneSearchApp` is a boolean search engine over RSS feed documents, held in memory:

- `index(docs)` builds a fresh index. Each document's title and description are analysed into terms, and its publication date is stored as a numeric field.
- `search(inTitle, notInTitle, inDescription, notInDescription, startDate, endDate)` builds a Lucene `BooleanQuery`:
  - one MUST or MUST_NOT `TermQuery` per query string;
  - one MUST, inclusive `NumericRangeQuery` on the publication date when either date is given.

  It runs that query with a cap of 100 hits and returns the stored titles of the hits.
- `stringToTime` turns a `YYYY-MM-DD` string into epoch milliseconds. For an end bound it first adds one day.
- `printQuery` and `printResults` lay out the query header and the numbered, sorted result list.

The model is in these modules:

- `SearchApp` (search_app.dfy) has the class `LuceneSearchApp`. It holds:
  - the stored documents, by id;
  - a postings map per field, from term to the set of documents holding it;
  - the `(pubdate, id)` numeric entries.

  `Index` and `AddDoc` fill the index in a loop. The invariant `Valid()` says the postings and entries are exactly those of the stored documents. `Search` builds the clauses with the same loops as the source (`BuildQuery`), parses the date bounds, and maps the hits to stored titles. The postings-based evaluation (`Matching`) is proved equal to the clause-by-clause meaning (`Queries.Accepts`).
- `Queries` (queries.dfy): the clause list and what each clause demands of a document.
- `Hits` (hits.dfy): the 100-hit cap.
- `Dates` (dates.dfy): `stringToTime` over a proleptic Gregorian calendar in UTC, in integer day arithmetic. A reference definition counts days year by year and month by month.
- `Text` (text.dfy): `Integer.parseInt`, `Integer.toString`, `String.split` on one character, `List.toString`, and Java `int` wrap-around.
- `Documents` (documents.dfy): the document record and a stand-in for the analyzer.
- `Sorting` (sorting.dfy): `Collections.sort` on strings.
- `Output` (output.dfy): `printQuery` and `printResults`, returning as values the characters they would print (without line terminators).

Some behaviour of the code is easy to misread; the model states it as the code has it:

- **A query with no MUST clause matches nothing**, as a Lucene `BooleanQuery` without a positive clause does. This covers the empty query and a MUST_NOT-only query, such as `notInDescription` with no date. `NoRequiredClauseNoHits` states this.
- **The end bound is inclusive.** It is midnight of the following day, and the range query is inclusive at both ends. So a document stamped exactly at that midnight also matches (`WholeDayRange`). This holds for a day below 2147483647; at that day `day += 1` wraps round and the end bound falls before the start bound (`EndBoundWrapsAtIntMax`).
- **Month and day values out of range are not errors.** The calendar is lenient: month 13 or day 32 roll over into the next year or month (`DayRollover`, `EpochDayCounts`).
- **A BooleanQuery holds at most 1024 clauses** (Lucene's default `maxClauseCount`). The add that would exceed it throws `TooManyClauses`, which `Search` reports as an error, at the point in the clause building where the source meets it.

## Model

| member | source | states |
|---|---|---|
| SearchApp.LuceneSearchApp.constructor | src/ir_course/LuceneSearchApp.java:37-42 | A new engine has no index yet and satisfies the index invariant. |
| SearchApp.LuceneSearchApp.Index | src/ir_course/LuceneSearchApp.java:44-57 | After index(docs), the store is exactly `docs`, in order, and the index is built. The postings and numeric entries are exactly those of `docs`, whatever was indexed before. |
| SearchApp.LuceneSearchApp.AddDoc | src/ir_course/LuceneSearchApp.java:59-86 | The document gets the next id. Its title and description terms are added to their own field's postings, and its pubdate entry is appended. Its fields are stored verbatim. The invariant is kept. |
| SearchApp.AddPostings | src/ir_course/LuceneSearchApp.java:67-68 | After indexing a field, a document is in a term's posting list exactly when it was before, or it is the new document and the term is one of its field terms. |
| SearchApp.RebuildReplaces | src/ir_course/LuceneSearchApp.java:46-57 | Two indexes holding the same documents agree on every posting list and on the numeric entries. So a rebuild keeps nothing of the previous corpus. |
| SearchApp.LuceneSearchApp.UniverseExact | src/ir_course/LuceneSearchApp.java:80-85 | The ids that have a pubdate entry are exactly the ids of the stored documents. |
| SearchApp.LuceneSearchApp.QueryDocsExact | src/ir_course/LuceneSearchApp.java:103-139 | `QueryDocs`: a term query's posting list, or the set a range query selects from the numeric entries, is exactly the set of stored documents that query holds for. |
| SearchApp.LuceneSearchApp.MustDocsExact | src/ir_course/LuceneSearchApp.java:100-143 | `MustDocs`: the intersection of the MUST clauses' sets is exactly the documents that every MUST query holds for. |
| SearchApp.LuceneSearchApp.MustNotDocsExact | src/ir_course/LuceneSearchApp.java:100-143 | `MustNotDocs`: the union of the MUST_NOT clauses' sets is exactly the documents that some MUST_NOT query holds for. |
| SearchApp.LuceneSearchApp.MatchingIsAccepts | src/ir_course/LuceneSearchApp.java:100-143 | `Matching`, the evaluation searcher.search does over the postings, matches a document exactly when the BooleanQuery accepts it. |
| SearchApp.LuceneSearchApp.Hits | src/ir_course/LuceneSearchApp.java:141-143 | Hits come in ascending document order, at most 100 of them. Every hit is accepted. All accepted documents are hits when there are fewer than 100, and no accepted document is cut while a larger id is kept. There are no hits exactly when no document is accepted. |
| SearchApp.BuildQuery | src/ir_course/LuceneSearchApp.java:100-139 | The clauses are the term clauses of the four lists in order, then the range clause when a date is given. Errors, in the order met: more than 1024 term clauses; a bad start date; a bad end date; exactly 1024 term clauses and a date. It succeeds exactly when both dates parse and all clauses fit. |
| SearchApp.LuceneSearchApp.Search | src/ir_course/LuceneSearchApp.java:88-152 | Search before index fails first. Then the errors of the clause building, in its order. Otherwise the result is the stored title of each hit of the built clauses, in hit order and one per hit document, so at most 100. |
| SearchApp.LuceneSearchApp.StoredTitles | src/ir_course/LuceneSearchApp.java:145-148 | The k-th result is the stored title of the k-th hit. |
| SearchApp.LuceneSearchApp.HitsSatisfyQuery | src/ir_course/LuceneSearchApp.java:251-293 | Every returned document holds, in the named field, every required string and no forbidden one. Its pubdate lies in the inclusive range. |
| SearchApp.LuceneSearchApp.NoRequiredClauseNoHits | src/ir_course/LuceneSearchApp.java:100-143 | With the two MUST lists null or empty and no date, nothing is returned, whatever the forbidden strings. |
| SearchApp.LuceneSearchApp.HitsHoldRequiredTerm | src/ir_course/LuceneSearchApp.java:103-107 | Every hit holds each string of a MUST clause as a term of that clause's field. |
| SearchApp.LuceneSearchApp.AbsentTermNoHits | src/ir_course/LuceneSearchApp.java:103-107 | A required string that no document holds in that field gives no hit. So does a string the analyzer never produces, such as one containing an upper-case letter. |
| Queries.AppendTermClauses | src/ir_course/LuceneSearchApp.java:103-125 | One loop of search, adding each clause with bq.add (`AddClause`, which throws once 1024 clauses are held), appends one clause per string of the list, in list order, to the clauses so far. It throws exactly when the total would pass 1024. A null list appends nothing. |
| Queries.AddAllTermClauses | src/ir_course/LuceneSearchApp.java:103-125 | The four loops, in order, give the inTitle MUST clauses, then the notInTitle MUST_NOT clauses, then the inDescription MUST clauses, then the notInDescription MUST_NOT clauses. They throw exactly when there are more than 1024 strings. |
| Queries.TermClauses | src/ir_course/LuceneSearchApp.java:103-125 | A list contributes one clause per string, and a null list none. |
| Queries.BuildClauses | src/ir_course/LuceneSearchApp.java:100-139 | The query has one clause per query string, plus one when a date is given. |
| Queries.ClauseLayout | src/ir_course/LuceneSearchApp.java:100-139 | The number of clauses is the number of query strings plus one if a date is given. A term clause with a given string, field and occur is present exactly when the string is in that field and occur's list. The range clause is present exactly when a bound is given, and it is MUST and inclusive at both ends. |
| Queries.TermClausesMembership | src/ir_course/LuceneSearchApp.java:103-125 | A list's clauses all have its field and occur, and contain a string exactly when the list does. A null list contributes none. |
| Queries.DateClausesSemantics | src/ir_course/LuceneSearchApp.java:128-139 | The date clause admits a document exactly when its pubdate lies in the inclusive range, with a null bound open. It is a MUST clause exactly when a bound is given. |
| Queries.RequiredClauses | src/ir_course/LuceneSearchApp.java:103-120 | The MUST clauses of a list admit a document exactly when it holds every string of the list in that field. They contain a MUST clause exactly when the list is non-empty. |
| Queries.ForbiddenClauses | src/ir_course/LuceneSearchApp.java:109-125 | The MUST_NOT clauses of a list admit a document exactly when it holds none of the strings in that field. They contain no MUST clause. |
| Queries.QuerySemantics | src/ir_course/LuceneSearchApp.java:100-139 | The full query accepts a document exactly when both hold: some string is required or a bound is given; and the document has required and no forbidden strings per field, and its date is in range. |
| Queries.QueryTermsNotAnalysed | src/ir_course/LuceneSearchApp.java:105 | A query string is looked up as a single term, as written. One the analyzer cannot produce matches no document. |
| Queries.FieldsAreSeparate | src/ir_course/LuceneSearchApp.java:105-123 | A title clause does not depend on the description, and a description clause does not depend on the title. |
| Queries.WholeDayRange | src/ir_course/LuceneSearchApp.java:128-139 | With startDate = endDate = D and a day below 2147483647, the range holds exactly the times from midnight of D to midnight of D+1, both included. |
| Queries.ClauseKinds | src/ir_course/LuceneSearchApp.java:137-143 | A BooleanQuery accepts a document exactly when three things hold: it has a MUST clause, every MUST query holds, and no MUST_NOT query holds. |
| Hits.Ascending | src/ir_course/LuceneSearchApp.java:141-143 | The members of a set below a bound, each exactly once, in increasing order. |
| Hits.TopHits | src/ir_course/LuceneSearchApp.java:141-143 | The first `cap` of those members: at most `cap`, increasing, all of them when fewer, and the cut keeps the smallest. |
| Dates.DateParses | src/ir_course/LuceneSearchApp.java:154-159 | stringToTime succeeds exactly when split("-") gives at least three parts and the first three are ints. Further parts are ignored. The bound is then made from those three numbers. |
| Dates.FirstBadPart | src/ir_course/LuceneSearchApp.java:155-159 | The parts are read in order: when parts 0 to i-1 are ints and part i is missing or not an int, the error is MissingPart(i) or BadNumber of part i. |
| Dates.NonDigitPart | src/ir_course/LuceneSearchApp.java:157-159 | A character other than a digit in one of the first three parts (a leading '+' apart) is the error of that part, once the earlier parts have been read. |
| Dates.WordMonth | src/ir_course/LuceneSearchApp.java:158 | For any year and day, a month written as a word, such as "2011-Dec-18", is an error naming that word. |
| Dates.ParseDateOfNumbers | src/ir_course/LuceneSearchApp.java:155-159 | Any three numbers up to 2147483647, written "y-m-d" as Integer.toString writes them (no leading zeros), read back as year y, month m and day d. |
| Dates.ParseDateOfDigits | src/ir_course/LuceneSearchApp.java:155-159 | Any three non-empty digit strings up to 2147483647, zero-padded or not, written "a-b-c", read back as the numbers they denote. |
| Dates.ZeroPaddedDate | src/ir_course/LuceneSearchApp.java:155-159 | A zero-padded month and day, as in "2000-01-01" (line 284), read as the numbers themselves. |
| Dates.StartBoundIsMidnight | src/ir_course/LuceneSearchApp.java:157-167 | With a month from 1 to 12, the start bound is midnight UTC of that date. It counts the days of the years from 1970, then of the earlier months, then day - 1, times 86 400 000 ms. The month is made 0-based; the year and day are taken as written. |
| Dates.BoundTimeCounts | src/ir_course/LuceneSearchApp.java:158-167 | `BoundTime`, for any month: the 0-based month m carries into the year, so the start bound counts the days up to month m mod 12 of year + m div 12, then day - 1. |
| Dates.EpochDayCounts | src/ir_course/LuceneSearchApp.java:165-167 | `EpochDay`, the lenient GregorianCalendar: for any month and day, the day number equals the year-by-year and month-by-month count from 1970-01-01. |
| Dates.EndBoundIsNextMidnight | src/ir_course/LuceneSearchApp.java:161-167 | For a date whose day is below 2147483647, the end bound is exactly one day, 86 400 000 ms, after its start bound. |
| Dates.NextBound | src/ir_course/LuceneSearchApp.java:161-167 | For any parsed fields whose day is an int below 2147483647, the end bound is the start bound plus one day. |
| Dates.EndBoundWrapsAtIntMax | src/ir_course/LuceneSearchApp.java:159-163 | `day += 1` is int arithmetic. For day 2147483647 the end bound wraps round to 2^32 - 1 days before the start bound. |
| Dates.DayRollover | src/ir_course/LuceneSearchApp.java:165 | The lenient calendar: the day after the last of a month is the first of the next month, also across a year end. |
| Dates.DaysBeforeYearCounts | src/ir_course/LuceneSearchApp.java:165-167 | The closed-form day count before a year equals counting 365 or 366 days a year from 1970, in either direction. |
| Dates.DaysBeforeMonthCounts | src/ir_course/LuceneSearchApp.java:165-167 | The day count before a month equals adding up the lengths of the earlier months. |
| Dates.MonthsFillYear | src/ir_course/LuceneSearchApp.java:165-167 | The twelve months add up to the length of the year. |
| Dates.EpochAnchors | src/ir_course/LuceneSearchApp.java:165-167 | 1970-01-01 is day 0, 2000-01-01 is day 10957 and 2011-12-18 is day 15326. |
| Dates.DemoDate | src/ir_course/LuceneSearchApp.java:277-278 | "2011-12-18" gives the start bound 1324166400000 and the end bound 1324252800000. |
| Dates.DecemberEighteenth | src/ir_course/LuceneSearchApp.java:157-167 | Any text that parses as 2011, 12, 18 gives those two bounds. |
| Dates.TrailingSeparatorMissingDay | src/ir_course/LuceneSearchApp.java:155-159 | For any year and month, "y-m-" fails like "y-m": split drops the trailing empty string, so parts[2] is missing. |
| Dates.TrailingSeparatorDemo | src/ir_course/LuceneSearchApp.java:155-159 | "2011-12-" is the error MissingPart(2). |
| Dates.MissingDay | src/ir_course/LuceneSearchApp.java:155-159 | "2011-12" is an error: parts[2] is missing. |
| Text.ParseIntOfUnsigned | src/ir_course/LuceneSearchApp.java:157-159 | parseInt of a numeral as Integer.toString writes it (no sign, no leading zero): its value when that is at most 2147483647, otherwise an error naming the text. |
| Text.ParseIntOfDigits | src/ir_course/LuceneSearchApp.java:157-159 | parseInt of any non-empty digit string, leading zeros included: the value it denotes when that is at most 2147483647, otherwise an error naming the text. |
| Text.DigitsValueLeadingZero | src/ir_course/LuceneSearchApp.java:157-159 | A leading zero does not change the value a digit string denotes, so "01" reads as 1. |
| Text.ParseIntOfPlus | src/ir_course/LuceneSearchApp.java:157-159 | A leading '+' reads the same value, with the same range. |
| Text.ParseIntOfMinus | src/ir_course/LuceneSearchApp.java:157-159 | A leading '-' reads the negated value, down to -2147483648, otherwise an error. |
| Text.NonDigitRejected | src/ir_course/LuceneSearchApp.java:157-159 | A character that is not a digit, other than a leading sign, makes parseInt throw on that text. |
| Text.Wrap32 | src/ir_course/LuceneSearchApp.java:158-162 | Java int arithmetic: the result is an int, congruent to the exact value modulo 2^32, and equal to it when that is in range. |
| Text.SplitOfJoin | src/ir_course/LuceneSearchApp.java:155 | split("-") inverts joining: pieces without '-', the last one non-empty, joined with '-', split back into exactly those pieces. |
| Text.SplitDropsTrailing | src/ir_course/LuceneSearchApp.java:155 | split("-") drops trailing empty strings: pieces without '-', the last one non-empty, joined with '-' and followed by any number of '-', split back into exactly those pieces. |
| Text.JoinTrailingEmpties | src/ir_course/LuceneSearchApp.java:155 | Joining the pieces followed by k empty strings gives the join of the pieces followed by k separators. |
| Text.SegmentsOfJoin | src/ir_course/LuceneSearchApp.java:155 | Cutting at every '-' a join of '-'-free pieces gives back exactly those pieces, the empty ones included. |
| Text.SegmentsAfterPlain | src/ir_course/LuceneSearchApp.java:155 | A '-' after a piece without one ends the first segment exactly there. |
| Text.SplitThree | src/ir_course/LuceneSearchApp.java:155 | Three '-'-free pieces joined by '-', the last non-empty, split back into exactly those three pieces. |
| Documents.Tokenize | src/ir_course/LuceneSearchApp.java:65-68 | Every term the analyzer produces is a non-empty string of lower-case letters and digits. |
| Documents.TokenizeTerm | src/ir_course/LuceneSearchApp.java:65-68 | Analysis is idempotent: a term, analysed again, is exactly itself. |
| Documents.TokensAreTerms | src/ir_course/LuceneSearchApp.java:65-68 | Everything the analyzer produces for a field is a term, so a string that is not one never matches. |
| Sorting.Sort | src/ir_course/LuceneSearchApp.java:207 | Collections.sort: the result is in lexicographic order and is a permutation of the input. |
| Sorting.SortedPermutationsAreEqual | src/ir_course/LuceneSearchApp.java:207 | There is only one sorted permutation of a list, so the sorted order printed is determined. |
| Sorting.StrLeTotal | src/ir_course/LuceneSearchApp.java:207 | Any two strings are comparable. |
| Sorting.StrLeTransitive | src/ir_course/LuceneSearchApp.java:207 | The string order is transitive. |
| Sorting.StrLeAntisymmetric | src/ir_course/LuceneSearchApp.java:207 | Strings that are each at most the other are equal. |
| Output.QueryHeader | src/ir_course/LuceneSearchApp.java:170-203 | printQuery always starts with "Search (" and ends with "):". With all six arguments null it is "Search ():". |
| Output.QueryHeaderLayout | src/ir_course/LuceneSearchApp.java:174-202 | printQuery prints "Search (", then the present parts in fixed order joined by "; ", then "):". Each part is its caption followed by the list as List.toString prints it (`ListToString`: "[" + the elements joined by ", " + "]"). So there is no leading or trailing separator. |
| Output.HeaderPartsLayout | src/ir_course/LuceneSearchApp.java:175-201 | The six conditional parts between the brackets are the join of the present parts. |
| Output.JoinStep | src/ir_course/LuceneSearchApp.java:175-201 | One step of printQuery: a part followed by "; " exactly when a later part is present, then the later parts joined by "; ", is the join of this part and the later ones. |
| Output.SixParts | src/ir_course/LuceneSearchApp.java:175-201 | printQuery's six "print the part, then '; ' if a later argument is non-null" steps together are the join of the present parts. |
| Output.PrintResults | src/ir_course/LuceneSearchApp.java:205-214 | An empty list prints " no results". Otherwise line i is " " + (i+1) + ". " + the i-th title of a sorted permutation of the results. |
| Output.ResultLineNumber | src/ir_course/LuceneSearchApp.java:209 | `ResultLine`: line i is " " + the number + ". " + the title, and the number reads back as i+1. |

## Left out

- Lucene internals (IndexWriter, RAMDirectory, IndexReader, IndexSearcher, the trie encoding behind `precisionStep`): these are replaced by postings sets and a scan of the numeric entries.
- Hits.TopHits: Lucene returns hits by relevance score. The model has no scores and returns the smallest accepted ids in ascending order. So "which 100" and "in which order" are the model's choice, not Lucene's.
- StandardAnalyzer: it is replaced by a stand-in. ASCII letters are lower-cased, ASCII letters and digits make up terms, and any other character ends a term. There is no Unicode word breaking and no stop-word removal.
- GregorianCalendar: the model has no local time zone, no daylight saving and no Julian calendar before 1582. Dates are taken as proleptic Gregorian midnights in UTC.
- Dates.StringToTime: `long` overflow of getTimeInMillis is not modelled, because integers are unbounded. The lenient calendar takes any int year, so texts with a year from about 292 278 994 on, such as "300000000-01-01", are reachable and overflow in the source; the model gives their exact value instead.
- Text.ParseInt: only ASCII digits are accepted. Java also accepts other Unicode decimal digits.
- Text.ParseIntOfPlus: a leading '+' is accepted, as Integer.parseInt does from Java 7 on. On Java 6, which Lucene 4.0 still supports, "+12" throws. The model assumes Java 7 or later, and so does Dates.NonDigitPart.
- Sorting.StrLe: it compares Unicode scalar values, while String.compareTo compares UTF-16 code units. The two differ only on characters beyond U+FFFF.
- Output.PrintResults: it returns the lines and sorts a copy of its input. The source sorts the caller's list in place, and that mutation is not modelled. The lines carry no line terminator, where println ends each with one.
- Output.QueryHeader: println's line terminator after "):" is not part of the text.
- `System.out` printing: `printQuery` and `printResults` return their text instead of printing it. `search` printing its query header first is not part of `Search`; the header is `Output.QueryHeader`.
- A null string inside one of the four lists makes `new Term(field, null)` throw. The model's lists hold strings only, so it cannot represent that input.
- IOException, CorruptIndexException and LockObtainFailedException paths come from the storage layer, which is not shown. A null document field and a null `getPubDate()` are not modelled either.
- `main`, RssFeedParser and RssFeedDocument: feed parsing and file I/O are not part of this model. The demo queries in `main` are used only for their stated meaning and for the date "2011-12-18".
- The `analyzer` and `index` fields are not modelled. `built` records whether `index` has run, and a search before it is the `IndexMissing` error.
