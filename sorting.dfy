/**
 * String.compareTo (lexicographic by character, a proper prefix first) and
 * the ascending order Collections.sort gives a List<String>.
 */
module Sorting {

  /** a.compareTo(b) <= 0 */
  predicate StrLe(a: string, b: string) {
    if a == [] then true
    else if b == [] then false
    else if a[0] != b[0] then a[0] < b[0]
    else StrLe(a[1..], b[1..])
  }

  lemma {:induction false} StrLeTotal(a: string, b: string)
    ensures StrLe(a, b) || StrLe(b, a)
  {
    if a != [] && b != [] && a[0] == b[0] {
      StrLeTotal(a[1..], b[1..]);
    }
  }

  lemma {:induction false} StrLeReflexive(a: string)
    ensures StrLe(a, a)
  {
    if a != [] {
      StrLeReflexive(a[1..]);
    }
  }

  lemma {:induction false} StrLeTransitive(a: string, b: string, c: string)
    requires StrLe(a, b) && StrLe(b, c)
    ensures StrLe(a, c)
  {
    if a != [] && b != [] && c != [] && a[0] == b[0] && b[0] == c[0] {
      StrLeTransitive(a[1..], b[1..], c[1..]);
    }
  }

  lemma {:induction false} StrLeAntisymmetric(a: string, b: string)
    requires StrLe(a, b) && StrLe(b, a)
    ensures a == b
  {
    if a != [] && b != [] {
      StrLeAntisymmetric(a[1..], b[1..]);
      assert a == [a[0]] + a[1..];
      assert b == [b[0]] + b[1..];
    }
  }

  ghost predicate Sorted(s: seq<string>) {
    forall i, j :: 0 <= i < j < |s| ==> StrLe(s[i], s[j])
  }

  /** A sorted sequence stays sorted under a new head that precedes all of it. */
  lemma ConsSorted(x: string, s: seq<string>)
    requires Sorted(s)
    requires forall j :: 0 <= j < |s| ==> StrLe(x, s[j])
    ensures Sorted([x] + s)
  {
    var r := [x] + s;
    forall i, j | 0 <= i < j < |r| ensures StrLe(r[i], r[j]) {
      if i > 0 {
        assert r[i] == s[i - 1] && r[j] == s[j - 1];
      } else {
        assert r[j] == s[j - 1];
      }
    }
  }

  /** What precedes the head of a sorted sequence precedes all of it. */
  lemma BelowHead(x: string, s: seq<string>)
    requires Sorted(s) && s != [] && StrLe(x, s[0])
    ensures forall j :: 0 <= j < |s| ==> StrLe(x, s[j])
  {
    forall j | 0 < j < |s| ensures StrLe(x, s[j]) { StrLeTransitive(x, s[0], s[j]); }
  }

  /** The head of a sorted `s` precedes `x` and every element of s[1..], so all of `tail`. */
  lemma HeadBelowTail(s: seq<string>, x: string, tail: seq<string>)
    requires Sorted(s) && s != [] && StrLe(s[0], x)
    requires multiset(tail) == multiset(s[1..]) + multiset{x}
    ensures forall j :: 0 <= j < |tail| ==> StrLe(s[0], tail[j])
  {
    forall j | 0 <= j < |tail| ensures StrLe(s[0], tail[j]) {
      assert tail[j] in multiset(tail);
      if tail[j] != x {
        assert tail[j] in multiset(s[1..]);
        var k :| 0 <= k < |s[1..]| && s[1..][k] == tail[j];
        assert s[k + 1] == tail[j];
      }
    }
  }

  /** Inserts `x` into the sorted `s` after every element that precedes it. */
  function Insert(x: string, s: seq<string>): (r: seq<string>)
    requires Sorted(s)
    ensures Sorted(r)
    ensures multiset(r) == multiset(s) + multiset{x}
  {
    if s == [] then [x]
    else if StrLe(x, s[0]) then
      BelowHead(x, s);
      ConsSorted(x, s);
      [x] + s
    else
      var tail := Insert(x, s[1..]);
      StrLeTotal(x, s[0]);
      HeadBelowTail(s, x, tail);
      ConsSorted(s[0], tail);
      assert s == [s[0]] + s[1..];
      [s[0]] + tail
  }

  /** Collections.sort on a list of strings: a sorted permutation. */
  function Sort(s: seq<string>): (r: seq<string>)
    ensures Sorted(r)
    ensures multiset(r) == multiset(s)
    ensures |r| == |s|
  {
    if s == [] then []
    else
      assert s == [s[0]] + s[1..];
      Insert(s[0], Sort(s[1..]))
  }

  /** The least element of a sorted sequence heads it. */
  lemma SortedHeadIsLeast(a: seq<string>, x: string)
    requires Sorted(a) && x in multiset(a)
    ensures StrLe(a[0], x)
  {
    var i :| 0 <= i < |a| && a[i] == x;
    if i == 0 { StrLeReflexive(x); }
  }

  lemma SortedTail(a: seq<string>)
    requires Sorted(a) && a != []
    ensures Sorted(a[1..])
  {
    var t := a[1..];
    forall i, j | 0 <= i < j < |t| ensures StrLe(t[i], t[j]) {
      assert t[i] == a[i + 1] && t[j] == a[j + 1];
    }
  }

  /** Equal multisets stay equal when the same head is taken off both. */
  lemma CancelHead(h: string, a: seq<string>, b: seq<string>)
    requires multiset([h] + a) == multiset([h] + b)
    ensures multiset(a) == multiset(b)
  {
    assert multiset([h] + a) == multiset{h} + multiset(a);
    assert multiset([h] + b) == multiset{h} + multiset(b);
    forall y ensures multiset(a)[y] == multiset(b)[y] {
      assert multiset([h] + a)[y] == multiset{h}[y] + multiset(a)[y];
    }
  }

  /** Java's sort output is unique: any two sorted permutations are equal. */
  lemma {:induction false} SortedPermutationsAreEqual(a: seq<string>, b: seq<string>)
    requires Sorted(a) && Sorted(b) && multiset(a) == multiset(b)
    ensures a == b
  {
    if a != [] {
      assert |b| == |a| by { assert |multiset(a)| == |multiset(b)|; }
      assert a[0] in multiset(b) && b[0] in multiset(a);
      SortedHeadIsLeast(b, a[0]);
      SortedHeadIsLeast(a, b[0]);
      StrLeAntisymmetric(a[0], b[0]);
      var a', b' := a[1..], b[1..];
      assert a == [a[0]] + a';
      assert b == [a[0]] + b';
      CancelHead(a[0], a', b');
      SortedTail(a);
      SortedTail(b);
      SortedPermutationsAreEqual(a', b');
    }
  }
}
