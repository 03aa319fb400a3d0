/**
 * searcher.search(bq, bigEnoughHitCount): at most that many of the
 * matching documents. Lucene returns them by score; this model, which has
 * no scores, returns the smallest document ids in ascending order.
 */
module Hits {

  const BigEnoughHitCount: nat := 100

  /** The members of `s` below `n`, in ascending order. */
  function Ascending(s: set<nat>, n: nat): (r: seq<nat>)
    ensures forall k :: 0 <= k < |r| ==> r[k] in s && r[k] < n
    ensures forall x :: x in s && x < n ==> x in r
    ensures forall i, j :: 0 <= i < j < |r| ==> r[i] < r[j]
    ensures r == [] <==> forall x :: x in s ==> x >= n
  {
    if n == 0 then [] else Ascending(s, n - 1) + (if n - 1 in s then [n - 1] else [])
  }

  /** Cutting an ascending list of all candidates keeps the smallest ones. */
  lemma CutKeepsSmallest(s: set<nat>, n: nat, all: seq<nat>, cap: nat)
    requires cap <= |all|
    requires forall x :: x in s && x < n ==> x in all
    requires forall i, j :: 0 <= i < j < |all| ==> all[i] < all[j]
    ensures forall x, k :: x in s && x < n && x !in all[..cap] && 0 <= k < cap ==> all[k] < x
  {
    forall x, k | x in s && x < n && x !in all[..cap] && 0 <= k < cap ensures all[k] < x {
      assert forall j :: 0 <= j < cap ==> all[..cap][j] == all[j] != x;
      var i :| 0 <= i < |all| && all[i] == x;
    }
  }

  /**
   * The first `cap` members of `s` below `n`: ascending, no more than `cap`,
   * all of them when fewer, and none skipped in favour of a larger one.
   */
  function TopHits(s: set<nat>, n: nat, cap: nat): (r: seq<nat>)
    ensures |r| <= cap
    ensures forall k :: 0 <= k < |r| ==> r[k] in s && r[k] < n
    ensures forall i, j :: 0 <= i < j < |r| ==> r[i] < r[j]
    ensures |r| < cap ==> forall x :: x in s && x < n ==> x in r
    ensures forall x, k :: x in s && x < n && x !in r && 0 <= k < |r| ==> r[k] < x
    ensures cap > 0 ==> (r == [] <==> forall x :: x in s ==> x >= n)
  {
    var all := Ascending(s, n);
    if |all| <= cap then all
    else
      CutKeepsSmallest(s, n, all, cap);
      assert all[..cap] != [] ==> all[0] in s && all[0] < n;
      all[..cap]
  }
}
