/**
 * Binary search over an ascending sequence, with the outcome shape of a
 * slice search: either the index of a matching element, or the position at
 * which the value would have to be inserted to keep the sequence sorted.
 */
module Search {

  datatype SearchResult = Found(index: nat) | NotFound(insertAt: nat)

  predicate Sorted(s: seq<nat>) {
    forall i, j :: 0 <= i < j < |s| ==> s[i] <= s[j]
  }

  /** Searches s[lo..hi] for x, knowing that everything before lo is below x and everything from hi on is above it. */
  function SearchBetween(s: seq<nat>, x: nat, lo: nat, hi: nat): (r: SearchResult)
    requires Sorted(s) && lo <= hi <= |s|
    requires forall i :: 0 <= i < lo ==> s[i] < x
    requires forall i :: hi <= i < |s| ==> x < s[i]
    ensures r.Found? ==> lo <= r.index < hi && s[r.index] == x
    ensures r.NotFound? ==> lo <= r.insertAt <= hi
    ensures r.NotFound? ==> forall i :: 0 <= i < r.insertAt ==> s[i] < x
    ensures r.NotFound? ==> forall i :: r.insertAt <= i < |s| ==> x < s[i]
    decreases hi - lo
  {
    if lo == hi then NotFound(lo)
    else
      var mid := lo + (hi - lo) / 2;
      if s[mid] < x then SearchBetween(s, x, mid + 1, hi)
      else if x < s[mid] then SearchBetween(s, x, lo, mid)
      else Found(mid)
  }

  /**
   * Binary search for x in the sorted sequence s.  It reports Found exactly
   * when x occurs in s; otherwise it reports where x would be inserted.
   */
  function BinarySearch(s: seq<nat>, x: nat): (r: SearchResult)
    requires Sorted(s)
    ensures r.Found? <==> x in s
    ensures r.Found? ==> r.index < |s| && s[r.index] == x
    ensures r.NotFound? ==> r.insertAt <= |s|
    ensures r.NotFound? ==> forall i :: 0 <= i < r.insertAt ==> s[i] < x
    ensures r.NotFound? ==> forall i :: r.insertAt <= i < |s| ==> x < s[i]
  {
    SearchBetween(s, x, 0, |s|)
  }
}
