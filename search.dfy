/**
 * `sort.SearchStrings`: the binary search both registry handlers use to find
 * where a URL sits in the sorted registry.
 */
module Search {
  import opened StringOrder

  /**
   * The index of the first element of `s` that is not below `x`, or `|s|`
   * when every element is below `x`. This is the index `sort.SearchStrings`
   * promises on a sorted slice.
   */
  function LowerBound(s: seq<string>, x: string): (r: nat)
    ensures r <= |s|
    ensures forall k :: 0 <= k < r ==> Less(s[k], x)
    ensures r < |s| ==> !Less(s[r], x)
  {
    if s == [] || !Less(s[0], x) then 0 else 1 + LowerBound(s[1..], x)
  }

  /** On a sorted sequence every element from the lower bound on is at least `x`. */
  lemma LowerBoundPartitions(s: seq<string>, x: string)
    requires Sorted(s)
    ensures forall k :: LowerBound(s, x) <= k < |s| ==> !Less(s[k], x)
  {
    var r := LowerBound(s, x);
    forall k | r < k < |s| ensures !Less(s[k], x) {
      NotLessTransitive(s[k], s[r], x);
    }
  }

  /** The lower bound is the only index that splits `s` into "below x" and "from x on". */
  lemma LowerBoundUnique(s: seq<string>, x: string, i: nat)
    requires i <= |s|
    requires forall k :: 0 <= k < i ==> Less(s[k], x)
    requires i < |s| ==> !Less(s[i], x)
    ensures LowerBound(s, x) == i
  {
  }

  /**
   * `sort.SearchStrings(s, x)`, which runs `sort.Search` with the test
   * `s[h] >= x`: halve the range `[lo, hi)` until it is empty.
   */
  method SearchStrings(s: seq<string>, x: string) returns (i: nat)
    requires Sorted(s)
    ensures i == LowerBound(s, x)
    ensures i <= |s|
    ensures forall k :: 0 <= k < i ==> Less(s[k], x)
    ensures forall k :: i <= k < |s| ==> !Less(s[k], x)
  {
    var lo, hi := 0, |s|;
    while lo < hi
      invariant 0 <= lo <= hi <= |s|
      invariant forall k :: 0 <= k < lo ==> Less(s[k], x)
      invariant forall k :: hi <= k < |s| ==> !Less(s[k], x)
    {
      var h := (lo + hi) / 2;
      if Less(s[h], x) {
        forall k | 0 <= k < h ensures Less(s[k], x) {
          NotLessThenLess(s[k], s[h], x);
        }
        lo := h + 1;
      } else {
        forall k | h < k < |s| ensures !Less(s[k], x) {
          NotLessTransitive(s[k], s[h], x);
        }
        hi := h;
      }
    }
    i := lo;
    LowerBoundUnique(s, x, i);
  }
}
