/**
 * Nearest-value lookup in a non-decreasing table of cumulative weights:
 * `Arrays.binarySearch` followed by the one-step adjustment towards the lower
 * neighbour, as done by the exact Kleinberg build in Graph and by
 * KleinbergLinkSource.getPeer.  Also the clamped lookup of the generic build.
 */
module ClosestSearch {

  ghost predicate NonDecreasing(s: seq<real>)
  {
    forall i, j :: 0 <= i <= j < |s| ==> s[i] <= s[j]
  }

  function Abs(r: real): real
  {
    if r < 0.0 then -r else r
  }

  /**
   * What `Arrays.binarySearch` promises on a sorted array: either the index of
   * SOME element equal to `key` (which one is left open when values repeat), or
   * `-(p + 1)` where `p` is the insertion point, the first index whose element
   * is greater than `key`.
   */
  ghost predicate SearchOutcome(s: seq<real>, key: real, r: int)
  {
    if r >= 0 then
      r < |s| && s[r] == key
    else
      && -(r + 1) <= |s|
      && (forall k :: 0 <= k < -(r + 1) ==> s[k] < key)
      && (forall k :: -(r + 1) <= k < |s| ==> key < s[k])
  }

  /** The JDK's binary search over a sorted array of doubles, on exact reals. */
  method BinarySearch(s: seq<real>, key: real) returns (r: int)
    requires NonDecreasing(s)
    ensures SearchOutcome(s, key, r)
  {
    var low, high := 0, |s| - 1;
    while low <= high
      invariant 0 <= low <= high + 1 <= |s|
      invariant forall k :: 0 <= k < low ==> s[k] < key
      invariant forall k :: high < k < |s| ==> key < s[k]
    {
      var mid := (low + high) / 2;
      if s[mid] < key {
        low := mid + 1;
      } else if key < s[mid] {
        high := mid - 1;
      } else {
        return mid;
      }
    }
    r := -(low + 1);
  }

  /**
   * Every index the nearest lookup may return for draw `x`: an index holding
   * `x` exactly; or, when `x` is not in the table, the slot just below `x` if
   * it is strictly closer than the slot just above, and otherwise the slot just
   * above (the insertion point), so that a tie keeps the upper slot.
   */
  ghost predicate ClosestPick(s: seq<real>, x: real, idx: int)
  {
    && 0 <= idx < |s|
    && (|| s[idx] == x
        || (idx + 1 < |s| && s[idx] < x < s[idx + 1] && x - s[idx] < s[idx + 1] - x)
        || (x < s[idx] && (idx == 0 || (s[idx - 1] < x && s[idx] - x <= x - s[idx - 1]))))
  }

  /**
   * Binary search for the draw, take the insertion point when it is absent and
   * step back one slot when the lower neighbour is strictly closer.
   */
  method NearestIndex(s: seq<real>, x: real) returns (idx: int)
    requires |s| > 0 && NonDecreasing(s)
    requires x <= s[|s| - 1]
    ensures ClosestPick(s, x, idx)
  {
    idx := BinarySearch(s, x);
    if idx < 0 {
      idx := -1 - idx;
    }
    if idx > 0 && Abs(x - s[idx - 1]) < Abs(x - s[idx]) {
      idx := idx - 1;
    }
  }

  /** No slot of the table is strictly closer to the draw than the one picked. */
  lemma ClosestPickIsNearest(s: seq<real>, x: real, idx: int)
    requires NonDecreasing(s) && ClosestPick(s, x, idx)
    ensures forall j :: 0 <= j < |s| ==> Abs(x - s[idx]) <= Abs(x - s[j])
  {
    forall j | 0 <= j < |s|
      ensures Abs(x - s[idx]) <= Abs(x - s[j])
    {
      if s[idx] == x {
      } else if idx + 1 < |s| && s[idx] < x < s[idx + 1] && x - s[idx] < s[idx + 1] - x {
        if j <= idx {
          assert s[j] <= s[idx];
        } else {
          assert s[idx + 1] <= s[j];
        }
      } else {
        if j < idx {
          assert s[j] <= s[idx - 1];
        } else {
          assert s[idx] <= s[j];
        }
      }
    }
  }

  /** An exact hit is never traded for a neighbour: the pick then holds `x`. */
  lemma ExactHitIsKept(s: seq<real>, x: real, idx: int, j: int)
    requires NonDecreasing(s) && ClosestPick(s, x, idx)
    requires 0 <= j < |s| && s[j] == x
    ensures s[idx] == x
  {
  }

  /**
   * When the draw lies strictly between two consecutive slots at equal
   * distance from both, the upper slot is the one picked.
   */
  lemma TieKeepsUpper(s: seq<real>, x: real, idx: int, k: int)
    requires NonDecreasing(s) && ClosestPick(s, x, idx)
    requires 0 < k < |s| && s[k - 1] < x < s[k] && x - s[k - 1] == s[k] - x
    ensures idx == k
  {
  }

  /**
   * The closeness the assertions after the adjustment demand: strictly closer
   * than both neighbours.
   */
  ghost predicate StrictlyCloserThanNeighbours(s: seq<real>, x: real, idx: int)
    requires 0 <= idx < |s|
  {
    && (idx > 0 ==> Abs(x - s[idx]) < Abs(x - s[idx - 1]))
    && (idx < |s| - 1 ==> Abs(x - s[idx]) < Abs(x - s[idx + 1]))
  }

  /**
   * The table [1, 1, 2] (node 1 of three nodes with unit weights: its own slot
   * repeats the previous sum) and the draw 1 (a uniform draw of 0.5): both
   * possible picks are legitimate, and neither is strictly closer than its
   * neighbours, so the strict assertions fail on every outcome.
   */
  lemma AssertedStrictnessFails()
    ensures ClosestPick([1.0, 1.0, 2.0], 1.0, 0) && ClosestPick([1.0, 1.0, 2.0], 1.0, 1)
    ensures forall idx :: ClosestPick([1.0, 1.0, 2.0], 1.0, idx) ==>
              !StrictlyCloserThanNeighbours([1.0, 1.0, 2.0], 1.0, idx)
  {
  }

  /**
   * What the clamped lookup of the generic build may return: an index holding
   * `x`, the insertion point when `x` is absent, or the last index when every
   * element is below `x`. There is no adjustment towards the lower neighbour.
   */
  ghost predicate ClampedPick(s: seq<real>, x: real, idx: int)
  {
    && 0 <= idx < |s|
    && (|| s[idx] == x
        || (x < s[idx] && (idx == 0 || s[idx - 1] < x))
        || (idx == |s| - 1 && s[idx] < x))
  }

  /** Binary search for the drawn length, insertion point on a miss, clamped to the last slot. */
  method ClampedIndex(s: seq<real>, x: real) returns (idx: int)
    requires |s| > 0 && NonDecreasing(s)
    ensures ClampedPick(s, x, idx)
    ensures forall j :: 0 <= j < idx ==> s[j] <= x
  {
    idx := BinarySearch(s, x);
    if idx < 0 {
      idx := -1 - idx;
    } else {
      return;
    }
    if idx >= |s| {
      idx := |s| - 1;
    }
  }
}
