/**
 * The per-source cumulative weight table: slot j holds the running total of
 * the weights of nodes 0..j, the source's own slot adding nothing, so the
 * table stays aligned with the node list.  Weights are 1/distance, carried as
 * exact reals.
 */
module CumulativeWeights {
  import opened ClosestSearch

  /** Positive ring distance from the source to every other node, so 1/distance is defined. */
  ghost predicate PositiveDistances(fromLoc: real, locs: seq<real>, src: int, distance: (real, real) -> real)
  {
    forall j :: 0 <= j < |locs| && j != src ==> distance(fromLoc, locs[j]) > 0.0
  }

  /** The weight of each node as seen from the source: 1/distance, none for the source itself. */
  function InverseDistances(fromLoc: real, locs: seq<real>, src: int, distance: (real, real) -> real): (w: seq<real>)
    requires PositiveDistances(fromLoc, locs, src, distance)
    ensures |w| == |locs|
    ensures forall j :: 0 <= j < |w| && j != src ==> w[j] > 0.0 && w[j] * distance(fromLoc, locs[j]) == 1.0
  {
    seq(|locs|, j requires 0 <= j < |locs| => if j == src then 0.0 else 1.0 / distance(fromLoc, locs[j]))
  }

  ghost predicate NonNegativeOffSource(w: seq<real>, src: int)
  {
    forall j :: 0 <= j < |w| && j != src ==> w[j] >= 0.0
  }

  /** Total weight of slots 0..k-1, skipping the source slot. */
  function PrefixSum(w: seq<real>, src: int, k: nat): real
    requires k <= |w|
  {
    if k == 0 then 0.0 else PrefixSum(w, src, k - 1) + (if k - 1 == src then 0.0 else w[k - 1])
  }

  /** Plain sum of a sequence of weights. */
  function Sum(w: seq<real>): real
  {
    if w == [] then 0.0 else w[0] + Sum(w[1..])
  }

  /** The table the source builds: slot j holds the running total up to and including j. */
  function Cumulative(w: seq<real>, src: int): (s: seq<real>)
  {
    seq(|w|, j requires 0 <= j < |w| => PrefixSum(w, src, j + 1))
  }

  /**
   * The building loop: accumulate `norm` over all slots, adding each weight
   * except the source's, and store the running total in every slot.
   */
  method FillCumulative(sumProb: array<real>, w: seq<real>, src: int) returns (norm: real)
    requires sumProb.Length == |w|
    modifies sumProb
    ensures sumProb[..] == Cumulative(w, src)
    ensures norm == PrefixSum(w, src, |w|)
  {
    norm := 0.0;
    for j := 0 to sumProb.Length
      invariant norm == PrefixSum(w, src, j)
      invariant forall k :: 0 <= k < j ==> sumProb[k] == PrefixSum(w, src, k + 1)
    {
      if j != src {
        norm := norm + w[j];
      }
      sumProb[j] := norm;
    }
  }

  lemma {:induction false} PrefixSumMonotone(w: seq<real>, src: int, a: nat, b: nat)
    requires NonNegativeOffSource(w, src)
    requires a <= b <= |w|
    ensures 0.0 <= PrefixSum(w, src, a) <= PrefixSum(w, src, b)
  {
    if a < b {
      PrefixSumMonotone(w, src, a, b - 1);
    } else if a > 0 {
      PrefixSumMonotone(w, src, a - 1, a);
    }
  }

  lemma {:induction false} SumAppend(a: seq<real>, x: real)
    ensures Sum(a + [x]) == Sum(a) + x
  {
    if a != [] {
      assert (a + [x])[1..] == a[1..] + [x];
      SumAppend(a[1..], x);
    }
  }

  /** The running total over all slots is the sum of all weights but the source's own. */
  lemma {:induction false} PrefixSumIsSumWithoutSource(w: seq<real>, src: int, k: nat)
    requires k <= |w|
    ensures PrefixSum(w, src, k) == Sum(w[..k]) - (if 0 <= src < k then w[src] else 0.0)
  {
    if k > 0 {
      PrefixSumIsSumWithoutSource(w, src, k - 1);
      assert w[..k] == w[..k - 1] + [w[k - 1]];
      SumAppend(w[..k - 1], w[k - 1]);
    }
  }

  /**
   * The shape of the table: as long as the weights, non-decreasing, the source
   * slot repeating its predecessor, and the last slot holding the normalising
   * total (the sum of every weight but the source's).
   */
  lemma CumulativeShape(w: seq<real>, src: int)
    requires NonNegativeOffSource(w, src)
    ensures |Cumulative(w, src)| == |w|
    ensures NonDecreasing(Cumulative(w, src))
    ensures |w| > 0 ==> 0.0 <= Cumulative(w, src)[0]
    ensures 0 < src < |w| ==> Cumulative(w, src)[src] == Cumulative(w, src)[src - 1]
    ensures |w| > 0 ==> Cumulative(w, src)[|w| - 1] == Sum(w) - (if 0 <= src < |w| then w[src] else 0.0)
  {
    var s := Cumulative(w, src);
    forall i, j | 0 <= i <= j < |s|
      ensures s[i] <= s[j]
    {
      PrefixSumMonotone(w, src, i + 1, j + 1);
    }
    if |w| > 0 {
      PrefixSumMonotone(w, src, 0, 1);
      PrefixSumIsSumWithoutSource(w, src, |w|);
      assert w[..|w|] == w;
    }
  }

  /** The draw scaled by the normalising total stays within the table's range. */
  function ScaledDraw(u: real, norm: real): (x: real)
    requires 0.0 <= u < 1.0 && 0.0 <= norm
    ensures 0.0 <= x <= norm
    ensures norm > 0.0 ==> x < norm
  {
    ProductNonNegative(1.0 - u, norm);
    ProductNonNegative(u, norm);
    u * norm
  }

  lemma ProductNonNegative(a: real, b: real)
    requires 0.0 <= a && 0.0 <= b
    ensures 0.0 <= a * b
  {
  }

  /**
   * With three nodes of unit weight, node 1's table is [1, 1, 2]: the table on
   * which the strict closeness assertions fail.
   */
  lemma SourceSlotRepeats()
    ensures Cumulative([1.0, 1.0, 1.0], 1) == [1.0, 1.0, 2.0]
  {
    assert PrefixSum([1.0, 1.0, 1.0], 1, 2) == 1.0;
  }
}
