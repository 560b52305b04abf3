/**
 * The Kleinberg link-length source: a peer for a node is drawn with weight
 * 1/distance by the same cumulative-table lookup as the exact Kleinberg build.
 * Each node's table is computed on its first request and kept in a cache
 * keyed by the node.
 */
module Kleinberg {
  import opened Outcomes
  import opened ClosestSearch
  import opened CumulativeWeights

  /** A node as the source sees it: its index in the node list and its location. */
  datatype Node = Node(index: int, location: real)

  datatype LinkError =
    | EmptyNodeList   // the table of an empty node list has no last slot to scale by

  function Locations(nodes: seq<Node>): (locs: seq<real>)
    ensures |locs| == |nodes| && forall j :: 0 <= j < |nodes| ==> locs[j] == nodes[j].location
  {
    seq(|nodes|, j requires 0 <= j < |nodes| => nodes[j].location)
  }

  class KleinbergLinkSource {
    /** The node list peers are drawn from. */
    const nodes: seq<Node>
    /** Distance between two locations. */
    const distance: (real, real) -> real
    /** The cache: each requested node's cumulative table. */
    var sumProbs: map<Node, seq<real>>

    /** The table the source builds for `from`: cumulative 1/distance weights, the slot at from's index adding nothing. */
    ghost function Table(from: Node): (table: seq<real>)
      requires PositiveDistances(from.location, Locations(nodes), from.index, distance)
      ensures |table| == |nodes| && NonDecreasing(table)
      ensures |table| > 0 ==> 0.0 <= table[0] <= table[|table| - 1]
    {
      var w := InverseDistances(from.location, Locations(nodes), from.index, distance);
      CumulativeShape(w, from.index);
      Cumulative(w, from.index)
    }

    /** Every cached table is the one the source builds for its node. */
    ghost predicate Valid()
      reads this
    {
      forall from :: from in sumProbs ==>
        PositiveDistances(from.location, Locations(nodes), from.index, distance) && sumProbs[from] == Table(from)
    }

    /**
     * The constructor as written hands a fresh empty list to the superclass and
     * drops its `nodes` argument, so the source starts with no nodes; the cache
     * starts empty.
     */
    constructor (nodes: seq<Node>, distance: (real, real) -> real)
      ensures Valid()
      ensures this.nodes == [] && this.distance == distance && sumProbs == map[]
    {
      this.nodes := [];
      this.distance := distance;
      sumProbs := map[];
    }

    /** The lookup step of `GetPeer`: compute and cache the table of `from` on its first use. */
    method CacheTable(from: Node)
      requires Valid()
      requires PositiveDistances(from.location, Locations(nodes), from.index, distance)
      modifies this`sumProbs
      ensures Valid()
      ensures from in old(sumProbs) ==> sumProbs == old(sumProbs)
      ensures from !in old(sumProbs) ==> sumProbs == old(sumProbs)[from := Table(from)]
      ensures from in sumProbs && sumProbs[from] == Table(from)
    {
      if from !in sumProbs {
        var w := InverseDistances(from.location, Locations(nodes), from.index, distance);
        var sumProb := new real[|nodes|];
        var norm := FillCumulative(sumProb, w, from.index);
        sumProbs := sumProbs[from := sumProb[..]];
      }
    }

    /**
     * Draw a peer for `from` with the uniform draw `u`: build and cache from's
     * table on first request, scale `u` by its last slot and return the node at
     * the nearest slot.
     */
    method GetPeer(from: Node, u: real) returns (r: Result<Node, LinkError>)
      requires Valid()
      requires 0.0 <= u < 1.0
      requires PositiveDistances(from.location, Locations(nodes), from.index, distance)
      modifies this`sumProbs
      ensures Valid()
      ensures from in old(sumProbs) ==> sumProbs == old(sumProbs)
      ensures from !in old(sumProbs) ==> sumProbs == old(sumProbs)[from := Table(from)]
      ensures r.Failure? <==> |nodes| == 0
      ensures r.Success? ==>
                var table := Table(from);
                |table| == |nodes| &&
                exists idx :: ClosestPick(table, ScaledDraw(u, table[|table| - 1]), idx) && r.value == nodes[idx]
    {
      CacheTable(from);
      var sumProb := sumProbs[from];
      if |sumProb| == 0 {
        return Failure(EmptyNodeList);
      }
      var norm := sumProb[|sumProb| - 1];
      var x := ScaledDraw(u, norm);
      var idx := NearestIndex(sumProb, x);
      return Success(nodes[idx]);
    }
  }
}
