/**
 * The graph of nodes on the unit ring and its builders: node placement, the
 * Sandberg ring with shortcuts, the generic build driven by a link-length
 * source, and the one-dimensional Kleinberg build (fast and exact paths);
 * then degree and edge statistics and the edge list of a saved graph.
 *
 * Random draws arrive as parameters: one per `rand` call of the source, or one
 * sequence per source node for the retry loops, which stop early when their
 * draws run out.  Distances between locations are a parameter `distance`.
 */
module Graphs {
  import opened Outcomes
  import opened Adjacency
  import opened ClosestSearch
  import opened CumulativeWeights
  import opened Sorting

  /** Probability of not making a connection with a peer that already has its target degree. */
  const RejectProbability: real := 0.98

  /** The target degree every node of a Sandberg graph gets from its fixed degree source. */
  const SandbergDegree: int := 1337

  datatype GraphError =
    | NonPositiveNodeCount   // the constructor's IllegalArgumentException
    | TruncatedInput         // the saved stream ends before all edge indexes are read
    | NodeIndexOutOfRange    // a saved edge names a node the graph does not have

  /** Transient (distance, node index) entry of the generic build's table. */
  datatype DistanceEntry = DistanceEntry(distance: real, index: int)

  /** One attempt of the fast Kleinberg loop: the rounded step count, the direction, the rejection draw. */
  datatype StepDraw = StepDraw(steps: int, forward: bool, reject: real)

  /** One attempt of the exact Kleinberg loop: the uniform draw scaled by the total, the rejection draw. */
  datatype CdfDraw = CdfDraw(u: real, reject: real)

  /** One attempt of the generic loop: the length from the link-length source, the rejection draw. */
  datatype LengthDraw = LengthDraw(length: real, reject: real)

  function Id(r: real): real { r }

  function EntryDistance(e: DistanceEntry): real { e.distance }

  /** Locations i/n of fast generation. */
  function FastLocations(n: nat): (locs: seq<real>)
  {
    seq(n, i requires 0 <= i < n => i as real / n as real)
  }

  lemma FastLocationsShape(n: nat)
    ensures |FastLocations(n)| == n
    ensures SortedBy(FastLocations(n), Id)
    ensures forall i :: 0 <= i < n ==> 0.0 <= FastLocations(n)[i] < 1.0 && FastLocations(n)[i] * n as real == i as real
  {
    var locs := FastLocations(n);
    forall i, j | 0 <= i < j < n
      ensures Id(locs[i]) <= Id(locs[j])
    {
      DivideMonotone(i as real, j as real, n as real);
    }
    forall i | 0 <= i < n
      ensures 0.0 <= locs[i] < 1.0 && locs[i] * n as real == i as real
    {
      UnitFraction(i as real, n as real);
    }
  }

  /** A fraction i/n with 0 <= i < n lies in [0, 1) and scales back to i. */
  lemma UnitFraction(i: real, n: real)
    requires 0.0 <= i < n
    ensures 0.0 <= i / n < 1.0 && (i / n) * n == i
  {
  }

  lemma DivideMonotone(a: real, b: real, c: real)
    requires a <= b && 0.0 < c
    ensures a / c <= b / c && (a < b ==> a / c < b / c) && (a / c) * c == a
  {
  }

  /** The node table of all distances from node i, one entry per node, indexed by node. */
  function Entries(locs: seq<real>, i: int, distance: (real, real) -> real): (es: seq<DistanceEntry>)
    requires 0 <= i < |locs|
  {
    seq(|locs|, j requires 0 <= j < |locs| => DistanceEntry(distance(locs[i], locs[j]), j))
  }

  function Keys(table: seq<DistanceEntry>): (ks: seq<real>)
  {
    seq(|table|, k requires 0 <= k < |table| => table[k].distance)
  }

  lemma SortedKeys(table: seq<DistanceEntry>)
    requires SortedBy(table, EntryDistance)
    ensures NonDecreasing(Keys(table))
  {
    var ks := Keys(table);
    forall i, j | 0 <= i <= j < |ks|
      ensures ks[i] <= ks[j]
    {
      if i < j {
        assert EntryDistance(table[i]) <= EntryDistance(table[j]);
      }
    }
  }

  /** The rotated ring index the fast Kleinberg step lands on, wrapped once at either end. */
  function StepIndex(i: int, steps: int, forward: bool, n: int): (idx: int)
    requires 0 <= i < n && 0 <= steps <= n
    ensures 0 <= idx < n
  {
    var stepped := if forward then i + steps else i - steps;
    var raised := if stepped < 0 then stepped + n else stepped;
    if raised >= n then raised - n else raised
  }

  /** The wrapped step is the stepped index reduced modulo n. */
  lemma StepIndexIsModular(i: int, steps: int, forward: bool, n: int)
    requires 0 <= i < n && 0 <= steps <= n
    ensures StepIndex(i, steps, forward, n) == (if forward then i + steps else i - steps) % n
  {
    ModOfShifted(if forward then i + steps else i - steps, n, StepIndex(i, steps, forward, n));
  }

  /** A value that differs from a by at most one multiple of n and lies in [0, n) is a % n. */
  lemma ModOfShifted(a: int, n: int, r: int)
    requires 0 <= r < n && (r == a || r == a + n || r == a - n)
    ensures r == a % n
  {
    var c := if r == a then 0 else if r == a + n then 1 else -1;
    var q := a / n;
    assert a == q * n + a % n;
    assert r - a % n == (q + c) * n;
    MultipleInOpenRange(q + c, n, r - a % n);
  }

  /** The only multiple of n strictly between -n and n is 0. */
  lemma MultipleInOpenRange(k: int, n: int, d: int)
    requires 0 < n && d == k * n && -n < d < n
    ensures k == 0
  {
  }

  /** The predecessor on the index ring, wrapping at 0. */
  function Predecessor(i: int, n: int): (r: int)
    requires 0 <= i < n
    ensures 0 <= r < n
    ensures n > 1 ==> r != i
  {
    var wrapped := i - 1;
    if wrapped < 0 then wrapped + n else wrapped
  }

  /** The wrapped predecessor is i - 1 reduced modulo n. */
  lemma PredecessorIsModular(i: int, n: int)
    requires 0 <= i < n
    ensures Predecessor(i, n) == (i - 1) % n
  {
    ModOfShifted(i - 1, n, Predecessor(i, n));
  }

  /** The Sandberg ring: one outgoing connection from each node to its predecessor. */
  function RingOf(n: nat): (adj: Adj)
  {
    seq(n, i requires 0 <= i < n => [Predecessor(i, n)])
  }

  /** From two nodes on, the ring has no self-connection and no repeated connection. */
  lemma RingIsSimple(n: nat)
    requires n >= 2
    ensures Simple(RingOf(n))
    ensures forall i :: 0 <= i < n ==> RingOf(n)[i] == [Predecessor(i, n)]
  {
  }

  /** With one node the predecessor is the node itself: the ring would connect it to itself. */
  lemma RingOfOneIsSelfLoop()
    ensures RingOf(1) == [[0]]
  {
  }

  /** The index of the first draw that is neither node i nor already in its list; |draws| when there is none. */
  function FirstFree(row: seq<int>, i: int, draws: seq<int>): (u: nat)
    ensures u <= |draws|
    ensures u < |draws| ==> draws[u] != i && draws[u] !in row
    ensures forall k :: 0 <= k < u ==> draws[k] == i || draws[k] in row
  {
    if draws == [] then 0
    else if draws[0] != i && draws[0] !in row then 0
    else 1 + FirstFree(row, i, draws[1..])
  }

  /** Node i's list after its shortcut loop: the first acceptable draw appended, or the list unchanged when none is. */
  function WithShortcut(row: seq<int>, i: int, draws: seq<int>): seq<int>
  {
    var u := FirstFree(row, i, draws);
    if u < |draws| then row + [draws[u]] else row
  }

  /**
   * On a ring of one or two nodes every node's only possible peers are itself
   * and its predecessor, so no draw is ever acceptable: the source's
   * do-while for the shortcut never ends there.
   */
  lemma SmallRingHasNoShortcut(n: int, i: int, draws: seq<int>)
    requires 1 <= n <= 2 && 0 <= i < n
    requires forall k :: 0 <= k < |draws| ==> 0 <= draws[k] < n
    ensures FirstFree([Predecessor(i, n)], i, draws) == |draws|
  {
    var p := Predecessor(i, n);
    assert p == (if n == 1 || i == 1 then 0 else 1);
    assert forall k :: 0 <= k < |draws| ==> draws[k] == i || draws[k] in [p];
  }

  /** Node k's list after the shortcut pass: its predecessor, then at most one further peer that is neither k nor that predecessor. */
  lemma ShortcutRow(n: int, k: int, draws: seq<int>)
    requires 0 <= k < n
    requires forall m :: 0 <= m < |draws| ==> 0 <= draws[m] < n
    ensures var r := WithShortcut([Predecessor(k, n)], k, draws);
      && 1 <= |r| <= 2 && r[0] == Predecessor(k, n)
      && (|r| == 2 <==> FirstFree([Predecessor(k, n)], k, draws) < |draws|)
      && (|r| == 2 ==> r[1] != k && r[1] != r[0] && 0 <= r[1] < n)
    ensures FirstFree([Predecessor(k, n)], k, draws) < |draws| ==> n >= 3
  {
    if n <= 2 {
      SmallRingHasNoShortcut(n, k, draws);
    }
  }

  /**
   * The ring after every node's shortcut pass: when every node found a
   * shortcut the graph has exactly two connections per node, no self-loop
   * and no duplicate, which needs at least three nodes.
   */
  lemma ShortcutRing(adj: Adj, draws: seq<seq<int>>)
    requires |draws| == |adj|
    requires forall i, k :: 0 <= i < |draws| && 0 <= k < |draws[i]| ==> 0 <= draws[i][k] < |adj|
    requires forall i :: 0 <= i < |adj| ==> adj[i] == WithShortcut([Predecessor(i, |adj|)], i, draws[i])
    ensures InRange(adj)
    ensures forall i :: 0 <= i < |adj| ==> 1 <= |adj[i]| <= 2 && adj[i][0] == Predecessor(i, |adj|)
    ensures forall i :: 0 <= i < |adj| && |adj[i]| == 2 ==> adj[i][1] != i && adj[i][1] != adj[i][0]
    ensures (forall i :: 0 <= i < |adj| ==> FirstFree([Predecessor(i, |adj|)], i, draws[i]) < |draws[i]|) ==>
      (|adj| == 0 || |adj| >= 3) && Simple(adj) && forall i :: 0 <= i < |adj| ==> |adj[i]| == 2
  {
    var n := |adj|;
    forall i | 0 <= i < n
      ensures 1 <= |adj[i]| <= 2 && adj[i][0] == Predecessor(i, n)
      ensures |adj[i]| == 2 ==> adj[i][1] != i && adj[i][1] != adj[i][0]
      ensures |adj[i]| == 2 <==> FirstFree([Predecessor(i, n)], i, draws[i]) < |draws[i]|
      ensures forall m :: 0 <= m < |adj[i]| ==> 0 <= adj[i][m] < n
      ensures |adj[i]| == 2 ==> n >= 3 && i !in adj[i] && Distinct(adj[i])
    {
      ShortcutRow(n, i, draws[i]);
      if |adj[i]| == 2 {
        assert adj[i] == [adj[i][0], adj[i][1]];
      }
    }
    if n > 0 && FirstFree([Predecessor(0, n)], 0, draws[0]) < |draws[0]| {
      assert |adj[0]| == 2;
    }
  }

  /**
   * The connection-acceptance rule shared by every builder: turn down the node
   * itself, a current neighbour, and - when the rejection draw falls below the
   * reject probability - a peer already at its target degree.
   */
  predicate Accepts(adj: Adj, targets: seq<int>, src: int, dest: int, reject: real)
    requires 0 <= src < |adj| && 0 <= dest < |adj| && |targets| == |adj|
  {
    !(src == dest || dest in adj[src] || (|adj[dest]| >= targets[dest] && reject < RejectProbability))
  }

  /**
   * An accepted connection is between two distinct, not yet connected nodes,
   * raises both degrees by one and keeps the adjacency undirected; a peer still
   * short of its target is accepted exactly when it is neither the node itself
   * nor already a neighbour.
   */
  lemma AcceptedConnection(adj: Adj, targets: seq<int>, src: int, dest: int, reject: real)
    requires Undirected(adj) && 0 <= src < |adj| && 0 <= dest < |adj| && |targets| == |adj|
    ensures |adj[dest]| < targets[dest] ==> (Accepts(adj, targets, src, dest, reject) <==> src != dest && !Arc(adj, src, dest))
    ensures Accepts(adj, targets, src, dest, reject) ==>
              && src != dest && !Arc(adj, dest, src)
              && |Connect(adj, src, dest)[src]| == |adj[src]| + 1
              && |Connect(adj, src, dest)[dest]| == |adj[dest]| + 1
              && Undirected(Connect(adj, src, dest))
  {
    ConnectArcs(adj, src, dest);
  }

  /** Every connection present after but not before joins node i to one of the listed peers. */
  ghost predicate LinksOnlyTo(before: Adj, after: Adj, i: int, peers: seq<int>)
  {
    forall a, b :: Arc(after, a, b) && !Arc(before, a, b) ==> (a == i && b in peers) || (b == i && a in peers)
  }

  /** One attempt of a connect loop keeps the loop's bookkeeping: growth, and new links only from i to picked peers. */
  lemma AttemptStep(before: Adj, mid: Adj, after: Adj, i: int, picked: seq<int>, dest: int, connected: bool)
    requires Undirected(mid) && 0 <= i < |mid| && 0 <= dest < |mid|
    requires Grows(before, mid) && LinksOnlyTo(before, mid, i, picked)
    requires after == if connected then Connect(mid, i, dest) else mid
    ensures Grows(before, after) && LinksOnlyTo(before, after, i, picked + [dest])
  {
    ConnectArcs(mid, i, dest);
    forall a, b | Arc(after, a, b) && !Arc(before, a, b)
      ensures (a == i && b in picked + [dest]) || (b == i && a in picked + [dest])
    {
      if !Arc(mid, a, b) {
        assert connected && ((a == i && b == dest) || (a == dest && b == i));
      }
    }
  }

  /** One attempt of a connect loop: node i connects to `dest` exactly when the acceptance rule accepts. */
  function Attempt(adj: Adj, targets: seq<int>, i: int, dest: int, reject: real): Adj
    requires 0 <= i < |adj| && 0 <= dest < |adj| && |targets| == |adj|
  {
    if Accepts(adj, targets, i, dest, reject) then Connect(adj, i, dest) else adj
  }

  ghost predicate PicksIn(picked: seq<int>, n: int)
  {
    forall k :: 0 <= k < |picked| ==> 0 <= picked[k] < n
  }

  /** The attempts of node i at the picked peers in turn, attempt k with rejection draw rejects[k]. */
  function Replay(adj: Adj, targets: seq<int>, i: int, picked: seq<int>, rejects: seq<real>): (r: Adj)
    requires 0 <= i < |adj| && |targets| == |adj| && |picked| <= |rejects| && PicksIn(picked, |adj|)
    ensures |r| == |adj|
    decreases |picked|
  {
    if picked == [] then adj
    else
      var k := |picked| - 1;
      Attempt(Replay(adj, targets, i, picked[..k], rejects), targets, i, picked[k], rejects[k])
  }

  /** Before each of its attempts, node i was still short of its target degree. */
  ghost predicate ShortThroughout(before: Adj, targets: seq<int>, i: int, picked: seq<int>, rejects: seq<real>)
  {
    && 0 <= i < |before| && |targets| == |before| && |picked| <= |rejects| && PicksIn(picked, |before|)
    && forall k :: 0 <= k < |picked| ==> |Replay(before, targets, i, picked[..k], rejects)[i]| < targets[i]
  }

  /**
   * The connect loop of node i as the builders run it: the picked peers are
   * tried in turn while node i is short of its target, and the loop stops at
   * the target or when the draws run out.
   */
  ghost predicate Run(before: Adj, after: Adj, targets: seq<int>, i: int, picked: seq<int>, rejects: seq<real>)
  {
    && ShortThroughout(before, targets, i, picked, rejects)
    && after == Replay(before, targets, i, picked, rejects)
    && (|picked| == |rejects| || |after[i]| >= targets[i])
  }

  /** One more attempt, made while node i is short of its target, extends the run by that attempt. */
  lemma RunStep(before: Adj, targets: seq<int>, i: int, picked: seq<int>, rejects: seq<real>, dest: int)
    requires ShortThroughout(before, targets, i, picked, rejects) && |picked| < |rejects| && 0 <= dest < |before|
    requires |Replay(before, targets, i, picked, rejects)[i]| < targets[i]
    ensures PicksIn(picked + [dest], |before|)
    ensures Replay(before, targets, i, picked + [dest], rejects)
            == Attempt(Replay(before, targets, i, picked, rejects), targets, i, dest, rejects[|picked|])
    ensures ShortThroughout(before, targets, i, picked + [dest], rejects)
  {
    var next := picked + [dest];
    assert next[..|picked|] == picked;
    forall k | 0 <= k < |next|
      ensures |Replay(before, targets, i, next[..k], rejects)[i]| < targets[i]
    {
      assert next[..k] == picked[..k];
    }
  }

  /** A node already at its target makes no attempt: the empty run. */
  lemma EmptyRun(adj: Adj, targets: seq<int>, i: int, rejects: seq<real>)
    requires 0 <= i < |adj| && |targets| == |adj| && |adj[i]| >= targets[i]
    ensures Run(adj, adj, targets, i, [], rejects)
  {
  }

  function StepRejects(draws: seq<StepDraw>): seq<real>
  {
    seq(|draws|, k requires 0 <= k < |draws| => draws[k].reject)
  }

  function CdfRejects(draws: seq<CdfDraw>): seq<real>
  {
    seq(|draws|, k requires 0 <= k < |draws| => draws[k].reject)
  }

  function LengthRejects(draws: seq<LengthDraw>): seq<real>
  {
    seq(|draws|, k requires 0 <= k < |draws| => draws[k].reject)
  }

  /** Draw k of the fast loop picked the node `steps` places from i along the ring. */
  ghost predicate StepPicks(n: int, i: int, draws: seq<StepDraw>, picked: seq<int>)
    requires 0 <= i < n && |picked| <= |draws| && forall k :: 0 <= k < |draws| ==> 0 <= draws[k].steps <= n
  {
    forall k :: 0 <= k < |picked| ==> picked[k] == StepIndex(i, draws[k].steps, draws[k].forward, n)
  }

  /** Draw k of the exact loop picked a nearest slot of the cumulative table for its scaled draw. */
  ghost predicate TablePicks(sumProb: seq<real>, draws: seq<CdfDraw>, picked: seq<int>)
    requires |sumProb| > 0 && 0.0 <= sumProb[|sumProb| - 1] && |picked| <= |draws|
    requires forall k :: 0 <= k < |draws| ==> 0.0 <= draws[k].u < 1.0
  {
    forall k :: 0 <= k < |picked| ==> ClosestPick(sumProb, ScaledDraw(draws[k].u, sumProb[|sumProb| - 1]), picked[k])
  }

  /** Draw k of the generic loop picked the node of a clamped-lookup slot for its drawn length. */
  ghost predicate LengthPicks(table: seq<DistanceEntry>, draws: seq<LengthDraw>, picked: seq<int>)
    requires |picked| <= |draws|
  {
    forall k :: 0 <= k < |picked| ==> exists m :: ClampedPick(Keys(table), draws[k].length, m) && picked[k] == table[m].index
  }

  /** One more draw recorded: the pick of its clamped slot extends the picks so far. */
  lemma LengthPicksExtend(table: seq<DistanceEntry>, draws: seq<LengthDraw>, picked: seq<int>, slot: int, dest: int)
    requires |picked| < |draws| && LengthPicks(table, draws, picked)
    requires ClampedPick(Keys(table), draws[|picked|].length, slot) && dest == table[slot].index
    ensures LengthPicks(table, draws, picked + [dest])
  {
    var next := picked + [dest];
    forall k | 0 <= k < |next|
      ensures exists m :: ClampedPick(Keys(table), draws[k].length, m) && next[k] == table[m].index
    {
      if k == |picked| {
        assert ClampedPick(Keys(table), draws[k].length, slot) && next[k] == table[slot].index;
      } else {
        assert next[k] == picked[k];
      }
    }
  }

  /** The exact Kleinberg table of node i: the cumulative 1/distance weights over all nodes. */
  ghost function NodeTable(locs: seq<real>, i: int, distance: (real, real) -> real): (t: seq<real>)
    requires 0 <= i < |locs| && PositiveDistances(locs[i], locs, i, distance)
    ensures |t| == |locs| && NonDecreasing(t) && 0.0 <= t[0] <= t[|t| - 1]
  {
    var w := InverseDistances(locs[i], locs, i, distance);
    CumulativeShape(w, i);
    Cumulative(w, i)
  }

  /** Node i's run in the fast Kleinberg build: each attempt at the ring step of its draw. */
  ghost predicate StepRun(before: Adj, after: Adj, targets: seq<int>, i: int, draws: seq<StepDraw>, picked: seq<int>)
  {
    && Run(before, after, targets, i, picked, StepRejects(draws))
    && (forall k :: 0 <= k < |draws| ==> 0 <= draws[k].steps <= |before|)
    && StepPicks(|before|, i, draws, picked)
  }

  /** Node i's run in the exact Kleinberg build: each attempt at a nearest slot of node i's cumulative table. */
  ghost predicate TableRun(before: Adj, after: Adj, targets: seq<int>, locs: seq<real>, distance: (real, real) -> real,
                           i: int, draws: seq<CdfDraw>, picked: seq<int>)
  {
    && Run(before, after, targets, i, picked, CdfRejects(draws))
    && |locs| == |before| && PositiveDistances(locs[i], locs, i, distance)
    && (forall k :: 0 <= k < |draws| ==> 0.0 <= draws[k].u < 1.0)
    && TablePicks(NodeTable(locs, i, distance), draws, picked)
  }

  /** Node i's run in the generic build: each attempt at the clamped-lookup node for its drawn length. */
  ghost predicate LengthRun(before: Adj, after: Adj, targets: seq<int>, locs: seq<real>, distance: (real, real) -> real,
                            i: int, draws: seq<LengthDraw>, picked: seq<int>)
  {
    && Run(before, after, targets, i, picked, LengthRejects(draws))
    && |locs| == |before|
    && LengthPicks(DistanceTable(locs, i, distance), draws, picked)
  }

  /** The first |picks| nodes' runs of a generic build, node k taking the graph from states[k] to states[k + 1]. */
  ghost predicate LengthRuns(states: seq<Adj>, picks: seq<seq<int>>, targets: seq<int>, locs: seq<real>,
                             distance: (real, real) -> real, draws: seq<seq<LengthDraw>>)
  {
    && |states| == |picks| + 1 && |picks| <= |draws|
    && forall k :: 0 <= k < |picks| ==> LengthRun(states[k], states[k + 1], targets, locs, distance, k, draws[k], picks[k])
  }

  /** The first |picks| nodes' runs of a fast Kleinberg build. */
  ghost predicate StepRuns(states: seq<Adj>, picks: seq<seq<int>>, targets: seq<int>, draws: seq<seq<StepDraw>>)
  {
    && |states| == |picks| + 1 && |picks| <= |draws|
    && forall k :: 0 <= k < |picks| ==> StepRun(states[k], states[k + 1], targets, k, draws[k], picks[k])
  }

  /** The first |picks| nodes' runs of an exact Kleinberg build. */
  ghost predicate TableRuns(states: seq<Adj>, picks: seq<seq<int>>, targets: seq<int>, locs: seq<real>,
                            distance: (real, real) -> real, draws: seq<seq<CdfDraw>>)
  {
    && |states| == |picks| + 1 && |picks| <= |draws|
    && forall k :: 0 <= k < |picks| ==> TableRun(states[k], states[k + 1], targets, locs, distance, k, draws[k], picks[k])
  }

  /** One more node's run extends a generic build's record. */
  lemma LengthRunsStep(states: seq<Adj>, picks: seq<seq<int>>, targets: seq<int>, locs: seq<real>,
                       distance: (real, real) -> real, draws: seq<seq<LengthDraw>>, after: Adj, picked: seq<int>)
    requires LengthRuns(states, picks, targets, locs, distance, draws) && |picks| < |draws|
    requires LengthRun(states[|picks|], after, targets, locs, distance, |picks|, draws[|picks|], picked)
    ensures LengthRuns(states + [after], picks + [picked], targets, locs, distance, draws)
  {
  }

  /** One more node's run extends a fast Kleinberg build's record. */
  lemma StepRunsStep(states: seq<Adj>, picks: seq<seq<int>>, targets: seq<int>, draws: seq<seq<StepDraw>>,
                     after: Adj, picked: seq<int>)
    requires StepRuns(states, picks, targets, draws) && |picks| < |draws|
    requires StepRun(states[|picks|], after, targets, |picks|, draws[|picks|], picked)
    ensures StepRuns(states + [after], picks + [picked], targets, draws)
  {
  }

  /** One more node's run extends an exact Kleinberg build's record. */
  lemma TableRunsStep(states: seq<Adj>, picks: seq<seq<int>>, targets: seq<int>, locs: seq<real>,
                      distance: (real, real) -> real, draws: seq<seq<CdfDraw>>, after: Adj, picked: seq<int>)
    requires TableRuns(states, picks, targets, locs, distance, draws) && |picks| < |draws|
    requires TableRun(states[|picks|], after, targets, locs, distance, |picks|, draws[|picks|], picked)
    ensures TableRuns(states + [after], picks + [picked], targets, locs, distance, draws)
  {
  }

  /** Every connection present after but not before joins some node to one of that node's own picks. */
  ghost predicate OwnLinks(before: Adj, after: Adj, picks: seq<seq<int>>)
  {
    forall a, b :: Arc(after, a, b) && !Arc(before, a, b) ==>
      (0 <= a < |picks| && b in picks[a]) || (0 <= b < |picks| && a in picks[b])
  }

  /** Node i's run adds only links to its own picks, so the builder's pass keeps `OwnLinks`. */
  lemma OwnLinksStep(start: Adj, mid: Adj, after: Adj, picks: seq<seq<int>>, picked: seq<int>)
    requires OwnLinks(start, mid, picks) && LinksOnlyTo(mid, after, |picks|, picked)
    ensures OwnLinks(start, after, picks + [picked])
  {
    var all := picks + [picked];
    forall a, b | Arc(after, a, b) && !Arc(start, a, b)
      ensures (0 <= a < |all| && b in all[a]) || (0 <= b < |all| && a in all[b])
    {
      if Arc(mid, a, b) {
        assert (0 <= a < |picks| && b in all[a]) || (0 <= b < |picks| && a in all[b]);
      } else {
        assert all[|picks|] == picked;
      }
    }
  }

  /** The generic build's table for node i: every node's entry, sorted by distance from node i. */
  function DistanceTable(locs: seq<real>, i: int, distance: (real, real) -> real): (table: seq<DistanceEntry>)
    requires 0 <= i < |locs|
  {
    Sort(Entries(locs, i, distance), EntryDistance)
  }

  /** The sorted table keeps one entry per node, ordered by distance, each naming a node of the graph. */
  lemma DistanceTableShape(locs: seq<real>, i: int, distance: (real, real) -> real)
    requires 0 <= i < |locs|
    ensures |DistanceTable(locs, i, distance)| == |locs|
    ensures SortedBy(DistanceTable(locs, i, distance), EntryDistance)
    ensures multiset(DistanceTable(locs, i, distance)) == multiset(Entries(locs, i, distance))
    ensures forall k :: 0 <= k < |locs| ==>
              var e := DistanceTable(locs, i, distance)[k];
              0 <= e.index < |locs| && e.distance == distance(locs[i], locs[e.index])
  {
    var es := Entries(locs, i, distance);
    var table := DistanceTable(locs, i, distance);
    SortProperties(es, EntryDistance);
    forall k | 0 <= k < |locs|
      ensures 0 <= table[k].index < |locs| && table[k].distance == distance(locs[i], locs[table[k].index])
    {
      assert table[k] in multiset(es);
      var j :| 0 <= j < |es| && es[j] == table[k];
    }
  }

  /** Every location of the sorted sequence is one of the draws. */
  lemma SortedFromDraws(draws: seq<real>)
    ensures forall k :: 0 <= k < |Sort(draws, Id)| ==> Sort(draws, Id)[k] in draws
  {
    SortProperties(draws, Id);
    forall k | 0 <= k < |Sort(draws, Id)|
      ensures Sort(draws, Id)[k] in draws
    {
      assert Sort(draws, Id)[k] in multiset(draws);
    }
  }

  /** Distinct draws from [0, 1), sorted, are pairwise at positive distance under a metric that separates distinct points. */
  lemma SortedDrawsSeparated(draws: seq<real>, distance: (real, real) -> real)
    requires DistinctValues(draws) && forall k :: 0 <= k < |draws| ==> 0.0 <= draws[k] < 1.0
    requires forall x, y :: 0.0 <= x < 1.0 && 0.0 <= y < 1.0 && x != y ==> distance(x, y) > 0.0
    ensures |Sort(draws, Id)| == |draws|
    ensures forall i :: 0 <= i < |draws| ==> PositiveDistances(Sort(draws, Id)[i], Sort(draws, Id), i, distance)
  {
    var locs := Sort(draws, Id);
    SortProperties(draws, Id);
    SortKeepsDistinct(draws, Id);
    SortedFromDraws(draws);
    forall i, j | 0 <= i < |locs| && 0 <= j < |locs| && j != i
      ensures distance(locs[i], locs[j]) > 0.0
    {
      assert locs[i] != locs[j];
    }
  }

  /** Nodes 0..k-1 have at least their target degree. */
  ghost predicate ReachedTargets(adj: Adj, targets: seq<int>, k: int)
  {
    forall j :: 0 <= j < k && j < |adj| && j < |targets| ==> |adj[j]| >= targets[j]
  }

  /** Connections are never removed, so a node at its target degree stays there. */
  lemma GrowthKeepsTargets(before: Adj, after: Adj, targets: seq<int>, k: int)
    requires Grows(before, after) && ReachedTargets(before, targets, k)
    ensures ReachedTargets(after, targets, k)
  {
    forall j | 0 <= j < k && j < |after| && j < |targets|
      ensures |after[j]| >= targets[j]
    {
      assert before[j] <= after[j];
    }
  }

  /** A node at its target degree after the first k extends the prefix of nodes at target. */
  lemma ReachedNext(adj: Adj, targets: seq<int>, k: int)
    requires ReachedTargets(adj, targets, k) && 0 <= k < |adj| && k < |targets| && |adj[k]| >= targets[k]
    ensures ReachedTargets(adj, targets, k + 1)
  {
  }

  /** Node i's run, recorded as the graph states[i + 1] right after it, left node i at its target degree. */
  ghost predicate RunReached(states: seq<Adj>, targets: seq<int>, i: int)
  {
    0 <= i && i + 1 < |states| && i < |states[i + 1]| && i < |targets| && |states[i + 1][i]| >= targets[i]
  }

  /** Recording one more node's run keeps the earlier runs' outcomes and adds that run's own. */
  lemma RunReachedStep(states: seq<Adj>, after: Adj, targets: seq<int>, i: int)
    requires 0 <= i && |states| == i + 1
    ensures forall k :: 0 <= k < i ==> (RunReached(states + [after], targets, k) <==> RunReached(states, targets, k))
    ensures RunReached(states + [after], targets, i) <==> i < |after| && i < |targets| && |after[i]| >= targets[i]
  {
    var all := states + [after];
    assert all[i + 1] == after;
    assert forall k :: 0 <= k <= i ==> all[k] == states[k];
  }

  /**
   * The `complete` flag after the first i runs of a build: it holds exactly
   * when each of those runs ended at its node's target, and then those nodes
   * are still at their targets in the latest graph.
   */
  ghost predicate BuildOutcome(states: seq<Adj>, targets: seq<int>, complete: bool, i: int)
  {
    && 0 <= i < |states|
    && (complete <==> forall k :: 0 <= k < i ==> RunReached(states, targets, k))
    && (complete ==> ReachedTargets(states[i], targets, i))
  }

  /** One more run, which only grows the graph, updates the flag by whether that run ended at its node's target. */
  lemma BuildOutcomeStep(states: seq<Adj>, after: Adj, targets: seq<int>, complete: bool, reached: bool, i: int)
    requires BuildOutcome(states, targets, complete, i) && |states| == i + 1
    requires Grows(states[i], after)
    requires reached <==> i < |after| && i < |targets| && |after[i]| >= targets[i]
    ensures BuildOutcome(states + [after], targets, complete && reached, i + 1)
  {
    RunReachedStep(states, after, targets, i);
    if complete {
      GrowthKeepsTargets(states[i], after, targets, i);
      if reached {
        ReachedNext(after, targets, i);
      }
    }
    assert (states + [after])[i + 1] == after;
  }

  /** The length of the connection between the two nodes of a pair; 0 for a pair that names no node. */
  function PairLength(locs: seq<real>, p: (int, int), distance: (real, real) -> real): real
  {
    if 0 <= p.0 < |locs| && 0 <= p.1 < |locs| then distance(locs[p.0], locs[p.1]) else 0.0
  }

  /** Sum of the squared lengths of all connection lists. */
  function SumSquareDegrees(adj: Adj): int
  {
    if adj == [] then 0 else SumSquareDegrees(adj[..|adj| - 1]) + |adj[|adj| - 1]| * |adj[|adj| - 1]|
  }

  /** The variance numerator n * sum(d^2) - (sum d)^2, in exact integers. */
  function VarianceNumerator(adj: Adj): int
  {
    |adj| * SumSquareDegrees(adj) - SumDegrees(adj) * SumDegrees(adj)
  }

  /** Sum over the nodes of (degree - x)^2, expanded; it is never negative. */
  lemma {:induction false} SquaredDeviationsNonNegative(adj: Adj, x: int)
    ensures SumSquareDegrees(adj) - 2 * x * SumDegrees(adj) + |adj| * x * x >= 0
  {
    if adj != [] {
      var init, d := adj[..|adj| - 1], |adj[|adj| - 1]|;
      SquaredDeviationsNonNegative(init, x);
      DeviationStep(|init|, SumSquareDegrees(init), SumDegrees(init), d, x);
    }
  }

  /** Adding a node of degree d adds (d - x)^2 to the expanded sum of squared deviations. */
  lemma DeviationStep(n: int, q: int, t: int, d: int, x: int)
    requires q - 2 * x * t + n * x * x >= 0
    ensures (q + d * d) - 2 * x * (t + d) + (n + 1) * x * x >= 0
  {
    assert (q + d * d) - 2 * x * (t + d) + (n + 1) * x * x == (q - 2 * x * t + n * x * x) + (d - x) * (d - x);
  }

  /** The numerator of the degree variance is never negative, so the variance is non-negative in exact arithmetic. */
  lemma {:induction false} VarianceNumeratorNonNegative(adj: Adj)
    ensures VarianceNumerator(adj) >= 0
  {
    if adj != [] {
      var init, d := adj[..|adj| - 1], |adj[|adj| - 1]|;
      var n, q, t := |init|, SumSquareDegrees(init), SumDegrees(init);
      VarianceNumeratorNonNegative(init);
      SquaredDeviationsNonNegative(init, d);
      assert |adj| == n + 1 && SumSquareDegrees(adj) == q + d * d && SumDegrees(adj) == t + d;
      AddOneNode(n, q, t, d);
    }
  }

  /** (n + 1)(q + d^2) - (t + d)^2 == (n q - t^2) + (q - 2 d t + n d^2) */
  lemma AddOneNode(n: int, q: int, t: int, d: int)
    ensures (n + 1) * (q + d * d) - (t + d) * (t + d) == (n * q - t * t) + (q - 2 * d * t + n * d * d)
  {
    assert (n + 1) * (q + d * d) == n * q + q + n * (d * d) + d * d;
    assert (t + d) * (t + d) == t * t + 2 * d * t + d * d;
    assert n * (d * d) == n * d * d;
  }

  /** The exact-arithmetic variance, scaled by n^2, is the variance numerator. */
  lemma VarianceScaling(sumSquares: int, sum: int, n: int, v: real)
    requires n > 0 && v == sumSquares as real / n as real - (sum * sum) as real / (n * n) as real
    ensures v * (n * n) as real == (n * sumSquares - sum * sum) as real
  {
    var nr := n as real;
    assert (n * n) as real == nr * nr;
    assert (sumSquares as real / nr) * (nr * nr) == sumSquares as real * nr;
    assert ((sum * sum) as real / (nr * nr)) * (nr * nr) == (sum * sum) as real;
  }

  /** A node as a saved graph stores it: its location and its target degree. */
  datatype SavedNode = SavedNode(location: real, target: int)

  /** The connection pairs a saved edge section announces, when it is long enough to hold them. */
  ghost predicate Complete(data: seq<int>)
  {
    |data| >= 1 && (data[0] <= 0 || 2 * data[0] <= |data| - 1)
  }

  /** A pair before the count that names no node makes the section unreadable. */
  lemma PairOutOfRange(data: seq<int>, n: int, k: nat)
    requires 2 * k + 2 <= |data| - 1 && k < data[0]
    requires !(0 <= data[1 + 2 * k] < n && 0 <= data[2 + 2 * k] < n)
    ensures !(Complete(data) && PairsIn(Pairs(data[1..], PairCount(data)), n))
  {
    if Complete(data) {
      assert Pairs(data[1..], PairCount(data))[k] == (data[1 + 2 * k], data[2 + 2 * k]);
    }
  }

  /** The number of pairs a complete edge section holds; a negative count reads no pairs. */
  function PairCount(data: seq<int>): nat
    requires |data| >= 1
  {
    if data[0] <= 0 then 0 else data[0]
  }

  /**
   * The edge section written for an undirected graph is complete, every pair
   * names a node, and reading it back onto as many fresh nodes restores every
   * connection and no other.
   */
  lemma WrittenSectionReadsBack(adj: Adj)
    requires Undirected(adj)
    ensures var data := [|UpEdges(adj)|] + Flatten(UpEdges(adj));
            && Complete(data) && PairCount(data) == |UpEdges(adj)|
            && PairsIn(Pairs(data[1..], PairCount(data)), |adj|)
            && Undirected(ConnectAll(Adjacency.Empty(|adj|), Pairs(data[1..], PairCount(data))))
            && forall i, j :: Arc(ConnectAll(Adjacency.Empty(|adj|), Pairs(data[1..], PairCount(data))), i, j) <==> Arc(adj, i, j)
  {
    var data := [|UpEdges(adj)|] + Flatten(UpEdges(adj));
    assert data[1..] == Flatten(UpEdges(adj));
    EdgeListRoundTrip(adj);
  }

  class Graph {
    /** Node locations by node index: node i sits at locations[i]. */
    var locations: seq<real>
    /** Each node's connection list, by node index. */
    var adj: Adj
    /** Each node's target degree, from the degree source. */
    var targets: seq<int>

    ghost predicate Valid()
      reads this
    {
      |locations| == |adj| == |targets| && InRange(adj)
    }

    predicate AtDegree(i: int)
      reads this
      requires 0 <= i < |adj| && |targets| == |adj|
    {
      |adj[i]| >= targets[i]
    }

    /** A graph with no nodes, what the private constructor leaves once its argument is accepted. */
    constructor Init()
      ensures Valid() && Undirected(adj)
      ensures locations == [] && adj == [] && targets == []
    {
      locations, adj, targets := [], [], [];
    }

    /** The private constructor: a non-positive node count is rejected. */
    static method New(nNodes: int) returns (r: Result<Graph, GraphError>)
      ensures nNodes <= 0 <==> r.Failure?
      ensures r.Failure? ==> r.error == NonPositiveNodeCount
      ensures r.Success? ==> fresh(r.value) && r.value.Valid() && r.value.adj == [] && r.value.locations == []
    {
      if nNodes <= 0 {
        return Failure(NonPositiveNodeCount);
      }
      var g := new Graph.Init();
      return Success(g);
    }

    /**
     * Place n nodes: locations i/n (fast) or the given uniform draws, sorted
     * ascending; node i gets locations[i] and the i-th degree from the source.
     */
    method GenerateNodes(n: nat, fast: bool, draws: seq<real>, degrees: seq<int>)
      requires Valid() && adj == []
      requires |degrees| == n
      requires !fast ==> |draws| == n
      modifies this
      ensures Valid() && Undirected(adj)
      ensures adj == Adjacency.Empty(n) && targets == degrees
      ensures locations == Sort(if fast then FastLocations(n) else draws, Id)
      ensures SortedBy(locations, Id)
      ensures multiset(locations) == multiset(if fast then FastLocations(n) else draws)
      ensures fast ==> locations == FastLocations(n)
    {
      var locs := RawLocations(n, fast, draws);
      SortProperties(locs, Id);
      if fast {
        FastLocationsShape(n);
        SortOfSorted(locs, Id);
      }
      locations := Sort(locs, Id);
      // node i takes locations[i] and the i-th degree, with no connections yet
      adj, targets := Adjacency.Empty(n), degrees;
    }

    /** The unsorted locations: i/n for fast generation, otherwise one uniform draw per node. */
    static method RawLocations(n: nat, fast: bool, draws: seq<real>) returns (locs: seq<real>)
      requires !fast ==> |draws| == n
      ensures locs == if fast then FastLocations(n) else draws
    {
      ghost var raw := if fast then FastLocations(n) else draws;
      locs := [];
      for i := 0 to n
        invariant locs == raw[..i]
      {
        locs := locs + [if fast then i as real / n as real else draws[i]];
      }
      assert raw[..n] == raw;
    }

    // -------------------------------------------------------------------
    // Sandberg ring with shortcuts

    /** Base ring: an outgoing connection from every node to its predecessor. */
    method SandbergRing()
      requires Valid()
      modifies this`adj
      ensures Valid()
      ensures |adj| == |old(adj)|
      ensures forall i :: 0 <= i < |adj| ==> adj[i] == old(adj[i]) + [Predecessor(i, |adj|)]
      ensures old(adj) == Adjacency.Empty(|adj|) ==> adj == RingOf(|adj|)
    {
      var n := |adj|;
      for i := 0 to n
        invariant |adj| == n && Valid()
        invariant forall k :: 0 <= k < i ==> adj[k] == old(adj[k]) + [Predecessor(k, n)]
        invariant forall k :: i <= k < n ==> adj[k] == old(adj[k])
      {
        adj := ConnectOutgoing(adj, i, Predecessor(i, n));
      }
      if old(adj) == Adjacency.Empty(n) {
        assert forall k :: 0 <= k < n ==> adj[k] == RingOf(n)[k];
      }
    }

    /**
     * The shortcut loop of one node: draw peers until one is neither the node
     * itself nor already listed, then connect to it (outgoing only).
     */
    method SandbergShortcut(i: int, draws: seq<int>) returns (used: nat, accepted: bool)
      requires Valid() && 0 <= i < |adj|
      requires forall k :: 0 <= k < |draws| ==> 0 <= draws[k] < |adj|
      modifies this`adj
      ensures Valid() && |adj| == |old(adj)|
      ensures used <= |draws|
      ensures !accepted ==> used == |draws| && adj == old(adj)
      ensures accepted ==> 0 < used && draws[used - 1] != i && draws[used - 1] !in old(adj[i])
      ensures accepted ==> adj == ConnectOutgoing(old(adj), i, draws[used - 1])
      ensures forall k :: 0 <= k < used && (k < used - 1 || !accepted) ==> draws[k] == i || draws[k] in old(adj[i])
      ensures Simple(old(adj)) ==> Simple(adj)
    {
      used, accepted := 0, false;
      while used < |draws|
        invariant used <= |draws|
        invariant adj == old(adj)
        invariant forall k :: 0 <= k < used ==> draws[k] == i || draws[k] in adj[i]
      {
        var other := draws[used];
        used := used + 1;
        if other != i && other !in adj[i] {
          adj := ConnectOutgoing(adj, i, other);
          accepted := true;
          assert adj[i] == old(adj[i]) + [other];
          return;
        }
      }
    }

    // -------------------------------------------------------------------
    // Connection attempts shared by the builders

    /** Apply the acceptance rule to one candidate and connect when it accepts. */
    method TryConnect(src: int, dest: int, reject: real) returns (connected: bool)
      requires Valid() && Undirected(adj) && 0 <= src < |adj| && 0 <= dest < |adj|
      modifies this`adj
      ensures Valid() && Undirected(adj) && Grows(old(adj), adj)
      ensures connected == Accepts(old(adj), targets, src, dest, reject)
      ensures adj == if connected then Connect(old(adj), src, dest) else old(adj)
    {
      ConnectArcs(adj, src, dest);
      if src == dest || dest in adj[src] || (AtDegree(dest) && reject < RejectProbability) {
        connected := false;
      } else {
        adj := Connect(adj, src, dest);
        connected := true;
      }
    }

    /** One fast Kleinberg attempt: step `steps` places along the ring in the drawn direction. */
    method FastAttempt(i: int, d: StepDraw) returns (dest: int, connected: bool)
      requires Valid() && Undirected(adj) && 0 <= i < |adj|
      requires 0 <= d.steps <= |adj|
      modifies this`adj
      ensures Valid() && Undirected(adj) && Grows(old(adj), adj)
      ensures dest == StepIndex(i, d.steps, d.forward, |adj|)
      ensures connected == Accepts(old(adj), targets, i, dest, d.reject)
      ensures adj == if connected then Connect(old(adj), i, dest) else old(adj)
    {
      dest := StepIndex(i, d.steps, d.forward, |adj|);
      connected := TryConnect(i, dest, d.reject);
    }

    /** One exact Kleinberg attempt: scale the draw by the total and take the nearest cumulative slot. */
    method CdfAttempt(i: int, sumProb: seq<real>, d: CdfDraw) returns (dest: int, connected: bool)
      requires Valid() && Undirected(adj) && 0 <= i < |adj|
      requires |sumProb| == |adj| && NonDecreasing(sumProb) && 0.0 <= sumProb[0]
      requires 0.0 <= d.u < 1.0
      modifies this`adj
      ensures Valid() && Undirected(adj) && Grows(old(adj), adj)
      ensures ClosestPick(sumProb, ScaledDraw(d.u, sumProb[|sumProb| - 1]), dest)
      ensures connected == Accepts(old(adj), targets, i, dest, d.reject)
      ensures adj == if connected then Connect(old(adj), i, dest) else old(adj)
    {
      var x := ScaledDraw(d.u, sumProb[|sumProb| - 1]);
      dest := NearestIndex(sumProb, x);
      connected := TryConnect(i, dest, d.reject);
    }

    /** One generic attempt: the entry whose distance matches the drawn length, by clamped lookup. */
    method LengthAttempt(i: int, table: seq<DistanceEntry>, d: LengthDraw) returns (dest: int, connected: bool, ghost slot: int)
      requires Valid() && Undirected(adj) && 0 <= i < |adj|
      requires |table| == |adj| && SortedBy(table, EntryDistance)
      requires forall k :: 0 <= k < |table| ==> 0 <= table[k].index < |adj|
      modifies this`adj
      ensures Valid() && Undirected(adj) && Grows(old(adj), adj)
      ensures ClampedPick(Keys(table), d.length, slot) && dest == table[slot].index
      ensures connected == Accepts(old(adj), targets, i, dest, d.reject)
      ensures adj == if connected then Connect(old(adj), i, dest) else old(adj)
    {
      SortedKeys(table);
      var k := ClampedIndex(Keys(table), d.length);
      slot := k;
      dest := table[k].index;
      connected := TryConnect(i, dest, d.reject);
    }
  
    // -------------------------------------------------------------------
    // Connect loops: attempts for node i until it is at its target degree,
    // or until its draws run out.

    /** One pass of the fast loop: the next draw's attempt, recorded in the loop's bookkeeping. */
    method StepsStep(i: int, draws: seq<StepDraw>, picked: seq<int>, ghost before: Adj) returns (dest: int)
      requires Valid() && Undirected(adj) && 0 <= i < |adj| && |picked| < |draws|
      requires forall k :: 0 <= k < |draws| ==> 0 <= draws[k].steps <= |adj|
      requires StepPicks(|adj|, i, draws, picked)
      requires Grows(before, adj) && LinksOnlyTo(before, adj, i, picked)
      modifies this`adj
      ensures Valid() && Undirected(adj) && |adj| == |old(adj)|
      ensures 0 <= dest < |adj| && adj == Attempt(old(adj), targets, i, dest, draws[|picked|].reject)
      ensures StepPicks(|adj|, i, draws, picked + [dest])
      ensures Grows(before, adj) && LinksOnlyTo(before, adj, i, picked + [dest])
    {
      ghost var mid := adj;
      var connected;
      dest, connected := FastAttempt(i, draws[|picked|]);
      AttemptStep(before, mid, adj, i, picked, dest, connected);
    }

    /** One pass of the exact loop: the next draw's attempt, recorded in the loop's bookkeeping. */
    method TableStep(i: int, sumProb: seq<real>, draws: seq<CdfDraw>, picked: seq<int>, ghost before: Adj) returns (dest: int)
      requires Valid() && Undirected(adj) && 0 <= i < |adj| && |picked| < |draws|
      requires |sumProb| == |adj| && NonDecreasing(sumProb) && 0.0 <= sumProb[0]
      requires forall k :: 0 <= k < |draws| ==> 0.0 <= draws[k].u < 1.0
      requires TablePicks(sumProb, draws, picked)
      requires Grows(before, adj) && LinksOnlyTo(before, adj, i, picked)
      modifies this`adj
      ensures Valid() && Undirected(adj) && |adj| == |old(adj)|
      ensures 0 <= dest < |adj| && adj == Attempt(old(adj), targets, i, dest, draws[|picked|].reject)
      ensures TablePicks(sumProb, draws, picked + [dest])
      ensures Grows(before, adj) && LinksOnlyTo(before, adj, i, picked + [dest])
    {
      ghost var mid := adj;
      var connected;
      dest, connected := CdfAttempt(i, sumProb, draws[|picked|]);
      AttemptStep(before, mid, adj, i, picked, dest, connected);
    }

    /** One pass of the generic loop: the next draw's attempt, recorded in the loop's bookkeeping. */
    method LengthStep(i: int, table: seq<DistanceEntry>, draws: seq<LengthDraw>, picked: seq<int>, ghost before: Adj) returns (dest: int)
      requires Valid() && Undirected(adj) && 0 <= i < |adj| && |picked| < |draws|
      requires |table| == |adj| && SortedBy(table, EntryDistance)
      requires forall k :: 0 <= k < |table| ==> 0 <= table[k].index < |adj|
      requires LengthPicks(table, draws, picked)
      requires Grows(before, adj) && LinksOnlyTo(before, adj, i, picked)
      modifies this`adj
      ensures Valid() && Undirected(adj) && |adj| == |old(adj)|
      ensures 0 <= dest < |adj| && adj == Attempt(old(adj), targets, i, dest, draws[|picked|].reject)
      ensures LengthPicks(table, draws, picked + [dest])
      ensures Grows(before, adj) && LinksOnlyTo(before, adj, i, picked + [dest])
    {
      ghost var mid := adj;
      var connected;
      ghost var slot;
      dest, connected, slot := LengthAttempt(i, table, draws[|picked|]);
      AttemptStep(before, mid, adj, i, picked, dest, connected);
      LengthPicksExtend(table, draws, picked, slot, dest);
    }

    /** The fast Kleinberg loop of node i. */
    method ConnectBySteps(i: int, draws: seq<StepDraw>) returns (picked: seq<int>)
      requires Valid() && Undirected(adj) && 0 <= i < |adj|
      requires forall k :: 0 <= k < |draws| ==> 0 <= draws[k].steps <= |adj|
      modifies this`adj
      ensures Valid() && Undirected(adj) && Grows(old(adj), adj)
      ensures Run(old(adj), adj, targets, i, picked, StepRejects(draws))
      ensures |picked| <= |draws| && StepPicks(|adj|, i, draws, picked)
      ensures LinksOnlyTo(old(adj), adj, i, picked)
    {
      picked := [];
      ghost var rejects := StepRejects(draws);
      ghost var start := adj;
      while !AtDegree(i) && |picked| < |draws|
        invariant Valid() && Undirected(adj) && Grows(start, adj) && start == old(adj)
        invariant ShortThroughout(start, targets, i, picked, rejects)
        invariant adj == Replay(start, targets, i, picked, rejects)
        invariant StepPicks(|adj|, i, draws, picked)
        invariant LinksOnlyTo(start, adj, i, picked)
        decreases |draws| - |picked|
      {
        var dest := StepsStep(i, draws, picked, start);
        RunStep(start, targets, i, picked, rejects, dest);
        picked := picked + [dest];
      }
    }

    /** The exact Kleinberg loop of node i, over its cumulative table. */
    method ConnectByTable(i: int, sumProb: seq<real>, draws: seq<CdfDraw>) returns (picked: seq<int>)
      requires Valid() && Undirected(adj) && 0 <= i < |adj|
      requires |sumProb| == |adj| && NonDecreasing(sumProb) && 0.0 <= sumProb[0]
      requires forall k :: 0 <= k < |draws| ==> 0.0 <= draws[k].u < 1.0
      modifies this`adj
      ensures Valid() && Undirected(adj) && Grows(old(adj), adj)
      ensures Run(old(adj), adj, targets, i, picked, CdfRejects(draws))
      ensures |picked| <= |draws| && TablePicks(sumProb, draws, picked)
      ensures LinksOnlyTo(old(adj), adj, i, picked)
    {
      picked := [];
      ghost var rejects := CdfRejects(draws);
      ghost var start := adj;
      while !AtDegree(i) && |picked| < |draws|
        invariant Valid() && Undirected(adj) && Grows(start, adj) && start == old(adj)
        invariant ShortThroughout(start, targets, i, picked, rejects)
        invariant adj == Replay(start, targets, i, picked, rejects)
        invariant TablePicks(sumProb, draws, picked)
        invariant LinksOnlyTo(start, adj, i, picked)
        decreases |draws| - |picked|
      {
        var dest := TableStep(i, sumProb, draws, picked, start);
        RunStep(start, targets, i, picked, rejects, dest);
        picked := picked + [dest];
      }
    }

    /** The generic loop of node i, over its table sorted by distance. */
    method ConnectByLength(i: int, table: seq<DistanceEntry>, draws: seq<LengthDraw>) returns (picked: seq<int>)
      requires Valid() && Undirected(adj) && 0 <= i < |adj|
      requires |table| == |adj| && SortedBy(table, EntryDistance)
      requires forall k :: 0 <= k < |table| ==> 0 <= table[k].index < |adj|
      modifies this`adj
      ensures Valid() && Undirected(adj) && Grows(old(adj), adj)
      ensures Run(old(adj), adj, targets, i, picked, LengthRejects(draws))
      ensures |picked| <= |draws| && LengthPicks(table, draws, picked)
      ensures LinksOnlyTo(old(adj), adj, i, picked)
    {
      picked := [];
      ghost var rejects := LengthRejects(draws);
      ghost var start := adj;
      while !AtDegree(i) && |picked| < |draws|
        invariant Valid() && Undirected(adj) && Grows(start, adj) && start == old(adj)
        invariant ShortThroughout(start, targets, i, picked, rejects)
        invariant adj == Replay(start, targets, i, picked, rejects)
        invariant LengthPicks(table, draws, picked)
        invariant LinksOnlyTo(start, adj, i, picked)
        decreases |draws| - |picked|
      {
        var dest := LengthStep(i, table, draws, picked, start);
        RunStep(start, targets, i, picked, rejects, dest);
        picked := picked + [dest];
      }
    }

    // -------------------------------------------------------------------
    // Builders

    /**
     * The Sandberg build: place the nodes, each with target degree 1337; give
     * every node an outgoing connection to its ring predecessor; then give each
     * node one outgoing shortcut to a drawn peer that is neither itself nor
     * already listed. `complete` holds exactly when no node ran out of draws.
     */
    static method GenerateSandberg(n: int, fast: bool, locDraws: seq<real>, shortcutDraws: seq<seq<int>>)
      returns (r: Result<Graph, GraphError>, complete: bool)
      requires n > 0 ==> (!fast ==> |locDraws| == n) && |shortcutDraws| == n
      requires forall i, k :: 0 <= i < |shortcutDraws| && 0 <= k < |shortcutDraws[i]| ==> 0 <= shortcutDraws[i][k] < n
      ensures n <= 0 <==> r.Failure?
      ensures r.Failure? ==> r.error == NonPositiveNodeCount
      ensures r.Success? ==> fresh(r.value) && r.value.Valid() && |r.value.adj| == n
      ensures r.Success? ==> r.value.targets == seq(n, _ => SandbergDegree)
      ensures r.Success? ==> r.value.locations == Sort(if fast then FastLocations(n) else locDraws, Id)
      ensures r.Success? ==> forall i :: 0 <= i < n ==> 1 <= |r.value.adj[i]| <= 2 && r.value.adj[i][0] == Predecessor(i, n)
      ensures r.Success? ==> forall i :: 0 <= i < n && |r.value.adj[i]| == 2 ==>
                r.value.adj[i][1] != i && r.value.adj[i][1] != r.value.adj[i][0]
      ensures r.Success? ==> forall i :: 0 <= i < n ==> r.value.adj[i] == WithShortcut([Predecessor(i, n)], i, shortcutDraws[i])
      ensures r.Success? ==> (complete <==> forall i :: 0 <= i < n ==> FirstFree([Predecessor(i, n)], i, shortcutDraws[i]) < |shortcutDraws[i]|)
      ensures r.Success? && complete ==> n >= 3 && Simple(r.value.adj)
      ensures r.Success? && complete ==> forall i :: 0 <= i < n ==> |r.value.adj[i]| == 2
    {
      complete := true;
      r := New(n);
      if r.Failure? {
        return;
      }
      var g := r.value;
      g.GenerateNodes(n, fast, locDraws, seq(n, _ => SandbergDegree));
      ghost var locs, targets := g.locations, g.targets;
      g.SandbergRing();
      complete := g.SandbergShortcuts(shortcutDraws);
      assert r.value == g && g.locations == locs && g.targets == targets;
      ghost var a := g.adj;
      ShortcutRing(a, shortcutDraws);
    }

    /** The shortcut pass over all nodes of the ring. */
    method SandbergShortcuts(draws: seq<seq<int>>) returns (complete: bool)
      requires Valid() && |draws| == |adj| && |adj| > 0
      requires forall k :: 0 <= k < |adj| ==> adj[k] == [Predecessor(k, |adj|)]
      requires forall i, k :: 0 <= i < |draws| && 0 <= k < |draws[i]| ==> 0 <= draws[i][k] < |adj|
      modifies this`adj
      ensures Valid() && |adj| == |old(adj)|
      ensures forall i :: 0 <= i < |adj| ==> 1 <= |adj[i]| <= 2 && adj[i][0] == Predecessor(i, |adj|)
      ensures forall i :: 0 <= i < |adj| && |adj[i]| == 2 ==> adj[i][1] != i && adj[i][1] != adj[i][0]
      ensures forall i :: 0 <= i < |adj| ==> adj[i] == WithShortcut([Predecessor(i, |adj|)], i, draws[i])
      ensures complete <==> forall i :: 0 <= i < |adj| ==> FirstFree([Predecessor(i, |adj|)], i, draws[i]) < |draws[i]|
      ensures complete ==> |adj| >= 3 && Simple(adj)
      ensures complete ==> forall i :: 0 <= i < |adj| ==> |adj[i]| == 2
    {
      var n := |adj|;
      complete := true;
      for i := 0 to n
        invariant Valid() && |adj| == n
        invariant forall k :: i <= k < n ==> adj[k] == [Predecessor(k, n)]
        invariant forall k :: 0 <= k < i ==> adj[k] == WithShortcut([Predecessor(k, n)], k, draws[k])
        invariant complete <==> forall k :: 0 <= k < i ==> FirstFree([Predecessor(k, n)], k, draws[k]) < |draws[k]|
      {
        var accepted := ShortcutNode(i, draws[i]);
        complete := complete && accepted;
      }
      ShortcutRing(adj, draws);
    }

    /** The shortcut of node i, seen from the pass over all nodes: only node i's list changes, by at most one valid peer. */
    method ShortcutNode(i: int, draws: seq<int>) returns (accepted: bool)
      requires Valid() && 0 <= i < |adj| && |adj[i]| == 1
      requires forall k :: 0 <= k < |draws| ==> 0 <= draws[k] < |adj|
      modifies this`adj
      ensures Valid() && |adj| == |old(adj)|
      ensures forall k :: 0 <= k < |adj| && k != i ==> adj[k] == old(adj[k])
      ensures accepted == (FirstFree(old(adj[i]), i, draws) < |draws|)
      ensures adj[i] == WithShortcut(old(adj[i]), i, draws)
      ensures accepted ==> |adj[i]| == 2 && adj[i][0] == old(adj[i][0]) && adj[i][1] != i && adj[i][1] != adj[i][0]
    {
      var used;
      used, accepted := SandbergShortcut(i, draws);
      var u := FirstFree(old(adj[i]), i, draws);
      if accepted {
        assert adj[i] == old(adj[i]) + [draws[used - 1]];
        assert u == used - 1;
      }
    }

    /**
     * The generic build: place the nodes; then for each node short of its
     * target degree, sort all nodes by distance from it and connect by drawn
     * link lengths. `complete` holds exactly when every node's own run ended
     * at its target degree (a run that did not used up its draws), and then
     * every node is still at its target at the end.
     */
    static method GenerateGraph(n: int, fast: bool, locDraws: seq<real>, degrees: seq<int>,
                                distance: (real, real) -> real, draws: seq<seq<LengthDraw>>)
      returns (r: Result<Graph, GraphError>, complete: bool, ghost states: seq<Adj>, ghost picks: seq<seq<int>>)
      requires n > 0 ==> |degrees| == n && |draws| == n && (!fast ==> |locDraws| == n)
      ensures n <= 0 <==> r.Failure?
      ensures r.Failure? ==> r.error == NonPositiveNodeCount
      ensures r.Success? ==> fresh(r.value) && r.value.Valid() && Undirected(r.value.adj)
      ensures r.Success? ==> |r.value.adj| == n && r.value.targets == degrees
      ensures r.Success? ==> r.value.locations == Sort(if fast then FastLocations(n) else locDraws, Id)
      ensures r.Success? ==> |states| == n + 1 && |picks| == n && states[0] == Adjacency.Empty(n) && states[n] == r.value.adj
      ensures r.Success? ==> forall i :: 0 <= i < n ==>
                LengthRun(states[i], states[i + 1], degrees, r.value.locations, distance, i, draws[i], picks[i])
      ensures r.Success? ==> OwnLinks(Adjacency.Empty(n), r.value.adj, picks)
      ensures r.Success? ==> (complete <==> forall i :: 0 <= i < n ==> RunReached(states, degrees, i))
      ensures r.Success? && complete ==> ReachedTargets(r.value.adj, r.value.targets, n)
    {
      complete, states, picks := true, [], [];
      r := New(n);
      if r.Failure? {
        return;
      }
      var g := r.value;
      g.GenerateNodes(n, fast, locDraws, degrees);
      complete, states, picks := g.LinkAllByLength(distance, draws);
    }

    /**
     * The one-dimensional Kleinberg build: place the nodes; then for each node
     * connect to peers chosen by the fast step approximation or by the exact
     * cumulative table of 1/distance weights. `complete` holds exactly when
     * every node's own run ended at its target degree, and then every node is
     * still at its target at the end.
     */
    static method Generate1dKleinbergGraph(n: int, fast: bool, locDraws: seq<real>, degrees: seq<int>,
                                           distance: (real, real) -> real,
                                           stepDraws: seq<seq<StepDraw>>, cdfDraws: seq<seq<CdfDraw>>)
      returns (r: Result<Graph, GraphError>, complete: bool, ghost states: seq<Adj>, ghost picks: seq<seq<int>>)
      requires n > 0 ==> |degrees| == n
      requires n > 0 && fast ==>
                 && |stepDraws| == n
                 && forall i, k :: 0 <= i < n && 0 <= k < |stepDraws[i]| ==> 0 <= stepDraws[i][k].steps <= n / 2
      requires n > 0 && !fast ==>
                 && |locDraws| == n && DistinctValues(locDraws)
                 && (forall k :: 0 <= k < n ==> 0.0 <= locDraws[k] < 1.0)
                 && (forall x, y :: 0.0 <= x < 1.0 && 0.0 <= y < 1.0 && x != y ==> distance(x, y) > 0.0)
                 && |cdfDraws| == n
                 && forall i, k :: 0 <= i < n && 0 <= k < |cdfDraws[i]| ==> 0.0 <= cdfDraws[i][k].u < 1.0
      ensures n <= 0 <==> r.Failure?
      ensures r.Failure? ==> r.error == NonPositiveNodeCount
      ensures r.Success? ==> fresh(r.value) && r.value.Valid() && Undirected(r.value.adj)
      ensures r.Success? ==> |r.value.adj| == n && r.value.targets == degrees
      ensures r.Success? ==> r.value.locations == Sort(if fast then FastLocations(n) else locDraws, Id)
      ensures r.Success? ==> |states| == n + 1 && |picks| == n && states[0] == Adjacency.Empty(n) && states[n] == r.value.adj
      ensures r.Success? && fast ==> forall i :: 0 <= i < n ==>
                StepRun(states[i], states[i + 1], degrees, i, stepDraws[i], picks[i])
      ensures r.Success? && !fast ==> forall i :: 0 <= i < n ==>
                TableRun(states[i], states[i + 1], degrees, r.value.locations, distance, i, cdfDraws[i], picks[i])
      ensures r.Success? ==> OwnLinks(Adjacency.Empty(n), r.value.adj, picks)
      ensures r.Success? ==> (complete <==> forall i :: 0 <= i < n ==> RunReached(states, degrees, i))
      ensures r.Success? && complete ==> ReachedTargets(r.value.adj, r.value.targets, n)
    {
      complete, states, picks := true, [], [];
      r := New(n);
      if r.Failure? {
        return;
      }
      var g := r.value;
      g.GenerateNodes(n, fast, locDraws, degrees);
      if fast {
        complete, states, picks := g.LinkAllBySteps(stepDraws);
      } else {
        SortedDrawsSeparated(locDraws, distance);
        complete, states, picks := g.LinkAllByTable(distance, cdfDraws);
      }
    }

    // -------------------------------------------------------------------
    // The pass of each builder over all source nodes

    /**
     * Generic build, every node in turn: states[i] is the graph before node i's
     * run and states[i + 1] the graph after it.
     */
    method LinkAllByLength(distance: (real, real) -> real, draws: seq<seq<LengthDraw>>)
      returns (complete: bool, ghost states: seq<Adj>, ghost picks: seq<seq<int>>)
      requires Valid() && Undirected(adj) && |draws| == |adj|
      modifies this`adj
      ensures Valid() && Undirected(adj) && Grows(old(adj), adj)
      ensures |states| == |adj| + 1 && |picks| == |adj| && states[0] == old(adj) && states[|adj|] == adj
      ensures forall i :: 0 <= i < |adj| ==> LengthRun(states[i], states[i + 1], targets, locations, distance, i, draws[i], picks[i])
      ensures OwnLinks(old(adj), adj, picks)
      ensures complete <==> forall i :: 0 <= i < |adj| ==> RunReached(states, targets, i)
      ensures complete ==> ReachedTargets(adj, targets, |adj|)
    {
      complete, states, picks := true, [adj], [];
      ghost var start := adj;
      for i := 0 to |adj|
        invariant Valid() && Undirected(adj) && Grows(start, adj) && start == old(adj)
        invariant |states| == i + 1 && |picks| == i && states[0] == start && states[i] == adj
        invariant LengthRuns(states, picks, targets, locations, distance, draws)
        invariant OwnLinks(start, adj, picks)
        invariant BuildOutcome(states, targets, complete, i)
      {
        ghost var before := adj;
        var reached;
        ghost var picked;
        reached, picked := LinkByLength(i, distance, draws[i]);
        OwnLinksStep(start, before, adj, picks, picked);
        BuildOutcomeStep(states, adj, targets, complete, reached, i);
        complete := complete && reached;
        LengthRunsStep(states, picks, targets, locations, distance, draws, adj, picked);
        states, picks := states + [adj], picks + [picked];
      }
    }

    /** Fast Kleinberg build, every node in turn, with the same bookkeeping as `LinkAllByLength`. */
    method LinkAllBySteps(draws: seq<seq<StepDraw>>) returns (complete: bool, ghost states: seq<Adj>, ghost picks: seq<seq<int>>)
      requires Valid() && Undirected(adj) && |draws| == |adj|
      requires forall i, k :: 0 <= i < |adj| && 0 <= k < |draws[i]| ==> 0 <= draws[i][k].steps <= |adj| / 2
      modifies this`adj
      ensures Valid() && Undirected(adj) && Grows(old(adj), adj)
      ensures |states| == |adj| + 1 && |picks| == |adj| && states[0] == old(adj) && states[|adj|] == adj
      ensures forall i :: 0 <= i < |adj| ==> StepRun(states[i], states[i + 1], targets, i, draws[i], picks[i])
      ensures OwnLinks(old(adj), adj, picks)
      ensures complete <==> forall i :: 0 <= i < |adj| ==> RunReached(states, targets, i)
      ensures complete ==> ReachedTargets(adj, targets, |adj|)
    {
      complete, states, picks := true, [adj], [];
      ghost var start := adj;
      for i := 0 to |adj|
        invariant Valid() && Undirected(adj) && Grows(start, adj) && start == old(adj)
        invariant |states| == i + 1 && |picks| == i && states[0] == start && states[i] == adj
        invariant StepRuns(states, picks, targets, draws)
        invariant OwnLinks(start, adj, picks)
        invariant BuildOutcome(states, targets, complete, i)
      {
        ghost var before := adj;
        var reached;
        ghost var picked;
        reached, picked := LinkBySteps(i, draws[i]);
        OwnLinksStep(start, before, adj, picks, picked);
        BuildOutcomeStep(states, adj, targets, complete, reached, i);
        complete := complete && reached;
        StepRunsStep(states, picks, targets, draws, adj, picked);
        states, picks := states + [adj], picks + [picked];
      }
    }

    /** Exact Kleinberg build, every node in turn, over one shared table array. */
    method LinkAllByTable(distance: (real, real) -> real, draws: seq<seq<CdfDraw>>)
      returns (complete: bool, ghost states: seq<Adj>, ghost picks: seq<seq<int>>)
      requires Valid() && Undirected(adj) && |draws| == |adj|
      requires forall j :: 0 <= j < |adj| ==> PositiveDistances(locations[j], locations, j, distance)
      requires forall i, k :: 0 <= i < |adj| && 0 <= k < |draws[i]| ==> 0.0 <= draws[i][k].u < 1.0
      modifies this`adj
      ensures Valid() && Undirected(adj) && Grows(old(adj), adj)
      ensures |states| == |adj| + 1 && |picks| == |adj| && states[0] == old(adj) && states[|adj|] == adj
      ensures forall i :: 0 <= i < |adj| ==> TableRun(states[i], states[i + 1], targets, locations, distance, i, draws[i], picks[i])
      ensures OwnLinks(old(adj), adj, picks)
      ensures complete <==> forall i :: 0 <= i < |adj| ==> RunReached(states, targets, i)
      ensures complete ==> ReachedTargets(adj, targets, |adj|)
    {
      complete, states, picks := true, [adj], [];
      ghost var start := adj;
      var sumProb := new real[|adj|];
      for i := 0 to |adj|
        invariant Valid() && Undirected(adj) && Grows(start, adj) && start == old(adj)
        invariant |states| == i + 1 && |picks| == i && states[0] == start && states[i] == adj
        invariant TableRuns(states, picks, targets, locations, distance, draws)
        invariant OwnLinks(start, adj, picks)
        invariant BuildOutcome(states, targets, complete, i)
      {
        ghost var before := adj;
        var reached;
        ghost var picked;
        reached, picked := LinkByTable(i, sumProb, distance, draws[i]);
        OwnLinksStep(start, before, adj, picks, picked);
        BuildOutcomeStep(states, adj, targets, complete, reached, i);
        complete := complete && reached;
        TableRunsStep(states, picks, targets, locations, distance, draws, adj, picked);
        states, picks := states + [adj], picks + [picked];
      }
    }

    // -------------------------------------------------------------------
    // The work of each builder for one source node

    /** Generic build, node i: skip it when at degree, else sort all nodes by distance from it and connect. */
    method LinkByLength(i: int, distance: (real, real) -> real, draws: seq<LengthDraw>) returns (reached: bool, ghost picked: seq<int>)
      requires Valid() && Undirected(adj) && 0 <= i < |adj|
      modifies this`adj
      ensures Valid() && Undirected(adj) && Grows(old(adj), adj)
      ensures reached == AtDegree(i)
      ensures LengthRun(old(adj), adj, targets, locations, distance, i, draws, picked)
      ensures LinksOnlyTo(old(adj), adj, i, picked)
    {
      if AtDegree(i) {
        EmptyRun(adj, targets, i, LengthRejects(draws));
        return true, [];
      }
      var table := DistanceTable(locations, i, distance);
      DistanceTableShape(locations, i, distance);
      picked := ConnectByLength(i, table, draws);
      reached := AtDegree(i);
    }

    /** Fast Kleinberg build, node i: connect by ring steps. */
    method LinkBySteps(i: int, draws: seq<StepDraw>) returns (reached: bool, ghost picked: seq<int>)
      requires Valid() && Undirected(adj) && 0 <= i < |adj|
      requires forall k :: 0 <= k < |draws| ==> 0 <= draws[k].steps <= |adj| / 2
      modifies this`adj
      ensures Valid() && Undirected(adj) && Grows(old(adj), adj)
      ensures reached == AtDegree(i)
      ensures StepRun(old(adj), adj, targets, i, draws, picked)
      ensures LinksOnlyTo(old(adj), adj, i, picked)
    {
      picked := ConnectBySteps(i, draws);
      reached := AtDegree(i);
    }

    /** Exact Kleinberg build, node i: fill the cumulative table of 1/distance weights and connect by it. */
    method LinkByTable(i: int, sumProb: array<real>, distance: (real, real) -> real, draws: seq<CdfDraw>) returns (reached: bool, ghost picked: seq<int>)
      requires Valid() && Undirected(adj) && 0 <= i < |adj| && sumProb.Length == |adj|
      requires PositiveDistances(locations[i], locations, i, distance)
      requires forall k :: 0 <= k < |draws| ==> 0.0 <= draws[k].u < 1.0
      modifies this`adj, sumProb
      ensures Valid() && Undirected(adj) && Grows(old(adj), adj)
      ensures sumProb[..] == Cumulative(InverseDistances(locations[i], locations, i, distance), i)
      ensures reached == AtDegree(i)
      ensures TableRun(old(adj), adj, targets, locations, distance, i, draws, picked)
      ensures LinksOnlyTo(old(adj), adj, i, picked)
    {
      var w := InverseDistances(locations[i], locations, i, distance);
      var norm := FillCumulative(sumProb, w, i);
      CumulativeShape(w, i);
      picked := ConnectByTable(i, sumProb[..], draws);
      reached := AtDegree(i);
    }

    // -------------------------------------------------------------------
    // Statistics

    /** The degree sum halved: every undirected connection is counted at both ends. */
    method NEdges() returns (edges: int)
      ensures edges == SumDegrees(adj) / 2
      ensures Undirected(adj) ==> SumDegrees(adj) % 2 == 0 && edges == |UpEdges(adj)|
    {
      var total := 0;
      for i := 0 to |adj|
        invariant total == SumDegrees(adj[..i])
      {
        assert adj[..i + 1][..i] == adj[..i];
        total := total + |adj[i]|;
      }
      assert adj[..|adj|] == adj;
      if Undirected(adj) {
        Handshake(adj);
      }
      edges := total / 2;
    }

    /** The smallest degree; 0 for a graph with no nodes. */
    method MinDegree() returns (m: int)
      ensures |adj| == 0 ==> m == 0
      ensures forall i :: 0 <= i < |adj| ==> m <= |adj[i]|
      ensures |adj| > 0 ==> exists i :: 0 <= i < |adj| && m == |adj[i]|
    {
      if |adj| == 0 {
        return 0;
      }
      m := |adj[0]|;
      ghost var at := 0;
      for i := 1 to |adj|
        invariant 0 <= at < |adj| && m == |adj[at]|
        invariant forall k :: 0 <= k < i ==> m <= |adj[k]|
      {
        if |adj[i]| < m {
          m, at := |adj[i]|, i;
        }
      }
    }

    /** The largest degree; 0 for a graph with no nodes. */
    method MaxDegree() returns (m: int)
      ensures |adj| == 0 ==> m == 0
      ensures forall i :: 0 <= i < |adj| ==> |adj[i]| <= m
      ensures |adj| > 0 ==> exists i :: 0 <= i < |adj| && m == |adj[i]|
    {
      if |adj| == 0 {
        return 0;
      }
      m := |adj[0]|;
      ghost var at := 0;
      for i := 1 to |adj|
        invariant 0 <= at < |adj| && m == |adj[at]|
        invariant forall k :: 0 <= k < i ==> |adj[k]| <= m
      {
        if |adj[i]| > m {
          m, at := |adj[i]|, i;
        }
      }
    }

    /**
     * The population variance of the degrees, sum(d^2)/n - (sum d)^2/n^2, in
     * exact arithmetic; 0 for a graph with no nodes. It is never negative.
     */
    method DegreeVariance() returns (v: real)
      ensures |adj| == 0 ==> v == 0.0
      ensures |adj| > 0 ==> v * (|adj| * |adj|) as real == VarianceNumerator(adj) as real
      ensures v >= 0.0
    {
      var n := |adj|;
      if n == 0 {
        return 0.0;
      }
      var sumDegrees, sumSquareDegrees := 0, 0;
      for i := 0 to n
        invariant sumDegrees == SumDegrees(adj[..i])
        invariant sumSquareDegrees == SumSquareDegrees(adj[..i])
      {
        assert adj[..i + 1][..i] == adj[..i];
        var d := |adj[i]|;
        sumDegrees := sumDegrees + d;
        sumSquareDegrees := sumSquareDegrees + d * d;
      }
      assert adj[..n] == adj;
      v := sumSquareDegrees as real / n as real - (sumDegrees * sumDegrees) as real / (n * n) as real;
      VarianceNumeratorNonNegative(adj);
      VarianceScaling(sumSquareDegrees, sumDegrees, n, v);
    }

    /** Every node's degree, by node index. */
    method Degrees() returns (d: array<int>)
      ensures fresh(d)
      ensures d.Length == |adj| && forall i :: 0 <= i < |adj| ==> d[i] == |adj[i]|
    {
      d := new int[|adj|];
      for i := 0 to |adj|
        invariant forall k :: 0 <= k < i ==> d[k] == |adj[k]|
      {
        d[i] := |adj[i]|;
      }
    }

    /**
     * The length of every connection, once per connection: node by node, for
     * each neighbour not below it, in list order - the order of the edge list.
     */
    method EdgeLengths(distance: (real, real) -> real) returns (lengths: array<real>)
      requires Valid() && Undirected(adj)
      ensures fresh(lengths)
      ensures lengths.Length == |UpEdges(adj)|
      ensures forall k :: 0 <= k < lengths.Length ==> lengths[k] == PairLength(locations, UpEdges(adj)[k], distance)
    {
      var nEdges := NEdges();
      lengths := new real[nEdges];
      var e := 0;
      for i := 0 to |adj|
        invariant e == |UpEdges(adj[..i])| && UpEdges(adj[..i]) <= UpEdges(adj)
        invariant forall k :: 0 <= k < e ==> lengths[k] == PairLength(locations, UpEdges(adj)[k], distance)
      {
        e := RowLengths(i, lengths, e, distance);
        UpEdgesStep(adj, i);
        UpEdgesPrefix(adj, i + 1);
      }
      assert adj[..|adj|] == adj;
    }

    /** The inner loop of `EdgeLengths` for node i: the lengths of its connections to nodes not below it. */
    method RowLengths(i: int, lengths: array<real>, start: int, distance: (real, real) -> real) returns (e: int)
      requires Valid() && LoopFree(adj) && 0 <= i < |adj|
      requires lengths.Length == |UpEdges(adj)| && start == |UpEdges(adj[..i])|
      modifies lengths
      ensures e == start + |RowUp(i, adj[i])| && start <= e <= lengths.Length
      ensures forall k :: 0 <= k < start ==> lengths[k] == old(lengths[k])
      ensures forall k :: start <= k < e ==> lengths[k] == PairLength(locations, UpEdges(adj)[k], distance)
    {
      var conn, locs := adj[i], locations;
      ghost var a := adj;
      ghost var done, edges := UpEdges(a[..i]), UpEdges(a);
      e := start;
      EmittedPrefix(a, i, 0);
      for j := 0 to |conn|
        invariant e == start + |RowUp(i, conn[..j])| && start <= e
        invariant done + RowUp(i, conn[..j]) <= edges
        invariant forall k :: 0 <= k < start ==> lengths[k] == old(lengths[k])
        invariant forall k :: start <= k < e ==> lengths[k] == PairLength(locs, edges[k], distance)
      {
        RowUpStep(i, conn, j);
        EmittedPrefix(a, i, j + 1);
        if conn[j] < i {
          continue;
        }
        NextUpEdge(a, i, j);
        StoreLength(lengths, start, e, distance(locs[i], locs[conn[j]]), locs, edges, distance);
        e := e + 1;
      }
      assert conn[..|conn|] == conn;
    }

    /** Write the length of the next pair after the lengths already written from `start` on. */
    static method StoreLength(lengths: array<real>, start: int, e: int, len: real,
                              ghost locs: seq<real>, ghost edges: seq<(int, int)>, distance: (real, real) -> real)
      requires 0 <= start <= e < lengths.Length && e < |edges| && len == PairLength(locs, edges[e], distance)
      requires forall k :: start <= k < e ==> lengths[k] == PairLength(locs, edges[k], distance)
      modifies lengths
      ensures forall k :: 0 <= k < start ==> lengths[k] == old(lengths[k])
      ensures forall k :: start <= k <= e ==> lengths[k] == PairLength(locs, edges[k], distance)
    {
      lengths[e] := len;
    }

    // -------------------------------------------------------------------
    // The edge section of a saved graph

    /**
     * The edge section `write` produces: the count, then for every node and
     * every neighbour above it in list order, the pair (node, neighbour).
     */
    method EncodeEdges() returns (count: int, indexes: seq<int>)
      ensures count == |UpEdges(adj)| && indexes == Flatten(UpEdges(adj))
      ensures |indexes| == 2 * count
    {
      count, indexes := 0, [];
      for i := 0 to |adj|
        invariant count == |UpEdges(adj[..i])| && indexes == Flatten(UpEdges(adj[..i]))
      {
        var conn := adj[i];
        assert conn[..0] == [] && UpEdges(adj[..i]) + [] == UpEdges(adj[..i]);
        for j := 0 to |conn|
          invariant count == |UpEdges(adj[..i]) + RowUp(i, conn[..j])|
          invariant indexes == Flatten(UpEdges(adj[..i]) + RowUp(i, conn[..j]))
        {
          RowUpStep(i, conn, j);
          ghost var emitted := UpEdges(adj[..i]) + RowUp(i, conn[..j]);
          if conn[j] <= i {
            assert RowUp(i, conn[..j + 1]) == RowUp(i, conn[..j]);
          } else {
            assert UpEdges(adj[..i]) + RowUp(i, conn[..j + 1]) == emitted + [(i, conn[j])];
            FlattenAppend(emitted, (i, conn[j]));
            count := count + 1;
            indexes := indexes + [i, conn[j]];
          }
        }
        assert conn[..|conn|] == conn;
        UpEdgesStep(adj, i);
      }
      assert adj[..|adj|] == adj;
      FlattenShape(UpEdges(adj));
    }

    /**
     * Rebuild a saved graph: the node count, the saved nodes, then the edge
     * section (a count and that many index pairs), connecting each pair in turn.
     */
    static method Read(networkSize: int, saved: seq<SavedNode>, data: seq<int>) returns (r: Result<Graph, GraphError>)
      ensures networkSize <= 0 ==> r == Failure(NonPositiveNodeCount)
      ensures networkSize > 0 && (|saved| < networkSize || !Complete(data)) ==> r.Failure?
      ensures r.Success? <==>
                && networkSize > 0 && |saved| >= networkSize && Complete(data)
                && PairsIn(Pairs(data[1..], PairCount(data)), networkSize)
      ensures r.Failure? && r.error == TruncatedInput ==> networkSize > 0 && (|saved| < networkSize || !Complete(data))
      ensures r.Success? ==>
                && fresh(r.value) && r.value.Valid() && Undirected(r.value.adj)
                && r.value.locations == seq(networkSize, i requires 0 <= i < networkSize => saved[i].location)
                && r.value.targets == seq(networkSize, i requires 0 <= i < networkSize => saved[i].target)
                && r.value.adj == ConnectAll(Adjacency.Empty(networkSize), Pairs(data[1..], PairCount(data)))
    {
      r := New(networkSize);
      if r.Failure? {
        return;
      }
      var n := networkSize;
      if |saved| < n {
        return Failure(TruncatedInput);
      }
      var g := r.value;
      g.locations := seq(n, i requires 0 <= i < n => saved[i].location);
      g.targets := seq(n, i requires 0 <= i < n => saved[i].target);
      g.adj := Adjacency.Empty(n);
      if |data| == 0 {
        return Failure(TruncatedInput);
      }
      var edges := ReadEdges(n, data);
      if edges.Failure? {
        return Failure(edges.error);
      }
      g.adj := edges.value;
      return Success(g);
    }

    /**
     * The edge loop of `read` onto n fresh nodes: the written count, then that
     * many index pairs, each connected in turn; a short section or an index
     * naming no node fails.
     */
    static method ReadEdges(n: nat, data: seq<int>) returns (r: Result<Adj, GraphError>)
      requires |data| >= 1
      ensures r.Success? <==> Complete(data) && PairsIn(Pairs(data[1..], PairCount(data)), n)
      ensures r.Failure? && r.error == TruncatedInput ==> !Complete(data)
      ensures r.Success? ==> Undirected(r.value) && r.value == ConnectAll(Adjacency.Empty(n), Pairs(data[1..], PairCount(data)))
    {
      var writtenConnections := data[0];
      var rest := data[1..];
      var adj := Adjacency.Empty(n);
      var k := 0;
      ghost var read: seq<(int, int)> := [];
      while k < writtenConnections
        invariant k == 0 || k <= writtenConnections
        invariant 0 <= k && 2 * k <= |rest| && read == Pairs(rest, k)
        invariant PairsIn(read, n) && |adj| == n && Undirected(adj)
        invariant adj == ConnectAll(Adjacency.Empty(n), read)
        decreases writtenConnections - k
      {
        if 2 * k + 2 > |rest| {
          assert !Complete(data);
          return Failure(TruncatedInput);
        }
        var from, to := rest[2 * k], rest[2 * k + 1];
        if !(0 <= from < n && 0 <= to < n) {
          PairOutOfRange(data, n, k);
          return Failure(NodeIndexOutOfRange);
        }
        PairsExtend(rest, k);
        ConnectAllStep(Adjacency.Empty(n), read, from, to);
        ConnectArcs(adj, from, to);
        adj := Connect(adj, from, to);
        read := read + [(from, to)];
        k := k + 1;
      }
      assert k == PairCount(data) && Complete(data);
      return Success(adj);
    }
}
}
