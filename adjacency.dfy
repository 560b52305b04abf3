/**
 * Undirected adjacency as the graph keeps it: one connection list per node,
 * indexed by node index, in the order connections were made.  `Connect` is the
 * reciprocal insertion every builder uses; the edge list written to and read
 * from a saved graph is the sequence of (low, high) index pairs.
 */
module Adjacency {

  /** adj[i] is node i's connection list. */
  type Adj = seq<seq<int>>

  ghost predicate InRange(adj: Adj)
  {
    forall i, k :: 0 <= i < |adj| && 0 <= k < |adj[i]| ==> 0 <= adj[i][k] < |adj|
  }

  ghost predicate LoopFree(adj: Adj)
  {
    forall i :: 0 <= i < |adj| ==> i !in adj[i]
  }

  ghost predicate Distinct(l: seq<int>)
  {
    forall k, m :: 0 <= k < m < |l| ==> l[k] != l[m]
  }

  ghost predicate DuplicateFree(adj: Adj)
  {
    forall i :: 0 <= i < |adj| ==> Distinct(adj[i])
  }

  ghost predicate Symmetric(adj: Adj)
  {
    forall i, j :: 0 <= i < |adj| && 0 <= j < |adj| && j in adj[i] ==> i in adj[j]
  }

  /** Every listed neighbour is a node, none is the node itself, none is listed twice. */
  ghost predicate Simple(adj: Adj)
  {
    InRange(adj) && LoopFree(adj) && DuplicateFree(adj)
  }

  /** The invariant of every graph built from reciprocal connections. */
  ghost predicate Undirected(adj: Adj)
  {
    Simple(adj) && Symmetric(adj)
  }

  /** Connection lists only ever grow: each old list is a prefix of the new one. */
  ghost predicate Grows(before: Adj, after: Adj)
  {
    |before| == |after| && forall k :: 0 <= k < |before| ==> before[k] <= after[k]
  }

  /** Node i lists j among its connections. */
  ghost predicate Arc(adj: Adj, i: int, j: int)
  {
    0 <= i < |adj| && j in adj[i]
  }

  /** n nodes, no connections. */
  function Empty(n: nat): (adj: Adj)
    ensures |adj| == n && Undirected(adj)
    ensures forall i, j :: !Arc(adj, i, j)
  {
    seq(n, _ => [])
  }

  /** Reciprocal insertion; connecting a node to itself or to a current neighbour changes nothing. */
  function Connect(adj: Adj, a: int, b: int): Adj
    requires 0 <= a < |adj| && 0 <= b < |adj|
  {
    if a == b || b in adj[a] then adj else adj[a := adj[a] + [b]][b := adj[b] + [a]]
  }

  /** One-sided insertion, used only by the Sandberg graph (its ring and its shortcuts). */
  function ConnectOutgoing(adj: Adj, a: int, b: int): Adj
    requires 0 <= a < |adj|
  {
    adj[a := adj[a] + [b]]
  }

  /**
   * `Connect` keeps the adjacency undirected, loop-free and duplicate-free, and
   * adds exactly the two arcs between distinct endpoints.
   */
  lemma ConnectArcs(adj: Adj, a: int, b: int)
    requires Undirected(adj) && 0 <= a < |adj| && 0 <= b < |adj|
    ensures |Connect(adj, a, b)| == |adj|
    ensures Undirected(Connect(adj, a, b))
    ensures Grows(adj, Connect(adj, a, b))
    ensures forall i, j :: Arc(Connect(adj, a, b), i, j) <==>
              Arc(adj, i, j) || (a != b && ((i == a && j == b) || (i == b && j == a)))
  {
    if a != b && b !in adj[a] {
      ConnectNewArcs(adj, a, b);
      ConnectStaysSimple(adj, a, b);
    }
  }

  /** Row i after connecting a new pair: a's and b's lists gain each other at the end, every other list is kept. */
  lemma ConnectRow(adj: Adj, a: int, b: int, i: int)
    requires 0 <= a < |adj| && 0 <= b < |adj| && a != b && b !in adj[a] && 0 <= i < |adj|
    ensures |Connect(adj, a, b)| == |adj|
    ensures Connect(adj, a, b)[i] == if i == a then adj[a] + [b] else if i == b then adj[b] + [a] else adj[i]
  {
  }

  /** Connecting a new pair adds exactly its two arcs and keeps every list as a prefix. */
  lemma ConnectNewArcs(adj: Adj, a: int, b: int)
    requires 0 <= a < |adj| && 0 <= b < |adj| && a != b && b !in adj[a]
    ensures Grows(adj, Connect(adj, a, b))
    ensures forall i, j :: Arc(Connect(adj, a, b), i, j) <==> Arc(adj, i, j) || (i == a && j == b) || (i == b && j == a)
  {
    var r := Connect(adj, a, b);
    forall i | 0 <= i < |adj|
      ensures adj[i] <= r[i]
      ensures forall j :: j in r[i] <==> j in adj[i] || (i == a && j == b) || (i == b && j == a)
    {
      ConnectRow(adj, a, b, i);
    }
  }

  /** Connecting a new pair of distinct nodes, not yet connected either way, keeps the lists simple. */
  lemma ConnectStaysSimple(adj: Adj, a: int, b: int)
    requires Simple(adj) && 0 <= a < |adj| && 0 <= b < |adj| && a != b && b !in adj[a] && a !in adj[b]
    ensures Simple(Connect(adj, a, b))
  {
    var r := Connect(adj, a, b);
    forall i | 0 <= i < |r|
      ensures i !in r[i] && Distinct(r[i])
      ensures forall k :: 0 <= k < |r[i]| ==> 0 <= r[i][k] < |r|
    {
      ConnectRow(adj, a, b, i);
    }
  }

  // ---------------------------------------------------------------------
  // Degree sums and the (low, high) edge list

  /** Sum of the lengths of all connection lists. */
  function SumDegrees(adj: Adj): int
  {
    if adj == [] then 0 else SumDegrees(adj[..|adj| - 1]) + |adj[|adj| - 1]|
  }

  /** The pairs (i, j) emitted for node i's list: every neighbour above i, in list order. */
  function RowUp(i: int, l: seq<int>): seq<(int, int)>
  {
    if l == [] then []
    else RowUp(i, l[..|l| - 1]) + (if i < l[|l| - 1] then [(i, l[|l| - 1])] else [])
  }

  /** Node by node, each node's pairs with higher-indexed neighbours. */
  function UpEdges(adj: Adj): seq<(int, int)>
  {
    if adj == [] then [] else UpEdges(adj[..|adj| - 1]) + RowUp(|adj| - 1, adj[|adj| - 1])
  }

  /** The flat list of indexes: low and high of each pair in turn. */
  function Flatten(ps: seq<(int, int)>): seq<int>
  {
    if ps == [] then [] else Flatten(ps[..|ps| - 1]) + [ps[|ps| - 1].0, ps[|ps| - 1].1]
  }

  /** The first `count` pairs of a flat index list. */
  function Pairs(xs: seq<int>, count: nat): (ps: seq<(int, int)>)
    requires 2 * count <= |xs|
  {
    seq(count, k requires 0 <= k < count => (xs[2 * k], xs[2 * k + 1]))
  }

  /** One more pair read: the next two indexes of the flat list. */
  lemma PairsExtend(xs: seq<int>, count: nat)
    requires 2 * count + 2 <= |xs|
    ensures Pairs(xs, count + 1) == Pairs(xs, count) + [(xs[2 * count], xs[2 * count + 1])]
  {
  }

  ghost predicate PairsIn(ps: seq<(int, int)>, n: int)
  {
    forall k :: 0 <= k < |ps| ==> 0 <= ps[k].0 < n && 0 <= ps[k].1 < n
  }

  /** Connect the pairs one after another, as reading a saved graph does. */
  function ConnectAll(adj: Adj, ps: seq<(int, int)>): (r: Adj)
    requires PairsIn(ps, |adj|)
    ensures |r| == |adj|
  {
    if ps == [] then adj
    else Connect(ConnectAll(adj, ps[..|ps| - 1]), ps[|ps| - 1].0, ps[|ps| - 1].1)
  }

  /** Connecting one more pair is one more `Connect` after the pairs before it. */
  lemma ConnectAllStep(adj: Adj, ps: seq<(int, int)>, a: int, b: int)
    requires PairsIn(ps, |adj|) && 0 <= a < |adj| && 0 <= b < |adj|
    ensures PairsIn(ps + [(a, b)], |adj|)
    ensures ConnectAll(adj, ps + [(a, b)]) == Connect(ConnectAll(adj, ps), a, b)
  {
    assert (ps + [(a, b)])[..|ps|] == ps;
  }

  lemma RowUpStep(i: int, l: seq<int>, j: nat)
    requires j < |l|
    ensures RowUp(i, l[..j + 1]) == RowUp(i, l[..j]) + (if i < l[j] then [(i, l[j])] else [])
  {
    assert l[..j + 1][..j] == l[..j];
  }

  lemma UpEdgesStep(adj: Adj, i: nat)
    requires i < |adj|
    ensures UpEdges(adj[..i + 1]) == UpEdges(adj[..i]) + RowUp(i, adj[i])
  {
    assert adj[..i + 1][..i] == adj[..i];
  }

  lemma {:induction false} RowUpPrefix(i: int, l: seq<int>, j: nat)
    requires j <= |l|
    ensures RowUp(i, l[..j]) <= RowUp(i, l)
    decreases |l| - j
  {
    if j < |l| {
      RowUpStep(i, l, j);
      RowUpPrefix(i, l, j + 1);
    } else {
      assert l[..j] == l;
    }
  }

  lemma {:induction false} UpEdgesPrefix(adj: Adj, i: nat)
    requires i <= |adj|
    ensures UpEdges(adj[..i]) <= UpEdges(adj)
    decreases |adj| - i
  {
    if i < |adj| {
      UpEdgesStep(adj, i);
      UpEdgesPrefix(adj, i + 1);
    } else {
      assert adj[..i] == adj;
    }
  }

  /** What the nested write loop has emitted after node i's first j neighbours is a prefix of the edge list. */
  lemma EmittedPrefix(adj: Adj, i: nat, j: nat)
    requires i < |adj| && j <= |adj[i]|
    ensures UpEdges(adj[..i]) + RowUp(i, adj[i][..j]) <= UpEdges(adj)
  {
    RowUpPrefix(i, adj[i], j);
    UpEdgesStep(adj, i);
    UpEdgesPrefix(adj, i + 1);
  }

  /** The upward pair of node i's j-th neighbour comes right after the pairs emitted before it. */
  lemma NextUpEdge(adj: Adj, i: nat, j: nat)
    requires i < |adj| && j < |adj[i]| && i < adj[i][j]
    ensures var done := UpEdges(adj[..i]) + RowUp(i, adj[i][..j]);
            |done| < |UpEdges(adj)| && UpEdges(adj)[|done|] == (i, adj[i][j])
  {
    RowUpStep(i, adj[i], j);
    EmittedPrefix(adj, i, j + 1);
  }

  lemma FlattenAppend(ps: seq<(int, int)>, p: (int, int))
    ensures Flatten(ps + [p]) == Flatten(ps) + [p.0, p.1]
  {
    assert (ps + [p])[..|ps|] == ps;
  }

  lemma {:induction false} RowUpMembers(i: int, l: seq<int>)
    ensures forall a, j :: (a, j) in RowUp(i, l) <==> a == i && j in l && i < j
  {
    if l != [] {
      RowUpMembers(i, l[..|l| - 1]);
      assert l == l[..|l| - 1] + [l[|l| - 1]];
    }
  }

  /** The edge list holds exactly the arcs from a lower to a higher index. */
  lemma {:induction false} UpEdgesMembers(adj: Adj)
    ensures forall i, j :: (i, j) in UpEdges(adj) <==> Arc(adj, i, j) && i < j
  {
    if adj != [] {
      var n := |adj|;
      UpEdgesMembers(adj[..n - 1]);
      RowUpMembers(n - 1, adj[n - 1]);
    }
  }

  /** Every written pair has its low index first, and both are node indexes. */
  lemma EdgeListShape(adj: Adj)
    requires InRange(adj)
    ensures PairsIn(UpEdges(adj), |adj|)
    ensures forall k :: 0 <= k < |UpEdges(adj)| ==> UpEdges(adj)[k].0 < UpEdges(adj)[k].1
  {
    UpEdgesMembers(adj);
    forall k | 0 <= k < |UpEdges(adj)|
      ensures 0 <= UpEdges(adj)[k].0 < UpEdges(adj)[k].1 < |adj|
    {
      assert UpEdges(adj)[k] in UpEdges(adj);
    }
  }

  lemma {:induction false} FlattenShape(ps: seq<(int, int)>)
    ensures |Flatten(ps)| == 2 * |ps|
    ensures forall k :: 0 <= k < |ps| ==> Flatten(ps)[2 * k] == ps[k].0 && Flatten(ps)[2 * k + 1] == ps[k].1
  {
    if ps != [] {
      FlattenShape(ps[..|ps| - 1]);
    }
  }

  /** Reading back the written index list yields the written pairs. */
  lemma PairsOfFlatten(ps: seq<(int, int)>)
    ensures 2 * |ps| <= |Flatten(ps)|
    ensures Pairs(Flatten(ps), |ps|) == ps
  {
    FlattenShape(ps);
  }

  /** Connecting pairs adds the arcs of those pairs with distinct endpoints, both ways, and nothing else. */
  lemma ConnectAllArcs(adj: Adj, ps: seq<(int, int)>)
    requires Undirected(adj) && PairsIn(ps, |adj|)
    ensures Undirected(ConnectAll(adj, ps))
    ensures forall i, j :: Arc(ConnectAll(adj, ps), i, j) <==>
              Arc(adj, i, j) || (i != j && ((i, j) in ps || (j, i) in ps))
  {
    ConnectAllUndirected(adj, ps);
    ConnectAllAddsPairs(adj, ps);
  }

  lemma {:induction false} ConnectAllUndirected(adj: Adj, ps: seq<(int, int)>)
    requires Undirected(adj) && PairsIn(ps, |adj|)
    ensures Undirected(ConnectAll(adj, ps))
  {
    if ps != [] {
      var init, last := ps[..|ps| - 1], ps[|ps| - 1];
      ConnectAllUndirected(adj, init);
      ConnectArcs(ConnectAll(adj, init), last.0, last.1);
    }
  }

  lemma ConnectAllAddsPairs(adj: Adj, ps: seq<(int, int)>)
    requires Undirected(adj) && PairsIn(ps, |adj|)
    ensures forall i, j :: Arc(ConnectAll(adj, ps), i, j) <==>
              Arc(adj, i, j) || (i != j && ((i, j) in ps || (j, i) in ps))
  {
    forall i, j
      ensures Arc(ConnectAll(adj, ps), i, j) <==> Arc(adj, i, j) || (i != j && ((i, j) in ps || (j, i) in ps))
    {
      ConnectAllArc(adj, ps, i, j);
    }
  }

  /** `ConnectAllAddsPairs` for one ordered pair of nodes. */
  lemma {:induction false} ConnectAllArc(adj: Adj, ps: seq<(int, int)>, i: int, j: int)
    requires Undirected(adj) && PairsIn(ps, |adj|)
    ensures Arc(ConnectAll(adj, ps), i, j) <==> Arc(adj, i, j) || (i != j && ((i, j) in ps || (j, i) in ps))
  {
    if ps != [] {
      var init, last := ps[..|ps| - 1], ps[|ps| - 1];
      ConnectAllArc(adj, init, i, j);
      ConnectAllUndirected(adj, init);
      var mid := ConnectAll(adj, init);
      ConnectArcs(mid, last.0, last.1);
      assert Arc(ConnectAll(adj, ps), i, j) <==>
             Arc(mid, i, j) || (last.0 != last.1 && ((i == last.0 && j == last.1) || (i == last.1 && j == last.0)));
      assert ps == init + [last];
    }
  }

  /**
   * The round trip of writing and reading a graph: connecting the written
   * pairs onto the same number of fresh nodes gives every node the same
   * neighbours.
   */
  lemma EdgeListRoundTrip(adj: Adj)
    requires Undirected(adj)
    ensures PairsIn(UpEdges(adj), |adj|)
    ensures 2 * |UpEdges(adj)| <= |Flatten(UpEdges(adj))|
    ensures Pairs(Flatten(UpEdges(adj)), |UpEdges(adj)|) == UpEdges(adj)
    ensures Undirected(ConnectAll(Empty(|adj|), UpEdges(adj)))
    ensures forall i, j :: Arc(ConnectAll(Empty(|adj|), UpEdges(adj)), i, j) <==> Arc(adj, i, j)
  {
    EdgeListShape(adj);
    PairsOfFlatten(UpEdges(adj));
    UpEdgesMembers(adj);
    ConnectAllArcs(Empty(|adj|), UpEdges(adj));
    forall i, j
      ensures Arc(ConnectAll(Empty(|adj|), UpEdges(adj)), i, j) <==> Arc(adj, i, j)
    {
      if Arc(adj, i, j) {
        assert 0 <= j < |adj| && i != j;
        if i < j {
          assert (i, j) in UpEdges(adj);
        } else {
          assert Arc(adj, j, i);
          assert (j, i) in UpEdges(adj);
        }
      }
    }
  }

  // ---------------------------------------------------------------------
  // Counting: the sum of degrees is twice the number of written pairs

  /** The arcs (j, i) for the neighbours j of i in list l; all of them, or those above i. */
  ghost function RowSet(i: int, l: seq<int>, upOnly: bool): set<(int, int)>
  {
    if l == [] then {}
    else RowSet(i, l[..|l| - 1], upOnly) + (if !upOnly || i < l[|l| - 1] then {(i, l[|l| - 1])} else {})
  }

  lemma {:induction false} RowSetMembers(i: int, l: seq<int>, upOnly: bool)
    ensures forall p :: p in RowSet(i, l, upOnly) <==> p.0 == i && p.1 in l && (!upOnly || i < p.1)
  {
    if l != [] {
      RowSetMembers(i, l[..|l| - 1], upOnly);
      assert l == l[..|l| - 1] + [l[|l| - 1]];
    }
  }

  lemma {:induction false} RowSetCount(i: int, l: seq<int>)
    requires Distinct(l)
    ensures |RowSet(i, l, false)| == |l|
    ensures |RowSet(i, l, true)| == |RowUp(i, l)|
  {
    if l != [] {
      var p, x := l[..|l| - 1], l[|l| - 1];
      assert l == p + [x];
      assert x !in p by {
        forall k | 0 <= k < |p| ensures p[k] != x {
          assert l[k] == p[k];
        }
      }
      RowSetCount(i, p);
      RowSetMembers(i, p, false);
      RowSetMembers(i, p, true);
    }
  }

  /** The arcs leaving nodes 0..k-1; all of them, or only those to a higher index. */
  ghost function Arcs(adj: Adj, k: nat, upOnly: bool): set<(int, int)>
    requires k <= |adj|
  {
    if k == 0 then {} else Arcs(adj, k - 1, upOnly) + RowSet(k - 1, adj[k - 1], upOnly)
  }

  lemma {:induction false} ArcsMembers(adj: Adj, k: nat, upOnly: bool)
    requires k <= |adj|
    ensures forall p :: p in Arcs(adj, k, upOnly) <==> 0 <= p.0 < k && p.1 in adj[p.0] && (!upOnly || p.0 < p.1)
  {
    if k > 0 {
      ArcsMembers(adj, k - 1, upOnly);
      RowSetMembers(k - 1, adj[k - 1], upOnly);
    }
  }

  lemma ArcsCount(adj: Adj, k: nat)
    requires DuplicateFree(adj) && k <= |adj|
    ensures |Arcs(adj, k, false)| == SumDegrees(adj[..k])
    ensures |Arcs(adj, k, true)| == |UpEdges(adj[..k])|
  {
    AllArcsCount(adj, k);
    UpArcsCount(adj, k);
  }

  lemma {:induction false} AllArcsCount(adj: Adj, k: nat)
    requires DuplicateFree(adj) && k <= |adj|
    ensures |Arcs(adj, k, false)| == SumDegrees(adj[..k])
  {
    if k > 0 {
      AllArcsCount(adj, k - 1);
      ArcsStep(adj, k, false);
      RowSetCount(k - 1, adj[k - 1]);
      assert adj[..k][..k - 1] == adj[..k - 1];
    }
  }

  lemma {:induction false} UpArcsCount(adj: Adj, k: nat)
    requires DuplicateFree(adj) && k <= |adj|
    ensures |Arcs(adj, k, true)| == |UpEdges(adj[..k])|
  {
    if k > 0 {
      UpArcsCount(adj, k - 1);
      ArcsStep(adj, k, true);
      RowSetCount(k - 1, adj[k - 1]);
      UpEdgesStep(adj, k - 1);
    }
  }

  /** The arcs of node k-1 are new to the arcs of the nodes before it. */
  lemma ArcsStep(adj: Adj, k: nat, upOnly: bool)
    requires 0 < k <= |adj|
    ensures |Arcs(adj, k, upOnly)| == |Arcs(adj, k - 1, upOnly)| + |RowSet(k - 1, adj[k - 1], upOnly)|
  {
    ArcsMembers(adj, k - 1, upOnly);
    RowSetMembers(k - 1, adj[k - 1], upOnly);
    assert Arcs(adj, k - 1, upOnly) !! RowSet(k - 1, adj[k - 1], upOnly);
  }

  ghost function Swap(s: set<(int, int)>): set<(int, int)>
  {
    set p | p in s :: (p.1, p.0)
  }

  lemma {:induction false} SwapCard(s: set<(int, int)>)
    ensures |Swap(s)| == |s|
    decreases |s|
  {
    if s != {} {
      var p :| p in s;
      SwapCard(s - {p});
      assert Swap(s) == Swap(s - {p}) + {(p.1, p.0)};
      assert (p.1, p.0) !in Swap(s - {p});
    }
  }

  /** On undirected adjacency the downward arcs are the upward arcs reversed. */
  lemma DownArcsMirrorUpArcs(adj: Adj)
    requires Undirected(adj)
    ensures Arcs(adj, |adj|, false) - Arcs(adj, |adj|, true) == Swap(Arcs(adj, |adj|, true))
  {
    var n := |adj|;
    var all, up := Arcs(adj, n, false), Arcs(adj, n, true);
    ArcsMembers(adj, n, false);
    ArcsMembers(adj, n, true);
    forall p | p in all - up ensures p in Swap(up) {
      assert p.0 != p.1 && p.0 in adj[p.1];
      assert (p.1, p.0) in up;
    }
    forall p | p in Swap(up) ensures p in all - up {
      var q :| q in up && p == (q.1, q.0);
      assert q.0 in adj[q.1];
    }
  }

  lemma SubsetCard(small: set<(int, int)>, large: set<(int, int)>)
    requires small <= large
    ensures |large| == |small| + |large - small|
  {
    assert large == small + (large - small);
  }

  lemma UpArcsAmongArcs(adj: Adj)
    ensures Arcs(adj, |adj|, true) <= Arcs(adj, |adj|, false)
  {
    ArcsMembers(adj, |adj|, false);
    ArcsMembers(adj, |adj|, true);
  }

  /**
   * The handshake count: on undirected adjacency the sum of degrees is even,
   * and half of it is the number of (low, high) pairs, which is what the edge
   * count, the written edge list and the edge-length table all hold.
   */
  lemma Handshake(adj: Adj)
    requires Undirected(adj)
    ensures SumDegrees(adj) == 2 * |UpEdges(adj)|
  {
    var n := |adj|;
    ArcsCount(adj, n);
    assert adj[..n] == adj;
    var all, up := Arcs(adj, n, false), Arcs(adj, n, true);
    UpArcsAmongArcs(adj);
    SubsetCard(up, all);
    DownArcsMirrorUpArcs(adj);
    SwapCard(up);
  }
}
