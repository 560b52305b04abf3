# Routing-simulator graph generator, modelled in Dafny

This project models the graph-building core of the Freenet routing simulator.
The simulator places `n` nodes on a unit ring and connects them in one of
three ways:

- **Sandberg graph**: a ring of predecessor links plus one random shortcut per node.
- **Generic graph**: link lengths are drawn from a link-length source and matched to the nearest node distance.
- **One-dimensional Kleinberg graph**: peers are drawn with weight 1/distance. A fast path steps along the ring; an exact path looks up a cumulative weight table.

The generic and Kleinberg builders keep adding links to a node until the node
reaches its target degree. A peer that is already at its own target is turned
down with probability 0.98. The Sandberg builder has no such loop: it gives each
node one link to its ring predecessor and then retries random draws until it
finds one shortcut peer that is neither the node nor already listed.

On a ring of one or two nodes no draw can pass that test, so the source's shortcut
loop (Graph.java:97-100) never ends there. `Graphs.SmallRingHasNoShortcut` states
this, and the model's Sandberg build can only report `complete` for n ≥ 3.

The project also models:

- the graph's degree and edge statistics;
- the edge section of a saved graph;
- the cached cumulative tables of the Kleinberg link-length source;
- the occurrence-weighted value table (`WeightedDistribution`).

Files, by module:

- `outcomes.dfy`: `Result`, the success-or-error value used for every error path.
- `closest_search.dfy` (`ClosestSearch`):
  - binary search with the insertion-point result;
  - the nearest-slot adjustment of the Kleinberg lookup;
  - the clamped lookup of the generic build.
- `cumulative_weights.dfy` (`CumulativeWeights`):
  - the 1/distance weights;
  - the cumulative table, where the source's own slot adds nothing;
  - the loop that fills the table in place;
  - the scaled draw.
- `sorting.dfy` (`Sorting`): the ascending sort used for locations and distance tables.
- `adjacency.dfy` (`Adjacency`):
  - connection lists and the reciprocal `connect`;
  - the (low, high) edge list and its round trip;
  - the handshake count.
- `graph.dfy` (`Graphs`): the `Graph` class, with its builders, statistics, and the encoding and reading of edges.
- `kleinberg_link_source.dfy` (`Kleinberg`): the link source and its per-node cache.
- `weighted_distribution.dfy` (`Weighted`): the event table and the value drawn for a uniform draw.

Randomness becomes parameters:

- A single draw becomes a parameter of the operation that uses it.
- A retry loop gets one sequence of draws per node. The loop stops early when its draws run out.
- The builders report whether every node's loop finished. For the generic and Kleinberg builders, `complete` holds exactly when each node's own run ended at its target degree. A run that did not do so used up all its draws. Every node is then still at its target at the end. For the Sandberg builder, `complete` holds exactly when every node found a shortcut among its draws, and every node then holds its predecessor and one shortcut.
- Each builder also returns, as ghost outputs, the graph before and after every node's run and the peers each node picked. The contracts tie every node's run to that node's own draws.

Other modelling choices:

- Distances between locations are a function parameter.
- Weights and locations are exact reals.
- Degree targets come in as a sequence.

The Kleinberg link-source constructor is modelled as written. It hands the superclass a new, empty list and drops its own `nodes` argument, so the source starts with no nodes. `GetPeer` is still specified for any node list, and it fails exactly when the list is empty.

## Model

| member | source | states |
|---|---|---|
| ClosestSearch.BinarySearch | src/main/java/org/freenetproject/routing_simulator/graph/Graph.java:231 | On a non-decreasing table, the result is either some index holding the key or -(p+1) for the insertion point p: every slot before p is below the key and every slot from p on is above it. Any matching index is allowed among duplicates. |
| ClosestSearch.NearestIndex | src/main/java/org/freenetproject/routing_simulator/graph/Graph.java:231-246 | For a draw no larger than the last slot, the index is in range and is an exact hit, or the lower neighbour when it is strictly closer, or otherwise the insertion point. |
| ClosestSearch.ClosestPickIsNearest | src/main/java/org/freenetproject/routing_simulator/graph/Graph.java:246-249 | No slot of the table is strictly closer to the draw than the picked one: the non-strict form of the closeness the source asserts. |
| ClosestSearch.ExactHitIsKept | src/main/java/org/freenetproject/routing_simulator/graph/linklength/KleinbergLinkSource.java:57-73 | When the draw equals some stored value, the picked slot holds the draw itself, so the step back is not taken on an exact hit. |
| ClosestSearch.TieKeepsUpper | src/main/java/org/freenetproject/routing_simulator/graph/Graph.java:246 | When the draw lies strictly between two slots at equal distance, the upper slot is kept. |
| ClosestSearch.AssertedStrictnessFails | src/main/java/org/freenetproject/routing_simulator/graph/Graph.java:248-249 | For the table [1, 1, 2] and draw 1, both indexes the lookup may return violate the strict closeness assertions. |
| ClosestSearch.ClampedIndex | src/main/java/org/freenetproject/routing_simulator/graph/Graph.java:135-138 | The generic lookup's index is in range. It is an exact hit, or the first slot above the drawn length, or the last slot when every slot is below it. Every earlier slot is no larger than the length. |
| CumulativeWeights.InverseDistances | src/main/java/org/freenetproject/routing_simulator/graph/Graph.java:212-216 | One weight per node: positive with weight × distance = 1 off the source, nothing for the source itself. |
| CumulativeWeights.FillCumulative | src/main/java/org/freenetproject/routing_simulator/graph/Graph.java:211-219 | After the loop, the array holds the cumulative table and `norm` is the sum of all weights but the source's. |
| CumulativeWeights.PrefixSumMonotone | src/main/java/org/freenetproject/routing_simulator/graph/Graph.java:217-218 | Running totals of non-negative weights never decrease: the table is a non-decreasing CDF. |
| CumulativeWeights.PrefixSumIsSumWithoutSource | src/main/java/org/freenetproject/routing_simulator/graph/linklength/KleinbergLinkSource.java:34-38 | The running total over a prefix is the plain sum of that prefix minus the source's weight when the source lies in it. |
| CumulativeWeights.CumulativeShape | src/main/java/org/freenetproject/routing_simulator/graph/linklength/KleinbergLinkSource.java:32-41 | The table has one slot per node, is non-decreasing and non-negative, and its source slot repeats its predecessor. The last slot is the normalising total. |
| CumulativeWeights.ScaledDraw | src/main/java/org/freenetproject/routing_simulator/graph/linklength/KleinbergLinkSource.java:53-56 | A draw u in [0, 1) scaled by a non-negative total lies in [0, total], and strictly below a positive total. |
| CumulativeWeights.SourceSlotRepeats | src/main/java/org/freenetproject/routing_simulator/graph/Graph.java:212-216 | Three unit-weight nodes seen from node 1 give the table [1, 1, 2], with equal neighbouring slots. |
| Sorting.SortProperties | src/main/java/org/freenetproject/routing_simulator/graph/Graph.java:56 | The sorted locations are in ascending order and are a permutation of the input. |
| Sorting.SortOfSorted | src/main/java/org/freenetproject/routing_simulator/graph/Graph.java:50-56 | Sorting an already ascending sequence leaves it unchanged. |
| Adjacency.Empty | src/main/java/org/freenetproject/routing_simulator/graph/Graph.java:57-62 | Fresh nodes have no connections, which trivially satisfies the undirected invariant. |
| Adjacency.ConnectArcs | src/main/java/org/freenetproject/routing_simulator/graph/Graph.java:141 | `connect` keeps the lists symmetric, loop-free and duplicate-free, and only appends. It adds exactly the two arcs between distinct endpoints. |
| Adjacency.UpEdgesMembers | src/main/java/org/freenetproject/routing_simulator/graph/Graph.java:293-300 | The written pairs are exactly the arcs from a lower to a higher index. |
| Adjacency.EdgeListShape | src/main/java/org/freenetproject/routing_simulator/graph/Graph.java:293-300 | Every written pair names two nodes, low index first. |
| Adjacency.PairsOfFlatten | src/main/java/org/freenetproject/routing_simulator/graph/Graph.java:305-308 | Reading the flat index list back two at a time yields the written pairs. |
| Adjacency.ConnectAllArcs | src/main/java/org/freenetproject/routing_simulator/graph/Graph.java:347-352 | Connecting the read pairs in turn keeps the graph undirected. It adds both directions of every pair with distinct endpoints, and nothing else. |
| Adjacency.EdgeListRoundTrip | src/main/java/org/freenetproject/routing_simulator/graph/Graph.java:291-352 | Writing the pairs of an undirected graph and connecting them onto as many fresh nodes restores exactly the same connections. |
| Adjacency.Handshake | src/main/java/org/freenetproject/routing_simulator/graph/Graph.java:457-466 | On undirected adjacency, the degree sum is twice the number of (low, high) pairs, so it is even. |
| Graphs.FastLocationsShape | src/main/java/org/freenetproject/routing_simulator/graph/Graph.java:49-50 | The fast locations i/n are ascending, lie in [0, 1) and satisfy location × n = i. |
| Graphs.StepIndex | src/main/java/org/freenetproject/routing_simulator/graph/Graph.java:188-192 | With at most n steps, the index after the one wrap-around correction is in [0, n). |
| Graphs.StepIndexIsModular | src/main/java/org/freenetproject/routing_simulator/graph/Graph.java:188-192 | The corrected index equals i ± steps reduced modulo n. |
| Graphs.Predecessor | src/main/java/org/freenetproject/routing_simulator/graph/Graph.java:90-91 | The wrapped predecessor is in [0, n) and differs from i when n > 1. |
| Graphs.PredecessorIsModular | src/main/java/org/freenetproject/routing_simulator/graph/Graph.java:90-91 | The wrapped predecessor equals (i - 1) mod n. |
| Graphs.RingIsSimple | src/main/java/org/freenetproject/routing_simulator/graph/Graph.java:88-93 | From two nodes on, the predecessor ring has no self-link and no repeated link. |
| Graphs.RingOfOneIsSelfLoop | src/main/java/org/freenetproject/routing_simulator/graph/Graph.java:88-93 | With a single node, the ring links the node to itself. |
| Graphs.AcceptedConnection | src/main/java/org/freenetproject/routing_simulator/graph/Graph.java:139-141 | An accepted peer is distinct and not yet connected, and connecting raises both degrees by one while keeping the graph undirected. A peer below its target is accepted iff it is neither the node nor a neighbour. |
| Graphs.DistanceTableShape | src/main/java/org/freenetproject/routing_simulator/graph/Graph.java:124-130 | The sorted table holds one entry per node, ordered by distance. Each entry names a node and carries that node's distance from the source. |
| Graphs.SortedDrawsSeparated | src/main/java/org/freenetproject/routing_simulator/graph/Graph.java:211-216 | Distinct uniform draws, once sorted, stay pairwise distinct, so every 1/distance weight is defined. |
| Graphs.VarianceNumeratorNonNegative | src/main/java/org/freenetproject/routing_simulator/graph/Graph.java:503-515 | n·Σd² − (Σd)² is never negative. |
| Graphs.WrittenSectionReadsBack | src/main/java/org/freenetproject/routing_simulator/graph/Graph.java:291-352 | The section written for an undirected graph is complete and its pairs are node indexes. Reading it back restores every connection and no other. |
| Graphs.FirstFree | src/main/java/org/freenetproject/routing_simulator/graph/Graph.java:97-100 | The index of the first draw that is neither the node nor already listed; every earlier draw is one of those, and the result is the draw count when no draw qualifies. |
| Graphs.SmallRingHasNoShortcut | src/main/java/org/freenetproject/routing_simulator/graph/Graph.java:88-100 | On a ring of one or two nodes, no draw in range is acceptable as a shortcut, so the do-while loop cannot end. |
| Graphs.ShortcutRow | src/main/java/org/freenetproject/routing_simulator/graph/Graph.java:88-101 | A node's list after the shortcut pass is its predecessor followed by at most one peer distinct from the node and the predecessor. It has that peer iff an acceptable draw exists, which needs n ≥ 3. |
| Graphs.ShortcutRing | src/main/java/org/freenetproject/routing_simulator/graph/Graph.java:88-103 | The ring with every node's shortcut pass applied has one or two in-range links per node. When every node found a shortcut, n ≥ 3 and the graph is simple with two links per node. |
| Graphs.RunStep | src/main/java/org/freenetproject/routing_simulator/graph/Graph.java:139-141 | One more attempt of a node still below its target extends the replay: the new graph is the previous one with that candidate connected exactly when accepted. |
| Graphs.OwnLinksStep | src/main/java/org/freenetproject/routing_simulator/graph/Graph.java:118-144 | A node's run that adds only links to its own picks extends the record that every new link joins a node to one of its picks. |
| Graphs.Graph.New | src/main/java/org/freenetproject/routing_simulator/graph/Graph.java:40-45 | A non-positive node count is rejected and any positive count gives an empty graph. |
| Graphs.Graph.GenerateNodes | src/main/java/org/freenetproject/routing_simulator/graph/Graph.java:47-64 | There are n nodes with no connections and the given target degrees. The locations are the ascending sort of i/n (fast) or of the draws, with node i at locations[i]. |
| Graphs.Graph.SandbergRing | src/main/java/org/freenetproject/routing_simulator/graph/Graph.java:88-93 | Each node's list gains its predecessor at the end, and nothing else changes. Starting from fresh nodes the result is exactly the predecessor ring `RingOf(n)`. |
| Graphs.Graph.SandbergShortcut | src/main/java/org/freenetproject/routing_simulator/graph/Graph.java:97-102 | The accepted shortcut is the first draw that is neither the node nor already listed, appended one-sidedly. Every earlier draw was the node or a listed peer. |
| Graphs.Graph.ShortcutNode | src/main/java/org/freenetproject/routing_simulator/graph/Graph.java:97-101 | Only node i's list changes. The shortcut is accepted iff some draw is neither the node nor already listed, and the first such draw is appended (`WithShortcut`). Otherwise the list is unchanged. An accepted shortcut differs from the node and its predecessor. |
| Graphs.Graph.SandbergShortcuts | src/main/java/org/freenetproject/routing_simulator/graph/Graph.java:95-103 | Every node's list is its predecessor followed by the first acceptable draw of its own draws, if there is one. The pass is complete iff every node had an acceptable draw. Then n ≥ 3, every node has exactly two links, and the graph is simple. |
| Graphs.Graph.GenerateSandberg | src/main/java/org/freenetproject/routing_simulator/graph/Graph.java:81-105 | A non-positive n is rejected. Otherwise there are n nodes of target 1337 at the placed locations. Each list is the predecessor plus the first acceptable draw of that node. The build is complete iff every node found one, and then n ≥ 3 and the graph is simple with two links per node. |
| Graphs.Graph.TryConnect | src/main/java/org/freenetproject/routing_simulator/graph/Graph.java:139-141 | The graph connects exactly when the acceptance rule accepts, and stays undirected and growing. |
| Graphs.Graph.FastAttempt | src/main/java/org/freenetproject/routing_simulator/graph/Graph.java:187-198 | The candidate is the wrapped step index, and one acceptance test decides the connection. |
| Graphs.Graph.CdfAttempt | src/main/java/org/freenetproject/routing_simulator/graph/Graph.java:229-255 | The candidate is a nearest slot of the cumulative table for the scaled draw, and one acceptance test decides the connection. |
| Graphs.Graph.LengthAttempt | src/main/java/org/freenetproject/routing_simulator/graph/Graph.java:134-141 | The candidate is the node of the clamped table slot for the drawn length, and one acceptance test decides the connection. |
| Graphs.Graph.ConnectBySteps | src/main/java/org/freenetproject/routing_simulator/graph/Graph.java:183-199 | The new graph is the old one with the attempts replayed in order (`Replay`): each stepped candidate is connected exactly when the acceptance rule takes it. The node stays below its target before every attempt, and the loop stops at the target or when the draws run out. The graph stays undirected. |
| Graphs.Graph.ConnectByTable | src/main/java/org/freenetproject/routing_simulator/graph/Graph.java:221-256 | The new graph is the replay of the attempts at the nearest cumulative slots, each connected exactly when accepted. The node stays below its target before every attempt, and the loop stops at the target or when the draws run out. The graph stays undirected. |
| Graphs.Graph.ConnectByLength | src/main/java/org/freenetproject/routing_simulator/graph/Graph.java:133-142 | The new graph is the replay of the attempts at the clamped-lookup nodes, each connected exactly when accepted. The node stays below its target before every attempt, and the loop stops at the target or when the draws run out. The graph stays undirected. |
| Graphs.Graph.LinkByLength | src/main/java/org/freenetproject/routing_simulator/graph/Graph.java:120-143 | A node at its target is skipped with no attempt. Otherwise the node's run (`LengthRun`) replays its attempts at the lookups of its own sorted distance table. The result reports whether it reached its target, and new links are only at the node. |
| Graphs.Graph.LinkBySteps | src/main/java/org/freenetproject/routing_simulator/graph/Graph.java:182-199 | The node's run (`StepRun`) replays its attempts at the wrapped step indexes of its own draws, and new links are only at the node. The result reports whether it reached its target. |
| Graphs.Graph.LinkByTable | src/main/java/org/freenetproject/routing_simulator/graph/Graph.java:211-256 | The shared array is refilled with the node's cumulative table. The node's run (`TableRun`) replays its attempts at nearest slots of that table, and new links are only at the node. The result reports whether it reached its target. |
| Graphs.Graph.LinkAllByLength | src/main/java/org/freenetproject/routing_simulator/graph/Graph.java:118-144 | Node i's run takes the graph from states[i] to states[i+1] as `LengthRun` over its own draws. Every new link joins a node to one of that node's picks (`OwnLinks`). The graph stays undirected. `complete` holds iff every node's own run ended at its target (`RunReached`), and then every node is at its target at the end. |
| Graphs.Graph.LinkAllBySteps | src/main/java/org/freenetproject/routing_simulator/graph/Graph.java:174-258 | The same record for the fast Kleinberg loop: node by node `StepRun` over its own draws, `OwnLinks`, `complete` iff every node's run ended at its target, and then every node at target at the end. |
| Graphs.Graph.LinkAllByTable | src/main/java/org/freenetproject/routing_simulator/graph/Graph.java:173-258 | The same record for the exact Kleinberg loop over one shared `sumProb` array: node by node `TableRun` over its own draws, `OwnLinks`, `complete` iff every node's run ended at its target, and then every node at target at the end. |
| Graphs.Graph.GenerateGraph | src/main/java/org/freenetproject/routing_simulator/graph/Graph.java:114-146 | A non-positive n is rejected. Otherwise the nodes are placed with their targets, and node i's run takes the fresh graph through states[i] to states[i+1] as `LengthRun` over its own draws. Every link joins a node to one of its picks and the graph is undirected. `complete` holds iff every node's run ended at its target degree, and then every node is at its target. |
| Graphs.Graph.Generate1dKleinbergGraph | src/main/java/org/freenetproject/routing_simulator/graph/Graph.java:163-261 | The same record as the generic build, `complete` included. Node runs are `StepRun` over ring steps when fast and `TableRun` over the node's 1/distance cumulative table when exact. |
| Graphs.Graph.NEdges | src/main/java/org/freenetproject/routing_simulator/graph/Graph.java:457-466 | The result is half the degree sum. On undirected adjacency the sum is even and the result is the number of (low, high) pairs. |
| Graphs.Graph.MinDegree | src/main/java/org/freenetproject/routing_simulator/graph/Graph.java:473-481 | The result is 0 with no nodes. Otherwise it is at most every degree and equal to some node's degree. |
| Graphs.Graph.MaxDegree | src/main/java/org/freenetproject/routing_simulator/graph/Graph.java:488-496 | The result is 0 with no nodes. Otherwise it is at least every degree and equal to some node's degree. |
| Graphs.Graph.DegreeVariance | src/main/java/org/freenetproject/routing_simulator/graph/Graph.java:503-516 | The result is 0 with no nodes. Otherwise it equals (n·Σd² − (Σd)²)/n² and is never negative. |
| Graphs.Graph.Degrees | src/main/java/org/freenetproject/routing_simulator/graph/Graph.java:547-552 | A new array holding every node's degree by index. |
| Graphs.Graph.EdgeLengths | src/main/java/org/freenetproject/routing_simulator/graph/Graph.java:425-441 | One length per undirected edge, in edge-list order, each the distance between the pair's two locations. |
| Graphs.Graph.RowLengths | src/main/java/org/freenetproject/routing_simulator/graph/Graph.java:433-438 | The inner loop fills exactly the slots of the node's upward pairs and leaves earlier slots alone. |
| Graphs.Graph.EncodeEdges | src/main/java/org/freenetproject/routing_simulator/graph/Graph.java:291-305 | The count is the number of (low, high) pairs, and the index list is those pairs flattened, twice the count long. |
| Graphs.Graph.ReadEdges | src/main/java/org/freenetproject/routing_simulator/graph/Graph.java:344-352 | Reading the count and the index pairs succeeds iff the section is complete and every index names a node. A truncated section fails as such. On success the result is undirected and is the pairs connected in turn onto fresh nodes. |
| Graphs.Graph.Read | src/main/java/org/freenetproject/routing_simulator/graph/Graph.java:325-366 | A non-positive size, a truncated stream or an out-of-range index fails, and the reading succeeds iff none occurs. On success, the saved locations and targets are kept and the graph is the pairs connected in turn, undirected. |
| Kleinberg.KleinbergLinkSource.constructor | src/main/java/org/freenetproject/routing_simulator/graph/linklength/KleinbergLinkSource.java:16-20 | The node list argument is dropped, so the source has no nodes, and the cache starts empty. |
| Kleinberg.KleinbergLinkSource.Table | src/main/java/org/freenetproject/routing_simulator/graph/linklength/KleinbergLinkSource.java:32-41 | A node's table has one slot per node, is non-decreasing and starts non-negative. |
| Kleinberg.KleinbergLinkSource.CacheTable | src/main/java/org/freenetproject/routing_simulator/graph/linklength/KleinbergLinkSource.java:31-44 | After the lookup the node's table is cached and is the table the source builds for it. A node already cached leaves the cache unchanged; otherwise exactly that entry is added. |
| Kleinberg.KleinbergLinkSource.GetPeer | src/main/java/org/freenetproject/routing_simulator/graph/linklength/KleinbergLinkSource.java:22-80 | The first request caches the node's table, and later requests leave the cache unchanged. The call fails iff there are no nodes; otherwise the peer is the node at a nearest slot for the scaled draw. |
| Weighted.WeightedDistribution.constructor | WeightedDistribution.java:30-55 | The total is the sum of all occurrence counts. |
| Weighted.WeightedDistribution.RandomValue | WeightedDistribution.java:61-67 | A non-positive total fails. Any successful result is the value of the event the walk selects, and a consistent total always succeeds. |
| Weighted.PrefixMonotone | WeightedDistribution.java:64 | Running totals of non-negative occurrences never decrease. With positive occurrences they strictly increase. |
| Weighted.SelectionIsUnique | WeightedDistribution.java:63-66 | A draw selects at most one event. |
| Weighted.SelectionExists | WeightedDistribution.java:62-66 | Every draw in [0, total) selects some event, so the walk returns a value of the table. |
| Weighted.SelectionIsMonotone | WeightedDistribution.java:64-66 | A larger draw never selects an earlier event. |
| Weighted.SelectionCount | WeightedDistribution.java:57-67 | With positive occurrences, the first event is chosen for occ+1 draws, the last for occ−1 draws, and every other for occ draws. A single event is chosen for exactly its occ draws. |
| Weighted.LastValueNeverDrawn | WeightedDistribution.java:57-67 | For events (10,1), (20,3), (30,1), value 30 is never drawn and 10 is drawn for 2 of 5 draws. The proportional rule gives each one draw. |
| Weighted.WeightedDistribution.ProportionalValue | WeightedDistribution.java:57-60 | The corrected walk returns the event whose range Prefix(j) ≤ rand < Prefix(j+1) holds the draw, and always succeeds on a consistent positive total. |
| Weighted.ProportionalCount | WeightedDistribution.java:57-60 | Under the corrected rule, every event is chosen for exactly its occurrence count of draws. |

## Left out

- Floating point: locations, distances, weights and draws are exact reals. `Math.pow`/`Math.round` in the fast step are replaced by an integer step count of at most n/2 given as input. The bound copies the source's assert at Graph.java:189. For n = 1 the source always rounds 0.5^u up to one step, so that assert fails there. The model's bound of 0 steps yields the same candidate, the node itself, which is always turned down.
- Integer widths: `int`/`long` overflow in degree sums, squares and occurrence totals is not modelled; Dafny integers are unbounded.
- Randomness: each `nextDouble`, `nextBoolean` and `nextInt` result is a parameter.
  - The rejection draw is part of every attempt record, even though the source draws it only when the peer is at its target.
- Termination of the `while (!atDegree())` and Sandberg shortcut loops: it depends on the random draws. Each loop consumes a finite draw sequence and reports whether it finished.
- Graphs.Graph.GenerateGraph: its contract is weaker than "every node reaches its target degree", because the model stops a node's loop when its draws are exhausted. The same holds for Graphs.Graph.Generate1dKleinbergGraph.
- Graphs.Graph.EdgeLengths: requires an undirected graph, as the source's own `assert e == nEdges` (Graph.java:439) presupposes. The one-sided Sandberg graph is outside it: for n = 4 with node 2's shortcut to node 0 there are three upward arcs against four counted edges, and the source, run without assertions, returns an array padded with 0.0.
- Graphs.Graph.GenerateSandberg: the source retries until a shortcut is found, while the model stops a node's retries when its draws are exhausted and reports the build incomplete.
- Graphs.Graph.Generate1dKleinbergGraph: the exact path requires distinct location draws. With two equal draws the source's 1/distance weight divides by zero and Java yields Infinity, which exact reals cannot represent.
- The generic build's `distances` array is a sequence per node rather than an array overwritten in place. The exact Kleinberg path keeps its shared `sumProb` array.
- `SimpleNode` is not part of this model. `connect` is taken to be reciprocal insertion that does nothing for the node itself or a current neighbour. `connectOutgoing` is taken to be a one-sided append. `isConnected` is taken to be membership in the node's own list.
- `Location.distance` and `SimpleNode.distanceTo` are not part of this model. They appear as a distance function; the exact path requires positive distance between distinct locations in [0, 1).
- `LinkLengthSource` and the degree sources are not part of this model. Link lengths and target degrees are inputs.
- The source's `HashMap` is keyed by node identity, while the model keys the cache by node value (index and location).
- Graph I/O: file streams, object serialisation of nodes, `setRand`, console output and `System.exit` are left out. Only the edge section (count and index pairs) is modelled, read from a sequence of integers, with saved nodes given as (location, target) pairs.
  - An `IOException` from a short stream becomes `TruncatedInput`.
  - An out-of-range index becomes `NodeIndexOutOfRange`.
- Weighted.WeightedDistribution.constructor: the file reading and `Integer.valueOf` parsing are left out; the parsed events are the input.
- `darknetSwap`, `randomWalkDistTest`, `globalClusterCoeff`, `meanLocalClusterCoeff`, `localClusterCoeff`, `graphStats`, `printGraphStats`, `printGraphStatsHeader`, `getNode`, `size` and `main` are left out. They are random walks and swaps inside `SimpleNode`, floating-point statistics, printing, or trivial accessors.

## Findings

| source | as written | input that shows it | evidently intended | confidence | as-written member | corrected member |
|---|---|---|---|---|---|---|
| src/main/java/org/freenetproject/routing_simulator/graph/Graph.java:248-249 | After the nearest-slot adjustment, asserts that the picked slot is strictly closer than each neighbour (the same asserts are at KleinbergLinkSource.java:76-77) | Three unit-weight nodes seen from node 1 give the table [1, 1, 2]. With draw 1, binary search may return index 0 or 1, and either way a neighbour is equally close (distance 0) | The picked slot is no farther than any slot (non-strict) | high; not executed | ClosestSearch.AssertedStrictnessFails | ClosestSearch.ClosestPickIsNearest |
| WeightedDistribution.java:63-66 | The walk gives draw 0 to event 0 and draws in (Prefix(j), Prefix(j+1)] to event j, so the first event gets one extra draw and the last one fewer | Events (10,1), (20,3), (30,1) with total 5: value 30 is never returned and value 10 is returned for draws 0 and 1 | Each value is chosen for exactly its occurrence count of draws, as the doc comment at lines 57-60 says | high; not executed | Weighted.LastValueNeverDrawn | Weighted.ProportionalCount |
