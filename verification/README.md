# Gephi core, modelled in Dafny

This project models five pieces of Gephi, the graph visualisation platform:

- **GraphDistance**, the shortest-path statistics. For every source it runs
  a breadth-first search and gets three things:
  - the hop distances `d`;
  - the number of shortest paths `theta`;
  - the predecessor lists `P` and the visiting stack `S`.

  It then sums eccentricity, closeness, diameter, radius and the average
  path length. A dependency pass over `S` (Brandes' algorithm) adds to the
  betweenness. The final loop halves the betweenness for undirected graphs,
  normalises when asked, and writes the three attributes on every node. The
  model proves the arrays against reference definitions over the graph
  alone:
  - `Paths.Dist`, the length of a shortest walk;
  - `Paths.Walks`, the number of walks of a given length;
  - `Dependency.Dep`, the recursive dependency of Brandes' Theorem 6.

  These files model it: `paths.dfy`, `bfs.dfy`, `dependency.dfy` and
  `graph_distance.dfy`.
- **OpenOrdLayout**, the sequential set-up of the OpenOrd layout. It loads
  the nodes and an id map, and builds a symmetric weighted adjacency without
  self-loops together with the highest similarity. It zeroes the positions
  when asked. It then gives every worker a copy of the nodes and its shard
  of the adjacency, with the weights normalised. The model also covers the
  clamping property setters and the running / firstIteration life cycle.
  File: `openord.dfy`.
- **DegreeRangeFilter** (in DegreeRangeBuilder). It tracks the minimum and
  maximum degree of the visible nodes and repairs the selected range
  against them. File: `degree_range.dfy`.
- **AbstractProcessor**, the import processor. It adds the container's
  missing columns to the attribute tables and flushes node and edge drafts
  onto graph elements: colour, label, text properties, position, size and
  attribute values. File: `processor.dfy`.
- **NodeModel**, the visualisation's model of a node:
  - its child octant and the leaf-containment test;
  - its viewport state and flags;
  - its label text and text bounds.

  File: `node_model.dfy`.

Shared pieces are in these files:
- `wrappers.dfy`: `Option`.
- `numbers.dfy`: Java float and double division, with `Double` standing for
  a finite value, an infinity or NaN; also min and max.
- `graph_elements.dfy`: the host graph's `Node`, `Edge` and
  `TextProperties` classes.

The code has no guard in these places, and the model keeps the unguarded
behaviour:
- OpenOrd `initAlgo` does not stop on an empty graph. It builds empty arrays
  and the workers as usual.
- `normalizeWeight` divides without a guard. It is modelled over `Double`,
  so a highest similarity of 0 or negative infinity gives an infinity, NaN
  or 0, as Java's float division does.
- GraphDistance divides `avgDist` by `shortestPaths` without a guard. With
  no reachable pair, the model gives NaN, as the code does.
- `shortestPaths` is an int, and `shortestPaths += reachable` adds a double,
  so the sum is narrowed back to int after every source and stops at
  Integer.MAX_VALUE (a connected graph of 46342 nodes already has more
  ordered pairs). The model saturates the same way (`PairCount`).

## Model

| member | source | states |
|---|---|---|
| Numbers.Divide | modules/StatisticsPlugin/src/main/java/org/gephi/statistics/plugin/GraphDistance.java:260 | Java double division by an int: the result is finite exactly when the divisor is non-zero, and then its product with the divisor is the dividend. 0/0 is NaN and x/0 is an infinity carrying x's sign. |
| Numbers.Quotient | OpenOrdLayout/src/org/gephi/layout/plugin/openord/OpenOrdLayout.java:220 | Float division by a value that may be infinite, NaN or 0: the exact quotient for a finite non-zero divisor, 0 for an infinite one, NaN for NaN, and a signed infinity or NaN for 0. |
| Numbers.SignedSquare | OpenOrdLayout/src/org/gephi/layout/plugin/openord/OpenOrdLayout.java:221 | w * abs(w): the square with w's sign for a finite w; an infinity or NaN is kept. |
| Numbers.MaxDouble | OpenOrdLayout/src/org/gephi/layout/plugin/openord/OpenOrdLayout.java:137 | Math.max of the running highest similarity and a weight: the larger of the two when finite, the weight after negative infinity, and NaN or positive infinity kept. |
| Paths.WithinBounded | modules/StatisticsPlugin/src/main/java/org/gephi/statistics/plugin/GraphDistance.java:205-212 | Every node reachable within k steps is a node of the graph. |
| Paths.WithinSource | modules/StatisticsPlugin/src/main/java/org/gephi/statistics/plugin/GraphDistance.java:188-189 | The source is reachable within any number of steps. |
| Paths.WithinStep | modules/StatisticsPlugin/src/main/java/org/gephi/statistics/plugin/GraphDistance.java:205-212 | One edge from a node reachable within k steps reaches a node within k + 1 steps. |
| Paths.WithinMono | modules/StatisticsPlugin/src/main/java/org/gephi/statistics/plugin/GraphDistance.java:205-212 | Reachability within j steps implies reachability within any k >= j steps. |
| Paths.ClosedHoldsWithin | modules/StatisticsPlugin/src/main/java/org/gephi/statistics/plugin/GraphDistance.java:193-218 | A node set that holds the source and is closed under edges holds every reachable node. |
| Paths.DistFrom | modules/StatisticsPlugin/src/main/java/org/gephi/statistics/plugin/GraphDistance.java:209-211 | The first level k or later at which v is reached: -1 or a level from k up to n - 1. |
| Paths.Dist | modules/StatisticsPlugin/src/main/java/org/gephi/statistics/plugin/GraphDistance.java:209-211 | The hop distance from s to v, or -1 when v is unreachable; it is always below n. |
| Paths.DistIs | modules/StatisticsPlugin/src/main/java/org/gephi/statistics/plugin/GraphDistance.java:209-211 | A level at which v is reachable, and below which it is not, is Dist(s, v). |
| Paths.DistNone | modules/StatisticsPlugin/src/main/java/org/gephi/statistics/plugin/GraphDistance.java:183 | A node that is reachable at no level has distance -1. |
| Paths.WalksPositive | modules/StatisticsPlugin/src/main/java/org/gephi/statistics/plugin/GraphDistance.java:213-215 | A node reachable within exactly its distance has at least one walk of that length, so theta of a reached node is at least 1. |
| Paths.DistinctBound | modules/StatisticsPlugin/src/main/java/org/gephi/statistics/plugin/GraphDistance.java:193-218 | A list of distinct node indices below n has at most n entries, which bounds the queue and the stack. |
| Bfs.PathCount | modules/StatisticsPlugin/src/main/java/org/gephi/statistics/plugin/GraphDistance.java:213-215 | Once the levels below x are complete, the counts accumulated into theta[x] from the nodes one level below equal the number of shortest walks to x. |
| Bfs.DiscoverNode | modules/StatisticsPlugin/src/main/java/org/gephi/statistics/plugin/GraphDistance.java:209-212 | A first visit to r appends r to the queue and sets d[r] = d[v] + 1; the search invariant still holds. |
| Bfs.CountEdge | modules/StatisticsPlugin/src/main/java/org/gephi/statistics/plugin/GraphDistance.java:213-216 | An edge from v to a node one level down adds theta[v] to theta[r] and v to P[r]; no other edge changes anything. The invariant is kept. |
| Bfs.ScanEdge | modules/StatisticsPlugin/src/main/java/org/gephi/statistics/plugin/GraphDistance.java:205-217 | One edge of v: discover its other end if unseen, then count it; the scan invariant is kept for the next edge. |
| Bfs.Visit | modules/StatisticsPlugin/src/main/java/org/gephi/statistics/plugin/GraphDistance.java:198-217 | Scanning every edge of the dequeued node v keeps the search invariant with v's successors discovered and counted. |
| Bfs.Explore | modules/StatisticsPlugin/src/main/java/org/gephi/statistics/plugin/GraphDistance.java:191-218 | The queue loop ends with every reachable node discovered and with distances, counts and predecessors complete for all of them. |
| Bfs.Dequeue | modules/StatisticsPlugin/src/main/java/org/gephi/statistics/plugin/GraphDistance.java:193-217 | Taking the queue's head, pushing it on S and visiting it keeps the search invariant, with S grown by exactly that node. |
| Bfs.Conclude | modules/StatisticsPlugin/src/main/java/org/gephi/statistics/plugin/GraphDistance.java:193-218 | The final search state gives the results below. d[v] is Dist(s, v). theta[v] is the number of shortest walks (at least 1) or 0. P[x] holds every node one level below x once per edge into x. S holds the reachable nodes once each, s first, by non-decreasing distance. |
| Bfs.Search | modules/StatisticsPlugin/src/main/java/org/gephi/statistics/plugin/GraphDistance.java:175-218 | The search from s returns exactly those distances, counts, predecessor lists and stack order. |
| Dependency.Share | modules/StatisticsPlugin/src/main/java/org/gephi/statistics/plugin/GraphDistance.java:246 | theta[u] / theta[x] as a real, never negative. |
| Dependency.PathShare | modules/StatisticsPlugin/src/main/java/org/gephi/statistics/plugin/GraphDistance.java:246 | The share of the shortest paths to x that the shortest paths to u make up, never negative. |
| Dependency.DepNonNegative | modules/StatisticsPlugin/src/main/java/org/gephi/statistics/plugin/GraphDistance.java:249 | No dependency is negative, so betweenness only grows. |
| Dependency.DepOfLast | modules/StatisticsPlugin/src/main/java/org/gephi/statistics/plugin/GraphDistance.java:239-251 | When no node lies one level beyond u, u's dependency is 0. |
| Dependency.TermIsDepTerm | modules/StatisticsPlugin/src/main/java/org/gephi/statistics/plugin/GraphDistance.java:243-247 | Over a finished search, what the predecessor lists of x pass to u equals the reference dependency term of the edge u -> x. |
| Dependency.DeltaIsDep | modules/StatisticsPlugin/src/main/java/org/gephi/statistics/plugin/GraphDistance.java:239-247 | A delta that satisfies the back recurrence of the stack at every node gives delta[u] == Dep(s, u), by induction on the distance from the far end. |
| Dependency.CreditsCount | modules/StatisticsPlugin/src/main/java/org/gephi/statistics/plugin/GraphDistance.java:243-247 | The credits a predecessor list passes to u are the credit times the number of times u appears in it. |
| Dependency.PassBack | modules/StatisticsPlugin/src/main/java/org/gephi/statistics/plugin/GraphDistance.java:242-247 | Popping w adds theta[u]/theta[w] * (1 + delta[w]) to delta[u] once per entry u of P[w] and leaves the rest of delta as it was. |
| Dependency.PopNode | modules/StatisticsPlugin/src/main/java/org/gephi/statistics/plugin/GraphDistance.java:240-250 | One pop keeps the recurrence on delta and adds delta[w] to betweenness[w] unless w is the source. |
| Dependency.AddDependency | modules/StatisticsPlugin/src/main/java/org/gephi/statistics/plugin/GraphDistance.java:248-250 | betweenness[w] grows by the dependency unless w is the source; the rest of the array is unchanged. |
| Dependency.Accumulate | modules/StatisticsPlugin/src/main/java/org/gephi/statistics/plugin/GraphDistance.java:238-251 | Emptying the stack leaves delta[u] == Dep(s, u) >= 0 for every u, and adds delta[w] to betweenness[w] for every w other than s. |
| Distance.Opposite | modules/StatisticsPlugin/src/main/java/org/gephi/statistics/plugin/GraphDistance.java:199-206 | The other end of an edge iterated from v: its target when v is its source; for an undirected graph, also its source when v is its target; otherwise none. |
| Distance.Incident | modules/StatisticsPlugin/src/main/java/org/gephi/statistics/plugin/GraphDistance.java:199-206 | The neighbours listed for v, at most one per edge, each the opposite end of an edge at v; IncidentCount gives the exact count of each. |
| Distance.IncidentCount | modules/StatisticsPlugin/src/main/java/org/gephi/statistics/plugin/GraphDistance.java:199-206 | Each node y occurs in v's list exactly as often as there are edges whose other end from v is y, so every such edge contributes once. |
| Distance.BuildGraph | modules/StatisticsPlugin/src/main/java/org/gephi/statistics/plugin/GraphDistance.java:165-170 | The indexed graph: valid, n nodes, and each adjacency list is the incident list of its node. |
| Distance.BuildGraphEdgeCount | modules/StatisticsPlugin/src/main/java/org/gephi/statistics/plugin/GraphDistance.java:199-206 | In the built graph, the number of times u lists y is the number of edges that take the search from u to y. |
| Distance.UndirectedSymmetric | modules/StatisticsPlugin/src/main/java/org/gephi/statistics/plugin/GraphDistance.java:201-202 | In an undirected graph there are as many edges from u to v as from v to u. |
| Distance.Reached | modules/StatisticsPlugin/src/main/java/org/gephi/statistics/plugin/GraphDistance.java:219-227 | The number of nodes at a positive distance, at most n. |
| Distance.MaxDist | modules/StatisticsPlugin/src/main/java/org/gephi/statistics/plugin/GraphDistance.java:223 | The eccentricity: bounds every positive distance, and is 0 or one of them. |
| Distance.SumBounds | modules/StatisticsPlugin/src/main/java/org/gephi/statistics/plugin/GraphDistance.java:220-228 | The summed distance lies between the reached count and the reached count times the eccentricity. |
| Distance.MeanBounds | modules/StatisticsPlugin/src/main/java/org/gephi/statistics/plugin/GraphDistance.java:232-234 | With a reachable node, the closeness (mean distance) lies between 1 and the eccentricity. |
| Distance.ReachedMissesZero | modules/StatisticsPlugin/src/main/java/org/gephi/statistics/plugin/GraphDistance.java:221 | The source (distance 0) is not counted as reached, so at most n - 1 nodes are. |
| Distance.Distances | modules/StatisticsPlugin/src/main/java/org/gephi/statistics/plugin/GraphDistance.java:179-218 | The reference distance vector from s: entry v is Dist(s, v). |
| Distance.PositiveIsOther | modules/StatisticsPlugin/src/main/java/org/gephi/statistics/plugin/GraphDistance.java:221 | A node has a positive distance exactly when it is reachable and is not the source. |
| Distance.DiameterUpTo | modules/StatisticsPlugin/src/main/java/org/gephi/statistics/plugin/GraphDistance.java:225 | The diameter after k passes bounds the eccentricity of each of the first k sources. |
| Distance.RadiusUpTo | modules/StatisticsPlugin/src/main/java/org/gephi/statistics/plugin/GraphDistance.java:164-230 | The radius after k passes: at most Integer.MAX_VALUE, and at most the eccentricity of each of the first k sources. |
| Distance.RadiusAtMostDiameter | modules/StatisticsPlugin/src/main/java/org/gephi/statistics/plugin/GraphDistance.java:225-230 | After at least one pass the radius is at most the diameter. |
| Distance.RadiusOfIsolated | modules/StatisticsPlugin/src/main/java/org/gephi/statistics/plugin/GraphDistance.java:223-230 | A source that reaches no other node makes the radius 0. |
| Distance.PairsBound | modules/StatisticsPlugin/src/main/java/org/gephi/statistics/plugin/GraphDistance.java:236 | After k passes the unsaturated pair count is at most k * (n - 1). |
| Distance.PairCount | modules/StatisticsPlugin/src/main/java/org/gephi/statistics/plugin/GraphDistance.java:236 | The int shortestPaths after k passes: the pair count, or Integer.MAX_VALUE once the count exceeds it, never more than the true count. |
| Distance.PairCountStep | modules/StatisticsPlugin/src/main/java/org/gephi/statistics/plugin/GraphDistance.java:236 | Narrowing to int after every pass gives the same value as narrowing the whole sum once. |
| Distance.PairCountExact | modules/StatisticsPlugin/src/main/java/org/gephi/statistics/plugin/GraphDistance.java:236 | When n(n - 1) is at most Integer.MAX_VALUE, shortestPaths is the exact pair count. |
| Distance.EccBelow | modules/StatisticsPlugin/src/main/java/org/gephi/statistics/plugin/GraphDistance.java:223 | An eccentricity is below n. |
| Distance.RadiusAttained | modules/StatisticsPlugin/src/main/java/org/gephi/statistics/plugin/GraphDistance.java:230 | Some source among the first k has the radius as its eccentricity. |
| Distance.BetweennessNonNegative | modules/StatisticsPlugin/src/main/java/org/gephi/statistics/plugin/GraphDistance.java:248-250 | The summed betweenness is never negative. |
| Distance.NormalizedClosenessBounds | modules/StatisticsPlugin/src/main/java/org/gephi/statistics/plugin/GraphDistance.java:270 | The normalised closeness, 0 or the inverse mean distance, lies in [0, 1]. |
| Distance.SearchDistances | modules/StatisticsPlugin/src/main/java/org/gephi/statistics/plugin/GraphDistance.java:179-218 | The distances a search returns are the reference distance vector. |
| Distance.ReportKeys | modules/StatisticsPlugin/src/main/java/org/gephi/statistics/plugin/GraphDistance.java:262-276 | The attributes written after the final loop has passed k nodes cover exactly the nodes below k. |
| Distance.ReportAt | modules/StatisticsPlugin/src/main/java/org/gephi/statistics/plugin/GraphDistance.java:273-275 | Node v's attributes are its eccentricity, written closeness and written betweenness. |
| Distance.PairDivisor | modules/StatisticsPlugin/src/main/java/org/gephi/statistics/plugin/GraphDistance.java:271 | The normalising divisor is 0 for one or two nodes and positive from three nodes on. |
| Distance.WrittenCloseness | modules/StatisticsPlugin/src/main/java/org/gephi/statistics/plugin/GraphDistance.java:270 | Unnormalised, the mean distance; normalised, 0 for a mean of 0. |
| Distance.WrittenClosenessInverts | modules/StatisticsPlugin/src/main/java/org/gephi/statistics/plugin/GraphDistance.java:270 | Normalised, a non-zero mean becomes its inverse: their product is 1. |
| Distance.WrittenBetweenness | modules/StatisticsPlugin/src/main/java/org/gephi/statistics/plugin/GraphDistance.java:266-272 | Unnormalised, the sum halved in an undirected graph; normalised, finite exactly when the pair divisor is non-zero. |
| Distance.WrittenBetweennessDivides | modules/StatisticsPlugin/src/main/java/org/gephi/statistics/plugin/GraphDistance.java:266-272 | A finite normalised value times the pair divisor is the halved sum, and a non-negative sum gives a finite non-negative value on three or more nodes or unnormalised. |
| Distance.GraphDistance.constructor | modules/StatisticsPlugin/src/main/java/org/gephi/statistics/plugin/GraphDistance.java:105-110 | Directed as the graph model says (false without one); not normalised; no results. |
| Distance.GraphDistance.GetPathLength | modules/StatisticsPlugin/src/main/java/org/gephi/statistics/plugin/GraphDistance.java:112-114 | The average path length. |
| Distance.GraphDistance.GetDiameter | modules/StatisticsPlugin/src/main/java/org/gephi/statistics/plugin/GraphDistance.java:120-122 | The diameter as a double. |
| Distance.GraphDistance.SetNormalized | modules/StatisticsPlugin/src/main/java/org/gephi/statistics/plugin/GraphDistance.java:280-282 | Sets the flag; nothing else may change. |
| Distance.GraphDistance.IsNormalized | modules/StatisticsPlugin/src/main/java/org/gephi/statistics/plugin/GraphDistance.java:284-286 | The flag. |
| Distance.GraphDistance.SetDirected | modules/StatisticsPlugin/src/main/java/org/gephi/statistics/plugin/GraphDistance.java:288-290 | Sets the flag; nothing else may change. |
| Distance.GraphDistance.IsDirected | modules/StatisticsPlugin/src/main/java/org/gephi/statistics/plugin/GraphDistance.java:292-294 | The flag. |
| Distance.GraphDistance.Cancel | modules/StatisticsPlugin/src/main/java/org/gephi/statistics/plugin/GraphDistance.java:371-374 | Sets isCanceled and reports success. The pass after which a running execute sees the flag is the cancelAfter parameter of Execute, so this flag is not what RunSources reads (see Left out). |
| Distance.GraphDistance.SourceStats | modules/StatisticsPlugin/src/main/java/org/gephi/statistics/plugin/GraphDistance.java:219-228 | The pass over d sets the source's eccentricity to the largest distance and its closeness to the summed distance. It raises the diameter to that eccentricity, adds the sum to avgDist and returns the number of nodes reached. No other node's entries change. |
| Distance.GraphDistance.SourceSummary | modules/StatisticsPlugin/src/main/java/org/gephi/statistics/plugin/GraphDistance.java:219-236 | As above, with the closeness then the mean distance and the radius lowered to the eccentricity. shortestPaths grows by the reached count and stops at Integer.MAX_VALUE, as the double-to-int cast of the compound addition does. |
| Distance.GraphDistance.SourcePass | modules/StatisticsPlugin/src/main/java/org/gephi/statistics/plugin/GraphDistance.java:175-251 | One source: eccentricity, closeness, diameter, radius, path totals (the pair count saturating at Integer.MAX_VALUE) as the reference distances give them, and betweenness[w] increased by Dep(s, w) for every w other than s. |
| Distance.GraphDistance.GraphSummary | modules/StatisticsPlugin/src/main/java/org/gephi/statistics/plugin/GraphDistance.java:219-236 | The statistics of the distances the search found, stated on the graph: eccentricity Ecc(g, s), the mean distance as closeness, diameter, radius, the saturating pair count and the summed distance. |
| Distance.GraphDistance.Step | modules/StatisticsPlugin/src/main/java/org/gephi/statistics/plugin/GraphDistance.java:174-258 | One source pass takes the totals of k passes to those of k + 1. |
| Distance.GraphDistance.FinishValues | modules/StatisticsPlugin/src/main/java/org/gephi/statistics/plugin/GraphDistance.java:266-272 | Halves the betweenness when undirected; when normalising, inverts the closeness (0 stays 0) and divides the betweenness by the pair count, 0/0 giving NaN. |
| Distance.GraphDistance.PublishNode | modules/StatisticsPlugin/src/main/java/org/gephi/statistics/plugin/GraphDistance.java:264-275 | Writes node s's three attributes from its raw values (eccentricity, written closeness, written betweenness) and changes no other attribute. |
| Distance.GraphDistance.Publish | modules/StatisticsPlugin/src/main/java/org/gephi/statistics/plugin/GraphDistance.java:262-276 | The final loop adds, to the attributes already written, every node's attributes computed from the raw arrays it starts from. |
| Distance.WrittenIsReport | modules/StatisticsPlugin/src/main/java/org/gephi/statistics/plugin/GraphDistance.java:262-276 | Computed from the raw arrays every source pass leaves behind, those attributes are the report of the graph: each node's eccentricity, closeness and betweenness from the reference distances and dependencies. |
| Distance.GraphDistance.Complete | modules/StatisticsPlugin/src/main/java/org/gephi/statistics/plugin/GraphDistance.java:260-276 | avgDist becomes the summed distance divided (Java division) by PairCount, the pair count as the saturating int holds it, and every node gets its attributes. |
| Distance.GraphDistance.RunSources | modules/StatisticsPlugin/src/main/java/org/gephi/statistics/plugin/GraphDistance.java:174-258 | The source loop stops after the pass at which a cancellation is seen, if any, and otherwise after all n passes. Either way the totals are those of the passes run. |
| Distance.GraphDistance.Run | modules/StatisticsPlugin/src/main/java/org/gephi/statistics/plugin/GraphDistance.java:172-278 | Cancelled: the totals of the passes run and no attribute written. Otherwise: the totals of all passes, the average path length and every node's attributes. |
| Distance.GraphDistance.Allocate | modules/StatisticsPlugin/src/main/java/org/gephi/statistics/plugin/GraphDistance.java:156-160 | Fresh arrays of the node count, all zero. |
| Distance.GraphDistance.Reset | modules/StatisticsPlugin/src/main/java/org/gephi/statistics/plugin/GraphDistance.java:139-164 | Clears the cancellation flag and zeroes the arrays and totals; the radius starts at Integer.MAX_VALUE. |
| Distance.GraphDistance.Start | modules/StatisticsPlugin/src/main/java/org/gephi/statistics/plugin/GraphDistance.java:138-278 | execute on an indexed graph: reset, then run, with the outcome above. |
| Distance.GraphDistance.Execute | modules/StatisticsPlugin/src/main/java/org/gephi/statistics/plugin/GraphDistance.java:128-278 | execute on the visible graph, directed or undirected as configured: the outcome above on the graph built from its edges. |
| OpenOrd.IdMap | OpenOrdLayout/src/org/gephi/layout/plugin/openord/OpenOrdLayout.java:111-122 | Every node id is mapped, and to a node index. |
| OpenOrd.IdMapFinds | OpenOrdLayout/src/org/gephi/layout/plugin/openord/OpenOrdLayout.java:121 | Each mapped id leads to a node that carries it. |
| OpenOrd.IdMapSnoc | OpenOrdLayout/src/org/gephi/layout/plugin/openord/OpenOrdLayout.java:113-122 | Loading node i adds its id, mapped to i, to the table of the nodes before it. |
| OpenOrd.IdMapIndex | OpenOrdLayout/src/org/gephi/layout/plugin/openord/OpenOrdLayout.java:121 | With distinct ids, the map sends node i's id to i. |
| OpenOrd.Positions | OpenOrdLayout/src/org/gephi/layout/plugin/openord/OpenOrdLayout.java:113-149 | Node i is loaded with index i, its fixed flag, and its position, or the origin when positions are reset. |
| OpenOrd.AddEdge | OpenOrdLayout/src/org/gephi/layout/plugin/openord/OpenOrdLayout.java:129-136 | Putting a weight in both directions keeps the table's length. |
| OpenOrd.Neighbors | OpenOrdLayout/src/org/gephi/layout/plugin/openord/OpenOrdLayout.java:124-139 | The adjacency table, one entry per node. |
| OpenOrd.NoSelfLoops | OpenOrdLayout/src/org/gephi/layout/plugin/openord/OpenOrdLayout.java:127 | No node is its own neighbour. |
| OpenOrd.Symmetric | OpenOrdLayout/src/org/gephi/layout/plugin/openord/OpenOrdLayout.java:135-136 | t is a neighbour of s exactly when s is one of t, with the same weight. |
| OpenOrd.ListedIffJoined | OpenOrdLayout/src/org/gephi/layout/plugin/openord/OpenOrdLayout.java:124-139 | t is a neighbour of s exactly when some edge joins them. |
| OpenOrd.LastEdgeWins | OpenOrdLayout/src/org/gephi/layout/plugin/openord/OpenOrdLayout.java:135-136 | Among parallel edges, the weight kept is that of the last one iterated. |
| OpenOrd.HighestOfNone | OpenOrdLayout/src/org/gephi/layout/plugin/openord/OpenOrdLayout.java:123 | With no edge other than self-loops, the highest similarity stays negative infinity. |
| OpenOrd.HighestIsMaximum | OpenOrdLayout/src/org/gephi/layout/plugin/openord/OpenOrdLayout.java:123-139 | Otherwise it is the weight of some non-self-loop edge and at least the weight of every one. |
| OpenOrd.Highest | OpenOrdLayout/src/org/gephi/layout/plugin/openord/OpenOrdLayout.java:123-139 | The highest similarity is never NaN or positive infinity: it is negative infinity or finite. |
| OpenOrd.NormalizeWeightPositive | OpenOrdLayout/src/org/gephi/layout/plugin/openord/OpenOrdLayout.java:219-223 | For a positive highest similarity h, the normalised weight is finite and has the weight's sign. h maps to 1, and a weight in [0, h] maps into [0, 1]. |
| OpenOrd.NormalizeWeight | OpenOrdLayout/src/org/gephi/layout/plugin/openord/OpenOrdLayout.java:219-223 | Finite for a finite non-zero highest similarity. 0 for an infinite one, NaN for NaN, and for 0 a signed infinity or NaN by the weight's sign. |
| OpenOrd.NormalizeMap | OpenOrdLayout/src/org/gephi/layout/plugin/openord/OpenOrdLayout.java:182-186 | The copied map has the same keys, each weight normalised. |
| OpenOrd.Shard | OpenOrdLayout/src/org/gephi/layout/plugin/openord/OpenOrdLayout.java:177-188 | Worker w gets node i's normalised entries exactly when i % numThreads == w and node i has neighbours. |
| OpenOrd.ShardsPartition | OpenOrdLayout/src/org/gephi/layout/plugin/openord/OpenOrdLayout.java:179 | Each node with neighbours is in the shard of exactly one worker. |
| OpenOrd.ClampEdgeCut | OpenOrdLayout/src/org/gephi/layout/plugin/openord/OpenOrdLayout.java:284-288 | The edge cut is clamped to [0, 1] and kept when already inside. |
| OpenOrd.ClampThreads | OpenOrdLayout/src/org/gephi/layout/plugin/openord/OpenOrdLayout.java:294-297 | At least 1 thread, and the value kept when it is at least 1. |
| OpenOrd.ClampIterations | OpenOrdLayout/src/org/gephi/layout/plugin/openord/OpenOrdLayout.java:323-326 | At least 100 iterations, and the value kept when it is at least 100. |
| OpenOrd.ClampsIdempotent | OpenOrdLayout/src/org/gephi/layout/plugin/openord/OpenOrdLayout.java:284-326 | Setting a clamped value again changes nothing. |
| OpenOrd.OpenOrdLayout.constructor | OpenOrdLayout/src/org/gephi/layout/plugin/openord/OpenOrdLayout.java:76-80 | A fresh layout: first iteration pending, no workers. |
| OpenOrd.OpenOrdLayout.ResetPropertiesValues | OpenOrdLayout/src/org/gephi/layout/plugin/openord/OpenOrdLayout.java:83-91 | Edge cut 0.8, 750 iterations, max(1, processors - 1) threads, the given seed, positions reset, running. |
| OpenOrd.OpenOrdLayout.LoadNodes | OpenOrdLayout/src/org/gephi/layout/plugin/openord/OpenOrdLayout.java:111-122 | A fresh node array of the loaded nodes and the id map. |
| OpenOrd.OpenOrdLayout.LoadEdges | OpenOrdLayout/src/org/gephi/layout/plugin/openord/OpenOrdLayout.java:123-139 | A fresh adjacency array equal to Neighbors, and the highest similarity. |
| OpenOrd.OpenOrdLayout.NormalizeEntries | OpenOrdLayout/src/org/gephi/layout/plugin/openord/OpenOrdLayout.java:181-186 | The normalised copy of one node's entries. |
| OpenOrd.OpenOrdLayout.CopyShard | OpenOrdLayout/src/org/gephi/layout/plugin/openord/OpenOrdLayout.java:177-188 | A fresh array holding worker w's shard. |
| OpenOrd.OpenOrdLayout.CopyNodes | OpenOrdLayout/src/org/gephi/layout/plugin/openord/OpenOrdLayout.java:173-176 | A fresh array equal to the node array. |
| OpenOrd.OpenOrdLayout.ResetPositions | OpenOrdLayout/src/org/gephi/layout/plugin/openord/OpenOrdLayout.java:143-149 | Every loaded node is moved to the origin. |
| OpenOrd.OpenOrdLayout.LoadWorkers | OpenOrdLayout/src/org/gephi/layout/plugin/openord/OpenOrdLayout.java:162-191 | numThreads workers, worker w with id w, a copy of the nodes and its shard. |
| OpenOrd.OpenOrdLayout.Load | OpenOrdLayout/src/org/gephi/layout/plugin/openord/OpenOrdLayout.java:97-191 | The highest similarity, and numThreads workers each holding the loaded (or reset) positions and its normalised shard. |
| OpenOrd.OpenOrdLayout.InitAlgo | OpenOrdLayout/src/org/gephi/layout/plugin/openord/OpenOrdLayout.java:94-194 | The highest similarity is recorded. Every worker holds the loaded (or reset) positions and its normalised shard of the symmetric adjacency. Running and firstIteration are raised. |
| OpenOrd.OpenOrdLayout.GoAlgo | OpenOrdLayout/src/org/gephi/layout/plugin/openord/OpenOrdLayout.java:197-208 | The workers are started only on the first iteration; afterwards firstIteration is false. |
| OpenOrd.OpenOrdLayout.EndAlgo | OpenOrdLayout/src/org/gephi/layout/plugin/openord/OpenOrdLayout.java:211-217 | The layout stops running. |
| OpenOrd.OpenOrdLayout.CanAlgo | OpenOrdLayout/src/org/gephi/layout/plugin/openord/OpenOrdLayout.java:226-228 | The running flag. |
| OpenOrd.OpenOrdLayout.SetRunning | OpenOrdLayout/src/org/gephi/layout/plugin/openord/OpenOrdLayout.java:315-317 | Sets the running flag. |
| OpenOrd.OpenOrdLayout.SetEdgeCut | OpenOrdLayout/src/org/gephi/layout/plugin/openord/OpenOrdLayout.java:284-288 | Stores the clamped edge cut. |
| OpenOrd.OpenOrdLayout.SetNumThreads | OpenOrdLayout/src/org/gephi/layout/plugin/openord/OpenOrdLayout.java:294-297 | Stores the clamped thread count. |
| OpenOrd.OpenOrdLayout.SetNumIterations | OpenOrdLayout/src/org/gephi/layout/plugin/openord/OpenOrdLayout.java:323-326 | Stores the clamped iteration count. |
| OpenOrd.OpenOrdLayout.SetRandSeed | OpenOrdLayout/src/org/gephi/layout/plugin/openord/OpenOrdLayout.java:303-305 | Stores the seed. |
| OpenOrd.OpenOrdLayout.SetResetPosition | OpenOrdLayout/src/org/gephi/layout/plugin/openord/OpenOrdLayout.java:311-313 | Stores the reset flag. |
| DegreeRange.MinDegree | FiltersStandard/src/org/gephi/filters/topology/DegreeRangeBuilder.java:95-101 | The smallest degree: at most every degree and equal to one of them; Integer.MAX_VALUE with no node. |
| DegreeRange.MaxDegree | FiltersStandard/src/org/gephi/filters/topology/DegreeRangeBuilder.java:95-101 | The largest degree: at least every degree and equal to one of them; Integer.MIN_VALUE with no node. |
| DegreeRange.RepairLower | FiltersStandard/src/org/gephi/filters/topology/DegreeRangeBuilder.java:102-106 | The lower bound survives exactly when it is inside [min, max] and differs from the upper bound; otherwise it becomes min. |
| DegreeRange.Repair | FiltersStandard/src/org/gephi/filters/topology/DegreeRangeBuilder.java:102-110 | With min <= max, both repaired bounds lie in [min, max]. |
| DegreeRange.RepairUpper | FiltersStandard/src/org/gephi/filters/topology/DegreeRangeBuilder.java:107-110 | The upper bound survives exactly when it is inside [min, max] and differs from the repaired lower bound; otherwise it becomes max. |
| DegreeRange.RepairWithinBounds | FiltersStandard/src/org/gephi/filters/topology/DegreeRangeBuilder.java:102-110 | With at least one node both repaired bounds lie in [min, max]. |
| DegreeRange.RepairKeepsValid | FiltersStandard/src/org/gephi/filters/topology/DegreeRangeBuilder.java:102-110 | A range inside the bounds with distinct ends is left alone. |
| DegreeRange.FreshRangeIsObservedBounds | FiltersStandard/src/org/gephi/filters/topology/DegreeRangeBuilder.java:88-111 | A new filter over at least one node selects exactly [min, max]. |
| DegreeRange.DegreeRangeFilter.constructor | FiltersStandard/src/org/gephi/filters/topology/DegreeRangeBuilder.java:88-90 | The bounds of the degrees and the repaired empty range. |
| DegreeRange.DegreeRangeFilter.RefreshMinMax | FiltersStandard/src/org/gephi/filters/topology/DegreeRangeBuilder.java:92-111 | min and max are the observed degree bounds, and the range is the old range repaired against them. |
| DegreeRange.DegreeRangeFilter.GetValues | FiltersStandard/src/org/gephi/filters/topology/DegreeRangeBuilder.java:113-121 | One value per node, its degree, in node order. |
| DegreeRange.DegreeRangeFilter.GetMinimum | FiltersStandard/src/org/gephi/filters/topology/DegreeRangeBuilder.java:138-140 | The minimum. |
| DegreeRange.DegreeRangeFilter.GetMaximum | FiltersStandard/src/org/gephi/filters/topology/DegreeRangeBuilder.java:142-144 | The maximum. |
| DegreeRange.DegreeRangeFilter.GetRange | FiltersStandard/src/org/gephi/filters/topology/DegreeRangeBuilder.java:146-148 | The selected range. |
| DegreeRange.DegreeRangeFilter.SetRange | FiltersStandard/src/org/gephi/filters/topology/DegreeRangeBuilder.java:150-152 | Stores the range without repairing it; min and max are unchanged. |
| Processor.AddMissing | modules/ProcessorPlugin/src/main/java/org/gephi/io/processor/plugin/AbstractProcessor.java:66-79 | The existing columns stay, in order, at the front. |
| Processor.AddMissingCovers | modules/ProcessorPlugin/src/main/java/org/gephi/io/processor/plugin/AbstractProcessor.java:67-71 | Afterwards every draft's column id is present. |
| Processor.AddMissingAdds | modules/ProcessorPlugin/src/main/java/org/gephi/io/processor/plugin/AbstractProcessor.java:67-71 | Each added column is a draft's, as a data column. Its id was absent before, and no id is added twice. |
| Processor.AddMissingNone | modules/ProcessorPlugin/src/main/java/org/gephi/io/processor/plugin/AbstractProcessor.java:68 | With every id already present, nothing is added. |
| Processor.AddMissingIdempotent | modules/ProcessorPlugin/src/main/java/org/gephi/io/processor/plugin/AbstractProcessor.java:66-79 | Flushing the columns twice adds nothing the second time. |
| Processor.Table.HasColumn | modules/ProcessorPlugin/src/main/java/org/gephi/io/processor/plugin/AbstractProcessor.java:69 | True exactly when a column with the id exists. |
| Processor.Table.AddColumn | modules/ProcessorPlugin/src/main/java/org/gephi/io/processor/plugin/AbstractProcessor.java:70 | Appends the column. |
| Processor.WrittenValues | modules/ProcessorPlugin/src/main/java/org/gephi/io/processor/plugin/AbstractProcessor.java:118-125 | A container column with a draft value gets that value. Every other key keeps its presence and value. |
| Processor.FlushedSize | modules/ProcessorPlugin/src/main/java/org/gephi/io/processor/plugin/AbstractProcessor.java:108-112 | A size of 0 or NaN becomes 10, and any other size is kept, so the flushed size is never 0 or NaN. |
| Processor.AbstractProcessor.constructor | modules/ProcessorPlugin/src/main/java/org/gephi/io/processor/plugin/AbstractProcessor.java:62-64 | The two attribute tables and an empty container. |
| Processor.AbstractProcessor.FlushColumns | modules/ProcessorPlugin/src/main/java/org/gephi/io/processor/plugin/AbstractProcessor.java:66-79 | Both tables get the container's missing columns. |
| Processor.AbstractProcessor.FlushTable | modules/ProcessorPlugin/src/main/java/org/gephi/io/processor/plugin/AbstractProcessor.java:67-71 | One table gets the missing columns of the drafts. |
| Processor.AbstractProcessor.FlushToNode | modules/ProcessorPlugin/src/main/java/org/gephi/io/processor/plugin/AbstractProcessor.java:81-116 | The node takes the draft's colour (if any), label (if any), position and flushed size. The text properties, if present, take visibility, colour and size. The attributes take the draft values. |
| Processor.AbstractProcessor.FlushLabel | modules/ProcessorPlugin/src/main/java/org/gephi/io/processor/plugin/AbstractProcessor.java:91-102 | Present text properties take visibility, the colour when given, and size. |
| Processor.AbstractProcessor.FlushToNodeAttributes | modules/ProcessorPlugin/src/main/java/org/gephi/io/processor/plugin/AbstractProcessor.java:118-125 | The node's attributes take the draft's values for the container's node columns. |
| Processor.AbstractProcessor.FlushValues | modules/ProcessorPlugin/src/main/java/org/gephi/io/processor/plugin/AbstractProcessor.java:119-124 | The loop over the columns computes WriteValues. |
| Processor.AbstractProcessor.FlushToEdge | modules/ProcessorPlugin/src/main/java/org/gephi/io/processor/plugin/AbstractProcessor.java:127-155 | As for a node. Without a colour, red, green and blue become -1. |
| Processor.AbstractProcessor.FlushToEdgeAttributes | modules/ProcessorPlugin/src/main/java/org/gephi/io/processor/plugin/AbstractProcessor.java:157-164 | The edge's attributes take the draft's values for the container's edge columns. |
| Processor.AbstractProcessor.SetContainer | modules/ProcessorPlugin/src/main/java/org/gephi/io/processor/plugin/AbstractProcessor.java:170-172 | Stores the container. |
| Visualization.Abs | modules/VisualizationImpl/src/main/java/org/gephi/visualization/model/node/NodeModel.java:102-110 | The absolute value. |
| Visualization.OctantIndex | modules/VisualizationImpl/src/main/java/org/gephi/visualization/model/node/NodeModel.java:85-100 | An index in 0..7: bit 4 for y below the centre, bit 2 for z beyond it, bit 1 for x before it. |
| Visualization.NodeModel.OctreePosition | modules/VisualizationImpl/src/main/java/org/gephi/visualization/model/node/NodeModel.java:85-100 | The node's child octant: an index in 0..7 whose bits record y below, z beyond and x before the centre; the cell size plays no part. |
| Visualization.SameOctant | modules/VisualizationImpl/src/main/java/org/gephi/visualization/model/node/NodeModel.java:85-100 | Two points share a child octant exactly when they are on the same side of the centre on every axis. |
| Visualization.InLeaf | modules/VisualizationImpl/src/main/java/org/gephi/visualization/model/node/NodeModel.java:102-110 | For a finite size, the node's box lies in the leaf on all three axes. A positive infinite size never fits. A NaN or negative infinite size always passes, as Java's comparisons give. |
| Visualization.NodeModel.IsInOctreeLeaf | modules/VisualizationImpl/src/main/java/org/gephi/visualization/model/node/NodeModel.java:102-110 | For a finite node size, the node's box lies inside the leaf on all three axes. A positive infinite size never fits. A NaN or negative infinite size always passes. |
| Visualization.InLeafGrows | modules/VisualizationImpl/src/main/java/org/gephi/visualization/model/node/NodeModel.java:102-110 | A node inside a leaf is inside any larger leaf with the same centre. |
| Visualization.NodeModel.constructor | modules/VisualizationImpl/src/main/java/org/gephi/visualization/model/node/NodeModel.java:75-83 | Not selected, not marked, mark time 0, a zero drag distance on both axes, no octant, no text bounds; the viewport, camera distance, viewport radius and octant id at 0 and no highlight, as Java's field defaults. |
| Visualization.NodeModel.GetNode | modules/VisualizationImpl/src/main/java/org/gephi/visualization/model/node/NodeModel.java:116-118 | The node. |
| Visualization.NodeModel.HasCustomTextColor | modules/VisualizationImpl/src/main/java/org/gephi/visualization/model/node/NodeModel.java:176-179 | True exactly when the text colour's red component is positive. |
| Visualization.NodeModel.SetText | modules/VisualizationImpl/src/main/java/org/gephi/visualization/model/node/NodeModel.java:181-184 | Sets the text. The node and the other text properties (visible, size, r, g, b and alpha) are unchanged. |
| Visualization.NodeModel.GetTextWidth | modules/VisualizationImpl/src/main/java/org/gephi/visualization/model/node/NodeModel.java:186-193 | The width of the bounds, or 0 without them. |
| Visualization.NodeModel.GetTextHeight | modules/VisualizationImpl/src/main/java/org/gephi/visualization/model/node/NodeModel.java:195-202 | The height of the bounds, or 0 without them. |
| Visualization.NodeModel.SetTextBounds | modules/VisualizationImpl/src/main/java/org/gephi/visualization/model/node/NodeModel.java:204-207 | Stores the bounds; width and height then read from them. |
| Visualization.NodeModel.GetText | modules/VisualizationImpl/src/main/java/org/gephi/visualization/model/node/NodeModel.java:209-216 | The text of the text properties, else the node's label; none exactly when both are missing. |

## Left out

- Threads: the Worker, Combine and Control classes and the CyclicBarrier are not part of this model. GoAlgo returns the ids of the workers it starts, and the layout iterations the workers run are not modelled.
- Randomness and the host: `Random` and `availableProcessors()` become parameters of ResetPropertiesValues. The log line of endAlgo is omitted.
- Host plumbing: the Lookup and graph controller, read locks, progress tickets, setWorkspace and the workspace are not modelled. The attribute model is modelled only as the two tables.
- GraphDistance's report and chart generation is not modelled. Neither are the user-interface files and the host `Node` interface.
- Adding the three computed columns at the start of execute is not modelled. Attributes are a map from node index to the three values.
- Floating point: Java floats and doubles are reals without rounding. `Double` adds the infinities and NaN only where the code divides by a value that can be 0 or infinite, or reads a size that can be NaN.
- Distance.PairDivisor: `(N - 1) * (N - 2)` is an unbounded integer, so its 32-bit overflow for very large graphs is not modelled.
- Distance.GraphDistance.FinishValues: when the pair divisor is 0, the infinite or NaN betweenness is written as an attribute, but the array keeps the halved value.
- Cancellation is a parameter (`cancelAfter`) of Execute: the pass after which a cancel() from another thread is observed. Threads are not modelled, so the flag Cancel raises is not read by RunSources; Run sets isCanceled from the parameter.
- Arrays start empty rather than null before execute.
- Distance.RadiusAttained: requires n <= Integer.MAX_VALUE, so that some eccentricity is below the initial radius.
- Eccentricity is stored as an int, where the code stores a double that only ever holds ints.
- theta is a nat, where the code uses a double that only ever holds counts.
- OpenOrd.OpenOrdLayout.InitAlgo: requires numThreads >= 1, which every setter and resetPropertiesValues ensure. Every edge must join two loaded node ids; the code would look up a missing id as 0.
- The code has two worker loops, one creating the workers and one loading them. The model merges them into LoadWorkers.
- Colour components are reals. Attribute values are an abstract `Value` of four kinds.
- The processor's container starts empty rather than null.
- selectionTest and getCollisionDistance are abstract in NodeModel and are not modelled. getElementProperties returns the node, which GetNode already models.
- The octant is a value datatype; the octree it belongs to is not modelled.
- Visualization.NodeModel.GetText and SetText: they return and accept an optional string, modelling Java's null.
- Visualization.NodeModel.GetText, SetText, GetTextSize, GetTextR, GetTextG, GetTextB, GetTextAlpha, IsTextVisible and HasCustomTextColor: they require text properties, where the code would throw a NullPointerException.
- Processor.AbstractProcessor.FlushToNode: writes the size before the text properties, where the code writes it after. The two writes touch different objects, so the result is the same.
- The plain setters and getters of NodeModel (viewport, camera distance, selection, octant, octant id) have only the obvious contracts and no rows.
