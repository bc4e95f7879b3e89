/**
 * The shortest-path statistics (GraphDistance): one breadth-first search
 * and one dependency pass from every node, giving each node's
 * eccentricity, closeness and betweenness centrality, and the graph's
 * diameter, radius, number of shortest paths and average path length.
 */
module Distance {
  import opened Wrappers
  import opened Numbers
  import opened Paths
  import opened Bfs
  import opened Dependency

  // ----- The graph ----------------------------------------------------------

  /** An edge between two node indices. */
  datatype Edge = Edge(source: nat, target: nat)

  /**
   * The node at the other end of e from v, when the search follows e out
   * of v: out-edges only in a directed graph, every incident edge otherwise.
   */
  function Opposite(e: Edge, v: nat, directed: bool): (r: Option<nat>)
    ensures r == Some(e.target) <==> e.source == v
    ensures r == None <==> e.source != v && (directed || e.target != v)
  {
    if e.source == v then Some(e.target)
    else if !directed && e.target == v then Some(e.source)
    else None
  }

  /** The nodes the search reaches over the edges at v, one entry per edge, in edge order. */
  function Incident(edges: seq<Edge>, v: nat, directed: bool): (r: seq<nat>)
    ensures |r| <= |edges|
    ensures forall y :: y in r ==> exists e :: e in edges && Opposite(e, v, directed) == Some(y)
  {
    if edges == [] then []
    else
      var last := edges[|edges| - 1];
      Incident(edges[..|edges| - 1], v, directed) +
        (match Opposite(last, v, directed) case Some(y) => [y] case None => [])
  }

  /** The positions of the edges whose other end from v is y. */
  function Joining(edges: seq<Edge>, v: nat, directed: bool, y: nat): set<nat>
  {
    set i | 0 <= i < |edges| && Opposite(edges[i], v, directed) == Some(y)
  }

  /** Appending an edge adds its position to the joining set exactly when it joins v to y. */
  lemma JoiningFront(edges: seq<Edge>, v: nat, directed: bool, y: nat)
    requires edges != []
    ensures var m := |edges| - 1;
      Joining(edges, v, directed, y) ==
        Joining(edges[..m], v, directed, y) + (if Opposite(edges[m], v, directed) == Some(y) then {m} else {})
  {
    var m := |edges| - 1;
    forall i | 0 <= i < m ensures edges[..m][i] == edges[i] { }
  }

  /** So its size grows by one exactly then. */
  lemma JoiningSnoc(edges: seq<Edge>, v: nat, directed: bool, y: nat)
    requires edges != []
    ensures var m := |edges| - 1;
      |Joining(edges, v, directed, y)| ==
        |Joining(edges[..m], v, directed, y)| + (if Opposite(edges[m], v, directed) == Some(y) then 1 else 0)
  {
    var m := |edges| - 1;
    JoiningFront(edges, v, directed, y);
    var A := Joining(edges[..m], v, directed, y);
    assert m !in A;
  }

  /** Every edge at v contributes its other end y exactly once: y occurs once per joining edge. */
  lemma {:induction false} IncidentCount(edges: seq<Edge>, v: nat, directed: bool, y: nat)
    ensures multiset(Incident(edges, v, directed))[y] == |Joining(edges, v, directed, y)|
  {
    if edges != [] {
      var m := |edges| - 1;
      IncidentCount(edges[..m], v, directed, y);
      JoiningSnoc(edges, v, directed, y);
      var tail := match Opposite(edges[m], v, directed) case Some(z) => [z] case None => [];
      assert Incident(edges, v, directed) == Incident(edges[..m], v, directed) + tail;
      assert multiset(tail)[y] == if Opposite(edges[m], v, directed) == Some(y) then 1 else 0;
    }
  }

  predicate EdgesIn(edges: seq<Edge>, n: nat)
  {
    forall i :: 0 <= i < |edges| ==> edges[i].source < n && edges[i].target < n
  }

  /** The graph the search walks: the adjacency of every node over the given edges. */
  function BuildGraph(n: nat, edges: seq<Edge>, directed: bool): (g: Graph)
    requires EdgesIn(edges, n)
    ensures Valid(g) && g.n == n
    ensures forall v :: 0 <= v < n ==> g.adj[v] == Incident(edges, v, directed)
  {
    var g := Graph(n, seq(n, v requires 0 <= v < n => Incident(edges, v, directed)));
    assert Valid(g) by {
      forall u, j | 0 <= u < n && 0 <= j < |g.adj[u]| ensures g.adj[u][j] < n {
        assert g.adj[u][j] in Incident(edges, u, directed);
        var e :| e in edges && Opposite(e, u, directed) == Some(g.adj[u][j]);
      }
    }
    g
  }

  /** In the graph built from the edges, u counts y once per edge that takes the search from u to y. */
  lemma BuildGraphEdgeCount(n: nat, edges: seq<Edge>, directed: bool, u: nat, y: nat)
    requires EdgesIn(edges, n) && u < n
    ensures EdgeCount(BuildGraph(n, edges, directed), u, y) == |Joining(edges, u, directed, y)|
  {
    IncidentCount(edges, u, directed, y);
  }

  /** In an undirected graph every edge can be walked both ways, equally often. */
  lemma {:induction false} IncidentSymmetric(edges: seq<Edge>, u: nat, v: nat)
    requires u != v
    ensures multiset(Incident(edges, u, false))[v] == multiset(Incident(edges, v, false))[u]
  {
    if edges != [] {
      var init := edges[..|edges| - 1];
      IncidentSymmetric(init, u, v);
    }
  }

  lemma UndirectedSymmetric(n: nat, edges: seq<Edge>, u: nat, v: nat)
    requires EdgesIn(edges, n) && u < n && v < n && u != v
    ensures EdgeCount(BuildGraph(n, edges, false), u, v) == EdgeCount(BuildGraph(n, edges, false), v, u)
  {
    IncidentSymmetric(edges, u, v);
  }

  // ----- The statistics of one source, on its distances -----------------------

  /** The number of nodes at a positive distance: those reached other than the source. */
  function Reached(dist: seq<int>): (r: nat)
    ensures r <= |dist|
  {
    if dist == [] then 0
    else Reached(dist[..|dist| - 1]) + (if dist[|dist| - 1] > 0 then 1 else 0)
  }

  /** The sum of the positive distances. */
  function DistSum(dist: seq<int>): nat
  {
    if dist == [] then 0
    else DistSum(dist[..|dist| - 1]) + (if dist[|dist| - 1] > 0 then dist[|dist| - 1] else 0)
  }

  /** The largest positive distance, or 0: the eccentricity. */
  function MaxDist(dist: seq<int>): (r: nat)
    ensures forall i :: 0 <= i < |dist| && dist[i] > 0 ==> dist[i] <= r
    ensures r == 0 || exists i :: 0 <= i < |dist| && dist[i] == r
  {
    if dist == [] then 0
    else
      var m := MaxDist(dist[..|dist| - 1]);
      var last := dist[|dist| - 1];
      if last > m then last else m
  }

  /** The mean positive distance, or 0 when the source reaches nothing. */
  function Mean(dist: seq<int>): real
  {
    if Reached(dist) == 0 then 0.0 else (DistSum(dist) as real) / (Reached(dist) as real)
  }

  /** Each reached node is at least one and at most the eccentricity away. */
  lemma {:induction false} SumBounds(dist: seq<int>)
    ensures Reached(dist) <= DistSum(dist) <= Reached(dist) * MaxDist(dist)
  {
    if dist != [] {
      var init := dist[..|dist| - 1];
      var last := dist[|dist| - 1];
      SumBounds(init);
      var r, t, m, m' := Reached(init), DistSum(init), MaxDist(init), MaxDist(dist);
      assert m <= m';
      MulMono(r, m, m');
      if last > 0 {
        assert last <= m';
        MulSucc(r, m');
      }
    }
  }

  lemma MulMono(r: nat, m: nat, m': nat)
    requires m <= m'
    ensures r * m <= r * m'
  {
  }

  lemma MulSucc(r: nat, m: nat)
    ensures (r + 1) * m == r * m + m
  {
  }

  /** The mean distance of a source that reaches something lies between 1 and its eccentricity. */
  lemma MeanBounds(dist: seq<int>)
    requires Reached(dist) > 0
    ensures 1.0 <= Mean(dist) <= MaxDist(dist) as real
  {
    SumBounds(dist);
    MeanOfBounds(Reached(dist), DistSum(dist), MaxDist(dist));
  }

  lemma MeanOfBounds(r: nat, t: nat, m: nat)
    requires 0 < r <= t <= r * m
    ensures 1.0 <= (t as real) / (r as real) <= m as real
  {
    CastMul(r, m);
    DivBounds(t as real, r as real, m as real);
  }

  lemma CastMul(r: nat, m: nat)
    ensures (r * m) as real == (r as real) * (m as real)
  {
  }

  lemma DivBounds(t: real, r: real, m: real)
    requires 0.0 < r <= t <= r * m
    ensures 1.0 <= t / r <= m
  {
  }

  /** The source is at distance 0, so it is never counted. */
  lemma {:induction false} ReachedMissesZero(dist: seq<int>, s: nat)
    requires s < |dist| && dist[s] == 0
    ensures Reached(dist) <= |dist| - 1
  {
    var init := dist[..|dist| - 1];
    if s < |dist| - 1 {
      ReachedMissesZero(init, s);
    }
  }

  /** The distances from s to every node. */
  ghost function Distances(g: Graph, s: nat): (r: seq<int>)
    requires Valid(g) && s < g.n
    ensures |r| == g.n && forall v :: 0 <= v < g.n ==> r[v] == Dist(g, s, v)
  {
    seq(g.n, v requires 0 <= v < g.n => Dist(g, s, v))
  }

  /** A node is at a positive distance exactly when it is reachable and not the source. */
  lemma PositiveIsOther(g: Graph, s: nat, v: nat)
    requires Valid(g) && s < g.n && v < g.n
    ensures Dist(g, s, v) > 0 <==> v != s && Dist(g, s, v) >= 0
  {
    if v == s {
      WithinSource(g, s, 0);
      DistIs(g, s, v, 0);
    }
  }

  // ----- The statistics of the whole graph ----------------------------------

  /** The eccentricity of s: the greatest distance from s. */
  ghost function Ecc(g: Graph, s: nat): nat
    requires Valid(g) && s < g.n
  {
    MaxDist(Distances(g, s))
  }

  /** The diameter over the sources below k: the greatest eccentricity, starting from 0. */
  ghost function DiameterUpTo(g: Graph, k: nat): (r: nat)
    requires Valid(g) && k <= g.n
    ensures forall s :: 0 <= s < k ==> Ecc(g, s) <= r
  {
    if k == 0 then 0 else Max(DiameterUpTo(g, k - 1), Ecc(g, k - 1))
  }

  /** The radius over the sources below k: the least eccentricity, starting from Integer.MAX_VALUE. */
  ghost function RadiusUpTo(g: Graph, k: nat): (r: int)
    requires Valid(g) && k <= g.n
    ensures 0 <= r <= IntMax
    ensures forall s :: 0 <= s < k ==> r <= Ecc(g, s)
  {
    if k == 0 then IntMax else Min(RadiusUpTo(g, k - 1), Ecc(g, k - 1))
  }

  /** The number of ordered pairs (s, t), s below k, with t reachable from s and t != s. */
  ghost function PairsUpTo(g: Graph, k: nat): nat
    requires Valid(g) && k <= g.n
  {
    if k == 0 then 0 else PairsUpTo(g, k - 1) + Reached(Distances(g, k - 1))
  }

  /**
   * The pair count as the int field holds it: the running sum is narrowed
   * from a double after every source, so it stops at Integer.MAX_VALUE.
   */
  ghost function PairCount(g: Graph, k: nat): (r: int)
    requires Valid(g) && k <= g.n
    ensures 0 <= r <= IntMax
    ensures r == IntMax || r == PairsUpTo(g, k)
    ensures r <= PairsUpTo(g, k)
  {
    Min(IntMax, PairsUpTo(g, k))
  }

  /** Saturating after every source is saturating once at the end. */
  lemma {:induction false} PairCountStep(g: Graph, k: nat)
    requires Valid(g) && k < g.n
    ensures PairCount(g, k + 1) == Min(IntMax, PairCount(g, k) + Reached(Distances(g, k)))
  {
  }

  /** On a graph with at most Integer.MAX_VALUE ordered pairs the count is exact. */
  lemma PairCountExact(g: Graph)
    requires Valid(g) && g.n * (g.n - 1) <= IntMax
    ensures PairCount(g, g.n) == PairsUpTo(g, g.n)
  {
    PairsBound(g, g.n);
  }

  /** The sum of the distances of those pairs. */
  ghost function TotalUpTo(g: Graph, k: nat): nat
    requires Valid(g) && k <= g.n
  {
    if k == 0 then 0 else TotalUpTo(g, k - 1) + DistSum(Distances(g, k - 1))
  }

  /** The betweenness of w over the sources below k: the dependencies of the other sources on w. */
  ghost function BetweennessUpTo(g: Graph, w: nat, k: nat): real
    requires Valid(g) && w < g.n && k <= g.n
  {
    if k == 0 then 0.0
    else BetweennessUpTo(g, w, k - 1) + (if k - 1 != w then Dep(g, k - 1, w) else 0.0)
  }

  /** Once a source has been seen, the radius is at most the diameter. */
  lemma RadiusAtMostDiameter(g: Graph, k: nat)
    requires Valid(g) && 0 < k <= g.n
    ensures RadiusUpTo(g, k) <= DiameterUpTo(g, k)
  {
  }

  /** A source that reaches nothing forces the radius to 0. */
  lemma {:induction false} RadiusOfIsolated(g: Graph, k: nat, s: nat)
    requires Valid(g) && s < k <= g.n
    requires forall v :: 0 <= v < g.n && v != s ==> Dist(g, s, v) < 0
    ensures RadiusUpTo(g, k) == 0
  {
    assert Ecc(g, s) == 0 by {
      var d := Distances(g, s);
      if Ecc(g, s) != 0 {
        var i :| 0 <= i < |d| && d[i] == Ecc(g, s);
        PositiveIsOther(g, s, i);
      }
    }
  }

  /** There are at most k * (n - 1) such pairs. */
  lemma {:induction false} PairsBound(g: Graph, k: nat)
    requires Valid(g) && k <= g.n
    ensures PairsUpTo(g, k) <= k * (g.n - 1)
  {
    if k > 0 {
      PairsBound(g, k - 1);
      var s := k - 1;
      WithinSource(g, s, 0);
      DistIs(g, s, s, 0);
      ReachedMissesZero(Distances(g, s), s);
      MulSucc(k - 1, g.n - 1);
    }
  }

  /** Every eccentricity is below the number of nodes. */
  lemma EccBelow(g: Graph, s: nat)
    requires Valid(g) && s < g.n
    ensures Ecc(g, s) < g.n
  {
    var d := Distances(g, s);
    if Ecc(g, s) != 0 {
      var i :| 0 <= i < |d| && d[i] == Ecc(g, s);
    }
  }

  /**
   * On a graph whose node count fits in a Java int, the radius of the
   * sources below k > 0 is the eccentricity of one of them.
   */
  lemma {:induction false} RadiusAttained(g: Graph, k: nat) returns (s: nat)
    requires Valid(g) && 0 < k <= g.n <= IntMax
    ensures s < k && RadiusUpTo(g, k) == Ecc(g, s)
  {
    EccBelow(g, k - 1);
    if k == 1 || Ecc(g, k - 1) <= RadiusUpTo(g, k - 1) {
      s := k - 1;
    } else {
      s := RadiusAttained(g, k - 1);
    }
  }

  /** Betweenness is never negative. */
  lemma {:induction false} BetweennessNonNegative(g: Graph, w: nat, k: nat)
    requires Valid(g) && w < g.n && k <= g.n
    ensures BetweennessUpTo(g, w, k) >= 0.0
  {
    if k > 0 {
      BetweennessNonNegative(g, w, k - 1);
      DepNonNegative(g, k - 1, w);
    }
  }

  /** A normalised closeness lies in [0, 1]: the inverse of a mean distance of at least 1, or 0. */
  lemma NormalizedClosenessBounds(dist: seq<int>)
    ensures var c := Mean(dist); var r := if c == 0.0 then 0.0 else 1.0 / c; 0.0 <= r <= 1.0
  {
    if Reached(dist) > 0 {
      MeanBounds(dist);
    }
  }

  /** The distances a search yields are the distances of the graph. */
  lemma SearchDistances(g: Graph, s: nat, dist: seq<int>, sigma: seq<nat>, preds: seq<seq<nat>>, order: seq<nat>)
    requires SearchResult(g, s, dist, sigma, preds, order)
    ensures dist == Distances(g, s)
  {
  }

  // ----- What the statistics write ------------------------------------------

  /** The three attributes written on every node. */
  datatype Centrality = Centrality(eccentricity: int, closeness: real, betweenness: Double)

  /** The divisor of the normalised betweenness: the number of (ordered, when directed) pairs of other nodes. */
  function PairDivisor(n: nat, directed: bool): (r: int)
    ensures n == 1 || n == 2 ==> r == 0
    ensures n >= 3 ==> r > 0
  {
    var pairs := (n - 1) * (n - 2);
    assert n >= 3 ==> pairs >= 2 by {
      if n >= 3 {
        MulMono(n - 1, 1, n - 2);
      }
    }
    if directed then pairs else pairs / 2
  }

  /** The closeness written: the mean distance, inverted when normalising (0 stays 0). */
  function WrittenCloseness(mean: real, normalized: bool): (r: real)
    ensures !normalized ==> r == mean
    ensures normalized && mean == 0.0 ==> r == 0.0
  {
    if normalized then (if mean == 0.0 then 0.0 else 1.0 / mean) else mean
  }

  /** The normalised closeness of a non-zero mean is its inverse. */
  lemma WrittenClosenessInverts(mean: real)
    requires mean != 0.0
    ensures WrittenCloseness(mean, true) * mean == 1.0
  {
  }

  /**
   * The betweenness written: halved in an undirected graph (each path was
   * counted from both ends), divided by the pair count when normalising.
   */
  function WrittenBetweenness(b: real, n: nat, directed: bool, normalized: bool): (r: Double)
    ensures !normalized ==> r == Finite(if directed then b else b / 2.0)
    ensures normalized ==> (r.Finite? <==> PairDivisor(n, directed) != 0)
  {
    var h := if directed then b else b / 2.0;
    if normalized then Divide(h, PairDivisor(n, directed)) else Finite(h)
  }

  /**
   * A normalised betweenness that is finite times the pair divisor is the
   * halved sum, and a non-negative sum gives a non-negative value on three
   * or more nodes.
   */
  lemma WrittenBetweennessDivides(b: real, n: nat, directed: bool, normalized: bool)
    ensures var r := WrittenBetweenness(b, n, directed, normalized);
      normalized && r.Finite? ==> r.value * PairDivisor(n, directed) as real == (if directed then b else b / 2.0)
    ensures b >= 0.0 && (n >= 3 || !normalized) ==>
      WrittenBetweenness(b, n, directed, normalized).Finite? && WrittenBetweenness(b, n, directed, normalized).value >= 0.0
  {
  }

  ghost function ClosenessOf(g: Graph, s: nat, normalized: bool): real
    requires Valid(g) && s < g.n
  {
    WrittenCloseness(Mean(Distances(g, s)), normalized)
  }

  ghost function BetweennessOf(g: Graph, w: nat, directed: bool, normalized: bool): Double
    requires Valid(g) && w < g.n
  {
    WrittenBetweenness(BetweennessUpTo(g, w, g.n), g.n, directed, normalized)
  }

  /** The attributes a finished run writes on node v. */
  ghost function CentralityOf(g: Graph, v: nat, directed: bool, normalized: bool): Centrality
    requires Valid(g) && v < g.n
  {
    Centrality(Ecc(g, v), ClosenessOf(g, v, normalized), BetweennessOf(g, v, directed, normalized))
  }

  /** The attributes a finished run writes on the nodes below k. */
  ghost function Report(g: Graph, k: nat, directed: bool, normalized: bool): (r: map<nat, Centrality>)
    requires Valid(g) && k <= g.n
  {
    if k == 0 then map[] else Report(g, k - 1, directed, normalized)[k - 1 := CentralityOf(g, k - 1, directed, normalized)]
  }

  /** A report of the nodes below k has an entry for exactly those nodes. */
  lemma {:induction false} ReportKeys(g: Graph, k: nat, directed: bool, normalized: bool)
    requires Valid(g) && k <= g.n
    ensures forall v :: v in Report(g, k, directed, normalized) <==> 0 <= v < k
  {
    if k > 0 {
      ReportKeys(g, k - 1, directed, normalized);
    }
  }

  /** Node v's entry in the report is its centrality. */
  lemma {:induction false} ReportAt(g: Graph, k: nat, directed: bool, normalized: bool, v: nat)
    requires Valid(g) && v < k <= g.n
    ensures v in Report(g, k, directed, normalized) && Report(g, k, directed, normalized)[v] == CentralityOf(g, v, directed, normalized)
  {
    if v < k - 1 {
      ReportAt(g, k - 1, directed, normalized, v);
    }
  }

  /**
   * The attributes the final loop writes on the nodes below k, from the
   * raw eccentricities E, closeness sums C and betweenness sums B.
   */
  function Written(E: seq<int>, C: seq<real>, B: seq<real>, k: nat, n: nat, directed: bool, normalized: bool): map<nat, Centrality>
    requires k <= |E| && k <= |C| && k <= |B|
  {
    if k == 0 then map[]
    else
      Written(E, C, B, k - 1, n, directed, normalized)[k - 1 :=
        Centrality(E[k - 1], WrittenCloseness(C[k - 1], normalized), WrittenBetweenness(B[k - 1], n, directed, normalized))]
  }

  /** Written from the values every source pass leaves behind, it is the report of the graph. */
  lemma {:induction false} WrittenIsReport(g: Graph, E: seq<int>, C: seq<real>, B: seq<real>, k: nat, directed: bool, normalized: bool)
    requires Valid(g) && k <= g.n && |E| == g.n && |C| == g.n && |B| == g.n
    requires forall v :: 0 <= v < g.n ==> E[v] == Ecc(g, v) && C[v] == Mean(Distances(g, v)) && B[v] == BetweennessUpTo(g, v, g.n)
    ensures Written(E, C, B, k, g.n, directed, normalized) == Report(g, k, directed, normalized)
  {
    if k > 0 {
      WrittenIsReport(g, E, C, B, k - 1, directed, normalized);
    }
  }

  lemma UpdateUnion<K, V>(a: map<K, V>, b: map<K, V>, k: K, v: V)
    ensures (a + b)[k := v] == a + b[k := v]
  {
  }

  // ----- The statistic ------------------------------------------------------

  class GraphDistance {
    var betweenness: array<real>
    var closeness: array<real>
    var eccentricity: array<int>
    var diameter: int
    var radius: int
    var avgDist: Double
    var n: nat
    var isDirected: bool
    var isCanceled: bool
    var shortestPaths: int
    var isNormalized: bool
    /** The attribute values written on the nodes of the graph, by node index. */
    var attributes: map<nat, Centrality>

    /** The three result arrays have one entry per node and are distinct. */
    ghost predicate Shape()
      reads this`n, this`betweenness, this`closeness, this`eccentricity
    {
      betweenness.Length == n && closeness.Length == n && eccentricity.Length == n && betweenness != closeness
    }

    /**
     * A new statistic follows the directedness of the current graph model,
     * when there is one.
     */
    constructor(modelDirected: Option<bool>)
      ensures isDirected == modelDirected.GetOr(false)
      ensures !isNormalized && !isCanceled && n == 0 && Shape()
      ensures diameter == 0 && radius == 0 && shortestPaths == 0 && avgDist == Finite(0.0)
      ensures attributes == map[]
    {
      isDirected := modelDirected.GetOr(false);
      isNormalized := false;
      isCanceled := false;
      n := 0;
      diameter := 0;
      radius := 0;
      shortestPaths := 0;
      avgDist := Finite(0.0);
      betweenness := new real[0];
      closeness := new real[0];
      eccentricity := new int[0];
      attributes := map[];
    }

    function GetPathLength(): (r: Double)
      reads this
      ensures r == avgDist
    {
      avgDist
    }

    function GetDiameter(): (r: real)
      reads this
      ensures r == diameter as real
    {
      diameter as real
    }

    method SetNormalized(normalized: bool)
      modifies this`isNormalized
      ensures isNormalized == normalized
    {
      isNormalized := normalized;
    }

    function IsNormalized(): (r: bool)
      reads this
      ensures r == isNormalized
    {
      isNormalized
    }

    method SetDirected(directed: bool)
      modifies this`isDirected
      ensures isDirected == directed
    {
      isDirected := directed;
    }

    function IsDirected(): (r: bool)
      reads this
      ensures r == isDirected
    {
      isDirected
    }

    /** Asks a running execute to stop after the current source. */
    method Cancel() returns (r: bool)
      modifies this`isCanceled
      ensures isCanceled && r
    {
      isCanceled := true;
      r := true;
    }

    /**
     * The statistics loop of one source: for every node at a positive
     * distance, add the distance to the path-length total and the closeness
     * of s, raise the eccentricity of s and the diameter to it, and count it.
     */
    method SourceStats(s: nat, dist: seq<int>) returns (reachable: nat)
      requires Shape() && s < n && |dist| == n && avgDist.Finite? && diameter >= 0
      requires eccentricity[s] == 0 && closeness[s] == 0.0
      modifies this`diameter, this`avgDist, eccentricity, closeness
      ensures reachable == Reached(dist)
      ensures eccentricity[s] == MaxDist(dist) && closeness[s] == DistSum(dist) as real
      ensures forall v :: 0 <= v < n && v != s ==> eccentricity[v] == old(eccentricity[v]) && closeness[v] == old(closeness[v])
      ensures diameter == Max(old(diameter), MaxDist(dist))
      ensures avgDist == Finite(old(avgDist).value + DistSum(dist) as real)
    {
      // The accumulators of the loop, written back to the fields and arrays
      // once it ends; nothing else reads them in between.
      var total, ecc, sum, diam := avgDist.value, eccentricity[s], closeness[s], diameter;
      reachable := 0;
      var i := 0;
      while i < n
        invariant 0 <= i <= n
        invariant reachable == Reached(dist[..i])
        invariant ecc == MaxDist(dist[..i]) && sum == DistSum(dist[..i]) as real
        invariant diam == Max(old(diameter), MaxDist(dist[..i]))
        invariant total == old(avgDist).value + DistSum(dist[..i]) as real
      {
        assert dist[..i + 1][..i] == dist[..i];
        if dist[i] > 0 {
          total := total + dist[i] as real;
          ecc := Max(ecc, dist[i]);
          sum := sum + dist[i] as real;
          diam := Max(diam, dist[i]);
          reachable := reachable + 1;
        }
        i := i + 1;
      }
      assert dist[..i] == dist;
      avgDist, diameter := Finite(total), diam;
      eccentricity[s] := ecc;
      closeness[s] := sum;
    }

    /**
     * The statistics of one source on its distances: the loop above, then
     * the radius, the mean distance as closeness, and the pair count.
     */
    method SourceSummary(s: nat, dist: seq<int>)
      requires Shape() && s < n && |dist| == n && avgDist.Finite? && diameter >= 0
      requires eccentricity[s] == 0 && closeness[s] == 0.0
      modifies this`diameter, this`radius, this`avgDist, this`shortestPaths, eccentricity, closeness
      ensures eccentricity[s] == MaxDist(dist) && closeness[s] == Mean(dist)
      ensures forall v :: 0 <= v < n && v != s ==> eccentricity[v] == old(eccentricity[v]) && closeness[v] == old(closeness[v])
      ensures diameter == Max(old(diameter), MaxDist(dist)) && radius == Min(MaxDist(dist), old(radius))
      ensures shortestPaths == Min(IntMax, old(shortestPaths) + Reached(dist))
      ensures avgDist == Finite(old(avgDist).value + DistSum(dist) as real)
    {
      var reachable := SourceStats(s, dist);
      radius := Min(eccentricity[s], radius);
      if reachable != 0 {
        closeness[s] := closeness[s] / reachable as real;
      } else {
        SumBounds(dist);
      }
      // The int field takes the double sum through a narrowing cast, which
      // saturates at Integer.MAX_VALUE.
      shortestPaths := Min(IntMax, shortestPaths + reachable);
    }

    /** Everything one source contributes: the search, its statistics and the dependency pass. */
    method SourcePass(g: Graph, s: nat)
      requires Shape() && Valid(g) && g.n == n && s < n && avgDist.Finite? && diameter >= 0
      requires eccentricity[s] == 0 && closeness[s] == 0.0
      modifies this`diameter, this`radius, this`avgDist, this`shortestPaths, eccentricity, closeness, betweenness
      ensures eccentricity[s] == Ecc(g, s) && closeness[s] == Mean(Distances(g, s))
      ensures forall v :: 0 <= v < n && v != s ==> eccentricity[v] == old(eccentricity[v]) && closeness[v] == old(closeness[v])
      ensures diameter == Max(old(diameter), Ecc(g, s)) && radius == Min(Ecc(g, s), old(radius))
      ensures shortestPaths == Min(IntMax, old(shortestPaths) + Reached(Distances(g, s)))
      ensures avgDist == Finite(old(avgDist).value + DistSum(Distances(g, s)) as real)
      ensures forall w :: 0 <= w < n ==> betweenness[w] == old(betweenness[w]) + (if w != s then Dep(g, s, w) else 0.0)
    {
      var dist, sigma, preds, order := Search(g, s);
      SearchDistances(g, s, dist, sigma, preds, order);
      GraphSummary(g, s, dist);
      var _ := Accumulate(g, s, dist, sigma, preds, order, betweenness);
    }

    /** The statistics of the distances the search from s found, stated on the graph. */
    method GraphSummary(ghost g: Graph, s: nat, dist: seq<int>)
      requires Shape() && Valid(g) && g.n == n && s < n && avgDist.Finite? && diameter >= 0
      requires eccentricity[s] == 0 && closeness[s] == 0.0 && dist == Distances(g, s)
      modifies this`diameter, this`radius, this`avgDist, this`shortestPaths, eccentricity, closeness
      ensures eccentricity[s] == Ecc(g, s) && closeness[s] == Mean(Distances(g, s))
      ensures forall v :: 0 <= v < n && v != s ==> eccentricity[v] == old(eccentricity[v]) && closeness[v] == old(closeness[v])
      ensures diameter == Max(old(diameter), Ecc(g, s)) && radius == Min(Ecc(g, s), old(radius))
      ensures shortestPaths == Min(IntMax, old(shortestPaths) + Reached(Distances(g, s)))
      ensures avgDist == Finite(old(avgDist).value + DistSum(Distances(g, s)) as real)
    {
      SourceSummary(s, dist);
    }

    /** The graph-wide totals after the sources below k, and their eccentricities. */
    ghost predicate Totals(g: Graph, k: nat)
      reads this`diameter, this`radius, this`shortestPaths, this`eccentricity, eccentricity
    {
      && Valid(g) && k <= g.n && eccentricity.Length == g.n
      && diameter == DiameterUpTo(g, k) && radius == RadiusUpTo(g, k) && shortestPaths == PairCount(g, k)
      && (forall v :: 0 <= v < k ==> eccentricity[v] == Ecc(g, v))
    }

    /** The state between two source passes, after the sources below k. */
    ghost predicate Progress(g: Graph, k: nat)
      reads this`n, this`betweenness, this`closeness, this`eccentricity, this`diameter, this`radius, this`shortestPaths, this`avgDist, eccentricity, closeness, betweenness
    {
      && Shape() && g.n == n && Totals(g, k)
      && avgDist.Finite? && avgDist.value == TotalUpTo(g, k) as real
      && (forall v :: 0 <= v < k ==> closeness[v] == Mean(Distances(g, v)))
      && (forall v :: k <= v < n ==> eccentricity[v] == 0 && closeness[v] == 0.0)
      && (forall w :: 0 <= w < n ==> betweenness[w] == BetweennessUpTo(g, w, k))
    }

    /** One turn of the source loop moves the state on by one source. */
    method Step(g: Graph, s: nat)
      requires Progress(g, s) && s < n
      modifies this`diameter, this`radius, this`avgDist, this`shortestPaths, eccentricity, closeness, betweenness
      ensures Progress(g, s + 1)
    {
      SourcePass(g, s);
      PairCountStep(g, s);
    }

    /**
     * The final loop on node s: halve its betweenness in an undirected
     * graph, invert its closeness and divide its betweenness by the pair
     * count when normalising, and write its three attributes. E, C and B
     * are the raw eccentricity, closeness and betweenness values.
     */
    method PublishNode(s: nat, ghost E: seq<int>, ghost C: seq<real>, ghost B: seq<real>, ghost a0: map<nat, Centrality>)
      requires Pending(s, C, B) && s < n && eccentricity[..] == E
      requires attributes == a0 + Written(E, C, B, s, n, isDirected, isNormalized)
      modifies this`attributes, closeness, betweenness
      ensures attributes == old(attributes)[s := Centrality(E[s], WrittenCloseness(C[s], isNormalized), WrittenBetweenness(B[s], n, isDirected, isNormalized))]
      ensures attributes == a0 + Written(E, C, B, s + 1, n, isDirected, isNormalized)
      ensures Pending(s + 1, C, B)
    {
      var c, b := FinishValues(s);
      attributes := attributes[s := Centrality(eccentricity[s], c, b)];
      UpdateUnion(a0, Written(E, C, B, s, n, isDirected, isNormalized), s, Centrality(E[s], c, b));
    }

    /**
     * The array part of the final loop on node s: the closeness and the
     * betweenness written back, and returned for the attributes. A zero
     * pair count leaves the halved betweenness in the array.
     */
    method FinishValues(s: nat) returns (c: real, b: Double)
      requires s < closeness.Length && s < betweenness.Length && closeness != betweenness
      modifies closeness, betweenness
      ensures c == WrittenCloseness(old(closeness[s]), isNormalized)
      ensures b == WrittenBetweenness(old(betweenness[s]), n, isDirected, isNormalized)
      ensures closeness[..] == old(closeness[..])[s := c]
      ensures betweenness[..] == old(betweenness[..])[s := if b.Finite? then b.value
                                                           else if isDirected then old(betweenness[s]) else old(betweenness[s]) / 2.0]
    {
      var between := betweenness[s];
      if !isDirected {
        between := between / 2.0;
      }
      b := Finite(between);
      c := closeness[s];
      if isNormalized {
        c := if c == 0.0 then 0.0 else 1.0 / c;
        var divisor := PairDivisor(n, isDirected);
        b := Divide(between, divisor);
        if divisor != 0 {
          between := between / divisor as real;
        }
      }
      closeness[s] := c;
      betweenness[s] := between;
    }

    /** Before the final loop reaches node s: the nodes from s on still hold the raw values C and B. */
    ghost predicate Pending(s: nat, C: seq<real>, B: seq<real>)
      reads this`n, this`betweenness, this`closeness, this`eccentricity, closeness, betweenness
    {
      && Shape()
      && |C| == n && |B| == n && s <= n
      && (forall v :: s <= v < n ==> closeness[v] == C[v] && betweenness[v] == B[v])
    }

    /** The final loop over all nodes, from the raw values E, C and B. */
    method Publish(ghost E: seq<int>, ghost C: seq<real>, ghost B: seq<real>)
      requires Pending(0, C, B) && eccentricity[..] == E
      modifies this`attributes, closeness, betweenness
      ensures attributes == old(attributes) + Written(E, C, B, n, n, isDirected, isNormalized)
    {
      ghost var a0 := attributes;
      var s := 0;
      while s < n
        invariant Pending(s, C, B)
        invariant attributes == a0 + Written(E, C, B, s, n, isDirected, isNormalized)
      {
        PublishNode(s, E, C, B, a0);
        s := s + 1;
      }
    }

    /**
     * Runs the statistic on the graph with nodes 0 .. nodeCount-1 and the
     * given edges. When cancel() is observed after the pass of source
     * number k (counting from 1), cancelAfter is Some(k): execute then
     * returns without writing any attribute.
     */
    method Execute(nodeCount: nat, edges: seq<Edge>, cancelAfter: Option<nat>)
      requires EdgesIn(edges, nodeCount)
      modifies this
      ensures Shape() && n == nodeCount
      ensures isDirected == old(isDirected) && isNormalized == old(isNormalized)
      ensures Outcome(BuildGraph(nodeCount, edges, isDirected), cancelAfter, old(attributes))
    {
      var g := BuildGraph(nodeCount, edges, isDirected);
      Start(g, cancelAfter);
    }

    /** Execute on the indexed graph: the starting state, then the loops. */
    method Start(g: Graph, cancelAfter: Option<nat>)
      requires Valid(g)
      modifies this`n, this`betweenness, this`closeness, this`eccentricity, this`diameter, this`radius, this`avgDist, this`shortestPaths
      modifies this`isCanceled, this`attributes
      ensures Shape() && n == g.n
      ensures Outcome(g, cancelAfter, old(attributes))
    {
      Reset(g);
      Run(g, cancelAfter);
    }

    /**
     * What execute leaves behind on g: the totals up to the pass at which
     * it stopped, and, when it was not cancelled, the average path length
     * and the attributes of every node added to those it found.
     */
    ghost predicate Outcome(g: Graph, cancelAfter: Option<nat>, a0: map<nat, Centrality>)
      reads this`diameter, this`radius, this`shortestPaths, this`eccentricity, eccentricity
      reads this`isCanceled, this`avgDist, this`attributes, this`isDirected, this`isNormalized
    {
      && (isCanceled <==> Cancels(cancelAfter, g.n))
      && (isCanceled ==> Stopped(g, cancelAfter.value, a0))
      && (!isCanceled ==> Completed(g, a0))
    }

    /** Cancelled after k passes: the totals of those passes, and no attribute written. */
    ghost predicate Stopped(g: Graph, k: nat, a0: map<nat, Centrality>)
      reads this`diameter, this`radius, this`shortestPaths, this`eccentricity, eccentricity
      reads this`avgDist, this`attributes
    {
      && Totals(g, k)
      && avgDist == Finite(TotalUpTo(g, k) as real)
      && attributes == a0
    }

    /** A run over every source: the totals, the average path length and the attributes of every node. */
    ghost predicate Completed(g: Graph, a0: map<nat, Centrality>)
      reads this`diameter, this`radius, this`shortestPaths, this`eccentricity, eccentricity
      reads this`avgDist, this`attributes, this`isDirected, this`isNormalized
    {
      && Totals(g, g.n)
      && avgDist == Divide(TotalUpTo(g, g.n) as real, PairCount(g, g.n))
      && attributes == a0 + Report(g, g.n, isDirected, isNormalized)
    }

    /** The source loop of execute, then, unless it was cancelled, the final loop. */
    method Run(g: Graph, cancelAfter: Option<nat>)
      requires Progress(g, 0)
      modifies this`diameter, this`radius, this`avgDist, this`shortestPaths, this`isCanceled, this`attributes
      modifies eccentricity, closeness, betweenness
      ensures Outcome(g, cancelAfter, old(attributes))
    {
      var canceled, passes := RunSources(g, cancelAfter);
      isCanceled := canceled;
      if canceled {
        StoppedAfter(g, passes);
      } else {
        Complete(g);
      }
    }

    /** The state after k passes is that of a run cancelled there. */
    lemma StoppedAfter(g: Graph, k: nat)
      requires Progress(g, k)
      ensures Stopped(g, k, attributes)
    {
    }

    /** After an uncancelled loop: the average path length, then the final loop. */
    method Complete(g: Graph)
      requires Progress(g, n)
      modifies this`avgDist, this`attributes, closeness, betweenness
      ensures Completed(g, old(attributes))
    {
      ghost var E, C, B := eccentricity[..], closeness[..], betweenness[..];
      avgDist := Divide(avgDist.value, shortestPaths);
      Publish(E, C, B);
      WrittenIsReport(g, E, C, B, n, isDirected, isNormalized);
    }

    /**
     * The loop over the sources, which stops after the pass at which a
     * cancellation is observed.
     */
    method RunSources(g: Graph, cancelAfter: Option<nat>) returns (canceled: bool, k: nat)
      requires Progress(g, 0)
      modifies this`diameter, this`radius, this`avgDist, this`shortestPaths, eccentricity, closeness, betweenness
      ensures canceled <==> Cancels(cancelAfter, n)
      ensures k == if canceled then cancelAfter.value else n
      ensures canceled ==> Progress(g, cancelAfter.value)
      ensures !canceled ==> Progress(g, n)
    {
      canceled, k := false, 0;
      while k < n && !canceled
        invariant Progress(g, k)
        invariant canceled <==> Cancels(cancelAfter, n) && k == cancelAfter.value
        invariant Cancels(cancelAfter, n) ==> k <= cancelAfter.value
        decreases n - k
      {
        Step(g, k);
        k := k + 1;
        canceled := cancelAfter == Some(k);
      }
    }

    /** Zeroed result arrays for count nodes. */
    method Allocate(count: nat)
      modifies this`n, this`betweenness, this`closeness, this`eccentricity
      ensures Shape() && n == count
      ensures fresh(betweenness) && fresh(closeness) && fresh(eccentricity)
      ensures forall v :: 0 <= v < n ==> betweenness[v] == 0.0 && closeness[v] == 0.0 && eccentricity[v] == 0
    {
      n := count;
      betweenness := new real[n](_ => 0.0);
      eccentricity := new int[n](_ => 0);
      closeness := new real[n](_ => 0.0);
    }

    /** The cleared cancellation flag, the fresh result arrays and the starting totals of execute. */
    method Reset(g: Graph)
      requires Valid(g)
      modifies this`n, this`betweenness, this`closeness, this`eccentricity, this`diameter, this`radius, this`avgDist, this`shortestPaths
      modifies this`isCanceled
      ensures Progress(g, 0) && !isCanceled
      ensures fresh(betweenness) && fresh(closeness) && fresh(eccentricity)
    {
      isCanceled := false;
      Allocate(g.n);
      diameter := 0;
      avgDist := Finite(0.0);
      shortestPaths := 0;
      radius := IntMax;
    }
  }

  /** A cancellation observed after pass k, for a k among the passes that run, stops execute. */
  predicate Cancels(cancelAfter: Option<nat>, nodeCount: nat)
  {
    cancelAfter.Some? && 1 <= cancelAfter.value <= nodeCount
  }
}
