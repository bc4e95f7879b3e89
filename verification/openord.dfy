/**
 * The sequential set-up of the OpenOrd layout: loading the visible graph
 * into a node array and a symmetric weighted adjacency table, optionally
 * zeroing the positions, and handing every worker a copy of the nodes and
 * its shard of the adjacency; the clamping property setters; and the
 * running / firstIteration life cycle.
 */
module OpenOrd {
  import opened Wrappers
  import opened Numbers

  // ----- The graph as the layout reads it ---------------------------------

  /** A visible node of the host graph: its id, its position and whether it is pinned. */
  datatype GraphNode = GraphNode(id: int, x: real, y: real, fixed: bool)

  /** An edge of the host graph, between two node ids. */
  datatype GraphEdge = GraphEdge(source: int, target: int, weight: real)

  /** A layout node (OpenOrd's own Node): its index, position and pin flag. */
  datatype LayoutNode = LayoutNode(id: nat, x: real, y: real, fixed: bool)

  /** One entry per node index: no map when no edge touches the node, else neighbour index to weight. */
  type Adjacency = seq<Option<map<nat, real>>>

  /** What a worker is given: its id, its copy of the nodes and its shard of the adjacency. */
  datatype WorkerData = WorkerData(id: nat, positions: seq<LayoutNode>, neighbors: seq<Option<map<nat, Double>>>)

  /** The host graph gives every node its own id. */
  predicate DistinctIds(nodes: seq<GraphNode>)
  {
    forall i, j :: 0 <= i < j < |nodes| ==> nodes[i].id != nodes[j].id
  }

  /** The node id to node index table: each id maps to the last index that carries it. */
  function IdMap(nodes: seq<GraphNode>): (m: map<int, nat>)
    ensures forall i :: 0 <= i < |nodes| ==> nodes[i].id in m
    ensures forall id :: id in m ==> m[id] < |nodes|
  {
    if nodes == [] then map[]
    else IdMap(nodes[..|nodes| - 1])[nodes[|nodes| - 1].id := |nodes| - 1]
  }

  /** Every id in the table maps to an index of a node that carries it. */
  lemma {:induction false} IdMapFinds(nodes: seq<GraphNode>, id: int)
    requires id in IdMap(nodes)
    ensures nodes[IdMap(nodes)[id]].id == id
  {
    var init := nodes[..|nodes| - 1];
    if id != nodes[|nodes| - 1].id {
      IdMapFinds(init, id);
      assert nodes[IdMap(init)[id]] == init[IdMap(init)[id]];
    }
  }

  /** Loading node i adds its id, mapped to i, to the table of the nodes before it. */
  lemma IdMapSnoc(nodes: seq<GraphNode>, i: nat)
    requires i < |nodes|
    ensures IdMap(nodes[..i + 1]) == IdMap(nodes[..i])[nodes[i].id := i]
  {
    assert nodes[..i + 1][..i] == nodes[..i];
  }

  /** With distinct ids, the node at index i is found again at index i. */
  lemma {:induction false} IdMapIndex(nodes: seq<GraphNode>, i: nat)
    requires DistinctIds(nodes) && i < |nodes|
    ensures IdMap(nodes)[nodes[i].id] == i
  {
    var init := nodes[..|nodes| - 1];
    if i < |nodes| - 1 {
      assert DistinctIds(init);
      assert init[i] == nodes[i];
      IdMapIndex(init, i);
    }
  }

  /** Every edge joins two nodes of the graph. */
  predicate EdgesKnown(edges: seq<GraphEdge>, ids: map<int, nat>)
  {
    forall k :: 0 <= k < |edges| ==> edges[k].source in ids && edges[k].target in ids
  }

  /** The layout node loaded for graph node v at index i, before any reset. */
  function Loaded(v: GraphNode, i: nat): LayoutNode
  {
    LayoutNode(i, v.x, v.y, v.fixed)
  }

  /** The positions the workers get: the loaded nodes, at the origin when positions are reset. */
  function Positions(nodes: seq<GraphNode>, reset: bool): (r: seq<LayoutNode>)
    ensures |r| == |nodes|
    ensures forall i :: 0 <= i < |nodes| ==>
      r[i].id == i && r[i].fixed == nodes[i].fixed &&
      r[i].x == (if reset then 0.0 else nodes[i].x) && r[i].y == (if reset then 0.0 else nodes[i].y)
  {
    seq(|nodes|, i requires 0 <= i < |nodes| =>
      if reset then Loaded(nodes[i], i).(x := 0.0, y := 0.0) else Loaded(nodes[i], i))
  }

  // ----- The adjacency table -------------------------------------------------

  function Entries(o: Option<map<nat, real>>): map<nat, real>
  {
    if o.Some? then o.value else map[]
  }

  /** Records one edge between two distinct nodes in both directions, overwriting an earlier weight. */
  function AddEdge(adj: Adjacency, s: nat, t: nat, w: real): (r: Adjacency)
    requires s < |adj| && t < |adj| && s != t
    ensures |r| == |adj|
  {
    var a := adj[s := Some(Entries(adj[s])[t := w])];
    a[t := Some(Entries(a[t])[s := w])]
  }

  /** The adjacency after the given edges, self-loops skipped. */
  function Neighbors(n: nat, edges: seq<GraphEdge>, ids: map<int, nat>): (r: Adjacency)
    requires EdgesKnown(edges, ids) && forall id :: id in ids ==> ids[id] < n
    ensures |r| == n
  {
    if edges == [] then seq(n, _ => None)
    else
      var init := edges[..|edges| - 1];
      assert EdgesKnown(init, ids) by {
        forall k | 0 <= k < |init| ensures init[k].source in ids && init[k].target in ids {
          assert init[k] == edges[k];
        }
      }
      var a := Neighbors(n, init, ids);
      var e := edges[|edges| - 1];
      var s, t := ids[e.source], ids[e.target];
      if s != t then AddEdge(a, s, t, e.weight) else a
  }

  /** Edge e joins the nodes with indices s and t, in either direction. */
  predicate Joins(e: GraphEdge, ids: map<int, nat>, s: nat, t: nat)
  {
    e.source in ids && e.target in ids &&
    ((ids[e.source] == s && ids[e.target] == t) || (ids[e.source] == t && ids[e.target] == s))
  }

  /** The largest weight over the edges that are not self-loops; negative infinity when there are none. */
  function Highest(edges: seq<GraphEdge>, ids: map<int, nat>): (r: Double)
    requires EdgesKnown(edges, ids)
    ensures r == NegativeInfinity || r.Finite?
  {
    if edges == [] then NegativeInfinity
    else
      var init := edges[..|edges| - 1];
      assert EdgesKnown(init, ids) by {
        forall k | 0 <= k < |init| ensures init[k].source in ids && init[k].target in ids {
          assert init[k] == edges[k];
        }
      }
      var e := edges[|edges| - 1];
      var h := Highest(init, ids);
      if ids[e.source] != ids[e.target] then MaxDouble(h, e.weight) else h
  }

  predicate Proper(e: GraphEdge, ids: map<int, nat>)
    requires e.source in ids && e.target in ids
  {
    ids[e.source] != ids[e.target]
  }

  /** No node is its own neighbour. */
  lemma {:induction false} NoSelfLoops(n: nat, edges: seq<GraphEdge>, ids: map<int, nat>, i: nat)
    requires EdgesKnown(edges, ids) && forall id :: id in ids ==> ids[id] < n
    requires i < n
    ensures i !in Entries(Neighbors(n, edges, ids)[i])
  {
    if edges != [] {
      var init := edges[..|edges| - 1];
      assert EdgesKnown(init, ids) by {
        forall k | 0 <= k < |init| ensures init[k].source in ids && init[k].target in ids {
          assert init[k] == edges[k];
        }
      }
      NoSelfLoops(n, init, ids, i);
    }
  }

  /** The table is symmetric: s lists t with weight w exactly when t lists s with weight w. */
  lemma {:induction false} Symmetric(n: nat, edges: seq<GraphEdge>, ids: map<int, nat>, s: nat, t: nat)
    requires EdgesKnown(edges, ids) && forall id :: id in ids ==> ids[id] < n
    requires s < n && t < n
    ensures var adj := Neighbors(n, edges, ids);
      t in Entries(adj[s]) <==> s in Entries(adj[t])
    ensures var adj := Neighbors(n, edges, ids);
      t in Entries(adj[s]) ==> Entries(adj[s])[t] == Entries(adj[t])[s]
  {
    if edges != [] {
      var init := edges[..|edges| - 1];
      assert EdgesKnown(init, ids) by {
        forall k | 0 <= k < |init| ensures init[k].source in ids && init[k].target in ids {
          assert init[k] == edges[k];
        }
      }
      Symmetric(n, init, ids, s, t);
    }
  }

  /** s lists t exactly when some edge that is not a self-loop joins them. */
  lemma {:induction false} ListedIffJoined(n: nat, edges: seq<GraphEdge>, ids: map<int, nat>, s: nat, t: nat)
    requires EdgesKnown(edges, ids) && forall id :: id in ids ==> ids[id] < n
    requires s < n && t < n && s != t
    ensures t in Entries(Neighbors(n, edges, ids)[s]) <==> exists k :: 0 <= k < |edges| && Joins(edges[k], ids, s, t)
  {
    if edges != [] {
      var init := edges[..|edges| - 1];
      assert EdgesKnown(init, ids) by {
        forall k | 0 <= k < |init| ensures init[k].source in ids && init[k].target in ids {
          assert init[k] == edges[k];
        }
      }
      ListedIffJoined(n, init, ids, s, t);
      if exists k :: 0 <= k < |edges| && Joins(edges[k], ids, s, t) {
        var k :| 0 <= k < |edges| && Joins(edges[k], ids, s, t);
        if k < |init| {
          assert Joins(init[k], ids, s, t);
        }
      }
      if exists k :: 0 <= k < |init| && Joins(init[k], ids, s, t) {
        var k :| 0 <= k < |init| && Joins(init[k], ids, s, t);
        assert Joins(edges[k], ids, s, t);
      }
    }
  }

  /** The weight between s and t is that of the last edge joining them: a later edge overwrites. */
  lemma {:induction false} LastEdgeWins(n: nat, edges: seq<GraphEdge>, ids: map<int, nat>, j: nat, s: nat, t: nat)
    requires EdgesKnown(edges, ids) && forall id :: id in ids ==> ids[id] < n
    requires s < n && t < n && s != t
    requires j < |edges| && Joins(edges[j], ids, s, t)
    requires forall k :: j < k < |edges| ==> !Joins(edges[k], ids, s, t)
    ensures var adj := Neighbors(n, edges, ids);
      t in Entries(adj[s]) && Entries(adj[s])[t] == edges[j].weight &&
      s in Entries(adj[t]) && Entries(adj[t])[s] == edges[j].weight
  {
    var init := edges[..|edges| - 1];
    assert EdgesKnown(init, ids) by {
      forall k | 0 <= k < |init| ensures init[k].source in ids && init[k].target in ids {
        assert init[k] == edges[k];
      }
    }
    if j < |edges| - 1 {
      assert init[j] == edges[j];
      forall k | j < k < |init| ensures !Joins(init[k], ids, s, t) {
        assert init[k] == edges[k];
      }
      LastEdgeWins(n, init, ids, j, s, t);
    }
  }

  /** Without an edge that is not a self-loop the highest similarity stays negative infinity. */
  lemma {:induction false} HighestOfNone(edges: seq<GraphEdge>, ids: map<int, nat>)
    requires EdgesKnown(edges, ids)
    requires forall k :: 0 <= k < |edges| ==> !Proper(edges[k], ids)
    ensures Highest(edges, ids) == NegativeInfinity
  {
    if edges != [] {
      var init := edges[..|edges| - 1];
      assert EdgesKnown(init, ids) by {
        forall k | 0 <= k < |init| ensures init[k].source in ids && init[k].target in ids {
          assert init[k] == edges[k];
        }
      }
      forall k | 0 <= k < |init| ensures !Proper(init[k], ids) {
        assert init[k] == edges[k];
      }
      HighestOfNone(init, ids);
    }
  }

  /**
   * With an edge that is not a self-loop, the highest similarity is the
   * weight of one of them and at least the weight of each.
   */
  lemma {:induction false} HighestIsMaximum(edges: seq<GraphEdge>, ids: map<int, nat>) returns (j: nat)
    requires EdgesKnown(edges, ids)
    requires exists k :: 0 <= k < |edges| && Proper(edges[k], ids)
    ensures j < |edges| && Proper(edges[j], ids) && Highest(edges, ids) == Finite(edges[j].weight)
    ensures forall k :: 0 <= k < |edges| && Proper(edges[k], ids) ==> edges[k].weight <= edges[j].weight
  {
    var init := edges[..|edges| - 1];
    assert EdgesKnown(init, ids) by {
      forall k | 0 <= k < |init| ensures init[k].source in ids && init[k].target in ids {
        assert init[k] == edges[k];
      }
    }
    var last := |edges| - 1;
    if exists k :: 0 <= k < |init| && Proper(init[k], ids) {
      var i := HighestIsMaximum(init, ids);
      assert init[i] == edges[i];
      forall k | 0 <= k < |init| && Proper(init[k], ids) ensures init[k].weight <= edges[i].weight {
      }
      if Proper(edges[last], ids) && edges[last].weight > edges[i].weight {
        j := last;
      } else {
        j := i;
      }
      forall k | 0 <= k < |edges| && Proper(edges[k], ids) ensures edges[k].weight <= edges[j].weight {
        if k < |init| {
          assert init[k] == edges[k];
        }
      }
    } else {
      forall k | 0 <= k < |init| ensures !Proper(init[k], ids) {
      }
      HighestOfNone(init, ids);
      j := last;
      forall k | 0 <= k < |init| ensures !Proper(edges[k], ids) {
        assert init[k] == edges[k];
      }
    }
  }

  // ----- Weights and shards --------------------------------------------------

  /** normalizeWeight: the weight over the highest similarity, squared with its sign kept. */
  function NormalizeWeight(w: real, h: Double): (r: Double)
    ensures h.Finite? && h.value != 0.0 ==> r.Finite?
    ensures h == PositiveInfinity || h == NegativeInfinity ==> r == Finite(0.0)
    ensures h == NaN ==> r == NaN
    ensures h == Finite(0.0) ==> r == (if w > 0.0 then PositiveInfinity else if w < 0.0 then NegativeInfinity else NaN)
  {
    SignedSquare(Quotient(w, h))
  }

  /** Against a positive highest similarity h the normalised weight keeps the sign, sends 0 to 0 and h to 1. */
  lemma NormalizeWeightPositive(w: real, h: real)
    requires h > 0.0
    ensures NormalizeWeight(w, Finite(h)).Finite?
    ensures var r := NormalizeWeight(w, Finite(h)).value;
      (w > 0.0 <==> r > 0.0) && (w < 0.0 <==> r < 0.0) && (w == 0.0 <==> r == 0.0)
    ensures NormalizeWeight(h, Finite(h)) == Finite(1.0)
    ensures 0.0 <= w <= h ==> NormalizeWeight(w, Finite(h)).value <= 1.0
  {
    var q := w / h;
    QuotientSign(w, h);
    SquareSign(q);
    if 0.0 <= w <= h {
      QuotientAtMostOne(w, h);
      SquareAtMostOne(q);
    }
    assert h / h == 1.0;
  }

  lemma QuotientSign(w: real, h: real)
    requires h > 0.0
    ensures (w / h > 0.0 <==> w > 0.0) && (w / h < 0.0 <==> w < 0.0) && (w / h == 0.0 <==> w == 0.0)
  {
  }

  lemma QuotientAtMostOne(w: real, h: real)
    requires 0.0 <= w <= h && h > 0.0
    ensures w / h <= 1.0
  {
  }

  lemma SquareSign(q: real)
    ensures q > 0.0 ==> q * q > 0.0
    ensures q < 0.0 ==> -(q * q) < 0.0
    ensures q == 0.0 ==> q * q == 0.0
  {
  }

  lemma SquareAtMostOne(q: real)
    requires 0.0 <= q <= 1.0
    ensures q * q <= 1.0
  {
    MulNonNegative(q, 1.0 - q);
    assert q * q == q - q * (1.0 - q);
  }

  lemma MulNonNegative(a: real, b: real)
    requires a >= 0.0 && b >= 0.0
    ensures a * b >= 0.0
  {
  }

  /** Every weight of one node's neighbour map, normalised; the keys are unchanged. */
  function NormalizeMap(m: map<nat, real>, h: Double): (r: map<nat, Double>)
    ensures r.Keys == m.Keys
    ensures forall k :: k in m ==> r[k] == NormalizeWeight(m[k], h)
  {
    map k | k in m :: NormalizeWeight(m[k], h)
  }

  /** Worker w's shard: the normalised neighbour maps of the nodes i with i % threads == w. */
  function Shard(adj: Adjacency, threads: nat, w: nat, h: Double): (r: seq<Option<map<nat, Double>>>)
    requires threads >= 1
    ensures |r| == |adj|
    ensures forall i :: 0 <= i < |adj| ==> (r[i].Some? <==> i % threads == w && adj[i].Some?)
    ensures forall i :: 0 <= i < |adj| && r[i].Some? ==> r[i].value == NormalizeMap(adj[i].value, h)
  {
    seq(|adj|, i requires 0 <= i < |adj| =>
      if i % threads == w && adj[i].Some? then Some(NormalizeMap(adj[i].value, h)) else None)
  }

  /**
   * The shards partition the adjacency: a node with neighbours lands in
   * exactly one worker's shard, with its own key set.
   */
  lemma ShardsPartition(adj: Adjacency, threads: nat, h: Double, i: nat)
    requires threads >= 1 && i < |adj| && adj[i].Some?
    ensures var w := i % threads;
      w < threads && Shard(adj, threads, w, h)[i].Some? &&
      Shard(adj, threads, w, h)[i].value.Keys == adj[i].value.Keys
    ensures forall w :: 0 <= w < threads && w != i % threads ==> Shard(adj, threads, w, h)[i].None?
  {
  }

  // ----- The setters' clamps -------------------------------------------------

  /** setEdgeCut: at most 1, then at least 0. */
  function ClampEdgeCut(v: real): (r: real)
    ensures 0.0 <= r <= 1.0
    ensures 0.0 <= v <= 1.0 ==> r == v
    ensures v < 0.0 ==> r == 0.0
    ensures v > 1.0 ==> r == 1.0
  {
    var c := if v <= 1.0 then v else 1.0;
    if c >= 0.0 then c else 0.0
  }

  /** setNumThreads: at least 1. */
  function ClampThreads(v: int): (r: int)
    ensures r >= 1
    ensures v >= 1 ==> r == v
    ensures v < 1 ==> r == 1
  {
    Max(1, v)
  }

  /** setNumIterations: at least 100. */
  function ClampIterations(v: int): (r: int)
    ensures r >= 100
    ensures v >= 100 ==> r == v
    ensures v < 100 ==> r == 100
  {
    Max(100, v)
  }

  /** Clamping a clamped value changes nothing. */
  lemma ClampsIdempotent(c: real, t: int, i: int)
    ensures ClampEdgeCut(ClampEdgeCut(c)) == ClampEdgeCut(c)
    ensures ClampThreads(ClampThreads(t)) == ClampThreads(t)
    ensures ClampIterations(ClampIterations(i)) == ClampIterations(i)
  {
  }

  // ----- The layout ------------------------------------------------------------

  class OpenOrdLayout {
    var edgeCut: real
    var numThreads: int
    var randSeed: int
    var resetPosition: bool
    var numIterations: int
    var running: bool
    var firstIteration: bool
    /** The highest similarity handed to the control, once initAlgo has run. */
    var highestSimilarity: Option<Double>
    /** The data handed to the workers by initAlgo. */
    var workers: seq<WorkerData>

    /** The field defaults of a new layout: only running and firstIteration start out true. */
    constructor ()
      ensures edgeCut == 0.0 && numThreads == 0 && randSeed == 0 && !resetPosition && numIterations == 0
      ensures running && firstIteration && highestSimilarity == None && workers == []
    {
      edgeCut := 0.0;
      numThreads := 0;
      randSeed := 0;
      resetPosition := false;
      numIterations := 0;
      running := true;
      firstIteration := true;
      highestSimilarity := None;
      workers := [];
    }

    /**
     * The default properties. The processor count and the fresh random seed
     * come from the environment and are parameters here.
     */
    method ResetPropertiesValues(processors: int, seed: int)
      modifies this`edgeCut, this`numIterations, this`numThreads, this`randSeed, this`resetPosition, this`running
      ensures edgeCut == 0.8 && numIterations == 750 && numThreads == Max(1, processors - 1)
      ensures randSeed == seed && resetPosition && running
    {
      edgeCut := 0.8;
      numIterations := 750;
      numThreads := Max(1, processors - 1);
      randSeed := seed;
      resetPosition := true;
      running := true;
    }

    /** Builds the node array and the id table, in node order. */
    static method LoadNodes(graphNodes: seq<GraphNode>) returns (nodes: array<LayoutNode>, idMap: map<int, nat>)
      ensures fresh(nodes) && nodes.Length == |graphNodes|
      ensures forall i :: 0 <= i < |graphNodes| ==> nodes[i] == Loaded(graphNodes[i], i)
      ensures idMap == IdMap(graphNodes)
    {
      nodes := new LayoutNode[|graphNodes|](i => LayoutNode(0, 0.0, 0.0, false));
      idMap := map[];
      for i := 0 to |graphNodes|
        invariant forall j :: 0 <= j < i ==> nodes[j] == Loaded(graphNodes[j], j)
        invariant idMap == IdMap(graphNodes[..i])
      {
        var v := graphNodes[i];
        nodes[i] := LayoutNode(i, v.x, v.y, v.fixed);
        IdMapSnoc(graphNodes, i);
        idMap := idMap[v.id := i];
      }
      assert graphNodes[..|graphNodes|] == graphNodes;
    }

    /** Builds the adjacency table over the edges, skipping self-loops, and the highest similarity. */
    static method LoadEdges(n: nat, edges: seq<GraphEdge>, idMap: map<int, nat>)
      returns (neighbors: array<Option<map<nat, real>>>, highest: Double)
      requires EdgesKnown(edges, idMap) && forall id :: id in idMap ==> idMap[id] < n
      ensures fresh(neighbors) && neighbors[..] == Neighbors(n, edges, idMap)
      ensures highest == Highest(edges, idMap)
    {
      neighbors := new Option<map<nat, real>>[n](_ => None);
      highest := NegativeInfinity;
      assert neighbors[..] == Neighbors(n, edges[..0], idMap);
      for k := 0 to |edges|
        invariant neighbors[..] == Neighbors(n, edges[..k], idMap)
        invariant highest == Highest(edges[..k], idMap)
      {
        assert edges[..k + 1][..k] == edges[..k];
        var e := edges[k];
        var source := idMap[e.source];
        var target := idMap[e.target];
        if source != target {
          ghost var before := neighbors[..];
          var weight := e.weight;
          if neighbors[source] == None {
            neighbors[source] := Some(map[]);
          }
          if neighbors[target] == None {
            neighbors[target] := Some(map[]);
          }
          neighbors[source] := Some(neighbors[source].value[target := weight]);
          neighbors[target] := Some(neighbors[target].value[source := weight]);
          highest := MaxDouble(highest, weight);
          assert neighbors[..] == AddEdge(before, source, target, weight);
        }
      }
      assert edges[..|edges|] == edges;
    }

    /** Normalises the weights of one neighbour map, key by key. */
    static method NormalizeEntries(m: map<nat, real>, h: Double) returns (copy: map<nat, Double>)
      ensures copy == NormalizeMap(m, h)
    {
      copy := map[];
      var rest := m.Keys;
      while rest != {}
        invariant rest <= m.Keys
        invariant copy.Keys == m.Keys - rest
        invariant forall k :: k in copy ==> copy[k] == NormalizeWeight(m[k], h)
        decreases |rest|
      {
        var k :| k in rest;
        copy := copy[k := NormalizeWeight(m[k], h)];
        rest := rest - {k};
      }
    }

    /** Builds worker w's shard of the adjacency. */
    static method CopyShard(neighbors: array<Option<map<nat, real>>>, threads: int, w: nat, h: Double)
      returns (copy: array<Option<map<nat, Double>>>)
      requires threads >= 1
      ensures fresh(copy) && copy[..] == Shard(neighbors[..], threads, w, h)
    {
      copy := new Option<map<nat, Double>>[neighbors.Length](_ => None);
      for i := 0 to neighbors.Length
        invariant forall j :: 0 <= j < i ==> copy[j] == Shard(neighbors[..], threads, w, h)[j]
        invariant forall j :: i <= j < neighbors.Length ==> copy[j] == None
      {
        if i % threads == w && neighbors[i] != None {
          var entries := NormalizeEntries(neighbors[i].value, h);
          copy[i] := Some(entries);
        }
      }
    }

    /** A deep copy of the node array. */
    static method CopyNodes(nodes: array<LayoutNode>) returns (copy: array<LayoutNode>)
      ensures fresh(copy) && copy[..] == nodes[..]
    {
      copy := new LayoutNode[nodes.Length](i => LayoutNode(0, 0.0, 0.0, false));
      for i := 0 to nodes.Length
        invariant copy[..i] == nodes[..i]
      {
        copy[i] := nodes[i];
        assert copy[..i + 1] == copy[..i] + [nodes[i]];
        assert nodes[..i + 1] == nodes[..i] + [nodes[i]];
      }
    }

    /**
     * initAlgo on the visible graph, given as its nodes in iteration order
     * and its edges: load the nodes and the adjacency, zero the positions
     * when asked to, and give each worker a copy of the nodes and its shard.
     */
    method InitAlgo(graphNodes: seq<GraphNode>, edges: seq<GraphEdge>)
      requires numThreads >= 1
      requires EdgesKnown(edges, IdMap(graphNodes))
      modifies this`highestSimilarity, this`workers, this`running, this`firstIteration
      ensures var ids := IdMap(graphNodes);
        var h := Highest(edges, ids);
        && highestSimilarity == Some(h)
        && |workers| == numThreads
        && forall w :: 0 <= w < numThreads ==>
             workers[w] == WorkerData(w, Positions(graphNodes, resetPosition),
                                      Shard(Neighbors(|graphNodes|, edges, ids), numThreads, w, h))
      ensures running && firstIteration
    {
      var highest, loaded := Load(graphNodes, edges, resetPosition, numThreads);
      highestSimilarity := Some(highest);
      workers := loaded;
      running := true;
      firstIteration := true;
    }

    /** The loading part of initAlgo: the highest similarity and the data of every worker. */
    static method Load(graphNodes: seq<GraphNode>, edges: seq<GraphEdge>, reset: bool, threads: int)
      returns (highest: Double, loaded: seq<WorkerData>)
      requires threads >= 1
      requires EdgesKnown(edges, IdMap(graphNodes))
      ensures var ids := IdMap(graphNodes);
        && highest == Highest(edges, ids)
        && |loaded| == threads
        && forall w :: 0 <= w < threads ==>
             loaded[w] == WorkerData(w, Positions(graphNodes, reset), Shard(Neighbors(|graphNodes|, edges, ids), threads, w, highest))
    {
      var numNodes := |graphNodes|;
      var nodes, idMap := LoadNodes(graphNodes);
      var neighbors, h := LoadEdges(numNodes, edges, idMap);
      if reset {
        ResetPositions(nodes, graphNodes);
      }
      assert nodes[..] == Positions(graphNodes, reset);
      highest := h;
      loaded := LoadWorkers(nodes, neighbors, threads, h);
    }

    /** Moves every loaded node to the origin. */
    static method ResetPositions(nodes: array<LayoutNode>, graphNodes: seq<GraphNode>)
      requires nodes.Length == |graphNodes|
      requires forall j :: 0 <= j < nodes.Length ==> nodes[j] == Loaded(graphNodes[j], j)
      modifies nodes
      ensures nodes[..] == Positions(graphNodes, true)
    {
      for i := 0 to nodes.Length
        invariant forall j :: 0 <= j < i ==> nodes[j] == Loaded(graphNodes[j], j).(x := 0.0, y := 0.0)
        invariant forall j :: i <= j < nodes.Length ==> nodes[j] == Loaded(graphNodes[j], j)
      {
        nodes[i] := nodes[i].(x := 0.0, y := 0.0);
      }
    }

    /** Gives each of the workers 0 .. threads-1 its copy of the nodes and its shard. */
    static method LoadWorkers(nodes: array<LayoutNode>, neighbors: array<Option<map<nat, real>>>, threads: int, h: Double)
      returns (loaded: seq<WorkerData>)
      requires threads >= 1
      ensures |loaded| == threads
      ensures forall w :: 0 <= w < threads ==> loaded[w] == WorkerData(w, nodes[..], Shard(neighbors[..], threads, w, h))
    {
      loaded := [];
      for w := 0 to threads
        invariant |loaded| == w
        invariant forall j :: 0 <= j < w ==> loaded[j] == WorkerData(j, nodes[..], Shard(neighbors[..], threads, j, h))
      {
        var nodesCopy := CopyNodes(nodes);
        var neighborsCopy := CopyShard(neighbors, threads, w, h);
        loaded := loaded + [WorkerData(w, nodesCopy[..], neighborsCopy[..])];
      }
    }

    /**
     * goAlgo: on the first iteration the worker threads are started, in
     * worker order; started lists the workers whose thread starts.
     */
    method GoAlgo() returns (started: seq<nat>)
      requires numThreads >= 0
      modifies this`firstIteration
      ensures started == (if old(firstIteration) then seq(numThreads, i => i) else [])
      ensures !firstIteration
    {
      started := [];
      if firstIteration {
        for i := 0 to numThreads
          invariant started == seq(i, j => j)
        {
          started := started + [i];
        }
        firstIteration := false;
      }
    }

    method EndAlgo()
      modifies this`running
      ensures !running
    {
      running := false;
    }

    function CanAlgo(): (r: bool)
      reads this`running
      ensures r == running
    {
      running
    }

    method SetRunning(r: bool)
      modifies this`running
      ensures running == r
    {
      running := r;
    }

    method SetEdgeCut(v: real)
      modifies this`edgeCut
      ensures edgeCut == ClampEdgeCut(v)
    {
      var c := if 1.0 <= v then 1.0 else v;
      c := if 0.0 >= c then 0.0 else c;
      edgeCut := c;
    }

    method SetNumThreads(v: int)
      modifies this`numThreads
      ensures numThreads == ClampThreads(v)
    {
      numThreads := Max(1, v);
    }

    method SetNumIterations(v: int)
      modifies this`numIterations
      ensures numIterations == ClampIterations(v)
    {
      numIterations := Max(100, v);
    }

    method SetRandSeed(seed: int)
      modifies this`randSeed
      ensures randSeed == seed
    {
      randSeed := seed;
    }

    method SetResetPosition(reset: bool)
      modifies this`resetPosition
      ensures resetPosition == reset
    {
      resetPosition := reset;
    }
  }
}
