/**
 * Reference definitions for hop distances and shortest-path counts over an
 * integer-indexed graph. The breadth-first search of the shortest-path
 * statistics is proved against these.
 */
module Paths {

  /**
   * A graph over the nodes 0 .. n-1. adj[v] lists, one entry per edge that
   * the search iterates from v, the node at the other end of that edge.
   */
  datatype Graph = Graph(n: nat, adj: seq<seq<nat>>)

  predicate Valid(g: Graph)
  {
    |g.adj| == g.n &&
    forall u, j :: 0 <= u < g.n && 0 <= j < |g.adj[u]| ==> g.adj[u][j] < g.n
  }

  /** Number of edges from u to v (parallel edges count apart). */
  function EdgeCount(g: Graph, u: nat, v: nat): nat
    requires Valid(g) && u < g.n
  {
    multiset(g.adj[u])[v]
  }

  /** y is reachable from s over at most k edges. */
  ghost predicate Within(g: Graph, s: nat, k: nat, y: nat)
    requires Valid(g) && s < g.n
  {
    if k == 0 then y == s
    else Within(g, s, k - 1, y) ||
         exists u :: 0 <= u < g.n && Within(g, s, k - 1, u) && y in g.adj[u]
  }

  /** Only nodes of the graph are reachable. */
  lemma {:induction false} WithinBounded(g: Graph, s: nat, k: nat, y: nat)
    requires Valid(g) && s < g.n
    requires Within(g, s, k, y)
    ensures y < g.n
  {
    if k > 0 && !Within(g, s, k - 1, y) {
      var u :| 0 <= u < g.n && Within(g, s, k - 1, u) && y in g.adj[u];
    } else if k > 0 {
      WithinBounded(g, s, k - 1, y);
    }
  }

  /** The source is on every level. */
  lemma {:induction false} WithinSource(g: Graph, s: nat, k: nat)
    requires Valid(g) && s < g.n
    ensures Within(g, s, k, s)
  {
    if k > 0 {
      WithinSource(g, s, k - 1);
    }
  }

  /** One more edge reaches one more level. */
  lemma WithinStep(g: Graph, s: nat, k: nat, u: nat, y: nat)
    requires Valid(g) && s < g.n && u < g.n
    requires Within(g, s, k, u) && y in g.adj[u]
    ensures Within(g, s, k + 1, y)
  {
  }

  lemma {:induction false} WithinMono(g: Graph, s: nat, j: nat, k: nat, y: nat)
    requires Valid(g) && s < g.n
    requires j <= k && Within(g, s, j, y)
    ensures Within(g, s, k, y)
    decreases k - j
  {
    if j < k {
      WithinMono(g, s, j, k - 1, y);
    }
  }

  /**
   * A set that holds s and every neighbour of its members holds every node
   * reachable from s.
   */
  lemma {:induction false} ClosedHoldsWithin(g: Graph, s: nat, X: set<nat>, k: nat, y: nat)
    requires Valid(g) && s < g.n
    requires s in X
    requires forall u, z :: u in X && u < g.n && z in g.adj[u] ==> z in X
    requires Within(g, s, k, y)
    ensures y in X
  {
    if k > 0 {
      if Within(g, s, k - 1, y) {
        ClosedHoldsWithin(g, s, X, k - 1, y);
      } else {
        var u :| 0 <= u < g.n && Within(g, s, k - 1, u) && y in g.adj[u];
        ClosedHoldsWithin(g, s, X, k - 1, u);
      }
    }
  }

  /** The first level at or after k that holds v, or -1 when none before n does. */
  ghost function DistFrom(g: Graph, s: nat, v: nat, k: nat): (r: int)
    requires Valid(g) && s < g.n && v < g.n
    ensures -1 <= r < g.n
    ensures r == -1 || k <= r
    decreases g.n - k
  {
    if k >= g.n then -1
    else if Within(g, s, k, v) then k
    else DistFrom(g, s, v, k + 1)
  }

  /** The hop distance from s to v, or -1 when v is not reachable from s. */
  ghost function Dist(g: Graph, s: nat, v: nat): (r: int)
    requires Valid(g) && s < g.n && v < g.n
    ensures -1 <= r < g.n
  {
    DistFrom(g, s, v, 0)
  }

  lemma {:induction false} DistFromIs(g: Graph, s: nat, v: nat, k: nat, level: nat)
    requires Valid(g) && s < g.n && v < g.n
    requires k <= level < g.n
    requires Within(g, s, level, v)
    requires level > 0 ==> !Within(g, s, level - 1, v)
    ensures DistFrom(g, s, v, k) == level
    decreases level - k
  {
    if k < level {
      if Within(g, s, k, v) {
        WithinMono(g, s, k, level - 1, v);
      }
      DistFromIs(g, s, v, k + 1, level);
    }
  }

  /** A node first reached at level `level` (below n) is at distance `level`. */
  lemma DistIs(g: Graph, s: nat, v: nat, level: nat)
    requires Valid(g) && s < g.n && v < g.n
    requires level < g.n
    requires Within(g, s, level, v)
    requires level > 0 ==> !Within(g, s, level - 1, v)
    ensures Dist(g, s, v) == level
  {
    DistFromIs(g, s, v, 0, level);
  }

  lemma {:induction false} DistFromNone(g: Graph, s: nat, v: nat, k: nat)
    requires Valid(g) && s < g.n && v < g.n
    requires forall j :: !Within(g, s, j, v)
    ensures DistFrom(g, s, v, k) == -1
    decreases g.n - k
  {
    if k < g.n {
      DistFromNone(g, s, v, k + 1);
    }
  }

  /** A node on no level is at distance -1. */
  lemma DistNone(g: Graph, s: nat, v: nat)
    requires Valid(g) && s < g.n && v < g.n
    requires forall j :: !Within(g, s, j, v)
    ensures Dist(g, s, v) == -1
  {
    DistFromNone(g, s, v, 0);
  }

  /** The number of walks of exactly k edges from s to v. */
  ghost function Walks(g: Graph, s: nat, k: nat, v: nat): nat
    requires Valid(g) && s < g.n && v < g.n
    decreases k, 0, 0
  {
    if k == 0 then (if v == s then 1 else 0)
    else WalksInto(g, s, k - 1, v, g.n)
  }

  /** Walks of k + 1 edges to v whose last edge starts at a node below hi. */
  ghost function WalksInto(g: Graph, s: nat, k: nat, v: nat, hi: nat): nat
    requires Valid(g) && s < g.n && v < g.n && hi <= g.n
    decreases k, 1, hi
  {
    if hi == 0 then 0
    else WalksInto(g, s, k, v, hi - 1) + EdgeCount(g, hi - 1, v) * Walks(g, s, k, hi - 1)
  }

  lemma {:induction false} WalksIntoPositive(g: Graph, s: nat, k: nat, v: nat, hi: nat) returns (u: nat)
    requires Valid(g) && s < g.n && v < g.n && hi <= g.n
    requires WalksInto(g, s, k, v, hi) > 0
    ensures u < hi && EdgeCount(g, u, v) > 0 && Walks(g, s, k, u) > 0
  {
    if EdgeCount(g, hi - 1, v) * Walks(g, s, k, hi - 1) > 0 {
      u := hi - 1;
    } else {
      u := WalksIntoPositive(g, s, k, v, hi - 1);
    }
  }

  /** A walk of k edges only reaches nodes within k hops. */
  lemma {:induction false} WalksSupport(g: Graph, s: nat, k: nat, v: nat)
    requires Valid(g) && s < g.n && v < g.n
    requires Walks(g, s, k, v) > 0
    ensures Within(g, s, k, v)
  {
    if k > 0 {
      var u := WalksIntoPositive(g, s, k - 1, v, g.n);
      WalksSupport(g, s, k - 1, u);
      assert v in multiset(g.adj[u]);
      WithinStep(g, s, k - 1, u, v);
    }
  }

  lemma {:induction false} WalksIntoAtLeast(g: Graph, s: nat, k: nat, v: nat, hi: nat, u: nat)
    requires Valid(g) && s < g.n && v < g.n && hi <= g.n && u < hi
    ensures WalksInto(g, s, k, v, hi) >= EdgeCount(g, u, v) * Walks(g, s, k, u)
  {
    if u < hi - 1 {
      WalksIntoAtLeast(g, s, k, v, hi - 1, u);
    }
  }

  /** A node first reached at level k has at least one walk of k edges. */
  lemma {:induction false} WalksPositive(g: Graph, s: nat, k: nat, v: nat)
    requires Valid(g) && s < g.n && v < g.n
    requires Within(g, s, k, v) && (k > 0 ==> !Within(g, s, k - 1, v))
    ensures Walks(g, s, k, v) >= 1
  {
    if k > 0 {
      var u :| 0 <= u < g.n && Within(g, s, k - 1, u) && v in g.adj[u];
      if k == 1 || !Within(g, s, k - 2, u) {
        WalksPositive(g, s, k - 1, u);
        assert v in multiset(g.adj[u]);
        WalksIntoAtLeast(g, s, k - 1, v, g.n, u);
      }
    }
  }

  predicate Distinct(D: seq<nat>)
  {
    forall i, j :: 0 <= i < j < |D| ==> D[i] != D[j]
  }

  /** D without the occurrences of t. */
  function Drop(D: seq<nat>, t: nat): (r: seq<nat>)
    ensures forall x :: x in r <==> x in D && x != t
  {
    if D == [] then [] else (if D[0] == t then [] else [D[0]]) + Drop(D[1..], t)
  }

  lemma {:induction false} DropDistinct(D: seq<nat>, t: nat)
    requires Distinct(D)
    ensures Distinct(Drop(D, t))
    ensures |D| <= |Drop(D, t)| + 1
  {
    if D != [] {
      DropDistinct(D[1..], t);
      assert D[0] !in D[1..] by {
        forall j | 0 <= j < |D[1..]| ensures D[1..][j] != D[0] {
          assert D[1..][j] == D[j + 1];
        }
      }
      if D[0] == t {
        DropAbsent(D[1..], t);
      } else {
        var r := Drop(D[1..], t);
        assert Drop(D, t) == [D[0]] + r;
        assert D[0] !in r;
      }
    }
  }

  lemma {:induction false} DropAbsent(D: seq<nat>, t: nat)
    requires t !in D
    ensures Drop(D, t) == D
  {
    if D != [] {
      DropAbsent(D[1..], t);
    }
  }

  /** A repetition-free sequence of nodes below n has at most n elements. */
  lemma {:induction false} DistinctBound(D: seq<nat>, n: nat)
    requires Distinct(D)
    requires forall i :: 0 <= i < |D| ==> D[i] < n
    ensures |D| <= n
    decreases n
  {
    if n > 0 {
      DropDistinct(D, n - 1);
      var r := Drop(D, n - 1);
      forall i | 0 <= i < |r| ensures r[i] < n - 1 {
        assert r[i] in r;
      }
      DistinctBound(r, n - 1);
    }
  }
}
