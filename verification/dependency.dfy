/**
 * The dependency pass of the shortest-path statistics (Brandes' algorithm):
 * after the search from s, the nodes leave the stack S in the reverse of the
 * order in which they left the queue, and popping w passes
 * theta[u] / theta[w] * (1 + delta[w]) to every predecessor u of w. What
 * delta converges to is stated against Dep, the dependency of s on a node
 * defined on the graph alone.
 */
module Dependency {
  import opened Paths
  import opened Bfs

  // ----- The pass, as the program runs it -----------------------------------

  /** theta[u] / theta[x]: the fraction of the shortest paths to x whose last edge leaves u. */
  function Share(sigma: seq<nat>, u: nat, x: nat): (r: real)
    requires u < |sigma| && x < |sigma|
    ensures r >= 0.0
    ensures sigma[x] > 0 ==> r * (sigma[x] as real) == sigma[u] as real
  {
    if sigma[x] == 0 then 0.0 else (sigma[u] as real) / (sigma[x] as real)
  }

  /** What popping x adds to delta[u]: one share for every occurrence of u in P[x]. */
  function Term(preds: seq<seq<nat>>, sigma: seq<nat>, delta: seq<real>, x: nat, u: nat): real
    requires x < |preds| && x < |sigma| && x < |delta| && u < |sigma|
  {
    (multiset(preds[x])[u] as real) * Credit(sigma, delta, u, x)
  }

  /** What one occurrence of u in P[x] adds to delta[u] when x is popped. */
  function Credit(sigma: seq<nat>, delta: seq<real>, u: nat, x: nat): real
    requires x < |sigma| && x < |delta| && u < |sigma|
  {
    Share(sigma, u, x) * (1.0 + delta[x])
  }

  /** The terms that the nodes order[k..], the ones already popped, add to delta[u]. */
  function Back(order: seq<nat>, k: nat, preds: seq<seq<nat>>, sigma: seq<nat>, delta: seq<real>, u: nat): real
    requires k <= |order| && InRange(order, |sigma|) && |preds| == |sigma| && |delta| == |sigma| && u < |sigma|
    decreases |order| - k
  {
    if k == |order| then 0.0
    else Term(preds, sigma, delta, order[k], u) + Back(order, k + 1, preds, sigma, delta, u)
  }

  /** The sum only reads delta at the nodes it adds up. */
  lemma {:induction false} BackFrame(order: seq<nat>, k: nat, preds: seq<seq<nat>>, sigma: seq<nat>,
                                     d0: seq<real>, d1: seq<real>, u: nat)
    requires k <= |order| && InRange(order, |sigma|) && |preds| == |sigma| && |d0| == |sigma| && |d1| == |sigma| && u < |sigma|
    requires forall j :: k <= j < |order| ==> d0[order[j]] == d1[order[j]]
    ensures Back(order, k, preds, sigma, d0, u) == Back(order, k, preds, sigma, d1, u)
    decreases |order| - k
  {
    if k < |order| {
      BackFrame(order, k + 1, preds, sigma, d0, d1, u);
    }
  }

  /** A node that is nobody's predecessor receives nothing. */
  lemma {:induction false} BackZero(order: seq<nat>, k: nat, preds: seq<seq<nat>>, sigma: seq<nat>, delta: seq<real>, u: nat)
    requires k <= |order| && InRange(order, |sigma|) && |preds| == |sigma| && |delta| == |sigma| && u < |sigma|
    requires forall j :: k <= j < |order| ==> multiset(preds[order[j]])[u] == 0
    ensures Back(order, k, preds, sigma, delta, u) == 0.0
    decreases |order| - k
  {
    if k < |order| {
      BackZero(order, k + 1, preds, sigma, delta, u);
    }
  }

  // ----- The dependency, on the graph alone ---------------------------------

  /** The shortest paths to u over those to x, both at their hop distances. */
  ghost function PathShare(g: Graph, s: nat, u: nat, x: nat): (r: real)
    requires Valid(g) && s < g.n && u < g.n && x < g.n && Dist(g, s, u) >= 0 && Dist(g, s, x) >= 0
    ensures r >= 0.0
  {
    var wx := Walks(g, s, Dist(g, s, x), x);
    if wx == 0 then 0.0 else (Walks(g, s, Dist(g, s, u), u) as real) / (wx as real)
  }

  /**
   * The dependency of s on u (Brandes 2001, Theorem 6): over every edge
   * u -> x on a shortest path, the share of the shortest paths to x that
   * pass through u, times one plus the dependency of s on x. It is 0 for a
   * node that s does not reach.
   */
  ghost function Dep(g: Graph, s: nat, u: nat): real
    requires Valid(g) && s < g.n && u < g.n
    decreases g.n - Dist(g, s, u), 1, 0
  {
    if Dist(g, s, u) < 0 then 0.0 else DepBelow(g, s, u, g.n)
  }

  /** The part of Dep(g, s, u) that the successors x < hi of u bring. */
  ghost function DepBelow(g: Graph, s: nat, u: nat, hi: nat): real
    requires Valid(g) && s < g.n && u < g.n && hi <= g.n && Dist(g, s, u) >= 0
    decreases g.n - Dist(g, s, u), 0, hi
  {
    if hi == 0 then 0.0 else DepBelow(g, s, u, hi - 1) + DepTerm(g, s, u, hi - 1)
  }

  /** The part of Dep(g, s, u) that the edges u -> x bring. */
  ghost function DepTerm(g: Graph, s: nat, u: nat, x: nat): real
    requires Valid(g) && s < g.n && u < g.n && x < g.n && Dist(g, s, u) >= 0
    decreases g.n - Dist(g, s, u), 0, 0
  {
    if Dist(g, s, x) == Dist(g, s, u) + 1
    then (EdgeCount(g, u, x) as real) * PathShare(g, s, u, x) * (1.0 + Dep(g, s, x))
    else 0.0
  }

  /** No dependency is negative. */
  lemma {:induction false} DepNonNegative(g: Graph, s: nat, u: nat)
    requires Valid(g) && s < g.n && u < g.n
    ensures Dep(g, s, u) >= 0.0
    decreases g.n - Dist(g, s, u), 1, 0
  {
    if Dist(g, s, u) >= 0 {
      DepBelowNonNegative(g, s, u, g.n);
    }
  }

  lemma {:induction false} DepBelowNonNegative(g: Graph, s: nat, u: nat, hi: nat)
    requires Valid(g) && s < g.n && u < g.n && hi <= g.n && Dist(g, s, u) >= 0
    ensures DepBelow(g, s, u, hi) >= 0.0
    decreases g.n - Dist(g, s, u), 0, hi
  {
    if hi > 0 {
      DepBelowNonNegative(g, s, u, hi - 1);
      var x := hi - 1;
      if Dist(g, s, x) == Dist(g, s, u) + 1 {
        DepNonNegative(g, s, x);
        var a := (EdgeCount(g, u, x) as real) * PathShare(g, s, u, x);
        assert a >= 0.0;
        assert a * (1.0 + Dep(g, s, x)) >= 0.0;
      }
    }
  }

  /** A node with no successor one level further has dependency 0. */
  lemma {:induction false} DepOfLast(g: Graph, s: nat, u: nat, hi: nat)
    requires Valid(g) && s < g.n && u < g.n && hi <= g.n && Dist(g, s, u) >= 0
    requires forall x :: 0 <= x < g.n ==> Dist(g, s, x) != Dist(g, s, u) + 1
    ensures DepBelow(g, s, u, hi) == 0.0
  {
    if hi > 0 {
      DepOfLast(g, s, u, hi - 1);
    }
  }

  // ----- From the order of the stack to the order of the nodes ---------------

  /** The terms of the nodes of xs, summed in the order of xs. */
  ghost function DepSeq(g: Graph, s: nat, u: nat, xs: seq<nat>): real
    requires Valid(g) && s < g.n && u < g.n && Dist(g, s, u) >= 0 && InRange(xs, g.n)
  {
    if xs == [] then 0.0 else DepTerm(g, s, u, xs[0]) + DepSeq(g, s, u, xs[1..])
  }

  /** The terms of the nodes below hi that occur in xs. */
  ghost function DepIn(g: Graph, s: nat, u: nat, xs: seq<nat>, hi: nat): real
    requires Valid(g) && s < g.n && u < g.n && hi <= g.n && Dist(g, s, u) >= 0
  {
    if hi == 0 then 0.0
    else DepIn(g, s, u, xs, hi - 1) + (if hi - 1 in xs then DepTerm(g, s, u, hi - 1) else 0.0)
  }

  lemma {:induction false} DepInCons(g: Graph, s: nat, u: nat, z: nat, xs: seq<nat>, hi: nat)
    requires Valid(g) && s < g.n && u < g.n && hi <= g.n && Dist(g, s, u) >= 0 && z < g.n
    requires z !in xs
    ensures DepIn(g, s, u, [z] + xs, hi) == DepIn(g, s, u, xs, hi) + (if z < hi then DepTerm(g, s, u, z) else 0.0)
  {
    if hi > 0 {
      DepInCons(g, s, u, z, xs, hi - 1);
      assert (hi - 1 in [z] + xs) <==> (hi - 1 == z || hi - 1 in xs);
    }
  }

  lemma {:induction false} DepInEmpty(g: Graph, s: nat, u: nat, hi: nat)
    requires Valid(g) && s < g.n && u < g.n && hi <= g.n && Dist(g, s, u) >= 0
    ensures DepIn(g, s, u, [], hi) == 0.0
  {
    if hi > 0 {
      DepInEmpty(g, s, u, hi - 1);
    }
  }

  /** Summing along a repetition-free sequence is summing over its members. */
  lemma {:induction false} DepSeqIsIn(g: Graph, s: nat, u: nat, xs: seq<nat>)
    requires Valid(g) && s < g.n && u < g.n && Dist(g, s, u) >= 0 && InRange(xs, g.n) && Distinct(xs)
    ensures DepSeq(g, s, u, xs) == DepIn(g, s, u, xs, g.n)
  {
    if xs == [] {
      DepInEmpty(g, s, u, g.n);
    } else {
      var z, rest := xs[0], xs[1..];
      assert z !in rest by {
        forall i | 0 <= i < |rest| ensures rest[i] != z {
          assert rest[i] == xs[i + 1];
        }
      }
      assert InRange(rest, g.n) by {
        forall i | 0 <= i < |rest| ensures rest[i] < g.n {
          assert rest[i] == xs[i + 1];
        }
      }
      assert Distinct(rest) by {
        forall i, j | 0 <= i < j < |rest| ensures rest[i] != rest[j] {
          assert rest[i] == xs[i + 1] && rest[j] == xs[j + 1];
        }
      }
      DepSeqIsIn(g, s, u, rest);
      assert xs == [z] + rest;
      DepInCons(g, s, u, z, rest, g.n);
    }
  }

  /** When xs holds every node with a term, summing over xs sums over all nodes. */
  lemma {:induction false} DepInBelow(g: Graph, s: nat, u: nat, xs: seq<nat>, hi: nat)
    requires Valid(g) && s < g.n && u < g.n && hi <= g.n && Dist(g, s, u) >= 0
    requires forall x :: 0 <= x < g.n && x !in xs ==> DepTerm(g, s, u, x) == 0.0
    ensures DepIn(g, s, u, xs, hi) == DepBelow(g, s, u, hi)
  {
    if hi > 0 {
      DepInBelow(g, s, u, xs, hi - 1);
    }
  }

  /** A sum over order[k..] that agrees term by term with DepTerm. */
  lemma {:induction false} BackIsDepSeq(g: Graph, s: nat, u: nat, order: seq<nat>, k: nat,
                                        preds: seq<seq<nat>>, sigma: seq<nat>, delta: seq<real>)
    requires Valid(g) && s < g.n && u < g.n && Dist(g, s, u) >= 0
    requires k <= |order| && InRange(order, g.n) && |sigma| == g.n && |preds| == g.n && |delta| == g.n
    requires forall j :: k <= j < |order| ==> Term(preds, sigma, delta, order[j], u) == DepTerm(g, s, u, order[j])
    ensures InRange(order[k..], g.n)
    ensures Back(order, k, preds, sigma, delta, u) == DepSeq(g, s, u, order[k..])
    decreases |order| - k
  {
    assert InRange(order[k..], g.n) by {
      forall i | 0 <= i < |order[k..]| ensures order[k..][i] < g.n {
        assert order[k..][i] == order[k + i];
      }
    }
    if k < |order| {
      BackIsDepSeq(g, s, u, order, k + 1, preds, sigma, delta);
      assert order[k..][1..] == order[k + 1..];
    }
  }

  // ----- What the pass computes ---------------------------------------------

  /** A predecessor of x is one level below x, so it comes before x in the order. */
  lemma PredBefore(g: Graph, s: nat, dist: seq<int>, preds: seq<seq<nat>>, order: seq<nat>, j: nat, u: nat)
    requires PredResult(g, dist, preds) && OrderResult(g, s, dist, order)
    requires j < |order| && multiset(preds[order[j]])[u] > 0
    ensures u < g.n && dist[u] >= 0 && dist[u] + 1 == dist[order[j]]
    ensures forall i :: j <= i < |order| ==> order[i] != u
  {
  }

  /** The predecessor lists only hold nodes of the graph, and never their own node. */
  lemma PredsInRange(g: Graph, dist: seq<int>, preds: seq<seq<nat>>, w: nat)
    requires PredResult(g, dist, preds) && w < g.n
    ensures InRange(preds[w], g.n) && w !in preds[w]
  {
    forall i | 0 <= i < |preds[w]| ensures preds[w][i] < g.n && preds[w][i] != w {
      var u := preds[w][i];
      assert u in multiset(preds[w]);
      assert multiset(preds[w])[u] > 0;
      assert multiset(preds[w])[u] == if u < g.n && dist[u] >= 0 && dist[u] + 1 == dist[w] then EdgeCount(g, u, w) else 0;
    }
  }

  /** Where delta[x] is already Dep(g, s, x), popping x adds to delta[u] what Dep(g, s, u) takes from x. */
  lemma TermIsDepTerm(g: Graph, s: nat, dist: seq<int>, sigma: seq<nat>, preds: seq<seq<nat>>, delta: seq<real>, u: nat, x: nat)
    requires DistanceResult(g, s, dist) && CountResult(g, s, dist, sigma) && PredResult(g, dist, preds)
    requires |delta| == g.n && u < g.n && x < g.n && dist[u] >= 0
    requires dist[x] == dist[u] + 1 ==> delta[x] == Dep(g, s, x)
    ensures Term(preds, sigma, delta, x, u) == DepTerm(g, s, u, x)
  {
    PredCount(g, dist, preds, u, x);
    ShareIsDist(g, s, dist, u, x);
    if dist[x] == dist[u] + 1 {
      ShareIsPathShare(g, s, dist, sigma, u, x);
      Regroup(multiset(preds[x])[u] as real, EdgeCount(g, u, x) as real, Credit(sigma, delta, u, x),
              Share(sigma, u, x), PathShare(g, s, u, x), 1.0 + delta[x], 1.0 + Dep(g, s, x));
      assert Term(preds, sigma, delta, x, u) == (multiset(preds[x])[u] as real) * Credit(sigma, delta, u, x);
      assert DepTerm(g, s, u, x) == (EdgeCount(g, u, x) as real) * PathShare(g, s, u, x) * (1.0 + Dep(g, s, x));
    } else {
      ZeroTimes(multiset(preds[x])[u] as real, Credit(sigma, delta, u, x));
    }
  }

  /** The levels of u and x are their distances. */
  lemma ShareIsDist(g: Graph, s: nat, dist: seq<int>, u: nat, x: nat)
    requires DistanceResult(g, s, dist) && u < g.n && x < g.n && dist[u] >= 0
    ensures Dist(g, s, u) == dist[u] && Dist(g, s, x) == dist[x]
  {
  }

  lemma Regroup(m: real, e: real, c: real, p: real, p': real, q: real, q': real)
    requires m == e && c == p * q && p == p' && q == q'
    ensures m * c == e * p' * q'
  {
    Associate(e, p, q);
  }

  lemma ZeroTimes(m: real, c: real)
    requires m == 0.0
    ensures m * c == 0.0
  {
  }

  lemma PredCount(g: Graph, dist: seq<int>, preds: seq<seq<nat>>, u: nat, x: nat)
    requires PredResult(g, dist, preds) && x < g.n
    ensures multiset(preds[x])[u] == if u < g.n && dist[u] >= 0 && dist[u] + 1 == dist[x] then EdgeCount(g, u, x) else 0
  {
  }

  lemma ShareIsPathShare(g: Graph, s: nat, dist: seq<int>, sigma: seq<nat>, u: nat, x: nat)
    requires DistanceResult(g, s, dist) && CountResult(g, s, dist, sigma)
    requires u < g.n && x < g.n && dist[u] >= 0 && dist[x] >= 0
    ensures Dist(g, s, u) >= 0 && Dist(g, s, x) >= 0
    ensures Share(sigma, u, x) == PathShare(g, s, u, x)
  {
  }

  lemma Associate(e: real, p: real, q: real)
    ensures e * (p * q) == (e * p) * q
  {
  }

  /**
   * Once delta satisfies the recurrence of the pass at every node, it is the
   * dependency of s on every node.
   */
  lemma {:induction false} DeltaIsDep(g: Graph, s: nat, dist: seq<int>, sigma: seq<nat>, preds: seq<seq<nat>>, order: seq<nat>,
                                      delta: seq<real>, u: nat)
    requires SearchResult(g, s, dist, sigma, preds, order) && |delta| == g.n && u < g.n
    requires forall v :: 0 <= v < g.n ==> delta[v] == Back(order, 0, preds, sigma, delta, v)
    ensures delta[u] == Dep(g, s, u)
    decreases g.n - dist[u]
  {
    if dist[u] < 0 {
      BackZero(order, 0, preds, sigma, delta, u);
    } else {
      forall j | 0 <= j < |order|
        ensures Term(preds, sigma, delta, order[j], u) == DepTerm(g, s, u, order[j])
      {
        var x := order[j];
        if dist[x] == dist[u] + 1 {
          DeltaIsDep(g, s, dist, sigma, preds, order, delta, x);
        }
        TermIsDepTerm(g, s, dist, sigma, preds, delta, u, x);
      }
      BackIsDepSeq(g, s, u, order, 0, preds, sigma, delta);
      assert order[0..] == order;
      DepSeqIsIn(g, s, u, order);
      DepInBelow(g, s, u, order, g.n);
    }
  }

  /** Popping order[k - 1] turns the recurrence over order[k..] into the one over order[k - 1..]. */
  lemma PopStep(g: Graph, s: nat, dist: seq<int>, sigma: seq<nat>, preds: seq<seq<nat>>, order: seq<nat>, k: nat,
                d0: seq<real>, d1: seq<real>)
    requires PredResult(g, dist, preds) && OrderResult(g, s, dist, order) && |sigma| == g.n
    requires 1 <= k <= |order| && |d0| == g.n && |d1| == g.n
    requires Recurrence(order, k, preds, sigma, d0) && Passed(preds, sigma, order[k - 1], d0, d1)
    ensures Recurrence(order, k - 1, preds, sigma, d1)
    ensures forall j :: k - 1 <= j < |order| ==> d1[order[j]] == d0[order[j]]
  {
    var w := order[k - 1];
    forall j | k - 1 <= j < |order| ensures d1[order[j]] == d0[order[j]] {
      if multiset(preds[w])[order[j]] > 0 {
        PredBefore(g, s, dist, preds, order, k - 1, order[j]);
      }
      TermOfNone(preds, sigma, d0, w, order[j]);
    }
    forall u | 0 <= u < g.n ensures d1[u] == Back(order, k - 1, preds, sigma, d1, u) {
      BackFrame(order, k, preds, sigma, d0, d1, u);
      TermFrame(preds, sigma, d0, d1, w, u);
    }
  }

  lemma TermOfNone(preds: seq<seq<nat>>, sigma: seq<nat>, delta: seq<real>, x: nat, u: nat)
    requires x < |preds| && x < |sigma| && x < |delta| && u < |sigma|
    requires multiset(preds[x])[u] == 0
    ensures Term(preds, sigma, delta, x, u) == 0.0
  {
  }

  lemma TermFrame(preds: seq<seq<nat>>, sigma: seq<nat>, d0: seq<real>, d1: seq<real>, x: nat, u: nat)
    requires x < |preds| && x < |sigma| && x < |d0| && x < |d1| && u < |sigma|
    requires d0[x] == d1[x]
    ensures Term(preds, sigma, d0, x, u) == Term(preds, sigma, d1, x, u)
  {
  }

  /** c once for every occurrence of u in us, summed along us. */
  function Credits(us: seq<nat>, u: nat, c: real): real
  {
    if us == [] then 0.0
    else Credits(us[..|us| - 1], u, c) + (if us[|us| - 1] == u then c else 0.0)
  }

  lemma {:induction false} CreditsCount(us: seq<nat>, u: nat, c: real)
    ensures Credits(us, u, c) == (multiset(us)[u] as real) * c
  {
    CreditsTimes(us, u, c);
    TimesIsProduct(multiset(us)[u], c);
  }

  /** c added k times. */
  function Times(k: nat, c: real): real
  {
    if k == 0 then 0.0 else Times(k - 1, c) + c
  }

  lemma {:induction false} TimesIsProduct(k: nat, c: real)
    ensures Times(k, c) == (k as real) * c
  {
    if k > 0 {
      TimesIsProduct(k - 1, c);
      Distribute(k - 1, c);
    }
  }

  lemma {:induction false} CreditsTimes(us: seq<nat>, u: nat, c: real)
    ensures Credits(us, u, c) == Times(multiset(us)[u], c)
  {
    if us == [] {
      assert multiset(us)[u] == 0;
    } else {
      CreditsTimes(us[..|us| - 1], u, c);
      CountLast(us, u);
    }
  }

  lemma CountLast(us: seq<nat>, u: nat)
    requires us != []
    ensures multiset(us)[u] == multiset(us[..|us| - 1])[u] + (if us[|us| - 1] == u then 1 else 0)
  {
    assert us == us[..|us| - 1] + [us[|us| - 1]];
  }

  lemma Distribute(m: nat, c: real)
    ensures ((m + 1) as real) * c == (m as real) * c + c
  {
  }

  /** d1 is d0 after popping w: every delta[u] grew by what w passes to u. */
  ghost predicate Passed(preds: seq<seq<nat>>, sigma: seq<nat>, w: nat, d0: seq<real>, d1: seq<real>)
  {
    && |preds| == |sigma| && |d0| == |sigma| && |d1| == |sigma| && w < |sigma|
    && forall u :: 0 <= u < |sigma| ==> d1[u] == d0[u] + Term(preds, sigma, d0, w, u)
  }

  /** The inner loop: pass w's share to each of its predecessors. */
  method PassBack(preds: seq<seq<nat>>, sigma: seq<nat>, w: nat, d: array<real>)
    requires |preds| == |sigma| && d.Length == |sigma| && w < |sigma| && sigma[w] > 0
    requires InRange(preds[w], |sigma|) && w !in preds[w]
    modifies d
    ensures Passed(preds, sigma, w, old(d[..]), d[..])
  {
    ghost var d0 := d[..];
    var ps := preds[w];
    var i := 0;
    while i < |ps|
      invariant 0 <= i <= |ps| && d[w] == d0[w]
      invariant forall u :: 0 <= u < |sigma| ==> d[u] == d0[u] + Credits(ps[..i], u, Credit(sigma, d0, u, w))
    {
      var u := ps[i];
      assert ps[..i + 1][..i] == ps[..i];
      assert ps[i] in ps;
      var credit := (sigma[u] as real) / (sigma[w] as real) * (1.0 + d[w]);
      assert credit == Credit(sigma, d0, u, w);
      d[u] := d[u] + credit;
      i := i + 1;
    }
    assert ps[..i] == ps;
    forall u | 0 <= u < |sigma| ensures d[u] == d0[u] + Term(preds, sigma, d0, w, u) {
      CreditsCount(ps, u, Credit(sigma, d0, u, w));
    }
  }

  /** delta satisfies the recurrence of the pass over the popped nodes order[k..]. */
  ghost predicate Recurrence(order: seq<nat>, k: nat, preds: seq<seq<nat>>, sigma: seq<nat>, delta: seq<real>)
  {
    && k <= |order| && InRange(order, |sigma|) && |preds| == |sigma| && |delta| == |sigma|
    && forall u :: 0 <= u < |sigma| ==> delta[u] == Back(order, k, preds, sigma, delta, u)
  }

  /** b is b0 plus delta at every popped node other than s. */
  ghost predicate Credited(s: nat, order: seq<nat>, k: nat, b0: seq<real>, b: seq<real>, delta: seq<real>)
  {
    && k <= |order| && |b0| == |b| == |delta|
    && forall x :: 0 <= x < |b| ==> b[x] == b0[x] + (if x != s && x in order[k..] then delta[x] else 0.0)
  }

  /** Popping w = order[k - 1]: its delta is final, so it can be added to its betweenness. */
  lemma CreditStep(s: nat, order: seq<nat>, k: nat, b0: seq<real>, b: seq<real>, d0: seq<real>, d1: seq<real>)
    requires Credited(s, order, k, b0, b, d0) && Distinct(order) && InRange(order, |b|) && 1 <= k
    requires |d1| == |d0| && forall j :: k - 1 <= j < |order| ==> d1[order[j]] == d0[order[j]]
    ensures var w := order[k - 1];
      Credited(s, order, k - 1, b0, if w != s then b[w := b[w] + d1[w]] else b, d1)
  {
    var w := order[k - 1];
    assert order[k - 1..] == [w] + order[k..];
    assert w !in order[k..] by {
      forall j | k <= j < |order| ensures order[j] != w {
      }
    }
    forall x | 0 <= x < |b| && x in order[k..] ensures d1[x] == d0[x] {
      var j :| k <= j < |order| && order[j] == x;
    }
  }

  /** The end of the pass: delta is the dependency, and betweenness got it at every node but s. */
  lemma Finish(g: Graph, s: nat, dist: seq<int>, sigma: seq<nat>, preds: seq<seq<nat>>, order: seq<nat>,
               b0: seq<real>, b: seq<real>, delta: seq<real>)
    requires SearchResult(g, s, dist, sigma, preds, order)
    requires Recurrence(order, 0, preds, sigma, delta) && Credited(s, order, 0, b0, b, delta)
    ensures |delta| == g.n
    ensures forall u :: 0 <= u < g.n ==> delta[u] == Dep(g, s, u) && delta[u] >= 0.0
    ensures forall w :: 0 <= w < g.n ==> b[w] == b0[w] + (if w != s then delta[w] else 0.0)
  {
    forall u | 0 <= u < g.n ensures delta[u] == Dep(g, s, u) && delta[u] >= 0.0 {
      DeltaIsDep(g, s, dist, sigma, preds, order, delta, u);
      DepNonNegative(g, s, u);
    }
    assert order[0..] == order;
    forall x | 0 <= x < g.n && x !in order ensures delta[x] == 0.0 {
      forall j | 0 <= j < |order| ensures multiset(preds[order[j]])[x] == 0 {
        PredCount(g, dist, preds, x, order[j]);
      }
      BackZero(order, 0, preds, sigma, delta, x);
    }
  }

  /** One pop of the stack, on the values: the recurrence and the credits move down to k - 1. */
  lemma PopLemma(g: Graph, s: nat, dist: seq<int>, sigma: seq<nat>, preds: seq<seq<nat>>, order: seq<nat>, k: nat,
                 b0: seq<real>, b: seq<real>, d0: seq<real>, d1: seq<real>)
    requires PredResult(g, dist, preds) && OrderResult(g, s, dist, order) && |sigma| == g.n && 1 <= k
    requires Recurrence(order, k, preds, sigma, d0) && Credited(s, order, k, b0, b, d0)
    requires Passed(preds, sigma, order[k - 1], d0, d1)
    ensures var w := order[k - 1];
      Recurrence(order, k - 1, preds, sigma, d1) &&
      Credited(s, order, k - 1, b0, if w != s then b[w := b[w] + d1[w]] else b, d1)
  {
    PopStep(g, s, dist, sigma, preds, order, k, d0, d1);
    CreditStep(s, order, k, b0, b, d0, d1);
  }

  /** Adds the dependency x of the source s on w to the betweenness of w, unless w is s. */
  method AddDependency(betweenness: array<real>, s: nat, w: nat, x: real)
    requires w < betweenness.Length
    modifies betweenness
    ensures betweenness[..] == if w != s then old(betweenness[..])[w := old(betweenness[w]) + x] else old(betweenness[..])
  {
    if w != s {
      betweenness[w] := betweenness[w] + x;
    }
  }

  /** One pop of the stack: w = order[k - 1] passes its share back and gets its betweenness. */
  method PopNode(ghost g: Graph, s: nat, ghost dist: seq<int>, sigma: seq<nat>, preds: seq<seq<nat>>, order: seq<nat>,
                 k: nat, d: array<real>, betweenness: array<real>, ghost b0: seq<real>)
    requires PredResult(g, dist, preds) && OrderResult(g, s, dist, order) && |sigma| == g.n
    requires forall v :: 0 <= v < g.n && dist[v] >= 0 ==> sigma[v] >= 1
    requires 1 <= k && d.Length == g.n && betweenness.Length == g.n && d != betweenness
    requires Recurrence(order, k, preds, sigma, d[..]) && Credited(s, order, k, b0, betweenness[..], d[..])
    modifies d, betweenness
    ensures Recurrence(order, k - 1, preds, sigma, d[..]) && Credited(s, order, k - 1, b0, betweenness[..], d[..])
  {
    var w := order[k - 1];
    ghost var d0 := d[..];
    ghost var bb := betweenness[..];
    PredsInRange(g, dist, preds, w);
    PassBack(preds, sigma, w, d);
    PopLemma(g, s, dist, sigma, preds, order, k, b0, bb, d0, d[..]);
    AddDependency(betweenness, s, w, d[w]);
  }

  /**
   * The dependency pass of one source (GraphDistance.execute): pops every
   * node w off the stack, passes w's share to its predecessors, and adds
   * the dependency of s on w to betweenness[w] unless w is s. delta[u] ends
   * as the dependency of s on u.
   */
  method Accumulate(ghost g: Graph, s: nat, ghost dist: seq<int>, sigma: seq<nat>, preds: seq<seq<nat>>, order: seq<nat>,
                    betweenness: array<real>) returns (delta: seq<real>)
    requires SearchResult(g, s, dist, sigma, preds, order) && betweenness.Length == g.n
    modifies betweenness
    ensures |delta| == g.n
    ensures forall u :: 0 <= u < g.n ==> delta[u] == Dep(g, s, u) && delta[u] >= 0.0
    ensures forall w :: 0 <= w < g.n ==> betweenness[w] == old(betweenness[w]) + (if w != s then delta[w] else 0.0)
  {
    var n := |sigma|;
    var d := new real[n](_ => 0.0);
    ghost var b0 := betweenness[..];
    var k: nat := |order|;
    while k > 0
      invariant d.Length == n && betweenness.Length == n
      invariant Recurrence(order, k, preds, sigma, d[..]) && Credited(s, order, k, b0, betweenness[..], d[..])
    {
      PopNode(g, s, dist, sigma, preds, order, k, d, betweenness, b0);
      k := k - 1;
    }
    delta := d[..];
    Finish(g, s, dist, sigma, preds, order, b0, betweenness[..], delta);
  }
}
