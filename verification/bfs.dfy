/**
 * The breadth-first search that GraphDistance.execute runs from every
 * source: hop distances d, shortest-path counts theta, predecessor lists P
 * and the visiting order S (the stack of the dependency pass), proved
 * against the reference definitions of Paths.
 */
module Bfs {
  import opened Paths

  /** The path count the search starts from: 1 for the source, 0 elsewhere. */
  function Base(s: nat, x: nat): nat
  {
    if x == s then 1 else 0
  }

  predicate InRange(us: seq<nat>, n: nat)
  {
    forall i :: 0 <= i < |us| ==> us[i] < n
  }

  lemma InRangePrefix(D: seq<nat>, h: nat, n: nat)
    requires InRange(D, n) && h <= |D|
    ensures InRange(D[..h], n)
  {
  }

  // ----- Levels -------------------------------------------------------------

  /** Every node y with a level dd[y] is first reached at that level. */
  ghost predicate LevelsCorrect(g: Graph, s: nat, dd: seq<int>)
    requires Valid(g) && s < g.n && |dd| == g.n
  {
    forall y :: 0 <= y < g.n && dd[y] >= 0 ==>
      Within(g, s, dd[y], y) && (dd[y] > 0 ==> !Within(g, s, dd[y] - 1, y))
  }

  /** A node reached within j edges has a level of at most j. */
  lemma LevelAtMost(g: Graph, s: nat, dd: seq<int>, y: nat, j: nat)
    requires Valid(g) && s < g.n && |dd| == g.n && y < g.n
    requires LevelsCorrect(g, s, dd)
    requires dd[y] >= 0 && Within(g, s, j, y)
    ensures dd[y] <= j
  {
    if dd[y] > j {
      WithinMono(g, s, j, dd[y] - 1, y);
    }
  }

  /** The source, once it has a level, is on level 0. */
  lemma LevelZero(g: Graph, s: nat, dd: seq<int>)
    requires Valid(g) && s < g.n && |dd| == g.n
    requires LevelsCorrect(g, s, dd) && dd[s] >= 0
    ensures dd[s] == 0
  {
    if dd[s] > 0 {
      WithinSource(g, s, dd[s] - 1);
    }
  }

  // ----- Sums of path counts over finished nodes ----------------------------

  /**
   * What the edges u -> x add to the path count of x once u is finished: the
   * walks to u times the number of such edges, when u is one level below x.
   */
  ghost function ArrTerm(g: Graph, s: nat, dd: seq<int>, u: nat, x: nat): nat
    requires Valid(g) && s < g.n && |dd| == g.n && u < g.n && x < g.n
  {
    if dd[u] >= 0 && dd[u] + 1 == dd[x] then EdgeCount(g, u, x) * Walks(g, s, dd[u], u) else 0
  }

  /** The contributions of the nodes of us to x, summed in the order of us. */
  ghost function Arrived(g: Graph, s: nat, dd: seq<int>, us: seq<nat>, x: nat): nat
    requires Valid(g) && s < g.n && |dd| == g.n && x < g.n && InRange(us, g.n)
  {
    if us == [] then 0
    else Arrived(g, s, dd, us[..|us| - 1], x) + ArrTerm(g, s, dd, us[|us| - 1], x)
  }

  /** The contributions of the nodes below hi that occur in us. */
  ghost function ArrivedIn(g: Graph, s: nat, dd: seq<int>, us: seq<nat>, x: nat, hi: nat): nat
    requires Valid(g) && s < g.n && |dd| == g.n && x < g.n && hi <= g.n
  {
    if hi == 0 then 0
    else ArrivedIn(g, s, dd, us, x, hi - 1) + (if hi - 1 in us then ArrTerm(g, s, dd, hi - 1, x) else 0)
  }

  /** The contributions of all nodes below hi. */
  ghost function ArrivedBelow(g: Graph, s: nat, dd: seq<int>, x: nat, hi: nat): nat
    requires Valid(g) && s < g.n && |dd| == g.n && x < g.n && hi <= g.n
  {
    if hi == 0 then 0
    else ArrivedBelow(g, s, dd, x, hi - 1) + ArrTerm(g, s, dd, hi - 1, x)
  }

  lemma {:induction false} ArrivedSplit(g: Graph, s: nat, dd: seq<int>, us: seq<nat>, vs: seq<nat>, x: nat)
    requires Valid(g) && s < g.n && |dd| == g.n && x < g.n && InRange(us, g.n) && InRange(vs, g.n)
    ensures InRange(us + vs, g.n)
    ensures Arrived(g, s, dd, us + vs, x) == Arrived(g, s, dd, us, x) + Arrived(g, s, dd, vs, x)
    decreases |vs|
  {
    assert InRange(us + vs, g.n) by {
      forall i | 0 <= i < |us + vs| ensures (us + vs)[i] < g.n {
        if i >= |us| {
          assert (us + vs)[i] == vs[i - |us|];
        }
      }
    }
    if vs == [] {
      assert us + vs == us;
    } else {
      var init := vs[..|vs| - 1];
      assert (us + vs)[..|us + vs| - 1] == us + init;
      ArrivedSplit(g, s, dd, us, init, x);
    }
  }

  /** Nodes that contribute nothing add nothing. */
  lemma {:induction false} ArrivedZero(g: Graph, s: nat, dd: seq<int>, us: seq<nat>, x: nat)
    requires Valid(g) && s < g.n && |dd| == g.n && x < g.n && InRange(us, g.n)
    requires forall i :: 0 <= i < |us| ==> ArrTerm(g, s, dd, us[i], x) == 0
    ensures Arrived(g, s, dd, us, x) == 0
  {
    if us != [] {
      ArrivedZero(g, s, dd, us[..|us| - 1], x);
    }
  }

  /** The sum only reads the levels of x and of the nodes of us. */
  lemma {:induction false} ArrivedFrame(g: Graph, s: nat, dd: seq<int>, dd': seq<int>, us: seq<nat>, x: nat)
    requires Valid(g) && s < g.n && |dd| == g.n && |dd'| == g.n && x < g.n && InRange(us, g.n)
    requires dd[x] == dd'[x]
    requires forall i :: 0 <= i < |us| ==> dd[us[i]] == dd'[us[i]]
    ensures Arrived(g, s, dd, us, x) == Arrived(g, s, dd', us, x)
  {
    if us != [] {
      ArrivedFrame(g, s, dd, dd', us[..|us| - 1], x);
    }
  }

  lemma {:induction false} ArrivedInAppend(g: Graph, s: nat, dd: seq<int>, us: seq<nat>, z: nat, x: nat, hi: nat)
    requires Valid(g) && s < g.n && |dd| == g.n && x < g.n && hi <= g.n && z < g.n
    requires z !in us
    ensures ArrivedIn(g, s, dd, us + [z], x, hi)
         == ArrivedIn(g, s, dd, us, x, hi) + (if z < hi then ArrTerm(g, s, dd, z, x) else 0)
  {
    if hi > 0 {
      ArrivedInAppend(g, s, dd, us, z, x, hi - 1);
      assert (hi - 1 in us + [z]) <==> (hi - 1 in us || hi - 1 == z);
    }
  }

  lemma {:induction false} ArrivedInEmpty(g: Graph, s: nat, dd: seq<int>, x: nat, hi: nat)
    requires Valid(g) && s < g.n && |dd| == g.n && x < g.n && hi <= g.n
    ensures ArrivedIn(g, s, dd, [], x, hi) == 0
  {
    if hi > 0 {
      ArrivedInEmpty(g, s, dd, x, hi - 1);
    }
  }

  /** Summing along a repetition-free sequence is summing over its members. */
  lemma {:induction false} ArrivedIsIn(g: Graph, s: nat, dd: seq<int>, us: seq<nat>, x: nat)
    requires Valid(g) && s < g.n && |dd| == g.n && x < g.n && InRange(us, g.n) && Distinct(us)
    ensures Arrived(g, s, dd, us, x) == ArrivedIn(g, s, dd, us, x, g.n)
  {
    if us == [] {
      ArrivedInEmpty(g, s, dd, x, g.n);
    } else {
      var init := us[..|us| - 1];
      var z := us[|us| - 1];
      assert z !in init by {
        forall i | 0 <= i < |init| ensures init[i] != z {
          assert init[i] == us[i];
        }
      }
      ArrivedIsIn(g, s, dd, init, x);
      assert us == init + [z];
      ArrivedInAppend(g, s, dd, init, z, x, g.n);
    }
  }

  /** When us holds every contributing node, summing over us sums over all nodes. */
  lemma {:induction false} ArrivedInBelow(g: Graph, s: nat, dd: seq<int>, us: seq<nat>, x: nat, hi: nat)
    requires Valid(g) && s < g.n && |dd| == g.n && x < g.n && hi <= g.n
    requires forall u :: 0 <= u < g.n && u !in us ==> ArrTerm(g, s, dd, u, x) == 0
    ensures ArrivedIn(g, s, dd, us, x, hi) == ArrivedBelow(g, s, dd, x, hi)
  {
    if hi > 0 {
      ArrivedInBelow(g, s, dd, us, x, hi - 1);
    }
  }

  /** Sums that agree term by term are equal. */
  lemma {:induction false} WalksIntoIsBelow(g: Graph, s: nat, dd: seq<int>, k: nat, x: nat, hi: nat)
    requires Valid(g) && s < g.n && |dd| == g.n && x < g.n && hi <= g.n
    requires forall u :: 0 <= u < g.n ==> EdgeCount(g, u, x) * Walks(g, s, k, u) == ArrTerm(g, s, dd, u, x)
    ensures WalksInto(g, s, k, x, hi) == ArrivedBelow(g, s, dd, x, hi)
  {
    if hi > 0 {
      WalksIntoIsBelow(g, s, dd, k, x, hi - 1);
      assert EdgeCount(g, hi - 1, x) * Walks(g, s, k, hi - 1) == ArrTerm(g, s, dd, hi - 1, x);
    }
  }

  /**
   * Levels that are correct, and complete up to the level below x, determine
   * the number of shortest walks to x: the walks of dd[x] - 1 edges to the
   * nodes one level below, each extended by one edge.
   */
  lemma PathCount(g: Graph, s: nat, dd: seq<int>, us: seq<nat>, x: nat)
    requires Valid(g) && s < g.n && |dd| == g.n && x < g.n && InRange(us, g.n) && Distinct(us)
    requires LevelsCorrect(g, s, dd)
    requires dd[x] >= 1
    requires forall y :: 0 <= y < g.n && Within(g, s, dd[x] - 1, y) ==> dd[y] >= 0
    requires forall u :: 0 <= u < g.n && dd[u] >= 0 ==> u in us
    ensures Arrived(g, s, dd, us, x) == Walks(g, s, dd[x], x)
  {
    var k := dd[x];
    forall u | 0 <= u < g.n
      ensures EdgeCount(g, u, x) * Walks(g, s, k - 1, u) == ArrTerm(g, s, dd, u, x)
    {
      if Walks(g, s, k - 1, u) > 0 {
        WalksSupport(g, s, k - 1, u);
        LevelAtMost(g, s, dd, u, k - 1);
        if dd[u] < k - 1 && EdgeCount(g, u, x) > 0 {
          assert x in multiset(g.adj[u]);
          WithinStep(g, s, dd[u], u, x);
          WithinMono(g, s, dd[u] + 1, k - 1, x);
        }
      }
    }
    WalksIntoIsBelow(g, s, dd, k - 1, x, g.n);
    ArrivedIsIn(g, s, dd, us, x);
    ArrivedInBelow(g, s, dd, us, x, g.n);
  }

  // ----- The state of the search --------------------------------------------

  /** D is the discovery order: the source first, no node twice, nodes only. */
  ghost predicate Basic(g: Graph, s: nat, D: seq<nat>, dd: seq<int>)
  {
    Valid(g) && s < g.n && |dd| == g.n && |D| >= 1 && D[0] == s && Distinct(D) && InRange(D, g.n)
  }

  /** Exactly the discovered nodes have a level; the others have -1. */
  ghost predicate Marks(g: Graph, D: seq<nat>, dd: seq<int>)
    requires |dd| == g.n
  {
    forall y :: 0 <= y < g.n ==> dd[y] >= -1 && (dd[y] >= 0 <==> y in D)
  }

  /** Levels do not decrease along the discovery order. */
  ghost predicate Sorted(D: seq<nat>, dd: seq<int>)
    requires InRange(D, |dd|)
  {
    forall i, j :: 0 <= i <= j < |D| ==> dd[D[i]] <= dd[D[j]]
  }

  ghost predicate LevelBound(D: seq<nat>, dd: seq<int>)
    requires InRange(D, |dd|)
  {
    forall i :: 0 <= i < |D| ==> dd[D[i]] <= i
  }

  ghost predicate Discovered(g: Graph, s: nat, D: seq<nat>, dd: seq<int>)
  {
    Basic(g, s, D, dd) && Marks(g, D, dd) && Sorted(D, dd) && LevelBound(D, dd) && LevelsCorrect(g, s, dd)
  }

  /** The nodes still queued after position h are at most one level above D[h]. */
  ghost predicate Frontier(D: seq<nat>, h: nat, dd: seq<int>)
    requires InRange(D, |dd|)
  {
    h < |D| ==> forall j :: h <= j < |D| ==> dd[D[j]] <= dd[D[h]] + 1
  }

  /** The nodes from position h on are at most one level above v. */
  ghost predicate NearV(D: seq<nat>, h: nat, dd: seq<int>, v: nat)
    requires InRange(D, |dd|) && v < |dd|
  {
    forall j :: h <= j < |D| ==> dd[D[j]] <= dd[v] + 1
  }

  /** Every neighbour of the first h discovered nodes is discovered. */
  ghost predicate Closed(g: Graph, D: seq<nat>, h: nat)
    requires Valid(g) && InRange(D, g.n) && h <= |D|
  {
    forall i, y :: 0 <= i < h && y in g.adj[D[i]] ==> y in D
  }

  /** Every neighbour scanned so far is discovered. */
  ghost predicate ScanClosed(D: seq<nat>, part: seq<nat>)
  {
    forall j :: 0 <= j < |part| ==> part[j] in D
  }

  /** What the scanned edges part of v have added to the path count of x. */
  function Partial(dd: seq<int>, th: seq<nat>, v: nat, part: seq<nat>, x: nat): nat
    requires v < |dd| && x < |dd| && v < |th|
  {
    if dd[v] + 1 == dd[x] then multiset(part)[x] * th[v] else 0
  }

  /**
   * The path count of every node: its base, what the first h discovered
   * nodes contribute, and what the scanned edges part of v contribute.
   */
  ghost predicate ThetaScan(g: Graph, s: nat, D: seq<nat>, h: nat, dd: seq<int>, th: seq<nat>, v: nat, part: seq<nat>)
    requires Valid(g) && s < g.n && |dd| == g.n && InRange(D, g.n) && h <= |D| && v < g.n
  {
    |th| == g.n &&
    forall x :: 0 <= x < g.n ==> th[x] == Base(s, x) + Arrived(g, s, dd, D[..h], x) + Partial(dd, th, v, part, x)
  }

  /** The first hh discovered nodes have their final path counts. */
  ghost predicate Final(g: Graph, s: nat, D: seq<nat>, hh: nat, dd: seq<int>, th: seq<nat>)
    requires Valid(g) && s < g.n && |dd| == g.n && |th| == g.n && InRange(D, g.n) && hh <= |D|
  {
    forall j :: 0 <= j < hh ==> dd[D[j]] >= 0 && th[D[j]] == Walks(g, s, dd[D[j]], D[j])
  }

  /** Predecessor entries contributed by the first h discovered nodes. */
  function Done(g: Graph, D: seq<nat>, h: nat, dd: seq<int>, u: nat, x: nat): nat
    requires Valid(g) && |dd| == g.n && h <= |D| && x < g.n
  {
    if u < g.n && u in D[..h] && dd[u] + 1 == dd[x] then EdgeCount(g, u, x) else 0
  }

  /** Predecessor entries contributed by the scanned edges part of v. */
  function PartialPreds(dd: seq<int>, v: nat, part: seq<nat>, u: nat, x: nat): nat
    requires v < |dd| && x < |dd|
  {
    if u == v && dd[v] + 1 == dd[x] then multiset(part)[x] else 0
  }

  /** How often u occurs in the predecessor list of x. */
  ghost predicate PredsScan(g: Graph, D: seq<nat>, h: nat, dd: seq<int>, PP: seq<seq<nat>>, v: nat, part: seq<nat>)
    requires Valid(g) && |dd| == g.n && InRange(D, g.n) && h <= |D| && v < g.n
  {
    |PP| == g.n &&
    forall x: nat, u: nat :: 0 <= x < g.n ==> multiset(PP[x])[u] == Done(g, D, h, dd, u, x) + PartialPreds(dd, v, part, u, x)
  }

  /** The state between two nodes: the first h discovered nodes are finished. */
  ghost predicate Between(g: Graph, s: nat, D: seq<nat>, h: nat, dd: seq<int>, th: seq<nat>, PP: seq<seq<nat>>)
    requires Basic(g, s, D, dd) && h <= |D|
  {
    Closed(g, D, h) && ThetaScan(g, s, D, h, dd, th, s, []) && PredsScan(g, D, h, dd, PP, s, [])
    && Final(g, s, D, h, dd, th)
  }

  // ----- Taking a node off the queue ----------------------------------------

  /** While D[h] is at the head of the queue, every node within its level is discovered. */
  lemma {:induction false} Complete(g: Graph, s: nat, D: seq<nat>, h: nat, dd: seq<int>, j: nat, y: nat)
    requires Basic(g, s, D, dd) && Marks(g, D, dd) && Sorted(D, dd) && LevelsCorrect(g, s, dd)
    requires h < |D| && Closed(g, D, h)
    requires j <= dd[D[h]] && Within(g, s, j, y)
    ensures y < g.n && y in D
  {
    WithinBounded(g, s, j, y);
    if j == 0 {
      assert y == D[0];
    } else if Within(g, s, j - 1, y) {
      Complete(g, s, D, h, dd, j - 1, y);
    } else {
      var u :| 0 <= u < g.n && Within(g, s, j - 1, u) && y in g.adj[u];
      Complete(g, s, D, h, dd, j - 1, u);
      LevelAtMost(g, s, dd, u, j - 1);
      var i :| 0 <= i < |D| && D[i] == u;
    }
  }

  /** Nodes from position h on are not below D[h], so they add nothing to its count. */
  lemma PopTail(g: Graph, s: nat, D: seq<nat>, h: nat, dd: seq<int>)
    requires Basic(g, s, D, dd) && Sorted(D, dd) && h < |D|
    ensures InRange(D[..h], g.n)
    ensures Arrived(g, s, dd, D[..h], D[h]) == Arrived(g, s, dd, D, D[h])
  {
    var v := D[h];
    var tail := D[h..];
    assert D == D[..h] + tail;
    assert InRange(tail, g.n) by {
      forall i | 0 <= i < |tail| ensures tail[i] < g.n {
        assert tail[i] == D[h + i];
      }
    }
    forall i | 0 <= i < |tail| ensures ArrTerm(g, s, dd, tail[i], v) == 0 {
      assert tail[i] == D[h + i];
      assert dd[D[h]] <= dd[D[h + i]];
    }
    ArrivedZero(g, s, dd, tail, v);
    ArrivedSplit(g, s, dd, D[..h], tail, v);
  }

  /** When v == D[h] leaves the queue, its path count is final and correct. */
  lemma Pop(g: Graph, s: nat, D: seq<nat>, h: nat, dd: seq<int>, th: seq<nat>)
    requires Basic(g, s, D, dd) && Marks(g, D, dd) && Sorted(D, dd) && LevelsCorrect(g, s, dd)
    requires h < |D| && Closed(g, D, h)
    requires ThetaScan(g, s, D, h, dd, th, s, [])
    ensures dd[D[h]] >= 0 && th[D[h]] == Walks(g, s, dd[D[h]], D[h])
  {
    var v := D[h];
    InRangePrefix(D, h, g.n);
    assert th[v] == Base(s, v) + Arrived(g, s, dd, D[..h], v);
    LevelZero(g, s, dd);
    if dd[v] == 0 {
      assert v == D[0];
      assert D[..h] == [];
    } else {
      PopTail(g, s, D, h, dd);
      forall y | 0 <= y < g.n && Within(g, s, dd[v] - 1, y) ensures dd[y] >= 0 {
        Complete(g, s, D, h, dd, dd[v] - 1, y);
      }
      PathCount(g, s, dd, D, v);
    }
  }

  /** Taking D[h] off the queue starts the scan of its edges with nothing scanned. */
  lemma StartScan(g: Graph, s: nat, D: seq<nat>, h: nat, dd: seq<int>, th: seq<nat>, PP: seq<seq<nat>>)
    requires Basic(g, s, D, dd) && h < |D|
    requires ThetaScan(g, s, D, h, dd, th, s, []) && PredsScan(g, D, h, dd, PP, s, [])
    ensures ThetaScan(g, s, D, h, dd, th, D[h], []) && PredsScan(g, D, h, dd, PP, D[h], [])
  {
  }

  // ----- Discovering a neighbour --------------------------------------------

  /** Discovering r appends it to D and gives it a level. */
  lemma DiscoverMarks(g: Graph, s: nat, D: seq<nat>, h: nat, dd: seq<int>, r: nat)
    requires Basic(g, s, D, dd) && Marks(g, D, dd) && h < |D|
    requires r < g.n && dd[r] < 0
    ensures var dd' := dd[r := dd[D[h]] + 1]; var D' := D + [r];
      && Basic(g, s, D', dd') && Marks(g, D', dd')
      && D'[..h + 1] == D[..h + 1] && D'[h] == D[h] && D'[h + 1..] == D[h + 1..] + [r]
  {
    assert r !in D;
    assert dd[D[h]] >= 0;
    assert Distinct(D + [r]);
    assert InRange(D + [r], g.n);
  }

  /** r, one level above v == D[h], goes after nodes at most one level above v. */
  lemma DiscoverSorted(g: Graph, s: nat, D: seq<nat>, h: nat, dd: seq<int>, r: nat)
    requires Basic(g, s, D, dd) && Marks(g, D, dd) && Sorted(D, dd) && LevelBound(D, dd)
    requires h < |D| && NearV(D, h, dd, D[h])
    requires r < g.n && dd[r] < 0
    ensures InRange(D + [r], g.n)
    ensures var dd' := dd[r := dd[D[h]] + 1]; var D' := D + [r];
      Sorted(D', dd') && LevelBound(D', dd') && NearV(D', h, dd', D[h])
  {
    var v := D[h];
    var dd' := dd[r := dd[v] + 1];
    var D' := D + [r];
    assert r !in D;
    assert InRange(D', g.n);
    DiscoverKeeps(g, D, dd, r, dd[v] + 1);
    DiscoverOrder(g, D, h, dd, dd', r);
    DiscoverBound(g, D, h, dd, dd', r);
  }

  /** r gets a level at most its place in the discovery order. */
  lemma DiscoverBound(g: Graph, D: seq<nat>, h: nat, dd: seq<int>, dd': seq<int>, r: nat)
    requires |dd| == g.n && InRange(D, g.n) && r < g.n && h < |D|
    requires LevelBound(D, dd)
    requires |dd'| == g.n && InRange(D + [r], g.n) && dd'[r] == dd[D[h]] + 1
    requires forall j :: 0 <= j < |D| ==> dd'[(D + [r])[j]] == dd[D[j]]
    ensures LevelBound(D + [r], dd')
  {
    var D' := D + [r];
    forall j | 0 <= j < |D'| ensures dd'[D'[j]] <= j {
      if j == |D| {
        assert dd[D[h]] <= h;
      }
    }
  }

  /** Giving an undiscovered r a level changes no discovered node's level. */
  lemma DiscoverKeeps(g: Graph, D: seq<nat>, dd: seq<int>, r: nat, level: int)
    requires |dd| == g.n && InRange(D, g.n) && r < g.n && r !in D
    ensures InRange(D + [r], g.n)
    ensures forall j :: 0 <= j < |D| ==> dd[r := level][(D + [r])[j]] == dd[D[j]]
  {
    assert InRange(D + [r], g.n);
    forall j | 0 <= j < |D| ensures dd[r := level][(D + [r])[j]] == dd[D[j]] {
      assert D[j] in D;
    }
  }

  lemma DiscoverOrder(g: Graph, D: seq<nat>, h: nat, dd: seq<int>, dd': seq<int>, r: nat)
    requires |dd| == g.n && InRange(D, g.n) && r < g.n && h < |D|
    requires Sorted(D, dd) && NearV(D, h, dd, D[h])
    requires |dd'| == g.n && InRange(D + [r], g.n) && dd'[r] == dd[D[h]] + 1
    requires forall j :: 0 <= j < |D| ==> dd'[(D + [r])[j]] == dd[D[j]]
    ensures Sorted(D + [r], dd') && NearV(D + [r], h, dd', D[h])
  {
    var D' := D + [r];
    assert dd'[D[h]] == dd[D[h]] by {
      assert D'[h] == D[h];
    }
    forall i1, j1 | 0 <= i1 <= j1 < |D'| ensures dd'[D'[i1]] <= dd'[D'[j1]] {
      if j1 == |D| && i1 < h {
        assert dd[D[i1]] <= dd[D[h]];
      }
    }
  }

  /** The new node's level is the one it is first reached at. */
  lemma DiscoverLevels(g: Graph, s: nat, D: seq<nat>, h: nat, dd: seq<int>, r: nat)
    requires Basic(g, s, D, dd) && Marks(g, D, dd) && Sorted(D, dd) && LevelsCorrect(g, s, dd)
    requires h < |D| && Closed(g, D, h)
    requires r in g.adj[D[h]] && dd[r] < 0
    ensures r < g.n && LevelsCorrect(g, s, dd[r := dd[D[h]] + 1])
  {
    var v := D[h];
    assert Within(g, s, dd[v], v);
    WithinStep(g, s, dd[v], v, r);
    if Within(g, s, dd[v], r) {
      Complete(g, s, D, h, dd, dd[v], r);
    }
  }

  /** No finished node and no scanned edge leads to r, so its counts start at zero. */
  lemma DiscoverTheta(g: Graph, s: nat, D: seq<nat>, h: nat, dd: seq<int>, th: seq<nat>, part: seq<nat>, r: nat)
    requires Basic(g, s, D, dd) && Marks(g, D, dd) && h < |D|
    requires Closed(g, D, h) && ScanClosed(D, part)
    requires ThetaScan(g, s, D, h, dd, th, D[h], part)
    requires r < g.n && r !in D
    ensures ThetaScan(g, s, D + [r], h, dd[r := dd[D[h]] + 1], th, D[h], part)
  {
    var v := D[h];
    var dd' := dd[r := dd[v] + 1];
    var D' := D + [r];
    InRangePrefix(D, h, g.n);
    assert D'[..h] == D[..h];
    assert r !in multiset(part);
    forall x | 0 <= x < g.n
      ensures th[x] == Base(s, x) + Arrived(g, s, dd', D'[..h], x) + Partial(dd', th, v, part, x)
    {
      if x == r {
        forall j | 0 <= j < |D[..h]| ensures ArrTerm(g, s, dd, D[..h][j], r) == 0 {
          assert r !in multiset(g.adj[D[..h][j]]);
        }
        forall j | 0 <= j < |D[..h]| ensures ArrTerm(g, s, dd', D[..h][j], r) == 0 {
          assert r !in multiset(g.adj[D[..h][j]]);
        }
        ArrivedZero(g, s, dd, D[..h], r);
        ArrivedZero(g, s, dd', D[..h], r);
      } else {
        forall j | 0 <= j < |D[..h]| ensures dd[D[..h][j]] == dd'[D[..h][j]] {
          assert D[..h][j] in D;
        }
        ArrivedFrame(g, s, dd, dd', D[..h], x);
      }
    }
  }

  lemma DiscoverPreds(g: Graph, s: nat, D: seq<nat>, h: nat, dd: seq<int>, PP: seq<seq<nat>>, part: seq<nat>, r: nat)
    requires Basic(g, s, D, dd) && Marks(g, D, dd) && h < |D|
    requires Closed(g, D, h) && ScanClosed(D, part)
    requires PredsScan(g, D, h, dd, PP, D[h], part)
    requires r < g.n && r !in D
    ensures PredsScan(g, D + [r], h, dd[r := dd[D[h]] + 1], PP, D[h], part)
  {
    var v := D[h];
    var dd' := dd[r := dd[v] + 1];
    var D' := D + [r];
    assert D'[..h] == D[..h];
    assert r !in multiset(part);
    forall x: nat, u: nat | 0 <= x < g.n
      ensures multiset(PP[x])[u] == Done(g, D', h, dd', u, x) + PartialPreds(dd', v, part, u, x)
    {
      if u < g.n && u in D[..h] {
        var j :| 0 <= j < h && D[j] == u;
        assert u in D;
        if x == r {
          assert r !in multiset(g.adj[u]);
        }
      }
    }
  }

  lemma DiscoverClosed(g: Graph, D: seq<nat>, h: nat, part: seq<nat>, r: nat)
    requires Valid(g) && InRange(D, g.n) && h < |D|
    requires Closed(g, D, h) && ScanClosed(D, part)
    requires r < g.n
    ensures InRange(D + [r], g.n)
    ensures Closed(g, D + [r], h) && ScanClosed(D + [r], part)
  {
    var D' := D + [r];
    assert InRange(D', g.n);
    forall j | 0 <= j < h ensures D'[j] == D[j] {
    }
  }

  lemma DiscoverFinal(g: Graph, s: nat, D: seq<nat>, h: nat, dd: seq<int>, th: seq<nat>, r: nat)
    requires Basic(g, s, D, dd) && |th| == g.n && h < |D|
    requires Final(g, s, D, h + 1, dd, th)
    requires r < g.n && r !in D
    ensures InRange(D + [r], g.n)
    ensures Final(g, s, D + [r], h + 1, dd[r := dd[D[h]] + 1], th)
  {
    var D' := D + [r];
    assert InRange(D', g.n);
    forall j | 0 <= j < h + 1 ensures D'[j] == D[j] && D[j] != r {
      assert D[j] in D;
    }
  }

  // ----- Counting one edge --------------------------------------------------

  /** The scanned edge v -> r adds v's count to r's when r is one level above v. */
  lemma CountTheta(g: Graph, s: nat, D: seq<nat>, h: nat, dd: seq<int>, th: seq<nat>, th': seq<nat>,
                   v: nat, part: seq<nat>, r: nat)
    requires Valid(g) && s < g.n && |dd| == g.n && InRange(D, g.n) && h <= |D| && v < g.n && r < g.n
    requires ThetaScan(g, s, D, h, dd, th, v, part)
    requires if dd[r] == dd[v] + 1 then th' == th[r := th[r] + th[v]] else th' == th
    ensures ThetaScan(g, s, D, h, dd, th', v, part + [r])
  {
    InRangePrefix(D, h, g.n);
    forall x | 0 <= x < g.n
      ensures th'[x] == Base(s, x) + Arrived(g, s, dd, D[..h], x) + Partial(dd, th', v, part + [r], x)
    {
      PartialStep(dd, th, th', v, part, r, x);
    }
  }

  /** Scanning one more edge, to r, adds th[v] to the partial count of r alone, when r is one level above v. */
  lemma PartialStep(dd: seq<int>, th: seq<nat>, th': seq<nat>, v: nat, part: seq<nat>, r: nat, x: nat)
    requires v < |dd| && x < |dd| && r < |dd| && |th| == |dd|
    requires if dd[r] == dd[v] + 1 then th' == th[r := th[r] + th[v]] else th' == th
    ensures th'[x] == th[x] + (if x == r && dd[r] == dd[v] + 1 then th[v] else 0)
    ensures Partial(dd, th', v, part + [r], x) == Partial(dd, th, v, part, x) + (if x == r && dd[r] == dd[v] + 1 then th[v] else 0)
  {
    assert th'[v] == th[v];
    assert multiset(part + [r])[x] == multiset(part)[x] + (if x == r then 1 else 0);
    if x == r && dd[r] == dd[v] + 1 {
      SuccTimes(multiset(part)[x], th[v]);
    }
  }

  lemma SuccTimes(m: nat, t: nat)
    ensures (m + 1) * t == m * t + t
  {
  }

  lemma CountPreds(g: Graph, D: seq<nat>, h: nat, dd: seq<int>, PP: seq<seq<nat>>, PP': seq<seq<nat>>,
                   v: nat, part: seq<nat>, r: nat)
    requires Valid(g) && |dd| == g.n && InRange(D, g.n) && h <= |D| && v < g.n && r < g.n
    requires PredsScan(g, D, h, dd, PP, v, part)
    requires if dd[r] == dd[v] + 1 then PP' == PP[r := PP[r] + [v]] else PP' == PP
    ensures PredsScan(g, D, h, dd, PP', v, part + [r])
  {
  }

  /** A count that changes belongs to a node above v, so no finished count changes. */
  lemma CountFinal(g: Graph, s: nat, D: seq<nat>, h: nat, dd: seq<int>, th: seq<nat>, th': seq<nat>, r: nat)
    requires Basic(g, s, D, dd) && Sorted(D, dd) && h < |D| && |th| == g.n && r < g.n
    requires Final(g, s, D, h + 1, dd, th)
    requires if dd[r] == dd[D[h]] + 1 then th' == th[r := th[r] + th[D[h]]] else th' == th
    ensures Final(g, s, D, h + 1, dd, th')
  {
    forall j | 0 <= j < h + 1 ensures dd[D[j]] <= dd[D[h]] {
    }
  }

  // ----- Finishing a node ---------------------------------------------------

  /** Once every edge of v == D[h] is scanned, v counts among the finished nodes. */
  lemma EndTheta(g: Graph, s: nat, D: seq<nat>, h: nat, dd: seq<int>, th: seq<nat>)
    requires Basic(g, s, D, dd) && h < |D|
    requires ThetaScan(g, s, D, h, dd, th, D[h], g.adj[D[h]]) && Final(g, s, D, h + 1, dd, th)
    ensures ThetaScan(g, s, D, h + 1, dd, th, s, [])
  {
    var v := D[h];
    InRangePrefix(D, h, g.n);
    InRangePrefix(D, h + 1, g.n);
    assert D[..h + 1][..h] == D[..h];
  }

  lemma EndPreds(g: Graph, s: nat, D: seq<nat>, h: nat, dd: seq<int>, PP: seq<seq<nat>>)
    requires Basic(g, s, D, dd) && h < |D|
    requires PredsScan(g, D, h, dd, PP, D[h], g.adj[D[h]])
    ensures PredsScan(g, D, h + 1, dd, PP, s, [])
  {
    var v := D[h];
    assert D[..h + 1] == D[..h] + [v];
    assert v !in D[..h];
    forall x: nat, u: nat | 0 <= x < g.n
      ensures multiset(PP[x])[u] == Done(g, D, h + 1, dd, u, x) + PartialPreds(dd, s, [], u, x)
    {
      assert (u in D[..h + 1]) <==> (u in D[..h] || u == v);
    }
  }

  lemma EndOrder(g: Graph, s: nat, D: seq<nat>, h: nat, dd: seq<int>)
    requires Basic(g, s, D, dd) && Sorted(D, dd) && h < |D|
    requires Closed(g, D, h) && ScanClosed(D, g.adj[D[h]]) && NearV(D, h, dd, D[h])
    ensures Closed(g, D, h + 1) && Frontier(D, h + 1, dd)
  {
    if h + 1 < |D| {
      assert dd[D[h]] <= dd[D[h + 1]];
    }
  }

  /** The state of Visit after scanning the first i edges of v == D[h]. */
  ghost predicate ScanState(g: Graph, s: nat, D0: seq<nat>, D: seq<nat>, h: nat, v: nat, i: nat,
                            dd: seq<int>, th: seq<nat>, PP: seq<seq<nat>>, Q: seq<nat>)
  {
    ScanShape(g, s, D0, D, h, v, i, dd, th, PP, Q) && ScanCounts(g, s, D, h, v, i, dd, th, PP)
  }

  /** The discovery order, the levels and the queue while v == D[h] is scanned. */
  ghost predicate ScanShape(g: Graph, s: nat, D0: seq<nat>, D: seq<nat>, h: nat, v: nat, i: nat,
                            dd: seq<int>, th: seq<nat>, PP: seq<seq<nat>>, Q: seq<nat>)
  {
    && Discovered(g, s, D, dd) && h < |D| && h < |D0| && D[..h + 1] == D0[..h + 1] && Q == D[h + 1..]
    && D[h] == v && i <= |g.adj[v]| && |th| == g.n && |PP| == g.n
    && NearV(D, h, dd, v) && Closed(g, D, h) && ScanClosed(D, g.adj[v][..i])
  }

  /** The path counts and predecessor lists after the first i edges of v. */
  ghost predicate ScanCounts(g: Graph, s: nat, D: seq<nat>, h: nat, v: nat, i: nat,
                             dd: seq<int>, th: seq<nat>, PP: seq<seq<nat>>)
  {
    && Valid(g) && s < g.n && |dd| == g.n && InRange(D, g.n) && h < |D| && v < g.n && i <= |g.adj[v]| && |th| == g.n
    && ThetaScan(g, s, D, h, dd, th, v, g.adj[v][..i])
    && PredsScan(g, D, h, dd, PP, v, g.adj[v][..i])
    && Final(g, s, D, h + 1, dd, th)
  }

  /** A neighbour r of v seen for the first time is queued, one level above v. */
  method DiscoverNode(g: Graph, s: nat, v: nat, d: array<int>, Q: seq<nat>,
                      ghost D0: seq<nat>, ghost D: seq<nat>, ghost h: nat, i: nat,
                      ghost th: seq<nat>, ghost PP: seq<seq<nat>>)
    returns (Q': seq<nat>, ghost D': seq<nat>)
    requires d.Length == g.n
    requires ScanState(g, s, D0, D, h, v, i, d[..], th, PP, Q) && i < |g.adj[v]| && d[g.adj[v][i]] < 0
    modifies d
    ensures ScanState(g, s, D0, D', h, v, i, d[..], th, PP, Q')
    ensures d[g.adj[v][i]] >= 0
  {
    var r := g.adj[v][i];
    ghost var dd := d[..];
    Q' := Q + [r];
    d[r] := d[v] + 1;
    D' := D + [r];
    DiscoverStep(g, s, D0, D, h, v, i, dd, d[..], th, PP, Q);
  }

  /** The scan state after discovering r == g.adj[v][i], on the values of d. */
  lemma DiscoverStep(g: Graph, s: nat, D0: seq<nat>, D: seq<nat>, h: nat, v: nat, i: nat,
                     dd: seq<int>, dd': seq<int>, th: seq<nat>, PP: seq<seq<nat>>, Q: seq<nat>)
    requires ScanState(g, s, D0, D, h, v, i, dd, th, PP, Q) && i < |g.adj[v]| && dd[g.adj[v][i]] < 0
    requires dd' == dd[g.adj[v][i] := dd[v] + 1]
    ensures ScanState(g, s, D0, D + [g.adj[v][i]], h, v, i, dd', th, PP, Q + [g.adj[v][i]])
  {
    DiscoverShape(g, s, D0, D, h, v, i, dd, dd', th, PP, Q);
    var r := g.adj[v][i];
    DiscoverTheta(g, s, D, h, dd, th, g.adj[v][..i], r);
    DiscoverPreds(g, s, D, h, dd, PP, g.adj[v][..i], r);
    DiscoverFinal(g, s, D, h, dd, th, r);
  }

  lemma DiscoverShape(g: Graph, s: nat, D0: seq<nat>, D: seq<nat>, h: nat, v: nat, i: nat,
                      dd: seq<int>, dd': seq<int>, th: seq<nat>, PP: seq<seq<nat>>, Q: seq<nat>)
    requires ScanShape(g, s, D0, D, h, v, i, dd, th, PP, Q) && i < |g.adj[v]| && dd[g.adj[v][i]] < 0
    requires dd' == dd[g.adj[v][i] := dd[v] + 1]
    ensures ScanShape(g, s, D0, D + [g.adj[v][i]], h, v, i, dd', th, PP, Q + [g.adj[v][i]])
  {
    var r := g.adj[v][i];
    DiscoverMarks(g, s, D, h, dd, r);
    DiscoverSorted(g, s, D, h, dd, r);
    DiscoverLevels(g, s, D, h, dd, r);
    DiscoverClosed(g, D, h, g.adj[v][..i], r);
  }

  /** A neighbour r one level above v adds v's path count to its own and records v. */
  method CountEdge(g: Graph, s: nat, v: nat, d: array<int>, theta: array<nat>, P: array<seq<nat>>,
                   ghost D0: seq<nat>, ghost D: seq<nat>, ghost h: nat, i: nat, ghost Q: seq<nat>)
    requires d.Length == g.n && theta.Length == g.n && P.Length == g.n
    requires ScanState(g, s, D0, D, h, v, i, d[..], theta[..], P[..], Q) && i < |g.adj[v]|
    requires d[g.adj[v][i]] >= 0
    modifies theta, P
    ensures ScanState(g, s, D0, D, h, v, i + 1, d[..], theta[..], P[..], Q)
  {
    var r := g.adj[v][i];
    ghost var dd := d[..];
    ghost var th0 := theta[..];
    ghost var P0 := P[..];
    if d[r] == d[v] + 1 {
      theta[r] := theta[r] + theta[v];
      P[r] := P[r] + [v];
      assert theta[..] == th0[r := th0[r] + th0[v]];
      assert P[..] == P0[r := P0[r] + [v]];
    }
    assert d[..] == dd;
    CountStep(g, s, D0, D, h, v, i, dd, th0, theta[..], P0, P[..], Q);
  }

  /** Counting the edge to an already discovered r moves the scan state past edge i. */
  lemma CountStep(g: Graph, s: nat, D0: seq<nat>, D: seq<nat>, h: nat, v: nat, i: nat,
                  dd: seq<int>, th: seq<nat>, th': seq<nat>, PP: seq<seq<nat>>, PP': seq<seq<nat>>, Q: seq<nat>)
    requires ScanState(g, s, D0, D, h, v, i, dd, th, PP, Q) && i < |g.adj[v]| && dd[g.adj[v][i]] >= 0
    requires var r := g.adj[v][i];
      if dd[r] == dd[v] + 1 then th' == th[r := th[r] + th[v]] && PP' == PP[r := PP[r] + [v]]
      else th' == th && PP' == PP
    ensures ScanState(g, s, D0, D, h, v, i + 1, dd, th', PP', Q)
  {
    var r := g.adj[v][i];
    assert g.adj[v][..i + 1] == g.adj[v][..i] + [r];
    CountTheta(g, s, D, h, dd, th, th', v, g.adj[v][..i], r);
    CountPreds(g, D, h, dd, PP, PP', v, g.adj[v][..i], r);
    CountFinal(g, s, D, h, dd, th, th', r);
  }

  /** Taking v == D[h] off the queue gives the scan state with no edge scanned. */
  lemma BeginScan(g: Graph, s: nat, D: seq<nat>, h: nat, v: nat, dd: seq<int>, th: seq<nat>, PP: seq<seq<nat>>, Q: seq<nat>)
    requires Discovered(g, s, D, dd) && h < |D| && v == D[h] && Frontier(D, h, dd)
    requires Between(g, s, D, h, dd, th, PP)
    requires Q == D[h + 1..]
    ensures ScanState(g, s, D, D, h, v, 0, dd, th, PP, Q)
  {
    Pop(g, s, D, h, dd, th);
    StartScan(g, s, D, h, dd, th, PP);
    assert g.adj[v][..0] == [];
  }

  /** After the last edge of v == D[h], the first h + 1 discovered nodes are finished. */
  lemma FinishScan(g: Graph, s: nat, D0: seq<nat>, D: seq<nat>, h: nat, v: nat, dd: seq<int>, th: seq<nat>, PP: seq<seq<nat>>, Q: seq<nat>)
    requires v < g.n && Valid(g)
    requires ScanState(g, s, D0, D, h, v, |g.adj[v]|, dd, th, PP, Q)
    ensures Discovered(g, s, D, dd) && h < |D| && D[..h + 1] == D0[..h + 1] && Q == D[h + 1..]
    ensures Frontier(D, h + 1, dd) && Between(g, s, D, h + 1, dd, th, PP)
  {
    assert g.adj[v][..|g.adj[v]|] == g.adj[v];
    EndTheta(g, s, D, h, dd, th);
    EndPreds(g, s, D, h, dd, PP);
    EndOrder(g, s, D, h, dd);
  }

  /**
   * Scan the edges of v == D[h] (the inner loop of the search): each
   * neighbour seen for the first time is queued one level above v; each
   * neighbour one level above v adds v's count and gets v as predecessor.
   */
  method Visit(g: Graph, s: nat, v: nat, d: array<int>, theta: array<nat>, P: array<seq<nat>>,
               Q: seq<nat>, ghost D: seq<nat>, ghost h: nat)
    returns (Q': seq<nat>, ghost D': seq<nat>)
    requires d.Length == g.n && theta.Length == g.n && P.Length == g.n
    requires Discovered(g, s, D, d[..]) && h < |D| && v == D[h] && Frontier(D, h, d[..])
    requires Between(g, s, D, h, d[..], theta[..], P[..])
    requires Q == D[h + 1..]
    modifies d, theta, P
    ensures Discovered(g, s, D', d[..]) && h < |D'| && D'[..h + 1] == D[..h + 1] && Q' == D'[h + 1..]
    ensures Frontier(D', h + 1, d[..]) && Between(g, s, D', h + 1, d[..], theta[..], P[..])
  {
    BeginScan(g, s, D, h, v, d[..], theta[..], P[..], Q);
    Q', D' := Q, D;
    var i := 0;
    while i < |g.adj[v]|
      invariant ScanState(g, s, D, D', h, v, i, d[..], theta[..], P[..], Q')
    {
      Q', D' := ScanEdge(g, s, v, d, theta, P, Q', D, D', h, i);
      i := i + 1;
    }
    FinishScan(g, s, D, D', h, v, d[..], theta[..], P[..], Q');
  }

  /** One turn of the edge loop of v: discover the neighbour if it is new, then count the edge. */
  method ScanEdge(g: Graph, s: nat, v: nat, d: array<int>, theta: array<nat>, P: array<seq<nat>>,
                  Q: seq<nat>, ghost D0: seq<nat>, ghost D: seq<nat>, ghost h: nat, i: nat)
    returns (Q': seq<nat>, ghost D': seq<nat>)
    requires d.Length == g.n && theta.Length == g.n && P.Length == g.n
    requires ScanState(g, s, D0, D, h, v, i, d[..], theta[..], P[..], Q) && i < |g.adj[v]|
    modifies d, theta, P
    ensures ScanState(g, s, D0, D', h, v, i + 1, d[..], theta[..], P[..], Q')
  {
    Q', D' := Q, D;
    if d[g.adj[v][i]] < 0 {
      Q', D' := DiscoverNode(g, s, v, d, Q, D0, D, h, i, theta[..], P[..]);
    }
    CountEdge(g, s, v, d, theta, P, D0, D', h, i, Q');
  }

  // ----- The whole search ---------------------------------------------------

  /** Before the search only the source is discovered, with path count 1. */
  lemma Start(g: Graph, s: nat, dd: seq<int>, th: seq<nat>, PP: seq<seq<nat>>)
    requires Valid(g) && s < g.n && |dd| == g.n && |th| == g.n && |PP| == g.n
    requires forall y :: 0 <= y < g.n ==> dd[y] == (if y == s then 0 else -1)
    requires forall y :: 0 <= y < g.n ==> th[y] == Base(s, y) && PP[y] == []
    ensures Discovered(g, s, [s], dd) && Frontier([s], 0, dd) && Between(g, s, [s], 0, dd, th, PP)
  {
    assert [s][..0] == [];
  }

  /** With every discovered node finished, the undiscovered nodes are unreachable. */
  lemma Unreached(g: Graph, s: nat, D: seq<nat>, dd: seq<int>, v: nat, k: nat)
    requires Basic(g, s, D, dd) && Closed(g, D, |D|)
    requires v !in D
    ensures !Within(g, s, k, v)
  {
    var X := set y | y in D;
    forall u, z | u in X && u < g.n && z in g.adj[u] ensures z in X {
      var i :| 0 <= i < |D| && D[i] == u;
    }
    if Within(g, s, k, v) {
      ClosedHoldsWithin(g, s, X, k, v);
    }
  }

  lemma ConcludeDist(g: Graph, s: nat, D: seq<nat>, dd: seq<int>, v: nat)
    requires Discovered(g, s, D, dd) && Closed(g, D, |D|) && v < g.n
    ensures dd[v] == Dist(g, s, v)
    ensures dd[v] < 0 ==> dd[v] == -1 && forall k :: !Within(g, s, k, v)
  {
    if dd[v] >= 0 {
      var i :| 0 <= i < |D| && D[i] == v;
      DistinctBound(D, g.n);
      DistIs(g, s, v, dd[v]);
    } else {
      forall k | true ensures !Within(g, s, k, v) {
        Unreached(g, s, D, dd, v, k);
      }
      DistNone(g, s, v);
    }
  }

  lemma ConcludeTheta(g: Graph, s: nat, D: seq<nat>, dd: seq<int>, th: seq<nat>, PP: seq<seq<nat>>, v: nat)
    requires Discovered(g, s, D, dd) && Between(g, s, D, |D|, dd, th, PP) && v < g.n
    ensures th[v] == if dd[v] >= 0 then Walks(g, s, dd[v], v) else 0
    ensures dd[v] >= 0 ==> th[v] >= 1
  {
    if dd[v] >= 0 {
      var i :| 0 <= i < |D| && D[i] == v;
      WalksPositive(g, s, dd[v], v);
    } else {
      assert D[..|D|] == D;
      forall i | 0 <= i < |D| ensures ArrTerm(g, s, dd, D[i], v) == 0 {
      }
      ArrivedZero(g, s, dd, D, v);
    }
  }

  lemma ConcludePreds(g: Graph, s: nat, D: seq<nat>, dd: seq<int>, th: seq<nat>, PP: seq<seq<nat>>)
    requires Discovered(g, s, D, dd) && Between(g, s, D, |D|, dd, th, PP)
    ensures forall x: nat, u: nat :: 0 <= x < g.n ==>
      multiset(PP[x])[u] == if u < g.n && dd[u] >= 0 && dd[u] + 1 == dd[x] then EdgeCount(g, u, x) else 0
  {
    assert D[..|D|] == D;
  }

  /**
   * The distances a search from s yields: the hop distance of every node,
   * -1 exactly for the nodes that are not reachable.
   */
  ghost predicate DistanceResult(g: Graph, s: nat, dist: seq<int>)
  {
    && Valid(g) && s < g.n && |dist| == g.n
    && (forall v :: 0 <= v < g.n ==> dist[v] == Dist(g, s, v))
    && (forall v :: 0 <= v < g.n && dist[v] >= 0 ==>
          Within(g, s, dist[v], v) && (dist[v] > 0 ==> !Within(g, s, dist[v] - 1, v)))
    && (forall v :: 0 <= v < g.n && dist[v] < 0 ==> dist[v] == -1 && forall k :: !Within(g, s, k, v))
  }

  /** The path counts: the number of shortest paths to a reachable node (at least 1), else 0. */
  ghost predicate CountResult(g: Graph, s: nat, dist: seq<int>, sigma: seq<nat>)
  {
    && Valid(g) && s < g.n && |dist| == g.n && |sigma| == g.n
    && (forall v :: 0 <= v < g.n ==> sigma[v] == if dist[v] >= 0 then Walks(g, s, dist[v], v) else 0)
    && (forall v :: 0 <= v < g.n && dist[v] >= 0 ==> sigma[v] >= 1)
  }

  /** The predecessor lists: for every node x, each node one level below x once per edge into x. */
  ghost predicate PredResult(g: Graph, dist: seq<int>, preds: seq<seq<nat>>)
  {
    && Valid(g) && |dist| == g.n && |preds| == g.n
    && (forall x: nat, u: nat :: 0 <= x < g.n ==>
          multiset(preds[x])[u] == if u < g.n && dist[u] >= 0 && dist[u] + 1 == dist[x] then EdgeCount(g, u, x) else 0)
  }

  /** The order of the stack: the reachable nodes, each once, the source first, by non-decreasing distance. */
  ghost predicate OrderResult(g: Graph, s: nat, dist: seq<int>, order: seq<nat>)
  {
    && |dist| == g.n
    && |order| >= 1 && order[0] == s && Distinct(order) && InRange(order, g.n)
    && (forall v :: 0 <= v < g.n ==> (v in order <==> dist[v] >= 0))
    && (forall i, j :: 0 <= i <= j < |order| ==> dist[order[i]] <= dist[order[j]])
  }

  /** Everything one search from s yields. */
  ghost predicate SearchResult(g: Graph, s: nat, dist: seq<int>, sigma: seq<nat>, preds: seq<seq<nat>>, order: seq<nat>)
  {
    && DistanceResult(g, s, dist) && CountResult(g, s, dist, sigma)
    && PredResult(g, dist, preds) && OrderResult(g, s, dist, order)
  }

  /** The final state of the search, read as distances, counts, predecessors and order. */
  lemma Conclude(g: Graph, s: nat, order: seq<nat>, dist: seq<int>, sigma: seq<nat>, preds: seq<seq<nat>>)
    requires Discovered(g, s, order, dist) && Between(g, s, order, |order|, dist, sigma, preds)
    ensures SearchResult(g, s, dist, sigma, preds, order)
  {
    forall v | 0 <= v < g.n
      ensures dist[v] == Dist(g, s, v)
      ensures dist[v] < 0 ==> dist[v] == -1 && forall k :: !Within(g, s, k, v)
      ensures sigma[v] == if dist[v] >= 0 then Walks(g, s, dist[v], v) else 0
      ensures dist[v] >= 0 ==> sigma[v] >= 1
    {
      ConcludeDist(g, s, order, dist, v);
      ConcludeTheta(g, s, order, dist, sigma, preds, v);
    }
    ConcludePreds(g, s, order, dist, sigma, preds);
  }

  /**
   * The main loop of the search: take the head of the queue, push it on S
   * and scan its edges, until the queue is empty.
   */
  method Explore(g: Graph, s: nat, d: array<int>, theta: array<nat>, P: array<seq<nat>>) returns (S: seq<nat>)
    requires d.Length == g.n && theta.Length == g.n && P.Length == g.n
    requires Discovered(g, s, [s], d[..]) && Frontier([s], 0, d[..]) && Between(g, s, [s], 0, d[..], theta[..], P[..])
    modifies d, theta, P
    ensures Discovered(g, s, S, d[..]) && Between(g, s, S, |S|, d[..], theta[..], P[..])
  {
    var n := g.n;
    S := [];
    var Q: seq<nat> := [s];
    ghost var D: seq<nat> := [s];
    while Q != []
      invariant Discovered(g, s, D, d[..]) && |D| <= n
      invariant |S| <= |D| && S == D[..|S|] && Q == D[|S|..]
      invariant Frontier(D, |S|, d[..]) && Between(g, s, D, |S|, d[..], theta[..], P[..])
      decreases n - |S|
    {
      S, Q, D := Dequeue(g, s, d, theta, P, S, Q, D);
    }
    assert S == D;
  }

  /** One round of the main loop: v leaves the queue for S and its edges are scanned. */
  method Dequeue(g: Graph, s: nat, d: array<int>, theta: array<nat>, P: array<seq<nat>>,
                 S: seq<nat>, Q: seq<nat>, ghost D: seq<nat>)
    returns (S': seq<nat>, Q': seq<nat>, ghost D': seq<nat>)
    requires d.Length == g.n && theta.Length == g.n && P.Length == g.n
    requires Discovered(g, s, D, d[..]) && |S| < |D| && S == D[..|S|] && Q == D[|S|..]
    requires Frontier(D, |S|, d[..]) && Between(g, s, D, |S|, d[..], theta[..], P[..])
    modifies d, theta, P
    ensures Discovered(g, s, D', d[..]) && |D'| <= g.n
    ensures S' == S + [D[|S|]] && |S'| <= |D'| && S' == D'[..|S'|] && Q' == D'[|S'|..]
    ensures Frontier(D', |S'|, d[..]) && Between(g, s, D', |S'|, d[..], theta[..], P[..])
  {
    var v := Q[0];
    ghost var h := |S|;
    assert v == D[h];
    S' := S + [v];
    assert S' == D[..h + 1] && Q[1..] == D[h + 1..];
    Q', D' := Visit(g, s, v, d, theta, P, Q[1..], D, h);
    DistinctBound(D', g.n);
  }

  /**
   * The search from s (GraphDistance.execute, one source): d holds the hop
   * distance of every node (-1 when unreachable), theta the number of
   * shortest paths to it, P[x] each node one level below x once per edge
   * into x, and S the nodes in the order they left the queue.
   */
  method Search(g: Graph, s: nat) returns (dist: seq<int>, sigma: seq<nat>, preds: seq<seq<nat>>, order: seq<nat>)
    requires Valid(g) && s < g.n
    ensures SearchResult(g, s, dist, sigma, preds, order)
  {
    var n := g.n;
    var P := new seq<nat>[n](_ => []);
    var theta := new nat[n](_ => 0);
    var d := new int[n](_ => -1);
    theta[s] := 1;
    d[s] := 0;
    Start(g, s, d[..], theta[..], P[..]);
    var S := Explore(g, s, d, theta, P);
    dist, sigma, preds, order := d[..], theta[..], P[..], S;
    Conclude(g, s, order, dist, sigma, preds);
  }
}
