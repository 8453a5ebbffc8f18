/**
 The shortest-path computation of the link-state daemon: an array Dijkstra with unit weights,
 run from node 0, and the walk along the predecessors to the first hop.
 */
module MospfSpf {
  import opened Basics
  import opened Walks

  /** n * n must be a C int, because the adjacency matrix is allocated with that size. */
  const MAX_NODES := 46340

  /** adj relates only the nodes 0 .. n-1. */
  ghost predicate Within(n: nat, adj: (int, int) -> bool) {
    forall i, j | adj(i, j) :: 0 <= i < n && 0 <= j < n
  }

  /** What the finished arrays say: distances, unreachable nodes, and predecessors one hop closer. */
  ghost predicate ShortestPathTree(n: nat, adj: (int, int) -> bool, dist: seq<int>, prev: seq<int>) {
    && |dist| == n && |prev| == n && n > 0 && dist[0] == 0
    && (forall i | 0 <= i < n :: dist[i] == INT_MAX <==> !Reachable<int>(adj, 0, i))
    && (forall i | 0 <= i < n && dist[i] != INT_MAX :: 0 <= dist[i] < n && IsDistance<int>(adj, 0, i, dist[i]))
    && (forall i | 0 <= i < n :: prev[i] == -1 <==> i == 0 || dist[i] == INT_MAX)
    && (forall i | 0 < i < n && dist[i] != INT_MAX ::
          0 <= prev[i] < n && adj(prev[i], i) && dist[prev[i]] + 1 == dist[i])
  }

  /** Distances found so far, none larger than the number of nodes done. */
  ghost predicate Levels(n: nat, done: set<int>, dist: seq<int>) {
    && |dist| == n && 0 < n <= MAX_NODES && dist[0] == 0
    && (forall u | u in done :: 0 <= u < n && dist[u] < |done|)
    && (forall i | 0 <= i < n && dist[i] != INT_MAX :: 0 <= dist[i] <= |done|)
  }

  /** Every node found has a predecessor that is done, adjacent and one hop closer. */
  ghost predicate Preds(n: nat, adj: (int, int) -> bool, done: set<int>, dist: seq<int>, prev: seq<int>) {
    && |dist| == n && |prev| == n
    && (forall i | 0 <= i < n :: prev[i] == -1 <==> i == 0 || dist[i] == INT_MAX)
    && (forall i | 0 < i < n && dist[i] != INT_MAX ::
          prev[i] in done && 0 <= prev[i] < n && adj(prev[i], i) && dist[prev[i]] + 1 == dist[i])
  }

  /** No node that is done is farther than one that is not. */
  ghost predicate Frontier(n: nat, done: set<int>, dist: seq<int>) {
    |dist| == n && forall u, v | u in done && 0 <= u < n && 0 <= v < n && v !in done :: dist[u] <= dist[v]
  }

  /** Every edge out of a node that is done has been taken into account. */
  ghost predicate EdgesDone(n: nat, adj: (int, int) -> bool, done: set<int>, dist: seq<int>) {
    |dist| == n && forall u, v | u in done && 0 <= u < n && 0 <= v < n && adj(u, v) :: dist[v] <= dist[u] + 1
  }

  /** The state between two rounds, with the visited nodes done. */
  ghost predicate SpfInv(n: nat, adj: (int, int) -> bool, done: set<int>, dist: seq<int>, prev: seq<int>) {
    Levels(n, done, dist) && Preds(n, adj, done, dist, prev) && Frontier(n, done, dist) && EdgesDone(n, adj, done, dist)
  }

  /** The tentative distance of v after relaxing the edges of u. */
  predicate Relaxes(adj: (int, int) -> bool, done: set<int>, dist: seq<int>, u: int, v: int)
    requires 0 <= u < |dist| && 0 <= v < |dist|
  {
    adj(u, v) && v !in done && v != u && dist[v] > dist[u] + 1
  }

  ghost predicate Relaxed(adj: (int, int) -> bool, done: set<int>, dist: seq<int>, prev: seq<int>, u: int,
                          dist': seq<int>, prev': seq<int>)
    requires |dist| == |prev| && 0 <= u < |dist|
  {
    && |dist'| == |dist| && |prev'| == |prev|
    && forall v | 0 <= v < |dist| ::
         && dist'[v] == (if Relaxes(adj, done, dist, u, v) then dist[u] + 1 else dist[v])
         && prev'[v] == (if Relaxes(adj, done, dist, u, v) then u else prev[v])
  }

  /** u is a nearest node not yet done. */
  ghost predicate Nearest(done: set<int>, dist: seq<int>, u: int) {
    && 0 <= u < |dist| && u !in done && dist[u] != INT_MAX
    && forall i | 0 <= i < |dist| && i !in done :: dist[u] <= dist[i]
  }

  ghost function Range(n: nat): (r: set<int>)
    ensures |r| == n && forall i :: i in r <==> 0 <= i < n
  {
    if n == 0 then {} else Range(n - 1) + {n - 1}
  }

  lemma WithinBounds(n: nat, done: set<int>)
    requires forall u | u in done :: 0 <= u < n
    ensures |done| <= n
    ensures |done| == n ==> forall i | 0 <= i < n :: i in done
  {
    var all := Range(n);
    assert all == done + (all - done);
  }

  lemma RelaxLevels(n: nat, adj: (int, int) -> bool, done: set<int>, dist: seq<int>, prev: seq<int>, u: int,
                    dist': seq<int>, prev': seq<int>)
    requires SpfInv(n, adj, done, dist, prev) && Nearest(done, dist, u)
    requires Relaxed(adj, done, dist, prev, u, dist', prev')
    ensures Levels(n, done + {u}, dist')
  {
    hide Preds, Frontier, EdgesDone;
    WithinBounds(n, done);
    assert |done + {u}| == |done| + 1;
  }

  lemma RelaxPreds(n: nat, adj: (int, int) -> bool, done: set<int>, dist: seq<int>, prev: seq<int>, u: int,
                   dist': seq<int>, prev': seq<int>)
    requires SpfInv(n, adj, done, dist, prev) && Nearest(done, dist, u)
    requires Relaxed(adj, done, dist, prev, u, dist', prev')
    ensures Preds(n, adj, done + {u}, dist', prev')
  {
    hide Frontier, EdgesDone;
    WithinBounds(n, done);
    forall i | 0 <= i < n && (i in done || i == u) ensures dist'[i] == dist[i] {}
    forall i | 0 < i < n && dist'[i] != INT_MAX
      ensures prev'[i] in done + {u} && 0 <= prev'[i] < n && adj(prev'[i], i) && dist'[prev'[i]] + 1 == dist'[i]
    {}
  }

  lemma RelaxFrontier(n: nat, adj: (int, int) -> bool, done: set<int>, dist: seq<int>, prev: seq<int>, u: int,
                      dist': seq<int>, prev': seq<int>)
    requires SpfInv(n, adj, done, dist, prev) && Nearest(done, dist, u)
    requires Relaxed(adj, done, dist, prev, u, dist', prev')
    ensures Frontier(n, done + {u}, dist') && EdgesDone(n, adj, done + {u}, dist')
  {
    hide Preds;
    forall i | 0 <= i < n && (i in done || i == u) ensures dist'[i] == dist[i] {}
  }

  /** Visiting a nearest node and relaxing its edges keeps the invariant. */
  lemma RelaxKeeps(n: nat, adj: (int, int) -> bool, done: set<int>, dist: seq<int>, prev: seq<int>, u: int,
                   dist': seq<int>, prev': seq<int>)
    requires SpfInv(n, adj, done, dist, prev) && Nearest(done, dist, u)
    requires Relaxed(adj, done, dist, prev, u, dist', prev')
    ensures SpfInv(n, adj, done + {u}, dist', prev')
  {
    hide Levels, Preds, Frontier, EdgesDone, Relaxed;
    RelaxLevels(n, adj, done, dist, prev, u, dist', prev');
    RelaxPreds(n, adj, done, dist, prev, u, dist', prev');
    RelaxFrontier(n, adj, done, dist, prev, u, dist', prev');
  }

  // ---------------------------------------------------------------------
  // What the invariant means in the end
  // ---------------------------------------------------------------------

  /** Every node that is not done is unreachable so far. */
  ghost predicate Exhausted(n: nat, done: set<int>, dist: seq<int>)
    requires |dist| == n
  {
    forall i | 0 <= i < n && i !in done :: dist[i] == INT_MAX
  }

  lemma {:induction false} WalkBound(n: nat, adj: (int, int) -> bool, done: set<int>, dist: seq<int>, prev: seq<int>,
                                     i: int, d: nat)
    requires Within(n, adj) && SpfInv(n, adj, done, dist, prev) && Exhausted(n, done, dist)
    requires Hops<int>(adj, 0, i, d)
    ensures 0 <= i < n && i in done && dist[i] <= d
    decreases d
  {
    WithinBounds(n, done);
    hide Preds, Frontier, IsDistance;
    if d > 0 {
      var c := LastHop<int>(adj, 0, i, d);
      WalkBound(n, adj, done, dist, prev, c, d - 1);
    }
  }

  lemma {:induction false} PrevWalk(n: nat, adj: (int, int) -> bool, done: set<int>, dist: seq<int>, prev: seq<int>,
                                    i: int)
    requires SpfInv(n, adj, done, dist, prev) && 0 <= i < n && dist[i] != INT_MAX
    ensures dist[i] >= 0 && Hops<int>(adj, 0, i, dist[i])
    decreases dist[i]
  {
    WithinBounds(n, done);
    if i != 0 {
      PrevWalk(n, adj, done, dist, prev, prev[i]);
    }
  }

  lemma Finished(n: nat, adj: (int, int) -> bool, done: set<int>, dist: seq<int>, prev: seq<int>)
    requires Within(n, adj) && SpfInv(n, adj, done, dist, prev) && Exhausted(n, done, dist)
    ensures ShortestPathTree(n, adj, dist, prev)
  {
    hide Hops;
    WithinBounds(n, done);
    forall i | 0 <= i < n
      ensures dist[i] == INT_MAX <==> !Reachable<int>(adj, 0, i)
      ensures dist[i] != INT_MAX ==> 0 <= dist[i] < n && IsDistance<int>(adj, 0, i, dist[i])
    {
      if dist[i] != INT_MAX { PrevWalk(n, adj, done, dist, prev, i); }
      forall d: nat | Hops<int>(adj, 0, i, d) ensures dist[i] != INT_MAX && dist[i] <= d {
        WalkBound(n, adj, done, dist, prev, i, d);
      }
    }
  }

  // ---------------------------------------------------------------------
  // The algorithm
  // ---------------------------------------------------------------------

  /** The first unvisited node of least finite distance, or -1. */
  method SelectNearest(dist: array<int>, visited: array<bool>) returns (u: int)
    requires dist.Length == visited.Length
    ensures -1 <= u < dist.Length
    ensures u == -1 ==> forall i | 0 <= i < dist.Length :: visited[i] || dist[i] == INT_MAX
    ensures u >= 0 ==> !visited[u] && dist[u] != INT_MAX
    ensures u >= 0 ==> forall i | 0 <= i < dist.Length && !visited[i] && dist[i] != INT_MAX :: dist[u] <= dist[i]
    ensures forall i | 0 <= i < u && !visited[i] && dist[i] != INT_MAX :: dist[u] < dist[i]
  {
    u := -1;
    for i := 0 to dist.Length
      invariant -1 <= u < i
      invariant u == -1 ==> forall k | 0 <= k < i :: visited[k] || dist[k] == INT_MAX
      invariant u >= 0 ==> !visited[u] && dist[u] != INT_MAX
      invariant u >= 0 ==> forall k | 0 <= k < i && !visited[k] && dist[k] != INT_MAX :: dist[u] <= dist[k]
      invariant forall k | 0 <= k < u && !visited[k] && dist[k] != INT_MAX :: dist[u] < dist[k]
    {
      if visited[i] || dist[i] == INT_MAX { continue; }
      if u < 0 || dist[i] < dist[u] {
        u := i;
      }
    }
  }

  lemma SpfStart(n: nat, adj: (int, int) -> bool, dist: seq<int>, prev: seq<int>)
    requires 0 < n <= MAX_NODES && |dist| == n && |prev| == n
    requires dist[0] == 0 && forall i | 0 < i < n :: dist[i] == INT_MAX
    requires forall i | 0 <= i < n :: prev[i] == -1
    ensures SpfInv(n, adj, {}, dist, prev)
  {}

  lemma SpfDist(n: nat, adj: (int, int) -> bool, done: set<int>, dist: seq<int>, prev: seq<int>, u: int)
    requires SpfInv(n, adj, done, dist, prev) && 0 <= u < n && dist[u] != INT_MAX
    requires forall i | 0 <= i < n && i !in done && dist[i] != INT_MAX :: dist[u] <= dist[i]
    ensures forall i | 0 <= i < n && i !in done :: dist[u] <= dist[i]
    ensures 0 <= dist[u] < INT_MAX
  {
    hide Preds, Frontier, EdgesDone;
    WithinBounds(n, done);
  }

  method RelaxEdges(n: nat, graph: array2<bool>, dist: array<int>, prev: array<int>, visited: array<bool>, u: int,
                    ghost adj: (int, int) -> bool, ghost done: set<int>)
    requires graph.Length0 == n && graph.Length1 == n
    requires dist.Length == n && prev.Length == n && visited.Length == n && dist != prev
    requires 0 <= u < n && dist[u] < INT_MAX
    requires forall i, j | 0 <= i < n && 0 <= j < n :: graph[i, j] <==> adj(i, j)
    requires forall i | 0 <= i < n :: visited[i] <==> i in done || i == u
    modifies dist, prev
    ensures Relaxed(adj, done, old(dist[..]), old(prev[..]), u, dist[..], prev[..])
  {
    ghost var d0, p0 := dist[..], prev[..];
    for v := 0 to n
      invariant forall k | 0 <= k < v ::
        && dist[k] == (if Relaxes(adj, done, d0, u, k) then d0[u] + 1 else d0[k])
        && prev[k] == (if Relaxes(adj, done, d0, u, k) then u else p0[k])
      invariant forall k | v <= k < n :: dist[k] == d0[k] && prev[k] == p0[k]
      invariant dist[u] == d0[u]
    {
      if !graph[u, v] || visited[v] { continue; }
      if dist[v] > dist[u] + 1 {
        dist[v] := dist[u] + 1;
        prev[v] := u;
      }
    }
  }

  /** Distances and predecessors from node 0. */
  method Dijkstra(n: nat, graph: array2<bool>, ghost adj: (int, int) -> bool)
    returns (dist: array<int>, prev: array<int>)
    requires 0 < n <= MAX_NODES && graph.Length0 == n && graph.Length1 == n && Within(n, adj)
    requires forall i, j | 0 <= i < n && 0 <= j < n :: graph[i, j] <==> adj(i, j)
    ensures fresh(dist) && fresh(prev)
    ensures ShortestPathTree(n, adj, dist[..], prev[..])
  {
    hide Levels, Preds, Frontier, EdgesDone, SpfInv, ShortestPathTree, Relaxed;
    dist := new int[n](_ => INT_MAX);
    prev := new int[n](_ => -1);
    var visited := new bool[n](_ => false);
    dist[0] := 0;
    ghost var done: set<int> := {};
    SpfStart(n, adj, dist[..], prev[..]);
    for round := 0 to n
      invariant fresh(dist) && fresh(prev) && fresh(visited) && dist != prev
      invariant SpfInv(n, adj, done, dist[..], prev[..])
      invariant |done| == round
      invariant forall i | i in done :: 0 <= i < n
      invariant forall i | 0 <= i < n :: visited[i] <==> i in done
    {
      var u := SelectNearest(dist, visited);
      if u < 0 { break; }
      SpfDist(n, adj, done, dist[..], prev[..], u);
      visited[u] := true;
      ghost var d0, p0 := dist[..], prev[..];
      RelaxEdges(n, graph, dist, prev, visited, u, adj, done);
      RelaxKeeps(n, adj, done, d0, p0, u, dist[..], prev[..]);
      done := done + {u};
    }
    WithinBounds(n, done);
    assert Exhausted(n, done, dist[..]);
    Finished(n, adj, done, dist[..], prev[..]);
  }

  /** One step towards node 0 along the predecessors. */
  lemma PrevStep(n: nat, adj: (int, int) -> bool, dist: seq<int>, prev: seq<int>, i: int)
    requires n <= MAX_NODES && ShortestPathTree(n, adj, dist, prev) && 0 < i < n && dist[i] != INT_MAX
    ensures prev[i] != -1 && 0 <= prev[i] < n && adj(prev[i], i)
    ensures dist[prev[i]] != INT_MAX && 0 <= dist[prev[i]] && dist[prev[i]] + 1 == dist[i]
    ensures Hops<int>(adj, prev[i], i, 1)
  {
    assert dist[prev[i]] < INT_MAX;
    HopOne<int>(adj, prev[i], i);
  }

  lemma TreeShape(n: nat, adj: (int, int) -> bool, dist: seq<int>, prev: seq<int>)
    requires ShortestPathTree(n, adj, dist, prev)
    ensures |dist| == n && |prev| == n && n > 0 && dist[0] == 0
  {}

  /** The neighbour of node 0 through which the predecessor chain of i leaves it. */
  method FirstHop(n: nat, prev: array<int>, i: nat, ghost adj: (int, int) -> bool, ghost dist: seq<int>)
    returns (hop: nat)
    requires n <= MAX_NODES && prev.Length == n && |dist| == n
    requires ShortestPathTree(n, adj, dist, prev[..]) && 0 < i < n && dist[i] != INT_MAX
    ensures 0 < hop < n && adj(0, hop) && dist[i] >= 1
    ensures Hops<int>(adj, hop, i, dist[i] - 1)
  {
    hide Hops, ShortestPathTree;
    TreeShape(n, adj, dist, prev[..]);
    hop := i;
    NoHops<int>(adj, i, i);
    PrevStep(n, adj, dist, prev[..], hop);
    while prev[hop] != 0 && prev[hop] != -1
      invariant 0 < hop < n && dist[hop] != INT_MAX && 0 < dist[hop] <= dist[i]
      invariant Hops<int>(adj, hop, i, dist[i] - dist[hop])
      decreases dist[hop]
    {
      var p := prev[hop];
      PrevStep(n, adj, dist, prev[..], hop);
      HopsConcat<int>(adj, p, hop, i, 1, dist[i] - dist[hop]);
      hop := p;
      PrevStep(n, adj, dist, prev[..], hop);
    }
    PrevStep(n, adj, dist, prev[..], hop);
  }
}
