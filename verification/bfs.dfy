/** Breadth-first search levels and the bipartiteness test built on them.
    The search walks the same neighbour lists as the scheduler (`otherEnd` of
    each edge in `u.adj`), writing the level into the vertex's `d` field. */
module Bipartite {
  import opened Networks
  import TopoSort

  /** `v`, a neighbour of `x`, is seen and, if the current search found it,
      sits at most one level below `x`. */
  ghost predicate Done(seen: seq<bool>, d: seq<int>, q: seq<int>, x: int, v: int)
  {
    0 <= x < |d| && 0 <= v < |d| && |seen| == |d| && seen[v] && (v in q ==> d[v] <= d[x] + 1)
  }

  /** `q` lists distinct vertices, starting with `src`; `q[par[i]]` is the
      earlier vertex whose scan enqueued `q[i]`, one level above it. */
  ghost predicate QueueOk(net: Network, src: int, d: seq<int>, q: seq<int>, par: seq<int>)
    requires WellFormed(net)
  {
    && |d| == net.n + 1 && |q| >= 1 && q[0] == src && |par| == |q|
    && (forall i :: 0 <= i < |q| ==> IsNode(net, q[i]))
    && (forall i, j :: 0 <= i < j < |q| ==> q[i] != q[j])
    && (forall i {:trigger par[i]} :: 1 <= i < |q| ==>
          0 <= par[i] < i && q[i] in net.succ[q[par[i]]] && d[q[i]] == d[q[par[i]]] + 1)
  }

  /** The seen vertices are those seen before the search and those it enqueued;
      apart from `src`, it enqueued only vertices not seen before. */
  ghost predicate SeenOk(net: Network, seen0: seq<bool>, seen: seq<bool>, q: seq<int>)
    requires WellFormed(net)
  {
    && |seen0| == net.n + 1 && |seen| == net.n + 1
    && (forall x :: IsNode(net, x) ==> (seen[x] <==> seen0[x] || x in q))
    && (forall i :: 1 <= i < |q| ==> 0 <= q[i] < |seen0| && !seen0[q[i]])
  }

  /** Levels: untouched outside `q`, 0 at `src`, non-decreasing along `q`, and
      no entry more than one level beyond the head `q[h]`. */
  ghost predicate LevelsOk(net: Network, src: int, d0: seq<int>, d: seq<int>, q: seq<int>, h: int)
    requires WellFormed(net)
  {
    && |d0| == net.n + 1 && |d| == net.n + 1 && 0 <= h <= |q| && |q| >= 1 && q[0] == src
    && (forall i :: 0 <= i < |q| ==> 0 <= q[i] < |d|)
    && (forall x :: IsNode(net, x) && x !in q ==> d[x] == d0[x])
    && d[src] == 0
    && (forall i, j :: 0 <= i <= j < |q| ==> d[q[i]] <= d[q[j]])
    && (h < |q| ==> forall i :: 0 <= i < |q| ==> d[q[i]] <= d[q[h]] + 1)
  }

  /** Every neighbour of the vertices before the head is settled. */
  ghost predicate ScannedOk(net: Network, seen: seq<bool>, d: seq<int>, q: seq<int>, h: int)
    requires WellFormed(net)
  {
    && 0 <= h <= |q| && (forall i :: 0 <= i < |q| ==> IsNode(net, q[i]))
    && (forall j, k :: 0 <= j < h && 0 <= k < |net.succ[q[j]]| ==> Done(seen, d, q, q[j], net.succ[q[j]][k]))
  }

  /** What holds each time the head of the queue is at `h`: `q` lists, in
      order, every vertex the search has enqueued (the queue is `q[h..]`). */
  ghost predicate BfsInv(net: Network, seen0: seq<bool>, d0: seq<int>, src: int,
                         seen: seq<bool>, d: seq<int>, q: seq<int>, par: seq<int>, h: int)
    requires WellFormed(net)
  {
    && QueueOk(net, src, d, q, par) && SeenOk(net, seen0, seen, q)
    && LevelsOk(net, src, d0, d, q, h) && ScannedOk(net, seen, d, q, h)
  }

  /** A queue of distinct vertices is no longer than the graph. */
  lemma QueueBound(net: Network, q: seq<int>)
    requires WellFormed(net)
    requires forall i :: 0 <= i < |q| ==> IsNode(net, q[i])
    requires forall i, j :: 0 <= i < j < |q| ==> q[i] != q[j]
    ensures |q| <= net.n
  {
    TopoSort.DistinctCard(q);
    var all := TopoSort.UpTo(net.n);
    forall x | x in q
      ensures x in all
    {
      var i :| 0 <= i < |q| && q[i] == x;
    }
    var listed := set x | x in q;
    SubsetCard(listed, all);
  }

  lemma SubsetCard(a: set<int>, b: set<int>)
    requires a <= b
    ensures |a| <= |b|
  {
    assert b == a + (b - a);
    assert a * (b - a) == {};
  }

  lemma EnqueueQueue(net: Network, src: int, d: seq<int>, q: seq<int>, par: seq<int>, h: int, v: int)
    requires WellFormed(net) && QueueOk(net, src, d, q, par) && 0 <= h < |q|
    requires v in net.succ[q[h]] && v !in q
    ensures QueueOk(net, src, d[v := d[q[h]] + 1], q + [v], par + [h])
  {
    var d', q', par' := d[v := d[q[h]] + 1], q + [v], par + [h];
    forall i | 1 <= i < |q'|
      ensures 0 <= par'[i] < i && q'[i] in net.succ[q'[par'[i]]] && d'[q'[i]] == d'[q'[par'[i]]] + 1
    {
      if i < |q| {
        assert par'[i] == par[i];
      }
    }
  }

  lemma EnqueueSeen(net: Network, seen0: seq<bool>, seen: seq<bool>, q: seq<int>, v: int)
    requires WellFormed(net) && SeenOk(net, seen0, seen, q) && IsNode(net, v) && !seen[v]
    ensures v !in q
    ensures SeenOk(net, seen0, seen[v := true], q + [v])
  {
  }

  lemma EnqueueLevels(net: Network, src: int, d0: seq<int>, d: seq<int>, q: seq<int>, h: int, v: int)
    requires WellFormed(net) && LevelsOk(net, src, d0, d, q, h) && h < |q| && IsNode(net, v) && v !in q
    ensures LevelsOk(net, src, d0, d[v := d[q[h]] + 1], q + [v], h)
  {
    var d', q' := d[v := d[q[h]] + 1], q + [v];
    forall i | 0 <= i < |q|
      ensures d'[q'[i]] == d[q[i]]
    {
    }
    forall i, j | 0 <= i <= j < |q'|
      ensures d'[q'[i]] <= d'[q'[j]]
    {
      if j == |q| && i < |q| {
        assert d[q[i]] <= d[q[h]] + 1;
      }
    }
  }

  lemma EnqueueScanned(net: Network, seen: seq<bool>, d: seq<int>, q: seq<int>, h: int, v: int, dv: int)
    requires WellFormed(net) && ScannedOk(net, seen, d, q, h) && IsNode(net, v)
    requires |seen| == net.n + 1 && |d| == net.n + 1 && !seen[v] && v !in q
    ensures ScannedOk(net, seen[v := true], d[v := dv], q + [v], h)
  {
    var seen', d', q' := seen[v := true], d[v := dv], q + [v];
    forall j, k | 0 <= j < h && 0 <= k < |net.succ[q'[j]]|
      ensures Done(seen', d', q', q'[j], net.succ[q'[j]][k])
    {
      assert q'[j] == q[j];
      var w := net.succ[q[j]][k];
      assert Done(seen, d, q, q[j], w);
      assert w != v && q[j] != v;
    }
  }

  /** Enqueuing an unseen neighbour `v` of the head `q[h]` at the next level. */
  lemma EnqueueKeeps(net: Network, seen0: seq<bool>, d0: seq<int>, src: int,
                     seen: seq<bool>, d: seq<int>, q: seq<int>, par: seq<int>, h: int, u: int, v: int)
    requires WellFormed(net) && BfsInv(net, seen0, d0, src, seen, d, q, par, h) && h < |q| && u == q[h]
    requires v in net.succ[u] && !seen[v]
    ensures BfsInv(net, seen0, d0, src, seen[v := true], d[v := d[u] + 1], q + [v], par + [h], h)
  {
    assert IsNode(net, v);
    EnqueueSeen(net, seen0, seen, q, v);
    EnqueueQueue(net, src, d, q, par, h, v);
    EnqueueLevels(net, src, d0, d, q, h, v);
    EnqueueScanned(net, seen, d, q, h, v, d[q[h]] + 1);
  }

  /** A neighbour `v` of the head that is already seen is settled. */
  lemma SeenNeighbourDone(net: Network, seen0: seq<bool>, d0: seq<int>, src: int,
                          seen: seq<bool>, d: seq<int>, q: seq<int>, par: seq<int>, h: int, v: int)
    requires WellFormed(net) && BfsInv(net, seen0, d0, src, seen, d, q, par, h) && h < |q|
    requires IsNode(net, v) && seen[v]
    ensures Done(seen, d, q, q[h], v)
  {
    if v in q {
      var i :| 0 <= i < |q| && q[i] == v;
    }
  }

  /** Enqueuing `v` at level `d(u) + 1` keeps the neighbours of `u` scanned so far settled. */
  lemma DoneAfterEnqueue(net: Network, seen: seq<bool>, d: seq<int>, q: seq<int>, u: int, k: int, v: int)
    requires WellFormed(net) && IsNode(net, u) && 0 <= k < |net.succ[u]| && v == net.succ[u][k]
    requires |seen| == net.n + 1 && |d| == net.n + 1 && seen[u] && !seen[v]
    requires forall j :: 0 <= j < k ==> Done(seen, d, q, u, net.succ[u][j])
    ensures forall j :: 0 <= j < k + 1 ==> Done(seen[v := true], d[v := d[u] + 1], q + [v], u, net.succ[u][j])
  {
    forall j | 0 <= j < k + 1
      ensures Done(seen[v := true], d[v := d[u] + 1], q + [v], u, net.succ[u][j])
    {
      if j < k {
        assert Done(seen, d, q, u, net.succ[u][j]);
        assert net.succ[u][j] != v;
      }
    }
  }

  /** Once every neighbour of the head is settled, the head moves on. */
  lemma ScanFinish(net: Network, seen0: seq<bool>, d0: seq<int>, src: int,
                   seen: seq<bool>, d: seq<int>, q: seq<int>, par: seq<int>, h: int)
    requires WellFormed(net) && BfsInv(net, seen0, d0, src, seen, d, q, par, h) && h < |q|
    requires forall j :: 0 <= j < |net.succ[q[h]]| ==> Done(seen, d, q, q[h], net.succ[q[h]][j])
    ensures BfsInv(net, seen0, d0, src, seen, d, q, par, h + 1)
  {
    if h + 1 < |q| {
      assert d[q[h]] <= d[q[h + 1]];
    }
    forall j, k | 0 <= j < h + 1 && 0 <= k < |net.succ[q[j]]|
      ensures Done(seen, d, q, q[j], net.succ[q[j]][k])
    {
    }
  }

  /** The inner loop of `bfs`: every neighbour of the head `u = q[h]` not yet
      seen is marked seen, given level `d(u) + 1` and enqueued. */
  method Scan(net: Network, ghost seen0: seq<bool>, ghost d0: seq<int>, ghost src: int,
              seen: seq<bool>, d: seq<int>, q: seq<int>, ghost par: seq<int>, h: int)
    returns (seen': seq<bool>, d': seq<int>, q': seq<int>, ghost par': seq<int>)
    requires WellFormed(net) && BfsInv(net, seen0, d0, src, seen, d, q, par, h) && h < |q|
    ensures BfsInv(net, seen0, d0, src, seen', d', q', par', h + 1)
    ensures |q'| >= |q| && q'[..|q|] == q
    ensures forall k :: 0 <= k < |net.succ[q[h]]| ==> seen'[net.succ[q[h]][k]]
  {
    var u := q[h];
    seen', d', q', par' := seen, d, q, par;
    var k := 0;
    while k < |net.succ[u]|
      invariant 0 <= k <= |net.succ[u]|
      invariant BfsInv(net, seen0, d0, src, seen', d', q', par', h)
      invariant h < |q'| && q'[h] == u && |q'| >= |q| && q'[..|q|] == q
      invariant forall j :: 0 <= j < k ==> Done(seen', d', q', u, net.succ[u][j])
    {
      var v := net.succ[u][k];
      if !seen'[v] {
        EnqueueKeeps(net, seen0, d0, src, seen', d', q', par', h, u, v);
        DoneAfterEnqueue(net, seen', d', q', u, k, v);
        seen', d', q', par' := seen'[v := true], d'[v := d'[u] + 1], q' + [v], par' + [h];
      } else {
        SeenNeighbourDone(net, seen0, d0, src, seen', d', q', par', h, v);
      }
      k := k + 1;
    }
    ScanFinish(net, seen0, d0, src, seen', d', q', par', h);
    forall k | 0 <= k < |net.succ[u]|
      ensures seen'[net.succ[u][k]]
    {
      assert Done(seen', d', q', u, net.succ[u][k]);
    }
  }

  /** `bfs(src)`: marks `src` seen at level 0 and visits, level by level,
      every vertex reachable through unseen vertices.  `q` lists the
      vertices in the order they were enqueued. */
  method Bfs(net: Network, seen0: seq<bool>, d0: seq<int>, src: int)
    returns (seen: seq<bool>, d: seq<int>, q: seq<int>, ghost par: seq<int>)
    requires WellFormed(net) && IsNode(net, src) && |seen0| == net.n + 1 && |d0| == net.n + 1
    ensures BfsInv(net, seen0, d0, src, seen, d, q, par, |q|)
    ensures seen[src] && d[src] == 0 && |q| >= 1 && q[0] == src
    ensures forall i, j :: 0 <= i < j < |q| ==> q[i] != q[j]
    ensures forall x :: IsNode(net, x) ==> (seen[x] <==> seen0[x] || x in q)
    ensures forall x :: IsNode(net, x) && x !in q ==> d[x] == d0[x]
    ensures forall i {:trigger par[i]} :: 1 <= i < |q| ==>
      0 <= par[i] < i && q[i] in net.succ[q[par[i]]] && !seen0[q[i]] && d[q[i]] == d[q[par[i]]] + 1
    ensures forall i, k :: 0 <= i < |q| && 0 <= k < |net.succ[q[i]]| ==> seen[net.succ[q[i]][k]]
  {
    seen, d, q, par := seen0[src := true], d0[src := 0], [src], [0];
    var h := 0;
    while h < |q|
      invariant BfsInv(net, seen0, d0, src, seen, d, q, par, h)
      invariant |q| <= net.n
      decreases net.n - h
    {
      seen, d, q, par := Scan(net, seen0, d0, src, seen, d, q, par, h);
      QueueBound(net, q);
      h := h + 1;
    }
    forall i, k | 0 <= i < |q| && 0 <= k < |net.succ[q[i]]|
      ensures seen[net.succ[q[i]][k]]
    {
      assert Done(seen, d, q, q[i], net.succ[q[i]][k]);
    }
  }

  // ---------------------------------------------------------------------
  // What one search finds.

  /** The tree walk from `src` to `q[i]` through the recorded discoverers. */
  ghost function TreePath(net: Network, src: int, d: seq<int>, q: seq<int>, par: seq<int>, i: int): (p: seq<int>)
    requires WellFormed(net) && QueueOk(net, src, d, q, par) && 0 <= i < |q|
    ensures IsPath(net, p) && p[0] == src && p[|p| - 1] == q[i] && |p| == d[q[i]] - d[src] + 1
    decreases i
  {
    if i == 0 then [src]
    else
      var p := TreePath(net, src, d, q, par, par[i]);
      TreeExtend(net, src, d, q, par, i, p);
      p + [q[i]]
  }

  /** A tree walk to the discoverer of `q[i]`, extended by `q[i]`, is a tree walk to `q[i]`. */
  lemma TreeExtend(net: Network, src: int, d: seq<int>, q: seq<int>, par: seq<int>, i: int, p: seq<int>)
    requires WellFormed(net) && QueueOk(net, src, d, q, par) && 1 <= i < |q|
    requires IsPath(net, p) && p[0] == src && p[|p| - 1] == q[par[i]] && |p| == d[q[par[i]]] - d[src] + 1
    ensures IsPath(net, p + [q[i]]) && (p + [q[i]])[0] == src && |p + [q[i]]| == d[q[i]] - d[src] + 1
  {
    PathExtend(net, p, q[i]);
  }

  /** Seen vertices have only seen neighbours. */
  ghost predicate Closed(net: Network, seen: seq<bool>)
    requires WellFormed(net)
  {
    |seen| == net.n + 1 &&
    forall x, k :: IsNode(net, x) && seen[x] && 0 <= k < |net.succ[x]| ==> seen[net.succ[x][k]]
  }

  lemma BfsClosed(net: Network, seen0: seq<bool>, d0: seq<int>, src: int,
                  seen: seq<bool>, d: seq<int>, q: seq<int>, par: seq<int>)
    requires WellFormed(net) && BfsInv(net, seen0, d0, src, seen, d, q, par, |q|) && Closed(net, seen0)
    ensures Closed(net, seen)
  {
    forall x, k | IsNode(net, x) && seen[x] && 0 <= k < |net.succ[x]|
      ensures seen[net.succ[x][k]]
    {
      if !seen0[x] {
        var j :| 0 <= j < |q| && q[j] == x;
        assert Done(seen, d, q, q[j], net.succ[q[j]][k]);
      }
    }
  }

  lemma {:induction false} ClosedReach(net: Network, seen: seq<bool>, p: seq<int>)
    requires WellFormed(net) && Closed(net, seen) && IsPath(net, p) && seen[p[0]]
    ensures seen[p[|p| - 1]]
    decreases |p|
  {
    if |p| > 1 {
      PathPrefix(net, p, |p| - 1);
      ClosedReach(net, seen, p[..|p| - 1]);
      ClosedStep(net, seen, p[|p| - 2], p[|p| - 1]);
    }
  }

  /** A successor of a seen vertex is seen. */
  lemma ClosedStep(net: Network, seen: seq<bool>, x: int, y: int)
    requires WellFormed(net) && Closed(net, seen) && IsNode(net, x) && seen[x] && y in net.succ[x]
    ensures seen[y]
  {
    var k :| 0 <= k < |net.succ[x]| && net.succ[x][k] == y;
  }

  /** Started from an unseen `src` with the seen vertices closed, the search
      enqueues exactly the unseen vertices reachable from `src`. */
  lemma BfsFindsReachable(net: Network, seen0: seq<bool>, d0: seq<int>, src: int,
                          seen: seq<bool>, d: seq<int>, q: seq<int>, par: seq<int>, x: int)
    requires WellFormed(net) && BfsInv(net, seen0, d0, src, seen, d, q, par, |q|)
    requires Closed(net, seen0) && !seen0[src] && IsNode(net, x)
    ensures x in q <==> Reaches(net, src, x) && !seen0[x]
  {
    if x in q {
      var i :| 0 <= i < |q| && q[i] == x;
      var p := TreePath(net, src, d, q, par, i);
    }
    if Reaches(net, src, x) && !seen0[x] {
      var p :| IsPath(net, p) && p[0] == src && p[|p| - 1] == x;
      BfsClosed(net, seen0, d0, src, seen, d, q, par);
      ClosedReach(net, seen, p);
    }
  }

  // ---------------------------------------------------------------------
  // isBipartite.

  /** `c` gives the two ends of every edge different colours. */
  ghost predicate Proper(net: Network, c: seq<bool>)
    requires WellFormed(net)
  {
    |c| == net.n + 1 &&
    forall u, k :: IsNode(net, u) && 0 <= k < |net.succ[u]| ==> c[u] != c[net.succ[u][k]]
  }

  ghost predicate TwoColourable(net: Network)
    requires WellFormed(net)
  {
    exists c :: Proper(net, c)
  }

  /** No edge joins two vertices of equal level. */
  ghost predicate LevelsDiffer(net: Network, d: seq<int>)
    requires WellFormed(net) && |d| == net.n + 1
  {
    forall u, k :: IsNode(net, u) && 0 <= k < |net.succ[u]| ==> d[u] != d[net.succ[u][k]]
  }

  /** Each seen vertex `x` is reached by the walk `tree[x]` of `d(x)` edges
      from the start of its search; on a symmetric graph a neighbour of a
      seen vertex lies in the same search and at most one level deeper. */
  ghost predicate Forest(net: Network, seen: seq<bool>, d: seq<int>, tree: seq<seq<int>>)
    requires WellFormed(net)
  {
    && |seen| == net.n + 1 && |d| == net.n + 1 && |tree| == net.n + 1
    && (forall x :: IsNode(net, x) && seen[x] ==>
          IsPath(net, tree[x]) && tree[x][|tree[x]| - 1] == x && |tree[x]| == d[x] + 1)
    && (Symmetric(net) ==>
          forall x, k :: IsNode(net, x) && seen[x] && 0 <= k < |net.succ[x]| ==>
            d[net.succ[x][k]] <= d[x] + 1 && |tree[net.succ[x][k]]| > 0 && |tree[x]| > 0 &&
            tree[net.succ[x][k]][0] == tree[x][0])
  }

  /** The tree walks after one more search from `src`. */
  ghost function Grow(net: Network, src: int, d: seq<int>, q: seq<int>, par: seq<int>, tree: seq<seq<int>>)
    : (tree': seq<seq<int>>)
    requires WellFormed(net) && QueueOk(net, src, d, q, par) && |tree| == net.n + 1
    ensures |tree'| == net.n + 1
    ensures forall i :: 0 <= i < |q| ==> tree'[q[i]] == TreePath(net, src, d, q, par, i)
    ensures forall x :: 0 <= x <= net.n && x !in q ==> tree'[x] == tree[x]
  {
    var t := seq(net.n + 1, x requires 0 <= x <= net.n => TreeAt(net, src, d, q, par, tree, x));
    forall i | 0 <= i < |q|
      ensures t[q[i]] == TreePath(net, src, d, q, par, i)
    {
      DistinctIndex(q, i);
    }
    t
  }

  /** The tree walk of `x` after the search: its new walk if the search
      enqueued it, its old one otherwise. */
  ghost function TreeAt(net: Network, src: int, d: seq<int>, q: seq<int>, par: seq<int>, tree: seq<seq<int>>,
                        x: int): seq<int>
    requires WellFormed(net) && QueueOk(net, src, d, q, par) && |tree| == net.n + 1 && 0 <= x <= net.n
  {
    if x in q then TreePath(net, src, d, q, par, TopoSort.IndexOf(q, x)) else tree[x]
  }

  /** In a list without repeats, the position of the `i`-th entry is `i`. */
  lemma DistinctIndex(q: seq<int>, i: int)
    requires forall i, j :: 0 <= i < j < |q| ==> q[i] != q[j]
    requires 0 <= i < |q|
    ensures TopoSort.IndexOf(q, q[i]) == i
  {
    var j := TopoSort.IndexOf(q, q[i]);
    assert q[j] == q[i];
  }

  /** One search from an unseen `src` keeps the seen vertices closed and the forest. */
  lemma RunKeeps(net: Network, seen0: seq<bool>, d0: seq<int>, tree: seq<seq<int>>, src: int,
                 seen: seq<bool>, d: seq<int>, q: seq<int>, par: seq<int>)
    requires WellFormed(net) && IsNode(net, src)
    requires Closed(net, seen0) && Forest(net, seen0, d0, tree) && !seen0[src]
    requires BfsInv(net, seen0, d0, src, seen, d, q, par, |q|)
    ensures Closed(net, seen) && Forest(net, seen, d, Grow(net, src, d, q, par, tree))
  {
    BfsClosed(net, seen0, d0, src, seen, d, q, par);
    var tree' := Grow(net, src, d, q, par, tree);
    forall x | IsNode(net, x) && seen[x]
      ensures IsPath(net, tree'[x]) && tree'[x][|tree'[x]| - 1] == x && |tree'[x]| == d[x] + 1
    {
      if x in q {
        var i :| 0 <= i < |q| && q[i] == x;
      }
    }
    if Symmetric(net) {
      forall x, k | IsNode(net, x) && seen[x] && 0 <= k < |net.succ[x]|
        ensures d[net.succ[x][k]] <= d[x] + 1 && |tree'[net.succ[x][k]]| > 0 && |tree'[x]| > 0
        ensures tree'[net.succ[x][k]][0] == tree'[x][0]
      {
        var w := net.succ[x][k];
        if x in q {
          var i :| 0 <= i < |q| && q[i] == x;
          assert Done(seen, d, q, x, w);
          assert !seen0[x] by {
            if i != 0 {
              assert !seen0[q[i]];
            }
          }
          assert x in net.succ[w];
          var m :| 0 <= m < |net.succ[w]| && net.succ[w][m] == x;
          assert !seen0[w];
          var j :| 0 <= j < |q| && q[j] == w;
        } else {
          assert seen0[w];
          assert w !in q;
        }
      }
    }
  }

  /** `bfs(u)` inside `isBipartite`, for a vertex `u` not yet seen. */
  method SearchFrom(net: Network, seen: seq<bool>, d: seq<int>, ghost tree: seq<seq<int>>, u: int)
    returns (seen': seq<bool>, d': seq<int>, ghost tree': seq<seq<int>>)
    requires WellFormed(net) && IsNode(net, u) && Closed(net, seen) && Forest(net, seen, d, tree) && !seen[u]
    ensures Closed(net, seen') && Forest(net, seen', d', tree')
    ensures seen'[u] && forall x :: IsNode(net, x) && seen[x] ==> seen'[x]
  {
    var q;
    ghost var par;
    seen', d', q, par := Bfs(net, seen, d, u);
    RunKeeps(net, seen, d, tree, u, seen', d', q, par);
    tree' := Grow(net, u, d', q, par, tree);
  }

  /** The first loop of `isBipartite`: a search from every vertex not yet seen. */
  method SearchAll(net: Network, d0: seq<int>) returns (seen: seq<bool>, d: seq<int>, ghost tree: seq<seq<int>>)
    requires WellFormed(net) && |d0| == net.n + 1
    ensures Closed(net, seen) && Forest(net, seen, d, tree)
    ensures forall x :: IsNode(net, x) ==> seen[x]
  {
    seen, d, tree := seq(net.n + 1, _ => false), d0, seq(net.n + 1, _ => []);
    var u := 1;
    while u <= net.n
      invariant 1 <= u <= net.n + 1
      invariant Closed(net, seen) && Forest(net, seen, d, tree)
      invariant forall x :: 1 <= x < u ==> seen[x]
    {
      if !seen[u] {
        seen, d, tree := SearchFrom(net, seen, d, tree, u);
      }
      u := u + 1;
    }
  }

  /** `isBipartite()`: a search from every unseen vertex, then `false` as soon
      as some edge joins two vertices of the same level. */
  method IsBipartite(net: Network, d0: seq<int>) returns (b: bool, d: seq<int>)
    requires WellFormed(net) && |d0| == net.n + 1
    ensures |d| == net.n + 1
    ensures b <==> LevelsDiffer(net, d)
    ensures Symmetric(net) ==> (b <==> TwoColourable(net))
  {
    var seen;
    ghost var tree;
    seen, d, tree := SearchAll(net, d0);
    b := true;
    var u := 1;
    while u <= net.n && b
      invariant 1 <= u <= net.n + 1
      invariant b <==> forall x, k :: 1 <= x < u && 0 <= k < |net.succ[x]| ==> d[x] != d[net.succ[x][k]]
      invariant !b ==> !LevelsDiffer(net, d)
    {
      var k := 0;
      while k < |net.succ[u]| && b
        invariant 0 <= k <= |net.succ[u]|
        invariant b <==> forall x, j :: (1 <= x < u && 0 <= j < |net.succ[x]|) || (x == u && 0 <= j < k) ==>
                                          d[x] != d[net.succ[x][j]]
        invariant !b ==> !LevelsDiffer(net, d)
      {
        if d[u] == d[net.succ[u][k]] {
          b := false;
        }
        k := k + 1;
      }
      u := u + 1;
    }
    if Symmetric(net) {
      ColouringFromLevels(net, seen, d, tree);
    }
  }

  /** Along a walk, a proper colouring alternates. */
  lemma {:induction false} ColourParity(net: Network, c: seq<bool>, p: seq<int>)
    requires WellFormed(net) && Proper(net, c) && IsPath(net, p)
    ensures c[p[|p| - 1]] == c[p[0]] <==> (|p| - 1) % 2 == 0
    decreases |p|
  {
    if |p| > 1 {
      PathPrefix(net, p, |p| - 1);
      ColourParity(net, c, p[..|p| - 1]);
      var x := p[|p| - 2];
      PathStep(net, p, |p| - 2);
      var k :| 0 <= k < |net.succ[x]| && net.succ[x][k] == p[|p| - 1];
    }
  }

  /** On a symmetric graph searched completely, levels of adjacent vertices
      differ everywhere exactly when some proper two-colouring exists. */
  lemma ColouringFromLevels(net: Network, seen: seq<bool>, d: seq<int>, tree: seq<seq<int>>)
    requires WellFormed(net) && Symmetric(net) && Forest(net, seen, d, tree)
    requires forall x :: IsNode(net, x) ==> seen[x]
    ensures LevelsDiffer(net, d) <==> TwoColourable(net)
  {
    if LevelsDiffer(net, d) {
      ParityColouring(net, seen, d, tree);
    }
    if TwoColourable(net) {
      var c :| Proper(net, c);
      forall u, k | IsNode(net, u) && 0 <= k < |net.succ[u]|
        ensures d[u] != d[net.succ[u][k]]
      {
        EdgeLevels(net, seen, d, tree, c, u, k);
      }
    }
  }

  /** When adjacent levels differ, colouring by the parity of the level is proper. */
  lemma ParityColouring(net: Network, seen: seq<bool>, d: seq<int>, tree: seq<seq<int>>)
    requires WellFormed(net) && Symmetric(net) && Forest(net, seen, d, tree)
    requires forall x :: IsNode(net, x) ==> seen[x]
    requires LevelsDiffer(net, d)
    ensures TwoColourable(net)
  {
    var c := seq(net.n + 1, x requires 0 <= x <= net.n => d[x] % 2 == 0);
    forall u, k | IsNode(net, u) && 0 <= k < |net.succ[u]|
      ensures c[u] != c[net.succ[u][k]]
    {
      var w := net.succ[u][k];
      assert u in net.succ[w];
      var m :| 0 <= m < |net.succ[w]| && net.succ[w][m] == u;
      assert d[w] <= d[u] + 1 && d[u] <= d[w] + 1;
    }
    assert Proper(net, c);
  }

  /** Under a proper colouring, the ends of an edge have tree walks from the
      same root of different parity, so their levels differ. */
  lemma EdgeLevels(net: Network, seen: seq<bool>, d: seq<int>, tree: seq<seq<int>>, c: seq<bool>, u: int, k: int)
    requires WellFormed(net) && Symmetric(net) && Forest(net, seen, d, tree)
    requires forall x :: IsNode(net, x) ==> seen[x]
    requires Proper(net, c) && IsNode(net, u) && 0 <= k < |net.succ[u]|
    ensures d[u] != d[net.succ[u][k]]
  {
    var w := net.succ[u][k];
    ColourParity(net, c, tree[u]);
    ColourParity(net, c, tree[w]);
    assert c[u] != c[w];
  }
}
