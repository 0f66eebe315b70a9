/** The integer view of a graph that the searches and the scheduler read:
    for each vertex u, its duration, the names `otherEnd` gives for the edges
    of `u.adj` (successors) and for the edges of `u.revAdj` (predecessors). */
module Networks {
  import opened Graphs

  /** Index 0 is the unused null slot; vertices are 1..n. */
  datatype Network = Network(n: nat, dur: seq<int>, succ: seq<seq<int>>, pred: seq<seq<int>>)

  predicate IsNode(net: Network, x: int)
  {
    1 <= x <= net.n
  }

  ghost predicate WellFormed(net: Network)
  {
    && |net.dur| == net.n + 1 && |net.succ| == net.n + 1 && |net.pred| == net.n + 1
    && (forall u, k :: 1 <= u <= net.n && 0 <= k < |net.succ[u]| ==> IsNode(net, net.succ[u][k]))
    && (forall u, k :: 1 <= u <= net.n && 0 <= k < |net.pred[u]| ==> IsNode(net, net.pred[u][k]))
  }

  /** `v` is a successor of `u` exactly when `u` is a predecessor of `v`. */
  ghost predicate Mirrored(net: Network)
    requires WellFormed(net)
  {
    forall u, v {:trigger v in net.succ[u]} {:trigger u in net.pred[v]} ::
      IsNode(net, u) && IsNode(net, v) ==> (v in net.succ[u] <==> u in net.pred[v])
  }

  /** The network of a graph: `succ[u]`/`pred[u]` list `otherEnd(u)` of each
      edge in `u.adj`/`u.revAdj`, in list order; `dur[u]` is `u.d`. */
  function Project(g: Graph): (net: Network)
    requires Valid(g)
    ensures WellFormed(net) && net.n == g.size
    ensures forall u :: IsVertex(g, u) ==>
      && net.dur[u] == Vtx(g, u).d
      && |net.succ[u]| == |Adj(g, u)|
      && (forall k :: 0 <= k < |Adj(g, u)| ==> IsEnd(Adj(g, u)[k], u) && net.succ[u][k] == OtherEnd(Adj(g, u)[k], u))
      && |net.pred[u]| == |RevAdj(g, u)|
      && (forall k :: 0 <= k < |RevAdj(g, u)| ==> IsEnd(RevAdj(g, u)[k], u) && net.pred[u][k] == OtherEnd(RevAdj(g, u)[k], u))
    ensures g.directed ==> Mirrored(net)
    ensures !g.directed ==> Symmetric(net)
  {
    var net := Lists(g);
    ListsEntries(g, net);
    if g.directed then ProjectMirrored(g, net); net else ProjectSymmetric(g, net); net
  }

  /** Entry `k` of `succ[u]`/`pred[u]` names the other end of the `k`-th edge of `u.adj`/`u.revAdj`. */
  lemma ListsEntries(g: Graph, net: Network)
    requires Valid(g) && WellFormed(net) && net.n == g.size
    requires forall u :: IsVertex(g, u) ==>
      net.dur[u] == Vtx(g, u).d && net.succ[u] == Nbrs(g, u) && net.pred[u] == RevNbrs(g, u)
    ensures forall u :: IsVertex(g, u) ==>
      && net.dur[u] == Vtx(g, u).d
      && |net.succ[u]| == |Adj(g, u)|
      && (forall k :: 0 <= k < |Adj(g, u)| ==> IsEnd(Adj(g, u)[k], u) && net.succ[u][k] == OtherEnd(Adj(g, u)[k], u))
      && |net.pred[u]| == |RevAdj(g, u)|
      && (forall k :: 0 <= k < |RevAdj(g, u)| ==> IsEnd(RevAdj(g, u)[k], u) && net.pred[u][k] == OtherEnd(RevAdj(g, u)[k], u))
  {
    forall u | IsVertex(g, u)
      ensures |net.succ[u]| == |Adj(g, u)|
      ensures forall k :: 0 <= k < |Adj(g, u)| ==> IsEnd(Adj(g, u)[k], u) && net.succ[u][k] == OtherEnd(Adj(g, u)[k], u)
      ensures |net.pred[u]| == |RevAdj(g, u)|
      ensures forall k :: 0 <= k < |RevAdj(g, u)| ==> IsEnd(RevAdj(g, u)[k], u) && net.pred[u][k] == OtherEnd(RevAdj(g, u)[k], u)
    {
      EntriesEnd(g, u);
      var ns, rs := Nbrs(g, u), RevNbrs(g, u);
      assert net.succ[u] == ns && net.pred[u] == rs;
    }
  }

  function Lists(g: Graph): (net: Network)
    requires Valid(g)
    ensures WellFormed(net) && net.n == g.size
    ensures forall u :: IsVertex(g, u) ==>
      net.dur[u] == Vtx(g, u).d && net.succ[u] == Nbrs(g, u) && net.pred[u] == RevNbrs(g, u)
  {
    Network(g.size, Durations(g), Table(g, false), Table(g, true))
  }

  /** `u.d` for every vertex `u`, 0 in the null slot. */
  function Durations(g: Graph): (ds: seq<int>)
    requires Valid(g)
    ensures |ds| == g.size + 1
    ensures forall u :: IsVertex(g, u) ==> ds[u] == Vtx(g, u).d
  {
    seq(g.size + 1, i => if 1 <= i <= g.size then Vtx(g, i).d else 0)
  }

  /** The neighbour names of every vertex, through `revAdj` when `rev` holds
      and through `adj` otherwise; the null slot has none. */
  function Table(g: Graph, rev: bool): (ts: seq<seq<int>>)
    requires Valid(g)
    ensures |ts| == g.size + 1
    ensures forall u :: IsVertex(g, u) ==> ts[u] == if rev then RevNbrs(g, u) else Nbrs(g, u)
    ensures forall u, k :: 1 <= u <= g.size && 0 <= k < |ts[u]| ==> 1 <= ts[u][k] <= g.size
  {
    var ts := seq(g.size + 1, i => if 1 <= i <= g.size then (if rev then RevNbrs(g, i) else Nbrs(g, i)) else []);
    assert forall u :: IsVertex(g, u) ==> ts[u] == if rev then RevNbrs(g, u) else Nbrs(g, u);
    ts
  }

  lemma ProjectMirrored(g: Graph, net: Network)
    requires Valid(g) && g.directed && WellFormed(net) && net.n == g.size
    requires forall u :: IsVertex(g, u) ==> net.succ[u] == Nbrs(g, u) && net.pred[u] == RevNbrs(g, u)
    ensures Mirrored(net)
  {
    forall u, v | IsNode(net, u) && IsNode(net, v)
      ensures v in net.succ[u] <==> u in net.pred[v]
    {
      if v in net.succ[u] {
        SuccIsPred(g, net, u, v);
      }
      if u in net.pred[v] {
        PredIsSucc(g, net, u, v);
      }
    }
  }

  lemma SuccIsPred(g: Graph, net: Network, u: int, v: int)
    requires Valid(g) && g.directed && WellFormed(net) && net.n == g.size && IsNode(net, u) && IsNode(net, v)
    requires net.succ[u] == Nbrs(g, u) && net.pred[v] == RevNbrs(g, v)
    requires v in net.succ[u]
    ensures u in net.pred[v]
  {
    var k :| 0 <= k < |Adj(g, u)| && net.succ[u][k] == v;
    var e := Adj(g, u)[k];
    assert Endpoints(g) && Linked(g);
    assert e.from == u && e.to == v;
    var j :| 0 <= j < |RevAdj(g, v)| && RevAdj(g, v)[j] == e;
    assert net.pred[v][j] == u;
  }

  lemma PredIsSucc(g: Graph, net: Network, u: int, v: int)
    requires Valid(g) && g.directed && WellFormed(net) && net.n == g.size && IsNode(net, u) && IsNode(net, v)
    requires net.succ[u] == Nbrs(g, u) && net.pred[v] == RevNbrs(g, v)
    requires u in net.pred[v]
    ensures v in net.succ[u]
  {
    var k :| 0 <= k < |RevAdj(g, v)| && net.pred[v][k] == u;
    var e := RevAdj(g, v)[k];
    assert Endpoints(g) && Linked(g);
    assert e.to == v && e.from == u;
    var j :| 0 <= j < |Adj(g, u)| && Adj(g, u)[j] == e;
    assert net.succ[u][j] == v;
  }

  /** Every neighbour relation runs both ways, as in an undirected graph. */
  ghost predicate Symmetric(net: Network)
    requires WellFormed(net)
  {
    forall u, v {:trigger v in net.succ[u]} {:trigger u in net.succ[v]} ::
      IsNode(net, u) && IsNode(net, v) ==> (v in net.succ[u] <==> u in net.succ[v])
  }

  lemma ProjectSymmetric(g: Graph, net: Network)
    requires Valid(g) && !g.directed && WellFormed(net) && net.n == g.size
    requires forall u :: IsVertex(g, u) ==> net.succ[u] == Nbrs(g, u)
    ensures Symmetric(net)
  {
    forall u, v | IsNode(net, u) && IsNode(net, v) && v in net.succ[u]
      ensures u in net.succ[v]
    {
      var k :| 0 <= k < |net.succ[u]| && net.succ[u][k] == v;
      var e := Adj(g, u)[k];
      SymmetricEdge(g, u, e);
      var j :| 0 <= j < |Adj(g, v)| && Adj(g, v)[j] == e;
      assert net.succ[v][j] == u;
    }
  }

  /** In an undirected graph an edge listed at `u` is also listed at its other end, which leads back to `u`. */
  lemma SymmetricEdge(g: Graph, u: int, e: Edge)
    requires Valid(g) && !g.directed && IsVertex(g, u) && e in Adj(g, u)
    ensures IsEnd(e, u) && e in Adj(g, OtherEnd(e, u)) && OtherEnd(e, OtherEnd(e, u)) == u
  {
    assert Linked(g);
    assert e in Adj(g, e.from) && e in Adj(g, e.to);
  }

  /** A walk along successor lists: consecutive entries are joined by an edge. */
  ghost predicate IsPath(net: Network, p: seq<int>)
    requires WellFormed(net)
  {
    && |p| >= 1
    && (forall i :: 0 <= i < |p| ==> IsNode(net, p[i]))
    && (forall i, j :: 0 <= i && j == i + 1 && j < |p| ==> p[j] in net.succ[p[i]])
  }

  /** The `i`-th step of a walk follows an edge. */
  lemma PathStep(net: Network, p: seq<int>, i: int)
    requires WellFormed(net) && IsPath(net, p) && 0 <= i < |p| - 1
    ensures IsNode(net, p[i]) && IsNode(net, p[i + 1]) && p[i + 1] in net.succ[p[i]]
  {
  }

  /** No walk of one edge or more returns to where it started. */
  ghost predicate Acyclic(net: Network)
    requires WellFormed(net)
  {
    forall p {:trigger IsPath(net, p)} :: IsPath(net, p) && |p| >= 2 ==> p[0] != p[|p| - 1]
  }

  ghost predicate Reaches(net: Network, x: int, y: int)
    requires WellFormed(net)
  {
    exists p {:trigger IsPath(net, p)} :: IsPath(net, p) && p[0] == x && p[|p| - 1] == y
  }

  ghost predicate OnNodes(net: Network, p: seq<int>)
  {
    forall i :: 0 <= i < |p| ==> 0 <= p[i] < |net.dur|
  }

  /** Sum of the durations of every vertex of `p` after the first. */
  function Weight(net: Network, p: seq<int>): int
    requires OnNodes(net, p)
  {
    if |p| <= 1 then 0 else Weight(net, p[..|p| - 1]) + net.dur[p[|p| - 1]]
  }

  lemma PathExtend(net: Network, p: seq<int>, v: int)
    requires WellFormed(net) && IsPath(net, p) && IsNode(net, v) && v in net.succ[p[|p| - 1]]
    ensures IsPath(net, p + [v])
    ensures Weight(net, p + [v]) == Weight(net, p) + net.dur[v]
  {
    var q := p + [v];
    assert q[..|p|] == p;
    forall i | 0 < i < |q|
      ensures q[i] in net.succ[q[i - 1]]
    {
      if i < |p| {
        assert q[i] == p[i] && q[i - 1] == p[i - 1];
      }
    }
  }

  lemma PathPrefix(net: Network, p: seq<int>, m: int)
    requires WellFormed(net) && IsPath(net, p) && 1 <= m <= |p|
    ensures IsPath(net, p[..m])
  {
  }

  lemma PathSuffix(net: Network, p: seq<int>, m: int)
    requires WellFormed(net) && IsPath(net, p) && 0 <= m < |p|
    ensures IsPath(net, p[m..])
  {
    forall i | 0 < i < |p[m..]|
      ensures p[m..][i] in net.succ[p[m..][i - 1]]
    {
      assert p[m..][i] == p[m + i] && p[m..][i - 1] == p[m + i - 1];
    }
  }

  lemma {:induction false} WeightCons(net: Network, v: int, q: seq<int>)
    requires OnNodes(net, q) && |q| >= 1 && 0 <= v < |net.dur|
    ensures OnNodes(net, [v] + q)
    ensures Weight(net, [v] + q) == net.dur[q[0]] + Weight(net, q)
    decreases |q|
  {
    if |q| == 1 {
    } else {
      var q' := q[..|q| - 1];
      WeightCons(net, v, q');
      assert ([v] + q)[..|q|] == [v] + q';
    }
  }

  lemma PathCons(net: Network, v: int, q: seq<int>)
    requires WellFormed(net) && IsPath(net, q) && IsNode(net, v) && q[0] in net.succ[v]
    ensures IsPath(net, [v] + q)
    ensures Weight(net, [v] + q) == net.dur[q[0]] + Weight(net, q)
  {
    WeightCons(net, v, q);
  }

  /** With no negative duration on the network, no walk has negative weight. */
  lemma {:induction false} WeightNonNegative(net: Network, p: seq<int>)
    requires WellFormed(net) && IsPath(net, p)
    requires forall x :: IsNode(net, x) ==> net.dur[x] >= 0
    ensures Weight(net, p) >= 0
    decreases |p|
  {
    if |p| > 1 {
      PathPrefix(net, p, |p| - 1);
      WeightNonNegative(net, p[..|p| - 1]);
    }
  }

  /** Cutting a walk at position `i` splits its weight between the two pieces. */
  lemma {:induction false} WeightSplit(net: Network, p: seq<int>, i: int)
    requires OnNodes(net, p) && 0 <= i < |p|
    ensures Weight(net, p[..i + 1]) + Weight(net, p[i..]) == Weight(net, p)
    decreases |p|
  {
    if i < |p| - 1 {
      var q := p[..|p| - 1];
      WeightSplit(net, q, i);
      assert q[..i + 1] == p[..i + 1];
      assert p[i..][..|p[i..]| - 1] == q[i..];
    } else {
      assert p[..i + 1] == p;
    }
  }
}
