/** `findCriticalPaths`: topological order, the forward and backward passes,
    slack and the critical-node count, then the enumeration of every critical
    path from `s` (the second to last vertex) to `t` (the last), all on the
    network of the graph. */
module CriticalPathMethod {
  import opened Graphs
  import opened Networks
  import opened TopoSort
  import opened Passes
  import opened Enumerate
  import Wiring

  /** An undirected graph has no reverse lists, and an acyclic one has no
      edge either (`u - v` is the cycle `u, v, u`), so its network is
      trivially mirrored; a directed graph's network always is. */
  lemma AcyclicMirrored(g: Graph)
    requires Valid(g) && Acyclic(Project(g))
    ensures Mirrored(Project(g))
  {
    var net := Project(g);
    if !g.directed {
      forall v | IsNode(net, v)
        ensures net.pred[v] == []
      {
        assert RevAdj(g, v) == [];
      }
      SymmetricAcyclicEmpty(net);
    }
  }

  /** In a symmetric network, an edge `u -> v` would give the cycle `u, v, u`. */
  lemma SymmetricAcyclicEmpty(net: Network)
    requires WellFormed(net) && Symmetric(net) && Acyclic(net)
    ensures forall u, v :: IsNode(net, u) && IsNode(net, v) ==> v !in net.succ[u]
  {
    forall u, v | IsNode(net, u) && IsNode(net, v)
      ensures v !in net.succ[u]
    {
      NoBackEdge(net, u, v);
    }
  }

  /** In an acyclic network no edge is matched by one in the opposite direction. */
  lemma NoBackEdge(net: Network, u: int, v: int)
    requires WellFormed(net) && Acyclic(net) && IsNode(net, u) && IsNode(net, v)
    ensures !(v in net.succ[u] && u in net.succ[v])
  {
    var cyc := [u, v, u];
    assert cyc[0] == cyc[|cyc| - 1];
    assert !IsPath(net, cyc);
  }

  lemma PrependNothing(ps: seq<seq<int>>)
    ensures Prepend([], ps) == ps
  {
    assert forall i :: 0 <= i < |ps| ==> [] + ps[i] == ps[i];
  }

  /** `findCriticalPaths`, run on the network of the graph (`Project(g)`, which
      `AcyclicMirrored` shows meets the requirements when the graph is valid
      and acyclic), with `s = n - 1` and `t = n`.  `order` is the DFS finishing
      order, `ec`/`lc` the earliest/latest completion times, `slack` their
      difference, `count` the number of zero-slack vertices other than `s` and
      `t`, and `paths` the recorded critical paths in the order they are found. */
  method FindCriticalPaths(net: Network)
    returns (order: seq<int>, ec: seq<int>, lc: seq<int>, slack: seq<int>, count: nat, paths: seq<Record>)
    requires WellFormed(net) && Mirrored(net) && Acyclic(net) && net.n >= 2
    ensures IsTopoOrder(net, order)
    ensures EcEquations(net, net.n - 1, ec)
    ensures LcEquations(net, ec[net.n], lc)
    ensures |slack| == net.n + 1 && forall v :: 1 <= v <= net.n ==> slack[v] == lc[v] - ec[v]
    ensures count == |CriticalSet(net.n, net.n - 1, net.n, slack)|
    ensures Bounded(net, paths)
    ensures Trims(paths) == PathsFrom(net, ec, lc, order, net.n, net.n - 1)
    ensures AllTight(net, ec, lc, net.n, net.n - 1, Trims(paths))
    ensures NoParallelEdges(net) ==> Distinct(Trims(paths))
    ensures (forall x :: IsNode(net, x) ==> net.dur[x] >= 0) && (forall x :: IsNode(net, x) ==> Reaches(net, x, net.n)) ==>
      forall p :: p in Trims(paths) <==> IsCritical(net, net.n - 1, net.n, ec, p)
  {
    var s, t := net.n - 1, net.n;
    var color;
    order, color := TopologicalOrder(net);
    ec := ForwardPass(net, order, s);
    lc := BackwardPass(net, order, ec[t]);
    slack, count := SlackAndCount(net.n, s, t, ec, lc);
    var buf := seq(net.n, _ => 0);
    var buf';
    buf', paths := EnumeratePaths(net, ec, lc, t, order, buf, s, 0, []);
    assert paths[0..] == paths;
    PrependNothing(PathsFrom(net, ec, lc, order, t, s));
    PathsFromSound(net, ec, lc, order, t, s);
    RecordedDistinct(net, order, ec, lc, Trims(paths));
    if (forall x :: IsNode(net, x) ==> net.dur[x] >= 0) && (forall x :: IsNode(net, x) ==> Reaches(net, x, t)) {
      assert Scheduled(net, order, s, t, ec, lc);
      RecordedCritical(net, order, ec, lc, Trims(paths));
    }
  }

  /** The recorded walks from `s` repeat none when no edge is listed twice. */
  lemma RecordedDistinct(net: Network, order: seq<int>, ec: seq<int>, lc: seq<int>, ps: seq<seq<int>>)
    requires Times(net, ec, lc) && IsTopoOrder(net, order) && net.n >= 2
    requires ps == PathsFrom(net, ec, lc, order, net.n, net.n - 1)
    ensures NoParallelEdges(net) ==> Distinct(ps)
  {
    if NoParallelEdges(net) {
      PathsFromDistinct(net, ec, lc, order, net.n, net.n - 1);
    }
  }

  /** With no negative duration and every vertex reaching `t`, the recorded
      walks are exactly the critical ones. */
  lemma RecordedCritical(net: Network, order: seq<int>, ec: seq<int>, lc: seq<int>, ps: seq<seq<int>>)
    requires net.n >= 2 && Scheduled(net, order, net.n - 1, net.n, ec, lc)
    requires ps == PathsFrom(net, ec, lc, order, net.n, net.n - 1)
    ensures forall p :: p in ps <==> IsCritical(net, net.n - 1, net.n, ec, p)
  {
    forall p
      ensures p in ps <==> IsCritical(net, net.n - 1, net.n, ec, p)
    {
      CriticalAreHeaviest(net, order, net.n - 1, net.n, ec, lc, p);
    }
  }

  /** A walk from `s` to `t` as heavy as `ec(t) - ec(s)`, the most any walk
      from `s` to `t` weighs. */
  ghost predicate IsCritical(net: Network, s: int, t: int, ec: seq<int>, p: seq<int>)
    requires WellFormed(net) && |ec| == net.n + 1
  {
    IsPath(net, p) && p[0] == s && p[|p| - 1] == t && Weight(net, p) == ec[t] - ec[s]
  }

  /** After the driver's wiring, every vertex other than `s` and `t` has a
      successor and a predecessor in the network; if `s` has a successor too
      and the network is acyclic, every vertex reaches `t`, which is what the
      slack and path theorems above ask of the input. */
  lemma WiredReachesEnd(g: Graph, g': Graph, order: seq<int>)
    requires Shaped(g) && Valid(g') && g'.size == g.size && Wiring.WiredInner(g, g') && g.size >= 2
    requires IsTopoOrder(Project(g'), order) && Adj(g', g.size - 1) != []
    ensures forall x :: IsNode(Project(g'), x) && x != g.size - 1 && x != g.size ==>
      Project(g').succ[x] != [] && Project(g').pred[x] != []
    ensures forall x :: IsNode(Project(g'), x) ==> Reaches(Project(g'), x, g.size)
  {
    WiredNonEmpty(g, g');
    ProjectDegrees(g');
    LinkedReachesEnd(g', Project(g'), order, g.size);
  }

  lemma ProjectDegrees(g: Graph)
    requires Valid(g)
    ensures WellFormed(Project(g)) && Project(g).n == g.size && Degrees(g, Project(g))
  {
  }

  /** The network half of `WiredReachesEnd`, stated for any network whose lists
      are as long as the graph's. */
  lemma LinkedReachesEnd(g: Graph, net: Network, order: seq<int>, t: int)
    requires Valid(g) && WellFormed(net) && net.n == g.size && Degrees(g, net)
    requires InnerLinked(g, t) && t == g.size && t >= 2 && Adj(g, t - 1) != []
    requires IsTopoOrder(net, order)
    ensures forall x :: IsNode(net, x) && x != t - 1 && x != t ==> net.succ[x] != [] && net.pred[x] != []
    ensures forall x :: IsNode(net, x) ==> Reaches(net, x, t)
  {
    DegreesNonEmpty(g, net, t);
    AllReachEnd(net, order, t);
  }

  /** The network lists as many successors and predecessors as the graph lists edges. */
  ghost predicate Degrees(g: Graph, net: Network)
    requires Valid(g) && WellFormed(net) && net.n == g.size
  {
    forall u :: IsVertex(g, u) ==> |net.succ[u]| == |Adj(g, u)| && |net.pred[u]| == |RevAdj(g, u)|
  }

  /** Every vertex other than `s` and `t` has an edge out and an edge in. */
  ghost predicate InnerLinked(g: Graph, t: int)
    requires Shaped(g)
  {
    forall x :: IsVertex(g, x) && x != t - 1 && x != t ==> Adj(g, x) != [] && RevAdj(g, x) != []
  }

  lemma WiredNonEmpty(g: Graph, g': Graph)
    requires Shaped(g) && Shaped(g') && g'.size == g.size && Wiring.WiredInner(g, g')
    ensures InnerLinked(g', g.size)
  {
    forall x | IsVertex(g', x) && x != g.size - 1 && x != g.size
      ensures Adj(g', x) != [] && RevAdj(g', x) != []
    {
      WiredVertex(g, g', x);
    }
  }

  lemma DegreesNonEmpty(g: Graph, net: Network, t: int)
    requires Valid(g) && WellFormed(net) && net.n == g.size && Degrees(g, net)
    requires InnerLinked(g, t) && t == g.size && t >= 2 && Adj(g, t - 1) != []
    ensures forall x :: IsNode(net, x) && x != t - 1 && x != t ==> net.succ[x] != [] && net.pred[x] != []
    ensures forall x :: IsNode(net, x) && x != t ==> net.succ[x] != []
  {
  }

  lemma WiredVertex(g: Graph, g': Graph, x: int)
    requires Shaped(g) && Shaped(g') && g'.size == g.size && Wiring.WiredInner(g, g') && IsVertex(g, x)
    requires x != g.size - 1 && x != g.size
    ensures Adj(g', x) != [] && RevAdj(g', x) != []
  {
  }

  lemma AllReachEnd(net: Network, order: seq<int>, t: int)
    requires WellFormed(net) && IsTopoOrder(net, order) && IsNode(net, t)
    requires forall y :: IsNode(net, y) && y != t ==> net.succ[y] != []
    ensures forall x :: IsNode(net, x) ==> Reaches(net, x, t)
  {
    forall x | IsNode(net, x)
      ensures Reaches(net, x, t)
    {
      ReachEnd(net, order, t, x);
    }
  }
}
