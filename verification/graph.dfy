/** The graph container: vertices named 1..size held in a list whose slot 0 is
    null, edges kept in per-vertex adjacency (`adj`) and reverse adjacency
    (`revAdj`) lists.  Vertices are identified by their integer name. */
module Graphs {

  /** Java's `Integer.MAX_VALUE`, the "duration not yet set" marker. */
  const IntMax: int := 0x7fff_ffff

  datatype Option<T> = None | Some(value: T)

  /** An edge `from -> to`; `weight` is stored but never read by the scheduler. */
  datatype Edge = Edge(from: int, to: int, weight: int)

  /** A task.  `d` is its duration (also reused as the BFS level). */
  datatype Vertex = Vertex(name: int, seen: bool, d: int, adj: seq<Edge>, revAdj: seq<Edge>)

  /** `v[0]` is the unused null slot; `v[i]` holds vertex `i` for 1 <= i <= size. */
  datatype Graph = Graph(size: nat, directed: bool, v: seq<Option<Vertex>>)

  /** A freshly constructed vertex. */
  function NewVertex(n: int): (x: Vertex)
    ensures x.name == n && !x.seen
    ensures x.d == IntMax
    ensures x.adj == [] && x.revAdj == []
  {
    Vertex(n, false, IntMax, [], [])
  }

  /** Iterating a vertex yields its outgoing list only. */
  function Edges(x: Vertex): seq<Edge>
  {
    x.adj
  }

  lemma EdgesIgnoreRevAdj(x: Vertex, rs: seq<Edge>)
    ensures Edges(x.(revAdj := rs)) == Edges(x)
    ensures |Edges(x)| == |x.adj| && forall k :: 0 <= k < |x.adj| ==> Edges(x)[k] == x.adj[k]
  {
  }

  predicate IsEnd(e: Edge, u: int)
  {
    e.from == u || e.to == u
  }

  /** The endpoint of `e` that is not `u`; `u` itself for a self-loop. */
  function OtherEnd(e: Edge, u: int): (w: int)
    requires IsEnd(e, u)
    ensures IsEnd(e, w)
    ensures w == u <==> e.from == e.to
  {
    if e.from == u then e.to else e.from
  }

  /** Seen from one end, `OtherEnd` names the other end; applied twice it is the identity. */
  lemma OtherEndSwaps(e: Edge, u: int)
    requires IsEnd(e, u)
    ensures OtherEnd(e, e.from) == e.to
    ensures e.from != e.to ==> OtherEnd(e, e.to) == e.from
    ensures OtherEnd(e, OtherEnd(e, u)) == u
  {
  }

  predicate IsVertex(g: Graph, x: int)
  {
    1 <= x <= g.size
  }

  /** The vertex list has the shape the constructor builds. */
  predicate Shaped(g: Graph)
  {
    && |g.v| == g.size + 1
    && g.v[0].None?
    && forall i :: 1 <= i <= g.size ==> g.v[i].Some? && g.v[i].value.name == i
  }

  function Vtx(g: Graph, x: int): Vertex
    requires Shaped(g) && IsVertex(g, x)
  {
    g.v[x].value
  }

  function Adj(g: Graph, x: int): seq<Edge>
    requires Shaped(g) && IsVertex(g, x)
  {
    Vtx(g, x).adj
  }

  function RevAdj(g: Graph, x: int): seq<Edge>
    requires Shaped(g) && IsVertex(g, x)
  {
    Vtx(g, x).revAdj
  }

  /** Every edge list entry names two vertices and touches its owner. */
  ghost predicate Endpoints(g: Graph)
    requires Shaped(g)
  {
    && (forall i, e :: IsVertex(g, i) && e in Adj(g, i) ==> EndsAt(g, e, i))
    && (forall i, e :: IsVertex(g, i) && e in RevAdj(g, i) ==> EndsAt(g, e, i))
  }

  /** `e` joins two vertices, one of which is `i`. */
  predicate EndsAt(g: Graph, e: Edge, i: int)
  {
    IsVertex(g, e.from) && IsVertex(g, e.to) && IsEnd(e, i)
  }

  /** How `addEdge` links the two lists, in directed and in undirected mode. */
  ghost predicate Linked(g: Graph)
    requires Shaped(g) && Endpoints(g)
  {
    if g.directed then
      && (forall i, e :: IsVertex(g, i) && e in Adj(g, i) ==> e.from == i && e in RevAdj(g, e.to))
      && (forall i, e :: IsVertex(g, i) && e in RevAdj(g, i) ==> e.to == i && e in Adj(g, e.from))
    else
      && (forall i :: IsVertex(g, i) ==> RevAdj(g, i) == [])
      && (forall i, e :: IsVertex(g, i) && e in Adj(g, i) ==> e in Adj(g, e.from) && e in Adj(g, e.to))
  }

  ghost predicate Valid(g: Graph)
  {
    Shaped(g) && Endpoints(g) && Linked(g)
  }

  /** `new Graph(size)`: undirected, slot 0 null, slot i a fresh vertex named i. */
  function NewGraph(size: nat): (g: Graph)
    ensures Valid(g)
    ensures g.size == size && !g.directed
    ensures |g.v| == size + 1 && g.v[0] == None
    ensures forall i :: 1 <= i <= size ==> g.v[i] == Some(NewVertex(i))
  {
    var g := Graph(size, false, [None] + seq(size, i requires 0 <= i < size => Some(NewVertex(i + 1))));
    assert forall i :: 1 <= i <= size ==> g.v[i] == Some(NewVertex(i));
    EmptyValid(g);
    g
  }

  /** A graph of fresh vertices, with no edge anywhere, is valid. */
  lemma EmptyValid(g: Graph)
    requires Shaped(g) && !g.directed
    requires forall i :: 1 <= i <= g.size ==> g.v[i].value.adj == [] && g.v[i].value.revAdj == []
    ensures Valid(g)
  {
    assert forall i :: IsVertex(g, i) ==> Adj(g, i) == [] && RevAdj(g, i) == [];
  }

  /** `getVertex(n)`: the null slot for 0, vertex n otherwise. */
  function GetVertex(g: Graph, n: int): (r: Option<Vertex>)
    requires Shaped(g) && 0 <= n <= g.size
    ensures r.None? <==> n == 0
    ensures r.Some? ==> r.value.name == n && r.value == Vtx(g, n)
  {
    g.v[n]
  }

  /** Iterating the graph yields vertices 1..size in index order, skipping slot 0. */
  function Vertices(g: Graph): (vs: seq<Vertex>)
    requires Shaped(g)
    ensures |vs| == g.size
    ensures forall i :: 0 <= i < |vs| ==> vs[i].name == i + 1 && g.v[i + 1] == Some(vs[i])
  {
    seq(g.size, i requires 0 <= i < g.size => g.v[i + 1].value)
  }

  function SetVertex(g: Graph, x: int, vx: Vertex): (g': Graph)
    requires Shaped(g) && IsVertex(g, x) && vx.name == x
    ensures Shaped(g') && g'.size == g.size && g'.directed == g.directed
    ensures Vtx(g', x) == vx
    ensures forall y :: IsVertex(g, y) && y != x ==> Vtx(g', y) == Vtx(g, y)
  {
    g.(v := g.v[x := Some(vx)])
  }

  /** The per-vertex data `addEdge` never touches. */
  predicate SameAttrs(a: Vertex, b: Vertex)
  {
    a.name == b.name && a.seen == b.seen && a.d == b.d
  }

  function Append(g: Graph, x: int, e: Edge, toRev: bool): (g': Graph)
    requires Shaped(g) && IsVertex(g, x)
    ensures Shaped(g') && g'.size == g.size && g'.directed == g.directed
    ensures Adj(g', x) == Adj(g, x) + (if toRev then [] else [e])
    ensures RevAdj(g', x) == RevAdj(g, x) + (if toRev then [e] else [])
    ensures SameAttrs(Vtx(g', x), Vtx(g, x))
    ensures forall y :: IsVertex(g, y) && y != x ==> Vtx(g', y) == Vtx(g, y)
  {
    var vx := Vtx(g, x);
    SetVertex(g, x, if toRev then vx.(revAdj := vx.revAdj + [e]) else vx.(adj := vx.adj + [e]))
  }

  /** `addEdge(from, to, weight)`.  Directed: the edge goes to `from.adj` and
      `to.revAdj`.  Undirected: to `from.adj` and then `to.adj` (twice into the
      same list for a self-loop).  No other list and no other field changes. */
  function AddEdge(g: Graph, from: int, to: int, weight: int): (g': Graph)
    requires Valid(g) && IsVertex(g, from) && IsVertex(g, to)
    ensures Valid(g')
    ensures g'.size == g.size && g'.directed == g.directed
    ensures forall x :: IsVertex(g, x) ==> SameAttrs(Vtx(g', x), Vtx(g, x))
    ensures forall x :: IsVertex(g, x) ==>
      Adj(g', x) == Adj(g, x) + (if x == from then [Edge(from, to, weight)] else [])
                              + (if !g.directed && x == to then [Edge(from, to, weight)] else [])
    ensures forall x :: IsVertex(g, x) ==>
      RevAdj(g', x) == RevAdj(g, x) + (if g.directed && x == to then [Edge(from, to, weight)] else [])
  {
    var e := Edge(from, to, weight);
    var g1 := Append(g, from, e, false);
    var g2 := Append(g1, to, e, g.directed);
    AppendTwice(g, g1, g2, e);
    AddEdgeValid(g, g2, e);
    g2
  }

  lemma AppendTwice(g: Graph, g1: Graph, g2: Graph, e: Edge)
    requires Shaped(g) && IsVertex(g, e.from) && IsVertex(g, e.to)
    requires g1 == Append(g, e.from, e, false) && g2 == Append(g1, e.to, e, g.directed)
    ensures AddedOnce(g, g2, e)
    ensures forall x :: IsVertex(g, x) ==> SameAttrs(Vtx(g2, x), Vtx(g, x))
  {
    forall x | IsVertex(g, x)
      ensures Adj(g2, x) == Adj(g, x) + (if x == e.from then [e] else [])
                                      + (if !g.directed && x == e.to then [e] else [])
      ensures RevAdj(g2, x) == RevAdj(g, x) + (if g.directed && x == e.to then [e] else [])
      ensures SameAttrs(Vtx(g2, x), Vtx(g, x))
    {
      if x == e.to {
        if x == e.from {
        } else {
          assert Vtx(g1, x) == Vtx(g, x);
        }
      } else {
        assert Vtx(g2, x) == Vtx(g1, x);
      }
    }
  }

  /** The lists of `g'` are those of `g` with `e` appended where `addEdge` appends it. */
  ghost predicate AddedOnce(g: Graph, g': Graph, e: Edge)
    requires Shaped(g) && Shaped(g')
  {
    && g'.size == g.size && g'.directed == g.directed
    && (forall x :: IsVertex(g, x) ==>
          Adj(g', x) == Adj(g, x) + (if x == e.from then [e] else [])
                                  + (if !g.directed && x == e.to then [e] else []))
    && (forall x :: IsVertex(g, x) ==>
          RevAdj(g', x) == RevAdj(g, x) + (if g.directed && x == e.to then [e] else []))
  }

  lemma AddedOnceMembers(g: Graph, g': Graph, e: Edge, x: int)
    requires Shaped(g) && Shaped(g') && AddedOnce(g, g', e) && IsVertex(g, x)
    ensures forall f :: f in Adj(g', x) ==> f in Adj(g, x) || f == e
    ensures forall f :: f in RevAdj(g', x) ==> f in RevAdj(g, x) || f == e
    ensures forall f :: f in Adj(g, x) ==> f in Adj(g', x)
    ensures forall f :: f in RevAdj(g, x) ==> f in RevAdj(g', x)
    ensures x == e.from ==> e in Adj(g', x)
    ensures g.directed && x == e.to ==> e in RevAdj(g', x)
    ensures !g.directed && x == e.to ==> e in Adj(g', x)
  {
  }

  lemma AddEdgeValid(g: Graph, g': Graph, e: Edge)
    requires Valid(g) && IsVertex(g, e.from) && IsVertex(g, e.to)
    requires Shaped(g') && AddedOnce(g, g', e)
    ensures Valid(g')
  {
    AddEdgeEndpoints(g, g', e);
    if g.directed {
      AddEdgeLinkedDirected(g, g', e);
    } else {
      AddEdgeLinkedUndirected(g, g', e);
    }
  }

  lemma AddEdgeEndpoints(g: Graph, g': Graph, e: Edge)
    requires Valid(g) && IsVertex(g, e.from) && IsVertex(g, e.to)
    requires Shaped(g') && AddedOnce(g, g', e)
    ensures Endpoints(g')
  {
    forall i, f | IsVertex(g', i) && f in Adj(g', i)
      ensures IsVertex(g', f.from) && IsVertex(g', f.to) && IsEnd(f, i)
    {
      AdjEntryEnds(g, g', e, i, f);
    }
    forall i, f | IsVertex(g', i) && f in RevAdj(g', i)
      ensures IsVertex(g', f.from) && IsVertex(g', f.to) && IsEnd(f, i)
    {
      RevAdjEntryEnds(g, g', e, i, f);
    }
  }

  lemma AdjEntryEnds(g: Graph, g': Graph, e: Edge, i: int, f: Edge)
    requires Valid(g) && IsVertex(g, e.from) && IsVertex(g, e.to)
    requires Shaped(g') && AddedOnce(g, g', e) && IsVertex(g, i) && f in Adj(g', i)
    ensures IsVertex(g, f.from) && IsVertex(g, f.to) && IsEnd(f, i)
  {
    AddedOnceMembers(g, g', e, i);
    if f != e {
      assert f in Adj(g, i);
    } else {
      assert i == e.from || (!g.directed && i == e.to);
    }
  }

  lemma RevAdjEntryEnds(g: Graph, g': Graph, e: Edge, i: int, f: Edge)
    requires Valid(g) && IsVertex(g, e.from) && IsVertex(g, e.to)
    requires Shaped(g') && AddedOnce(g, g', e) && IsVertex(g, i) && f in RevAdj(g', i)
    ensures IsVertex(g, f.from) && IsVertex(g, f.to) && IsEnd(f, i)
  {
    AddedOnceMembers(g, g', e, i);
    if f != e {
      assert f in RevAdj(g, i);
    } else {
      assert g.directed && i == e.to;
    }
  }

  lemma AddEdgeLinkedDirected(g: Graph, g': Graph, e: Edge)
    requires Valid(g) && IsVertex(g, e.from) && IsVertex(g, e.to) && g.directed
    requires Shaped(g') && AddedOnce(g, g', e) && Endpoints(g')
    ensures Linked(g')
  {
    forall i, f | IsVertex(g', i) && f in Adj(g', i)
      ensures f.from == i && f in RevAdj(g', f.to)
    {
      AddedOnceMembers(g, g', e, i);
      AddedOnceMembers(g, g', e, f.to);
    }
    forall i, f | IsVertex(g', i) && f in RevAdj(g', i)
      ensures f.to == i && f in Adj(g', f.from)
    {
      AddedOnceMembers(g, g', e, i);
      AddedOnceMembers(g, g', e, f.from);
    }
  }

  lemma AddEdgeLinkedUndirected(g: Graph, g': Graph, e: Edge)
    requires Valid(g) && IsVertex(g, e.from) && IsVertex(g, e.to) && !g.directed
    requires Shaped(g') && AddedOnce(g, g', e) && Endpoints(g')
    ensures Linked(g')
  {
    forall i | IsVertex(g', i)
      ensures RevAdj(g', i) == []
    {
      assert RevAdj(g', i) == RevAdj(g, i) + [];
    }
    forall i, f | IsVertex(g', i) && f in Adj(g', i)
      ensures f in Adj(g', f.from) && f in Adj(g', f.to)
    {
      AddedOnceMembers(g, g', e, i);
      AddedOnceMembers(g, g', e, f.from);
      AddedOnceMembers(g, g', e, f.to);
    }
  }

  /** Neighbour names of `u`, one per entry of `u.adj`, as `otherEnd` yields them. */
  function Nbrs(g: Graph, u: int): (ns: seq<int>)
    requires Valid(g) && IsVertex(g, u)
    ensures |ns| == |Adj(g, u)|
    ensures forall k :: 0 <= k < |ns| ==> IsVertex(g, ns[k]) && ns[k] == OtherEnd(Adj(g, u)[k], u)
  {
    EntriesEnd(g, u);
    seq(|Adj(g, u)|, k requires 0 <= k < |Adj(g, u)| => OtherEnd(Adj(g, u)[k], u))
  }

  /** Neighbour names of `u` through `u.revAdj`. */
  function RevNbrs(g: Graph, u: int): (ns: seq<int>)
    requires Valid(g) && IsVertex(g, u)
    ensures |ns| == |RevAdj(g, u)|
    ensures forall k :: 0 <= k < |ns| ==> IsVertex(g, ns[k]) && ns[k] == OtherEnd(RevAdj(g, u)[k], u)
  {
    EntriesEnd(g, u);
    seq(|RevAdj(g, u)|, k requires 0 <= k < |RevAdj(g, u)| => OtherEnd(RevAdj(g, u)[k], u))
  }

  /** Every entry of both lists of `u` touches `u`. */
  lemma EntriesEnd(g: Graph, u: int)
    requires Valid(g) && IsVertex(g, u)
    ensures forall k :: 0 <= k < |Adj(g, u)| ==> EndsAt(g, Adj(g, u)[k], u)
    ensures forall k :: 0 <= k < |RevAdj(g, u)| ==> EndsAt(g, RevAdj(g, u)[k], u)
  {
    forall k | 0 <= k < |Adj(g, u)|
      ensures EndsAt(g, Adj(g, u)[k], u)
    {
      assert Adj(g, u)[k] in Adj(g, u);
    }
    forall k | 0 <= k < |RevAdj(g, u)|
      ensures EndsAt(g, RevAdj(g, u)[k], u)
    {
      assert RevAdj(g, u)[k] in RevAdj(g, u);
    }
  }
}
