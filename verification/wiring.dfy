/** The driver's wiring of a read graph into a project network: the second to
    last vertex becomes the start `s`, the last the end `t`; every other
    vertex with no incoming edge gets an edge from `s` and every other vertex
    with no outgoing edge gets an edge to `t`, each of weight 1.  The driver
    always reads a directed graph. */
module Wiring {
  import opened Graphs

  /** `s`: the vertex in slot `size - 2` of the list `v`, whose length is
      `size + 1`; the null slot when the graph has one vertex. */
  function StartOf(g: Graph): int
  {
    g.size - 1
  }

  /** `t`: the vertex in the last slot. */
  function EndOf(g: Graph): int
  {
    g.size
  }

  /** The first loop's test: a vertex other than `s` and `t` with no incoming edge. */
  predicate NeedsStart(g: Graph, x: int)
    requires Shaped(g) && IsVertex(g, x)
  {
    x != StartOf(g) && x != EndOf(g) && RevAdj(g, x) == []
  }

  /** The second loop's test: a vertex other than `s` and `t` with no outgoing edge. */
  predicate NeedsEnd(g: Graph, x: int)
    requires Shaped(g) && IsVertex(g, x)
  {
    x != StartOf(g) && x != EndOf(g) && Adj(g, x) == []
  }

  /** The edges `s -> x` the first loop adds for the vertices `x < hi`, in vertex order. */
  function StartEdges(g: Graph, hi: int): seq<Edge>
    requires Shaped(g) && 1 <= hi <= g.size + 1
    decreases hi
  {
    if hi == 1 then []
    else StartEdges(g, hi - 1) + StartEdgeAt(g, hi - 1)
  }

  function StartEdgeAt(g: Graph, x: int): seq<Edge>
    requires Shaped(g) && IsVertex(g, x)
  {
    if NeedsStart(g, x) then [Edge(StartOf(g), x, 1)] else []
  }

  /** The start edges go from `s`, with weight 1, to exactly the vertices
      that need one, each once and in increasing order. */
  lemma {:induction false} StartEdgesSpec(g: Graph, hi: int)
    requires Shaped(g) && 1 <= hi <= g.size + 1
    ensures forall x :: IsVertex(g, x) && x < hi ==>
      (Edge(StartOf(g), x, 1) in StartEdges(g, hi) <==> NeedsStart(g, x))
    ensures forall e :: e in StartEdges(g, hi) ==>
      e.from == StartOf(g) && e.weight == 1 && IsVertex(g, e.to) && e.to < hi && NeedsStart(g, e.to)
    ensures forall i, j :: 0 <= i < j < |StartEdges(g, hi)| ==> StartEdges(g, hi)[i].to < StartEdges(g, hi)[j].to
    decreases hi
  {
    if hi > 1 {
      StartEdgesSpec(g, hi - 1);
    }
  }

  /** The edges `x -> t` the second loop adds for the vertices `x < hi`, in vertex order. */
  function EndEdges(g: Graph, hi: int): seq<Edge>
    requires Shaped(g) && 1 <= hi <= g.size + 1
    decreases hi
  {
    if hi == 1 then []
    else EndEdges(g, hi - 1) + EndEdgeAt(g, hi - 1)
  }

  function EndEdgeAt(g: Graph, x: int): seq<Edge>
    requires Shaped(g) && IsVertex(g, x)
  {
    if NeedsEnd(g, x) then [Edge(x, EndOf(g), 1)] else []
  }

  /** The end edges go to `t`, with weight 1, from exactly the vertices that
      need one, each once and in increasing order. */
  lemma {:induction false} EndEdgesSpec(g: Graph, hi: int)
    requires Shaped(g) && 1 <= hi <= g.size + 1
    ensures forall x :: IsVertex(g, x) && x < hi ==>
      (Edge(x, EndOf(g), 1) in EndEdges(g, hi) <==> NeedsEnd(g, x))
    ensures forall e :: e in EndEdges(g, hi) ==>
      e.to == EndOf(g) && e.weight == 1 && IsVertex(g, e.from) && e.from < hi && NeedsEnd(g, e.from)
    ensures forall i, j :: 0 <= i < j < |EndEdges(g, hi)| ==> EndEdges(g, hi)[i].from < EndEdges(g, hi)[j].from
    decreases hi
  {
    if hi > 1 {
      EndEdgesSpec(g, hi - 1);
    }
  }

  /** What holds after the first loop has visited the vertices below `v`. */
  ghost predicate StartInv(g: Graph, h: Graph, v: int)
    requires Shaped(g) && Shaped(h)
  {
    && h.size == g.size && h.directed == g.directed && 1 <= v <= g.size + 1
    && (forall x :: IsVertex(g, x) ==> SameAttrs(Vtx(h, x), Vtx(g, x)))
    && (forall x :: IsVertex(g, x) && x != StartOf(g) ==> Adj(h, x) == Adj(g, x))
    && (g.size >= 2 ==> Adj(h, StartOf(g)) == Adj(g, StartOf(g)) + StartEdges(g, v))
    && (forall x :: IsVertex(g, x) ==>
          RevAdj(h, x) == RevAdj(g, x) + (if x < v then StartEdgeAt(g, x) else []))
  }

  /** `h'` is `h` after the first loop's turn at `v`: `s -> v` appended to
      `s.adj` and `v.revAdj` when `v` needs it, nothing else changed. */
  lemma StartStep(g: Graph, h: Graph, h': Graph, v: int)
    requires Shaped(g) && Shaped(h) && Shaped(h') && StartInv(g, h, v) && v <= g.size
    requires h'.size == h.size && h'.directed == h.directed
    requires forall x :: IsVertex(g, x) ==> SameAttrs(Vtx(h', x), Vtx(h, x))
    requires forall x :: IsVertex(g, x) && x != StartOf(g) ==> Adj(h', x) == Adj(h, x)
    requires g.size >= 2 ==> Adj(h', StartOf(g)) == Adj(h, StartOf(g)) + StartEdgeAt(g, v)
    requires forall x :: IsVertex(g, x) && x != v ==> RevAdj(h', x) == RevAdj(h, x)
    requires RevAdj(h', v) == RevAdj(h, v) + StartEdgeAt(g, v)
    ensures StartInv(g, h', v + 1)
  {
    if g.size >= 2 {
      AppendAssoc(Adj(g, StartOf(g)), StartEdges(g, v), StartEdgeAt(g, v));
    }
  }

  /** One turn of the first loop, at vertex `v`. */
  method StartVisit(ghost g: Graph, h: Graph, v: int) returns (h': Graph)
    requires Shaped(g) && g.directed && Valid(h) && StartInv(g, h, v) && v <= g.size
    ensures Valid(h') && StartInv(g, h', v + 1)
  {
    var s, t := h.size - 1, h.size;
    if RevAdj(h, v) == [] && v != s && v != t {
      h' := AddEdge(h, s, v, 1);
      StartAdded(g, h, v);
    } else {
      h' := h;
      StartSkipped(g, h, v);
    }
  }

  lemma StartAdded(g: Graph, h: Graph, v: int)
    requires Shaped(g) && g.directed && Valid(h) && StartInv(g, h, v) && v <= g.size
    requires RevAdj(h, v) == [] && v != h.size - 1 && v != h.size
    ensures StartInv(g, AddEdge(h, h.size - 1, v, 1), v + 1)
  {
    var h' := AddEdge(h, h.size - 1, v, 1);
    assert RevAdj(h, v) == RevAdj(g, v);
    assert StartEdgeAt(g, v) == [Edge(h.size - 1, v, 1)];
    StartStep(g, h, h', v);
  }

  lemma StartSkipped(g: Graph, h: Graph, v: int)
    requires Shaped(g) && g.directed && Valid(h) && StartInv(g, h, v) && v <= g.size
    requires !(RevAdj(h, v) == [] && v != h.size - 1 && v != h.size)
    ensures StartInv(g, h, v + 1)
  {
    assert RevAdj(h, v) == RevAdj(g, v);
    assert StartEdgeAt(g, v) == [];
    StartStep(g, h, h, v);
  }

  /** The first loop: every vertex that needs it, in slot order, gets the edge
      `s -> x`; its test sees the incoming list as read, since an earlier
      iteration only ever adds to `s.adj` and to the visited vertex's `revAdj`. */
  method ConnectStart(g: Graph) returns (g': Graph)
    requires Valid(g) && g.directed && g.size >= 1
    ensures Valid(g') && g'.size == g.size && g'.directed
    ensures forall x :: IsVertex(g, x) ==> SameAttrs(Vtx(g', x), Vtx(g, x))
    ensures forall x :: IsVertex(g, x) && x != StartOf(g) ==> Adj(g', x) == Adj(g, x)
    ensures g.size >= 2 ==> Adj(g', StartOf(g)) == Adj(g, StartOf(g)) + StartEdges(g, g.size + 1)
    ensures forall x :: IsVertex(g, x) ==>
      RevAdj(g', x) == RevAdj(g, x) + (if NeedsStart(g, x) then [Edge(StartOf(g), x, 1)] else [])
  {
    g' := g;
    var v := 1;
    while v <= g.size
      invariant Valid(g') && StartInv(g, g', v)
    {
      g' := StartVisit(g, g', v);
      v := v + 1;
    }
    StartDone(g, g');
  }

  lemma StartDone(g: Graph, h: Graph)
    requires Shaped(g) && Shaped(h) && StartInv(g, h, g.size + 1)
    ensures h.size == g.size && h.directed == g.directed
    ensures forall x :: IsVertex(g, x) ==> SameAttrs(Vtx(h, x), Vtx(g, x))
    ensures forall x :: IsVertex(g, x) && x != StartOf(g) ==> Adj(h, x) == Adj(g, x)
    ensures g.size >= 2 ==> Adj(h, StartOf(g)) == Adj(g, StartOf(g)) + StartEdges(g, g.size + 1)
    ensures forall x :: IsVertex(g, x) ==>
      RevAdj(h, x) == RevAdj(g, x) + (if NeedsStart(g, x) then [Edge(StartOf(g), x, 1)] else [])
  {
  }

  /** What holds after the second loop has visited the vertices below `v`. */
  ghost predicate EndInv(g: Graph, h: Graph, v: int)
    requires Shaped(g) && Shaped(h)
  {
    && g.size >= 1 && h.size == g.size && h.directed == g.directed && 1 <= v <= g.size + 1
    && (forall x :: IsVertex(g, x) ==> SameAttrs(Vtx(h, x), Vtx(g, x)))
    && (forall x :: IsVertex(g, x) && x != EndOf(g) ==> RevAdj(h, x) == RevAdj(g, x))
    && RevAdj(h, EndOf(g)) == RevAdj(g, EndOf(g)) + EndEdges(g, v)
    && (forall x :: IsVertex(g, x) ==>
          Adj(h, x) == Adj(g, x) + (if x < v then EndEdgeAt(g, x) else []))
  }

  /** `h'` is `h` after the second loop's turn at `v`: `v -> t` appended to
      `v.adj` and `t.revAdj` when `v` needs it, nothing else changed. */
  lemma EndStep(g: Graph, h: Graph, h': Graph, v: int)
    requires Shaped(g) && Shaped(h) && Shaped(h') && EndInv(g, h, v) && v <= g.size
    requires h'.size == h.size && h'.directed == h.directed
    requires forall x :: IsVertex(g, x) ==> SameAttrs(Vtx(h', x), Vtx(h, x))
    requires forall x :: IsVertex(g, x) && x != EndOf(g) ==> RevAdj(h', x) == RevAdj(h, x)
    requires RevAdj(h', EndOf(g)) == RevAdj(h, EndOf(g)) + EndEdgeAt(g, v)
    requires forall x :: IsVertex(g, x) && x != v ==> Adj(h', x) == Adj(h, x)
    requires Adj(h', v) == Adj(h, v) + EndEdgeAt(g, v)
    ensures EndInv(g, h', v + 1)
  {
    AppendAssoc(RevAdj(g, EndOf(g)), EndEdges(g, v), EndEdgeAt(g, v));
  }

  /** One turn of the second loop, at vertex `v`. */
  method EndVisit(ghost g: Graph, h: Graph, v: int) returns (h': Graph)
    requires Shaped(g) && g.size >= 1 && g.directed && Valid(h) && EndInv(g, h, v) && v <= g.size
    ensures Valid(h') && EndInv(g, h', v + 1)
  {
    var s, t := h.size - 1, h.size;
    if Adj(h, v) == [] && v != s && v != t {
      h' := AddEdge(h, v, t, 1);
      EndAdded(g, h, v);
    } else {
      h' := h;
      EndSkipped(g, h, v);
    }
  }

  lemma EndAdded(g: Graph, h: Graph, v: int)
    requires Shaped(g) && g.size >= 1 && g.directed && Valid(h) && EndInv(g, h, v) && v <= g.size
    requires Adj(h, v) == [] && v != h.size - 1 && v != h.size
    ensures EndInv(g, AddEdge(h, v, h.size, 1), v + 1)
  {
    var h' := AddEdge(h, v, h.size, 1);
    assert Adj(h, v) == Adj(g, v);
    assert EndEdgeAt(g, v) == [Edge(v, h.size, 1)];
    EndStep(g, h, h', v);
  }

  lemma EndSkipped(g: Graph, h: Graph, v: int)
    requires Shaped(g) && g.size >= 1 && g.directed && Valid(h) && EndInv(g, h, v) && v <= g.size
    requires !(Adj(h, v) == [] && v != h.size - 1 && v != h.size)
    ensures EndInv(g, h, v + 1)
  {
    assert Adj(h, v) == Adj(g, v);
    assert EndEdgeAt(g, v) == [];
    EndStep(g, h, h, v);
  }

  /** The second loop: every vertex that needs it, in slot order, gets the edge
      `x -> t`. */
  method ConnectEnd(g: Graph) returns (g': Graph)
    requires Valid(g) && g.directed && g.size >= 1
    ensures Valid(g') && g'.size == g.size && g'.directed
    ensures forall x :: IsVertex(g, x) ==> SameAttrs(Vtx(g', x), Vtx(g, x))
    ensures forall x :: IsVertex(g, x) && x != EndOf(g) ==> RevAdj(g', x) == RevAdj(g, x)
    ensures RevAdj(g', EndOf(g)) == RevAdj(g, EndOf(g)) + EndEdges(g, g.size + 1)
    ensures forall x :: IsVertex(g, x) ==>
      Adj(g', x) == Adj(g, x) + (if NeedsEnd(g, x) then [Edge(x, EndOf(g), 1)] else [])
  {
    g' := g;
    var v := 1;
    while v <= g.size
      invariant Valid(g') && EndInv(g, g', v)
    {
      g' := EndVisit(g, g', v);
      v := v + 1;
    }
    EndDone(g, g');
  }

  lemma EndDone(g: Graph, h: Graph)
    requires Shaped(g) && Shaped(h) && EndInv(g, h, g.size + 1)
    ensures h.size == g.size && h.directed == g.directed
    ensures forall x :: IsVertex(g, x) ==> SameAttrs(Vtx(h, x), Vtx(g, x))
    ensures forall x :: IsVertex(g, x) && x != EndOf(g) ==> RevAdj(h, x) == RevAdj(g, x)
    ensures RevAdj(h, EndOf(g)) == RevAdj(g, EndOf(g)) + EndEdges(g, g.size + 1)
    ensures forall x :: IsVertex(g, x) ==>
      Adj(h, x) == Adj(g, x) + (if NeedsEnd(g, x) then [Edge(x, EndOf(g), 1)] else [])
  {
  }

  lemma AppendAssoc<T>(a: seq<T>, b: seq<T>, c: seq<T>)
    ensures (a + b) + c == a + (b + c)
  {
  }

  /** The second loop's tests do not see the first loop's edges: those only
      leave `s`, which the second loop skips. */
  lemma {:induction false} EndEdgesAgree(g: Graph, g1: Graph, hi: int)
    requires Shaped(g) && Shaped(g1) && g1.size == g.size && 1 <= hi <= g.size + 1
    requires forall x :: IsVertex(g, x) && x != StartOf(g) ==> Adj(g1, x) == Adj(g, x)
    ensures EndEdges(g1, hi) == EndEdges(g, hi)
    decreases hi
  {
    if hi > 1 {
      EndEdgesAgree(g, g1, hi - 1);
      assert NeedsEnd(g1, hi - 1) == NeedsEnd(g, hi - 1);
    }
  }

  /** Both loops, one after the other, as the driver runs them. */
  method Wire(g: Graph) returns (g': Graph)
    requires Valid(g) && g.directed && g.size >= 1
    ensures Valid(g') && Wired(g, g')
    ensures forall x :: IsVertex(g, x) && x != StartOf(g) && x != EndOf(g) ==>
      Adj(g', x) != [] && RevAdj(g', x) != []
  {
    var g1 := ConnectStart(g);
    g' := ConnectEnd(g1);
    EndEdgesAgree(g, g1, g.size + 1);
    WireFacts(g, g1, g');
  }

  /** The graph after wiring: `g` with, at each vertex other than `s` and
      `t`, an edge to `t` if it had no outgoing edge and an edge from `s` if
      it had no incoming edge; `s` gains the start edges, `t` the end edges,
      and nothing else changes. */
  ghost predicate Wired(g: Graph, g': Graph)
    requires Shaped(g)
  {
    && Shaped(g') && g'.size == g.size && g'.directed == g.directed && g.size >= 1
    && (forall x :: IsVertex(g, x) ==> SameAttrs(Vtx(g', x), Vtx(g, x)))
    && WiredInner(g, g')
    && WiredEnds(g, g')
  }

  ghost predicate WiredInner(g: Graph, g': Graph)
    requires Shaped(g) && Shaped(g') && g'.size == g.size
  {
    forall x :: IsVertex(g, x) && x != StartOf(g) && x != EndOf(g) ==>
      && Adj(g', x) == Adj(g, x) + (if Adj(g, x) == [] then [Edge(x, EndOf(g), 1)] else [])
      && RevAdj(g', x) == RevAdj(g, x) + (if RevAdj(g, x) == [] then [Edge(StartOf(g), x, 1)] else [])
  }

  ghost predicate WiredEnds(g: Graph, g': Graph)
    requires Shaped(g) && Shaped(g') && g'.size == g.size && g.size >= 1
  {
    && (g.size >= 2 ==>
          && Adj(g', StartOf(g)) == Adj(g, StartOf(g)) + StartEdges(g, g.size + 1)
          && RevAdj(g', StartOf(g)) == RevAdj(g, StartOf(g)))
    && Adj(g', EndOf(g)) == Adj(g, EndOf(g))
    && RevAdj(g', EndOf(g)) == RevAdj(g, EndOf(g)) + EndEdges(g, g.size + 1)
  }

  lemma WireFacts(g: Graph, g1: Graph, g2: Graph)
    requires Shaped(g) && Shaped(g1) && Shaped(g2) && g.size >= 1 && g.directed
    requires g1.size == g.size && g1.directed && g2.size == g.size && g2.directed
    requires forall x :: IsVertex(g, x) ==> SameAttrs(Vtx(g1, x), Vtx(g, x))
    requires forall x :: IsVertex(g, x) && x != StartOf(g) ==> Adj(g1, x) == Adj(g, x)
    requires g.size >= 2 ==> Adj(g1, StartOf(g)) == Adj(g, StartOf(g)) + StartEdges(g, g.size + 1)
    requires forall x :: IsVertex(g, x) ==>
      RevAdj(g1, x) == RevAdj(g, x) + (if NeedsStart(g, x) then [Edge(StartOf(g), x, 1)] else [])
    requires forall x :: IsVertex(g, x) ==> SameAttrs(Vtx(g2, x), Vtx(g1, x))
    requires forall x :: IsVertex(g, x) && x != EndOf(g) ==> RevAdj(g2, x) == RevAdj(g1, x)
    requires RevAdj(g2, EndOf(g)) == RevAdj(g1, EndOf(g)) + EndEdges(g, g.size + 1)
    requires forall x :: IsVertex(g, x) ==>
      Adj(g2, x) == Adj(g1, x) + (if NeedsEnd(g1, x) then [Edge(x, EndOf(g), 1)] else [])
    ensures Wired(g, g2)
  {
    WireInner(g, g1, g2);
    if g.size >= 2 {
      WireStart(g, g1, g2);
    }
    WireEnd(g, g1, g2);
  }

  lemma WireInner(g: Graph, g1: Graph, g2: Graph)
    requires Shaped(g) && Shaped(g1) && Shaped(g2) && g1.size == g.size && g2.size == g.size
    requires forall x :: IsVertex(g, x) && x != StartOf(g) ==> Adj(g1, x) == Adj(g, x)
    requires forall x :: IsVertex(g, x) ==>
      RevAdj(g1, x) == RevAdj(g, x) + (if NeedsStart(g, x) then [Edge(StartOf(g), x, 1)] else [])
    requires forall x :: IsVertex(g, x) && x != EndOf(g) ==> RevAdj(g2, x) == RevAdj(g1, x)
    requires forall x :: IsVertex(g, x) ==>
      Adj(g2, x) == Adj(g1, x) + (if NeedsEnd(g1, x) then [Edge(x, EndOf(g), 1)] else [])
    ensures WiredInner(g, g2)
  {
    forall x | IsVertex(g, x) && x != StartOf(g) && x != EndOf(g)
      ensures Adj(g2, x) == Adj(g, x) + (if Adj(g, x) == [] then [Edge(x, EndOf(g), 1)] else [])
      ensures RevAdj(g2, x) == RevAdj(g, x) + (if RevAdj(g, x) == [] then [Edge(StartOf(g), x, 1)] else [])
    {
      WireInnerVertex(g, g1, g2, x);
    }
  }

  lemma WireInnerVertex(g: Graph, g1: Graph, g2: Graph, x: int)
    requires Shaped(g) && Shaped(g1) && Shaped(g2) && g1.size == g.size && g2.size == g.size
    requires IsVertex(g, x) && x != StartOf(g) && x != EndOf(g)
    requires Adj(g1, x) == Adj(g, x)
    requires RevAdj(g1, x) == RevAdj(g, x) + (if NeedsStart(g, x) then [Edge(StartOf(g), x, 1)] else [])
    requires RevAdj(g2, x) == RevAdj(g1, x)
    requires Adj(g2, x) == Adj(g1, x) + (if NeedsEnd(g1, x) then [Edge(x, EndOf(g), 1)] else [])
    ensures Adj(g2, x) == Adj(g, x) + (if Adj(g, x) == [] then [Edge(x, EndOf(g), 1)] else [])
    ensures RevAdj(g2, x) == RevAdj(g, x) + (if RevAdj(g, x) == [] then [Edge(StartOf(g), x, 1)] else [])
  {
    assert NeedsEnd(g1, x) == (Adj(g, x) == []);
  }

  lemma WireStart(g: Graph, g1: Graph, g2: Graph)
    requires Shaped(g) && Shaped(g1) && Shaped(g2) && g1.size == g.size && g2.size == g.size && g.size >= 2
    requires Adj(g1, StartOf(g)) == Adj(g, StartOf(g)) + StartEdges(g, g.size + 1)
    requires RevAdj(g1, StartOf(g)) == RevAdj(g, StartOf(g)) + (if NeedsStart(g, StartOf(g)) then [Edge(StartOf(g), StartOf(g), 1)] else [])
    requires RevAdj(g2, StartOf(g)) == RevAdj(g1, StartOf(g))
    requires Adj(g2, StartOf(g)) == Adj(g1, StartOf(g)) + (if NeedsEnd(g1, StartOf(g)) then [Edge(StartOf(g), EndOf(g), 1)] else [])
    ensures Adj(g2, StartOf(g)) == Adj(g, StartOf(g)) + StartEdges(g, g.size + 1)
    ensures RevAdj(g2, StartOf(g)) == RevAdj(g, StartOf(g))
  {
  }

  lemma WireEnd(g: Graph, g1: Graph, g2: Graph)
    requires Shaped(g) && Shaped(g1) && Shaped(g2) && g1.size == g.size && g2.size == g.size && g.size >= 1
    requires Adj(g1, EndOf(g)) == Adj(g, EndOf(g))
    requires RevAdj(g1, EndOf(g)) == RevAdj(g, EndOf(g)) + (if NeedsStart(g, EndOf(g)) then [Edge(StartOf(g), EndOf(g), 1)] else [])
    requires RevAdj(g2, EndOf(g)) == RevAdj(g1, EndOf(g)) + EndEdges(g, g.size + 1)
    requires Adj(g2, EndOf(g)) == Adj(g1, EndOf(g)) + (if NeedsEnd(g1, EndOf(g)) then [Edge(EndOf(g), EndOf(g), 1)] else [])
    ensures Adj(g2, EndOf(g)) == Adj(g, EndOf(g))
    ensures RevAdj(g2, EndOf(g)) == RevAdj(g, EndOf(g)) + EndEdges(g, g.size + 1)
  {
  }
}
