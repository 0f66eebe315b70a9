/** Topological order by depth-first search: vertices are coloured White
    (unvisited), Gray (on the recursion) and Black (finished); a vertex is put
    at the front of the order when it finishes.  A Gray successor is skipped
    without a word, so the graph must be acyclic. */
module TopoSort {
  import opened Networks

  datatype Color = White | Gray | Black

  /** `order` lists every vertex exactly once and puts each edge's tail first. */
  ghost predicate IsTopoOrder(net: Network, order: seq<int>)
    requires WellFormed(net)
  {
    && |order| == net.n
    && (forall i :: 0 <= i < |order| ==> IsNode(net, order[i]))
    && (forall i, j :: 0 <= i < j < |order| ==> order[i] != order[j])
    && (forall x {:trigger x in order} :: IsNode(net, x) ==> x in order)
    && (forall i, j :: 0 <= i < |order| && 0 <= j < |order| && order[j] in net.succ[order[i]] ==> i < j)
  }

  /** A position of `x` in `s`: the only one when `s` has no repeats. */
  ghost function IndexOf(s: seq<int>, x: int): (i: nat)
    requires x in s
    ensures i < |s| && s[i] == x
  {
    var i :| 0 <= i < |s| && s[i] == x; i
  }

  /** Along a topological order, a successor comes later. */
  lemma SuccLater(net: Network, order: seq<int>, u: int, v: int)
    requires WellFormed(net) && IsTopoOrder(net, order) && IsNode(net, u) && v in net.succ[u]
    ensures IsNode(net, v) && IndexOf(order, u) < IndexOf(order, v)
  {
    var k :| 0 <= k < |net.succ[u]| && net.succ[u][k] == v;
    assert order[IndexOf(order, v)] in net.succ[order[IndexOf(order, u)]];
  }

  function WhiteSet(color: seq<Color>): set<int>
  {
    set x | 0 <= x < |color| && color[x] == White
  }

  /** The gray vertices are exactly those of `stack`, a walk of the graph. */
  ghost predicate GrayStack(net: Network, color: seq<Color>, stack: seq<int>)
    requires WellFormed(net)
  {
    && |color| == net.n + 1
    && (|stack| > 0 ==> IsPath(net, stack))
    && (forall x :: 0 <= x < |color| ==> (color[x] == Gray <==> x in stack))
  }

  /** What holds between visits: `order` lists the Black vertices without
      repetition, Black vertices have only Black successors, and `order`
      respects every edge between the vertices it lists. */
  ghost predicate DfsInv(net: Network, color: seq<Color>, order: seq<int>)
    requires WellFormed(net)
  {
    && |color| == net.n + 1
    && (forall i :: 0 <= i < |order| ==> IsNode(net, order[i]))
    && (forall i, j :: 0 <= i < j < |order| ==> order[i] != order[j])
    && (forall x :: IsNode(net, x) ==> (color[x] == Black <==> x in order))
    && (forall x, k :: IsNode(net, x) && color[x] == Black && 0 <= k < |net.succ[x]| ==>
          color[net.succ[x][k]] == Black)
    && (forall i, j :: 0 <= i < |order| && 0 <= j < |order| && order[j] in net.succ[order[i]] ==> i < j)
  }

  /** How one visit may recolour: only White vertices change, and only to Black. */
  ghost predicate Blackens(color: seq<Color>, color': seq<Color>)
  {
    && |color'| == |color|
    && (forall x :: 0 <= x < |color| && color[x] != White ==> color'[x] == color[x])
    && (forall x :: 0 <= x < |color| && color[x] == White ==> color'[x] != Gray)
  }

  /** A gray successor would close a cycle through the recursion. */
  lemma NoGraySucc(net: Network, color: seq<Color>, stack: seq<int>, v: int)
    requires WellFormed(net) && Acyclic(net) && GrayStack(net, color, stack) && |stack| > 0
    requires v in net.succ[stack[|stack| - 1]]
    ensures color[v] != Gray
  {
    forall i | 0 <= i < |stack|
      ensures stack[i] != v
    {
      ClosesNoCycle(net, stack, v, i);
    }
    assert v !in stack;
  }

  /** Following `v` after the walk `stack` gives the walk `stack[i..] + [v]`,
      which may not return to `stack[i]`. */
  lemma ClosesNoCycle(net: Network, stack: seq<int>, v: int, i: int)
    requires WellFormed(net) && Acyclic(net) && IsPath(net, stack) && 0 <= i < |stack|
    requires v in net.succ[stack[|stack| - 1]]
    ensures stack[i] != v
  {
    var k :| 0 <= k < |net.succ[stack[|stack| - 1]]| && net.succ[stack[|stack| - 1]][k] == v;
    var cyc := stack[i..] + [v];
    assert IsPath(net, cyc);
    assert cyc[0] == stack[i] && cyc[|cyc| - 1] == v;
  }

  lemma BlackensTrans(a: seq<Color>, b: seq<Color>, c: seq<Color>)
    requires Blackens(a, b) && Blackens(b, c)
    ensures Blackens(a, c)
  {
  }

  lemma BlackensFinish(color: seq<Color>, start: seq<Color>, color': seq<Color>, u: int)
    requires 0 <= u < |color| && color[u] == White && start == color[u := Gray]
    requires Blackens(start, color') && color'[u] == Gray
    ensures Blackens(color, color'[u := Black])
  {
  }

  /** Blackening keeps the gray stack, keeps Black vertices Black and uses up White ones. */
  lemma BlackensKeeps(net: Network, a: seq<Color>, b: seq<Color>, stack: seq<int>)
    requires WellFormed(net) && GrayStack(net, a, stack) && Blackens(a, b)
    ensures GrayStack(net, b, stack)
    ensures WhiteSet(b) <= WhiteSet(a)
    ensures forall x :: 0 <= x < |a| && a[x] == Black ==> b[x] == Black
  {
  }

  /** Finishing `u` once all its successors are Black keeps the invariant. */
  lemma FinishKeeps(net: Network, color: seq<Color>, order: seq<int>, u: int)
    requires WellFormed(net) && DfsInv(net, color, order) && IsNode(net, u) && color[u] == Gray
    requires forall j :: 0 <= j < |net.succ[u]| ==> color[net.succ[u][j]] == Black
    ensures DfsInv(net, color[u := Black], [u] + order)
  {
    var color', order' := color[u := Black], [u] + order;
    forall i, j | 0 <= i < |order'| && 0 <= j < |order'| && order'[j] in net.succ[order'[i]]
      ensures i < j
    {
    }
  }

  /** `dfsVisit(u)`. */
  method DfsVisit(net: Network, color: seq<Color>, order: seq<int>, u: int, ghost stack: seq<int>)
    returns (color': seq<Color>, order': seq<int>)
    requires WellFormed(net) && Acyclic(net)
    requires IsNode(net, u) && |color| == net.n + 1 && color[u] == White
    requires GrayStack(net, color, stack) && (|stack| > 0 ==> u in net.succ[stack[|stack| - 1]])
    requires DfsInv(net, color, order)
    ensures Blackens(color, color') && color'[u] == Black
    ensures DfsInv(net, color', order')
    ensures |order'| > |order| && order'[0] == u && EndsWith(order', order)
    decreases WhiteSet(color)
  {
    color' := color[u := Gray];
    order' := order;
    assert u in WhiteSet(color) && u !in WhiteSet(color');
    assert WhiteSet(color') < WhiteSet(color);
    ghost var stack' := stack + [u];
    assert IsPath(net, stack') by {
      if |stack| > 0 {
        PathExtend(net, stack, u);
      }
    }
    ghost var start := color';
    var k := 0;
    while k < |net.succ[u]|
      invariant 0 <= k <= |net.succ[u]|
      invariant ScanInv(net, start, color', order', stack', u, k)
      invariant EndsWith(order', order)
    {
      var v := net.succ[u][k];
      ghost var prev, prevOrder := color', order';
      if color'[v] == White {
        BlackensKeeps(net, start, color', stack');
        color', order' := DfsVisit(net, color', order', v, stack');
        EndsWithTrans(order', prevOrder, order);
      }
      ScanStep(net, start, prev, prevOrder, color', order', stack', u, k);
      k := k + 1;
    }
    assert color'[u] == Gray;
    FinishKeeps(net, color', order', u);
    BlackensFinish(color, start, color', u);
    color' := color'[u := Black];
    EndsWithCons(u, order', order);
    order' := [u] + order';
  }

  /** `a` ends with `b`: what a visit found earlier stays, in order, at the tail. */
  ghost predicate EndsWith(a: seq<int>, b: seq<int>)
  {
    |a| >= |b| && a[|a| - |b|..] == b
  }

  lemma EndsWithTrans(a: seq<int>, b: seq<int>, c: seq<int>)
    requires EndsWith(a, b) && EndsWith(b, c)
    ensures EndsWith(a, c)
  {
    assert a[|a| - |c|..] == a[|a| - |b|..][|b| - |c|..];
  }

  lemma EndsWithCons(u: int, a: seq<int>, b: seq<int>)
    requires EndsWith(a, b)
    ensures EndsWith([u] + a, b)
  {
    assert ([u] + a)[|[u] + a| - |b|..] == a[|a| - |b|..];
  }

  /** Between successors of `u`, the last vertex of the gray `stack`: the
      first `k` successors are Black. */
  ghost predicate ScanInv(net: Network, start: seq<Color>, color: seq<Color>, order: seq<int>, stack: seq<int>,
                          u: int, k: int)
    requires WellFormed(net)
  {
    && IsNode(net, u) && |stack| > 0 && stack[|stack| - 1] == u
    && 0 <= k <= |net.succ[u]|
    && Blackens(start, color)
    && GrayStack(net, color, stack)
    && DfsInv(net, color, order)
    && (forall j :: 0 <= j < k ==> color[net.succ[u][j]] == Black)
  }

  /** One successor `v` of `u` handled: visited when it was White, already
      Black otherwise (it cannot be Gray). */
  lemma ScanStep(net: Network, start: seq<Color>, prev: seq<Color>, prevOrder: seq<int>, color: seq<Color>,
                 order: seq<int>, stack: seq<int>, u: int, k: int)
    requires WellFormed(net) && Acyclic(net) && ScanInv(net, start, prev, prevOrder, stack, u, k)
    requires k < |net.succ[u]|
    requires Blackens(prev, color) && DfsInv(net, color, order)
    requires if prev[net.succ[u][k]] == White then color[net.succ[u][k]] == Black else color == prev
    ensures ScanInv(net, start, color, order, stack, u, k + 1)
  {
    BlackensKeeps(net, prev, color, stack);
    BlackensTrans(start, prev, color);
    ScanBlack(net, prev, color, stack, u, k);
  }

  lemma ScanBlack(net: Network, prev: seq<Color>, color: seq<Color>, stack: seq<int>, u: int, k: int)
    requires WellFormed(net) && Acyclic(net) && IsNode(net, u) && 0 <= k < |net.succ[u]|
    requires |stack| > 0 && stack[|stack| - 1] == u && GrayStack(net, color, stack)
    requires |prev| == net.n + 1 && Blackens(prev, color)
    requires forall j :: 0 <= j < k ==> prev[net.succ[u][j]] == Black
    requires if prev[net.succ[u][k]] == White then color[net.succ[u][k]] == Black else color == prev
    ensures forall j :: 0 <= j < k + 1 ==> color[net.succ[u][j]] == Black
  {
    NoGraySucc(net, color, stack, net.succ[u][k]);
    forall j | 0 <= j < k
      ensures color[net.succ[u][j]] == Black
    {
      assert prev[net.succ[u][j]] == Black;
    }
  }

  /** `DFS(g)`: visit every White vertex in index order. */
  method TopologicalOrder(net: Network) returns (order: seq<int>, color: seq<Color>)
    requires WellFormed(net) && Acyclic(net)
    ensures |color| == net.n + 1 && forall x :: IsNode(net, x) ==> color[x] == Black
    ensures IsTopoOrder(net, order)
  {
    color := seq(net.n + 1, _ => White);
    order := [];
    var u := 1;
    while u <= net.n
      invariant 1 <= u <= net.n + 1
      invariant OuterInv(net, color, order, u)
    {
      ghost var prev, prevOrder := color, order;
      if color[u] == White {
        color, order := DfsVisit(net, color, order, u, []);
      }
      OuterStep(net, prev, prevOrder, color, order, u);
      u := u + 1;
    }
    OuterDone(net, color, order);
  }

  /** Between the roots of `DFS(g)`: nothing is Gray and the roots before `u` are Black. */
  ghost predicate OuterInv(net: Network, color: seq<Color>, order: seq<int>, u: int)
    requires WellFormed(net)
  {
    && |color| == net.n + 1 && 1 <= u <= net.n + 1
    && (forall x :: 0 <= x < |color| ==> color[x] != Gray)
    && (forall x :: 1 <= x < u ==> color[x] == Black)
    && DfsInv(net, color, order)
  }

  lemma OuterStep(net: Network, prev: seq<Color>, prevOrder: seq<int>, color: seq<Color>, order: seq<int>, u: int)
    requires WellFormed(net) && IsNode(net, u) && OuterInv(net, prev, prevOrder, u)
    requires Blackens(prev, color) && DfsInv(net, color, order)
    requires if prev[u] == White then color[u] == Black else color == prev
    ensures OuterInv(net, color, order, u + 1)
  {
  }

  lemma OuterDone(net: Network, color: seq<Color>, order: seq<int>)
    requires WellFormed(net) && OuterInv(net, color, order, net.n + 1)
    ensures forall x :: IsNode(net, x) ==> color[x] == Black
    ensures IsTopoOrder(net, order)
  {
    DistinctLength(net.n, order);
  }

  lemma DistinctLength(n: nat, s: seq<int>)
    requires forall i :: 0 <= i < |s| ==> 1 <= s[i] <= n
    requires forall i, j :: 0 <= i < j < |s| ==> s[i] != s[j]
    requires forall x :: 1 <= x <= n ==> x in s
    ensures |s| == n
  {
    DistinctCard(s);
    assert (set x | x in s) == UpTo(n);
  }

  /** The names 1..n. */
  function UpTo(n: nat): (r: set<int>)
    ensures forall x :: x in r <==> 1 <= x <= n
    ensures |r| == n
  {
    if n == 0 then {} else UpTo(n - 1) + {n}
  }

  lemma {:induction false} DistinctCard(s: seq<int>)
    requires forall i, j :: 0 <= i < j < |s| ==> s[i] != s[j]
    ensures |set x | x in s| == |s|
  {
    if |s| > 0 {
      var t := s[..|s| - 1];
      DistinctCard(t);
      assert (set x | x in s) == (set x | x in t) + {s[|s| - 1]};
    }
  }
}
