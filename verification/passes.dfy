/** The forward pass (earliest completion time `ec`), the backward pass
    (latest completion time `lc`), slack and the critical-node count, and what
    their results mean in terms of the walks of the graph. */
module Passes {
  import opened Networks
  import opened TopoSort

  /** Java's `Integer.MIN_VALUE`, the "not reached" start value of `ec`. */
  const IntMin: int := -0x8000_0000

  /** The value `ec` starts from: 0 at the start vertex, `IntMin` elsewhere. */
  function EcInit(s: int, v: int): int
  {
    if v == s then 0 else IntMin
  }

  function Max(a: int, b: int): int
  {
    if a >= b then a else b
  }

  function Min(a: int, b: int): int
  {
    if a <= b then a else b
  }

  /** The equations the forward pass solves: `ec(v)` is the largest of its
      start value and `ec(u) + d(v)` over the predecessors `u` of `v`. */
  ghost predicate EcEquations(net: Network, s: int, ec: seq<int>)
    requires WellFormed(net)
  {
    && |ec| == net.n + 1
    && (forall v :: IsNode(net, v) ==> ec[v] >= EcInit(s, v))
    && (forall u, k :: IsNode(net, u) && 0 <= k < |net.succ[u]| ==>
          ec[net.succ[u][k]] >= ec[u] + net.dur[net.succ[u][k]])
    && (forall v {:trigger EcAttained(net, s, ec, v)} :: IsNode(net, v) ==> EcAttained(net, s, ec, v))
  }

  /** `ec(v)` is its start value or `ec(u) + d(v)` for a predecessor `u` of `v`. */
  ghost predicate EcAttained(net: Network, s: int, ec: seq<int>, v: int)
    requires WellFormed(net) && |ec| == net.n + 1 && IsNode(net, v)
  {
    ec[v] == EcInit(s, v) ||
    exists u :: IsNode(net, u) && v in net.succ[u] && ec[v] == ec[u] + net.dur[v]
  }

  /** The equations the backward pass solves: `lc(p)` is the smallest of
      `top` and `lc(u) - d(u)` over the vertices `u` listing `p` in `revAdj`. */
  ghost predicate LcEquations(net: Network, top: int, lc: seq<int>)
    requires WellFormed(net)
  {
    && |lc| == net.n + 1
    && (forall p :: IsNode(net, p) ==> lc[p] <= top)
    && (forall u, k :: IsNode(net, u) && 0 <= k < |net.pred[u]| ==>
          lc[net.pred[u][k]] <= lc[u] - net.dur[u])
    && (forall p {:trigger LcAttained(net, top, lc, p)} :: IsNode(net, p) ==> LcAttained(net, top, lc, p))
  }

  /** `lc(p)` is `top` or `lc(u) - d(u)` for a vertex `u` listing `p` in `revAdj`. */
  ghost predicate LcAttained(net: Network, top: int, lc: seq<int>, p: int)
    requires WellFormed(net) && |lc| == net.n + 1 && IsNode(net, p)
  {
    lc[p] == top ||
    exists u :: IsNode(net, u) && p in net.pred[u] && lc[p] == lc[u] - net.dur[u]
  }

  lemma IndexOfAt(net: Network, order: seq<int>, i: int)
    requires WellFormed(net) && IsTopoOrder(net, order) && 0 <= i < |order|
    ensures IndexOf(order, order[i]) == i
  {
  }

  /** `ec'` is `ec` after relaxing the edges out of `u = order[i]`: nothing
      decreases, `u` and the vertices before it keep their value, every
      successor `v` of `u` is at least `ec(u) + d(v)`, and every changed value
      is exactly that. */
  ghost predicate RaisedBy(net: Network, order: seq<int>, i: int, ec: seq<int>, ec': seq<int>)
    requires WellFormed(net) && IsTopoOrder(net, order) && 0 <= i < |order| && |ec| == net.n + 1
  {
    && |ec'| == net.n + 1
    && (forall x :: IsNode(net, x) ==> ec'[x] >= ec[x])
    && (forall j :: 0 <= j <= i ==> ec'[order[j]] == ec[order[j]])
    && (forall k :: 0 <= k < |net.succ[order[i]]| ==>
          ec'[net.succ[order[i]][k]] >= ec[order[i]] + net.dur[net.succ[order[i]][k]])
    && (forall x :: IsNode(net, x) ==>
          ec'[x] == ec[x] || (x in net.succ[order[i]] && ec'[x] == ec[order[i]] + net.dur[x]))
  }

  method RelaxSuccessors(net: Network, order: seq<int>, i: int, ec: seq<int>) returns (ec': seq<int>)
    requires WellFormed(net) && IsTopoOrder(net, order) && 0 <= i < |order| && |ec| == net.n + 1
    ensures RaisedBy(net, order, i, ec, ec')
  {
    var u := order[i];
    ec' := ec;
    var k := 0;
    while k < |net.succ[u]|
      invariant 0 <= k <= |net.succ[u]|
      invariant PartlyRaised(net, order, i, ec, ec', k)
    {
      var v := net.succ[u][k];
      ghost var prev := ec';
      ec' := ec'[v := Max(ec'[v], ec'[u] + net.dur[v])];
      RaiseOne(net, order, i, ec, prev, k);
      k := k + 1;
    }
  }

  /** `RaisedBy` for the first `k` successors of `order[i]`. */
  ghost predicate PartlyRaised(net: Network, order: seq<int>, i: int, ec: seq<int>, ec': seq<int>, k: int)
    requires WellFormed(net) && IsTopoOrder(net, order) && 0 <= i < |order| && |ec| == net.n + 1
  {
    && |ec'| == net.n + 1
    && (forall x :: IsNode(net, x) ==> ec'[x] >= ec[x])
    && (forall j :: 0 <= j <= i ==> ec'[order[j]] == ec[order[j]])
    && (forall k' :: 0 <= k' < k && k' < |net.succ[order[i]]| ==>
          ec'[net.succ[order[i]][k']] >= ec[order[i]] + net.dur[net.succ[order[i]][k']])
    && (forall x :: IsNode(net, x) ==>
          ec'[x] == ec[x] || (x in net.succ[order[i]] && ec'[x] == ec[order[i]] + net.dur[x]))
  }

  /** Relaxing the `k`-th successor `v` of `u = order[i]`; `v` comes after `u`, so
      `u` and the vertices before it keep their value. */
  lemma RaiseOne(net: Network, order: seq<int>, i: int, ec: seq<int>, ec1: seq<int>, k: int)
    requires WellFormed(net) && IsTopoOrder(net, order) && 0 <= i < |order| && |ec| == net.n + 1
    requires PartlyRaised(net, order, i, ec, ec1, k) && 0 <= k < |net.succ[order[i]]|
    ensures var u, v := order[i], net.succ[order[i]][k];
      PartlyRaised(net, order, i, ec, ec1[v := Max(ec1[v], ec1[u] + net.dur[v])], k + 1)
  {
    var u, v := order[i], net.succ[order[i]][k];
    SuccLater(net, order, u, v);
    IndexOfAt(net, order, i);
    forall j | 0 <= j <= i
      ensures order[j] != v
    {
      IndexOfAt(net, order, j);
    }
  }

  /** What the forward pass has established after the first `i` vertices of
      the order: their edges are relaxed, and every raised `ec(v)` comes from a
      processed predecessor `via[v]`. */
  ghost predicate ForwardInv(net: Network, order: seq<int>, s: int, i: int, ec: seq<int>, via: seq<int>)
    requires WellFormed(net) && IsTopoOrder(net, order)
  {
    && 0 <= i <= |order| && |ec| == net.n + 1 && |via| == net.n + 1
    && (forall v :: IsNode(net, v) ==> ec[v] >= EcInit(s, v))
    && (forall j, k :: 0 <= j < i && 0 <= k < |net.succ[order[j]]| ==>
          ec[net.succ[order[j]][k]] >= ec[order[j]] + net.dur[net.succ[order[j]][k]])
    && (forall v :: IsNode(net, v) && via[v] == 0 ==> ec[v] == EcInit(s, v))
    && (forall v {:trigger via[v]} :: IsNode(net, v) && via[v] != 0 ==>
          IsNode(net, via[v]) && IndexOf(order, via[v]) < i && v in net.succ[via[v]] &&
          ec[v] == ec[via[v]] + net.dur[v])
  }

  /** `via'` records `order[i]` for the vertices its round raised. */
  lemma ForwardStep(net: Network, order: seq<int>, s: int, i: int, ec: seq<int>, via: seq<int>, ec': seq<int>)
    returns (via': seq<int>)
    requires WellFormed(net) && IsTopoOrder(net, order) && 0 <= i < |order|
    requires ForwardInv(net, order, s, i, ec, via)
    requires RaisedBy(net, order, i, ec, ec')
    ensures ForwardInv(net, order, s, i + 1, ec', via')
  {
    via' := seq(net.n + 1, x requires 0 <= x < |via| => if ec'[x] != ec[x] then order[i] else via[x]);
    IndexOfAt(net, order, i);
    forall j, k | 0 <= j < i + 1 && 0 <= k < |net.succ[order[j]]|
      ensures ec'[net.succ[order[j]][k]] >= ec'[order[j]] + net.dur[net.succ[order[j]][k]]
    {
      ForwardEdge(net, order, s, i, ec, via, ec', j, k);
    }
    forall v | IsNode(net, v) && via'[v] != 0
      ensures IsNode(net, via'[v]) && IndexOf(order, via'[v]) < i + 1 && v in net.succ[via'[v]]
      ensures ec'[v] == ec'[via'[v]] + net.dur[v]
    {
      ForwardVia(net, order, s, i, ec, via, ec', via', v);
    }
  }

  /** An edge out of a processed vertex stays relaxed. */
  lemma ForwardEdge(net: Network, order: seq<int>, s: int, i: int, ec: seq<int>, via: seq<int>,
                    ec': seq<int>, j: int, k: int)
    requires WellFormed(net) && IsTopoOrder(net, order) && i < |order|
    requires ForwardInv(net, order, s, i, ec, via) && RaisedBy(net, order, i, ec, ec')
    requires 0 <= j < i + 1 && 0 <= k < |net.succ[order[j]]|
    ensures ec'[net.succ[order[j]][k]] >= ec'[order[j]] + net.dur[net.succ[order[j]][k]]
  {
    var v := net.succ[order[j]][k];
    assert IsNode(net, v);
    assert ec'[order[j]] == ec[order[j]];
    if j < i {
      assert ec[v] >= ec[order[j]] + net.dur[v];
    }
  }

  /** A recorded reason is a processed predecessor whose value still explains `ec'(v)`. */
  lemma ForwardVia(net: Network, order: seq<int>, s: int, i: int, ec: seq<int>, via: seq<int>,
                   ec': seq<int>, via': seq<int>, v: int)
    requires WellFormed(net) && IsTopoOrder(net, order) && i < |order|
    requires ForwardInv(net, order, s, i, ec, via) && RaisedBy(net, order, i, ec, ec')
    requires |via'| == net.n + 1
    requires forall x :: IsNode(net, x) ==> via'[x] == if ec'[x] != ec[x] then order[i] else via[x]
    requires IsNode(net, v) && via'[v] != 0
    ensures IsNode(net, via'[v]) && IndexOf(order, via'[v]) < i + 1 && v in net.succ[via'[v]]
    ensures ec'[v] == ec'[via'[v]] + net.dur[v]
  {
    if ec'[v] == ec[v] {
      var u := via[v];
      IndexOfAt(net, order, IndexOf(order, u));
      assert ec'[u] == ec[u];
    } else {
      IndexOfAt(net, order, i);
      assert ec'[order[i]] == ec[order[i]];
    }
  }

  /** The forward pass: `ec` starts at `IntMin` except `ec(s) = 0`; in
      topological order, each edge `u -> v` raises `ec(v)` to `ec(u) + d(v)`. */
  method ForwardPass(net: Network, order: seq<int>, s: int) returns (ec: seq<int>)
    requires WellFormed(net) && IsTopoOrder(net, order) && IsNode(net, s)
    ensures EcEquations(net, s, ec)
  {
    ec := seq(net.n + 1, v => EcInit(s, v));
    ghost var via: seq<int> := seq(net.n + 1, _ => 0);
    ForwardStart(net, order, s, ec, via);
    var i := 0;
    while i < |order|
      invariant ForwardInv(net, order, s, i, ec, via)
    {
      ec, via := ForwardRound(net, order, s, i, ec, via);
      i := i + 1;
    }
    ForwardDone(net, order, s, ec, via);
  }

  /** The turn of `u = order[i]` in the forward pass; `via` records, for the
      vertices whose `ec` it raises, that `u` was the reason. */
  method ForwardRound(net: Network, order: seq<int>, s: int, i: int, ec: seq<int>, ghost via: seq<int>)
    returns (ec': seq<int>, ghost via': seq<int>)
    requires WellFormed(net) && IsTopoOrder(net, order) && 0 <= i < |order|
    requires ForwardInv(net, order, s, i, ec, via)
    ensures RaisedBy(net, order, i, ec, ec')
    ensures ForwardInv(net, order, s, i + 1, ec', via')
  {
    ec' := RelaxSuccessors(net, order, i, ec);
    via' := ForwardStep(net, order, s, i, ec, via, ec');
  }

  lemma ForwardStart(net: Network, order: seq<int>, s: int, ec: seq<int>, via: seq<int>)
    requires WellFormed(net) && IsTopoOrder(net, order)
    requires ec == seq(net.n + 1, v => EcInit(s, v)) && via == seq(net.n + 1, _ => 0)
    ensures ForwardInv(net, order, s, 0, ec, via)
  {
  }

  /** Once every vertex is processed, every edge is relaxed: the equations hold. */
  lemma ForwardDone(net: Network, order: seq<int>, s: int, ec: seq<int>, via: seq<int>)
    requires WellFormed(net) && IsTopoOrder(net, order) && ForwardInv(net, order, s, |order|, ec, via)
    ensures EcEquations(net, s, ec)
  {
    forall u, k | IsNode(net, u) && 0 <= k < |net.succ[u]|
      ensures ec[net.succ[u][k]] >= ec[u] + net.dur[net.succ[u][k]]
    {
      var j := IndexOf(order, u);
    }
    forall v | IsNode(net, v)
      ensures EcAttained(net, s, ec, v)
    {
      var u := via[v];
    }
  }

  /** `lc'` is `lc` after relaxing the `revAdj` entries of `u = order[i]`:
      nothing increases, `u` and the vertices after it keep their value, every
      listed `p` is at most `lc(u) - d(u)`, and every changed value is exactly that. */
  ghost predicate LoweredBy(net: Network, order: seq<int>, i: int, lc: seq<int>, lc': seq<int>)
    requires WellFormed(net) && IsTopoOrder(net, order) && 0 <= i < |order| && |lc| == net.n + 1
  {
    && |lc'| == net.n + 1
    && (forall x :: IsNode(net, x) ==> lc'[x] <= lc[x])
    && (forall j :: i <= j < |order| ==> lc'[order[j]] == lc[order[j]])
    && (forall k :: 0 <= k < |net.pred[order[i]]| ==>
          lc'[net.pred[order[i]][k]] <= lc[order[i]] - net.dur[order[i]])
    && (forall x :: IsNode(net, x) ==>
          lc'[x] == lc[x] || (x in net.pred[order[i]] && lc'[x] == lc[order[i]] - net.dur[order[i]]))
  }

  method RelaxPredecessors(net: Network, order: seq<int>, i: int, lc: seq<int>) returns (lc': seq<int>)
    requires WellFormed(net) && Mirrored(net) && IsTopoOrder(net, order) && 0 <= i < |order|
    requires |lc| == net.n + 1
    ensures LoweredBy(net, order, i, lc, lc')
  {
    var u := order[i];
    lc' := lc;
    var k := 0;
    while k < |net.pred[u]|
      invariant 0 <= k <= |net.pred[u]|
      invariant PartlyLowered(net, order, i, lc, lc', k)
    {
      var p := net.pred[u][k];
      ghost var prev := lc';
      lc' := lc'[p := Min(lc'[p], lc'[u] - net.dur[u])];
      LowerOne(net, order, i, lc, prev, k);
      k := k + 1;
    }
  }

  /** `LoweredBy` for the first `k` entries of `order[i]`'s `revAdj`. */
  ghost predicate PartlyLowered(net: Network, order: seq<int>, i: int, lc: seq<int>, lc': seq<int>, k: int)
    requires WellFormed(net) && IsTopoOrder(net, order) && 0 <= i < |order| && |lc| == net.n + 1
  {
    && |lc'| == net.n + 1
    && (forall x :: IsNode(net, x) ==> lc'[x] <= lc[x])
    && (forall j :: i <= j < |order| ==> lc'[order[j]] == lc[order[j]])
    && (forall k' :: 0 <= k' < k && k' < |net.pred[order[i]]| ==>
          lc'[net.pred[order[i]][k']] <= lc[order[i]] - net.dur[order[i]])
    && (forall x :: IsNode(net, x) ==>
          lc'[x] == lc[x] || (x in net.pred[order[i]] && lc'[x] == lc[order[i]] - net.dur[order[i]]))
  }

  /** Relaxing the `k`-th entry `p` of `u.revAdj`, `u = order[i]`; in a mirrored
      network `p` comes before `u`, so `u` and the vertices after it keep their value. */
  lemma LowerOne(net: Network, order: seq<int>, i: int, lc: seq<int>, lc1: seq<int>, k: int)
    requires WellFormed(net) && Mirrored(net) && IsTopoOrder(net, order) && 0 <= i < |order| && |lc| == net.n + 1
    requires PartlyLowered(net, order, i, lc, lc1, k) && 0 <= k < |net.pred[order[i]]|
    ensures var u, p := order[i], net.pred[order[i]][k];
      PartlyLowered(net, order, i, lc, lc1[p := Min(lc1[p], lc1[u] - net.dur[u])], k + 1)
  {
    var u, p := order[i], net.pred[order[i]][k];
    assert u in net.succ[p];
    SuccLater(net, order, p, u);
    IndexOfAt(net, order, i);
    forall j | i <= j < |order|
      ensures order[j] != p
    {
      IndexOfAt(net, order, j);
    }
  }

  /** What the backward pass has established once the vertices from index `i`
      on are processed: their `revAdj` lists are relaxed, and every lowered
      `lc(p)` comes from a processed vertex `via[p]`. */
  ghost predicate BackwardInv(net: Network, order: seq<int>, top: int, i: int, lc: seq<int>, via: seq<int>)
    requires WellFormed(net) && IsTopoOrder(net, order)
  {
    && 0 <= i <= |order| && |lc| == net.n + 1 && |via| == net.n + 1
    && (forall p :: IsNode(net, p) ==> lc[p] <= top)
    && (forall j, k :: i <= j < |order| && 0 <= k < |net.pred[order[j]]| ==>
          lc[net.pred[order[j]][k]] <= lc[order[j]] - net.dur[order[j]])
    && (forall p :: IsNode(net, p) && via[p] == 0 ==> lc[p] == top)
    && (forall p {:trigger via[p]} :: IsNode(net, p) && via[p] != 0 ==>
          IsNode(net, via[p]) && IndexOf(order, via[p]) >= i && p in net.pred[via[p]] &&
          lc[p] == lc[via[p]] - net.dur[via[p]])
  }

  /** `via'` records `order[i - 1]` for the vertices its round lowered. */
  lemma BackwardStep(net: Network, order: seq<int>, top: int, i: int, lc: seq<int>, via: seq<int>, lc': seq<int>)
    returns (via': seq<int>)
    requires WellFormed(net) && IsTopoOrder(net, order) && 0 < i <= |order|
    requires BackwardInv(net, order, top, i, lc, via)
    requires LoweredBy(net, order, i - 1, lc, lc')
    ensures BackwardInv(net, order, top, i - 1, lc', via')
  {
    var u := order[i - 1];
    via' := seq(net.n + 1, x requires 0 <= x < |via| => if lc'[x] != lc[x] then u else via[x]);
    IndexOfAt(net, order, i - 1);
    forall j, k | i - 1 <= j < |order| && 0 <= k < |net.pred[order[j]]|
      ensures lc'[net.pred[order[j]][k]] <= lc'[order[j]] - net.dur[order[j]]
    {
      BackwardEntry(net, order, top, i, lc, via, lc', j, k);
    }
    forall p | IsNode(net, p) && via'[p] != 0
      ensures IsNode(net, via'[p]) && IndexOf(order, via'[p]) >= i - 1 && p in net.pred[via'[p]]
      ensures lc'[p] == lc'[via'[p]] - net.dur[via'[p]]
    {
      BackwardVia(net, order, top, i, lc, via, lc', via', p);
    }
  }

  /** A `revAdj` entry of a processed vertex stays relaxed. */
  lemma BackwardEntry(net: Network, order: seq<int>, top: int, i: int, lc: seq<int>, via: seq<int>,
                      lc': seq<int>, j: int, k: int)
    requires WellFormed(net) && IsTopoOrder(net, order) && 0 < i <= |order|
    requires BackwardInv(net, order, top, i, lc, via) && LoweredBy(net, order, i - 1, lc, lc')
    requires i - 1 <= j < |order| && 0 <= k < |net.pred[order[j]]|
    ensures lc'[net.pred[order[j]][k]] <= lc'[order[j]] - net.dur[order[j]]
  {
    var p := net.pred[order[j]][k];
    assert IsNode(net, p);
    assert lc'[order[j]] == lc[order[j]];
    if j >= i {
      assert lc[p] <= lc[order[j]] - net.dur[order[j]];
    }
  }

  /** A recorded reason is a processed vertex whose value still explains `lc'(p)`. */
  lemma BackwardVia(net: Network, order: seq<int>, top: int, i: int, lc: seq<int>, via: seq<int>,
                    lc': seq<int>, via': seq<int>, p: int)
    requires WellFormed(net) && IsTopoOrder(net, order) && 0 < i <= |order|
    requires BackwardInv(net, order, top, i, lc, via) && LoweredBy(net, order, i - 1, lc, lc')
    requires |via'| == net.n + 1
    requires forall x :: IsNode(net, x) ==> via'[x] == if lc'[x] != lc[x] then order[i - 1] else via[x]
    requires IsNode(net, p) && via'[p] != 0
    ensures IsNode(net, via'[p]) && IndexOf(order, via'[p]) >= i - 1 && p in net.pred[via'[p]]
    ensures lc'[p] == lc'[via'[p]] - net.dur[via'[p]]
  {
    if lc'[p] == lc[p] {
      var u := via[p];
      IndexOfAt(net, order, IndexOf(order, u));
      assert lc'[u] == lc[u];
    } else {
      IndexOfAt(net, order, i - 1);
      assert lc'[order[i - 1]] == lc[order[i - 1]];
    }
  }

  /** The backward pass: every `lc` starts at `top` (`ec(t)`); in reverse
      topological order, for each `p` in `u.revAdj`, `lc(p)` is lowered to
      `lc(u) - d(u)`. */
  method BackwardPass(net: Network, order: seq<int>, top: int) returns (lc: seq<int>)
    requires WellFormed(net) && Mirrored(net) && IsTopoOrder(net, order)
    ensures LcEquations(net, top, lc)
  {
    lc := seq(net.n + 1, _ => top);
    ghost var via: seq<int> := seq(net.n + 1, _ => 0);
    BackwardStart(net, order, top, lc, via);
    var i := |order|;
    while i > 0
      invariant BackwardInv(net, order, top, i, lc, via)
    {
      lc, via := BackwardRound(net, order, top, i, lc, via);
      i := i - 1;
    }
    BackwardDone(net, order, top, lc, via);
  }

  /** The turn of `u = order[i - 1]` in the backward pass; `via` records, for
      the vertices whose `lc` it lowers, that `u` was the reason. */
  method BackwardRound(net: Network, order: seq<int>, top: int, i: int, lc: seq<int>, ghost via: seq<int>)
    returns (lc': seq<int>, ghost via': seq<int>)
    requires WellFormed(net) && Mirrored(net) && IsTopoOrder(net, order) && 0 < i <= |order|
    requires BackwardInv(net, order, top, i, lc, via)
    ensures LoweredBy(net, order, i - 1, lc, lc')
    ensures BackwardInv(net, order, top, i - 1, lc', via')
  {
    lc' := RelaxPredecessors(net, order, i - 1, lc);
    via' := BackwardStep(net, order, top, i, lc, via, lc');
  }

  lemma BackwardStart(net: Network, order: seq<int>, top: int, lc: seq<int>, via: seq<int>)
    requires WellFormed(net) && IsTopoOrder(net, order)
    requires lc == seq(net.n + 1, _ => top) && via == seq(net.n + 1, _ => 0)
    ensures BackwardInv(net, order, top, |order|, lc, via)
  {
  }

  /** Once every vertex is processed, every `revAdj` entry is relaxed: the equations hold. */
  lemma BackwardDone(net: Network, order: seq<int>, top: int, lc: seq<int>, via: seq<int>)
    requires WellFormed(net) && IsTopoOrder(net, order) && BackwardInv(net, order, top, 0, lc, via)
    ensures LcEquations(net, top, lc)
  {
    forall u, k | IsNode(net, u) && 0 <= k < |net.pred[u]|
      ensures lc[net.pred[u][k]] <= lc[u] - net.dur[u]
    {
      var j := IndexOf(order, u);
    }
    forall p | IsNode(net, p)
      ensures LcAttained(net, top, lc, p)
    {
      var u := via[p];
    }
  }

  /** Vertices other than `s` and `t` with zero slack. */
  function CriticalSet(n: nat, s: int, t: int, slack: seq<int>): set<int>
    requires |slack| == n + 1
  {
    set v | 1 <= v <= n && v != s && v != t && slack[v] == 0
  }

  /** Slack `lc - ec` of every vertex, and the number of critical vertices
      other than `s` and `t`. */
  method SlackAndCount(n: nat, s: int, t: int, ec: seq<int>, lc: seq<int>) returns (slack: seq<int>, count: nat)
    requires |ec| == n + 1 && |lc| == n + 1
    ensures |slack| == n + 1
    ensures forall v :: 1 <= v <= n ==> slack[v] == lc[v] - ec[v]
    ensures count == |CriticalSet(n, s, t, slack)|
  {
    slack := seq(n + 1, _ => 0);
    count := 0;
    var v := 1;
    while v <= n
      invariant 1 <= v <= n + 1 && |slack| == n + 1
      invariant forall x :: 1 <= x < v ==> slack[x] == lc[x] - ec[x]
      invariant count == |set x | 1 <= x < v && x != s && x != t && slack[x] == 0|
    {
      var before := set x | 1 <= x < v && x != s && x != t && slack[x] == 0;
      slack := slack[v := lc[v] - ec[v]];
      var after := set x | 1 <= x < v + 1 && x != s && x != t && slack[x] == 0;
      if slack[v] == 0 && v != s && v != t {
        assert after == before + {v};
        count := count + 1;
      } else {
        assert after == before;
      }
      v := v + 1;
    }
    assert CriticalSet(n, s, t, slack) == set x | 1 <= x < v && x != s && x != t && slack[x] == 0;
  }

  // ---------------------------------------------------------------------
  // What ec means: the heaviest walk ending at v, counted from its start value.

  /** Along any walk, `ec` grows by at least the durations passed. */
  lemma {:induction false} EcAlongPath(net: Network, s: int, ec: seq<int>, p: seq<int>)
    requires WellFormed(net) && EcEquations(net, s, ec) && IsPath(net, p)
    ensures ec[p[|p| - 1]] >= ec[p[0]] + Weight(net, p)
    decreases |p|
  {
    if |p| > 1 {
      var q := p[..|p| - 1];
      PathPrefix(net, p, |p| - 1);
      EcAlongPath(net, s, ec, q);
      var u, v := p[|p| - 2], p[|p| - 1];
      var k :| 0 <= k < |net.succ[u]| && net.succ[u][k] == v;
    }
  }

  /** Every `ec` value is the start value of some walk's first vertex plus the walk's weight. */
  lemma {:induction false} EcWitness(net: Network, order: seq<int>, s: int, ec: seq<int>, v: int)
    returns (p: seq<int>)
    requires WellFormed(net) && IsTopoOrder(net, order) && EcEquations(net, s, ec) && IsNode(net, v)
    ensures IsPath(net, p) && p[|p| - 1] == v
    ensures ec[v] == EcInit(s, p[0]) + Weight(net, p)
    decreases IndexOf(order, v)
  {
    assert EcAttained(net, s, ec, v);
    if ec[v] == EcInit(s, v) {
      p := [v];
    } else {
      var u :| IsNode(net, u) && v in net.succ[u] && ec[v] == ec[u] + net.dur[v];
      SuccLater(net, order, u, v);
      var q := EcWitness(net, order, s, ec, u);
      PathExtend(net, q, v);
      p := q + [v];
    }
  }

  /** `ec(v)` is the maximum, over all walks ending at `v`, of the first
      vertex's start value plus the walk's weight. */
  lemma EcIsHeaviestWalk(net: Network, order: seq<int>, s: int, ec: seq<int>, v: int)
    requires WellFormed(net) && IsTopoOrder(net, order) && EcEquations(net, s, ec) && IsNode(net, v)
    ensures forall p {:trigger IsPath(net, p)} :: IsPath(net, p) && p[|p| - 1] == v ==> ec[v] >= EcInit(s, p[0]) + Weight(net, p)
    ensures exists p {:trigger IsPath(net, p)} :: IsPath(net, p) && p[|p| - 1] == v && ec[v] == EcInit(s, p[0]) + Weight(net, p)
  {
    forall p | IsPath(net, p) && p[|p| - 1] == v
      ensures ec[v] >= EcInit(s, p[0]) + Weight(net, p)
    {
      EcAlongPath(net, s, ec, p);
    }
    var w := EcWitness(net, order, s, ec, v);
  }

  /** With no edge into `s`, `ec(s)` keeps its forced value 0. */
  lemma StartAtZero(net: Network, s: int, ec: seq<int>)
    requires WellFormed(net) && EcEquations(net, s, ec) && IsNode(net, s)
    requires forall u :: IsNode(net, u) ==> s !in net.succ[u]
    ensures ec[s] == 0
  {
    assert EcAttained(net, s, ec, s);
  }

  // ---------------------------------------------------------------------
  // What lc means: `top` minus the heaviest walk leaving v.

  /** Along any walk, `lc` grows by at least the durations passed. */
  lemma {:induction false} LcAlongPath(net: Network, top: int, lc: seq<int>, p: seq<int>)
    requires WellFormed(net) && Mirrored(net) && LcEquations(net, top, lc) && IsPath(net, p)
    ensures lc[p[0]] <= lc[p[|p| - 1]] - Weight(net, p)
    decreases |p|
  {
    if |p| > 1 {
      var q := p[..|p| - 1];
      PathPrefix(net, p, |p| - 1);
      LcAlongPath(net, top, lc, q);
      var u, v := p[|p| - 2], p[|p| - 1];
      assert u in net.pred[v];
      var k :| 0 <= k < |net.pred[v]| && net.pred[v][k] == u;
    }
  }

  /** Every `lc` value is `top` minus the weight of some walk leaving the vertex. */
  lemma {:induction false} LcWitness(net: Network, order: seq<int>, top: int, lc: seq<int>, v: int)
    returns (p: seq<int>)
    requires WellFormed(net) && Mirrored(net) && IsTopoOrder(net, order) && LcEquations(net, top, lc)
    requires IsNode(net, v)
    ensures IsPath(net, p) && p[0] == v
    ensures lc[v] == top - Weight(net, p)
    decreases |order| - IndexOf(order, v)
  {
    assert LcAttained(net, top, lc, v);
    if lc[v] == top {
      p := [v];
    } else {
      var u :| IsNode(net, u) && v in net.pred[u] && lc[v] == lc[u] - net.dur[u];
      assert u in net.succ[v];
      SuccLater(net, order, v, u);
      var q := LcWitness(net, order, top, lc, u);
      PathCons(net, v, q);
      p := [v] + q;
    }
  }

  /** `lc(v)` is the minimum, over all walks leaving `v`, of `top` minus the walk's weight. */
  lemma LcIsTopMinusHeaviest(net: Network, order: seq<int>, top: int, lc: seq<int>, v: int)
    requires WellFormed(net) && Mirrored(net) && IsTopoOrder(net, order) && LcEquations(net, top, lc)
    requires IsNode(net, v)
    ensures forall p {:trigger IsPath(net, p)} :: IsPath(net, p) && p[0] == v ==> lc[v] <= top - Weight(net, p)
    ensures exists p {:trigger IsPath(net, p)} :: IsPath(net, p) && p[0] == v && lc[v] == top - Weight(net, p)
  {
    forall p | IsPath(net, p) && p[0] == v
      ensures lc[v] <= top - Weight(net, p)
    {
      LcAlongPath(net, top, lc, p);
    }
    var w := LcWitness(net, order, top, lc, v);
  }

  // ---------------------------------------------------------------------
  // Slack on a graph where every task leads to t.

  /** If every vertex other than `t` has a successor, every vertex reaches `t`. */
  lemma {:induction false} ReachEnd(net: Network, order: seq<int>, t: int, x: int)
    requires WellFormed(net) && IsTopoOrder(net, order) && IsNode(net, t) && IsNode(net, x)
    requires forall y :: IsNode(net, y) && y != t ==> |net.succ[y]| > 0
    ensures Reaches(net, x, t)
    decreases |order| - IndexOf(order, x)
  {
    if x == t {
      assert IsPath(net, [t]);
    } else {
      var y := net.succ[x][0];
      SuccLater(net, order, x, y);
      ReachEnd(net, order, t, y);
      var q :| IsPath(net, q) && q[0] == y && q[|q| - 1] == t;
      PathCons(net, x, q);
      assert ([x] + q)[0] == x && ([x] + q)[|[x] + q| - 1] == t;
    }
  }

  /** With non-negative durations and every vertex reaching `t`, both passes
      leave every slack non-negative and the slack of `t` zero. */
  lemma SlackNonNegative(net: Network, order: seq<int>, s: int, t: int, ec: seq<int>, lc: seq<int>)
    requires WellFormed(net) && Mirrored(net) && IsTopoOrder(net, order) && IsNode(net, t)
    requires EcEquations(net, s, ec) && LcEquations(net, ec[t], lc)
    requires forall x :: IsNode(net, x) ==> net.dur[x] >= 0
    requires forall x :: IsNode(net, x) ==> Reaches(net, x, t)
    ensures forall v :: IsNode(net, v) ==> lc[v] - ec[v] >= 0
    ensures lc[t] - ec[t] == 0
  {
    forall v | IsNode(net, v)
      ensures lc[v] >= ec[v]
    {
      var q := LcWitness(net, order, ec[t], lc, v);
      var w := q[|q| - 1];
      EcAlongPath(net, s, ec, q);
      var r :| IsPath(net, r) && r[0] == w && r[|r| - 1] == t;
      EcAlongPath(net, s, ec, r);
      WeightNonNegative(net, r);
    }
  }
}
