/** Enumeration of the critical paths: a depth-first search from `s` that
    follows only "tight" edges and records a copy of its path buffer each
    time it reaches `t`. */
module Enumerate {
  import opened Networks
  import opened TopoSort
  import opened Passes

  /** The test `enumeratePaths` applies to an edge `u -> v`: both ends have
      zero slack and `v` finishes exactly `d(v)` after `u`. */
  predicate Tight(net: Network, ec: seq<int>, lc: seq<int>, u: int, v: int)
    requires |ec| == net.n + 1 && |lc| == net.n + 1 && |net.dur| == net.n + 1
    requires IsNode(net, u) && IsNode(net, v)
  {
    lc[u] == ec[u] && ec[v] == lc[v] && lc[u] + net.dur[v] == lc[v]
  }

  ghost predicate Times(net: Network, ec: seq<int>, lc: seq<int>)
  {
    WellFormed(net) && |ec| == net.n + 1 && |lc| == net.n + 1
  }

  /** A walk from `u` to `t` along tight edges on which `t` appears only at the end. */
  ghost predicate TightPath(net: Network, ec: seq<int>, lc: seq<int>, t: int, u: int, p: seq<int>)
    requires Times(net, ec, lc)
  {
    && IsPath(net, p) && p[0] == u && p[|p| - 1] == t
    && (forall i :: 0 < i < |p| ==> Tight(net, ec, lc, p[i - 1], p[i]))
    && (forall i :: 0 <= i < |p| - 1 ==> p[i] != t)
  }

  /** Every walk of `ps` is a tight walk from `u` to `t`. */
  ghost predicate AllTight(net: Network, ec: seq<int>, lc: seq<int>, t: int, u: int, ps: seq<seq<int>>)
    requires Times(net, ec, lc)
  {
    forall p :: p in ps ==> TightPath(net, ec, lc, t, u, p)
  }

  /** `pre + p` for every `p` of `ps`, in order. */
  function Prepend(pre: seq<int>, ps: seq<seq<int>>): (r: seq<seq<int>>)
    ensures |r| == |ps|
    ensures forall i :: 0 <= i < |ps| ==> r[i] == pre + ps[i]
  {
    seq(|ps|, i requires 0 <= i < |ps| => pre + ps[i])
  }

  /** One recorded path: a copy of the whole buffer and the index of `t` in it. */
  datatype Record = Record(snapshot: seq<int>, last: int)

  /** The path a record stands for: its snapshot up to and including `last`. */
  function Trim(r: Record): seq<int>
  {
    if 0 <= r.last < |r.snapshot| then r.snapshot[..r.last + 1] else []
  }

  function Trims(rs: seq<Record>): (r: seq<seq<int>>)
    ensures |r| == |rs|
    ensures forall i :: 0 <= i < |rs| ==> r[i] == Trim(rs[i])
  {
    seq(|rs|, i requires 0 <= i < |rs| => Trim(rs[i]))
  }

  // ---------------------------------------------------------------------
  // The reference: the tight walks from u to t, in the order the search finds them.

  /** The paths the search records from `u`: `[t]` itself, or for each entry
      `v` of `succ(u)` in list order, `u` followed by the paths from `v`
      when `u -> v` is tight. */
  ghost function PathsFrom(net: Network, ec: seq<int>, lc: seq<int>, order: seq<int>, t: int, u: int): seq<seq<int>>
    requires Times(net, ec, lc) && IsTopoOrder(net, order) && IsNode(net, u)
    decreases |order| - IndexOf(order, u), |net.succ[u]| + 1
  {
    if u == t then [[t]] else Branches(net, ec, lc, order, t, u, |net.succ[u]|)
  }

  /** What the first `k` entries of `succ(u)` contribute to `PathsFrom(u)`. */
  ghost function Branches(net: Network, ec: seq<int>, lc: seq<int>, order: seq<int>, t: int, u: int, k: int)
    : seq<seq<int>>
    requires Times(net, ec, lc) && IsTopoOrder(net, order) && IsNode(net, u) && 0 <= k <= |net.succ[u]|
    decreases |order| - IndexOf(order, u), k
  {
    if k == 0 then []
    else
      var v := net.succ[u][k - 1];
      Branches(net, ec, lc, order, t, u, k - 1) +
      if Tight(net, ec, lc, u, v) then
        SuccLater(net, order, u, v);
        Prepend([u], PathsFrom(net, ec, lc, order, t, v))
      else []
  }

  /** `Branches` at `k`, unfolded once. */
  lemma BranchesStep(net: Network, ec: seq<int>, lc: seq<int>, order: seq<int>, t: int, u: int, k: int)
    requires Times(net, ec, lc) && IsTopoOrder(net, order) && IsNode(net, u) && 0 < k <= |net.succ[u]|
    ensures IsNode(net, net.succ[u][k - 1])
    ensures Tight(net, ec, lc, u, net.succ[u][k - 1]) ==>
      Branches(net, ec, lc, order, t, u, k) ==
      Branches(net, ec, lc, order, t, u, k - 1) + Prepend([u], PathsFrom(net, ec, lc, order, t, net.succ[u][k - 1]))
    ensures !Tight(net, ec, lc, u, net.succ[u][k - 1]) ==>
      Branches(net, ec, lc, order, t, u, k) == Branches(net, ec, lc, order, t, u, k - 1)
  {
  }

  // ---------------------------------------------------------------------
  // The search itself.

  lemma PrependConcat(pre: seq<int>, a: seq<seq<int>>, b: seq<seq<int>>)
    ensures Prepend(pre, a + b) == Prepend(pre, a) + Prepend(pre, b)
  {
  }

  lemma PrependTwice(p: seq<int>, q: seq<int>, a: seq<seq<int>>)
    ensures Prepend(p, Prepend(q, a)) == Prepend(p + q, a)
  {
    forall i | 0 <= i < |a|
      ensures Prepend(p, Prepend(q, a))[i] == Prepend(p + q, a)[i]
    {
      assert p + (q + a[i]) == (p + q) + a[i];
    }
  }

  /** Every record holds a full copy of a buffer of length `n`, with `t` inside it. */
  ghost predicate Bounded(net: Network, rs: seq<Record>)
  {
    forall i :: 0 <= i < |rs| ==> |rs[i].snapshot| == net.n && 0 <= rs[i].last < net.n
  }

  /** The bookkeeping after one recursive call from `u` to `v`: the buffer
      keeps its first `index + 1` entries, and the records appended by the
      call follow those appended before it. */
  lemma ChildStep(net: Network, buf: seq<int>, index: nat, u: int, v: int, pre: seq<int>, buf': seq<int>,
                  paths: seq<Record>, mid: seq<Record>, paths': seq<Record>, b: seq<seq<int>>, sub: seq<seq<int>>)
    requires |pre| == |buf| && |buf'| == |buf| && index + 1 < |buf|
    requires pre[..index + 1] == buf[..index] + [u] && buf'[..index + 2] == pre[..index + 1] + [v]
    requires |paths| <= |mid| && mid[..|paths|] == paths
    requires |mid| <= |paths'| && paths'[..|mid|] == mid
    requires Bounded(net, mid[|paths|..]) && Bounded(net, paths'[|mid|..])
    requires Trims(mid[|paths|..]) == Prepend(buf[..index], b)
    requires Trims(paths'[|mid|..]) == Prepend(pre[..index + 1], sub)
    ensures buf'[..index + 1] == buf[..index] + [u]
    ensures paths'[..|paths|] == paths
    ensures Bounded(net, paths'[|paths|..])
    ensures Trims(paths'[|paths|..]) == Prepend(buf[..index], b + Prepend([u], sub))
  {
    assert buf'[..index + 1] == (buf'[..index + 2])[..index + 1];
    ChildRecords(net, paths, mid, paths', buf[..index], u, b, sub);
  }

  /** The records half of `ChildStep`: what the child appended follows what
      the earlier children appended. */
  lemma ChildRecords(net: Network, paths: seq<Record>, mid: seq<Record>, paths': seq<Record>,
                     prefix: seq<int>, u: int, b: seq<seq<int>>, sub: seq<seq<int>>)
    requires |paths| <= |mid| && mid[..|paths|] == paths
    requires |mid| <= |paths'| && paths'[..|mid|] == mid
    requires Bounded(net, mid[|paths|..]) && Bounded(net, paths'[|mid|..])
    requires Trims(mid[|paths|..]) == Prepend(prefix, b)
    requires Trims(paths'[|mid|..]) == Prepend(prefix + [u], sub)
    ensures paths'[..|paths|] == paths
    ensures Bounded(net, paths'[|paths|..])
    ensures Trims(paths'[|paths|..]) == Prepend(prefix, b + Prepend([u], sub))
  {
    SliceJoin(paths, mid, paths');
    var before, after := mid[|paths|..], paths'[|mid|..];
    BoundedConcat(net, before, after);
    TrimsConcat(before, after);
    PrependTwice(prefix, [u], sub);
    PrependConcat(prefix, b, Prepend([u], sub));
  }

  /** `c` extends `b`, which extends `a`: the part of `c` beyond `a` is the
      part of `b` beyond `a` followed by the part of `c` beyond `b`. */
  lemma SliceJoin<T>(a: seq<T>, b: seq<T>, c: seq<T>)
    requires |a| <= |b| && b[..|a|] == a
    requires |b| <= |c| && c[..|b|] == b
    ensures c[..|a|] == a
    ensures c[|a|..] == b[|a|..] + c[|b|..]
  {
    assert c[..|a|] == (c[..|b|])[..|a|];
    assert c[|a|..|b|] == b[|a|..];
  }

  lemma BoundedConcat(net: Network, a: seq<Record>, b: seq<Record>)
    requires Bounded(net, a) && Bounded(net, b)
    ensures Bounded(net, a + b)
  {
    forall i | 0 <= i < |a + b|
      ensures |(a + b)[i].snapshot| == net.n && 0 <= (a + b)[i].last < net.n
    {
      if i >= |a| {
        assert (a + b)[i] == b[i - |a|];
      }
    }
  }

  lemma TrimsConcat(a: seq<Record>, b: seq<Record>)
    ensures Trims(a + b) == Trims(a) + Trims(b)
  {
  }

  /** `enumeratePaths(path, u, index, t)`: writes `u` at `buf[index]`; at `t`
      it records a copy of the buffer, otherwise it recurses along every
      tight edge of `u.adj`.  `index` stays below the buffer's length `n`
      because it never exceeds `u`'s position in the topological order. */
  method EnumeratePaths(net: Network, ec: seq<int>, lc: seq<int>, t: int, ghost order: seq<int>,
                        buf: seq<int>, u: int, index: nat, paths: seq<Record>)
    returns (buf': seq<int>, paths': seq<Record>)
    requires Times(net, ec, lc) && IsTopoOrder(net, order) && IsNode(net, u) && IsNode(net, t)
    requires |buf| == net.n && index <= IndexOf(order, u)
    ensures |buf'| == |buf| && buf'[..index + 1] == buf[..index] + [u]
    ensures |paths'| >= |paths| && paths'[..|paths|] == paths
    ensures Bounded(net, paths'[|paths|..])
    ensures Trims(paths'[|paths|..]) == Prepend(buf[..index], PathsFrom(net, ec, lc, order, t, u))
    decreases |order| - IndexOf(order, u), 1
  {
    buf' := buf[index := u];
    assert buf'[..index + 1] == buf[..index] + [u];
    if u == t {
      paths' := paths + [Record(buf', index)];
      assert paths'[|paths|..] == [Record(buf', index)];
    } else {
      paths' := paths;
      SearchStart(net, ec, lc, t, order, buf, u, index, paths, buf', paths');
      var k := 0;
      while k < |net.succ[u]|
        invariant 0 <= k <= |net.succ[u]|
        invariant SearchInv(net, ec, lc, t, order, buf, u, index, paths, k, buf', paths')
      {
        buf', paths' := SearchTurn(net, ec, lc, t, order, buf, u, index, paths, k, buf', paths');
        k := k + 1;
      }
      SearchDone(net, ec, lc, t, order, buf, u, index, paths, buf', paths');
    }
  }

  /** One turn of the loop of `enumeratePaths` over `u.adj`: the `k`-th
      successor `v` is searched from when the edge `u -> v` is tight. */
  method SearchTurn(net: Network, ec: seq<int>, lc: seq<int>, t: int, ghost order: seq<int>,
                    buf: seq<int>, u: int, index: nat, ghost paths: seq<Record>, k: int,
                    buf0: seq<int>, paths0: seq<Record>)
    returns (buf': seq<int>, paths': seq<Record>)
    requires Times(net, ec, lc) && IsTopoOrder(net, order) && IsNode(net, u) && IsNode(net, t) && u != t
    requires 0 <= k < |net.succ[u]| && index <= IndexOf(order, u)
    requires SearchInv(net, ec, lc, t, order, buf, u, index, paths, k, buf0, paths0)
    ensures SearchInv(net, ec, lc, t, order, buf, u, index, paths, k + 1, buf', paths')
    decreases |order| - IndexOf(order, u), 0
  {
    var v := net.succ[u][k];
    buf', paths' := buf0, paths0;
    if lc[u] == ec[u] && ec[v] == lc[v] && lc[u] + net.dur[v] == lc[v] {
      SuccLater(net, order, u, v);
      buf', paths' := EnumeratePaths(net, ec, lc, t, order, buf0, v, index + 1, paths0);
    }
    SearchStep(net, ec, lc, t, order, buf, u, index, paths, k, buf0, paths0, buf', paths');
  }

  lemma SearchStart(net: Network, ec: seq<int>, lc: seq<int>, t: int, order: seq<int>,
                    buf: seq<int>, u: int, index: nat, paths: seq<Record>, buf': seq<int>, paths': seq<Record>)
    requires Times(net, ec, lc) && IsTopoOrder(net, order) && IsNode(net, u)
    requires |buf| == net.n && index <= IndexOf(order, u)
    requires buf' == buf[index := u] && paths' == paths
    ensures SearchInv(net, ec, lc, t, order, buf, u, index, paths, 0, buf', paths')
  {
    assert buf'[..index + 1] == buf[..index] + [u];
    assert paths'[|paths|..] == [];
  }

  lemma SearchDone(net: Network, ec: seq<int>, lc: seq<int>, t: int, order: seq<int>,
                   buf: seq<int>, u: int, index: nat, paths: seq<Record>, buf': seq<int>, paths': seq<Record>)
    requires Times(net, ec, lc) && IsTopoOrder(net, order) && IsNode(net, u) && u != t
    requires SearchInv(net, ec, lc, t, order, buf, u, index, paths, |net.succ[u]|, buf', paths')
    ensures |buf'| == |buf| && buf'[..index + 1] == buf[..index] + [u]
    ensures |paths'| >= |paths| && paths'[..|paths|] == paths
    ensures Bounded(net, paths'[|paths|..])
    ensures Trims(paths'[|paths|..]) == Prepend(buf[..index], PathsFrom(net, ec, lc, order, t, u))
  {
  }

  /** What holds after the search from `u` has tried the first `k` entries of `succ(u)`. */
  ghost predicate SearchInv(net: Network, ec: seq<int>, lc: seq<int>, t: int, order: seq<int>,
                            buf: seq<int>, u: int, index: nat, paths: seq<Record>, k: int,
                            buf': seq<int>, paths': seq<Record>)
    requires Times(net, ec, lc) && IsTopoOrder(net, order) && IsNode(net, u) && 0 <= k <= |net.succ[u]|
  {
    && |buf| == net.n && index < |buf|
    && |buf'| == |buf| && buf'[..index + 1] == buf[..index] + [u]
    && |paths'| >= |paths| && paths'[..|paths|] == paths
    && Bounded(net, paths'[|paths|..])
    && Trims(paths'[|paths|..]) == Prepend(buf[..index], Branches(net, ec, lc, order, t, u, k))
  }

  /** One turn of the loop over `succ(u)`: the call along a tight edge, or nothing. */
  lemma SearchStep(net: Network, ec: seq<int>, lc: seq<int>, t: int, order: seq<int>,
                   buf: seq<int>, u: int, index: nat, paths: seq<Record>, k: int,
                   pre: seq<int>, mid: seq<Record>, buf': seq<int>, paths': seq<Record>)
    requires Times(net, ec, lc) && IsTopoOrder(net, order) && IsNode(net, u) && IsNode(net, t) && u != t
    requires 0 <= k < |net.succ[u]| && index <= IndexOf(order, u)
    requires SearchInv(net, ec, lc, t, order, buf, u, index, paths, k, pre, mid)
    requires var v := net.succ[u][k];
      Tight(net, ec, lc, u, v) ==>
        && IsNode(net, v) && v in order
        && |buf'| == |pre| && buf'[..index + 2] == pre[..index + 1] + [v]
        && |paths'| >= |mid| && paths'[..|mid|] == mid
        && Bounded(net, paths'[|mid|..])
        && Trims(paths'[|mid|..]) == Prepend(pre[..index + 1], PathsFrom(net, ec, lc, order, t, v))
    requires !Tight(net, ec, lc, u, net.succ[u][k]) ==> buf' == pre && paths' == mid
    ensures SearchInv(net, ec, lc, t, order, buf, u, index, paths, k + 1, buf', paths')
  {
    var v := net.succ[u][k];
    SuccLater(net, order, u, v);
    var b := Branches(net, ec, lc, order, t, u, k);
    if Tight(net, ec, lc, u, v) {
      IndexOfAt(net, order, IndexOf(order, u));
      ChildStep(net, buf, index, u, v, pre, buf', paths, mid, paths', b, PathsFrom(net, ec, lc, order, t, v));
      BranchesStep(net, ec, lc, order, t, u, k + 1);
    } else {
      BranchesStep(net, ec, lc, order, t, u, k + 1);
    }
  }

  // ---------------------------------------------------------------------
  // What the reference lists: every tight walk from u to t, each once.

  /** `x` is among the first `k` entries of `succ(u)`. */
  ghost predicate AmongFirst(net: Network, u: int, k: int, x: int)
    requires WellFormed(net) && IsNode(net, u) && 0 <= k <= |net.succ[u]|
  {
    exists j :: 0 <= j < k && net.succ[u][j] == x
  }

  /** Each listed path is a tight walk from `u` to `t` that meets `t` only at its end. */
  lemma {:induction false} PathsFromSound(net: Network, ec: seq<int>, lc: seq<int>, order: seq<int>, t: int, u: int)
    requires Times(net, ec, lc) && IsTopoOrder(net, order) && IsNode(net, u) && IsNode(net, t)
    ensures AllTight(net, ec, lc, t, u, PathsFrom(net, ec, lc, order, t, u))
    decreases |order| - IndexOf(order, u), |net.succ[u]| + 1
  {
    if u == t {
      assert TightPath(net, ec, lc, t, u, [t]);
    } else {
      BranchesSound(net, ec, lc, order, t, u, |net.succ[u]|);
    }
  }

  /** Each walk the first `k` successors contribute is a tight walk from `u`
      to `t` whose second vertex is one of those successors. */
  ghost predicate BranchesAreSound(net: Network, ec: seq<int>, lc: seq<int>, order: seq<int>, t: int, u: int, k: int)
    requires Times(net, ec, lc) && IsTopoOrder(net, order) && IsNode(net, u) && 0 <= k <= |net.succ[u]|
  {
    ThroughFirst(net, ec, lc, t, u, k, Branches(net, ec, lc, order, t, u, k))
  }

  /** Every walk of `a` is a tight walk from `u` to `t` whose second vertex is
      among the first `k` entries of `succ(u)`. */
  ghost predicate ThroughFirst(net: Network, ec: seq<int>, lc: seq<int>, t: int, u: int, k: int, a: seq<seq<int>>)
    requires Times(net, ec, lc) && IsNode(net, u) && 0 <= k <= |net.succ[u]|
  {
    forall p {:trigger p in a} :: p in a ==> TightPath(net, ec, lc, t, u, p) && |p| >= 2 && AmongFirst(net, u, k, p[1])
  }

  lemma {:induction false} BranchesSound(net: Network, ec: seq<int>, lc: seq<int>, order: seq<int>, t: int, u: int, k: int)
    requires Times(net, ec, lc) && IsTopoOrder(net, order) && IsNode(net, u) && IsNode(net, t)
    requires u != t && 0 <= k <= |net.succ[u]|
    ensures BranchesAreSound(net, ec, lc, order, t, u, k)
    decreases |order| - IndexOf(order, u), k
  {
    if k > 0 {
      BranchesSound(net, ec, lc, order, t, u, k - 1);
      var v := net.succ[u][k - 1];
      if Tight(net, ec, lc, u, v) {
        SuccLater(net, order, u, v);
        PathsFromSound(net, ec, lc, order, t, v);
        TightBranchSound(net, ec, lc, order, t, u, k, v);
      } else {
        LooseBranchSound(net, ec, lc, order, t, u, k);
      }
    }
  }

  /** The step of `BranchesSound` past a `k`-th successor that is not tight. */
  lemma LooseBranchSound(net: Network, ec: seq<int>, lc: seq<int>, order: seq<int>, t: int, u: int, k: int)
    requires Times(net, ec, lc) && IsTopoOrder(net, order) && IsNode(net, u) && IsNode(net, t)
    requires u != t && 0 < k <= |net.succ[u]| && !Tight(net, ec, lc, u, net.succ[u][k - 1])
    requires BranchesAreSound(net, ec, lc, order, t, u, k - 1)
    ensures BranchesAreSound(net, ec, lc, order, t, u, k)
  {
    BranchesStep(net, ec, lc, order, t, u, k);
    AmongMore(net, ec, lc, t, u, k, Branches(net, ec, lc, order, t, u, k - 1));
  }

  /** The step of `BranchesSound` through a tight `k`-th successor `v`. */
  lemma TightBranchSound(net: Network, ec: seq<int>, lc: seq<int>, order: seq<int>, t: int, u: int, k: int, v: int)
    requires Times(net, ec, lc) && IsTopoOrder(net, order) && IsNode(net, u) && IsNode(net, t)
    requires u != t && 0 < k <= |net.succ[u]| && v == net.succ[u][k - 1] && IsNode(net, v) && Tight(net, ec, lc, u, v)
    requires BranchesAreSound(net, ec, lc, order, t, u, k - 1)
    requires AllTight(net, ec, lc, t, v, PathsFrom(net, ec, lc, order, t, v))
    ensures BranchesAreSound(net, ec, lc, order, t, u, k)
  {
    var a := Branches(net, ec, lc, order, t, u, k - 1);
    var sub := PathsFrom(net, ec, lc, order, t, v);
    BranchesStep(net, ec, lc, order, t, u, k);
    ConsThrough(net, ec, lc, t, u, k, a, sub);
  }

  /** Putting `u` in front of tight walks from its tight `k`-th successor
      extends a list of walks through its first `k - 1` successors. */
  lemma ConsThrough(net: Network, ec: seq<int>, lc: seq<int>, t: int, u: int, k: int, a: seq<seq<int>>, sub: seq<seq<int>>)
    requires Times(net, ec, lc) && IsNode(net, u) && u != t && 0 < k <= |net.succ[u]|
    requires Tight(net, ec, lc, u, net.succ[u][k - 1])
    requires ThroughFirst(net, ec, lc, t, u, k - 1, a)
    requires AllTight(net, ec, lc, t, net.succ[u][k - 1], sub)
    ensures ThroughFirst(net, ec, lc, t, u, k, a + Prepend([u], sub))
  {
    var v := net.succ[u][k - 1];
    forall q | q in sub
      ensures TightPath(net, ec, lc, t, u, [u] + q) && AmongFirst(net, u, k, ([u] + q)[1])
    {
      ConsTight(net, ec, lc, t, u, v, q);
      assert net.succ[u][k - 1] == ([u] + q)[1];
    }
    AmongMore(net, ec, lc, t, u, k, a);
  }

  /** Being among the first `k - 1` successors implies being among the first `k`. */
  lemma AmongMore(net: Network, ec: seq<int>, lc: seq<int>, t: int, u: int, k: int, a: seq<seq<int>>)
    requires Times(net, ec, lc) && IsNode(net, u) && 0 < k <= |net.succ[u]|
    requires ThroughFirst(net, ec, lc, t, u, k - 1, a)
    ensures ThroughFirst(net, ec, lc, t, u, k, a)
  {
    forall p | p in a
      ensures AmongFirst(net, u, k, p[1])
    {
      var j :| 0 <= j < k - 1 && net.succ[u][j] == p[1];
    }
  }

  /** A tight step `u -> v` in front of a tight walk from `v` to `t` is a tight walk from `u`. */
  lemma ConsTight(net: Network, ec: seq<int>, lc: seq<int>, t: int, u: int, v: int, q: seq<int>)
    requires Times(net, ec, lc) && IsNode(net, u) && IsNode(net, v) && u != t && v in net.succ[u]
    requires Tight(net, ec, lc, u, v) && TightPath(net, ec, lc, t, v, q)
    ensures TightPath(net, ec, lc, t, u, [u] + q) && |[u] + q| >= 2
  {
    PathCons(net, u, q);
    var p := [u] + q;
    forall i | 0 < i < |p|
      ensures Tight(net, ec, lc, p[i - 1], p[i])
    {
      if i > 1 {
        assert p[i - 1] == q[i - 2] && p[i] == q[i - 1];
      }
    }
  }

  /** With `u -> succ(u)[j]` tight, the paths through it are among the first `k > j` branches. */
  lemma {:induction false} BranchesContain(net: Network, ec: seq<int>, lc: seq<int>, order: seq<int>, t: int, u: int,
                                           j: int, k: int, p: seq<int>)
    requires Times(net, ec, lc) && IsTopoOrder(net, order) && IsNode(net, u)
    requires 0 <= j < k <= |net.succ[u]| && Tight(net, ec, lc, u, net.succ[u][j])
    requires p in Prepend([u], PathsFrom(net, ec, lc, order, t, net.succ[u][j]))
    ensures p in Branches(net, ec, lc, order, t, u, k)
    decreases k
  {
    if j < k - 1 {
      BranchesContain(net, ec, lc, order, t, u, j, k - 1, p);
    }
  }

  /** Along a walk of two vertices or more, the topological position grows. */
  lemma {:induction false} PathMovesForward(net: Network, order: seq<int>, p: seq<int>)
    requires WellFormed(net) && IsTopoOrder(net, order) && IsPath(net, p) && |p| >= 2
    ensures IndexOf(order, p[0]) < IndexOf(order, p[|p| - 1])
    decreases |p|
  {
    SuccLater(net, order, p[|p| - 2], p[|p| - 1]);
    if |p| > 2 {
      PathPrefix(net, p, |p| - 1);
      PathMovesForward(net, order, p[..|p| - 1]);
    }
  }

  /** Every walk from `u` to `t` along tight edges is listed. */
  lemma {:induction false} PathsFromComplete(net: Network, ec: seq<int>, lc: seq<int>, order: seq<int>, t: int, u: int,
                                             p: seq<int>)
    requires Times(net, ec, lc) && IsTopoOrder(net, order) && IsNode(net, u) && IsNode(net, t)
    requires IsPath(net, p) && p[0] == u && p[|p| - 1] == t
    requires forall i :: 0 < i < |p| ==> Tight(net, ec, lc, p[i - 1], p[i])
    ensures p in PathsFrom(net, ec, lc, order, t, u)
    decreases |p|
  {
    if u == t {
      if |p| >= 2 {
        PathMovesForward(net, order, p);
        assert false;
      }
      assert p == [t];
    } else {
      var v, q := p[1], p[1..];
      PathSuffix(net, p, 1);
      forall i | 0 < i < |q|
        ensures Tight(net, ec, lc, q[i - 1], q[i])
      {
        assert q[i - 1] == p[i] && q[i] == p[i + 1];
      }
      PathsFromComplete(net, ec, lc, order, t, v, q);
      var k :| 0 <= k < |net.succ[u]| && net.succ[u][k] == v;
      assert p == [u] + q;
      BranchesContain(net, ec, lc, order, t, u, k, |net.succ[u]|, p);
    }
  }

  /** No vertex lists the same successor twice. */
  ghost predicate NoParallelEdges(net: Network)
    requires WellFormed(net)
  {
    forall u, i, j :: IsNode(net, u) && 0 <= i < j < |net.succ[u]| ==> net.succ[u][i] != net.succ[u][j]
  }

  ghost predicate Distinct(ps: seq<seq<int>>)
  {
    forall i, j :: 0 <= i < j < |ps| ==> ps[i] != ps[j]
  }

  lemma DistinctConcat(a: seq<seq<int>>, b: seq<seq<int>>)
    requires Distinct(a) && Distinct(b) && forall x, y :: x in a && y in b ==> x != y
    ensures Distinct(a + b)
  {
    forall i, j | 0 <= i < j < |a + b|
      ensures (a + b)[i] != (a + b)[j]
    {
      if i < |a| <= j {
        assert (a + b)[i] in a && (a + b)[j] in b;
      }
    }
  }

  lemma DistinctPrepend(pre: seq<int>, ps: seq<seq<int>>)
    requires Distinct(ps)
    ensures Distinct(Prepend(pre, ps))
  {
    forall i, j | 0 <= i < j < |ps|
      ensures Prepend(pre, ps)[i] != Prepend(pre, ps)[j]
    {
      assert (pre + ps[i])[|pre|..] == ps[i] && (pre + ps[j])[|pre|..] == ps[j];
    }
  }

  /** Without parallel edges, no path is listed twice. */
  lemma {:induction false} PathsFromDistinct(net: Network, ec: seq<int>, lc: seq<int>, order: seq<int>, t: int, u: int)
    requires Times(net, ec, lc) && IsTopoOrder(net, order) && IsNode(net, u) && IsNode(net, t)
    requires NoParallelEdges(net)
    ensures Distinct(PathsFrom(net, ec, lc, order, t, u))
    decreases |order| - IndexOf(order, u), |net.succ[u]| + 1
  {
    if u != t {
      BranchesDistinct(net, ec, lc, order, t, u, |net.succ[u]|);
    }
  }

  lemma {:induction false} BranchesDistinct(net: Network, ec: seq<int>, lc: seq<int>, order: seq<int>, t: int, u: int,
                                            k: int)
    requires Times(net, ec, lc) && IsTopoOrder(net, order) && IsNode(net, u) && IsNode(net, t)
    requires NoParallelEdges(net) && u != t && 0 <= k <= |net.succ[u]|
    ensures Distinct(Branches(net, ec, lc, order, t, u, k))
    decreases |order| - IndexOf(order, u), k
  {
    if k > 0 {
      var v := net.succ[u][k - 1];
      BranchesDistinct(net, ec, lc, order, t, u, k - 1);
      if Tight(net, ec, lc, u, v) {
        SuccLater(net, order, u, v);
        PathsFromDistinct(net, ec, lc, order, t, v);
        TightBranchDistinct(net, ec, lc, order, t, u, k);
      } else {
        BranchesStep(net, ec, lc, order, t, u, k);
      }
    }
  }

  /** The step of `BranchesDistinct` through a tight `k`-th successor `v`. */
  lemma TightBranchDistinct(net: Network, ec: seq<int>, lc: seq<int>, order: seq<int>, t: int, u: int, k: int)
    requires Times(net, ec, lc) && IsTopoOrder(net, order) && IsNode(net, u) && IsNode(net, t)
    requires NoParallelEdges(net) && u != t && 0 < k <= |net.succ[u]|
    requires Tight(net, ec, lc, u, net.succ[u][k - 1])
    requires Distinct(Branches(net, ec, lc, order, t, u, k - 1))
    requires Distinct(PathsFrom(net, ec, lc, order, t, net.succ[u][k - 1]))
    ensures Distinct(Branches(net, ec, lc, order, t, u, k))
  {
    var v := net.succ[u][k - 1];
    var a := Branches(net, ec, lc, order, t, u, k - 1);
    var sub := PathsFrom(net, ec, lc, order, t, v);
    BranchesSound(net, ec, lc, order, t, u, k - 1);
    PathsFromSound(net, ec, lc, order, t, v);
    NewTailsDistinct(net, ec, lc, t, u, k, a, sub);
    BranchesStep(net, ec, lc, order, t, u, k);
  }

  /** Appending the walks through the `k`-th successor to those through the
      earlier ones keeps the list free of repeats. */
  lemma NewTailsDistinct(net: Network, ec: seq<int>, lc: seq<int>, t: int, u: int, k: int,
                          a: seq<seq<int>>, sub: seq<seq<int>>)
    requires Times(net, ec, lc) && NoParallelEdges(net) && IsNode(net, u) && 0 < k <= |net.succ[u]|
    requires Distinct(a) && Distinct(sub)
    requires ThroughFirst(net, ec, lc, t, u, k - 1, a)
    requires AllTight(net, ec, lc, t, net.succ[u][k - 1], sub)
    ensures Distinct(a + Prepend([u], sub))
  {
    DistinctPrepend([u], sub);
    forall y | y in Prepend([u], sub)
      ensures |y| >= 2 && y[1] == net.succ[u][k - 1]
    {
      var m :| 0 <= m < |sub| && y == [u] + sub[m];
      assert sub[m] in sub;
      assert TightPath(net, ec, lc, t, net.succ[u][k - 1], sub[m]);
    }
    TailsDiffer(net, u, k, a, Prepend([u], sub));
    DistinctConcat(a, Prepend([u], sub));
  }

  /** Walks leaving `u` by different entries of `succ(u)` differ. */
  lemma TailsDiffer(net: Network, u: int, k: int, a: seq<seq<int>>, ys: seq<seq<int>>)
    requires WellFormed(net) && NoParallelEdges(net) && IsNode(net, u) && 0 < k <= |net.succ[u]|
    requires forall x {:trigger x in a} :: x in a ==> |x| >= 2 && AmongFirst(net, u, k - 1, x[1])
    requires forall y {:trigger y in ys} :: y in ys ==> |y| >= 2 && y[1] == net.succ[u][k - 1]
    ensures forall x, y :: x in a && y in ys ==> x != y
  {
    forall x, y | x in a && y in ys
      ensures x != y
    {
      var j :| 0 <= j < k - 1 && net.succ[u][j] == x[1];
    }
  }

  // ---------------------------------------------------------------------
  // Critical paths are the heaviest walks from s to t.

  /** Along tight edges the weight gained is the growth of `lc`. */
  lemma {:induction false} TightWeight(net: Network, ec: seq<int>, lc: seq<int>, p: seq<int>)
    requires Times(net, ec, lc) && IsPath(net, p)
    requires forall i :: 0 < i < |p| ==> Tight(net, ec, lc, p[i - 1], p[i])
    ensures Weight(net, p) == lc[p[|p| - 1]] - lc[p[0]]
    decreases |p|
  {
    if |p| > 1 {
      PathPrefix(net, p, |p| - 1);
      TightWeight(net, ec, lc, p[..|p| - 1]);
      assert Tight(net, ec, lc, p[|p| - 2], p[|p| - 1]);
    }
  }

  /** The hypotheses under which slack means what CPM says it means. */
  ghost predicate Scheduled(net: Network, order: seq<int>, s: int, t: int, ec: seq<int>, lc: seq<int>)
  {
    && Times(net, ec, lc) && Mirrored(net) && IsTopoOrder(net, order) && IsNode(net, s) && IsNode(net, t)
    && EcEquations(net, s, ec) && LcEquations(net, ec[t], lc)
    && (forall x :: IsNode(net, x) ==> net.dur[x] >= 0)
    && (forall x :: IsNode(net, x) ==> Reaches(net, x, t))
  }

  /** On a walk from `s` to `t` of weight `ec(t) - ec(s)`, the `i`-th vertex
      has zero slack and finishes at `ec(s)` plus the weight so far. */
  lemma OnHeaviestWalk(net: Network, order: seq<int>, s: int, t: int, ec: seq<int>, lc: seq<int>, p: seq<int>, i: int)
    requires Scheduled(net, order, s, t, ec, lc)
    requires IsPath(net, p) && p[0] == s && p[|p| - 1] == t && Weight(net, p) == ec[t] - ec[s]
    requires 0 <= i < |p|
    ensures ec[p[i]] == lc[p[i]] == ec[s] + Weight(net, p[..i + 1])
  {
    WeightSplit(net, p, i);
    PathPrefix(net, p, i + 1);
    EcAlongPath(net, s, ec, p[..i + 1]);
    PathSuffix(net, p, i);
    LcAlongPath(net, ec[t], lc, p[i..]);
    SlackNonNegative(net, order, s, t, ec, lc);
  }

  /** A listed path from `s` weighs `ec(t) - ec(s)`. */
  lemma ListedAreHeaviest(net: Network, order: seq<int>, s: int, t: int, ec: seq<int>, lc: seq<int>, p: seq<int>)
    requires Scheduled(net, order, s, t, ec, lc) && p in PathsFrom(net, ec, lc, order, t, s)
    ensures IsPath(net, p) && p[0] == s && p[|p| - 1] == t && Weight(net, p) == ec[t] - ec[s]
  {
    SlackNonNegative(net, order, s, t, ec, lc);
    PathsFromSound(net, ec, lc, order, t, s);
    TightWeight(net, ec, lc, p);
    if |p| >= 2 {
      assert Tight(net, ec, lc, p[0], p[1]);
    }
  }

  /** A walk from `s` to `t` of weight `ec(t) - ec(s)` is listed. */
  lemma HeaviestAreListed(net: Network, order: seq<int>, s: int, t: int, ec: seq<int>, lc: seq<int>, p: seq<int>)
    requires Scheduled(net, order, s, t, ec, lc)
    requires IsPath(net, p) && p[0] == s && p[|p| - 1] == t && Weight(net, p) == ec[t] - ec[s]
    ensures p in PathsFrom(net, ec, lc, order, t, s)
  {
    forall i | 0 < i < |p|
      ensures Tight(net, ec, lc, p[i - 1], p[i])
    {
      HeaviestTight(net, order, s, t, ec, lc, p, i);
    }
    PathsFromComplete(net, ec, lc, order, t, s, p);
  }

  /** Each step of a heaviest walk from `s` to `t` is tight. */
  lemma HeaviestTight(net: Network, order: seq<int>, s: int, t: int, ec: seq<int>, lc: seq<int>, p: seq<int>, i: int)
    requires Scheduled(net, order, s, t, ec, lc)
    requires IsPath(net, p) && p[0] == s && p[|p| - 1] == t && Weight(net, p) == ec[t] - ec[s]
    requires 0 < i < |p|
    ensures Tight(net, ec, lc, p[i - 1], p[i])
  {
    OnHeaviestWalk(net, order, s, t, ec, lc, p, i - 1);
    OnHeaviestWalk(net, order, s, t, ec, lc, p, i);
    StepWeight(net, p, i);
  }

  lemma StepWeight(net: Network, p: seq<int>, i: int)
    requires OnNodes(net, p) && 0 < i < |p|
    ensures Weight(net, p[..i + 1]) == Weight(net, p[..i]) + net.dur[p[i]]
  {
    assert p[..i + 1][..i] == p[..i];
  }

  /** The listed paths from `s` are exactly the walks from `s` to `t` of
      weight `ec(t) - ec(s)`, and no walk from `s` to `t` is heavier. */
  lemma CriticalAreHeaviest(net: Network, order: seq<int>, s: int, t: int, ec: seq<int>, lc: seq<int>, p: seq<int>)
    requires Scheduled(net, order, s, t, ec, lc)
    ensures p in PathsFrom(net, ec, lc, order, t, s) <==>
      IsPath(net, p) && p[0] == s && p[|p| - 1] == t && Weight(net, p) == ec[t] - ec[s]
    ensures IsPath(net, p) && p[0] == s && p[|p| - 1] == t ==> Weight(net, p) <= ec[t] - ec[s]
  {
    if p in PathsFrom(net, ec, lc, order, t, s) {
      ListedAreHeaviest(net, order, s, t, ec, lc, p);
    }
    if IsPath(net, p) && p[0] == s && p[|p| - 1] == t {
      EcAlongPath(net, s, ec, p);
      if Weight(net, p) == ec[t] - ec[s] {
        HeaviestAreListed(net, order, s, t, ec, lc, p);
      }
    }
  }
}
