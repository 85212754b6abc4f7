/** Kosaraju's two-pass strongly connected components. */
module Kosaraju {
  import opened Digraphs
  import opened PropertyGraphs

  // ---------- Pass 1: finishing order ----------

  /** Some node of `x`'s component finishes at or after the finished node `w`. */
  ghost predicate CoveredBy(d: Digraph, fin: seq<nat>, x: nat, w: nat)
    requires IsDigraph(d)
  {
    exists i, j :: 0 <= i <= j < |fin| && fin[i] == w && Mutual(d, fin[j], x)
  }

  /** What the finish stack of a completed first pass promises. */
  ghost predicate FinishOrder(d: Digraph, fin: seq<nat>)
    requires IsDigraph(d)
  {
    && (forall i :: 0 <= i < |fin| ==> fin[i] < |d|)
    && (forall i, j :: 0 <= i < j < |fin| ==> fin[i] != fin[j])
    && (forall v :: 0 <= v < |d| ==> v in fin)
    && (forall u: nat, w: nat {:trigger CoveredBy(d, fin, u, w)} :: u < |d| && Reach(d, u, w) ==> CoveredBy(d, fin, u, w))
  }

  /** The depth-first search invariant: `gray` are the open calls, `fin` the finished nodes in order. */
  ghost predicate DfsInv(d: Digraph, vis: seq<bool>, fin: seq<nat>, gray: set<nat>)
    requires IsDigraph(d)
  {
    && |vis| == |d|
    && (forall x <- gray :: x < |d| && vis[x] && x !in fin)
    && (forall i :: 0 <= i < |fin| ==> fin[i] < |d| && vis[fin[i]])
    && (forall x :: 0 <= x < |d| && vis[x] ==> x in gray || x in fin)
    && (forall i, j :: 0 <= i < j < |fin| ==> fin[i] != fin[j])
    && (forall x: nat, y: nat :: x in fin && Arc(d, x, y) ==> vis[y])
    && (forall x: nat, w: nat {:trigger CoveredBy(d, fin, x, w)} ::
          x in fin && Reach(d, x, w) ==> HeldOpen(d, gray, x) || CoveredBy(d, fin, x, w))
  }

  /** An open call of `x`'s component will still finish after everything finished so far. */
  ghost predicate HeldOpen(d: Digraph, gray: set<nat>, x: nat)
    requires IsDigraph(d)
  {
    exists o :: o in gray && Mutual(d, o, x)
  }

  /** Opening a call for the unvisited node `v` keeps the invariant. */
  lemma OpenKeeps(d: Digraph, vis: seq<bool>, fin: seq<nat>, gray: set<nat>, v: nat)
    requires IsDigraph(d) && DfsInv(d, vis, fin, gray) && v < |d| && !vis[v]
    ensures v !in gray && DfsInv(d, vis[v := true], fin, gray + {v})
  {
    forall x: nat, w: nat | x in fin && Reach(d, x, w)
      ensures HeldOpen(d, gray + {v}, x) || CoveredBy(d, fin, x, w)
    {
      if !CoveredBy(d, fin, x, w) {
        var o :| o in gray && Mutual(d, o, x);
        assert o in gray + {v};
      }
    }
  }

  /** Finishing `v`, the newest open call, keeps the invariant. */
  lemma FinishKeeps(d: Digraph, vis: seq<bool>, fin: seq<nat>, gray: set<nat>, v: nat)
    requires IsDigraph(d) && v !in gray && DfsInv(d, vis, fin, gray + {v})
    requires forall o <- gray :: Reach(d, o, v)
    requires forall y: nat :: Arc(d, v, y) ==> vis[y]
    ensures DfsInv(d, vis, fin + [v], gray)
  {
    var fin' := fin + [v];
    forall x: nat, w: nat | x in fin' && Reach(d, x, w)
      ensures HeldOpen(d, gray, x) || CoveredBy(d, fin', x, w)
    {
      ReachRefl(d, v);
      if x in fin && CoveredBy(d, fin, x, w) {
        var i, j :| 0 <= i <= j < |fin| && fin[i] == w && Mutual(d, fin[j], x);
        assert fin'[i] == w && Mutual(d, fin'[j], x);
      } else if !HeldOpen(d, gray, x) {
        assert Mutual(d, v, x);
        ReachTrans(d, v, x, w);
        ReachedIsFinished(d, vis, fin, gray, v, x, w);
        var i :| 0 <= i < |fin'| && fin'[i] == w;
        assert Mutual(d, fin'[|fin|], x);
      }
    }
  }

  /** If no other open call shares `v`'s component, all that `v` reaches is finished. */
  lemma ReachedIsFinished(d: Digraph, vis: seq<bool>, fin: seq<nat>, gray: set<nat>, v: nat, x: nat, w: nat)
    requires IsDigraph(d) && DfsInv(d, vis, fin, gray + {v})
    requires forall o <- gray :: Reach(d, o, v)
    requires forall y: nat :: Arc(d, v, y) ==> vis[y]
    requires Mutual(d, v, x) && !HeldOpen(d, gray, x) && Reach(d, v, w)
    ensures w in fin + [v]
  {
    var s := set y | 0 <= y < |d| && y in fin + [v] && Reach(d, v, y);
    ReachRefl(d, v);
    forall a: nat, b: nat | a in s && Arc(d, a, b)
      ensures b in s
    {
      ReachArc(d, a, b);
      ReachTrans(d, v, a, b);
      if b in gray {
        ReachTrans(d, b, v, x);
        ReachTrans(d, x, v, b);
        assert Mutual(d, b, x);
      }
    }
    ClosedForward(d, s, v, w);
  }

  /** No node finishes twice. */
  lemma FinishedFit(d: Digraph, vis: seq<bool>, fin: seq<nat>, gray: set<nat>)
    requires IsDigraph(d) && DfsInv(d, vis, fin, gray)
    ensures |fin| <= |d|
  {
    DistinctFits(fin, |d|);
  }

  function Unvisited(vis: seq<bool>): set<nat> {
    set x | 0 <= x < |vis| && !vis[x]
  }

  method Dfs1(d: Digraph, v: nat, visited: array<bool>, finishStack: array<nat>, top: nat, ghost gray: set<nat>)
    returns (top': nat)
    requires IsDigraph(d) && v < |d| && visited.Length == |d| == finishStack.Length && top <= |d|
    requires !visited[v] && forall o <- gray :: Reach(d, o, v)
    requires DfsInv(d, visited[..], finishStack[..top], gray)
    modifies visited, finishStack
    ensures top <= top' <= |d| && finishStack[..top] == old(finishStack[..top])
    ensures visited[v] && forall x :: 0 <= x < |d| && old(visited[x]) ==> visited[x]
    ensures DfsInv(d, visited[..], finishStack[..top'], gray)
    decreases Unvisited(visited[..])
  {
    hide DfsInv, Reach, CoveredBy;
    ghost var open := gray + {v};
    OpenKeeps(d, visited[..], finishStack[..top], gray, v);
    visited[v] := true;
    assert visited[..] == old(visited[..])[v := true];
    ReachRefl(d, v);
    top' := top;
    var k := 0;
    while k < |d[v]|
      invariant 0 <= k <= |d[v]| && top <= top' <= |d|
      invariant finishStack[..top] == old(finishStack[..top])
      invariant visited[v] && forall x :: 0 <= x < |d| && old(visited[x]) ==> visited[x]
      invariant DfsInv(d, visited[..], finishStack[..top'], open)
      invariant forall j :: 0 <= j < k ==> visited[d[v][j]]
    {
      var w := d[v][k];
      if !visited[w] {
        assert Arc(d, v, w);
        ReachArc(d, v, w);
        forall o | o in open
          ensures Reach(d, o, w)
        {
          ReachTrans(d, o, v, w);
        }
        assert v !in Unvisited(visited[..]) && v in old(Unvisited(visited[..]));
        top' := Dfs1(d, w, visited, finishStack, top', open);
      }
      k := k + 1;
    }
    FinishKeeps(d, visited[..], finishStack[..top'], gray, v);
    FinishedFit(d, visited[..], finishStack[..top'] + [v], gray);
    finishStack[top'] := v;
    assert finishStack[..top' + 1] == finishStack[..top'] + [v];
    top' := top' + 1;
  }

  /** Pass 1: every node finishes once, and components finish in the order that pass 2 relies on. */
  method FinishPass(d: Digraph, visited: array<bool>, finishStack: array<nat>)
    requires IsDigraph(d) && visited.Length == |d| == finishStack.Length && visited != finishStack as object
    requires forall i :: 0 <= i < |d| ==> !visited[i]
    modifies visited, finishStack
    ensures FinishOrder(d, finishStack[..])
  {
    var top := 0;
    var i := 0;
    while i < |d|
      invariant 0 <= i <= |d| && top <= |d|
      invariant DfsInv(d, visited[..], finishStack[..top], {})
      invariant forall x :: 0 <= x < i ==> visited[x]
    {
      if !visited[i] {
        top := Dfs1(d, i, visited, finishStack, top, {});
      }
      i := i + 1;
    }
    DistinctFits(finishStack[..top], |d|);
    AllPresent(finishStack[..top], |d|);
    assert finishStack[..] == finishStack[..top];
  }

  // ---------- Pass 2: components ----------

  /** `visited` holds every node that reaches one of its members. */
  ghost predicate PredClosed(d: Digraph, vis: seq<bool>)
    requires IsDigraph(d) && |vis| == |d|
  {
    forall x: nat, y: nat :: Arc(d, x, y) && vis[y] ==> vis[x]
  }

  /** The nodes newly visited by a search for `v` carry its id, reach `v`, and have visited predecessors. */
  ghost predicate Collected(d: Digraph, vis0: seq<bool>, vis: seq<bool>, comp0: seq<int>, comp: seq<int>, v: nat, id: int)
    requires IsDigraph(d) && |vis0| == |vis| == |comp0| == |comp| == |d|
  {
    && (forall x :: 0 <= x < |d| && vis0[x] ==> vis[x] && comp[x] == comp0[x])
    && (forall x :: 0 <= x < |d| && !vis[x] ==> comp[x] == comp0[x])
    && (forall x :: 0 <= x < |d| && vis[x] && !vis0[x] ==> comp[x] == id && Reach(d, x, v))
  }

  method Dfs2(d: Digraph, v: nat, visited: array<bool>, componentOf: array<int>, id: int)
    requires IsDigraph(d) && v < |d| && visited.Length == |d| == componentOf.Length && !visited[v]
    modifies visited, componentOf
    ensures visited[v] && Collected(d, old(visited[..]), visited[..], old(componentOf[..]), componentOf[..], v, id)
    ensures forall x: nat, y: nat :: Arc(d, x, y) && visited[y] && !old(visited[y]) ==> visited[x]
    decreases Unvisited(visited[..])
  {
    visited[v] := true;
    componentOf[v] := id;
    ReachRefl(d, v);
    ghost var vis0, comp0 := old(visited[..]), old(componentOf[..]);
    var i := 0;
    while i < |d|
      invariant 0 <= i <= |d| && visited[v]
      invariant Collected(d, vis0, visited[..], comp0, componentOf[..], v, id)
      invariant forall x: nat, y: nat :: Arc(d, x, y) && visited[y] && !vis0[y] && y != v ==> visited[x]
      invariant forall x: nat :: x < i && Arc(d, x, v) ==> visited[x]
    {
      var k := 0;
      while k < |d[i]|
        invariant 0 <= k <= |d[i]| && visited[v]
        invariant Collected(d, vis0, visited[..], comp0, componentOf[..], v, id)
        invariant forall x: nat, y: nat :: Arc(d, x, y) && visited[y] && !vis0[y] && y != v ==> visited[x]
        invariant forall x: nat :: x < i && Arc(d, x, v) ==> visited[x]
        invariant forall j :: 0 <= j < k && d[i][j] == v ==> visited[i]
      {
        if d[i][k] == v && !visited[i] {
          assert Arc(d, i, v);
          ReachArc(d, i, v);
          assert v !in Unvisited(visited[..]) && v in Unvisited(vis0);
          ghost var vis1, comp1 := visited[..], componentOf[..];
          Dfs2(d, i, visited, componentOf, id);
          CollectedChain(d, vis0, vis1, visited[..], comp0, comp1, componentOf[..], i, v, id);
        }
        k := k + 1;
      }
      i := i + 1;
    }
  }

  lemma CollectedChain(d: Digraph, vis0: seq<bool>, vis1: seq<bool>, vis2: seq<bool>,
                       comp0: seq<int>, comp1: seq<int>, comp2: seq<int>, i: nat, v: nat, id: int)
    requires IsDigraph(d) && |vis0| == |vis1| == |vis2| == |comp0| == |comp1| == |comp2| == |d|
    requires Reach(d, i, v)
    requires Collected(d, vis0, vis1, comp0, comp1, v, id) && Collected(d, vis1, vis2, comp1, comp2, i, id)
    ensures Collected(d, vis0, vis2, comp0, comp2, v, id)
  {
    forall x | 0 <= x < |d| && vis2[x] && !vis0[x]
      ensures comp2[x] == id && Reach(d, x, v)
    {
      if !vis1[x] {
        ReachTrans(d, x, i, v);
      }
    }
  }

  predicate HasMember(vis: seq<bool>, comp: seq<int>, c: int)
    requires |vis| == |comp|
  {
    exists u :: 0 <= u < |vis| && vis[u] && comp[u] == c
  }

  /** The components found so far: `count` ids, all used, equal exactly on mutually reachable nodes. */
  ghost predicate Components(d: Digraph, vis: seq<bool>, comp: seq<int>, count: nat)
    requires IsDigraph(d) && |vis| == |comp| == |d|
  {
    && PredClosed(d, vis)
    && (forall u :: 0 <= u < |d| && vis[u] ==> 0 <= comp[u] < count)
    && (forall c :: 0 <= c < count ==> HasMember(vis, comp, c))
    && (forall u, v :: 0 <= u < |d| && 0 <= v < |d| && vis[u] && vis[v] ==>
                         (comp[u] == comp[v] <==> Mutual(d, u, v)))
    && (forall u: nat, v: nat :: Arc(d, u, v) && vis[u] && vis[v] ==> comp[u] <= comp[v])
  }

  /** The unvisited nodes that reach the last-finished unvisited node `v` form `v`'s component. */
  lemma RootComponent(d: Digraph, fin: seq<nat>, vis: seq<bool>, i: nat, u: nat)
    requires IsDigraph(d) && FinishOrder(d, fin) && |vis| == |d| && i < |fin|
    requires PredClosed(d, vis) && !vis[fin[i]] && forall j :: i < j < |fin| ==> vis[fin[j]]
    requires u < |d| && !vis[u] && Reach(d, u, fin[i])
    ensures Mutual(d, u, fin[i])
  {
    assert CoveredBy(d, fin, u, fin[i]);
    var a, b :| 0 <= a <= b < |fin| && fin[a] == fin[i] && Mutual(d, fin[b], u);
    assert a == i;
    if vis[fin[b]] {
      ClosedBackward(d, (set x | 0 <= x < |d| && vis[x]), u, fin[b]);
    }
  }

  lemma ComponentAdded(d: Digraph, fin: seq<nat>, i: nat, vis0: seq<bool>, vis: seq<bool>, comp0: seq<int>, comp: seq<int>, count: nat)
    requires IsDigraph(d) && FinishOrder(d, fin) && i < |fin| && |vis0| == |vis| == |comp0| == |comp| == |d|
    requires Components(d, vis0, comp0, count)
    requires !vis0[fin[i]] && forall j :: i < j < |fin| ==> vis0[fin[j]]
    requires vis[fin[i]] && Collected(d, vis0, vis, comp0, comp, fin[i], count)
    requires forall x: nat, y: nat :: Arc(d, x, y) && vis[y] && !vis0[y] ==> vis[x]
    ensures Components(d, vis, comp, count + 1)
  {
    forall u, w | 0 <= u < |d| && 0 <= w < |d| && vis[u] && vis[w] && !vis0[u]
      ensures (comp[u] == comp[w] <==> Mutual(d, u, w)) && (comp[w] == comp[u] <==> Mutual(d, w, u))
    {
      RootComponent(d, fin, vis0, i, u);
      if !vis0[w] {
        RootComponent(d, fin, vis0, i, w);
        ReachTrans(d, u, fin[i], w);
        ReachTrans(d, w, fin[i], u);
      } else if Reach(d, u, w) {
        ClosedBackward(d, (set x | 0 <= x < |d| && vis0[x]), u, w);
      }
    }
    assert comp[fin[i]] == count;
    forall c | 0 <= c < count
      ensures HasMember(vis, comp, c)
    {
      assert HasMember(vis0, comp0, c);
      var u :| 0 <= u < |d| && vis0[u] && comp0[u] == c;
      assert vis[u] && comp[u] == c;
    }
  }

  /** Two nodes get the same id exactly when they reach each other; ids are 0..sccCount-1;
      arcs never lead to a smaller id. */
  method SccOfDigraph(d: Digraph, componentOf: array<int>) returns (r: nat, sccCount: nat)
    requires IsDigraph(d) && componentOf.Length == |d|
    modifies componentOf
    ensures r == |d|
    ensures forall u, v :: 0 <= u < |d| && 0 <= v < |d| ==> (componentOf[u] == componentOf[v] <==> Mutual(d, u, v))
    ensures forall u :: 0 <= u < |d| ==> 0 <= componentOf[u] < sccCount
    ensures forall c :: 0 <= c < sccCount ==> c in componentOf[..]
    ensures forall u: nat, v: nat :: Arc(d, u, v) ==> componentOf[u] <= componentOf[v]
  {
    hide Reach, CoveredBy, Collected, IsDigraph;
    var n := |d|;
    if n == 0 {
      return 0, 0;
    }
    var visited := new bool[n](_ => false);
    var finishStack := new nat[n](_ => 0);
    FinishPass(d, visited, finishStack);
    ghost var fin := finishStack[..];
    forall k | 0 <= k < n {
      visited[k] := false;
    }
    var comp := 0;
    var i := n - 1;
    while i >= 0
      invariant -1 <= i < n && finishStack[..] == fin
      invariant Components(d, visited[..], componentOf[..], comp)
      invariant forall j :: i < j < n ==> visited[fin[j]]
    {
      var v := finishStack[i];
      if !visited[v] {
        ghost var vis0, comp0 := visited[..], componentOf[..];
        Dfs2(d, v, visited, componentOf, comp);
        ComponentAdded(d, fin, i, vis0, visited[..], comp0, componentOf[..], comp);
        comp := comp + 1;
      }
      i := i - 1;
    }
    forall v | 0 <= v < n
      ensures visited[v]
    {
      assert v in fin;
    }
    ghost var vis, c := visited[..], componentOf[..];
    assert forall v :: 0 <= v < n ==> vis[v] && c[v] == componentOf[v];
    forall id | 0 <= id < comp
      ensures id in componentOf[..]
    {
      assert HasMember(vis, c, id);
    }
    r, sccCount := n, comp;
  }

  /** The same on the property graph's adjacency lists. */
  method SccKosaraju(g: Graph, componentOf: array<int>) returns (r: nat, sccCount: nat)
    requires g.Valid() && componentOf.Length == g.N()
    modifies componentOf
    ensures r == g.N()
    ensures forall u, v :: 0 <= u < g.N() && 0 <= v < g.N() ==>
                             (componentOf[u] == componentOf[v] <==> Reach(g.Succs(), u, v) && Reach(g.Succs(), v, u))
    ensures forall u :: 0 <= u < g.N() ==> 0 <= componentOf[u] < sccCount
    ensures forall c :: 0 <= c < sccCount ==> c in componentOf[..]
    ensures forall k :: 0 <= k < |g.edges| ==>
                          componentOf[g.edges[k].fromNode - 1] <= componentOf[g.edges[k].toNode - 1]
  {
    hide Reach;
    r, sccCount := SccOfDigraph(g.Succs(), componentOf);
    forall k | 0 <= k < |g.edges|
      ensures componentOf[g.edges[k].fromNode - 1] <= componentOf[g.edges[k].toNode - 1]
    {
      var u, v := g.edges[k].fromNode - 1, g.edges[k].toNode - 1;
      EdgeHasArc(g, u, v, k);
      assert Arc(g.Succs(), u, v);
    }
  }
}
