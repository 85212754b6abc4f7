/** Betweenness on a chain of nodes, each with an edge to the next. */
module ChainGraphs {
  import opened Digraphs
  import opened PropertyGraphs
  import opened Sums
  import opened PathCounts
  import opened Betweenness
  import opened Brandes
  import Dijkstra

  /** Every node leads to the next and to no other. */
  ghost predicate IsLine(d: Digraph) {
    forall u: nat, v: nat {:trigger Arc(d, u, v)} :: Arc(d, u, v) <==> v == u + 1 < |d|
  }

  /** The nodes from `s` to `t`. */
  function Run(s: nat, t: nat): seq<nat>
    requires s <= t
  {
    seq(t - s + 1, i requires 0 <= i => s + i)
  }

  lemma {:induction false} WalkIsRun(d: Digraph, p: seq<nat>, s: nat, t: nat)
    requires IsLine(d) && WalkFromTo(d, p, s, t)
    ensures s <= t && p == Run(s, t)
    decreases |p|
  {
    if |p| > 1 {
      var init, u := p[..|p| - 1], p[|p| - 2];
      assert Arc(d, p[|p| - 2], p[|p| - 2 + 1]);
      WalkIsRun(d, init, s, u);
      assert p == init + [t];
    }
  }

  lemma RunIsWalk(d: Digraph, s: nat, t: nat)
    requires IsLine(d) && s <= t < |d|
    ensures WalkFromTo(d, Run(s, t), s, t)
  {
    var p := Run(s, t);
    forall i | 0 <= i < |p| - 1
      ensures Arc(d, p[i], p[i + 1])
    {
      assert p[i + 1] == p[i] + 1;
    }
  }

  lemma LinePaths(d: Digraph, s: nat, t: nat)
    requires IsLine(d) && s < |d| && t < |d|
    ensures ShortestPaths(d, s, t) == if s <= t then {Run(s, t)} else {}
  {
    hide ShortestPaths, WalkFromTo, IsLine;
    forall p
      ensures p in ShortestPaths(d, s, t) <==> s <= t && p == Run(s, t)
    {
      ShortestAre(d, s, t, p);
      if s <= t {
        RunIsWalk(d, s, t);
      }
      forall q | WalkFromTo(d, q, s, t)
        ensures s <= t && q == Run(s, t)
      {
        WalkIsRun(d, q, s, t);
      }
    }
  }

  lemma LineFraction(d: Digraph, s: nat, t: nat, v: nat)
    requires IsLine(d) && s < |d| && t < |d|
    ensures Fraction(d, s, t, v) == if s <= v <= t then 1.0 else 0.0
  {
    hide ShortestPaths, IsLine;
    LinePaths(d, s, t);
    if s <= t {
      var p := Run(s, t);
      assert v in p <==> s <= v <= t by {
        assert s <= v <= t ==> p[v - s] == v;
      }
      assert Through({p}, v) == if v in p then {p} else {};
    }
  }

  /** Equal terms from index `a` on add up. */
  lemma {:induction false} SumTail(n: nat, f: int -> real, a: nat, c: real)
    requires a <= n && forall i :: 0 <= i < n ==> f(i) == if i < a then 0.0 else c
    ensures Sum(n, f) == (n - a) as real * c
  {
    if n == a {
      SumZero(n, f);
    } else {
      SumTail(n - 1, f, a, c);
    }
  }

  lemma {:induction false} SumFront(n: nat, f: int -> real, a: nat, c: real)
    requires a <= n && forall i :: 0 <= i < n ==> f(i) == if i < a then c else 0.0
    ensures Sum(n, f) == a as real * c
  {
    if n == a {
      SumTail(n, f, 0, c);
    } else {
      SumFront(n - 1, f, a, c);
    }
  }

  /** A node of a line lies between as many pairs as there are nodes before it times nodes behind it. */
  lemma LineBetweenness(d: Digraph, v: nat)
    requires IsLine(d) && v < |d|
    ensures BetweennessOf(d, v) == (v * (|d| - 1 - v)) as real
  {
    hide Fraction, IsLine;
    var behind := (|d| - 1 - v) as real;
    forall s | 0 <= s < |d|
      ensures Contributions(d, v)(s) == if s < v then behind else 0.0
    {
      if s != v {
        var f := t => if t != v && t != s then Fraction(d, s, t, v) else 0.0;
        forall t | 0 <= t < |d|
          ensures f(t) == if t < v + 1 || s > v then 0.0 else 1.0
        {
          LineFraction(d, s, t, v);
        }
        SumTail(|d|, f, if s > v then |d| else v + 1, 1.0);
      }
    }
    SumFront(|d|, Contributions(d, v), v, behind);
  }

  lemma ChainIsLine(g: Graph)
    requires g.Valid() && Dijkstra.IsChain(g)
    ensures IsLine(g.Succs()) && NoParallel(g.Succs())
  {
    var d := g.Succs();
    forall u: nat, v: nat
      ensures Arc(d, u, v) <==> v == u + 1 < |d|
    {
      if u < |d| && v < |d| {
        ArcIffEdge(g, u, v);
        assert v == u + 1 ==> g.edges[u].fromNode == u + 1 && g.edges[u].toNode == v + 1;
      }
    }
    forall u | 0 <= u < |d|
      ensures |d[u]| <= 1
    {
      ChainAdj(g.edges, u + 1);
    }
  }

  /** Along the chain a node has at most one adjacency entry. */
  lemma {:induction false} ChainAdj(edges: seq<Edge>, id: int)
    requires forall k :: 0 <= k < |edges| ==> edges[k] == Edge(k + 1, k + 1, k + 2, true)
    ensures |AdjOf(edges, id)| <= 1 && (id > |edges| ==> AdjOf(edges, id) == [])
  {
    if edges != [] {
      ChainAdj(edges[..|edges| - 1], id);
    }
  }

  /** On the stored chain of any number of nodes the node of index `v` gets v * (n - 1 - v). */
  method ChainCentrality(n: nat, hash: int -> nat) returns (cb: array<real>)
    requires 0 < n <= MAX_NODES
    ensures cb.Length == n && forall v :: 0 <= v < n ==> cb[v] == (v * (n - 1 - v)) as real
  {
    hide Dijkstra.IsChain, IsLine, NoParallel, BetweennessOf, Graph.Valid, PropertyGraph.Valid;
    var store := Dijkstra.BuildChain(n, hash);
    Dijkstra.ChainStored(store);
    var g := store.View();
    ChainIsLine(g);
    ghost var overflowed;
    cb, overflowed := CentralityBetweenness(g);
    forall v | 0 <= v < n
      ensures cb[v] == (v * (n - 1 - v)) as real
    {
      LineBetweenness(g.Succs(), v);
    }
  }
}
