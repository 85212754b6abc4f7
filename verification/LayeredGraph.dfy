/** A graph with few nodes and many shortest paths: a source below layers of two nodes each. */
module LayeredGraphs {
  import opened Digraphs
  import opened PropertyGraphs
  import opened PathCounts
  import opened Betweenness
  import opened Brandes
  import opened Options

  /** The layer of a node: node 0 is alone in layer 0, nodes 2k - 1 and 2k form layer k. */
  function Layer(v: nat): nat {
    (v + 1) / 2
  }

  function Pow2(k: nat): nat {
    if k == 0 then 1 else 2 * Pow2(k - 1)
  }

  /** Every node leads to both nodes of the next layer and to no others. */
  ghost predicate IsLayered(d: Digraph) {
    IsDigraph(d) && forall u: nat, v: nat {:trigger Arc(d, u, v)} :: Arc(d, u, v) <==> u < |d| && v < |d| && Layer(v) == Layer(u) + 1
  }

  // ---------- Paths through the layers ----------

  lemma {:induction false} WalkLayers(d: Digraph, v: nat, k: nat)
    requires IsLayered(d) && Walks(d, 0, v, k) != {}
    ensures Layer(v) == k
    decreases k
  {
    var p :| p in Walks(d, 0, v, k);
    if k > 0 {
      var u, q :| 0 <= u < |d| && q in Walks(d, 0, u, k - 1) && Arc(d, u, v) && p == q + [v];
      WalkLayers(d, u, k - 1);
    }
  }

  ghost function Extended(walks: set<seq<nat>>, v: nat): set<seq<nat>> {
    set p | p in walks :: p + [v]
  }

  lemma {:induction false} ExtendedSize(walks: set<seq<nat>>, v: nat)
    ensures |Extended(walks, v)| == |walks|
  {
    if walks != {} {
      var p :| p in walks;
      var rest := walks - {p};
      ExtendedSize(rest, v);
      assert p + [v] !in Extended(rest, v) by {
        if q :| q in rest && q + [v] == p + [v] {
          assert q == (q + [v])[..|q|] && p == (p + [v])[..|p|];
        }
      }
      assert Extended(walks, v) == Extended(rest, v) + {p + [v]};
    }
  }

  /** The walks to a node of layer `k` double with every layer. */
  lemma {:induction false} WalksDouble(d: Digraph, v: nat, k: nat)
    requires IsLayered(d) && v < |d| && Layer(v) == k > 0
    ensures |Walks(d, 0, v, k)| == Pow2(k - 1)
    decreases k
  {
    var walks := Walks(d, 0, v, k);
    if k == 1 {
      assert Arc(d, 0, v);
      assert Walks(d, 0, 0, 0) == {[0]} && [0] + [v] == [0, v];
      forall p
        ensures p in walks <==> p == [0, v]
      {
        if p in walks {
          var u, q :| 0 <= u < |d| && q in Walks(d, 0, u, 0) && Arc(d, u, v) && p == q + [v];
          assert u == 0 && q == [0];
        }
      }
      assert walks == {[0, v]};
    } else {
      var a, b := 2 * k - 3, 2 * k - 2;
      WalksDouble(d, a, k - 1);
      WalksDouble(d, b, k - 1);
      SplitWalks(d, v, k, a, b);
      ExtendedSize(Walks(d, 0, a, k - 1), v);
      ExtendedSize(Walks(d, 0, b, k - 1), v);
    }
  }

  /** A walk to layer `k` comes over one of the two nodes of the layer below. */
  lemma SplitWalks(d: Digraph, v: nat, k: nat, a: nat, b: nat)
    requires IsLayered(d) && v < |d| && Layer(v) == k > 1 && a == 2 * k - 3 && b == 2 * k - 2
    ensures a < |d| && b < |d|
    ensures |Walks(d, 0, v, k)| == |Extended(Walks(d, 0, a, k - 1), v)| + |Extended(Walks(d, 0, b, k - 1), v)|
  {
    var left, right := Extended(Walks(d, 0, a, k - 1), v), Extended(Walks(d, 0, b, k - 1), v);
    assert Arc(d, a, v) && Arc(d, b, v);
    forall p
      ensures p in Walks(d, 0, v, k) <==> p in left + right
    {
      if p in Walks(d, 0, v, k) {
        var u, q :| 0 <= u < |d| && q in Walks(d, 0, u, k - 1) && Arc(d, u, v) && p == q + [v];
        assert u == a || u == b;
      }
    }
    assert left !! right by {
      forall p | p in left
        ensures p !in right
      {
        EndsAt(d, a, v, k, p);
        if p in right {
          EndsAt(d, b, v, k, p);
        }
      }
    }
    assert Walks(d, 0, v, k) == left + right;
  }

  lemma EndsAt(d: Digraph, u: nat, v: nat, k: nat, p: seq<nat>)
    requires k > 0 && p in Extended(Walks(d, 0, u, k - 1), v)
    ensures |p| == k + 1 && p[k - 1] == u
  {
    var q :| q in Walks(d, 0, u, k - 1) && p == q + [v];
    WalksAre(d, 0, u, k - 1, q);
  }

  /** From the source to a node of layer `k` lead 2^(k-1) shortest paths. */
  lemma LayerPaths(d: Digraph, v: nat, k: nat)
    requires IsLayered(d) && v < |d| && Layer(v) == k > 0
    ensures |ShortestPaths(d, 0, v)| == Pow2(k - 1)
  {
    WalksDouble(d, v, k);
    PowPositive(k - 1);
    forall j: nat | j < k
      ensures Walks(d, 0, v, j) == {}
    {
      if Walks(d, 0, v, j) != {} {
        WalkLayers(d, v, j);
      }
    }
    DistanceIs(d, 0, v, k);
  }

  lemma {:induction false} PowPositive(k: nat)
    ensures Pow2(k) > 0
  {
    if k > 0 {
      PowPositive(k - 1);
    }
  }

  // ---------- Building it ----------

  ghost predicate IsStep(e: Edge) {
    e.directed && e.fromNode >= 1 && e.toNode >= 1 && Layer(e.toNode - 1) == Layer(e.fromNode - 1) + 1
  }

  ghost predicate HasStep(edges: seq<Edge>, u: nat, v: nat) {
    exists k :: 0 <= k < |edges| && edges[k].directed && edges[k].fromNode == u + 1 && edges[k].toNode == v + 1
  }

  ghost predicate NoTwins(edges: seq<Edge>) {
    forall i, j :: 0 <= i < j < |edges| ==> edges[i].fromNode != edges[j].fromNode || edges[i].toNode != edges[j].toNode
  }

  /** The edges so far are those into the nodes below `v`, and from the nodes below `u` into `v`. */
  ghost predicate StepsUpTo(edges: seq<Edge>, v: nat, u: nat) {
    && NoTwins(edges)
    && (forall k :: 0 <= k < |edges| ==> IsStep(edges[k]) && (edges[k].toNode <= v || (edges[k].toNode == v + 1 && edges[k].fromNode <= u)))
    && (forall x: nat, y: nat {:trigger HasStep(edges, x, y)} :: Layer(y) == Layer(x) + 1 && (y < v || (y == v && x < u)) ==> HasStep(edges, x, y))
  }

  lemma StepAdded(edges: seq<Edge>, v: nat, u: nat, id: int)
    requires StepsUpTo(edges, v, u) && Layer(v) == Layer(u) + 1
    ensures StepsUpTo(edges + [Edge(id, u + 1, v + 1, true)], v, u + 1)
  {
    var edges' := edges + [Edge(id, u + 1, v + 1, true)];
    forall x: nat, y: nat | Layer(y) == Layer(x) + 1 && (y < v || (y == v && x < u + 1))
      ensures HasStep(edges', x, y)
    {
      if y == v && x == u {
        assert edges'[|edges|].fromNode == x + 1;
      } else {
        assert HasStep(edges, x, y);
        var k :| 0 <= k < |edges| && edges[k].directed && edges[k].fromNode == x + 1 && edges[k].toNode == y + 1;
        assert edges'[k] == edges[k];
      }
    }
  }

  lemma StepSkipped(edges: seq<Edge>, v: nat, u: nat)
    requires StepsUpTo(edges, v, u) && Layer(v) != Layer(u) + 1
    ensures StepsUpTo(edges, v, u + 1)
  {
  }

  lemma NodeDone(edges: seq<Edge>, v: nat)
    requires StepsUpTo(edges, v, v)
    ensures StepsUpTo(edges, v + 1, 0)
  {
  }

  lemma NoStepsYet()
    ensures StepsUpTo([], 0, 0)
  {
  }

  /** Directed edges without twins give each node different neighbours. */
  lemma {:induction false} DifferentNeighbours(edges: seq<Edge>, id: int)
    requires NoTwins(edges) && forall k :: 0 <= k < |edges| ==> edges[k].directed
    ensures forall i, j :: 0 <= i < j < |AdjOf(edges, id)| ==> AdjOf(edges, id)[i].neighborId != AdjOf(edges, id)[j].neighborId
  {
    if edges != [] {
      var init, e := edges[..|edges| - 1], edges[|edges| - 1];
      DifferentNeighbours(init, id);
      forall a | a in AdjOf(init, id) && e.fromNode == id
        ensures a.neighborId != e.toNode
      {
        var i := AdjOfSound(init, id, a);
        assert edges[i] == init[i];
      }
    }
  }

  /** The stored graph is layered, and no list names a node twice. */
  lemma StoredIsLayered(g: Graph)
    requires g.Valid() && StepsUpTo(g.edges, g.N(), 0)
    ensures IsLayered(g.Succs()) && NoParallel(g.Succs())
  {
    var d := g.Succs();
    forall u: nat, v: nat
      ensures Arc(d, u, v) <==> u < |d| && v < |d| && Layer(v) == Layer(u) + 1
    {
      if u < |d| && v < |d| {
        ArcIsStep(g, u, v);
      }
    }
    forall u, i, j | 0 <= u < |d| && 0 <= i < j < |d[u]|
      ensures d[u][i] != d[u][j]
    {
      DifferentNeighbours(g.edges, u + 1);
      assert g.adj[u][i].neighborId == g.Nbr(u, i) + 1 && g.adj[u][j].neighborId == g.Nbr(u, j) + 1;
    }
  }

  lemma ArcIsStep(g: Graph, u: nat, v: nat)
    requires g.Valid() && StepsUpTo(g.edges, g.N(), 0) && u < g.N() && v < g.N()
    ensures Arc(g.Succs(), u, v) <==> Layer(v) == Layer(u) + 1
  {
    hide Graph.Valid, NoTwins, Layer;
    ArcIffEdge(g, u, v);
    if Layer(v) == Layer(u) + 1 {
      assert HasStep(g.edges, u, v);
      var k :| 0 <= k < |g.edges| && g.edges[k].directed && g.edges[k].fromNode == u + 1 && g.edges[k].toNode == v + 1;
      assert PropertyGraphs.Joins(g.edges[k], u + 1, v + 1);
    }
    if k :| 0 <= k < |g.edges| && PropertyGraphs.Joins(g.edges[k], u + 1, v + 1) {
      assert IsStep(g.edges[k]);
    }
  }

  /** The source and `layers` layers of two nodes above it. */
  method BuildLayers(layers: nat, hash: int -> nat) returns (g: PropertyGraph)
    requires layers < 64
    ensures g.Valid() && g.View().Valid() && g.View().N() == 2 * layers + 1
    ensures IsLayered(g.View().Succs()) && NoParallel(g.View().Succs())
  {
    hide StepsUpTo, IsLayered, NoParallel, Indexed, Graph.Valid, PropertyGraph.Valid, Layer;
    g := new PropertyGraph(hash);
    var n := 2 * layers + 1;
    var v := 0;
    while v < n
      invariant 0 <= v <= n && fresh(g) && g.Valid() && |g.nodeIds| == v && g.edges == []
    {
      var id := g.CreateNode();
      v := v + 1;
    }
    v := 0;
    NoStepsYet();
    while v < n
      invariant 0 <= v <= n && fresh(g) && g.Valid() && |g.nodeIds| == n && StepsUpTo(g.edges, v, 0) && |g.edges| <= 127 * v
    {
      StepsInto(g, n, v);
      v := v + 1;
    }
    StoredIsValid(g);
    StoredIsLayered(g.View());
  }

  /** The edges into one node. */
  method StepsInto(g: PropertyGraph, n: nat, v: nat)
    requires g.Valid() && v < n == |g.nodeIds| <= 127 && StepsUpTo(g.edges, v, 0) && |g.edges| <= 127 * v
    modifies g
    ensures g.Valid() && g.nodeIds == old(g.nodeIds) && StepsUpTo(g.edges, v + 1, 0) && |g.edges| <= 127 * (v + 1)
  {
    hide StepsUpTo, Indexed, Graph.Valid, PropertyGraph.Valid, Layer;
    StoredIsValid(g);
    var u := 0;
    while u < v
      invariant 0 <= u <= v && g.Valid() && g.nodeIds == old(g.nodeIds) && StepsUpTo(g.edges, v, u) && |g.edges| <= 127 * v + u
    {
      if Layer(v) == Layer(u) + 1 {
        ghost var edges := g.edges;
        StepAdded(edges, v, u, |edges| + 1);
        var id := g.CreateEdge(u + 1, v + 1, true);
        assert g.edges == edges + [Edge(|edges| + 1, u + 1, v + 1, true)];
      } else {
        StepSkipped(g.edges, v, u);
      }
      u := u + 1;
    }
    NodeDone(g.edges, v);
  }

  lemma StoredIsValid(g: PropertyGraph)
    requires g.Valid()
    ensures g.View().Valid()
  {
  }

  /** 65 nodes are enough: to each node of layer 32 lead 2^31 shortest paths, one more than the counters hold. */
  method CountersOverflow(hash: int -> nat) returns (store: PropertyGraph, cb: array<real>, ghost overflowed: bool)
    ensures store.Valid() && store.View().Valid() && store.View().N() == 65 && NoParallel(store.View().Succs())
    ensures |ShortestPaths(store.View().Succs(), 0, 64)| == INT_MAX + 1 && overflowed
  {
    hide IsLayered, NoParallel, Graph.Valid, PropertyGraph.Valid, ShortestPaths;
    store := BuildLayers(32, hash);
    LayerPaths(store.View().Succs(), 64, 32);
    PowerOf31();
    cb, overflowed := CentralityBetweenness(store.View());
  }

  lemma PowerOf31()
    ensures Pow2(31) == INT_MAX + 1
  {
    assert Pow2(5) == 32;
    PowAdds(5, 5);
    PowAdds(10, 10);
    PowAdds(10, 20);
    PowAdds(1, 30);
  }

  lemma {:induction false} PowAdds(a: nat, b: nat)
    ensures Pow2(a + b) == Pow2(a) * Pow2(b)
  {
    if a > 0 {
      PowAdds(a - 1, b);
    }
  }
}
