/** Kruskal's minimum spanning forest: exchange sort, union-find with path halving, greedy selection. */
module Kruskal {
  import Digraphs
  import opened PropertyGraphs
  import opened SpanningForests
  import opened Options

  // ---------- Union-find ----------

  /** `root[x]` is the representative of `x`'s class; ranks grow strictly along parent links. */
  ghost predicate UnionFind(parent: seq<nat>, rank: seq<nat>, root: seq<nat>) {
    && |parent| == |rank| == |root|
    && (forall x :: 0 <= x < |parent| ==> parent[x] < |parent| && root[x] < |parent|)
    && (forall x {:trigger Linked(parent, rank, root, x)} :: 0 <= x < |parent| ==> Linked(parent, rank, root, x))
    && (forall x {:trigger root[x]} :: 0 <= x < |root| ==> IsRoot(parent, root, root[x]))
  }

  ghost predicate Linked(parent: seq<nat>, rank: seq<nat>, root: seq<nat>, x: nat)
    requires |parent| == |rank| == |root| && x < |parent| && parent[x] < |parent|
  {
    if parent[x] == x then root[x] == x else rank[x] < rank[parent[x]] && root[parent[x]] == root[x]
  }

  predicate IsRoot(parent: seq<nat>, root: seq<nat>, r: nat) {
    r < |parent| && |root| == |parent| && parent[r] == r && root[r] == r
  }

  function MaxRank(rank: seq<nat>): (m: nat)
    ensures forall x :: 0 <= x < |rank| ==> rank[x] <= m
  {
    if rank == [] then 0
    else
      var m := MaxRank(rank[..|rank| - 1]);
      if rank[|rank| - 1] > m then rank[|rank| - 1] else m
  }

  /** Pointing a node at its grandparent keeps every class and every root. */
  lemma HalvingKeeps(parent: seq<nat>, rank: seq<nat>, root: seq<nat>, x: nat)
    requires UnionFind(parent, rank, root) && x < |parent| && parent[x] != x
    ensures UnionFind(parent[x := parent[parent[x]]], rank, root)
    ensures rank[x] < rank[parent[parent[x]]] && root[parent[parent[x]]] == root[x]
  {
    var up := parent[parent[x]];
    assert Linked(parent, rank, root, x) && Linked(parent, rank, root, parent[x]);
    var parent' := parent[x := up];
    forall y | 0 <= y < |parent|
      ensures Linked(parent', rank, root, y)
    {
      assert Linked(parent, rank, root, y);
    }
    forall y | 0 <= y < |root|
      ensures IsRoot(parent', root, root[y])
    {
      assert IsRoot(parent, root, root[y]);
    }
  }

  /** Finds the root by path halving; the partition is left as it was. */
  method Find(parent: array<nat>, x0: nat, ghost rank: seq<nat>, ghost root: seq<nat>) returns (x: nat)
    requires x0 < parent.Length && UnionFind(parent[..], rank, root)
    modifies parent
    ensures UnionFind(parent[..], rank, root) && x == root[x0] && IsRoot(parent[..], root, x)
  {
    x := x0;
    while parent[x] != x
      invariant x < parent.Length && UnionFind(parent[..], rank, root) && root[x] == root[x0]
      decreases MaxRank(rank) - rank[x]
    {
      ghost var before := parent[..];
      HalvingKeeps(before, rank, root, x);
      parent[x] := parent[parent[x]];
      assert parent[..] == before[x := before[before[x]]];
      x := parent[x];
    }
    assert Linked(parent[..], rank, root, x);
  }

  /** The classes of `x` and `y` made one under the root `to`. */
  function Relabelled(root: seq<nat>, from: nat, to: nat): (r: seq<nat>)
    ensures |r| == |root|
  {
    seq(|root|, v requires 0 <= v < |root| => if root[v] == from then to else root[v])
  }

  /** Linking one root under another root of higher rank merges exactly their classes. */
  lemma LinkKeeps(parent: seq<nat>, rank: seq<nat>, rank': seq<nat>, root: seq<nat>, from: nat, to: nat)
    requires UnionFind(parent, rank, root) && IsRoot(parent, root, from) && IsRoot(parent, root, to) && from != to
    requires |rank'| == |rank| && rank'[from] < rank'[to]
    requires forall x :: 0 <= x < |rank| && x != to ==> rank'[x] == rank[x]
    requires rank'[to] >= rank[to]
    ensures UnionFind(parent[from := to], rank', Relabelled(root, from, to))
  {
    var parent', root' := parent[from := to], Relabelled(root, from, to);
    forall y | 0 <= y < |parent|
      ensures Linked(parent', rank', root', y)
    {
      assert Linked(parent, rank, root, y);
    }
    forall y | 0 <= y < |root|
      ensures IsRoot(parent', root', root'[y])
    {
      assert IsRoot(parent, root, root[y]);
    }
  }

  /** Union by rank: merges the two classes and no others. */
  method Union(parent: array<nat>, rank: array<nat>, x: nat, y: nat, ghost root: seq<nat>) returns (ghost root': seq<nat>)
    requires parent != rank && parent.Length == rank.Length && x < parent.Length && y < parent.Length
    requires UnionFind(parent[..], rank[..], root)
    modifies parent, rank
    ensures UnionFind(parent[..], rank[..], root')
    ensures root[x] == root[y] ==> root' == root
    ensures root[x] != root[y] ==> root' == Relabelled(root, root[x], root[y]) || root' == Relabelled(root, root[y], root[x])
  {
    var rx := Find(parent, x, rank[..], root);
    var ry := Find(parent, y, rank[..], root);
    root' := root;
    if rx == ry {
      return;
    }
    ghost var p, k := parent[..], rank[..];
    assert IsRoot(p, root, rx) by {
      assert IsRoot(p, root, root[x]);
    }
    if rank[rx] < rank[ry] {
      LinkKeeps(p, k, k, root, rx, ry);
      parent[rx] := ry;
      root' := Relabelled(root, rx, ry);
      assert parent[..] == p[rx := ry];
    } else if rank[rx] > rank[ry] {
      LinkKeeps(p, k, k, root, ry, rx);
      parent[ry] := rx;
      root' := Relabelled(root, ry, rx);
      assert parent[..] == p[ry := rx];
    } else {
      LinkKeeps(p, k, k[rx := k[rx] + 1], root, ry, rx);
      parent[ry] := rx;
      rank[rx] := rank[rx] + 1;
      root' := Relabelled(root, ry, rx);
      assert parent[..] == p[ry := rx] && rank[..] == k[rx := k[rx] + 1];
    }
  }

  // ---------- Sorting ----------

  datatype EdgeWeight = EdgeWeight(idx: nat, w: real)

  /** `s` lists every edge index once, each with its own weight. */
  ghost predicate Lists(s: seq<EdgeWeight>, weights: seq<real>) {
    && |s| == |weights|
    && (forall i :: 0 <= i < |s| ==> s[i].idx < |weights| && s[i].w == weights[s[i].idx])
    && (forall i, j :: 0 <= i < j < |s| ==> s[i].idx != s[j].idx)
  }

  lemma SwapKeeps(s: seq<EdgeWeight>, weights: seq<real>, i: nat, j: nat)
    requires Lists(s, weights) && i < j < |s|
    ensures Lists(s[i := s[j]][j := s[i]], weights)
  {
  }

  /** The first `k` entries are in place: none is heavier than any entry after it. */
  predicate Settled(s: seq<EdgeWeight>, k: nat) {
    forall a, b :: 0 <= a < k && a < b < |s| ==> s[a].w <= s[b].w
  }

  /** Exchange sort by weight. */
  method SortByWeight(ew: array<EdgeWeight>, ghost weights: seq<real>)
    requires Lists(ew[..], weights)
    modifies ew
    ensures Lists(ew[..], weights) && Settled(ew[..], ew.Length)
  {
    hide Lists;
    var i := 0;
    while i < ew.Length - 1
      invariant 0 <= i <= ew.Length && (i < ew.Length || i == 0)
      invariant Lists(ew[..], weights) && Settled(ew[..], i)
    {
      var j := i + 1;
      while j < ew.Length
        invariant i < j <= ew.Length
        invariant Lists(ew[..], weights) && Settled(ew[..], i)
        invariant forall b :: i <= b < j ==> ew[i].w <= ew[b].w
      {
        ghost var s := ew[..];
        if ew[j].w < ew[i].w {
          SwapKeeps(s, weights, i, j);
          var tmp := ew[i];
          ew[i] := ew[j];
          ew[j] := tmp;
          assert ew[..] == s[i := s[j]][j := s[i]];
        }
        j := j + 1;
      }
      i := i + 1;
    }
  }

  // ---------- Selection ----------

  datatype MstEdge = MstEdge(fromId: int, toId: int, weight: real)

  /** The graph's edges between node indices; direction does not matter here. */
  function Links(g: Graph): (links: seq<Link>)
    requires g.Valid()
    ensures |links| == |g.edges| && InRange(g.N(), links)
  {
    seq(|g.edges|, k requires 0 <= k < |g.edges| =>
      assert 1 <= g.edges[k].fromNode <= g.N();
      Link(IndexOrZero(g, g.edges[k].fromNode), IndexOrZero(g, g.edges[k].toNode)))
  }

  function Weights(g: Graph, weight: Option<Edge -> real>): (w: seq<real>)
    ensures |w| == |g.edges|
  {
    seq(|g.edges|, k requires 0 <= k < |g.edges| => if weight.Some? then weight.value(g.edges[k]) else 1.0)
  }

  function Indices(s: seq<EdgeWeight>): (order: seq<nat>)
    ensures |order| == |s|
  {
    seq(|s|, i requires 0 <= i < |s| => s[i].idx)
  }

  /** The sorted list read as a processing order. */
  lemma SortedIsOrder(links: seq<Link>, weights: seq<real>, s: seq<EdgeWeight>)
    requires |links| == |weights| && Lists(s, weights) && Settled(s, |s|)
    ensures IsOrder(links, Indices(s)) && Ascending(weights, Indices(s))
  {
    var order := Indices(s);
    forall e | 0 <= e < |links|
      ensures e in order
    {
      if e !in order {
        Digraphs.DistinctFits(order + [e], |links|);
      }
    }
  }

  /** Union-find classes are the component labels of the edges seen so far. */
  ghost predicate SamePartition(root: seq<nat>, lab: seq<nat>) {
    |root| == |lab| && forall u, v :: 0 <= u < |root| && 0 <= v < |root| ==> (root[u] == root[v] <==> lab[u] == lab[v])
  }

  lemma MergeSame(root: seq<nat>, lab: seq<nat>, a: nat, b: nat, root': seq<nat>)
    requires SamePartition(root, lab) && a < |root| && b < |root|
    requires root[a] == root[b] ==> root' == root
    requires root[a] != root[b] ==> root' == Relabelled(root, root[a], root[b]) || root' == Relabelled(root, root[b], root[a])
    ensures SamePartition(root', Merge(lab, a, b))
  {
  }

  lemma {:induction false} GreedyPrefix(n: nat, links: seq<Link>, order: seq<nat>, i: nat, k: nat)
    requires InRange(n, links) && IsOrder(links, order) && i <= k <= |order|
    ensures Greedy(n, links, order, i) <= Greedy(n, links, order, k)
  {
    if i < k {
      GreedyPrefix(n, links, order, i, k - 1);
    }
  }

  lemma GreedyBelow(n: nat, links: seq<Link>, order: seq<nat>, k: nat)
    requires n > 0 && InRange(n, links) && IsOrder(links, order) && k <= |order|
    ensures |Greedy(n, links, order, k)| <= n - 1
  {
    var lab := Labels(n, links, order, AllEdges(links), k);
    ChosenLabels(n, links, order, k);
    LabelsCanonical(n, links, order, AllEdges(links), k);
    assert lab[0] in Roots(lab);
    assert Roots(lab) != {};
  }

  /** The entries written to the output buffer. */
  ghost predicate Written(g: Graph, weights: seq<real>, mst: seq<MstEdge>, chosen: seq<nat>) {
    && |weights| == |g.edges| && |chosen| <= |mst|
    && (forall j :: 0 <= j < |chosen| ==> chosen[j] < |g.edges|)
    && (forall j :: 0 <= j < |chosen| ==> mst[j] == OutputEdge(g, weights, chosen[j]))
  }

  function OutputEdge(g: Graph, weights: seq<real>, e: nat): MstEdge
    requires e < |g.edges| == |weights|
  {
    MstEdge(g.edges[e].fromNode, g.edges[e].toNode, weights[e])
  }

  /** Scans the sorted edges until the buffer or the forest is full. */
  method Select(g: Graph, ghost weights: seq<real>, ew: array<EdgeWeight>, mst: array<MstEdge>, maxEdges: int)
    returns (count: nat, ghost chosen: seq<nat>)
    requires g.Valid() && g.N() > 0 && |weights| == |g.edges| && Lists(ew[..], weights) && Settled(ew[..], ew.Length)
    requires IsOrder(Links(g), Indices(ew[..])) && maxEdges <= mst.Length && mst != ew as object
    modifies mst
    ensures Written(g, weights, mst[..], chosen) && count == |chosen|
    ensures chosen <= Greedy(g.N(), Links(g), Indices(ew[..]), ew.Length)
    ensures count == if maxEdges <= 0 then 0 else Min(maxEdges, |Greedy(g.N(), Links(g), Indices(ew[..]), ew.Length)|)
  {
    hide UnionFind, Greedy, Graph.Valid, IsOrder, Accepted, SamePartition, Labels, Merge, Lists, Settled, Written, Indices, Links;
    var n := g.N();
    var links := Links(g);
    ghost var s := ew[..];
    ghost var order := Indices(s);
    var parent := new nat[n](i => i);
    var rank := new nat[n](_ => 0);
    ghost var root: seq<nat> := seq(n, v => v);
    FreshForest(n, parent[..], rank[..], root);
    GreedyStart(n, links, order);
    count, chosen := 0, [];
    NothingWritten(g, weights, mst[..]);
    var i := 0;
    while i < ew.Length && count < maxEdges && count < n - 1
      invariant 0 <= i <= ew.Length && parent.Length == rank.Length == n && ew[..] == s && |root| == n
      invariant UnionFind(parent[..], rank[..], root)
      invariant SamePartition(root, Labels(n, links, order, AllEdges(links), i))
      invariant chosen == Greedy(n, links, order, i) && count == |chosen| && (count <= maxEdges || count == 0)
      invariant Written(g, weights, mst[..], chosen)
    {
      StepFacts(g, weights, s, links, i);
      var e := g.edges[ew[i].idx];
      var fi, ti := links[ew[i].idx].a, links[ew[i].idx].b;
      GreedyStep(n, links, order, i, root);
      var rf := Find(parent, fi, rank[..], root);
      var rt := Find(parent, ti, rank[..], root);
      ghost var root' := root;
      if rf != rt {
        root' := Union(parent, rank, fi, ti, root);
        WriteNext(g, weights, mst[..], chosen, order[i]);
        ghost var before := mst[..];
        mst[count] := MstEdge(e.fromNode, e.toNode, ew[i].w);
        assert mst[..] == before[count := OutputEdge(g, weights, order[i])];
        count := count + 1;
        chosen := chosen + [order[i]];
      }
      MergeSame(root, Labels(n, links, order, AllEdges(links), i), fi, ti, root');
      root := root';
      i := i + 1;
    }
    GreedyPrefix(n, links, order, i, ew.Length);
    GreedyBelow(n, links, order, ew.Length);
  }

  lemma NothingWritten(g: Graph, weights: seq<real>, mst: seq<MstEdge>)
    requires |weights| == |g.edges|
    ensures Written(g, weights, mst, [])
  {
  }

  lemma WriteNext(g: Graph, weights: seq<real>, mst: seq<MstEdge>, chosen: seq<nat>, e: nat)
    requires Written(g, weights, mst, chosen) && |chosen| < |mst| && e < |g.edges| == |weights|
    ensures Written(g, weights, mst[|chosen| := OutputEdge(g, weights, e)], chosen + [e])
  {
  }

  lemma StepFacts(g: Graph, weights: seq<real>, s: seq<EdgeWeight>, links: seq<Link>, i: nat)
    requires g.Valid() && Lists(s, weights) && |weights| == |g.edges| && links == Links(g) && i < |s|
    ensures s[i].idx < |g.edges| && s[i].w == weights[s[i].idx]
    ensures |Indices(s)| == |s| && Indices(s)[i] == s[i].idx
    ensures |links| == |g.edges| && InRange(g.N(), links)
  {
  }

  function Members(s: seq<nat>): set<nat> {
    set e <- s
  }

  function Min(a: int, b: int): int {
    if a < b then a else b
  }

  lemma FreshForest(n: nat, parent: seq<nat>, rank: seq<nat>, root: seq<nat>)
    requires |parent| == |rank| == n && root == seq(n, v => v)
    requires forall v :: 0 <= v < n ==> parent[v] == v
    ensures UnionFind(parent, rank, root)
  {
  }

  lemma GreedyStart(n: nat, links: seq<Link>, order: seq<nat>)
    requires InRange(n, links) && IsOrder(links, order)
    ensures Greedy(n, links, order, 0) == []
    ensures forall i :: 0 <= i < |order| ==> order[i] < |links|
    ensures SamePartition(seq(n, v => v), Labels(n, links, order, AllEdges(links), 0))
  {
  }

  /** One greedy step in terms of the union-find classes before it. */
  lemma GreedyStep(n: nat, links: seq<Link>, order: seq<nat>, i: nat, root: seq<nat>)
    requires InRange(n, links) && IsOrder(links, order) && i < |order|
    requires SamePartition(root, Labels(n, links, order, AllEdges(links), i))
    ensures order[i] < |links| && links[order[i]].a < n && links[order[i]].b < n && |root| == n
    ensures var lab := Labels(n, links, order, AllEdges(links), i);
            Labels(n, links, order, AllEdges(links), i + 1) == Merge(lab, links[order[i]].a, links[order[i]].b)
    ensures Greedy(n, links, order, i + 1)
         == Greedy(n, links, order, i) + if root[links[order[i]].a] != root[links[order[i]].b] then [order[i]] else []
  {
  }

  // ---------- What the entries connect, by node ids ----------

  datatype IdPair = IdPair(fromId: int, toId: int)

  /** The ids are connected over pairs of ids, in either direction. */
  ghost predicate Bridged(pairs: set<IdPair>, u: int, v: int) {
    exists p: seq<int> :: |p| > 0 && p[0] == u && p[|p| - 1] == v && OverPairs(pairs, p)
  }

  predicate OverPairs(pairs: set<IdPair>, p: seq<int>) {
    forall i {:trigger p[i]} :: 0 < i < |p| ==> PairTouches(pairs, p[i - 1], p[i])
  }

  predicate PairTouches(pairs: set<IdPair>, u: int, v: int) {
    IdPair(u, v) in pairs || IdPair(v, u) in pairs
  }

  function EntryPairs(mst: seq<MstEdge>): set<IdPair> {
    set j | 0 <= j < |mst| :: IdPair(mst[j].fromId, mst[j].toId)
  }

  function EdgePairs(g: Graph, edges: set<nat>): set<IdPair> {
    set k | k in edges && k < |g.edges| :: IdPair(g.edges[k].fromNode, g.edges[k].toNode)
  }

  /** The ends of every edge of the graph are connected. */
  ghost predicate ConnectsAll(g: Graph, pairs: set<IdPair>) {
    forall k :: 0 <= k < |g.edges| ==> Bridged(pairs, g.edges[k].fromNode, g.edges[k].toNode)
  }

  /** No entry connects what the others connect. */
  ghost predicate NoCycle(mst: seq<MstEdge>) {
    forall j :: 0 <= j < |mst| ==> !Bridged(EntryPairs(mst[..j] + mst[j + 1..]), mst[j].fromId, mst[j].toId)
  }

  /** Of the edges in the set none connects what the others connect. */
  ghost predicate NoCycleIn(g: Graph, edges: set<nat>) {
    forall k :: k in edges && k < |g.edges| ==> !Bridged(EdgePairs(g, edges - {k}), g.edges[k].fromNode, g.edges[k].toNode)
  }

  function EntryTotal(mst: seq<MstEdge>): real {
    if mst == [] then 0.0 else EntryTotal(mst[..|mst| - 1]) + mst[|mst| - 1].weight
  }

  /** The weight of the edges in the set with a number below `m`. */
  function EdgeTotal(g: Graph, weight: Option<Edge -> real>, edges: set<nat>, m: nat): real
    requires m <= |g.edges|
  {
    if m == 0 then 0.0
    else if m - 1 !in edges then EdgeTotal(g, weight, edges, m - 1)
    else EdgeTotal(g, weight, edges, m - 1) + (if weight.Some? then weight.value(g.edges[m - 1]) else 1.0)
  }

  /** No cycle-free set of edges that connects as much is lighter. */
  ghost predicate LightestForest(g: Graph, weight: Option<Edge -> real>, mst: seq<MstEdge>) {
    forall edges: set<nat> :: ConnectsAll(g, EdgePairs(g, edges)) && NoCycleIn(g, edges) ==>
                                EntryTotal(mst) <= EdgeTotal(g, weight, edges, |g.edges|)
  }

  /** No set of edges that connects as much is lighter, whether it has cycles or not. */
  ghost predicate LightestOfAll(g: Graph, weight: Option<Edge -> real>, mst: seq<MstEdge>) {
    forall edges: set<nat> :: ConnectsAll(g, EdgePairs(g, edges)) ==> EntryTotal(mst) <= EdgeTotal(g, weight, edges, |g.edges|)
  }

  function NegativeEdges(g: Graph, weight: Option<Edge -> real>): set<nat> {
    set k | 0 <= k < |g.edges| && weight.Some? && weight.value(g.edges[k]) < 0.0
  }

  /** Each entry is an edge of the graph with its weight, and no edge is taken twice. */
  predicate TakenFrom(g: Graph, weight: Option<Edge -> real>, mst: seq<MstEdge>, chosen: seq<nat>) {
    && |chosen| == |mst| && (forall i, j :: 0 <= i < j < |chosen| ==> chosen[i] != chosen[j])
    && forall j :: 0 <= j < |mst| ==>
         && chosen[j] < |g.edges|
         && mst[j].fromId == g.edges[chosen[j]].fromNode && mst[j].toId == g.edges[chosen[j]].toNode
         && mst[j].weight == if weight.Some? then weight.value(g.edges[chosen[j]]) else 1.0
  }

  lemma LinkEnds(g: Graph, k: nat)
    requires g.Valid() && k < |g.edges|
    ensures Links(g)[k].a + 1 == g.edges[k].fromNode && Links(g)[k].b + 1 == g.edges[k].toNode
  {
    assert g.ids[g.edges[k].fromNode - 1] == g.edges[k].fromNode && g.ids[g.edges[k].toNode - 1] == g.edges[k].toNode;
  }

  /** Walks over node indices and links are walks over ids and pairs. */
  lemma ConnectedIsBridged(g: Graph, edges: set<nat>, u: nat, v: nat)
    requires g.Valid() && u < g.N() && v < g.N()
    ensures Connected(g.N(), Links(g), edges, u, v) <==> Bridged(EdgePairs(g, edges), u + 1, v + 1)
  {
    hide Graph.Valid, Links, Walk, OverPairs, EdgePairs;
    if Connected(g.N(), Links(g), edges, u, v) {
      var p :| WalkBetween(g.N(), Links(g), edges, p, u, v);
      IdWalk(g, edges, p);
    }
    if q: seq<int> :| |q| > 0 && q[0] == u + 1 && q[|q| - 1] == v + 1 && OverPairs(EdgePairs(g, edges), q) {
      var p := IndexWalk(g, edges, q);
    }
  }

  lemma IdWalk(g: Graph, edges: set<nat>, p: seq<nat>)
    requires g.Valid() && Walk(g.N(), Links(g), edges, p)
    ensures Bridged(EdgePairs(g, edges), p[0] + 1, p[|p| - 1] + 1)
  {
    hide Graph.Valid, Links;
    var q: seq<int> := seq(|p|, i requires 0 <= i < |p| => p[i] + 1);
    forall i {:trigger q[i]} | 0 < i < |q|
      ensures PairTouches(EdgePairs(g, edges), q[i - 1], q[i])
    {
      assert p[i] < g.N() && Joined(Links(g), edges, p[i - 1], p[i]);
      JoinedTouch(g, edges, p[i - 1], p[i]);
    }
    assert OverPairs(EdgePairs(g, edges), q);
  }

  lemma JoinedTouch(g: Graph, edges: set<nat>, u: nat, v: nat)
    requires g.Valid() && Joined(Links(g), edges, u, v)
    ensures PairTouches(EdgePairs(g, edges), u + 1, v + 1)
  {
    hide Graph.Valid, Links;
    var e :| e in edges && e < |Links(g)| && Touches(Links(g)[e], u, v);
    LinkEnds(g, e);
    assert IdPair(g.edges[e].fromNode, g.edges[e].toNode) in EdgePairs(g, edges);
  }

  ghost predicate JoinedIds(g: Graph, edges: set<nat>, u: int, v: int)
    requires g.Valid()
  {
    1 <= u <= g.N() && 1 <= v <= g.N() && Joined(Links(g), edges, u - 1, v - 1)
  }

  lemma TouchedIds(g: Graph, edges: set<nat>, u: int, v: int)
    requires g.Valid() && PairTouches(EdgePairs(g, edges), u, v)
    ensures JoinedIds(g, edges, u, v)
  {
    hide Links, Graph.Valid;
    var k :| k in edges && k < |g.edges|
             && IdPair(g.edges[k].fromNode, g.edges[k].toNode) == if IdPair(u, v) in EdgePairs(g, edges) then IdPair(u, v) else IdPair(v, u);
    LinkEnds(g, k);
    assert InRange(g.N(), Links(g));
    assert Touches(Links(g)[k], u - 1, v - 1);
  }

  lemma StepsJoined(g: Graph, edges: set<nat>, q: seq<int>)
    requires g.Valid() && OverPairs(EdgePairs(g, edges), q)
    ensures forall i {:trigger q[i]} :: 0 < i < |q| ==> JoinedIds(g, edges, q[i - 1], q[i])
  {
    hide Graph.Valid, Links, EdgePairs, JoinedIds, PairTouches;
    forall i {:trigger q[i]} | 0 < i < |q|
      ensures JoinedIds(g, edges, q[i - 1], q[i])
    {
      TouchedIds(g, edges, q[i - 1], q[i]);
    }
  }

  lemma IndexWalk(g: Graph, edges: set<nat>, q: seq<int>) returns (p: seq<nat>)
    requires g.Valid() && |q| > 0 && 1 <= q[0] <= g.N() && OverPairs(EdgePairs(g, edges), q)
    ensures |p| == |q| && p[0] + 1 == q[0] && WalkBetween(g.N(), Links(g), edges, p, p[0], p[|p| - 1]) && p[|p| - 1] + 1 == q[|q| - 1]
  {
    hide Graph.Valid, Links, OverPairs, EdgePairs, Joined;
    var links := Links(g);
    StepsJoined(g, edges, q);
    forall i | 0 <= i < |q|
      ensures 1 <= q[i] <= g.N()
    {
      assert i > 0 ==> JoinedIds(g, edges, q[i - 1], q[i]);
    }
    p := seq(|q|, i requires 0 <= i < |q| => q[i] - 1);
    forall i | 0 < i < |p|
      ensures p[i] < g.N() && Joined(links, edges, p[i - 1], p[i])
    {
      assert JoinedIds(g, edges, q[i - 1], q[i]);
      assert p[i - 1] == q[i - 1] - 1;
    }
  }

  /** Edges at the ends of an edge are connected by indices exactly if they are by ids. */
  lemma EndsBridged(g: Graph, edges: set<nat>, k: nat)
    requires g.Valid() && k < |g.edges|
    ensures InRange(g.N(), Links(g))
    ensures Connected(g.N(), Links(g), edges, Links(g)[k].a, Links(g)[k].b) <==>
            Bridged(EdgePairs(g, edges), g.edges[k].fromNode, g.edges[k].toNode)
  {
    hide Connected, Bridged, Links;
    LinkEnds(g, k);
    ConnectedIsBridged(g, edges, Links(g)[k].a, Links(g)[k].b);
  }

  lemma SpansIffConnects(g: Graph, edges: set<nat>)
    requires g.Valid()
    ensures Spans(g.N(), Links(g), edges) <==> ConnectsAll(g, EdgePairs(g, edges))
  {
    hide Connected, Bridged, Links, Graph.Valid;
    forall k | 0 <= k < |g.edges|
      ensures Connected(g.N(), Links(g), edges, Links(g)[k].a, Links(g)[k].b) <==>
              Bridged(EdgePairs(g, edges), g.edges[k].fromNode, g.edges[k].toNode)
      ensures Connected(g.N(), Links(g), AllEdges(Links(g)), Links(g)[k].a, Links(g)[k].b)
    {
      EndsBridged(g, edges, k);
      ConnectedEdge(g.N(), Links(g), AllEdges(Links(g)), k);
    }
    if ConnectsAll(g, EdgePairs(g, edges)) {
      SpansByEdges(g.N(), Links(g), edges);
    }
  }

  lemma ForestIffNoCycle(g: Graph, edges: set<nat>)
    requires g.Valid() && forall e <- edges :: e < |g.edges|
    ensures IsForest(g.N(), Links(g), edges) <==> NoCycleIn(g, edges)
  {
    hide Connected, Bridged, Links, Graph.Valid;
    forall k | k in edges
      ensures Connected(g.N(), Links(g), edges - {k}, Links(g)[k].a, Links(g)[k].b) <==>
              Bridged(EdgePairs(g, edges - {k}), g.edges[k].fromNode, g.edges[k].toNode)
    {
      EndsBridged(g, edges - {k}, k);
    }
  }

  // ---------- The entries as chosen edges ----------

  lemma EntriesAreEdges(g: Graph, weight: Option<Edge -> real>, mst: seq<MstEdge>, chosen: seq<nat>)
    requires TakenFrom(g, weight, mst, chosen)
    ensures EntryPairs(mst) == EdgePairs(g, Members(chosen))
  {
  }

  /** All entries but one are all chosen edges but one. */
  lemma OthersAreEdges(g: Graph, weight: Option<Edge -> real>, mst: seq<MstEdge>, chosen: seq<nat>, j: nat)
    requires TakenFrom(g, weight, mst, chosen) && j < |mst|
    ensures EntryPairs(mst[..j] + mst[j + 1..]) == EdgePairs(g, Members(chosen) - {chosen[j]})
  {
    hide TakenFrom, EntryPairs, EdgePairs;
    WithoutOne(g, weight, mst, chosen, j);
    EntriesAreEdges(g, weight, mst[..j] + mst[j + 1..], chosen[..j] + chosen[j + 1..]);
    SetWithout(chosen, j);
  }

  lemma WithoutOne(g: Graph, weight: Option<Edge -> real>, mst: seq<MstEdge>, chosen: seq<nat>, j: nat)
    requires TakenFrom(g, weight, mst, chosen) && j < |mst|
    ensures |chosen| == |mst| && TakenFrom(g, weight, mst[..j] + mst[j + 1..], chosen[..j] + chosen[j + 1..])
    ensures forall i, k :: 0 <= i < k < |chosen| ==> chosen[i] != chosen[k]
  {
    var rest, left := mst[..j] + mst[j + 1..], chosen[..j] + chosen[j + 1..];
    forall i | 0 <= i < |left|
      ensures left[i] == chosen[if i < j then i else i + 1] && rest[i] == mst[if i < j then i else i + 1]
    {
    }
  }

  lemma SetWithout(chosen: seq<nat>, j: nat)
    requires j < |chosen| && forall i, k :: 0 <= i < k < |chosen| ==> chosen[i] != chosen[k]
    ensures Members(chosen[..j] + chosen[j + 1..]) == Members(chosen) - {chosen[j]}
  {
    var left := chosen[..j] + chosen[j + 1..];
    forall e: nat
      ensures e in left <==> e in chosen && e != chosen[j]
    {
      if e in chosen && e != chosen[j] {
        var i :| 0 <= i < |chosen| && chosen[i] == e;
        assert left[if i < j then i else i - 1] == e;
      }
    }
  }

  lemma {:induction false} EntryTotalIs(g: Graph, weight: Option<Edge -> real>, mst: seq<MstEdge>, chosen: seq<nat>)
    requires TakenFrom(g, weight, mst, chosen)
    ensures EntryTotal(mst) == EdgeTotal(g, weight, Members(chosen), |g.edges|)
  {
    hide TakenFrom, EdgeTotal;
    LastTaken(g, weight, mst, chosen);
    if mst == [] {
      NothingWeighs(g, weight, Members(chosen), |g.edges|);
    } else {
      var n := |mst| - 1;
      WithoutOne(g, weight, mst, chosen, n);
      assert mst[..n] + mst[n + 1..] == mst[..n] && chosen[..n] + chosen[n + 1..] == chosen[..n];
      EntryTotalIs(g, weight, mst[..n], chosen[..n]);
      SetWithout(chosen, n);
      TotalWithout(g, weight, Members(chosen), chosen[n], |g.edges|);
    }
  }

  lemma LastTaken(g: Graph, weight: Option<Edge -> real>, mst: seq<MstEdge>, chosen: seq<nat>)
    requires TakenFrom(g, weight, mst, chosen)
    ensures |chosen| == |mst|
    ensures mst != [] ==>
              var n := |mst| - 1;
              && chosen[n] < |g.edges|
              && mst[n].weight == if weight.Some? then weight.value(g.edges[chosen[n]]) else 1.0
  {
  }

  lemma {:induction false} NothingWeighs(g: Graph, weight: Option<Edge -> real>, edges: set<nat>, m: nat)
    requires edges == {} && m <= |g.edges|
    ensures EdgeTotal(g, weight, edges, m) == 0.0
  {
    if m > 0 {
      NothingWeighs(g, weight, edges, m - 1);
    }
  }

  lemma {:induction false} TotalWithout(g: Graph, weight: Option<Edge -> real>, edges: set<nat>, e: nat, m: nat)
    requires e in edges && m <= |g.edges|
    ensures EdgeTotal(g, weight, edges, m) == EdgeTotal(g, weight, edges - {e}, m) +
            if e >= m then 0.0 else if weight.Some? then weight.value(g.edges[e]) else 1.0
  {
    if m > 0 {
      TotalWithout(g, weight, edges, e, m - 1);
    }
  }

  lemma {:induction false} TotalIsWeight(g: Graph, weight: Option<Edge -> real>, edges: set<nat>, m: nat)
    requires m <= |g.edges|
    ensures EdgeTotal(g, weight, edges, m) == WeightOf(Weights(g, weight), edges, m)
  {
    if m > 0 {
      TotalIsWeight(g, weight, edges, m - 1);
    }
  }

  lemma {:induction false} OnlyInside(weights: seq<real>, edges: set<nat>, inside: set<nat>, m: nat)
    requires m <= |weights| && inside == set e | e in edges && e < |weights|
    ensures WeightOf(weights, edges, m) == WeightOf(weights, inside, m)
  {
    if m > 0 {
      OnlyInside(weights, edges, inside, m - 1);
    }
  }

  /** A forest of entries has no cycle, and a minimum spanning forest is a lightest connecting set. */
  lemma ForestEntries(g: Graph, weight: Option<Edge -> real>, mst: seq<MstEdge>, chosen: seq<nat>)
    requires g.Valid() && TakenFrom(g, weight, mst, chosen) && IsForest(g.N(), Links(g), Members(chosen))
    ensures NoCycle(mst)
  {
    hide Bridged, Links, Graph.Valid, Connected;
    ForestIffNoCycle(g, Members(chosen));
    forall j | 0 <= j < |mst|
      ensures !Bridged(EntryPairs(mst[..j] + mst[j + 1..]), mst[j].fromId, mst[j].toId)
    {
      OthersAreEdges(g, weight, mst, chosen, j);
      assert chosen[j] in Members(chosen);
    }
  }

  lemma MinimumEntries(g: Graph, weight: Option<Edge -> real>, mst: seq<MstEdge>, chosen: seq<nat>)
    requires g.Valid() && TakenFrom(g, weight, mst, chosen)
    requires MinimumSpanningForest(g.N(), Links(g), Weights(g, weight), Members(chosen))
    ensures ConnectsAll(g, EntryPairs(mst)) && LightestForest(g, weight, mst)
  {
    hide Bridged, Links, Graph.Valid, Connected, ConnectsAll, Spans, IsForest, EdgePairs, NoCycleIn, Weights;
    EntriesAreEdges(g, weight, mst, chosen);
    SpansIffConnects(g, Members(chosen));
    EntryTotalIs(g, weight, mst, chosen);
    TotalIsWeight(g, weight, Members(chosen), |g.edges|);
    forall edges: set<nat> | ConnectsAll(g, EdgePairs(g, edges)) && NoCycleIn(g, edges)
      ensures EntryTotal(mst) <= EdgeTotal(g, weight, edges, |g.edges|)
    {
      var inside := Inside(g, weight, edges);
      InsideNoCycle(g, edges, inside);
      ForestIffNoCycle(g, inside);
    }
  }

  /** Numbers beyond the edge array change nothing. */
  lemma Inside(g: Graph, weight: Option<Edge -> real>, edges: set<nat>) returns (inside: set<nat>)
    requires g.Valid()
    ensures inside == (set e | e in edges && e < |g.edges|) && inside <= AllEdges(Links(g))
    ensures EdgePairs(g, inside) == EdgePairs(g, edges)
    ensures Spans(g.N(), Links(g), inside) <==> ConnectsAll(g, EdgePairs(g, edges))
    ensures EdgeTotal(g, weight, edges, |g.edges|) == WeightOf(Weights(g, weight), inside, |g.edges|)
  {
    hide Bridged, Graph.Valid, Connected, ConnectsAll, Spans;
    inside := set e | e in edges && e < |g.edges|;
    assert EdgePairs(g, inside) == EdgePairs(g, edges);
    SpansIffConnects(g, inside);
    TotalIsWeight(g, weight, edges, |g.edges|);
    OnlyInside(Weights(g, weight), edges, inside, |g.edges|);
  }

  /** The entries are lightest among all sets that connect as much if and only if the edges of negative weight close no cycle. */
  lemma LightestExactly(g: Graph, weight: Option<Edge -> real>, mst: seq<MstEdge>, order: seq<nat>)
    requires g.Valid() && IsOrder(Links(g), order) && Ascending(Weights(g, weight), order)
    requires TakenFrom(g, weight, mst, Greedy(g.N(), Links(g), order, |order|))
    ensures LightestOfAll(g, weight, mst) <==> NoCycleIn(g, NegativeEdges(g, weight))
  {
    hide Bridged, Graph.Valid, Connected, ConnectsAll, Spans, IsForest, EdgePairs, NoCycleIn, Links, Greedy, IsOrder, TakenFrom,
         Ascending;
    var links, ws, chosen := Links(g), Weights(g, weight), Greedy(g.N(), Links(g), order, |order|);
    var taken := Chosen(g.N(), links, order);
    ChosenAre(g.N(), links, order);
    EntryTotalIs(g, weight, mst, chosen);
    TotalIsWeight(g, weight, taken, |g.edges|);
    LightestSpanning(g.N(), links, ws, order);
    ForestIffNoCycle(g, NegativeEdges(g, weight));
    assert Negatives(ws) == NegativeEdges(g, weight);
    forall edges: set<nat> | ConnectsAll(g, EdgePairs(g, edges)) && NoCycleIn(g, NegativeEdges(g, weight))
      ensures EntryTotal(mst) <= EdgeTotal(g, weight, edges, |g.edges|)
    {
      var inside := Inside(g, weight, edges);
    }
    if !NoCycleIn(g, NegativeEdges(g, weight)) {
      var edges :| edges <= AllEdges(links) && Spans(g.N(), links, edges) &&
                   WeightOf(ws, taken, |ws|) > WeightOf(ws, edges, |ws|);
      SpansIffConnects(g, edges);
      TotalIsWeight(g, weight, edges, |g.edges|);
    }
  }

  lemma ChosenAre(n: nat, links: seq<Link>, order: seq<nat>)
    requires InRange(n, links) && IsOrder(links, order)
    ensures Chosen(n, links, order) == Members(Greedy(n, links, order, |order|))
  {
    hide Greedy;
  }

  lemma InsideNoCycle(g: Graph, edges: set<nat>, inside: set<nat>)
    requires NoCycleIn(g, edges) && inside == set e | e in edges && e < |g.edges|
    ensures NoCycleIn(g, inside)
  {
    hide Bridged;
    forall k | k in inside && k < |g.edges|
      ensures !Bridged(EdgePairs(g, inside - {k}), g.edges[k].fromNode, g.edges[k].toNode)
    {
      assert EdgePairs(g, inside - {k}) == EdgePairs(g, edges - {k});
    }
  }

  lemma {:induction false} GreedyDistinct(n: nat, links: seq<Link>, order: seq<nat>, k: nat)
    requires InRange(n, links) && IsOrder(links, order) && k <= |order|
    ensures var chosen := Greedy(n, links, order, k); forall i, j :: 0 <= i < j < |chosen| ==> chosen[i] != chosen[j]
  {
    if k > 0 {
      GreedyDistinct(n, links, order, k - 1);
      GreedyMembers(n, links, order, k - 1, order[k - 1]);
    }
  }

  /** The written entries are the chosen edges; the greedy choice takes none twice and closes no cycle. */
  lemma WrittenIsTaken(g: Graph, weight: Option<Edge -> real>, mst: seq<MstEdge>, chosen: seq<nat>, order: seq<nat>)
    requires g.Valid() && Written(g, Weights(g, weight), mst, chosen) && IsOrder(Links(g), order)
    requires chosen <= Greedy(g.N(), Links(g), order, |order|)
    ensures TakenFrom(g, weight, mst[..|chosen|], chosen) && IsForest(g.N(), Links(g), Members(chosen))
  {
    hide Connected, Links, Graph.Valid, Greedy;
    var all := Greedy(g.N(), Links(g), order, |order|);
    GreedyDistinct(g.N(), Links(g), order, |order|);
    ChosenSpans(g.N(), Links(g), order);
    assert Members(chosen) <= Members(all);
    PartIsForest(g.N(), Links(g), Members(all), Members(chosen));
  }

  /** The chosen edges are the first of the greedy order; with room for n - 1 edges they form a spanning
      forest of least total weight. */
  method MstKruskal(g: Graph, weight: Option<Edge -> real>, mst: array<MstEdge>, maxEdges: int)
    returns (count: nat, ghost chosen: seq<nat>, ghost order: seq<nat>)
    requires g.Valid() && maxEdges <= mst.Length
    modifies mst
    ensures Written(g, Weights(g, weight), mst[..], chosen) && count == |chosen|
    ensures IsOrder(Links(g), order) && Ascending(Weights(g, weight), order)
    ensures chosen <= Greedy(g.N(), Links(g), order, |order|)
    ensures count == if maxEdges <= 0 then 0 else Min(maxEdges, |Greedy(g.N(), Links(g), order, |order|)|)
    ensures maxEdges >= g.N() - 1 ==>
              MinimumSpanningForest(g.N(), Links(g), Weights(g, weight), Members(chosen))
    ensures count <= mst.Length && TakenFrom(g, weight, mst[..count], chosen) && NoCycle(mst[..count])
    ensures maxEdges >= g.N() - 1 ==> ConnectsAll(g, EntryPairs(mst[..count])) && LightestForest(g, weight, mst[..count])
    ensures maxEdges >= g.N() - 1 ==> (LightestOfAll(g, weight, mst[..count]) <==> NoCycleIn(g, NegativeEdges(g, weight)))
  {
    hide Greedy, IsOrder, MinimumSpanningForest, Links, Lists, Settled, Indices, Ascending, TakenFrom, NoCycle, ConnectsAll,
         LightestForest, LightestOfAll, NoCycleIn, NegativeEdges, IsForest, Written;
    var ws := Weights(g, weight);
    order := [];
    if g.N() == 0 || |g.edges| == 0 {
      EmptyIsOrder(g, ws);
      AllChosen(g.N(), Links(g), ws, order, [], maxEdges);
      NothingWritten(g, ws, mst[..]);
      EntriesFacts(g, weight, mst[..], [], order, maxEdges);
      return 0, [], [];
    }
    var ew := new EdgeWeight[|g.edges|](i requires 0 <= i < |ws| => EdgeWeight(i, ws[i]));
    ListedInOrder(ws, ew[..]);
    SortByWeight(ew, ws);
    SortedIsOrder(Links(g), ws, ew[..]);
    order := Indices(ew[..]);
    count, chosen := Select(g, ws, ew, mst, maxEdges);
    AllChosen(g.N(), Links(g), ws, order, chosen, maxEdges);
    EntriesFacts(g, weight, mst[..], chosen, order, maxEdges);
    WrittenFits(g, ws, mst[..], chosen);
    assert mst[..][..count] == mst[..count];
  }

  lemma WrittenFits(g: Graph, weights: seq<real>, mst: seq<MstEdge>, chosen: seq<nat>)
    requires Written(g, weights, mst, chosen)
    ensures |chosen| <= |mst|
  {
  }

  lemma EntriesFacts(g: Graph, weight: Option<Edge -> real>, mst: seq<MstEdge>, chosen: seq<nat>, order: seq<nat>, maxEdges: int)
    requires g.Valid() && Written(g, Weights(g, weight), mst, chosen) && IsOrder(Links(g), order)
    requires chosen <= Greedy(g.N(), Links(g), order, |order|)
    requires Ascending(Weights(g, weight), order)
    requires maxEdges >= g.N() - 1 ==>
               && MinimumSpanningForest(g.N(), Links(g), Weights(g, weight), Members(chosen))
               && chosen == Greedy(g.N(), Links(g), order, |order|)
    ensures |chosen| <= |mst| && TakenFrom(g, weight, mst[..|chosen|], chosen) && NoCycle(mst[..|chosen|])
    ensures maxEdges >= g.N() - 1 ==>
              ConnectsAll(g, EntryPairs(mst[..|chosen|])) && LightestForest(g, weight, mst[..|chosen|])
    ensures maxEdges >= g.N() - 1 ==>
              (LightestOfAll(g, weight, mst[..|chosen|]) <==> NoCycleIn(g, NegativeEdges(g, weight)))
  {
    hide TakenFrom, NoCycle, ConnectsAll, LightestForest, LightestOfAll, NoCycleIn, NegativeEdges, IsForest, MinimumSpanningForest,
         Links, Weights, Greedy, IsOrder, Ascending;
    WrittenFits(g, Weights(g, weight), mst, chosen);
    WrittenIsTaken(g, weight, mst, chosen, order);
    ForestEntries(g, weight, mst[..|chosen|], chosen);
    if maxEdges >= g.N() - 1 {
      MinimumEntries(g, weight, mst[..|chosen|], chosen);
      LightestExactly(g, weight, mst[..|chosen|], order);
    }
  }

  lemma ListedInOrder(weights: seq<real>, s: seq<EdgeWeight>)
    requires |s| == |weights| && forall i :: 0 <= i < |s| ==> s[i] == EdgeWeight(i, weights[i])
    ensures Lists(s, weights)
  {
  }

  /** With room for n - 1 edges the whole greedy choice is taken. */
  lemma AllChosen(n: nat, links: seq<Link>, weights: seq<real>, order: seq<nat>, chosen: seq<nat>, maxEdges: int)
    requires InRange(n, links) && |weights| == |links| && IsOrder(links, order) && Ascending(weights, order)
    requires chosen <= Greedy(n, links, order, |order|)
    requires |chosen| == if maxEdges <= 0 then 0 else Min(maxEdges, |Greedy(n, links, order, |order|)|)
    requires n == 0 ==> links == []
    ensures maxEdges >= n - 1 ==>
              chosen == Greedy(n, links, order, |order|) && MinimumSpanningForest(n, links, weights, Members(chosen))
  {
    if maxEdges >= n - 1 {
      if n == 0 {
        Digraphs.DistinctFits(order, |links|);
      } else {
        GreedyBelow(n, links, order, |order|);
      }
      assert chosen == Greedy(n, links, order, |order|);
      KruskalOptimal(n, links, weights, order);
    }
  }

  lemma EmptyIsOrder(g: Graph, weights: seq<real>)
    requires g.Valid() && (g.N() == 0 || |g.edges| == 0)
    ensures Links(g) == [] && IsOrder(Links(g), []) && Ascending(weights, []) && Greedy(g.N(), Links(g), [], 0) == []
  {
    if |g.edges| > 0 {
      EdgesNeedNodes(g);
    }
  }

  lemma EdgesNeedNodes(g: Graph)
    requires g.Valid() && |g.edges| > 0
    ensures g.N() > 0
  {
    assert 1 <= g.edges[0].fromNode <= g.N();
  }
}
