/** Directed graphs as lists of successor indices, their walks and reachability. */
module Digraphs {

  type Digraph = seq<seq<nat>>

  predicate IsDigraph(d: Digraph) {
    forall u, k :: 0 <= u < |d| && 0 <= k < |d[u]| ==> d[u][k] < |d|
  }

  predicate Arc(d: Digraph, u: nat, v: nat) {
    u < |d| && v < |d| && v in d[u]
  }

  predicate IsWalk(d: Digraph, p: seq<nat>) {
    |p| > 0 && p[0] < |d| && forall i :: 0 <= i < |p| - 1 ==> Arc(d, p[i], p[i + 1])
  }

  predicate WalkFromTo(d: Digraph, p: seq<nat>, u: nat, v: nat) {
    IsWalk(d, p) && p[0] == u && p[|p| - 1] == v
  }

  /** `v` can be reached from `u` along arcs. */
  ghost predicate Reach(d: Digraph, u: nat, v: nat) {
    exists p :: WalkFromTo(d, p, u, v)
  }

  ghost predicate Mutual(d: Digraph, u: nat, v: nat) {
    Reach(d, u, v) && Reach(d, v, u)
  }

  lemma ReachRefl(d: Digraph, u: nat)
    requires u < |d|
    ensures Reach(d, u, u)
  {
    assert WalkFromTo(d, [u], u, u);
  }

  lemma ReachTrans(d: Digraph, u: nat, v: nat, w: nat)
    requires Reach(d, u, v) && Reach(d, v, w)
    ensures Reach(d, u, w)
  {
    var p :| WalkFromTo(d, p, u, v);
    var q :| WalkFromTo(d, q, v, w);
    var r := p + q[1..];
    forall i | 0 <= i < |r| - 1
      ensures Arc(d, r[i], r[i + 1])
    {
      if i >= |p| - 1 {
        assert r[i] == q[i - |p| + 1] && r[i + 1] == q[i - |p| + 1 + 1];
      }
    }
    assert WalkFromTo(d, r, u, w);
  }

  lemma ReachArc(d: Digraph, u: nat, v: nat)
    requires Arc(d, u, v)
    ensures Reach(d, u, v)
  {
    assert WalkFromTo(d, [u, v], u, v);
  }

  /** A set closed under arcs that holds `u` holds everything reachable from `u`. */
  lemma ClosedForward(d: Digraph, s: set<nat>, u: nat, v: nat)
    requires u in s && Reach(d, u, v)
    requires forall x: nat, y: nat :: x in s && Arc(d, x, y) ==> y in s
    ensures v in s
  {
    var p :| WalkFromTo(d, p, u, v);
    WalkStaysInside(d, s, p, |p| - 1);
  }

  lemma {:induction false} WalkStaysInside(d: Digraph, s: set<nat>, p: seq<nat>, i: nat)
    requires IsWalk(d, p) && p[0] in s && i < |p|
    requires forall x: nat, y: nat :: x in s && Arc(d, x, y) ==> y in s
    ensures p[i] in s
  {
    if i > 0 {
      WalkStaysInside(d, s, p, i - 1);
      assert Arc(d, p[i - 1], p[i - 1 + 1]);
    }
  }

  /** A duplicate-free list of numbers below `n` has at most `n` entries. */
  lemma {:induction false} DistinctFits(s: seq<nat>, n: nat)
    requires forall i :: 0 <= i < |s| ==> s[i] < n
    requires forall i, j :: 0 <= i < j < |s| ==> s[i] != s[j]
    ensures |s| <= n
  {
    if s != [] {
      assert s[0] < n;
      if k :| 0 <= k < |s| && s[k] == n - 1 {
        DistinctFits(s[..k] + s[k + 1..], n - 1);
      } else {
        DistinctFits(s, n - 1);
      }
    }
  }

  /** A list that holds every number below `n` has at least `n` entries. */
  lemma {:induction false} AllPresent(s: seq<nat>, n: nat)
    requires forall v :: 0 <= v < n ==> v in s
    ensures n <= |s|
  {
    if n > 0 {
      assert n - 1 in s;
      var k :| 0 <= k < |s| && s[k] == n - 1;
      var t := s[..k] + s[k + 1..];
      forall v | 0 <= v < n - 1
        ensures v in t
      {
        assert v in s;
        var j :| 0 <= j < |s| && s[j] == v;
        assert t[if j < k then j else j - 1] == v;
      }
      AllPresent(t, n - 1);
    }
  }

  /** A set closed under predecessors that holds `v` holds everything that reaches `v`. */
  lemma ClosedBackward(d: Digraph, s: set<nat>, u: nat, v: nat)
    requires v in s && Reach(d, u, v)
    requires forall x: nat, y: nat :: y in s && Arc(d, x, y) ==> x in s
    ensures u in s
  {
    if u !in s {
      var out := set x: nat | x < |d| && x !in s;
      ClosedForward(d, out, u, v);
    }
  }
}

/** The property graph: node and edge arrays, an id hash table and one adjacency list per node.
    `Graph` is the value that the graph algorithms read; class `PropertyGraph` is the mutable store. */
module PropertyGraphs {
  import opened Digraphs
  import opened Options

  const MAX_NODES := 4096
  const MAX_EDGES := 16384
  const HASH_TABLE_SIZE := 1024

  datatype Edge = Edge(id: int, fromNode: int, toNode: int, directed: bool)

  datatype AdjEntry = AdjEntry(edgeId: int, neighborId: int)

  datatype HashEntry = HashEntry(nodeId: int, nodeIndex: nat)

  /** What one edge prepends to the adjacency list of the node called `id`, newest entry first. */
  function Contribution(e: Edge, id: int): seq<AdjEntry> {
    (if !e.directed && e.toNode == id then [AdjEntry(e.id, e.fromNode)] else [])
    + (if e.fromNode == id then [AdjEntry(e.id, e.toNode)] else [])
  }

  /** The adjacency list of node `id` after creating `edges` in order. */
  function AdjOf(edges: seq<Edge>, id: int): seq<AdjEntry> {
    if edges == [] then []
    else Contribution(edges[|edges| - 1], id) + AdjOf(edges[..|edges| - 1], id)
  }

  /** The edge `e` can be walked from node `u` to node `v`. */
  predicate Joins(e: Edge, u: int, v: int) {
    (e.fromNode == u && e.toNode == v) || (!e.directed && e.toNode == u && e.fromNode == v)
  }

  /** The edge behind an adjacency entry. */
  predicate Gives(e: Edge, id: int, a: AdjEntry) {
    e.id == a.edgeId && Joins(e, id, a.neighborId)
  }

  /** The adjacency list of `id` holds exactly the edges that can be walked out of `id`. */
  lemma AdjOfMembers(edges: seq<Edge>, id: int, a: AdjEntry)
    ensures a in AdjOf(edges, id) <==>
            exists i :: 0 <= i < |edges| && edges[i].id == a.edgeId &&
                        ((edges[i].fromNode == id && edges[i].toNode == a.neighborId) ||
                         (!edges[i].directed && edges[i].toNode == id && edges[i].fromNode == a.neighborId))
  {
    if a in AdjOf(edges, id) {
      var i := AdjOfSound(edges, id, a);
    }
    if i :| 0 <= i < |edges| && Gives(edges[i], id, a) {
      AdjOfComplete(edges, id, a, i);
    }
  }

  lemma {:induction false} AdjOfSound(edges: seq<Edge>, id: int, a: AdjEntry) returns (i: nat)
    requires a in AdjOf(edges, id)
    ensures i < |edges| && Gives(edges[i], id, a)
  {
    i := |edges| - 1;
    if a !in Contribution(edges[i], id) {
      i := AdjOfSound(edges[..i], id, a);
    }
  }

  lemma {:induction false} AdjOfComplete(edges: seq<Edge>, id: int, a: AdjEntry, i: nat)
    requires i < |edges| && Gives(edges[i], id, a)
    ensures a in AdjOf(edges, id)
  {
    var n := |edges| - 1;
    if i < n {
      AdjOfComplete(edges[..n], id, a, i);
    } else {
      assert a in Contribution(edges[n], id);
    }
  }

  /** The position of `id` in `ids`, or -1: the scan over the node array that every algorithm makes. */
  function IndexOf(ids: seq<int>, id: int): (r: int)
    ensures -1 <= r < |ids|
    ensures r >= 0 ==> ids[r] == id && id !in ids[..r]
    ensures r < 0 ==> id !in ids
  {
    if ids == [] then -1
    else if ids[0] == id then 0
    else
      var r := IndexOf(ids[1..], id);
      if r < 0 then -1
      else
        assert ids[..r + 1] == [ids[0]] + ids[1..][..r];
        r + 1
  }

  datatype Graph = Graph(ids: seq<int>, edges: seq<Edge>, adj: seq<seq<AdjEntry>>) {
    function N(): nat { |ids| }

    predicate Valid() {
      && |adj| == |ids|
      && (forall i :: 0 <= i < |ids| ==> ids[i] == i + 1)
      && (forall k :: 0 <= k < |edges| ==> edges[k].id == k + 1)
      && (forall k :: 0 <= k < |edges| ==> 1 <= edges[k].fromNode <= |ids| && 1 <= edges[k].toNode <= |ids|)
      && (forall u :: 0 <= u < |ids| ==> adj[u] == AdjOf(edges, u + 1))
    }

    /** The index of the node that entry `k` of node `u`'s adjacency list leads to. */
    function Nbr(u: nat, k: nat): (v: nat)
      requires Valid() && u < N() && k < |adj[u]|
      ensures v < N() && v + 1 == adj[u][k].neighborId
    {
      AdjOfMembers(edges, u + 1, adj[u][k]);
      assert 1 <= adj[u][k].neighborId <= |ids|;
      assert ids[adj[u][k].neighborId - 1] == adj[u][k].neighborId;
      IndexOf(ids, adj[u][k].neighborId)
    }

    /** The adjacency lists with neighbour ids resolved to node indices. */
    function Succs(): (d: Digraph)
      requires Valid()
      ensures IsDigraph(d) && |d| == N()
      ensures forall u :: 0 <= u < N() ==> |d[u]| == |adj[u]|
      ensures forall u, k :: 0 <= u < N() && 0 <= k < |adj[u]| ==> d[u][k] == Nbr(u, k)
    {
      seq(N(), u requires 0 <= u < N() => seq(|adj[u]|, k requires 0 <= k < |adj[u]| => Nbr(u, k)))
    }
  }

  /** The scan for a node id, which leaves 0 when nothing matches. */
  function IndexOrZero(g: Graph, id: int): (r: nat)
    requires g.N() > 0
    ensures r < g.N()
  {
    var r := IndexOf(g.ids, id);
    if r < 0 then 0 else r
  }

  /** Ids are one above the indices; an id that no node has counts as index 0. */
  lemma IndexOrZeroIs(g: Graph, id: int)
    requires g.Valid() && g.N() > 0
    ensures IndexOrZero(g, id) == if 1 <= id <= g.N() then id - 1 else 0
  {
    assert 1 <= id <= g.N() ==> g.ids[id - 1] == id;
  }

  /** Arcs of the adjacency lists are exactly the walkable edges of the edge array. */
  lemma ArcIffEdge(g: Graph, u: nat, v: nat)
    requires g.Valid() && u < g.N() && v < g.N()
    ensures v in g.Succs()[u] <==>
            exists k :: 0 <= k < |g.edges| &&
                        ((g.edges[k].fromNode == u + 1 && g.edges[k].toNode == v + 1) ||
                         (!g.edges[k].directed && g.edges[k].toNode == u + 1 && g.edges[k].fromNode == v + 1))
  {
    if v in g.Succs()[u] {
      var k := ArcHasEdge(g, u, v);
    }
    if k :| 0 <= k < |g.edges| && Joins(g.edges[k], u + 1, v + 1) {
      EdgeHasArc(g, u, v, k);
    }
  }

  lemma ArcHasEdge(g: Graph, u: nat, v: nat) returns (i: nat)
    requires g.Valid() && u < g.N() && v < g.N() && v in g.Succs()[u]
    ensures i < |g.edges| && Joins(g.edges[i], u + 1, v + 1)
  {
    var k :| 0 <= k < |g.Succs()[u]| && g.Succs()[u][k] == v;
    i := AdjOfSound(g.edges, u + 1, g.adj[u][k]);
  }

  lemma EdgeHasArc(g: Graph, u: nat, v: nat, k: nat)
    requires g.Valid() && u < g.N() && v < g.N()
    requires k < |g.edges| && Joins(g.edges[k], u + 1, v + 1)
    ensures v in g.Succs()[u]
  {
    var a := AdjEntry(g.edges[k].id, v + 1);
    AdjOfComplete(g.edges, u + 1, a, k);
    EntryIsArc(g, u, v, a);
  }

  lemma EntryIsArc(g: Graph, u: nat, v: nat, a: AdjEntry)
    requires g.Valid() && u < g.N() && v < g.N()
    requires a in g.adj[u] && a.neighborId == v + 1
    ensures v in g.Succs()[u]
  {
    var j :| 0 <= j < |g.adj[u]| && g.adj[u][j] == a;
    var d := g.Succs();
    assert d[u][j] == g.Nbr(u, j) == v;
  }

  /** Every bucket of the hash table chains exactly the nodes whose id hashes to it. */
  ghost predicate Indexed(ids: seq<int>, table: seq<seq<HashEntry>>, hash: int -> nat) {
    && |table| == HASH_TABLE_SIZE
    && (forall b, k :: 0 <= b < |table| && 0 <= k < |table[b]| ==>
          table[b][k].nodeIndex < |ids| && ids[table[b][k].nodeIndex] == table[b][k].nodeId)
    && (forall i :: 0 <= i < |ids| ==> HashEntry(ids[i], i) in table[hash(ids[i]) % HASH_TABLE_SIZE])
  }

  lemma IndexNode(ids: seq<int>, table: seq<seq<HashEntry>>, hash: int -> nat, id: int)
    requires Indexed(ids, table, hash)
    ensures var b := hash(id) % HASH_TABLE_SIZE;
            Indexed(ids + [id], table[b := [HashEntry(id, |ids|)] + table[b]], hash)
  {
    var b := hash(id) % HASH_TABLE_SIZE;
    var table' := table[b := [HashEntry(id, |ids|)] + table[b]];
    forall i | 0 <= i < |ids| + 1
      ensures HashEntry((ids + [id])[i], i) in table'[hash((ids + [id])[i]) % HASH_TABLE_SIZE]
    {
      if i < |ids| {
        assert HashEntry(ids[i], i) in table[hash(ids[i]) % HASH_TABLE_SIZE];
      } else {
        assert table'[b][0] == HashEntry(id, i);
      }
    }
  }

  class PropertyGraph {
    var nodeIds: seq<int>
    var edges: seq<Edge>
    var adjacency: seq<seq<AdjEntry>>
    var nodeHash: seq<seq<HashEntry>>
    var nextNodeId: int
    var nextEdgeId: int
    const hash: int -> nat

    function View(): Graph
      reads this
    {
      Graph(nodeIds, edges, adjacency)
    }

    ghost predicate Valid()
      reads this
    {
      && View().Valid() && Indexed(nodeIds, nodeHash, hash)
      && |nodeIds| <= MAX_NODES && |edges| <= MAX_EDGES
      && nextNodeId == |nodeIds| + 1 && nextEdgeId == |edges| + 1
    }

    constructor (hash: int -> nat)
      ensures Valid() && View() == Graph([], [], []) && this.hash == hash
    {
      this.hash := hash;
      nodeIds, edges, adjacency := [], [], [];
      nodeHash := seq(HASH_TABLE_SIZE, _ => []);
      nextNodeId, nextEdgeId := 1, 1;
    }

    /** The node index stored for `id`, or -1. */
    method HashLookup(id: int) returns (r: int)
      requires Valid()
      ensures r == if 1 <= id <= |nodeIds| then id - 1 else -1
    {
      var bucket := hash(id) % HASH_TABLE_SIZE;
      var chain := nodeHash[bucket];
      var i := 0;
      assert 1 <= id <= |nodeIds| ==> HashEntry(nodeIds[id - 1], id - 1) in chain;
      while i < |chain|
        invariant 0 <= i <= |chain|
        invariant forall j :: 0 <= j < i ==> chain[j].nodeId != id
      {
        if chain[i].nodeId == id {
          return chain[i].nodeIndex;
        }
        i := i + 1;
      }
      r := -1;
    }

    /** Appends a node with the next id, or does nothing when the node array is full. */
    method CreateNode() returns (id: Option<int>)
      requires Valid()
      modifies this
      ensures Valid()
      ensures old(|nodeIds|) >= 4096 ==> id == None && View() == old(View())
      ensures old(|nodeIds|) < 4096 ==>
                && id == Some(old(|nodeIds|) + 1)
                && View() == Graph(old(nodeIds) + [id.value], old(edges), old(adjacency) + [[]])
    {
      hide Graph.Valid;
      if |nodeIds| >= MAX_NODES {
        return None;
      }
      var idx := |nodeIds|;
      id := Some(nextNodeId);
      var bucket := hash(nextNodeId) % HASH_TABLE_SIZE;
      IndexNode(nodeIds, nodeHash, hash, nextNodeId);
      NodeKeepsValid(View());
      nodeHash := nodeHash[bucket := [HashEntry(nextNodeId, idx)] + nodeHash[bucket]];
      nodeIds := nodeIds + [nextNodeId];
      adjacency := adjacency + [[]];
      nextNodeId := nextNodeId + 1;
    }

    /** Appends an edge between two existing nodes and prepends its adjacency entries. */
    method CreateEdge(fromId: int, toId: int, directed: bool) returns (id: Option<int>)
      requires Valid()
      modifies this
      ensures Valid()
      ensures id.Some? <==> old(|edges|) < 16384 && 1 <= fromId <= |nodeIds| && 1 <= toId <= |nodeIds|
      ensures id == None ==> View() == old(View())
      ensures id.Some? ==> id.value == old(|edges|) + 1
                           && nodeIds == old(nodeIds)
                           && edges == old(edges) + [Edge(id.value, fromId, toId, directed)]
                           && |adjacency| == |old(adjacency)| == |nodeIds|
      ensures id.Some? ==> forall u :: 0 <= u < |nodeIds| ==>
                             adjacency[u] == (if !directed && u + 1 == toId then [AdjEntry(id.value, fromId)] else [])
                                             + (if u + 1 == fromId then [AdjEntry(id.value, toId)] else [])
                                             + old(adjacency[u])
    {
      hide Graph.Valid, Indexed;
      if |edges| >= MAX_EDGES {
        return None;
      }
      var fromIdx := HashLookup(fromId);
      var toIdx := HashLookup(toId);
      if fromIdx < 0 || toIdx < 0 {
        return None;
      }
      var e := Edge(nextEdgeId, fromId, toId, directed);
      id := Some(e.id);
      OneListPerNode(View());
      var adj := adjacency[fromIdx := [AdjEntry(e.id, toId)] + adjacency[fromIdx]];
      if !directed {
        adj := adj[toIdx := [AdjEntry(e.id, fromId)] + adj[toIdx]];
      }
      EdgeKeepsValid(View(), e, adj);
      edges, adjacency, nextEdgeId := edges + [e], adj, nextEdgeId + 1;
    }
  }

  lemma OneListPerNode(g: Graph)
    requires g.Valid()
    ensures |g.adj| == g.N()
  {
  }

  /** A new node has no adjacency entries yet. */
  lemma NodeKeepsValid(g: Graph)
    requires g.Valid()
    ensures Graph(g.ids + [g.N() + 1], g.edges, g.adj + [[]]).Valid()
  {
    NoEdgesAtNewNode(g.edges, g.N());
  }

  /** Prepending the new edge's entries keeps the adjacency lists equal to what the edge array says. */
  lemma EdgeKeepsValid(g: Graph, e: Edge, adj: seq<seq<AdjEntry>>)
    requires g.Valid()
    requires e.id == |g.edges| + 1 && 1 <= e.fromNode <= g.N() && 1 <= e.toNode <= g.N()
    requires |adj| == |g.adj| && forall u :: 0 <= u < g.N() ==> adj[u] == Contribution(e, u + 1) + g.adj[u]
    ensures Graph(g.ids, g.edges + [e], adj).Valid()
  {
    var edges := g.edges + [e];
    assert edges[..|edges| - 1] == g.edges;
  }

  lemma {:induction false} NoEdgesAtNewNode(edges: seq<Edge>, n: nat)
    requires forall k :: 0 <= k < |edges| ==> 1 <= edges[k].fromNode <= n && 1 <= edges[k].toNode <= n
    ensures AdjOf(edges, n + 1) == []
  {
    if edges != [] {
      NoEdgesAtNewNode(edges[..|edges| - 1], n);
    }
  }
}
