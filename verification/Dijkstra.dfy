/** Single-pair shortest paths: Dijkstra's algorithm with an early exit, and path reconstruction. */
module Dijkstra {
  import opened Digraphs
  import opened PropertyGraphs
  import opened Options

  const MAX_PATH_LENGTH := 256

  /** One adjacency entry with its target resolved to a node index and its edge weighted. */
  datatype Out = Out(to: nat, weight: real, edgeId: int)

  type WGraph = seq<seq<Out>>

  predicate IsWGraph(w: WGraph) {
    forall u, k :: 0 <= u < |w| && 0 <= k < |w[u]| ==> w[u][k].to < |w| && w[u][k].weight >= 0.0
  }

  // ---------- Paths ----------

  function End(s: nat, steps: seq<Out>): nat {
    if steps == [] then s else steps[|steps| - 1].to
  }

  /** `steps` can be walked from node `s`, each step being an adjacency entry of the node it leaves. */
  predicate IsPath(w: WGraph, s: nat, steps: seq<Out>) {
    && s < |w|
    && (steps != [] ==>
          var init := steps[..|steps| - 1];
          IsPath(w, s, init) && End(s, init) < |w| && steps[|steps| - 1] in w[End(s, init)])
  }

  function Length(steps: seq<Out>): real {
    if steps == [] then 0.0 else Length(steps[..|steps| - 1]) + steps[|steps| - 1].weight
  }

  // ---------- Search state ----------

  datatype Dist = Infinity | Finite(d: real)

  datatype State = State(dist: Dist, cameFrom: int, cameEdge: int, visited: bool)

  /** `v` got its distance over a recorded edge from a settled node that is one hop nearer the start. */
  ghost predicate Hooked(w: WGraph, st: seq<State>, depth: seq<nat>, v: nat)
    requires |st| == |depth| == |w| && v < |w|
  {
    var u := st[v].cameFrom;
    0 <= u < |w| && st[u].visited && st[u].dist.Finite? && depth[v] == depth[u] + 1
    && exists o :: o in w[u] && Carries(st, u, o, v)
  }

  predicate Carries(st: seq<State>, u: nat, o: Out, v: nat)
    requires u < |st| && v < |st|
  {
    o.to == v && o.edgeId == st[v].cameEdge && st[u].dist.Finite?
    && st[v].dist == Finite(st[u].dist.d + o.weight)
  }

  /** Entry `o` of `u` cannot improve its target any more. */
  predicate Relaxed(st: seq<State>, u: nat, o: Out)
    requires u < |st|
  {
    st[u].dist.Finite? && o.to < |st| && st[o.to].dist.Finite? && st[o.to].dist.d <= st[u].dist.d + o.weight
  }

  predicate AtMost(a: State, b: State) {
    a.dist.Finite? && (b.dist.Finite? ==> a.dist.d <= b.dist.d)
  }

  /** The invariant of the rounds; `open` is the settled node whose entries are not all relaxed yet, or -1. */
  ghost predicate Inv(w: WGraph, s: nat, st: seq<State>, depth: seq<nat>, rounds: nat, open: int) {
    && IsWGraph(w) && |st| == |depth| == |w| && s < |w|
    && st[s].dist == Finite(0.0) && depth[s] == 0
    && (forall v :: 0 <= v < |w| && st[v].dist.Finite? ==> st[v].dist.d >= 0.0 && depth[v] <= rounds)
    && (forall v :: 0 <= v < |w| && st[v].visited ==> st[v].dist.Finite? && depth[v] < rounds)
    && (forall v {:trigger Hooked(w, st, depth, v)} :: 0 <= v < |w| && v != s && st[v].dist.Finite? ==> Hooked(w, st, depth, v))
    && (forall u, x {:trigger AtMost(st[u], st[x])} ::
          0 <= u < |w| && 0 <= x < |w| && st[u].visited && !st[x].visited ==> AtMost(st[u], st[x]))
    && (forall u, k {:trigger Relaxed(st, u, w[u][k])} ::
          0 <= u < |w| && st[u].visited && u != open && 0 <= k < |w[u]| ==> Relaxed(st, u, w[u][k]))
  }

  ghost function Hop(w: WGraph, st: seq<State>, depth: seq<nat>, v: nat): (o: Out)
    requires |st| == |depth| == |w| && v < |w| && Hooked(w, st, depth, v)
    ensures o in w[st[v].cameFrom] && Carries(st, st[v].cameFrom, o, v)
  {
    var o :| o in w[st[v].cameFrom] && Carries(st, st[v].cameFrom, o, v);
    o
  }

  /** The path recorded by the came-from links. */
  ghost function Recorded(w: WGraph, s: nat, st: seq<State>, depth: seq<nat>, rounds: nat, open: int, v: nat): (p: seq<Out>)
    requires Inv(w, s, st, depth, rounds, open) && v < |w| && st[v].dist.Finite?
    ensures IsPath(w, s, p) && End(s, p) == v && st[v].dist == Finite(Length(p)) && |p| == depth[v]
    decreases depth[v]
  {
    if v == s then []
    else
      assert Hooked(w, st, depth, v);
      var q := Recorded(w, s, st, depth, rounds, open, st[v].cameFrom);
      var p := q + [Hop(w, st, depth, v)];
      assert p[..|p| - 1] == q;
      p
  }

  /** Every path either has its end settled at no more than its length, or leaves the settled region
      at a node that is already that near. */
  lemma {:induction false} PathBound(w: WGraph, s: nat, st: seq<State>, depth: seq<nat>, rounds: nat, open: int, p: seq<Out>)
    returns (y: nat)
    requires Inv(w, s, st, depth, rounds, open) && IsPath(w, s, p)
    ensures y < |w| && st[y].dist.Finite? && st[y].dist.d <= Length(p)
    ensures y == End(s, p) || !st[y].visited || y == open
    decreases |p|
  {
    if p == [] {
      y := s;
    } else {
      var q, o := p[..|p| - 1], p[|p| - 1];
      var u := End(s, q);
      var k :| 0 <= k < |w[u]| && w[u][k] == o;
      y := PathBound(w, s, st, depth, rounds, open, q);
      if st[y].visited && y != open {
        assert Relaxed(st, u, w[u][k]);
        y := o.to;
      }
    }
  }

  // ---------- The algorithm ----------

  /** The first unvisited node of least finite distance, or -1. */
  method ExtractMin(states: array<State>) returns (best: int)
    ensures -1 <= best < states.Length
    ensures best < 0 ==> forall v :: 0 <= v < states.Length && !states[v].visited ==> states[v].dist == Infinity
    ensures best >= 0 ==> !states[best].visited && states[best].dist.Finite?
    ensures best >= 0 ==> forall v :: 0 <= v < states.Length && !states[v].visited ==> AtMost(states[best], states[v])
    ensures best >= 0 ==> forall v :: 0 <= v < best && !states[v].visited ==> !AtMost(states[v], states[best])
  {
    best := -1;
    var bestDist := Infinity;
    var i := 0;
    while i < states.Length
      invariant 0 <= i <= states.Length && -1 <= best < i
      invariant best < 0 ==> bestDist == Infinity
      invariant best < 0 ==> forall v :: 0 <= v < i && !states[v].visited ==> states[v].dist == Infinity
      invariant best >= 0 ==> !states[best].visited && states[best].dist == bestDist && bestDist.Finite?
      invariant best >= 0 ==> forall v :: 0 <= v < i && !states[v].visited ==> AtMost(states[best], states[v])
      invariant best >= 0 ==> forall v :: 0 <= v < best && !states[v].visited ==> !AtMost(states[v], states[best])
    {
      if !states[i].visited && states[i].dist.Finite? && (bestDist == Infinity || states[i].dist.d < bestDist.d) {
        bestDist := states[i].dist;
        best := i;
      }
      i := i + 1;
    }
  }

  /** Relaxes every entry of the just settled node `u`. */
  method RelaxAll(w: WGraph, s: nat, states: array<State>, u: nat, ghost depth0: seq<nat>, ghost rounds: nat)
    returns (ghost depth: seq<nat>)
    requires u < |w| && Inv(w, s, states[..], depth0, rounds, u) && states[u].visited
    requires forall v :: 0 <= v < |w| && states[v].visited ==> AtMost(states[v], states[u])
    modifies states
    ensures Inv(w, s, states[..], depth, rounds, -1)
    ensures forall v :: 0 <= v < |w| ==> states[v].visited == old(states[v].visited)
  {
    depth := depth0;
    var k := 0;
    while k < |w[u]|
      invariant 0 <= k <= |w[u]| && states.Length == |w|
      invariant Inv(w, s, states[..], depth, rounds, u)
      invariant forall v :: 0 <= v < |w| ==> states[v].visited == old(states[v].visited)
      invariant forall v :: 0 <= v < |w| && states[v].visited ==> AtMost(states[v], states[u])
      invariant forall j :: 0 <= j < k ==> Relaxed(states[..], u, w[u][j])
    {
      var o := w[u][k];
      var v := o.to;
      if !states[v].visited {
        var alt := states[u].dist.d + o.weight;
        if states[v].dist == Infinity || alt < states[v].dist.d {
          ghost var st := states[..];
          ImproveKeeps(w, s, st, depth, rounds, u, k);
          states[v] := State(Finite(alt), u, o.edgeId, false);
          depth := depth[v := depth[u] + 1];
          assert states[..] == Improved(st, u, o);
          assert forall j :: 0 <= j < k ==> Relaxed(st, u, w[u][j]);
        }
      }
      k := k + 1;
    }
  }

  /** The states after improving entry `k`'s target over the open node `u`. */
  function Improved(st: seq<State>, u: nat, o: Out): seq<State>
    requires u < |st| && st[u].dist.Finite? && o.to < |st|
  {
    st[o.to := State(Finite(st[u].dist.d + o.weight), u, o.edgeId, false)]
  }

  /** Improving an unsettled node over an entry of the open node keeps the invariant. */
  lemma ImproveKeeps(w: WGraph, s: nat, st: seq<State>, depth: seq<nat>, rounds: nat, u: nat, k: nat)
    requires Inv(w, s, st, depth, rounds, u) && u < |w| && st[u].visited && k < |w[u]|
    requires forall v :: 0 <= v < |w| && st[v].visited ==> AtMost(st[v], st[u])
    requires var v := w[u][k].to; !st[v].visited
                                  && (st[v].dist.Finite? ==> st[u].dist.d + w[u][k].weight < st[v].dist.d)
    ensures Inv(w, s, Improved(st, u, w[u][k]), depth[w[u][k].to := depth[u] + 1], rounds, u)
  {
    var o := w[u][k];
    var st' := Improved(st, u, o);
    var depth' := depth[o.to := depth[u] + 1];
    forall v | 0 <= v < |w| && v != s && st'[v].dist.Finite?
      ensures Hooked(w, st', depth', v)
    {
      ImproveHooks(w, s, st, depth, rounds, u, k, v);
    }
    forall a, x | 0 <= a < |w| && 0 <= x < |w| && st'[a].visited && !st'[x].visited
      ensures AtMost(st'[a], st'[x])
    {
      assert AtMost(st[a], st[x]) && AtMost(st[a], st[u]);
    }
    forall a, j | 0 <= a < |w| && st'[a].visited && a != u && 0 <= j < |w[a]|
      ensures Relaxed(st', a, w[a][j])
    {
      assert Relaxed(st, a, w[a][j]);
    }
  }

  lemma ImproveHooks(w: WGraph, s: nat, st: seq<State>, depth: seq<nat>, rounds: nat, u: nat, k: nat, v: nat)
    requires Inv(w, s, st, depth, rounds, u) && u < |w| && st[u].visited && k < |w[u]| && !st[w[u][k].to].visited
    requires v < |w| && v != s && Improved(st, u, w[u][k])[v].dist.Finite?
    ensures Hooked(w, Improved(st, u, w[u][k]), depth[w[u][k].to := depth[u] + 1], v)
  {
    var o := w[u][k];
    var st' := Improved(st, u, o);
    if v == o.to {
      assert o in w[u] && Carries(st', u, o, v);
    } else {
      assert Hooked(w, st, depth, v);
      var h := Hop(w, st, depth, v);
      assert Carries(st', st[v].cameFrom, h, v);
    }
  }

  /** Settling the nearest unsettled node keeps the invariant. */
  lemma SettleKeeps(w: WGraph, s: nat, st: seq<State>, depth: seq<nat>, rounds: nat, u: nat)
    requires Inv(w, s, st, depth, rounds, -1) && u < |w| && !st[u].visited && st[u].dist.Finite?
    requires forall v :: 0 <= v < |w| && !st[v].visited ==> AtMost(st[u], st[v])
    ensures var st' := st[u := st[u].(visited := true)];
            Inv(w, s, st', depth, rounds + 1, u) && forall v :: 0 <= v < |w| && st'[v].visited ==> AtMost(st'[v], st'[u])
  {
    var st' := st[u := st[u].(visited := true)];
    forall v | 0 <= v < |w| && st'[v].visited
      ensures AtMost(st'[v], st'[u])
    {
      assert v != u ==> AtMost(st[v], st[u]);
    }
    forall v | 0 <= v < |w| && v != s && st'[v].dist.Finite?
      ensures Hooked(w, st', depth, v)
    {
      assert Hooked(w, st, depth, v);
      var h := Hop(w, st, depth, v);
      assert Carries(st', st[v].cameFrom, h, v);
    }
    forall a, j | 0 <= a < |w| && st'[a].visited && a != u && 0 <= j < |w[a]|
      ensures Relaxed(st', a, w[a][j])
    {
      assert Relaxed(st, a, w[a][j]);
    }
  }

  /** `settled` lists visited nodes without repetition. */
  ghost predicate SettledList(st: seq<State>, settled: seq<nat>) {
    && (forall i :: 0 <= i < |settled| ==> settled[i] < |st| && st[settled[i]].visited)
    && (forall i, j :: 0 <= i < j < |settled| ==> settled[i] != settled[j])
  }

  lemma SettledMore(st: seq<State>, settled: seq<nat>, u: nat)
    requires SettledList(st, settled) && u < |st| && !st[u].visited
    ensures SettledList(st[u := st[u].(visited := true)], settled + [u])
  {
  }

  /** Nothing is settled before the first round. */
  lemma StartInv(w: WGraph, s: nat, st: seq<State>, depth: seq<nat>)
    requires IsWGraph(w) && s < |w| && |st| == |depth| == |w| && forall v :: 0 <= v < |w| ==> depth[v] == 0
    requires forall v :: 0 <= v < |w| ==> st[v] == State(if v == s then Finite(0.0) else Infinity, -1, -1, false)
    ensures Inv(w, s, st, depth, 0, -1) && SettledList(st, [])
  {
  }

  lemma SettledStay(st: seq<State>, st': seq<State>, settled: seq<nat>)
    requires SettledList(st, settled) && |st'| == |st|
    requires forall v :: 0 <= v < |st| ==> st'[v].visited == st[v].visited
    ensures SettledList(st', settled)
  {
  }

  lemma AllSettled(st: seq<State>, settled: seq<nat>)
    requires SettledList(st, settled) && |settled| == |st|
    ensures forall v :: 0 <= v < |st| ==> st[v].visited
  {
    forall v | 0 <= v < |st|
      ensures st[v].visited
    {
      if !st[v].visited {
        DistinctFits(settled + [v], |st|);
      }
    }
  }

  /** The rounds: afterwards the recorded distance of the target (index `t`, or -1) is the least path length. */
  method Search(w: WGraph, s: nat, t: int, states: array<State>)
    returns (ghost depth: seq<nat>, ghost rounds: nat, ghost open: int)
    requires IsWGraph(w) && s < |w| && -1 <= t < |w| && states.Length == |w|
    requires forall v :: 0 <= v < |w| ==> states[v] == State(if v == s then Finite(0.0) else Infinity, -1, -1, false)
    modifies states
    ensures Inv(w, s, states[..], depth, rounds, open) && rounds <= |w|
    ensures t >= 0 && states[t].dist.Finite? ==> states[t].visited
    ensures t >= 0 ==> forall p :: IsPath(w, s, p) && End(s, p) == t ==>
                                     states[t].dist.Finite? && states[t].dist.d <= Length(p)
  {
    hide Inv, IsPath, Length, End, SettledList, IsWGraph;
    depth := seq(|w|, _ => 0);
    StartInv(w, s, states[..], depth);
    open := -1;
    rounds := 0;
    ghost var settled := [];
    var round := 0;
    while round < states.Length
      invariant 0 <= round <= |w| && rounds == round == |settled| && open == -1
      invariant Inv(w, s, states[..], depth, round, -1)
      invariant SettledList(states[..], settled)
      invariant t >= 0 ==> !states[t].visited
    {
      var u := ExtractMin(states);
      if u < 0 {
        break;
      }
      SettleKeeps(w, s, states[..], depth, round, u);
      ghost var st := states[..];
      states[u] := states[u].(visited := true);
      assert states[..] == st[u := st[u].(visited := true)];
      assert forall v :: 0 <= v < |w| ==> states[v] == states[..][v];
      rounds := round + 1;
      ghost var node: nat := u;
      settled := settled + [node];
      SettledMore(st, settled[..round], node);
      assert settled == settled[..round] + [node];
      if u == t {
        open := u;
        break;
      }
      ghost var st1 := states[..];
      depth := RelaxAll(w, s, states, u, depth, round + 1);
      SettledStay(st1, states[..], settled);
      round := round + 1;
    }
    if round == states.Length {
      AllSettled(states[..], settled);
    }
    Optimal(w, s, states[..], depth, rounds, open, t);
  }

  /** When the target is settled, or nothing unsettled is reachable, the recorded distance is least. */
  lemma Optimal(w: WGraph, s: nat, st: seq<State>, depth: seq<nat>, rounds: nat, open: int, t: int)
    requires Inv(w, s, st, depth, rounds, open) && -1 <= t < |w|
    requires open == -1 || (open == t && st[t].visited)
    requires open == -1 ==> forall v :: 0 <= v < |w| && !st[v].visited ==> st[v].dist == Infinity
    ensures t >= 0 && st[t].dist.Finite? ==> st[t].visited
    ensures t >= 0 ==> forall p :: IsPath(w, s, p) && End(s, p) == t ==>
                                     st[t].dist.Finite? && st[t].dist.d <= Length(p)
  {
    forall p | t >= 0 && IsPath(w, s, p) && End(s, p) == t
      ensures st[t].dist.Finite? && st[t].dist.d <= Length(p)
    {
      var y := PathBound(w, s, st, depth, rounds, open, p);
      assert open == t && y != t ==> AtMost(st[t], st[y]);
    }
  }

  // ---------- Reconstruction ----------

  /** `Overrun` stands for a link chain that does not fit the fixed-size path buffers. */
  datatype PathResult = NotFound | Overrun | Found(nodeIds: seq<int>, edgeIds: seq<int>, totalWeight: real)

  /** `r` lists the nodes and edges of path `p` from node index `s`. */
  predicate Describes(r: PathResult, s: nat, p: seq<Out>) {
    && r.Found? && |r.nodeIds| == |p| + 1 && |r.edgeIds| == |p|
    && r.nodeIds[0] == s + 1
    && (forall i :: 0 <= i < |p| ==> r.nodeIds[i + 1] == p[i].to + 1 && r.edgeIds[i] == p[i].edgeId)
    && r.totalWeight == Length(p)
  }

  /** The link of the node that step `j` leads to names the step's edge and the node it leaves. */
  ghost predicate LinkAt(st: seq<State>, s: nat, path: seq<Out>, j: nat)
    requires j < |path|
  {
    && path[j].to < |st| && path[j].to != s
    && st[path[j].to].cameFrom == (if j > 0 then path[j - 1].to else s)
    && st[path[j].to].cameEdge == path[j].edgeId
  }

  /** The came-from links of `st` spell `path` backwards. */
  ghost predicate LinksBack(st: seq<State>, s: nat, path: seq<Out>) {
    forall j {:trigger LinkAt(st, s, path, j)} :: 0 <= j < |path| ==> LinkAt(st, s, path, j)
  }

  lemma {:induction false} RecordedLinks(w: WGraph, s: nat, st: seq<State>, depth: seq<nat>, rounds: nat, open: int, v: nat)
    requires Inv(w, s, st, depth, rounds, open) && v < |w| && st[v].dist.Finite?
    ensures LinksBack(st, s, Recorded(w, s, st, depth, rounds, open, v))
    decreases depth[v]
  {
    if v != s {
      assert Hooked(w, st, depth, v);
      RecordedLinks(w, s, st, depth, rounds, open, st[v].cameFrom);
      var q := Recorded(w, s, st, depth, rounds, open, st[v].cameFrom);
      var p := Recorded(w, s, st, depth, rounds, open, v);
      assert p == q + [Hop(w, st, depth, v)];
      forall j | 0 <= j < |p|
        ensures LinkAt(st, s, p, j)
      {
        assert j < |q| ==> LinkAt(st, s, q, j);
      }
    }
  }

  /** Walks the came-from links back from the target and reverses them into the result. */
  method ReconstructPath(s: nat, t: int, states: array<State>, ghost path: seq<Out>) returns (r: PathResult)
    requires -1 <= t < states.Length
    requires t >= 0 && states[t].dist.Finite? ==>
               LinksBack(states[..], s, path) && End(s, path) == t && states[t].dist == Finite(Length(path))
    ensures r == NotFound <==> t < 0 || states[t].dist == Infinity
    ensures r == Overrun <==> t >= 0 && states[t].dist.Finite? && |path| >= MAX_PATH_LENGTH
    ensures r.Found? ==> Describes(r, s, path)
  {
    if t < 0 || states[t].dist == Infinity {
      return NotFound;
    }
    var nodeTemp := new int[MAX_PATH_LENGTH];
    var edgeTemp := new int[MAX_PATH_LENGTH];
    var len := 0;
    var cur: nat := t;
    while cur != s && len < MAX_PATH_LENGTH
      invariant 0 <= len <= MAX_PATH_LENGTH && len <= |path|
      invariant cur == if len < |path| then path[|path| - 1 - len].to else s
      invariant len < |path| ==> LinkAt(states[..], s, path, |path| - 1 - len)
      invariant forall i :: 0 <= i < len ==> nodeTemp[i] == path[|path| - 1 - i].to + 1
      invariant forall i :: 0 <= i < len ==> edgeTemp[i] == path[|path| - 1 - i].edgeId
      decreases MAX_PATH_LENGTH - len
    {
      ghost var j := |path| - 1 - len;
      assert j > 0 ==> LinkAt(states[..], s, path, j - 1);
      nodeTemp[len] := cur + 1;
      edgeTemp[len] := states[cur].cameEdge;
      len := len + 1;
      cur := states[cur].cameFrom;
    }
    if len == MAX_PATH_LENGTH {
      return Overrun;
    }
    r := Reversed(s, nodeTemp, edgeTemp, len, states[t].dist.d, path);
  }

  /** Copies the backwards buffers, with the start appended, into the result in forward order. */
  method Reversed(s: nat, nodeTemp: array<int>, edgeTemp: array<int>, len: nat, total: real, ghost path: seq<Out>)
    returns (r: PathResult)
    requires nodeTemp.Length == edgeTemp.Length == MAX_PATH_LENGTH && nodeTemp != edgeTemp
    requires len == |path| < MAX_PATH_LENGTH && total == Length(path)
    requires forall i :: 0 <= i < len ==> nodeTemp[i] == path[len - 1 - i].to + 1
    requires forall i :: 0 <= i < len ==> edgeTemp[i] == path[len - 1 - i].edgeId
    modifies nodeTemp
    ensures Describes(r, s, path)
  {
    nodeTemp[len] := s + 1;
    var nodeIds := new int[len + 1](i requires 0 <= i < len + 1 reads nodeTemp => nodeTemp[len - i]);
    var edgeIds := new int[len](i requires 0 <= i < len reads edgeTemp => edgeTemp[len - 1 - i]);
    r := Found(nodeIds[..], edgeIds[..], total);
  }

  // ---------- On the property graph ----------

  /** The first edge with the given id. */
  function GetEdge(edges: seq<Edge>, id: int): Option<Edge> {
    if edges == [] then None
    else if edges[0].id == id then Some(edges[0])
    else GetEdge(edges[1..], id)
  }

  lemma {:induction false} GetEdgeFinds(edges: seq<Edge>, base: int, k: nat)
    requires k < |edges| && forall i :: 0 <= i < |edges| ==> edges[i].id == base + i
    ensures GetEdge(edges, base + k) == Some(edges[k])
  {
    if k > 0 {
      GetEdgeFinds(edges[1..], base + 1, k - 1);
    }
  }

  /** The weight of an adjacency entry: 1 without a weight function or when its edge is missing. */
  function EntryWeight(g: Graph, weight: Option<Edge -> real>, edgeId: int): real {
    if weight == None then 1.0
    else
      match GetEdge(g.edges, edgeId)
      case Some(e) => weight.value(e)
      case None => 1.0
  }

  predicate NonNegative(g: Graph, weight: Option<Edge -> real>) {
    weight.Some? ==> forall e <- g.edges :: weight.value(e) >= 0.0
  }

  lemma {:induction false} GetEdgeMember(edges: seq<Edge>, id: int)
    ensures GetEdge(edges, id).Some? ==> GetEdge(edges, id).value in edges
  {
    if edges != [] {
      GetEdgeMember(edges[1..], id);
    }
  }

  /** The adjacency lists with targets resolved and edges weighted. */
  function Outs(g: Graph, weight: Option<Edge -> real>): (w: WGraph)
    requires g.Valid() && NonNegative(g, weight)
    ensures IsWGraph(w) && |w| == g.N()
  {
    var w := seq(g.N(), u requires 0 <= u < g.N() =>
      seq(|g.adj[u]|, k requires 0 <= k < |g.adj[u]| =>
        Out(g.Nbr(u, k), EntryWeight(g, weight, g.adj[u][k].edgeId), g.adj[u][k].edgeId)));
    assert forall u, k :: 0 <= u < |w| && 0 <= k < |w[u]| ==> w[u][k].weight >= 0.0 by {
      forall u, k | 0 <= u < |w| && 0 <= k < |w[u]|
        ensures w[u][k].weight >= 0.0
      {
        GetEdgeMember(g.edges, g.adj[u][k].edgeId);
      }
    }
    w
  }

  /** Every path step is a real edge of the graph, walkable that way, with its own weight. */
  lemma StepIsEdge(g: Graph, weight: Option<Edge -> real>, u: nat, o: Out) returns (e: Edge)
    requires g.Valid() && NonNegative(g, weight) && u < g.N() && o in Outs(g, weight)[u]
    ensures e in g.edges && e.id == o.edgeId && Joins(e, u + 1, o.to + 1)
    ensures o.weight == if weight.Some? then weight.value(e) else 1.0
  {
    var k :| 0 <= k < |g.adj[u]| && Outs(g, weight)[u][k] == o;
    var i := AdjOfSound(g.edges, u + 1, g.adj[u][k]);
    e := g.edges[i];
    GetEdgeFinds(g.edges, 1, i);
  }

  /** Every edge is a step of the graph, both ways if it is undirected, under its own id and with its own weight. */
  lemma EdgeIsStep(g: Graph, weight: Option<Edge -> real>, u: nat, v: nat, k: nat) returns (o: Out)
    requires g.Valid() && NonNegative(g, weight) && u < g.N() && v < g.N() && k < |g.edges| && Joins(g.edges[k], u + 1, v + 1)
    ensures o in Outs(g, weight)[u] && o.to == v && o.edgeId == g.edges[k].id == k + 1
    ensures o.weight == if weight.Some? then weight.value(g.edges[k]) else 1.0
  {
    var a := AdjEntry(g.edges[k].id, v + 1);
    AdjOfComplete(g.edges, u + 1, a, k);
    var j :| 0 <= j < |g.adj[u]| && g.adj[u][j] == a;
    o := Outs(g, weight)[u][j];
    GetEdgeFinds(g.edges, 1, k);
  }

  // ---------- Routes over the edge array ----------

  /** Each edge leads from one node of the route to the next. */
  predicate IsRoute(g: Graph, nodes: seq<int>, edgeIds: seq<int>) {
    && |nodes| == |edgeIds| + 1 && 1 <= nodes[0] <= g.N()
    && forall i {:trigger edgeIds[i]} :: 0 <= i < |edgeIds| ==> LeadsOver(g, edgeIds[i], nodes[i], nodes[i + 1])
  }

  predicate LeadsOver(g: Graph, edgeId: int, a: int, b: int) {
    1 <= edgeId <= |g.edges| && Joins(g.edges[edgeId - 1], a, b)
  }

  lemma RouteGrows(g: Graph, nodes: seq<int>, edgeIds: seq<int>)
    requires edgeIds != [] && |nodes| == |edgeIds| + 1
    requires IsRoute(g, nodes[..|edgeIds|], edgeIds[..|edgeIds| - 1])
    requires LeadsOver(g, edgeIds[|edgeIds| - 1], nodes[|edgeIds| - 1], nodes[|edgeIds|])
    ensures IsRoute(g, nodes, edgeIds)
  {
    hide LeadsOver;
    var n := |edgeIds| - 1;
    var before, earlier := nodes[..n + 1], edgeIds[..n];
    forall i | 0 <= i < |edgeIds|
      ensures LeadsOver(g, edgeIds[i], nodes[i], nodes[i + 1])
    {
      if i < n {
        assert earlier[i] == edgeIds[i] && before[i] == nodes[i] && before[i + 1] == nodes[i + 1];
      }
    }
  }

  ghost predicate RouteBetween(g: Graph, nodes: seq<int>, edgeIds: seq<int>, startId: int, targetId: int) {
    IsRoute(g, nodes, edgeIds) && nodes[0] == startId && nodes[|nodes| - 1] == targetId
  }

  function RouteWeight(g: Graph, weight: Option<Edge -> real>, edgeIds: seq<int>): real
    requires forall i :: 0 <= i < |edgeIds| ==> 1 <= edgeIds[i] <= |g.edges|
  {
    if edgeIds == [] then 0.0
    else
      var init, e := edgeIds[..|edgeIds| - 1], g.edges[edgeIds[|edgeIds| - 1] - 1];
      RouteWeight(g, weight, init) + if weight.Some? then weight.value(e) else 1.0
  }

  /** What a result lists for a path over the adjacency lists is a route of the path's length. */
  lemma {:induction false} PathIsRoute(g: Graph, weight: Option<Edge -> real>, s: nat, p: seq<Out>, nodes: seq<int>, edgeIds: seq<int>)
    requires g.Valid() && NonNegative(g, weight) && IsPath(Outs(g, weight), s, p)
    requires Describes(Found(nodes, edgeIds, Length(p)), s, p)
    ensures RouteBetween(g, nodes, edgeIds, s + 1, End(s, p) + 1) && RouteWeight(g, weight, edgeIds) == Length(p)
  {
    hide Graph.Valid, Outs, NonNegative, IsWGraph, IsRoute, Joins;
    if p == [] {
      LoneNode(g, nodes, edgeIds);
    } else {
      var n := |p| - 1;
      var init, o := p[..n], p[n];
      EndBefore(s, p, nodes, edgeIds);
      PathIsRoute(g, weight, s, init, nodes[..n + 1], edgeIds[..n]);
      var e := StepIsEdge(g, weight, End(s, init), o);
      EdgeNumber(g, e);
      RouteGrows(g, nodes, edgeIds);
      RouteInside(g, nodes, edgeIds);
    }
  }

  lemma LoneNode(g: Graph, nodes: seq<int>, edgeIds: seq<int>)
    requires |nodes| == 1 && edgeIds == [] && 1 <= nodes[0] <= g.N()
    ensures IsRoute(g, nodes, edgeIds)
  {
  }

  lemma RouteInside(g: Graph, nodes: seq<int>, edgeIds: seq<int>)
    requires IsRoute(g, nodes, edgeIds)
    ensures |nodes| == |edgeIds| + 1 && forall i :: 0 <= i < |edgeIds| ==> 1 <= edgeIds[i] <= |g.edges|
  {
  }

  lemma EndBefore(s: nat, p: seq<Out>, nodes: seq<int>, edgeIds: seq<int>)
    requires p != [] && Describes(Found(nodes, edgeIds, Length(p)), s, p)
    ensures var n := |p| - 1;
            && nodes[n] == End(s, p[..n]) + 1 && nodes[n + 1] == End(s, p) + 1 && edgeIds[n] == p[n].edgeId
            && Describes(Found(nodes[..n + 1], edgeIds[..n], Length(p[..n])), s, p[..n])
  {
    hide Length;
    var n := |p| - 1;
    forall i | 0 <= i < n
      ensures nodes[..n + 1][i + 1] == p[..n][i].to + 1 && edgeIds[..n][i] == p[..n][i].edgeId
    {
      assert nodes[i + 1] == p[i].to + 1;
    }
    assert n > 0 ==> nodes[n - 1 + 1] == p[n - 1].to + 1;
    assert nodes[n + 1] == p[n].to + 1;
  }

  lemma EdgeNumber(g: Graph, e: Edge)
    requires g.Valid() && e in g.edges
    ensures 1 <= e.id <= |g.edges| && g.edges[e.id - 1] == e
  {
  }

  /** Every route is a path over the adjacency lists, of the same length. */
  lemma {:induction false} RouteIsPath(g: Graph, weight: Option<Edge -> real>, nodes: seq<int>, edgeIds: seq<int>) returns (p: seq<Out>)
    requires g.Valid() && NonNegative(g, weight) && IsRoute(g, nodes, edgeIds)
    ensures IsPath(Outs(g, weight), nodes[0] - 1, p) && End(nodes[0] - 1, p) + 1 == nodes[|nodes| - 1]
    ensures Length(p) == RouteWeight(g, weight, edgeIds)
    decreases |edgeIds|
  {
    hide Graph.Valid, Outs, NonNegative, IsWGraph, Joins;
    p := [];
    if edgeIds != [] {
      var n := |edgeIds| - 1;
      assert LeadsOver(g, edgeIds[n], nodes[n], nodes[n + 1]);
      RoutePrefix(g, nodes, edgeIds);
      var init := RouteIsPath(g, weight, nodes[..n + 1], edgeIds[..n]);
      var u, k := nodes[n] - 1, edgeIds[n] - 1;
      JoinedInside(g, k, nodes[n], nodes[n + 1]);
      var o := EdgeIsStep(g, weight, u, nodes[n + 1] - 1, k);
      p := init + [o];
      assert p[..|p| - 1] == init;
    }
  }

  lemma RoutePrefix(g: Graph, nodes: seq<int>, edgeIds: seq<int>)
    requires IsRoute(g, nodes, edgeIds) && edgeIds != []
    ensures IsRoute(g, nodes[..|edgeIds|], edgeIds[..|edgeIds| - 1])
  {
  }

  lemma JoinedInside(g: Graph, k: nat, a: int, b: int)
    requires g.Valid() && k < |g.edges| && Joins(g.edges[k], a, b)
    ensures 1 <= a <= g.N() && 1 <= b <= g.N()
  {
  }

  lemma EndsInside(g: Graph, k: nat)
    requires g.Valid() && k < |g.edges|
    ensures 1 <= g.edges[k].fromNode <= g.N() && 1 <= g.edges[k].toNode <= g.N()
  {
  }

  /** Paths over the adjacency lists lead to exactly the nodes that can be reached. */
  lemma {:induction false} PathReaches(g: Graph, weight: Option<Edge -> real>, s: nat, p: seq<Out>)
    requires g.Valid() && NonNegative(g, weight) && IsPath(Outs(g, weight), s, p)
    ensures End(s, p) < g.N() && Reach(g.Succs(), s, End(s, p))
  {
    hide Graph.Valid, Outs, NonNegative, Reach;
    if p == [] {
      ReachRefl(g.Succs(), s);
    } else {
      var init, o := p[..|p| - 1], p[|p| - 1];
      PathReaches(g, weight, s, init);
      var u := End(s, init);
      var e := StepIsEdge(g, weight, u, o);
      EdgeNumber(g, e);
      EndsInside(g, e.id - 1);
      EdgeHasArc(g, u, o.to, e.id - 1);
      ReachArc(g.Succs(), u, o.to);
      ReachTrans(g.Succs(), s, u, o.to);
    }
  }

  lemma {:induction false} WalkIsPath(g: Graph, weight: Option<Edge -> real>, w: seq<nat>, i: nat) returns (p: seq<Out>)
    requires g.Valid() && NonNegative(g, weight) && IsWalk(g.Succs(), w) && i < |w|
    ensures IsPath(Outs(g, weight), w[0], p) && End(w[0], p) == w[i]
  {
    hide Graph.Valid, Outs, NonNegative, IsWGraph;
    p := [];
    if i > 0 {
      var init := WalkIsPath(g, weight, w, i - 1);
      assert Arc(g.Succs(), w[i - 1], w[i - 1 + 1]);
      var k := ArcHasEdge(g, w[i - 1], w[i]);
      var o := EdgeIsStep(g, weight, w[i - 1], w[i], k);
      p := init + [o];
      assert p[..|p| - 1] == init;
    }
  }

  lemma ReachIffPath(g: Graph, weight: Option<Edge -> real>, startId: int, targetId: int)
    requires g.Valid() && NonNegative(g, weight) && 1 <= startId <= g.N() && 1 <= targetId <= g.N()
    ensures Reach(g.Succs(), startId - 1, targetId - 1) <==> exists p :: PathBetween(g, weight, startId, targetId, p)
  {
    hide Graph.Valid, Outs, NonNegative, IsPath, End;
    if Reach(g.Succs(), startId - 1, targetId - 1) {
      var w :| WalkFromTo(g.Succs(), w, startId - 1, targetId - 1);
      var p := WalkIsPath(g, weight, w, |w| - 1);
      assert PathBetween(g, weight, startId, targetId, p);
    }
    if p :| PathBetween(g, weight, startId, targetId, p) {
      PathReaches(g, weight, startId - 1, p);
    }
  }

  /** `NotFound` exactly when no path exists; otherwise a real path whose weight no path undercuts.
      With at most 256 nodes the buffers never overrun; if they do, a shortest path has 256 or more hops. */
  method TraverseDijkstra(g: Graph, startId: int, targetId: int, weight: Option<Edge -> real>) returns (r: PathResult)
    requires g.Valid() && NonNegative(g, weight)
    ensures r == NotFound <==> !exists p :: PathBetween(g, weight, startId, targetId, p)
    ensures r.Found? ==> exists p :: Shortest(g, weight, startId, targetId, p) && Describes(r, startId - 1, p)
                                     && |p| < MAX_PATH_LENGTH
    ensures r == Overrun ==> exists p :: Shortest(g, weight, startId, targetId, p) && MAX_PATH_LENGTH <= |p| < g.N()
    ensures g.N() <= MAX_PATH_LENGTH ==> r != Overrun
    ensures r == NotFound <==>
            !(1 <= startId <= g.N() && 1 <= targetId <= g.N() && Reach(g.Succs(), startId - 1, targetId - 1))
    ensures r.Found? ==> RouteBetween(g, r.nodeIds, r.edgeIds, startId, targetId) && r.totalWeight == RouteWeight(g, weight, r.edgeIds)
    ensures r.Found? ==> forall nodes, edgeIds :: RouteBetween(g, nodes, edgeIds, startId, targetId) ==>
                                                    r.totalWeight <= RouteWeight(g, weight, edgeIds)
  {
    hide Outs, IsPath, Length, Describes, Graph.Valid, NonNegative, IsWGraph, Reach, IsRoute;
    var si := IndexOf(g.ids, startId);
    var ti := IndexOf(g.ids, targetId);
    IndexOfIds(g, startId);
    IndexOfIds(g, targetId);
    if si < 0 {
      // No node gets distance 0, so the first extraction finds nothing and every distance stays infinite.
      return NotFound;
    }
    ghost var path;
    r, path := TraverseIndexed(Outs(g, weight), si, ti);
    assert r != NotFound ==> PathBetween(g, weight, startId, targetId, path);
    assert r != NotFound ==> Shortest(g, weight, startId, targetId, path);
    forall p
      ensures PathBetween(g, weight, startId, targetId, p) ==> r != NotFound && 1 <= targetId <= g.N()
    {
      EndInside(Outs(g, weight), si, p);
    }
    if 1 <= targetId <= g.N() {
      ReachIffPath(g, weight, startId, targetId);
    }
    if r.Found? {
      FoundIsRoute(g, weight, startId, targetId, path, r);
    }
  }

  /** A result that lists a shortest path is a route that no route undercuts. */
  lemma FoundIsRoute(g: Graph, weight: Option<Edge -> real>, startId: int, targetId: int, path: seq<Out>, r: PathResult)
    requires g.Valid() && NonNegative(g, weight) && Shortest(g, weight, startId, targetId, path)
    requires Describes(r, startId - 1, path)
    ensures RouteBetween(g, r.nodeIds, r.edgeIds, startId, targetId) && r.totalWeight == RouteWeight(g, weight, r.edgeIds)
    ensures forall nodes, edgeIds :: RouteBetween(g, nodes, edgeIds, startId, targetId) ==> r.totalWeight <= RouteWeight(g, weight, edgeIds)
  {
    hide Graph.Valid, Outs, NonNegative, IsPath, Length, RouteWeight;
    PathIsRoute(g, weight, startId - 1, path, r.nodeIds, r.edgeIds);
    forall nodes, edgeIds | RouteBetween(g, nodes, edgeIds, startId, targetId)
      ensures r.totalWeight <= RouteWeight(g, weight, edgeIds)
    {
      var q := RouteIsPath(g, weight, nodes, edgeIds);
      assert PathBetween(g, weight, startId, targetId, q);
    }
  }

  lemma EndInside(w: WGraph, s: nat, p: seq<Out>)
    requires IsWGraph(w)
    ensures IsPath(w, s, p) ==> End(s, p) < |w|
  {
  }

  lemma IndexOfIds(g: Graph, id: int)
    requires g.Valid()
    ensures IndexOf(g.ids, id) == if 1 <= id <= g.N() then id - 1 else -1
  {
    if 1 <= id <= g.N() {
      assert g.ids[id - 1] == id;
    }
  }

  /** The same on node indices; target -1 stands for an id that names no node. */
  method TraverseIndexed(w: WGraph, s: nat, t: int) returns (r: PathResult, ghost path: seq<Out>)
    requires IsWGraph(w) && s < |w| && -1 <= t < |w|
    ensures r == NotFound ==> forall p :: IsPath(w, s, p) ==> End(s, p) != t
    ensures r != NotFound ==> IsPath(w, s, path) && End(s, path) == t && |path| < |w|
    ensures r != NotFound ==> forall p :: IsPath(w, s, p) && End(s, p) == t ==> Length(path) <= Length(p)
    ensures r.Found? ==> Describes(r, s, path)
    ensures r == Overrun <==> r != NotFound && |path| >= MAX_PATH_LENGTH
    ensures |w| <= MAX_PATH_LENGTH ==> r != Overrun
  {
    var states := new State[|w|](i => State(if i == s then Finite(0.0) else Infinity, -1, -1, false));
    ghost var depth, rounds, open := Search(w, s, t, states);
    path := [];
    if t >= 0 && states[t].dist.Finite? {
      path := Recorded(w, s, states[..], depth, rounds, open, t);
      RecordedLinks(w, s, states[..], depth, rounds, open, t);
    }
    r := ReconstructPath(s, t, states, path);
  }

  ghost predicate PathBetween(g: Graph, weight: Option<Edge -> real>, startId: int, targetId: int, p: seq<Out>)
    requires g.Valid() && NonNegative(g, weight)
  {
    1 <= startId <= g.N() && IsPath(Outs(g, weight), startId - 1, p) && End(startId - 1, p) + 1 == targetId
  }

  ghost predicate Shortest(g: Graph, weight: Option<Edge -> real>, startId: int, targetId: int, p: seq<Out>)
    requires g.Valid() && NonNegative(g, weight)
  {
    && PathBetween(g, weight, startId, targetId, p)
    && forall q :: PathBetween(g, weight, startId, targetId, q) ==> Length(p) <= Length(q)
  }

  // ---------- The bound on the number of nodes is sharp ----------

  /** Edges 1 -> 2 -> ... -> n and no others. */
  predicate IsChain(g: Graph) {
    |g.edges| == g.N() - 1 && forall k :: 0 <= k < |g.edges| ==> g.edges[k] == Edge(k + 1, k + 1, k + 2, true)
  }

  /** Builds the chain of `n` nodes, node by node and edge by edge. */
  method BuildChain(n: nat, hash: int -> nat) returns (g: PropertyGraph)
    requires 0 < n <= MAX_NODES
    ensures g.Valid() && g.View().N() == n && IsChain(g.View())
  {
    hide PropertyGraph.Valid;
    g := new PropertyGraph(hash);
    var i := 0;
    while i < n
      invariant 0 <= i <= n && fresh(g) && g.Valid() && |g.nodeIds| == i && g.edges == []
    {
      var id := g.CreateNode();
      i := i + 1;
    }
    i := 1;
    while i < n
      invariant 1 <= i <= n && fresh(g) && g.Valid() && |g.nodeIds| == n && |g.edges| == i - 1
      invariant forall k :: 0 <= k < |g.edges| ==> g.edges[k] == Edge(k + 1, k + 1, k + 2, true)
    {
      var id := g.CreateEdge(i, i + 1, true);
      i := i + 1;
    }
  }

  /** Along the chain a path of `k` hops ends at the node of index `k`. */
  lemma {:induction false} ChainDepth(g: Graph, p: seq<Out>)
    requires g.Valid() && IsChain(g) && IsPath(Outs(g, None), 0, p)
    ensures End(0, p) == |p|
  {
    if p != [] {
      var init, o := p[..|p| - 1], p[|p| - 1];
      ChainDepth(g, init);
      var e := StepIsEdge(g, None, End(0, init), o);
      var k :| 0 <= k < |g.edges| && g.edges[k] == e;
    }
  }

  lemma ChainArc(g: Graph, k: nat) returns (o: Out)
    requires g.Valid() && IsChain(g) && 0 < k < g.N()
    ensures o in Outs(g, None)[k - 1] && o.to == k
  {
    var a := AdjEntry(k, k + 1);
    assert Gives(g.edges[k - 1], k, a);
    AdjOfComplete(g.edges, k, a, k - 1);
    var j :| 0 <= j < |g.adj[k - 1]| && g.adj[k - 1][j] == a;
    o := Outs(g, None)[k - 1][j];
  }

  lemma {:induction false} ChainReaches(g: Graph, k: nat) returns (p: seq<Out>)
    requires g.Valid() && IsChain(g) && k < g.N()
    ensures IsPath(Outs(g, None), 0, p) && End(0, p) == k
  {
    hide Graph.Valid, Outs, IsChain, IsWGraph, NonNegative;
    p := [];
    if k > 0 {
      var init := ChainReaches(g, k - 1);
      var o := ChainArc(g, k);
      p := init + [o];
      assert p[..|p| - 1] == init;
    }
  }

  /** For every larger number of nodes that the store can hold there is a graph on which the buffers overrun. */
  method ChainOverruns(n: nat, hash: int -> nat) returns (r: PathResult)
    requires MAX_PATH_LENGTH < n <= MAX_NODES
    ensures r == Overrun
  {
    hide Graph.Valid, PropertyGraph.Valid, IsPath, Describes, IsChain;
    var store := BuildChain(n, hash);
    ChainStored(store);
    var g := store.View();
    ghost var p := ChainReaches(g, n - 1);
    assert PathBetween(g, None, 1, n, p);
    r := TraverseDijkstra(g, 1, n, None);
    if r.Found? {
      ghost var q :| Shortest(g, None, 1, n, q) && |q| < MAX_PATH_LENGTH;
      ChainDepth(g, q);
    }
  }

  lemma ChainStored(store: PropertyGraph)
    requires store.Valid()
    ensures store.View().Valid()
  {
  }
}
