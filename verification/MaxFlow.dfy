/** Edmonds-Karp maximum flow on a residual matrix. */
module MaxFlow {
  import opened Digraphs
  import opened PropertyGraphs
  import opened FlowTheory
  import opened Sets
  import opened Options

  const MAX_FLOW_NODES := 256

  ghost predicate Holds(a: array2<real>, n: nat, m: Matrix)
    reads a
  {
    a.Length0 == n && a.Length1 == n && Square(n, m)
    && forall x, y :: 0 <= x < n && 0 <= y < n ==> a[x, y] == m[x][y]
  }

  // ---------- Breadth-first search ----------

  /** `par` and `dist` describe the search tree over the queue `q`, whose first `done` nodes are expanded. */
  ghost predicate BfsInv(n: nat, res: Matrix, s: nat, par: seq<int>, dist: seq<nat>, q: seq<nat>, done: nat) {
    && Square(n, res) && |par| == n && |dist| == n && s < n && done <= |q|
    && par[s] == s && dist[s] == 0
    && (forall i :: 0 <= i < |q| ==> q[i] < n && par[q[i]] >= 0 && dist[q[i]] <= i)
    && (forall i, j :: 0 <= i < j < |q| ==> q[i] != q[j] && dist[q[i]] <= dist[q[j]])
    && (forall v {:trigger v in q} :: 0 <= v < n && par[v] >= 0 ==> v in q)
    && (forall v {:trigger TreeArc(n, res, par, dist, v)} :: 0 <= v < n && v != s && par[v] >= 0 ==> TreeArc(n, res, par, dist, v))
    && (done < |q| ==> forall j :: 0 <= j < |q| ==> dist[q[j]] <= dist[q[done]] + 1)
    && (forall i, y {:trigger Expanded(n, res, par, dist, q[i], y)} ::
          0 <= i < done && 0 <= y < n ==> Expanded(n, res, par, dist, q[i], y))
  }

  ghost predicate TreeArc(n: nat, res: Matrix, par: seq<int>, dist: seq<nat>, v: nat)
    requires Square(n, res) && |par| == n && |dist| == n && v < n
  {
    0 <= par[v] < n && par[par[v]] >= 0 && res[par[v]][v] > 0.0 && dist[v] == dist[par[v]] + 1
  }

  ghost predicate Expanded(n: nat, res: Matrix, par: seq<int>, dist: seq<nat>, x: nat, y: nat)
    requires Square(n, res) && |par| == n && |dist| == n && y < n
  {
    x < n && (res[x][y] > 0.0 ==> par[y] >= 0 && dist[y] <= dist[x] + 1)
  }

  /** The tree path from the source to a visited node. */
  lemma {:induction false} TreePath(n: nat, res: Matrix, s: nat, par: seq<int>, dist: seq<nat>, q: seq<nat>, done: nat, v: nat)
    returns (p: seq<nat>)
    requires BfsInv(n, res, s, par, dist, q, done) && v < n && par[v] >= 0
    ensures |p| == dist[v] + 1 && p[0] == s && p[|p| - 1] == v
    ensures forall i :: 0 <= i < |p| ==> p[i] < n && par[p[i]] >= 0 && dist[p[i]] == i
    ensures forall i :: 0 <= i < |p| - 1 ==> par[p[i + 1]] == p[i] && res[p[i]][p[i + 1]] > 0.0
    decreases dist[v]
  {
    if v == s {
      p := [s];
    } else {
      assert TreeArc(n, res, par, dist, v);
      var q := TreePath(n, res, s, par, dist, q, done, par[v]);
      p := q + [v];
    }
  }

  /** Distances of visited nodes, and the current frontier level for the others. */
  function Levels(n: nat, par: seq<int>, dist: seq<nat>, level: nat): (d: seq<nat>)
    requires |par| == n && |dist| == n
  {
    seq(n, v requires 0 <= v < n => if par[v] >= 0 then dist[v] else level)
  }

  /** Where a visited node stands in the queue; at most one level beyond the node being expanded. */
  lemma QueuePlace(n: nat, res: Matrix, s: nat, par: seq<int>, dist: seq<nat>, q: seq<nat>, done: nat, v: nat) returns (i: nat)
    requires BfsInv(n, res, s, par, dist, q, done) && done < |q| && v < n && par[v] >= 0
    ensures i < |q| && q[i] == v && dist[v] <= dist[q[done]] + 1
    ensures i >= done ==> dist[v] >= dist[q[done]]
  {
    assert v in q;
    i :| 0 <= i < |q| && q[i] == v;
  }

  /** No residual arc climbs more than one of the search's levels. */
  lemma LevelsClimb(n: nat, res: Matrix, s: nat, par: seq<int>, dist: seq<nat>, q: seq<nat>, done: nat, x: nat, y: nat)
    requires BfsInv(n, res, s, par, dist, q, done) && done < |q| && q[done] < n && x < n && y < n && res[x][y] > 0.0
    ensures var d := Levels(n, par, dist, dist[q[done]] + 1); d[y] <= d[x] + 1
  {
    if par[y] >= 0 {
      var j := QueuePlace(n, res, s, par, dist, q, done, y);
    }
    if par[x] >= 0 {
      var i := QueuePlace(n, res, s, par, dist, q, done, x);
      if i < done {
        assert Expanded(n, res, par, dist, q[i], y);
      }
    }
  }

  /** Reaching the sink from the node being expanded gives valid levels and a shortest path. */
  lemma SinkReached(n: nat, res: Matrix, s: nat, t: nat, par: seq<int>, dist: seq<nat>, q: seq<nat>, done: nat)
    returns (d: seq<nat>, path: seq<nat>)
    requires BfsInv(n, res, s, par, dist, q, done) && done < |q| && t < n && par[t] < 0 && res[q[done]][t] > 0.0
    ensures Labels(n, res, s, d) && LevelPath(n, res, s, t, d, path) && d[t] < n
    ensures forall i :: 0 <= i < |path| - 1 ==> par[t := q[done]][path[i + 1]] == path[i]
  {
    var u := q[done];
    d := Levels(n, par, dist, dist[u] + 1);
    var p := TreePath(n, res, s, par, dist, q, done, u);
    path := p + [t];
    forall x, y | 0 <= x < n && 0 <= y < n && res[x][y] > 0.0
      ensures d[y] <= d[x] + 1
    {
      LevelsClimb(n, res, s, par, dist, q, done, x, y);
    }
    SinkLevel(n, res, s, t, par, dist, q, done);
  }

  lemma SinkLevel(n: nat, res: Matrix, s: nat, t: nat, par: seq<int>, dist: seq<nat>, q: seq<nat>, done: nat)
    requires BfsInv(n, res, s, par, dist, q, done) && done < |q| && t < n && par[t] < 0
    ensures dist[q[done]] + 1 < n && par[s] == s && dist[s] == 0
  {
    DistinctFits(q + [t], n);
  }

  /** The first `k` columns of `x`'s row hold nothing unvisited any more. */
  ghost predicate Scanned(n: nat, res: Matrix, par: seq<int>, dist: seq<nat>, x: nat, k: nat)
    requires Square(n, res) && |par| == n && |dist| == n && k <= n
  {
    forall y {:trigger Expanded(n, res, par, dist, x, y)} :: 0 <= y < k ==> Expanded(n, res, par, dist, x, y)
  }

  lemma VisitKeepsScanned(n: nat, res: Matrix, par: seq<int>, dist: seq<nat>, u: nat, v: nat)
    requires Square(n, res) && |par| == n && |dist| == n && u < n && v < n && par[u] >= 0 && par[v] < 0
    requires Scanned(n, res, par, dist, u, v)
    ensures Scanned(n, res, par[v := u], dist[v := dist[u] + 1], u, v + 1)
  {
    var par', dist' := par[v := u], dist[v := dist[u] + 1];
    forall y | 0 <= y < v + 1
      ensures Expanded(n, res, par', dist', u, y)
    {
      assert y < v ==> Expanded(n, res, par, dist, u, y);
    }
  }

  /** Visited nodes lie at most one level beyond the node being expanded. */
  lemma VisitedNear(n: nat, res: Matrix, s: nat, par: seq<int>, dist: seq<nat>, q: seq<nat>, done: nat, v: nat)
    requires BfsInv(n, res, s, par, dist, q, done) && done < |q| && v < n
    ensures |dist| == n && q[done] < n && par[q[done]] >= 0
    ensures par[v] >= 0 ==> Expanded(n, res, par, dist, q[done], v)
  {
    if par[v] >= 0 {
      assert v in q;
      var i :| 0 <= i < |q| && q[i] == v;
    }
  }

  lemma QueueGrows(n: nat, par: seq<int>, dist: seq<nat>, q: seq<nat>, done: nat, v: nat)
    requires |par| == n && |dist| == n && done < |q| && v < n && par[v] < 0
    requires forall i :: 0 <= i < |q| ==> q[i] < n && par[q[i]] >= 0 && dist[q[i]] <= i
    requires forall i, j :: 0 <= i < j < |q| ==> q[i] != q[j] && dist[q[i]] <= dist[q[j]]
    requires forall j :: 0 <= j < |q| ==> dist[q[j]] <= dist[q[done]] + 1
    ensures var q', dist' := q + [v], dist[v := dist[q[done]] + 1];
            && (forall i, j :: 0 <= i < j < |q'| ==> q'[i] != q'[j] && dist'[q'[i]] <= dist'[q'[j]])
            && (forall i :: 0 <= i < |q'| ==> q'[i] < n && dist'[q'[i]] <= i)
            && (forall j :: 0 <= j < |q'| ==> dist'[q'[j]] <= dist'[q'[done]] + 1)
  {
  }

  /** Visiting a new node from the node being expanded keeps the search invariant. */
  lemma VisitKeeps(n: nat, res: Matrix, s: nat, par: seq<int>, dist: seq<nat>, q: seq<nat>, done: nat, v: nat)
    requires BfsInv(n, res, s, par, dist, q, done) && done < |q| && v < n && par[v] < 0 && res[q[done]][v] > 0.0
    ensures BfsInv(n, res, s, par[v := q[done]], dist[v := dist[q[done]] + 1], q + [v], done)
    ensures |q| < n
  {
    hide TreeArc, Expanded;
    var u := q[done];
    var par', dist', q' := par[v := u], dist[v := dist[u] + 1], q + [v];
    QueueGrows(n, par, dist, q, done, v);
    TreeGrows(n, res, s, par, dist, u, v);
    forall i, y | 0 <= i < done && 0 <= y < n
      ensures Expanded(n, res, par', dist', q'[i], y)
    {
      assert Expanded(n, res, par, dist, q[i], y);
      ExpandedStays(n, res, par, dist, u, v, q[i], y);
    }
    forall x | 0 <= x < n && par'[x] >= 0
      ensures x in q'
    {
      assert x != v ==> x in q;
      assert q'[|q|] == v;
    }
    DistinctFits(q', n);
  }

  lemma ExpandedStays(n: nat, res: Matrix, par: seq<int>, dist: seq<nat>, u: nat, v: nat, x: nat, y: nat)
    requires Square(n, res) && |par| == n && |dist| == n && u < n && v < n && y < n && par[v] < 0
    requires Expanded(n, res, par, dist, x, y) && par[x] >= 0
    ensures Expanded(n, res, par[v := u], dist[v := dist[u] + 1], x, y)
  {
  }

  lemma TreeGrows(n: nat, res: Matrix, s: nat, par: seq<int>, dist: seq<nat>, u: nat, v: nat)
    requires Square(n, res) && |par| == n && |dist| == n && u < n && v < n && par[u] >= 0 && par[v] < 0 && res[u][v] > 0.0
    requires forall x {:trigger TreeArc(n, res, par, dist, x)} :: 0 <= x < n && x != s && par[x] >= 0 ==> TreeArc(n, res, par, dist, x)
    ensures var par', dist' := par[v := u], dist[v := dist[u] + 1];
            forall x {:trigger TreeArc(n, res, par', dist', x)} :: 0 <= x < n && x != s && par'[x] >= 0 ==> TreeArc(n, res, par', dist', x)
  {
    var par', dist' := par[v := u], dist[v := dist[u] + 1];
    forall x | 0 <= x < n && x != s && par'[x] >= 0
      ensures TreeArc(n, res, par', dist', x)
    {
      assert x != v ==> TreeArc(n, res, par, dist, x);
    }
  }

  /** Finishing a node's expansion moves on to the next. */
  lemma ExpandKeeps(n: nat, res: Matrix, s: nat, par: seq<int>, dist: seq<nat>, q: seq<nat>, done: nat)
    requires BfsInv(n, res, s, par, dist, q, done) && done < |q|
    requires Scanned(n, res, par, dist, q[done], n)
    ensures BfsInv(n, res, s, par, dist, q, done + 1)
  {
  }

  /** An exhausted queue leaves a cut that no residual arc crosses. */
  lemma ExhaustedIsClosed(n: nat, res: Matrix, s: nat, par: seq<int>, dist: seq<nat>, q: seq<nat>)
    requires BfsInv(n, res, s, par, dist, q, |q|)
    ensures Square(n, res) && |par| == n && s < n && par[s] >= 0
    ensures forall x, y :: 0 <= x < n && 0 <= y < n && par[x] >= 0 && par[y] < 0 ==> res[x][y] <= 0.0
  {
    forall x, y | 0 <= x < n && 0 <= y < n && par[x] >= 0 && par[y] < 0
      ensures res[x][y] <= 0.0
    {
      assert x in q;
      var i :| 0 <= i < |q| && q[i] == x;
      assert Expanded(n, res, par, dist, q[i], y);
    }
  }

  /** What a search that found the sink hands to the augmentation. */
  ghost predicate FoundPath(n: nat, res: Matrix, s: nat, t: nat, par: seq<int>, d: seq<nat>, path: seq<nat>) {
    && Square(n, res) && s != t && t < n && |par| == n
    && Labels(n, res, s, d) && LevelPath(n, res, s, t, d, path) && d[t] < n
    && forall i :: 0 <= i < |path| - 1 ==> par[path[i + 1]] == path[i]
  }

  /** Records `v` as a child of `u` and appends it to the queue. */
  method Visit(parent: array<int>, queue: array<nat>, rear: nat, u: nat, v: nat)
    requires v < parent.Length && rear < queue.Length
    modifies parent, queue
    ensures parent[..] == old(parent[..])[v := u] && queue[..rear + 1] == old(queue[..rear]) + [v]
  {
    parent[v] := u;
    queue[rear] := v;
  }

  /** Visits the unvisited residual neighbours of the node at the queue's front, stopping at the sink. */
  method Expand(n: nat, residual: array2<real>, s: nat, t: nat, parent: array<int>, queue: array<nat>, front: nat, rear: nat,
                ghost res: Matrix, ghost dist: seq<nat>)
    returns (rear': nat, found: bool, ghost dist': seq<nat>, ghost d: seq<nat>, ghost path: seq<nat>)
    requires Holds(residual, n, res) && s < n && t < n && parent.Length == queue.Length == n
    requires front < rear <= n && BfsInv(n, res, s, parent[..], dist, queue[..rear], front)
    requires s != t ==> parent[t] < 0
    modifies parent, queue
    ensures rear <= rear' <= n
    ensures !found ==> BfsInv(n, res, s, parent[..], dist', queue[..rear'], front + 1) && (s != t ==> parent[t] < 0)
    ensures found ==> FoundPath(n, res, s, t, parent[..], d, path)
  {
    hide BfsInv;
    var u := queue[front];
    VisitedNear(n, res, s, parent[..], dist, queue[..rear], front, s);
    rear', found, dist', d, path := rear, false, dist, [], [];
    var v := 0;
    while v < n
      invariant 0 <= v <= n && front < rear <= rear' <= n && u == queue[front] && |dist'| == n
      invariant BfsInv(n, res, s, parent[..], dist', queue[..rear'], front)
      invariant s != t ==> parent[t] < 0
      invariant Scanned(n, res, parent[..], dist', u, v)
    {
      ghost var par, q := parent[..], queue[..rear'];
      VisitedNear(n, res, s, par, dist', q, front, v);
      if parent[v] < 0 && residual[u, v] > 0.0 {
        if v == t {
          d, path := SinkReached(n, res, s, t, par, dist', q, front);
          parent[v] := u;
          assert parent[..] == par[t := u];
          found := true;
          return;
        }
        VisitKeeps(n, res, s, par, dist', q, front, v);
        VisitKeepsScanned(n, res, par, dist', u, v);
        Visit(parent, queue, rear', u, v);
        rear' := rear' + 1;
        dist' := dist'[v := dist'[u] + 1];
      }
      v := v + 1;
    }
    ExpandKeeps(n, res, s, parent[..], dist', queue[..rear'], front);
  }

  lemma BfsStart(n: nat, res: Matrix, s: nat, par: seq<int>, dist: seq<nat>)
    requires Square(n, res) && s < n && |par| == |dist| == n && par[s] == s && dist[s] == 0
    requires forall v :: 0 <= v < n && v != s ==> par[v] == -1
    ensures BfsInv(n, res, s, par, dist, [s], 0)
  {
  }

  method Bfs(n: nat, residual: array2<real>, s: nat, t: nat, parent: array<int>, ghost res: Matrix)
    returns (found: bool, ghost d: seq<nat>, ghost path: seq<nat>)
    requires Holds(residual, n, res) && s < n && t < n && parent.Length == n
    modifies parent
    ensures found ==> FoundPath(n, res, s, t, parent[..], d, path)
    ensures !found && s != t ==> IsCut(n, s, t, SideOf(parent[..]))
    ensures !found ==> forall x, y :: 0 <= x < n && 0 <= y < n && parent[x] >= 0 && parent[y] < 0 ==> res[x][y] <= 0.0
  {
    hide BfsInv;
    var i := 0;
    while i < n
      invariant 0 <= i <= n && forall v :: 0 <= v < i ==> parent[v] == -1
    {
      parent[i] := -1;
      i := i + 1;
    }
    var queue := new nat[n](_ => 0);
    queue[0] := s;
    var front, rear := 0, 1;
    parent[s] := s;
    found := false;
    d, path := [], [];
    ghost var dist: seq<nat> := seq(n, _ => 0);
    BfsStart(n, res, s, parent[..], dist);
    assert queue[..rear] == [s];
    while front < rear && !found
      invariant 0 <= front <= rear <= n
      invariant !found ==> BfsInv(n, res, s, parent[..], dist, queue[..rear], front)
      invariant !found && s != t ==> parent[t] < 0
      invariant found ==> FoundPath(n, res, s, t, parent[..], d, path)
      decreases n - front
    {
      rear, found, dist, d, path := Expand(n, residual, s, t, parent, queue, front, rear, res, dist);
      front := front + 1;
    }
    if !found {
      ExhaustedIsClosed(n, res, s, parent[..], dist, queue[..rear]);
      assert parent[s] >= 0;
    }
  }

  /** The source side of the cut left by the last search: the nodes it reached. */
  function SideOf(par: seq<int>): (side: seq<bool>)
  {
    seq(|par|, i requires 0 <= i < |par| => par[i] >= 0)
  }

  // ---------- Augmentation ----------

  /** The path's nodes: the parent links lead from each to the one before it, and only the first is the source. */
  lemma PathNode(n: nat, res: Matrix, s: nat, t: nat, par: seq<int>, d: seq<nat>, path: seq<nat>, i: nat)
    requires FoundPath(n, res, s, t, par, d, path) && i < |path|
    ensures Square(n, res) && |par| == n && |path| >= 2 && path[|path| - 1] == t && path[i] < n && (path[i] == s <==> i == 0)
    ensures i > 0 ==> par[path[i]] == path[i - 1] && path[i - 1] < n && path[i - 1] != path[i]
    ensures i > 0 ==> res[path[i - 1]][path[i]] > 0.0
  {
    assert d[path[i]] == i && d[s] == 0;
    if i > 0 {
      assert path[i - 1 + 1] == path[i] && d[path[i - 1]] == i - 1;
    }
  }

  lemma PathFits(n: nat, res: Matrix, s: nat, t: nat, par: seq<int>, d: seq<nat>, path: seq<nat>)
    requires FoundPath(n, res, s, t, par, d, path)
    ensures Square(n, res) && |path| >= 2 && path[|path| - 1] == t && forall i :: 0 <= i < |path| ==> path[i] < n
  {
  }

  /** The least residual capacity on the path; no value stands for the initial infinity. */
  method Bottleneck(n: nat, residual: array2<real>, s: nat, t: nat, parent: array<int>,
                    ghost res: Matrix, ghost d: seq<nat>, ghost path: seq<nat>)
    returns (p: real, ghost least: nat)
    requires Holds(residual, n, res) && parent.Length == n && FoundPath(n, res, s, t, parent[..], d, path)
    ensures p > 0.0 && forall i :: 0 <= i < |path| - 1 ==> p <= res[path[i]][path[i + 1]]
    ensures least + 1 < |path| && p == res[path[least]][path[least + 1]]
  {
    hide FoundPath, Holds;
    PathFits(n, res, s, t, parent[..], d, path);
    var pathFlow: Option<real> := None;
    least := 0;
    var v := t;
    ghost var i := |path| - 1;
    while v != s
      invariant 0 <= i < |path| && v == path[i]
      invariant pathFlow == None <==> i == |path| - 1
      invariant pathFlow.Some? ==> forall j :: i <= j < |path| - 1 ==> pathFlow.value <= res[path[j]][path[j + 1]]
      invariant pathFlow.Some? ==> pathFlow.value > 0.0
      invariant pathFlow.Some? ==> least + 1 < |path| && pathFlow.value == res[path[least]][path[least + 1]]
      decreases i
    {
      PathNode(n, res, s, t, parent[..], d, path, i);
      var u := parent[v];
      assert u == path[i - 1];
      ReadEntry(n, residual, res, u, v);
      if pathFlow == None || residual[u, v] < pathFlow.value {
        pathFlow := Some(residual[u, v]);
        least := i - 1;
      }
      v := u;
      i := i - 1;
    }
    PathNode(n, res, s, t, parent[..], d, path, i);
    p := pathFlow.value;
  }

  lemma ReadEntry(n: nat, a: array2<real>, m: Matrix, x: nat, y: nat)
    requires Holds(a, n, m) && x < n && y < n
    ensures a.Length0 == n && a.Length1 == n && a[x, y] == m[x][y]
  {
  }

  /** Pushes `p` along the path, last arc first. */
  method Augment(n: nat, residual: array2<real>, s: nat, t: nat, parent: array<int>, p: real,
                 ghost res: Matrix, ghost d: seq<nat>, ghost path: seq<nat>)
    requires Holds(residual, n, res) && parent.Length == n && FoundPath(n, res, s, t, parent[..], d, path)
    modifies residual
    ensures Holds(residual, n, Augmented(n, res, path, 0, p))
  {
    hide FoundPath, Holds;
    PathFits(n, res, s, t, parent[..], d, path);
    var v := t;
    ghost var i := |path| - 1;
    ghost var m := res;
    while v != s
      invariant 0 <= i < |path| && v == path[i]
      invariant m == Augmented(n, res, path, i, p) && Holds(residual, n, m)
      decreases i
    {
      PathNode(n, res, s, t, parent[..], d, path, i);
      var u := parent[v];
      PushArc(n, residual, u, v, p, m);
      m := Push(n, m, u, v, p);
      v := u;
      i := i - 1;
    }
    PathNode(n, res, s, t, parent[..], d, path, i);
  }

  /** Takes `p` from the arc (u, v) and gives it to the reverse arc. */
  method PushArc(n: nat, residual: array2<real>, u: nat, v: nat, p: real, ghost m: Matrix)
    requires Holds(residual, n, m) && u < n && v < n && u != v
    modifies residual
    ensures Holds(residual, n, Push(n, m, u, v, p))
  {
    residual[u, v] := residual[u, v] - p;
    residual[v, u] := residual[v, u] + p;
  }

  // ---------- On the property graph ----------

  /** An edge's capacity: 1 without a capacity function. */
  function CapacityOf(cap: Option<Edge -> real>, e: Edge): real {
    if cap == None then 1.0 else cap.value(e)
  }

  function ZeroMatrix(n: nat): (m: Matrix)
    ensures Square(n, m) && NonNeg(n, m)
  {
    seq(n, _ => seq(n, _ => 0.0))
  }

  /** The capacity matrix after the first `k` edges: each edge overwrites the entry of its node pair. */
  function CapMatrix(g: Graph, cap: Option<Edge -> real>, k: nat): (m: Matrix)
    requires g.Valid() && g.N() > 0 && k <= |g.edges|
    ensures Square(g.N(), m)
  {
    if k == 0 then ZeroMatrix(g.N())
    else
      var m := CapMatrix(g, cap, k - 1);
      var e := g.edges[k - 1];
      var fi, ti := IndexOrZero(g, e.fromNode), IndexOrZero(g, e.toNode);
      m[fi := m[fi][ti := CapacityOf(cap, e)]]
  }

  predicate NonNegativeCapacities(g: Graph, cap: Option<Edge -> real>) {
    forall k :: 0 <= k < |g.edges| ==> CapacityOf(cap, g.edges[k]) >= 0.0
  }

  lemma {:induction false} CapMatrixFacts(g: Graph, cap: Option<Edge -> real>, k: nat)
    requires g.Valid() && g.N() > 0 && k <= |g.edges| && NonNegativeCapacities(g, cap)
    ensures NonNeg(g.N(), CapMatrix(g, cap, k))
    ensures |CapArcs(g.N(), CapMatrix(g, cap, k))| <= k
  {
    var n := g.N();
    if k > 0 {
      CapMatrixFacts(g, cap, k - 1);
      var e := g.edges[k - 1];
      var pair := (IndexOrZero(g, e.fromNode), IndexOrZero(g, e.toNode));
      SubsetSize(CapArcs(n, CapMatrix(g, cap, k)), CapArcs(n, CapMatrix(g, cap, k - 1)) + {pair});
    } else {
      assert CapArcs(n, ZeroMatrix(n)) == {};
    }
  }

  lemma NoCapacity(g: Graph, cap: Option<Edge -> real>)
    requires g.Valid() && g.N() > 0
    ensures CapMatrix(g, cap, 0) == ZeroMatrix(g.N())
  {
  }

  lemma CapacityStep(g: Graph, cap: Option<Edge -> real>, k: nat)
    requires g.Valid() && g.N() > 0 && k < |g.edges|
    ensures var m, e := CapMatrix(g, cap, k), g.edges[k];
            var fi, ti := IndexOrZero(g, e.fromNode), IndexOrZero(g, e.toNode);
            CapMatrix(g, cap, k + 1) == m[fi := m[fi][ti := CapacityOf(cap, e)]]
  {
  }

  method SetEntry(n: nat, a: array2<real>, x: nat, y: nat, value: real, ghost m: Matrix)
    requires Holds(a, n, m) && x < n && y < n
    modifies a
    ensures Holds(a, n, m[x := m[x][y := value]])
  {
    a[x, y] := value;
  }

  /** Fills the residual matrix with the capacities. */
  method InitResidual(g: Graph, cap: Option<Edge -> real>) returns (residual: array2<real>)
    requires g.Valid() && g.N() > 0
    ensures fresh(residual) && Holds(residual, g.N(), CapMatrix(g, cap, |g.edges|))
  {
    hide Graph.Valid, CapMatrix;
    residual := new real[g.N(), g.N()]((_, _) => 0.0);
    NoCapacity(g, cap);
    var i := 0;
    while i < |g.edges|
      invariant 0 <= i <= |g.edges|
      invariant Holds(residual, g.N(), CapMatrix(g, cap, i))
    {
      var e := g.edges[i];
      var fi, ti := IndexOrZero(g, e.fromNode), IndexOrZero(g, e.toNode);
      CapacityStep(g, cap, i);
      SetEntry(g.N(), residual, fi, ti, CapacityOf(cap, e), CapMatrix(g, cap, i));
      i := i + 1;
    }
  }

  /** The zero flow starts the run. */
  lemma ZeroFlow(n: nat, cap: Matrix, s: nat, t: nat, d: seq<nat>)
    requires Square(n, cap) && NonNeg(n, cap) && s < n && t < n && d == seq(n, _ => 0)
    ensures Residual(n, cap, s, t, cap, 0.0) && Labels(n, cap, s, d) && WithinBudget(n, cap, t, cap, d, 0)
  {
    assert Tight(n, cap, d) == {};
  }

  /** The loop on a residual matrix: it ends within n * E augmentations with the maximum flow value. */
  method RunToMaximum(n: nat, residual: array2<real>, s: nat, t: nat, ghost cap: Matrix)
    returns (maxFlow: real, ghost augmentations: nat, ghost res: Matrix)
    requires Square(n, cap) && Holds(residual, n, cap) && NonNeg(n, cap) && s < n && t < n
    modifies residual
    ensures s != t ==> MaxFlowMinCut(n, cap, s, t, maxFlow)
    ensures s == t ==> maxFlow == 0.0
    ensures augmentations <= n * |CapArcs(n, cap)|
    ensures Holds(residual, n, res) && Residual(n, cap, s, t, res, maxFlow) && NoCloser(n, cap, res, s)
  {
    hide Residual, Labels, LevelPath, WithinBudget, MaxFlowMinCut, Holds, Augmented, Tight, CapArcs, IsCut;
    maxFlow, augmentations := 0.0, 0;
    var parent := new int[n];
    ghost var d: seq<nat> := seq(n, _ => 0);
    res := cap;
    ZeroFlow(n, cap, s, t, d);
    while true
      invariant |d| == n && Square(n, res)
      invariant Holds(residual, n, res) && Residual(n, cap, s, t, res, maxFlow) && Labels(n, res, s, d) && d[t] < n
      invariant WithinBudget(n, cap, t, res, d, augmentations) && NoCloser(n, cap, res, s)
      invariant s == t ==> maxFlow == 0.0
      decreases n - d[t], |Tight(n, res, d)|
    {
      ghost var levels, path;
      var found;
      found, levels, path := Bfs(n, residual, s, t, parent, res);
      if !found {
        break;
      }
      ghost var least;
      var pathFlow;
      pathFlow, least := Bottleneck(n, residual, s, t, parent, res, levels, path);
      Augment(n, residual, s, t, parent, pathFlow, res, levels, path);
      d := AugmentStep(n, cap, s, t, res, maxFlow, d, augmentations, levels, path, pathFlow, least);
      res := Augmented(n, res, path, 0, pathFlow);
      maxFlow := maxFlow + pathFlow;
      augmentations := augmentations + 1;
    }
    if s != t {
      StrongDuality(n, cap, s, t, res, maxFlow, SideOf(parent[..]));
    }
    BudgetTotal(n, cap, t, res, d, augmentations);
  }

  // ---------- Edges that do not count ----------

  predicate IsPair(g: Graph, k: nat, x: nat, y: nat)
    requires g.Valid() && k < |g.edges|
  {
    g.edges[k].fromNode == x + 1 && g.edges[k].toNode == y + 1
  }

  /** The capacity of all edges among the first `k` that can be walked from `x` to `y`. */
  function PairTotal(g: Graph, cap: Option<Edge -> real>, k: nat, x: nat, y: nat): real
    requires g.Valid() && k <= |g.edges|
  {
    if k == 0 then 0.0
    else PairTotal(g, cap, k - 1, x, y) + if Joins(g.edges[k - 1], x + 1, y + 1) then CapacityOf(cap, g.edges[k - 1]) else 0.0
  }

  /** Among the first `k` edges number `i` is the last one created from `x` to `y`. */
  predicate IsLastPair(g: Graph, k: nat, i: nat, x: nat, y: nat)
    requires g.Valid() && i < k <= |g.edges|
  {
    IsPair(g, i, x, y) && forall j :: i < j < k ==> !IsPair(g, j, x, y)
  }

  /** Every edge that can be walked from `x` to `y` counts, being the last one created so, or carries nothing. */
  predicate AllCount(g: Graph, cap: Option<Edge -> real>, k: nat, x: nat, y: nat)
    requires g.Valid() && k <= |g.edges|
  {
    forall i :: 0 <= i < k && Joins(g.edges[i], x + 1, y + 1) && !IsLastPair(g, k, i, x, y) ==> CapacityOf(cap, g.edges[i]) == 0.0
  }

  lemma {:induction false} PairTotalZero(g: Graph, cap: Option<Edge -> real>, k: nat, x: nat, y: nat)
    requires g.Valid() && k <= |g.edges| && NonNegativeCapacities(g, cap)
    ensures PairTotal(g, cap, k, x, y) >= 0.0
    ensures PairTotal(g, cap, k, x, y) == 0.0 <==>
            forall i :: 0 <= i < k && Joins(g.edges[i], x + 1, y + 1) ==> CapacityOf(cap, g.edges[i]) == 0.0
  {
    if k > 0 {
      PairTotalZero(g, cap, k - 1, x, y);
      assert CapacityOf(cap, g.edges[k - 1]) >= 0.0;
    }
  }

  /** One more edge keeps everything counting exactly if it carries nothing, or is created from `x` to `y` and no other
      edge between them carries anything. */
  lemma AllCountStep(g: Graph, cap: Option<Edge -> real>, k: nat, x: nat, y: nat)
    requires g.Valid() && 0 < k <= |g.edges|
    ensures IsPair(g, k - 1, x, y) ==>
              (AllCount(g, cap, k, x, y) <==>
               forall i :: 0 <= i < k - 1 && Joins(g.edges[i], x + 1, y + 1) ==> CapacityOf(cap, g.edges[i]) == 0.0)
    ensures !IsPair(g, k - 1, x, y) ==>
              (AllCount(g, cap, k, x, y) <==>
               AllCount(g, cap, k - 1, x, y) && (Joins(g.edges[k - 1], x + 1, y + 1) ==> CapacityOf(cap, g.edges[k - 1]) == 0.0))
  {
    hide Graph.Valid;
    if IsPair(g, k - 1, x, y) {
      assert forall i :: 0 <= i < k - 1 ==> !IsLastPair(g, k, i, x, y);
      assert IsLastPair(g, k, k - 1, x, y);
    } else {
      assert forall i :: 0 <= i < k - 1 ==> (IsLastPair(g, k, i, x, y) <==> IsLastPair(g, k - 1, i, x, y));
      assert !IsLastPair(g, k, k - 1, x, y);
    }
  }

  /** The matrix entry is the pair's whole capacity exactly when every edge that can be walked that way counts. */
  lemma {:induction false} MatrixHoldsPairTotal(g: Graph, cap: Option<Edge -> real>, k: nat, x: nat, y: nat)
    requires g.Valid() && g.N() > 0 && k <= |g.edges| && NonNegativeCapacities(g, cap) && x < g.N() && y < g.N()
    ensures CapMatrix(g, cap, k)[x][y] <= PairTotal(g, cap, k, x, y)
    ensures CapMatrix(g, cap, k)[x][y] == PairTotal(g, cap, k, x, y) <==> AllCount(g, cap, k, x, y)
  {
    if k > 0 {
      hide CapMatrix, Graph.Valid, AllCount;
      MatrixHoldsPairTotal(g, cap, k - 1, x, y);
      PairTotalZero(g, cap, k - 1, x, y);
      MatrixEntry(g, cap, k, x, y);
      AllCountStep(g, cap, k, x, y);
      assert CapacityOf(cap, g.edges[k - 1]) >= 0.0;
    } else {
      assert CapMatrix(g, cap, 0)[x][y] == 0.0;
    }
  }

  lemma MatrixEntry(g: Graph, cap: Option<Edge -> real>, k: nat, x: nat, y: nat)
    requires g.Valid() && g.N() > 0 && 0 < k <= |g.edges| && x < g.N() && y < g.N()
    ensures CapMatrix(g, cap, k)[x][y]
         == if IsPair(g, k - 1, x, y) then CapacityOf(cap, g.edges[k - 1]) else CapMatrix(g, cap, k - 1)[x][y]
  {
    var e := g.edges[k - 1];
    assert g.ids[e.fromNode - 1] == e.fromNode && g.ids[e.toNode - 1] == e.toNode;
  }

  /** The capacity of each pair's edges together. */
  function TotalMatrix(g: Graph, cap: Option<Edge -> real>): (m: Matrix)
    requires g.Valid()
    ensures Square(g.N(), m)
  {
    seq(g.N(), x requires 0 <= x < g.N() => seq(g.N(), y requires 0 <= y < g.N() => PairTotal(g, cap, |g.edges|, x, y)))
  }

  /** Some minimum cut of the matrix is crossed by no edge with capacity that does not count. */
  ghost predicate CompleteMinCut(g: Graph, cap: Option<Edge -> real>, s: nat, t: nat)
    requires g.Valid() && g.N() > 0
  {
    exists side :: IsMinCut(g.N(), CapMatrix(g, cap, |g.edges|), s, t, side) && AllCountAcross(g, cap, side)
  }

  predicate AllCountAcross(g: Graph, cap: Option<Edge -> real>, side: seq<bool>)
    requires g.Valid()
  {
    forall x: nat, y: nat :: x < |side| && y < |side| && side[x] && !side[y] ==> AllCount(g, cap, |g.edges|, x, y)
  }

  lemma AcrossExactly(g: Graph, cap: Option<Edge -> real>, side: seq<bool>)
    requires g.Valid() && g.N() > 0 && NonNegativeCapacities(g, cap) && |side| == g.N()
    ensures AgreeAcross(g.N(), CapMatrix(g, cap, |g.edges|), TotalMatrix(g, cap), side) <==> AllCountAcross(g, cap, side)
  {
    hide CapMatrix, PairTotal, AllCount, Graph.Valid, NonNegativeCapacities;
    forall x: nat, y: nat | x < g.N() && y < g.N()
      ensures CapMatrix(g, cap, |g.edges|)[x][y] == TotalMatrix(g, cap)[x][y] <==> AllCount(g, cap, |g.edges|, x, y)
    {
      MatrixHoldsPairTotal(g, cap, |g.edges|, x, y);
    }
  }

  /** The matrix's maximum flow is that of the graph's whole capacities exactly if some minimum cut of the matrix is
      crossed by no edge with capacity that does not count. */
  lemma TotalFlowExactly(g: Graph, cap: Option<Edge -> real>, s: nat, t: nat, value: real)
    requires g.Valid() && g.N() > 0 && NonNegativeCapacities(g, cap)
    requires MaxFlowMinCut(g.N(), CapMatrix(g, cap, |g.edges|), s, t, value)
    ensures MaxFlowMinCut(g.N(), TotalMatrix(g, cap), s, t, value) <==> CompleteMinCut(g, cap, s, t)
  {
    hide CapMatrix, PairTotal, AllCount, Graph.Valid, NonNegativeCapacities, CutCapacity, Feasible, Value, AgreeAcross, AllCountAcross;
    var n, low, high := g.N(), CapMatrix(g, cap, |g.edges|), TotalMatrix(g, cap);
    forall x, y | 0 <= x < n && 0 <= y < n
      ensures low[x][y] <= high[x][y]
    {
      MatrixHoldsPairTotal(g, cap, |g.edges|, x, y);
    }
    CapMatrixFacts(g, cap, |g.edges|);
    RaisedExactly(n, low, high, s, t, value);
    forall side: seq<bool> | |side| == n
      ensures AgreeAcross(n, low, high, side) <==> AllCountAcross(g, cap, side)
    {
      AcrossExactly(g, cap, side);
    }
  }

  /** Every edge with capacity between different nodes is directed and the last one created between them. */
  predicate NothingLost(g: Graph, cap: Option<Edge -> real>) {
    forall i :: 0 <= i < |g.edges| && CapacityOf(cap, g.edges[i]) != 0.0 && g.edges[i].fromNode != g.edges[i].toNode ==>
      g.edges[i].directed && IsNewest(g, i)
  }

  predicate IsNewest(g: Graph, i: nat)
    requires i < |g.edges|
  {
    forall j :: i < j < |g.edges| ==> g.edges[j].fromNode != g.edges[i].fromNode || g.edges[j].toNode != g.edges[i].toNode
  }

  /** The answer is right for every source and sink if and only if nothing is lost. */
  lemma RightForAllPairs(g: Graph, cap: Option<Edge -> real>)
    requires g.Valid() && g.N() > 0 && NonNegativeCapacities(g, cap)
    ensures (forall s: nat, t: nat :: s < g.N() && t < g.N() && s != t ==> CompleteMinCut(g, cap, s, t)) <==> NothingLost(g, cap)
  {
    hide Graph.Valid, CapMatrix, NonNegativeCapacities, NothingLost, CompleteMinCut;
    if NothingLost(g, cap) {
      forall s: nat, t: nat | s < g.N() && t < g.N() && s != t
        ensures CompleteMinCut(g, cap, s, t)
      {
        NothingLostThere(g, cap, s, t);
      }
    } else {
      var s, t := LostPair(g, cap);
    }
  }

  lemma NothingLostThere(g: Graph, cap: Option<Edge -> real>, s: nat, t: nat)
    requires g.Valid() && NothingLost(g, cap) && s < g.N() && t < g.N() && s != t
    ensures CompleteMinCut(g, cap, s, t)
  {
    hide Graph.Valid, CapMatrix, IsMinCut;
    var side := MinCutExists(g.N(), CapMatrix(g, cap, |g.edges|), s, t);
    forall x: nat, y: nat | x < |side| && y < |side| && side[x] && !side[y]
      ensures AllCount(g, cap, |g.edges|, x, y)
    {
      forall i | 0 <= i < |g.edges| && Joins(g.edges[i], x + 1, y + 1) && CapacityOf(cap, g.edges[i]) != 0.0
        ensures IsLastPair(g, |g.edges|, i, x, y)
      {
        assert IsNewest(g, i);
      }
    }
  }

  /** Between the ends of an edge that is lost, in its direction or the other, every cut is crossed by it. */
  lemma LostPair(g: Graph, cap: Option<Edge -> real>) returns (s: nat, t: nat)
    requires g.Valid() && !NothingLost(g, cap)
    ensures s < g.N() && t < g.N() && s != t && !CompleteMinCut(g, cap, s, t)
  {
    hide CapMatrix;
    var m := |g.edges|;
    var i :| 0 <= i < m && CapacityOf(cap, g.edges[i]) != 0.0 && g.edges[i].fromNode != g.edges[i].toNode
             && !(g.edges[i].directed && IsNewest(g, i));
    var e := g.edges[i];
    s, t := e.fromNode - 1, e.toNode - 1;
    if IsNewest(g, i) {
      s, t := t, s;
    } else {
      var j :| i < j < m && g.edges[j].fromNode == e.fromNode && g.edges[j].toNode == e.toNode;
      assert IsPair(g, j, s, t);
    }
    assert Joins(e, s + 1, t + 1) && !IsLastPair(g, m, i, s, t);
    assert !AllCount(g, cap, m, s, t);
  }

  /** No answer for an empty or too large graph; otherwise the maximum flow value over the capacity matrix. */
  method MaxFlowEdmondsKarp(g: Graph, source: int, sink: int, cap: Option<Edge -> real>)
    returns (r: Option<real>, ghost augmentations: nat)
    requires g.Valid() && NonNegativeCapacities(g, cap)
    ensures r == None <==> g.N() == 0 || g.N() > 256
    ensures r.Some? ==> var s, t := IndexOrZero(g, source), IndexOrZero(g, sink);
                        if s == t then r.value == 0.0
                        else MaxFlowMinCut(g.N(), CapMatrix(g, cap, |g.edges|), s, t, r.value)
    ensures r.Some? ==> var s, t := IndexOrZero(g, source), IndexOrZero(g, sink);
                        s != t ==> (MaxFlowMinCut(g.N(), TotalMatrix(g, cap), s, t, r.value) <==> CompleteMinCut(g, cap, s, t))
    ensures r.Some? && NothingLost(g, cap) ==>
              var s, t := IndexOrZero(g, source), IndexOrZero(g, sink);
              s != t ==> MaxFlowMinCut(g.N(), TotalMatrix(g, cap), s, t, r.value)
    ensures augmentations <= g.N() * |g.edges|
  {
    hide NothingLost, CompleteMinCut, TotalMatrix, MaxFlowMinCut, CapMatrix, CapArcs, Holds, Residual;
    augmentations := 0;
    var n := g.N();
    if n == 0 || n > MAX_FLOW_NODES {
      return None, 0;
    }
    var residual := InitResidual(g, cap);
    ghost var capacity := CapMatrix(g, cap, |g.edges|);
    CapMatrixFacts(g, cap, |g.edges|);
    var value;
    ghost var final;
    value, augmentations, final := RunToMaximum(n, residual, IndexOrZero(g, source), IndexOrZero(g, sink), capacity);
    MulMonotone(|CapArcs(n, capacity)|, |g.edges|, n);
    r := Some(value);
    if IndexOrZero(g, source) != IndexOrZero(g, sink) {
      TotalFlowExactly(g, cap, IndexOrZero(g, source), IndexOrZero(g, sink), value);
      RightForAllPairs(g, cap);
    }
  }

  /** Two nodes joined by two edges of capacity 1: the answer is 1, where the edges carry 2 together. */
  method ParallelEdgesLost(hash: int -> nat) returns (store: PropertyGraph, r: Option<real>)
    ensures store.Valid() && store.View().Valid()
    ensures store.View().N() == 2 && store.View().edges == [Edge(1, 1, 2, true), Edge(2, 1, 2, true)]
    ensures r == Some(1.0) && MaxFlowMinCut(2, TotalMatrix(store.View(), None), 0, 1, 2.0)
  {
    hide MaxFlowMinCut, CapMatrix, TotalMatrix, CompleteMinCut, NothingLost, Indexed;
    store := new PropertyGraph(hash);
    var a := store.CreateNode();
    var b := store.CreateNode();
    var e := store.CreateEdge(1, 2, true);
    var f := store.CreateEdge(1, 2, true);
    var g := store.View();
    TwinFlows(g);
    ghost var augmentations;
    r, augmentations := MaxFlowEdmondsKarp(g, 1, 2, None);
    ValueUnique(2, CapMatrix(g, None, 2), 0, 1, r.value, 1.0);
  }

  lemma TwinFlows(g: Graph)
    requires g.Valid() && g.N() == 2 && g.edges == [Edge(1, 1, 2, true), Edge(2, 1, 2, true)]
    ensures IndexOrZero(g, 1) == 0 && IndexOrZero(g, 2) == 1
    ensures MaxFlowMinCut(2, CapMatrix(g, None, 2), 0, 1, 1.0) && MaxFlowMinCut(2, TotalMatrix(g, None), 0, 1, 2.0)
  {
    hide MaxFlowMinCut;
    assert g.ids[0] == 1 && g.ids[1] == 2;
    CapMatrixFacts(g, None, 2);
    TwoNodes(CapMatrix(g, None, 2));
    forall x, y | 0 <= x < 2 && 0 <= y < 2
      ensures TotalMatrix(g, None)[x][y] >= 0.0
    {
      PairTotalZero(g, None, 2, x, y);
    }
    assert PairTotal(g, None, 1, 0, 1) == 1.0;
    TwoNodes(TotalMatrix(g, None));
  }

  /** One undirected edge of capacity 1, created from node 2 to node 1: no flow is found from 1 to 2. */
  method UndirectedOneWay(hash: int -> nat) returns (store: PropertyGraph, r: Option<real>)
    ensures store.Valid() && store.View().Valid()
    ensures store.View().N() == 2 && store.View().edges == [Edge(1, 2, 1, false)]
    ensures r == Some(0.0) && MaxFlowMinCut(2, TotalMatrix(store.View(), None), 0, 1, 1.0)
  {
    hide MaxFlowMinCut, CapMatrix, TotalMatrix, CompleteMinCut, NothingLost, Indexed;
    store := new PropertyGraph(hash);
    var a := store.CreateNode();
    var b := store.CreateNode();
    var e := store.CreateEdge(2, 1, false);
    var g := store.View();
    OneWayFlows(g);
    ghost var augmentations;
    r, augmentations := MaxFlowEdmondsKarp(g, 1, 2, None);
    ValueUnique(2, CapMatrix(g, None, 1), 0, 1, r.value, 0.0);
  }

  lemma OneWayFlows(g: Graph)
    requires g.Valid() && g.N() == 2 && g.edges == [Edge(1, 2, 1, false)]
    ensures IndexOrZero(g, 1) == 0 && IndexOrZero(g, 2) == 1
    ensures MaxFlowMinCut(2, CapMatrix(g, None, 1), 0, 1, 0.0) && MaxFlowMinCut(2, TotalMatrix(g, None), 0, 1, 1.0)
  {
    hide MaxFlowMinCut;
    assert g.ids[0] == 1 && g.ids[1] == 2;
    CapMatrixFacts(g, None, 1);
    MatrixEntry(g, None, 1, 0, 1);
    TwoNodes(CapMatrix(g, None, 1));
    forall x, y | 0 <= x < 2 && 0 <= y < 2
      ensures TotalMatrix(g, None)[x][y] >= 0.0
    {
      PairTotalZero(g, None, 1, x, y);
    }
    assert PairTotal(g, None, 1, 0, 1) == 1.0;
    TwoNodes(TotalMatrix(g, None));
  }

  /** Two nodes and one directed edge: the answer from the one to the other is what the capacity function says of the edge,
      or 1 without one. */
  method OneEdgeFlow(hash: int -> nat, cap: Option<Edge -> real>) returns (store: PropertyGraph, r: Option<real>)
    requires cap.Some? ==> cap.value(Edge(1, 1, 2, true)) >= 0.0
    ensures store.Valid() && store.View().Valid()
    ensures store.View().N() == 2 && store.View().edges == [Edge(1, 1, 2, true)]
    ensures r == Some(if cap.Some? then cap.value(Edge(1, 1, 2, true)) else 1.0)
  {
    hide MaxFlowMinCut, CapMatrix, TotalMatrix, CompleteMinCut, NothingLost, Indexed;
    store := new PropertyGraph(hash);
    var a := store.CreateNode();
    var b := store.CreateNode();
    var e := store.CreateEdge(1, 2, true);
    var g := store.View();
    OneEdgeMatrix(g, cap);
    ghost var augmentations;
    r, augmentations := MaxFlowEdmondsKarp(g, 1, 2, cap);
    ValueUnique(2, CapMatrix(g, cap, 1), 0, 1, r.value, if cap.Some? then cap.value(Edge(1, 1, 2, true)) else 1.0);
  }

  lemma OneEdgeMatrix(g: Graph, cap: Option<Edge -> real>)
    requires g.Valid() && g.N() == 2 && g.edges == [Edge(1, 1, 2, true)]
    requires cap.Some? ==> cap.value(Edge(1, 1, 2, true)) >= 0.0
    ensures IndexOrZero(g, 1) == 0 && IndexOrZero(g, 2) == 1 && NonNegativeCapacities(g, cap)
    ensures MaxFlowMinCut(2, CapMatrix(g, cap, 1), 0, 1, if cap.Some? then cap.value(Edge(1, 1, 2, true)) else 1.0)
  {
    hide MaxFlowMinCut;
    assert g.ids[0] == 1 && g.ids[1] == 2;
    CapMatrixFacts(g, cap, 1);
    MatrixEntry(g, cap, 1, 0, 1);
    TwoNodes(CapMatrix(g, cap, 1));
  }
}
