/** Betweenness over shortest-path counts, and the dependency recurrence that Brandes' algorithm evaluates. */
module Betweenness {
  import opened Digraphs
  import opened Sums
  import opened PathCounts

  // ---------- What betweenness means ----------

  /** `k` is the number of arcs on a shortest walk from `s` to `t`, or -1 when there is none. */
  ghost predicate IsDistance(d: Digraph, s: nat, t: nat, k: int) {
    if k < 0 then k == -1 && forall j: nat :: Walks(d, s, t, j) == {}
    else Walks(d, s, t, k) != {} && forall j: nat :: j < k ==> Walks(d, s, t, j) == {}
  }

  lemma {:induction false} LeastExists(d: Digraph, s: nat, t: nat, k: nat) returns (j: nat)
    requires Walks(d, s, t, k) != {}
    ensures IsDistance(d, s, t, j)
  {
    if i: nat :| i < k && Walks(d, s, t, i) != {} {
      j := LeastExists(d, s, t, i);
    } else {
      j := k;
    }
  }

  ghost function Distance(d: Digraph, s: nat, t: nat): (k: int)
    ensures IsDistance(d, s, t, k)
  {
    assert exists k :: IsDistance(d, s, t, k) by {
      if j: nat :| Walks(d, s, t, j) != {} {
        var k := LeastExists(d, s, t, j);
      } else {
        assert IsDistance(d, s, t, -1);
      }
    }
    var k :| IsDistance(d, s, t, k);
    k
  }

  lemma DistanceIs(d: Digraph, s: nat, t: nat, k: int)
    requires IsDistance(d, s, t, k)
    ensures Distance(d, s, t) == k
  {
  }

  ghost function ShortestPaths(d: Digraph, s: nat, t: nat): set<seq<nat>> {
    var k := Distance(d, s, t);
    if k >= 0 then Walks(d, s, t, k) else {}
  }

  ghost function Through(paths: set<seq<nat>>, v: nat): set<seq<nat>> {
    set p | p in paths && v in p
  }

  /** The fraction of shortest s-t paths that visit `v`. */
  ghost function Fraction(d: Digraph, s: int, t: int, v: nat): real {
    if s < 0 || t < 0 || ShortestPaths(d, s, t) == {} then 0.0
    else Size(Through(ShortestPaths(d, s, t), v)) / Size(ShortestPaths(d, s, t))
  }

  /** What source `s` contributes to `v`: the fractions summed over all other targets. */
  ghost function Dependency(d: Digraph, s: int, v: nat): real {
    if s == v then 0.0 else Sum(|d|, t => if t != v && t != s then Fraction(d, s, t, v) else 0.0)
  }

  /** Betweenness centrality: the fractions summed over all ordered pairs without `v`. */
  ghost function BetweennessOf(d: Digraph, v: nat): real {
    Sum(|d|, Contributions(d, v))
  }

  ghost function Contributions(d: Digraph, v: nat): int -> real {
    s => Dependency(d, s, v)
  }

  /** The shortest paths are the walks that no other walk between the same nodes is shorter than. */
  lemma ShortestAre(d: Digraph, s: nat, t: nat, p: seq<nat>)
    ensures p in ShortestPaths(d, s, t) <==> WalkFromTo(d, p, s, t) && forall q :: WalkFromTo(d, q, s, t) ==> |p| <= |q|
  {
    hide Walks, WalkFromTo;
    var k := Distance(d, s, t);
    forall q | WalkFromTo(d, q, s, t)
      ensures 0 <= k < |q| && q in Walks(d, s, t, |q| - 1)
    {
      NotEmpty(d, q, s, t);
      WalksAre(d, s, t, |q| - 1, q);
    }
    if k >= 0 {
      WalksAre(d, s, t, k, p);
      var least :| least in Walks(d, s, t, k);
      WalksAre(d, s, t, k, least);
    }
  }

  lemma NotEmpty(d: Digraph, q: seq<nat>, s: nat, t: nat)
    requires WalkFromTo(d, q, s, t)
    ensures |q| > 0
  {
  }

  /** No walk from `s` to `t` is shorter than those of the set, and all of that length are in it. */
  ghost predicate AreShortest(d: Digraph, s: nat, t: nat, paths: set<seq<nat>>) {
    forall p :: p in paths <==> WalkFromTo(d, p, s, t) && forall q :: WalkFromTo(d, q, s, t) ==> |p| <= |q|
  }

  /** The share of the paths that visit `v`. */
  ghost function Visiting(paths: set<seq<nat>>, v: nat): real {
    if paths == {} then 0.0 else |set p | p in paths && v in p| as real / |paths| as real
  }

  lemma FractionIs(d: Digraph, s: nat, t: nat, v: nat, paths: set<seq<nat>>)
    requires AreShortest(d, s, t, paths)
    ensures Fraction(d, s, t, v) == Visiting(paths, v)
  {
    hide ShortestPaths, WalkFromTo;
    forall p
      ensures p in paths <==> p in ShortestPaths(d, s, t)
    {
      ShortestAre(d, s, t, p);
    }
    assert paths == ShortestPaths(d, s, t);
    assert Through(paths, v) == set p | p in paths && v in p;
  }

  /** Betweenness is the sum, over all ordered pairs of other nodes, of the share of their shortest paths that visit `v`. */
  lemma BetweennessExactly(d: Digraph, v: nat, shortest: (int, int) -> set<seq<nat>>, share: (int, int) -> real)
    requires forall s: nat, t: nat :: s < |d| && t < |d| ==> AreShortest(d, s, t, shortest(s, t))
    requires forall s: nat, t: nat :: s < |d| && t < |d| ==>
               share(s, t) == if s == v || t == v || s == t then 0.0 else Visiting(shortest(s, t), v)
    ensures BetweennessOf(d, v) == Sum(|d|, s => Sum(|d|, t => share(s, t)))
  {
    hide Fraction, AreShortest, Dependency, Sum, Visiting;
    forall s | 0 <= s < |d|
      ensures Contributions(d, v)(s) == Inner(|d|, share)(s)
    {
      forall t | 0 <= t < |d|
        ensures share(s, t) == if s == v || t == v || s == t then 0.0 else Fraction(d, s, t, v)
      {
        FractionIs(d, s, t, v, shortest(s, t));
      }
      DependencyIs(d, s, v, share);
    }
    SumExt(|d|, Contributions(d, v), s => Sum(|d|, t => share(s, t)));
  }

  lemma DependencyIs(d: Digraph, s: nat, v: nat, share: (int, int) -> real)
    requires forall t :: 0 <= t < |d| ==> share(s, t) == if s == v || t == v || s == t then 0.0 else Fraction(d, s, t, v)
    ensures Dependency(d, s, v) == Inner(|d|, share)(s)
  {
    hide Fraction;
    if s == v {
      SumZero(|d|, t => share(s, t));
    } else {
      SumExt(|d|, t => if t != v && t != s then Fraction(d, s, t, v) else 0.0, t => share(s, t));
    }
  }

  // ---------- Breadth-first levels ----------

  /** `dist` assigns consistent levels: the source alone has level 0, arcs climb at most one level, and
      every other reached node has a predecessor one level down. */
  ghost predicate BfsLevels(d: Digraph, s: nat, dist: seq<int>) {
    && |dist| == |d| && s < |d| && dist[s] == 0
    && (forall u, w {:trigger Arc(d, u, w)} :: 0 <= u < |d| && 0 <= w < |d| && dist[u] >= 0 && Arc(d, u, w) ==> 0 <= dist[w] <= dist[u] + 1)
    && (forall w {:trigger HasParent(d, dist, w)} :: 0 <= w < |d| && w != s && dist[w] >= 0 ==> HasParent(d, dist, w))
  }

  predicate DagArc(d: Digraph, dist: seq<int>, v: int, w: int)
    requires |dist| == |d|
  {
    0 <= v < |d| && 0 <= w < |d| && Arc(d, v, w) && dist[v] >= 0 && dist[w] == dist[v] + 1
  }

  ghost predicate HasParent(d: Digraph, dist: seq<int>, w: int)
    requires |dist| == |d|
  {
    exists v :: DagArc(d, dist, v, w)
  }

  lemma {:induction false} WalkClimbs(d: Digraph, s: nat, dist: seq<int>, u: nat, w: nat, k: nat)
    requires BfsLevels(d, s, dist) && u < |d| && dist[u] >= 0 && Walks(d, u, w, k) != {}
    ensures w < |d| && 0 <= dist[w] <= dist[u] + k
    decreases k
  {
    var p :| p in Walks(d, u, w, k);
    if k > 0 {
      var v, q :| 0 <= v < |d| && q in Walks(d, u, v, k - 1) && Arc(d, v, w) && p == q + [w];
      WalkClimbs(d, s, dist, u, v, k - 1);
    }
  }

  lemma {:induction false} LevelReached(d: Digraph, s: nat, dist: seq<int>, w: nat)
    requires BfsLevels(d, s, dist) && w < |d| && dist[w] >= 0
    ensures Walks(d, s, w, dist[w]) != {}
    decreases dist[w]
  {
    if w == s {
      assert [s] in Walks(d, s, s, 0);
    } else {
      assert HasParent(d, dist, w);
      var v :| DagArc(d, dist, v, w);
      LevelReached(d, s, dist, v);
      var p :| p in Walks(d, s, v, dist[v]);
      assert p + [w] in Walks(d, s, w, dist[w]);
    }
  }

  /** Levels are distances. */
  lemma LevelsAreDistances(d: Digraph, s: nat, dist: seq<int>, t: nat)
    requires BfsLevels(d, s, dist) && t < |d|
    ensures Distance(d, s, t) == if dist[t] >= 0 then dist[t] else -1
  {
    forall k: nat | Walks(d, s, t, k) != {}
      ensures 0 <= dist[t] <= k
    {
      WalkClimbs(d, s, dist, s, t, k);
    }
    if dist[t] >= 0 {
      LevelReached(d, s, dist, t);
      DistanceIs(d, s, t, dist[t]);
    } else {
      DistanceIs(d, s, t, -1);
    }
  }

  // ---------- Counting along levels ----------

  ghost function Sigma(d: Digraph, s: nat, dist: seq<int>, w: int): real
    requires |dist| == |d|
  {
    if 0 <= w < |d| then Count(d, s, w, dist[w]) else 0.0
  }

  lemma SigmaPositive(d: Digraph, s: nat, dist: seq<int>, w: nat)
    requires BfsLevels(d, s, dist) && w < |d| && dist[w] >= 0
    ensures Sigma(d, s, dist, w) >= 1.0
  {
    LevelReached(d, s, dist, w);
  }

  lemma CountZero(d: Digraph, s: nat, dist: seq<int>, u: nat, w: nat, k: nat)
    requires BfsLevels(d, s, dist) && u < |d| && dist[u] >= 0
    requires w >= |d| || dist[w] < 0 || dist[w] > dist[u] + k
    ensures Count(d, u, w, k) == 0.0
  {
    if Walks(d, u, w, k) != {} {
      WalkClimbs(d, s, dist, u, w, k);
    }
  }

  lemma CountOneArc(d: Digraph, u: nat, v: nat)
    ensures Count(d, u, v, 1) == if Arc(d, u, v) then 1.0 else 0.0
  {
    OneArc(d, u, v);
  }

  ghost function FromParents(d: Digraph, s: nat, dist: seq<int>, w: int): int -> real
    requires |dist| == |d|
  {
    v => if DagArc(d, dist, v, w) then Sigma(d, s, dist, v) else 0.0
  }

  lemma FromParent(d: Digraph, s: nat, dist: seq<int>, v: nat, w: nat)
    requires BfsLevels(d, s, dist) && v < |d| && w < |d| && dist[w] > 0
    ensures Products(d, s, w, dist[w], dist[w] - 1)(v) == FromParents(d, s, dist, w)(v)
  {
    hide Walks, Count;
    CountOneArc(d, v, w);
    if Arc(d, v, w) && dist[v] != dist[w] - 1 {
      CountZero(d, s, dist, s, v, dist[w] - 1);
    }
  }

  /** The number of shortest paths to a node is the sum over its predecessors one level down. */
  lemma SigmaStep(d: Digraph, s: nat, dist: seq<int>, w: nat)
    requires BfsLevels(d, s, dist) && w < |d| && w != s && dist[w] >= 0
    ensures Sigma(d, s, dist, w) == Sum(|d|, FromParents(d, s, dist, w))
  {
    var k := dist[w];
    assert HasParent(d, dist, w);
    hide Walks, Count, FromParents, Products;
    CountThrough(d, s, w, k, k - 1);
    forall v | 0 <= v < |d|
      ensures Products(d, s, w, k, k - 1)(v) == FromParents(d, s, dist, w)(v)
    {
      FromParent(d, s, dist, v, w);
    }
    SumExt(|d|, Products(d, s, w, k, k - 1), FromParents(d, s, dist, w));
  }

  /** How many shortest paths from the source to `t` go on from `v`. */
  ghost function Continue(d: Digraph, dist: seq<int>, v: int, t: int): real
    requires |dist| == |d|
  {
    if 0 <= v < |d| && 0 <= t < |d| && 0 <= dist[v] <= dist[t] then Count(d, v, t, dist[t] - dist[v]) else 0.0
  }

  ghost function Ahead(d: Digraph, dist: seq<int>, v: int, t: int): int -> real
    requires |dist| == |d|
  {
    w => if DagArc(d, dist, v, w) then Continue(d, dist, w, t) else 0.0
  }

  lemma AheadPoint(d: Digraph, s: nat, dist: seq<int>, v: nat, w: nat, t: nat)
    requires BfsLevels(d, s, dist) && v < |d| && w < |d| && t < |d| && 0 <= dist[v] < dist[t]
    ensures Products(d, v, t, dist[t] - dist[v], 1)(w) == Ahead(d, dist, v, t)(w)
  {
    hide Walks, Count;
    CountOneArc(d, v, w);
    if Arc(d, v, w) && dist[w] != dist[v] + 1 {
      CountZero(d, s, dist, w, t, dist[t] - dist[v] - 1);
    }
  }

  /** Going on from `v` means going on from one of its successors one level up. */
  lemma ContinueStep(d: Digraph, s: nat, dist: seq<int>, v: nat, t: nat)
    requires |dist| == |d| && BfsLevels(d, s, dist) && v < |d| && t < |d| && dist[v] >= 0 && dist[t] >= 0
    ensures Sum(|d|, Ahead(d, dist, v, t)) == if t == v then 0.0 else Continue(d, dist, v, t)
  {
    hide Walks, Count, BfsLevels;
    if dist[t] <= dist[v] {
      SumZero(|d|, Ahead(d, dist, v, t));
      if t != v && dist[t] == dist[v] {
        NoWalkStandingStill(d, v, t);
      }
    } else {
      hide Ahead, Products;
      var m := dist[t] - dist[v];
      CountThrough(d, v, t, m, 1);
      forall w | 0 <= w < |d|
        ensures Products(d, v, t, m, 1)(w) == Ahead(d, dist, v, t)(w)
      {
        AheadPoint(d, s, dist, v, w, t);
      }
      SumExt(|d|, Products(d, v, t, m, 1), Ahead(d, dist, v, t));
    }
  }

  lemma NoWalkStandingStill(d: Digraph, v: nat, t: nat)
    requires v != t
    ensures Count(d, v, t, 0) == 0.0
  {
  }

  // ---------- The dependency recurrence ----------

  /** The fraction of shortest s-t paths through `v`, by counts. */
  ghost function Term(d: Digraph, s: nat, dist: seq<int>, v: int, t: int): real
    requires |dist| == |d|
  {
    if 0 <= t < |d| && dist[t] >= 0 && Sigma(d, s, dist, t) != 0.0
    then Sigma(d, s, dist, v) * Continue(d, dist, v, t) / Sigma(d, s, dist, t) else 0.0
  }

  ghost function Terms(d: Digraph, s: nat, dist: seq<int>, v: int): int -> real
    requires |dist| == |d|
  {
    t => Term(d, s, dist, v, t)
  }

  /** The dependency of the source on `v`, counted over all targets but `v` itself. */
  ghost function Dep(d: Digraph, s: nat, dist: seq<int>, v: int): real
    requires |dist| == |d|
  {
    Sum(|d|, Terms(d, s, dist, v)) - 1.0
  }

  lemma OwnTerm(d: Digraph, s: nat, dist: seq<int>, v: nat)
    requires BfsLevels(d, s, dist) && v < |d| && dist[v] >= 0
    ensures Term(d, s, dist, v, v) == 1.0
  {
    SigmaPositive(d, s, dist, v);
    assert Walks(d, v, v, 0) == {[v]};
  }

  lemma Cancel(a: real, b: real, c: real, e: real)
    requires b != 0.0 && e != 0.0
    ensures a / b * (b * c / e) == a * c / e
  {
    assert a / b * (b * c / e) == (a / b * b) * c / e;
  }

  /** What the successor `w` hands down to `v` for target `t`. */
  ghost function Handed(d: Digraph, s: nat, dist: seq<int>, v: nat): (int, int) -> real
    requires |dist| == |d|
  {
    (w, t) => if DagArc(d, dist, v, w) && 0 <= t < |d| && dist[t] >= 0 && Sigma(d, s, dist, t) != 0.0
      then Sigma(d, s, dist, v) * Continue(d, dist, w, t) / Sigma(d, s, dist, t) else 0.0
  }

  ghost function Share(d: Digraph, s: nat, dist: seq<int>, v: nat, w: int): real
    requires |dist| == |d|
  {
    if DagArc(d, dist, v, w) && Sigma(d, s, dist, w) != 0.0
    then Sigma(d, s, dist, v) / Sigma(d, s, dist, w) * (1.0 + Dep(d, s, dist, w)) else 0.0
  }

  lemma HandedIsScaledTerm(d: Digraph, s: nat, dist: seq<int>, v: nat, w: nat, t: nat)
    requires |dist| == |d| && v < |d| && w < |d| && t < |d| && DagArc(d, dist, v, w) && Sigma(d, s, dist, w) != 0.0
    ensures Handed(d, s, dist, v)(w, t) == Sigma(d, s, dist, v) / Sigma(d, s, dist, w) * Term(d, s, dist, w, t)
  {
    hide Sigma, Continue;
    if dist[t] >= 0 && Sigma(d, s, dist, t) != 0.0 {
      Cancel(Sigma(d, s, dist, v), Sigma(d, s, dist, w), Continue(d, dist, w, t), Sigma(d, s, dist, t));
    }
  }

  /** All that `w` hands down to `v` is `v`'s share of one more than `w`'s dependency. */
  lemma HandedBySuccessor(d: Digraph, s: nat, dist: seq<int>, v: nat, w: nat)
    requires BfsLevels(d, s, dist) && v < |d| && w < |d|
    ensures Inner(|d|, Handed(d, s, dist, v))(w) == Share(d, s, dist, v, w)
  {
    hide Sigma, Sum;
    if DagArc(d, dist, v, w) {
      SigmaPositive(d, s, dist, w);
      HandedSum(d, s, dist, v, w);
    } else {
      HandedNothing(d, s, dist, v, w);
    }
  }

  lemma HandedNothing(d: Digraph, s: nat, dist: seq<int>, v: nat, w: nat)
    requires |dist| == |d| && !DagArc(d, dist, v, w)
    ensures Inner(|d|, Handed(d, s, dist, v))(w) == 0.0
  {
    hide Sigma, Sum;
    var f := Handed(d, s, dist, v);
    forall t | 0 <= t < |d|
      ensures f(w, t) == 0.0
    {
    }
    SumZero(|d|, t => f(w, t));
  }

  lemma HandedSum(d: Digraph, s: nat, dist: seq<int>, v: nat, w: nat)
    requires |dist| == |d| && v < |d| && w < |d| && DagArc(d, dist, v, w) && Sigma(d, s, dist, w) != 0.0
    ensures Inner(|d|, Handed(d, s, dist, v))(w) == Sigma(d, s, dist, v) / Sigma(d, s, dist, w) * Sum(|d|, Terms(d, s, dist, w))
  {
    hide Sigma, Term, Handed, Sum;
    var c := Sigma(d, s, dist, v) / Sigma(d, s, dist, w);
    var f := Handed(d, s, dist, v);
    forall t | 0 <= t < |d|
      ensures f(w, t) == c * Terms(d, s, dist, w)(t)
    {
      HandedIsScaledTerm(d, s, dist, v, w, t);
    }
    SumScale(|d|, c, Terms(d, s, dist, w), t => f(w, t));
  }

  lemma HandedIsScaledAhead(d: Digraph, s: nat, dist: seq<int>, v: nat, w: nat, t: nat)
    requires |dist| == |d| && v < |d| && w < |d| && t < |d| && dist[t] >= 0 && Sigma(d, s, dist, t) != 0.0
    ensures Flip(Handed(d, s, dist, v))(t, w) == Sigma(d, s, dist, v) / Sigma(d, s, dist, t) * Ahead(d, dist, v, t)(w)
  {
    hide Sigma, Continue;
    Regroup(Sigma(d, s, dist, v), Continue(d, dist, w, t), Sigma(d, s, dist, t));
  }

  /** All that is handed down to `v` for target `t` is the fraction of paths through `v`. */
  lemma HandedForTarget(d: Digraph, s: nat, dist: seq<int>, v: nat, t: nat)
    requires BfsLevels(d, s, dist) && v < |d| && t < |d| && dist[v] >= 0
    ensures Inner(|d|, Flip(Handed(d, s, dist, v)))(t) == if t == v then 0.0 else Term(d, s, dist, v, t)
  {
    hide Sigma, Continue, Handed, Ahead, Sum;
    if dist[t] >= 0 {
      SigmaPositive(d, s, dist, t);
      ContinueStep(d, s, dist, v, t);
      HandedTargetSum(d, s, dist, v, t);
      Regroup(Sigma(d, s, dist, v), Continue(d, dist, v, t), Sigma(d, s, dist, t));
    } else {
      HandedNowhere(d, s, dist, v, t);
    }
  }

  lemma HandedTargetSum(d: Digraph, s: nat, dist: seq<int>, v: nat, t: nat)
    requires |dist| == |d| && v < |d| && t < |d| && dist[t] >= 0 && Sigma(d, s, dist, t) != 0.0
    ensures Inner(|d|, Flip(Handed(d, s, dist, v)))(t)
         == Sigma(d, s, dist, v) / Sigma(d, s, dist, t) * Sum(|d|, Ahead(d, dist, v, t))
  {
    hide Sigma, Handed, Ahead, Sum;
    var c := Sigma(d, s, dist, v) / Sigma(d, s, dist, t);
    var f := Flip(Handed(d, s, dist, v));
    forall w | 0 <= w < |d|
      ensures f(t, w) == c * Ahead(d, dist, v, t)(w)
    {
      HandedIsScaledAhead(d, s, dist, v, w, t);
    }
    SumScale(|d|, c, Ahead(d, dist, v, t), w => f(t, w));
  }

  lemma HandedNowhere(d: Digraph, s: nat, dist: seq<int>, v: nat, t: nat)
    requires |dist| == |d| && v < |d| && t < |d| && dist[t] < 0
    ensures Inner(|d|, Flip(Handed(d, s, dist, v)))(t) == 0.0
  {
    hide Sigma, Sum;
    var f := Flip(Handed(d, s, dist, v));
    SumZero(|d|, w => f(t, w));
  }

  lemma Regroup(a: real, c: real, e: real)
    requires e != 0.0
    ensures a * c / e == a / e * c
  {
  }

  /** Brandes' theorem: a node's dependency is collected from its successors one level up. */
  lemma DependencyRecurrence(d: Digraph, s: nat, dist: seq<int>, v: nat)
    requires BfsLevels(d, s, dist) && v < |d| && dist[v] >= 0
    ensures Dep(d, s, dist, v) == Sum(|d|, w => Share(d, s, dist, v, w))
  {
    var n, f := |d|, Handed(d, s, dist, v);
    forall w | 0 <= w < n
      ensures Inner(n, f)(w) == Share(d, s, dist, v, w)
    {
      HandedBySuccessor(d, s, dist, v, w);
    }
    SumExt(n, Inner(n, f), w => Share(d, s, dist, v, w));
    SumSwap(n, n, f);
    forall t | 0 <= t < n
      ensures Inner(n, Flip(f))(t) == if t == v then 0.0 else Term(d, s, dist, v, t)
    {
      HandedForTarget(d, s, dist, v, t);
    }
    OwnTerm(d, s, dist, v);
    SumChange(n, Terms(d, s, dist, v), Inner(n, Flip(f)), v);
  }

  // ---------- Dependencies are what betweenness sums ----------

  /** A shortest path visits a node only at the node's level. */
  lemma VisitLevel(d: Digraph, s: nat, dist: seq<int>, v: nat, t: nat, p: seq<nat>)
    requires BfsLevels(d, s, dist) && v < |d| && t < |d| && dist[t] >= 0 && p in Walks(d, s, t, dist[t]) && v in p
    ensures 0 <= dist[v] <= dist[t] && dist[v] < |p| && p[dist[v]] == v
  {
    hide Walks;
    var i :| 0 <= i < |p| && p[i] == v;
    WalksAre(d, s, t, dist[t], p);
    SplitWalk(d, s, t, dist[t], i, p);
    WalkClimbs(d, s, dist, s, v, i);
    WalkClimbs(d, s, dist, v, t, dist[t] - i);
  }

  /** Shortest s-t paths through `v` are paths to `v` continued to `t`. */
  lemma ThroughSize(d: Digraph, s: nat, dist: seq<int>, v: nat, t: nat)
    requires BfsLevels(d, s, dist) && v < |d| && t < |d| && dist[t] >= 0
    ensures Size(Through(Walks(d, s, t, dist[t]), v)) == Sigma(d, s, dist, v) * Continue(d, dist, v, t)
  {
    hide Walks;
    var paths := Walks(d, s, t, dist[t]);
    forall p | p in Through(paths, v)
      ensures 0 <= dist[v] <= dist[t] && dist[v] < |p| && p[dist[v]] == v
    {
      VisitLevel(d, s, dist, v, t, p);
    }
    hide BfsLevels;
    if 0 <= dist[v] <= dist[t] {
      FiberProduct(d, s, t, dist[t], dist[v], v);
      assert Through(paths, v) == Fiber(paths, dist[v], v);
    } else {
      assert Through(paths, v) == {};
    }
  }

  lemma FractionIsTerm(d: Digraph, s: nat, dist: seq<int>, v: nat, t: nat)
    requires BfsLevels(d, s, dist) && v < |d| && t < |d|
    ensures Fraction(d, s, t, v) == Term(d, s, dist, v, t)
  {
    LevelsAreDistances(d, s, dist, t);
    if dist[t] >= 0 {
      LevelReached(d, s, dist, t);
      SigmaPositive(d, s, dist, t);
      ThroughSize(d, s, dist, v, t);
    }
  }

  /** For one source, the recurrence's value is the sum of the fractions. */
  lemma DepIsDependency(d: Digraph, s: nat, dist: seq<int>, v: nat)
    requires BfsLevels(d, s, dist) && v < |d| && v != s
    ensures Dependency(d, s, v) == if dist[v] >= 0 then Dep(d, s, dist, v) else 0.0
  {
    var others := t => if t != v && t != s then Fraction(d, s, t, v) else 0.0;
    forall t | 0 <= t < |d|
      ensures t != v ==> others(t) == Term(d, s, dist, v, t)
      ensures dist[v] < 0 ==> Term(d, s, dist, v, t) == 0.0
    {
      FractionIsTerm(d, s, dist, v, t);
      assert dist[v] >= 0 ==> HasParent(d, dist, v);
    }
    hide Fraction, BfsLevels;
    if dist[v] >= 0 {
      OwnTerm(d, s, dist, v);
      SumChange(|d|, Terms(d, s, dist, v), others, v);
    } else {
      SumZero(|d|, others);
    }
  }
}
