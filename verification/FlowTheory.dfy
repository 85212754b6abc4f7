/** Flows, cuts and residual networks over a capacity matrix: max-flow min-cut and the
    shortest-augmenting-path argument. */
module FlowTheory {
  import opened Sets
  import opened Sums

  type Matrix = seq<seq<real>>

  predicate Square(n: nat, m: Matrix) {
    |m| == n && forall x :: 0 <= x < n ==> |m[x]| == n
  }

  predicate NonNeg(n: nat, m: Matrix)
    requires Square(n, m)
  {
    forall x, y :: 0 <= x < n && 0 <= y < n ==> m[x][y] >= 0.0
  }

  function At(n: nat, m: Matrix): (int, int) -> real
    requires Square(n, m)
  {
    (x, y) => if 0 <= x < n && 0 <= y < n then m[x][y] else 0.0
  }

  function Row(n: nat, f: (int, int) -> real, x: int): real {
    Sum(n, y => f(x, y))
  }

  // ---------- Flows and cuts ----------

  /** `f` sends no more than the capacity over each pair and conserves flow at every inner node. */
  ghost predicate Feasible(n: nat, cap: Matrix, s: nat, t: nat, f: Matrix)
    requires Square(n, cap)
  {
    && Square(n, f) && NonNeg(n, f)
    && (forall x, y :: 0 <= x < n && 0 <= y < n ==> f[x][y] <= cap[x][y])
    && (forall x :: 0 <= x < n && x != s && x != t ==> Outflow(n, f, x) == 0.0)
  }

  /** What leaves `x` minus what enters it. */
  function Outflow(n: nat, f: Matrix, x: nat): real
    requires Square(n, f)
  {
    Row(n, At(n, f), x) - Row(n, Flip(At(n, f)), x)
  }

  function Value(n: nat, f: Matrix, s: nat): real
    requires Square(n, f)
  {
    Outflow(n, f, s)
  }

  predicate IsCut(n: nat, s: nat, t: nat, side: seq<bool>) {
    |side| == n && s < n && t < n && side[s] && !side[t]
  }

  /** `f` restricted to pairs leaving the source side. */
  function Crossing(side: seq<bool>, f: (int, int) -> real): (int, int) -> real {
    (x, y) => if 0 <= x < |side| && 0 <= y < |side| && side[x] && !side[y] then f(x, y) else 0.0
  }

  function Within(side: seq<bool>, f: (int, int) -> real): (int, int) -> real {
    (x, y) => if 0 <= x < |side| && 0 <= y < |side| && side[x] && side[y] then f(x, y) else 0.0
  }

  function FromSide(side: seq<bool>, f: (int, int) -> real): (int, int) -> real {
    (x, y) => if 0 <= x < |side| && side[x] then f(x, y) else 0.0
  }

  function CutCapacity(n: nat, cap: Matrix, side: seq<bool>): real
    requires Square(n, cap)
  {
    Sum2(n, n, Crossing(side, At(n, cap)))
  }

  /** The net flow out of the source is the net flow over any cut. */
  lemma CutIdentity(n: nat, f: (int, int) -> real, s: nat, t: nat, side: seq<bool>)
    requires IsCut(n, s, t, side)
    requires forall x, y :: 0 <= x < n && 0 <= y < n ==> f(x, y) == -f(y, x)
    requires forall x :: 0 <= x < n && x != s && x != t ==> Row(n, f, x) == 0.0
    ensures Row(n, f, s) == Sum2(n, n, Crossing(side, f))
  {
    var all := FromSide(side, f);
    forall x | 0 <= x < n
      ensures Inner(n, all)(x) == if side[x] then Row(n, f, x) else 0.0
    {
      if side[x] {
        SumExt(n, y => all(x, y), y => f(x, y));
      } else {
        SumZero(n, y => all(x, y));
      }
    }
    SumSingle(n, Inner(n, all), s);
    Sum2Add(n, n, Within(side, f), Crossing(side, f), all);
    SkewSum(n, Within(side, f));
  }

  function NetFlow(n: nat, f: Matrix): (int, int) -> real
    requires Square(n, f)
  {
    (x, y) => At(n, f)(x, y) - At(n, f)(y, x)
  }

  lemma OutflowIsNet(n: nat, f: Matrix, x: nat)
    requires Square(n, f)
    ensures Outflow(n, f, x) == Row(n, NetFlow(n, f), x)
  {
    var m := At(n, f);
    forall y | 0 <= y < n
      ensures m(x, y) == NetFlow(n, f)(x, y) + Flip(m)(x, y)
    {
    }
    SumAdd(n, y => NetFlow(n, f)(x, y), y => Flip(m)(x, y), y => m(x, y));
  }

  /** Weak duality: no feasible flow is worth more than any cut. */
  lemma FlowBelowCut(n: nat, cap: Matrix, s: nat, t: nat, f: Matrix, side: seq<bool>)
    requires Square(n, cap) && NonNeg(n, cap) && Feasible(n, cap, s, t, f) && IsCut(n, s, t, side)
    ensures Value(n, f, s) <= CutCapacity(n, cap, side)
  {
    forall x | 0 <= x < n
      ensures Outflow(n, f, x) == Row(n, NetFlow(n, f), x)
    {
      OutflowIsNet(n, f, x);
    }
    CutIdentity(n, NetFlow(n, f), s, t, side);
    Sum2Mono(n, n, Crossing(side, NetFlow(n, f)), Crossing(side, At(n, cap)));
  }

  // ---------- Residual networks ----------

  /** `res` is the residual network of some flow of the given value: skew symmetry, conservation, capacity. */
  ghost predicate Residual(n: nat, cap: Matrix, s: nat, t: nat, res: Matrix, value: real) {
    && Square(n, cap) && Square(n, res) && NonNeg(n, cap) && NonNeg(n, res) && s < n && t < n
    && (forall x, y :: 0 <= x < n && 0 <= y < n ==> res[x][y] + res[y][x] == cap[x][y] + cap[y][x])
    && (forall x :: 0 <= x < n && x != s && x != t ==> Row(n, At(n, res), x) == Row(n, At(n, cap), x))
    && Row(n, At(n, cap), s) - Row(n, At(n, res), s) == value
  }

  /** The flow that a residual network stands for. */
  function FlowOf(n: nat, cap: Matrix, res: Matrix): (f: Matrix)
    requires Square(n, cap) && Square(n, res)
    ensures Square(n, f)
  {
    seq(n, x requires 0 <= x < n => seq(n, y requires 0 <= y < n =>
      if cap[x][y] > res[x][y] then cap[x][y] - res[x][y] else 0.0))
  }

  lemma FlowOfNet(n: nat, cap: Matrix, s: nat, t: nat, res: Matrix, value: real, x: nat)
    requires Residual(n, cap, s, t, res, value) && x < n
    ensures Outflow(n, FlowOf(n, cap, res), x) == Row(n, At(n, cap), x) - Row(n, At(n, res), x)
  {
    var f := FlowOf(n, cap, res);
    OutflowIsNet(n, f, x);
    forall y | 0 <= y < n
      ensures At(n, cap)(x, y) == NetFlow(n, f)(x, y) + At(n, res)(x, y)
    {
      assert res[x][y] + res[y][x] == cap[x][y] + cap[y][x];
    }
    SumAdd(n, y => NetFlow(n, f)(x, y), y => At(n, res)(x, y), y => At(n, cap)(x, y));
  }

  lemma FlowOfFeasible(n: nat, cap: Matrix, s: nat, t: nat, res: Matrix, value: real)
    requires Residual(n, cap, s, t, res, value)
    ensures Feasible(n, cap, s, t, FlowOf(n, cap, res)) && Value(n, FlowOf(n, cap, res), s) == value
  {
    forall x | 0 <= x < n
      ensures Outflow(n, FlowOf(n, cap, res), x) == Row(n, At(n, cap), x) - Row(n, At(n, res), x)
    {
      FlowOfNet(n, cap, s, t, res, value, x);
    }
  }

  /** A cut that no residual arc leaves has the capacity of the flow's value. */
  lemma SaturatedCut(n: nat, cap: Matrix, s: nat, t: nat, res: Matrix, value: real, side: seq<bool>)
    requires Residual(n, cap, s, t, res, value) && IsCut(n, s, t, side)
    requires forall x, y :: 0 <= x < n && 0 <= y < n && side[x] && !side[y] ==> res[x][y] <= 0.0
    ensures CutCapacity(n, cap, side) == value
  {
    var f := (x, y) => At(n, cap)(x, y) - At(n, res)(x, y);
    forall x, y | 0 <= x < n && 0 <= y < n
      ensures f(x, y) == -f(y, x)
    {
      assert res[x][y] + res[y][x] == cap[x][y] + cap[y][x];
    }
    forall x | 0 <= x < n
      ensures Row(n, f, x) == Row(n, At(n, cap), x) - Row(n, At(n, res), x)
    {
      SumAdd(n, y => f(x, y), y => At(n, res)(x, y), y => At(n, cap)(x, y));
    }
    CutIdentity(n, f, s, t, side);
    Sum2Ext(n, n, Crossing(side, f), Crossing(side, At(n, cap)));
  }

  /** The value is the maximum over all flows and the minimum over all cuts. */
  ghost predicate MaxFlowMinCut(n: nat, cap: Matrix, s: nat, t: nat, value: real)
    requires Square(n, cap)
  {
    && (exists f :: Feasible(n, cap, s, t, f) && Value(n, f, s) == value)
    && (exists side :: IsCut(n, s, t, side) && CutCapacity(n, cap, side) == value)
    && (forall f :: Feasible(n, cap, s, t, f) ==> Value(n, f, s) <= value)
    && (forall side :: IsCut(n, s, t, side) ==> CutCapacity(n, cap, side) >= value)
  }

  lemma StrongDuality(n: nat, cap: Matrix, s: nat, t: nat, res: Matrix, value: real, side: seq<bool>)
    requires Residual(n, cap, s, t, res, value) && IsCut(n, s, t, side)
    requires forall x, y :: 0 <= x < n && 0 <= y < n && side[x] && !side[y] ==> res[x][y] <= 0.0
    ensures MaxFlowMinCut(n, cap, s, t, value)
  {
    var best := FlowOf(n, cap, res);
    FlowOfFeasible(n, cap, s, t, res, value);
    SaturatedCut(n, cap, s, t, res, value, side);
    forall f | Feasible(n, cap, s, t, f)
      ensures Value(n, f, s) <= value
    {
      FlowBelowCut(n, cap, s, t, f, side);
    }
    forall c | IsCut(n, s, t, c)
      ensures CutCapacity(n, cap, c) >= value
    {
      FlowBelowCut(n, cap, s, t, best, c);
    }
  }

  lemma ValueUnique(n: nat, cap: Matrix, s: nat, t: nat, v: real, w: real)
    requires Square(n, cap) && MaxFlowMinCut(n, cap, s, t, v) && MaxFlowMinCut(n, cap, s, t, w)
    ensures v == w
  {
    hide Feasible, Value, IsCut;
  }

  /** A matrix whose only entry leads from node 0 to node 1. */
  lemma OneArc(n: nat, f: Matrix)
    requires n == 2 && Square(n, f) && f[0][0] == f[1][0] == f[1][1] == 0.0
    ensures Value(n, f, 0) == f[0][1]
  {
    forall y | 0 <= y < n
      ensures At(n, f)(0, y) == (if y == 0 then 0.0 else f[0][1]) && Flip(At(n, f))(0, y) == 0.0
    {
      assert y == 0 || y == 1;
    }
    SumSingle(n, y => At(n, f)(0, y), 1);
    SumZero(n, y => Flip(At(n, f))(0, y));
  }

  /** Between two nodes the maximum flow is the capacity from one to the other. */
  lemma TwoNodes(cap: Matrix)
    requires Square(2, cap) && NonNeg(2, cap)
    ensures MaxFlowMinCut(2, cap, 0, 1, cap[0][1])
  {
    var side, f := [true, false], [[0.0, cap[0][1]], [0.0, 0.0]];
    var across := Crossing(side, At(2, cap));
    SumSingle(2, j => across(0, j), 1);
    SumZero(2, j => across(1, j));
    SumSingle(2, Inner(2, across), 0);
    OneArc(2, f);
    assert IsCut(2, 0, 1, side) && CutCapacity(2, cap, side) == cap[0][1];
    assert Feasible(2, cap, 0, 1, f) && Value(2, f, 0) == cap[0][1];
    hide CutCapacity, Value, Feasible;
    forall g | Feasible(2, cap, 0, 1, g)
      ensures Value(2, g, 0) <= cap[0][1]
    {
      FlowBelowCut(2, cap, 0, 1, g, side);
    }
    forall c | IsCut(2, 0, 1, c)
      ensures CutCapacity(2, cap, c) >= cap[0][1]
    {
      assert c == side;
    }
  }

  // ---------- Raising capacities ----------

  predicate Below(n: nat, low: Matrix, high: Matrix)
    requires Square(n, low) && Square(n, high)
  {
    forall x, y :: 0 <= x < n && 0 <= y < n ==> low[x][y] <= high[x][y]
  }

  /** The cut separates the two ends with the least capacity of all cuts. */
  ghost predicate IsMinCut(n: nat, cap: Matrix, s: nat, t: nat, side: seq<bool>)
    requires Square(n, cap)
  {
    IsCut(n, s, t, side) && forall c :: IsCut(n, s, t, c) ==> CutCapacity(n, cap, c) >= CutCapacity(n, cap, side)
  }

  predicate AgreeAcross(n: nat, low: Matrix, high: Matrix, side: seq<bool>)
    requires Square(n, low) && Square(n, high) && |side| == n
  {
    forall x, y :: 0 <= x < n && 0 <= y < n && side[x] && !side[y] ==> low[x][y] == high[x][y]
  }

  /** All ways to take sides. */
  function Sides(n: nat): set<seq<bool>> {
    if n == 0 then {[]} else (set c | c in Sides(n - 1) :: c + [true]) + (set c | c in Sides(n - 1) :: c + [false])
  }

  lemma {:induction false} EverySide(n: nat, side: seq<bool>)
    requires |side| == n
    ensures side in Sides(n)
  {
    if n > 0 {
      var init := side[..n - 1];
      EverySide(n - 1, init);
      assert side == if side[n - 1] then init + [true] else init + [false];
    }
  }

  /** A cut that is the least of a set of cuts and no larger than the given one. */
  lemma {:induction false} LeastCut(n: nat, cap: Matrix, s: nat, t: nat, sides: set<seq<bool>>, c: seq<bool>) returns (side: seq<bool>)
    requires Square(n, cap) && IsCut(n, s, t, c)
    ensures IsCut(n, s, t, side) && forall x :: x in sides && IsCut(n, s, t, x) ==> CutCapacity(n, cap, x) >= CutCapacity(n, cap, side)
    decreases sides
  {
    hide CutCapacity;
    side := c;
    if sides != {} {
      var x :| x in sides;
      side := LeastCut(n, cap, s, t, sides - {x}, c);
      if IsCut(n, s, t, x) && CutCapacity(n, cap, x) < CutCapacity(n, cap, side) {
        side := x;
      }
    }
  }

  lemma MinCutExists(n: nat, cap: Matrix, s: nat, t: nat) returns (side: seq<bool>)
    requires Square(n, cap) && s < n && t < n && s != t
    ensures IsMinCut(n, cap, s, t, side)
  {
    hide CutCapacity, Sides;
    side := LeastCut(n, cap, s, t, Sides(n), seq(n, v => v == s));
    forall c | IsCut(n, s, t, c)
      ensures c in Sides(n)
    {
      EverySide(n, c);
    }
  }

  /** Raising capacities leaves the maximum flow as it is exactly if some minimum cut has none of the raised pairs. */
  lemma RaisedExactly(n: nat, low: Matrix, high: Matrix, s: nat, t: nat, value: real)
    requires Square(n, low) && Square(n, high) && NonNeg(n, low) && Below(n, low, high) && MaxFlowMinCut(n, low, s, t, value)
    ensures MaxFlowMinCut(n, high, s, t, value) <==>
            exists side :: IsMinCut(n, low, s, t, side) && AgreeAcross(n, low, high, side)
  {
    hide CutCapacity;
    if MaxFlowMinCut(n, high, s, t, value) {
      var side :| IsCut(n, s, t, side) && CutCapacity(n, high, side) == value;
      TightCut(n, low, high, side);
      assert IsMinCut(n, low, s, t, side);
    }
    if side :| IsMinCut(n, low, s, t, side) && AgreeAcross(n, low, high, side) {
      RaisedElsewhere(n, low, high, s, t, value, side);
    }
  }

  lemma TightCut(n: nat, low: Matrix, high: Matrix, side: seq<bool>)
    requires Square(n, low) && Square(n, high) && Below(n, low, high) && |side| == n
    ensures CutCapacity(n, low, side) <= CutCapacity(n, high, side)
    ensures CutCapacity(n, low, side) == CutCapacity(n, high, side) <==> AgreeAcross(n, low, high, side)
  {
    var f, g := Crossing(side, At(n, low)), Crossing(side, At(n, high));
    Sum2Mono(n, n, f, g);
    if AgreeAcross(n, low, high, side) {
      Sum2Ext(n, n, f, g);
    } else {
      var x, y :| 0 <= x < n && 0 <= y < n && side[x] && !side[y] && low[x][y] != high[x][y];
      Sum2Gap(n, n, f, g, x, y);
    }
  }

  lemma RaisedElsewhere(n: nat, low: Matrix, high: Matrix, s: nat, t: nat, value: real, side: seq<bool>)
    requires Square(n, low) && Square(n, high) && NonNeg(n, low) && Below(n, low, high) && MaxFlowMinCut(n, low, s, t, value)
    requires IsMinCut(n, low, s, t, side) && AgreeAcross(n, low, high, side)
    ensures MaxFlowMinCut(n, high, s, t, value)
  {
    hide CutCapacity, Value;
    TightCut(n, low, high, side);
    var best :| Feasible(n, low, s, t, best) && Value(n, best, s) == value;
    var least :| IsCut(n, s, t, least) && CutCapacity(n, low, least) == value;
    assert CutCapacity(n, high, side) == value;
    assert Feasible(n, high, s, t, best);
    forall f | Feasible(n, high, s, t, f)
      ensures Value(n, f, s) <= value
    {
      FlowBelowCut(n, high, s, t, f, side);
    }
    forall c | IsCut(n, s, t, c)
      ensures CutCapacity(n, high, c) >= value
    {
      FlowBelowCut(n, high, s, t, best, c);
    }
  }

  // ---------- Augmenting along a shortest path ----------

  /** `d` underestimates residual distances from `s`: no residual arc climbs more than one level. */
  predicate Labels(n: nat, res: Matrix, s: nat, d: seq<nat>)
    requires Square(n, res)
  {
    |d| == n && s < n && d[s] == 0
    && forall x, y :: 0 <= x < n && 0 <= y < n && res[x][y] > 0.0 ==> d[y] <= d[x] + 1
  }

  /** A residual path from `s` to `t` that climbs exactly one level per arc. */
  predicate LevelPath(n: nat, res: Matrix, s: nat, t: nat, d: seq<nat>, path: seq<nat>)
    requires Square(n, res) && |d| == n
  {
    && |path| >= 2 && path[0] == s && path[|path| - 1] == t
    && (forall i :: 0 <= i < |path| ==> path[i] < n && d[path[i]] == i)
    && (forall i :: 0 <= i < |path| - 1 ==> res[path[i]][path[i + 1]] > 0.0)
  }

  /** Moves `p` units of residual capacity from the arc (u, v) to its reverse. */
  function Push(n: nat, res: Matrix, u: nat, v: nat, p: real): (m: Matrix)
    requires Square(n, res) && u < n && v < n
    ensures Square(n, m)
  {
    var less := res[u := res[u][v := res[u][v] - p]];
    less[v := less[v][u := less[v][u] + p]]
  }

  /** The residual network after pushing along the arcs `i`, `i + 1`, ... of the path, the last arc first. */
  function Augmented(n: nat, res: Matrix, path: seq<nat>, i: nat, p: real): (m: Matrix)
    requires Square(n, res) && forall j :: 0 <= j < |path| ==> path[j] < n
    ensures Square(n, m)
    decreases |path| - i
  {
    if i + 1 >= |path| then res
    else Push(n, Augmented(n, res, path, i + 1, p), path[i], path[i + 1], p)
  }

  /** (x, y) is one of the path's arcs from number `i` on; the level of `x` tells which. */
  predicate OnPath(d: seq<nat>, path: seq<nat>, i: nat, x: nat, y: nat)
    requires x < |d|
  {
    i <= d[x] && d[x] + 1 < |path| && path[d[x]] == x && path[d[x] + 1] == y
  }

  lemma {:induction false} AugmentedEntry(n: nat, res: Matrix, s: nat, t: nat, d: seq<nat>, path: seq<nat>, i: nat, p: real, x: nat, y: nat)
    requires Square(n, res) && |d| == n && LevelPath(n, res, s, t, d, path) && x < n && y < n
    ensures Augmented(n, res, path, i, p)[x][y]
         == res[x][y] - (if OnPath(d, path, i, x, y) then p else 0.0) + (if OnPath(d, path, i, y, x) then p else 0.0)
    decreases |path| - i
  {
    if i + 1 < |path| {
      AugmentedEntry(n, res, s, t, d, path, i + 1, p, x, y);
      assert d[path[i]] == i && d[path[i + 1]] == i + 1;
    }
  }

  lemma OnPathClimbs(n: nat, res: Matrix, s: nat, t: nat, d: seq<nat>, path: seq<nat>, x: nat, y: nat)
    requires Square(n, res) && |d| == n && LevelPath(n, res, s, t, d, path) && x < n && y < n
    ensures OnPath(d, path, 0, x, y) ==> d[y] == d[x] + 1
  {
    if OnPath(d, path, 0, x, y) {
      assert d[path[d[x] + 1]] == d[x] + 1;
    }
  }

  lemma PushRow(n: nat, res: Matrix, u: nat, v: nat, p: real, x: nat)
    requires Square(n, res) && u < n && v < n && u != v && x < n
    ensures Row(n, At(n, Push(n, res, u, v, p)), x)
         == Row(n, At(n, res), x) - (if x == u then p else 0.0) + (if x == v then p else 0.0)
  {
    var f, g := At(n, res), At(n, Push(n, res, u, v, p));
    if x == u {
      SumChange(n, y => f(x, y), y => g(x, y), v);
    } else if x == v {
      SumChange(n, y => f(x, y), y => g(x, y), u);
    } else {
      SumExt(n, y => f(x, y), y => g(x, y));
    }
  }

  lemma {:induction false} AugmentedRow(n: nat, res: Matrix, s: nat, t: nat, d: seq<nat>, path: seq<nat>, i: nat, p: real, x: nat)
    requires Square(n, res) && |d| == n && LevelPath(n, res, s, t, d, path) && x < n && i < |path|
    ensures Row(n, At(n, Augmented(n, res, path, i, p)), x)
         == Row(n, At(n, res), x) - (if x == path[i] then p else 0.0) + (if x == t then p else 0.0)
    decreases |path| - i
  {
    if i + 1 < |path| {
      AugmentedRow(n, res, s, t, d, path, i + 1, p, x);
      assert d[path[i]] == i && d[path[i + 1]] == i + 1;
      PushRow(n, Augmented(n, res, path, i + 1, p), path[i], path[i + 1], p, x);
    }
  }

  /** Augmenting by no more than any arc holds keeps the residual invariant and adds to the value. */
  lemma AugmentKeepsResidual(n: nat, cap: Matrix, s: nat, t: nat, res: Matrix, value: real, d: seq<nat>, path: seq<nat>, p: real)
    requires Residual(n, cap, s, t, res, value) && Labels(n, res, s, d) && LevelPath(n, res, s, t, d, path) && s != t
    requires p > 0.0 && forall i :: 0 <= i < |path| - 1 ==> p <= res[path[i]][path[i + 1]]
    ensures Residual(n, cap, s, t, Augmented(n, res, path, 0, p), value + p)
  {
    var m := Augmented(n, res, path, 0, p);
    forall x, y | 0 <= x < n && 0 <= y < n
      ensures m[x][y] >= 0.0
    {
      AugmentedEntry(n, res, s, t, d, path, 0, p, x, y);
      assert OnPath(d, path, 0, x, y) ==> p <= res[path[d[x]]][path[d[x] + 1]];
    }
    forall x, y | 0 <= x < n && 0 <= y < n
      ensures m[x][y] + m[y][x] == cap[x][y] + cap[y][x]
    {
      AugmentedEntry(n, res, s, t, d, path, 0, p, x, y);
      AugmentedEntry(n, res, s, t, d, path, 0, p, y, x);
      assert res[x][y] + res[y][x] == cap[x][y] + cap[y][x];
    }
    forall x | 0 <= x < n
      ensures Row(n, At(n, m), x)
           == Row(n, At(n, res), x) - (if x == s then p else 0.0) + (if x == t then p else 0.0)
    {
      AugmentedRow(n, res, s, t, d, path, 0, p, x);
    }
  }

  /** Levels stay valid: the only new residual arcs lead one level down. */
  lemma AugmentKeepsLabels(n: nat, res: Matrix, s: nat, t: nat, d: seq<nat>, path: seq<nat>, p: real)
    requires Square(n, res) && Labels(n, res, s, d) && LevelPath(n, res, s, t, d, path) && p > 0.0
    ensures Labels(n, Augmented(n, res, path, 0, p), s, d)
  {
    var m := Augmented(n, res, path, 0, p);
    forall x, y | 0 <= x < n && 0 <= y < n && m[x][y] > 0.0
      ensures d[y] <= d[x] + 1
    {
      AugmentedEntry(n, res, s, t, d, path, 0, p, x, y);
      OnPathClimbs(n, res, s, t, d, path, y, x);
    }
  }

  // ---------- Distances ----------

  /** `v` is at most `k` residual arcs away from `s`. */
  ghost predicate Hops(n: nat, res: Matrix, s: nat, v: nat, k: nat)
    requires Square(n, res)
    decreases k
  {
    v < n && (v == s || (k > 0 && exists u: nat :: Hops(n, res, s, u, k - 1) && res[u][v] > 0.0))
  }

  lemma {:induction false} HopsMonotone(n: nat, res: Matrix, s: nat, v: nat, k: nat, l: nat)
    requires Square(n, res) && Hops(n, res, s, v, k) && k <= l
    ensures Hops(n, res, s, v, l)
    decreases k
  {
    if v != s {
      var u: nat :| Hops(n, res, s, u, k - 1) && res[u][v] > 0.0;
      HopsMonotone(n, res, s, u, k - 1, l - 1);
    }
  }

  /** Labels are lower bounds on distances. */
  lemma {:induction false} LabelsBelowHops(n: nat, res: Matrix, s: nat, d: seq<nat>, v: nat, k: nat)
    requires Square(n, res) && Labels(n, res, s, d) && Hops(n, res, s, v, k)
    ensures d[v] <= k
    decreases k
  {
    if v != s {
      var u: nat :| Hops(n, res, s, u, k - 1) && res[u][v] > 0.0;
      LabelsBelowHops(n, res, s, d, u, k - 1);
    }
  }

  lemma {:induction false} PathHops(n: nat, res: Matrix, s: nat, t: nat, d: seq<nat>, path: seq<nat>, i: nat)
    requires Square(n, res) && |d| == n && LevelPath(n, res, s, t, d, path) && i < |path|
    ensures Hops(n, res, s, path[i], i)
  {
    if i > 0 {
      PathHops(n, res, s, t, d, path, i - 1);
      assert res[path[i - 1]][path[i - 1 + 1]] > 0.0;
    }
  }

  /** No distance from the source ever decreases: whatever is near after augmenting was as near before. */
  lemma {:induction false} DistancesGrow(n: nat, res: Matrix, s: nat, t: nat, d: seq<nat>, path: seq<nat>, p: real, v: nat, k: nat)
    requires Square(n, res) && Labels(n, res, s, d) && LevelPath(n, res, s, t, d, path) && p > 0.0
    requires Hops(n, Augmented(n, res, path, 0, p), s, v, k)
    ensures Hops(n, res, s, v, k)
    decreases k
  {
    if v != s {
      var m := Augmented(n, res, path, 0, p);
      var u: nat :| Hops(n, m, s, u, k - 1) && m[u][v] > 0.0;
      DistancesGrow(n, res, s, t, d, path, p, u, k - 1);
      AugmentedEntry(n, res, s, t, d, path, 0, p, u, v);
      if OnPath(d, path, 0, v, u) {
        OnPathClimbs(n, res, s, t, d, path, v, u);
        LabelsBelowHops(n, res, s, d, u, k - 1);
        PathHops(n, res, s, t, d, path, d[v]);
        HopsMonotone(n, res, s, v, d[v], k);
      }
    }
  }

  /** No node is nearer to the source in `later` than in `res`. */
  ghost predicate NoCloser(n: nat, res: Matrix, later: Matrix, s: nat)
    requires Square(n, res) && Square(n, later)
  {
    forall v: nat, k: nat :: Hops(n, later, s, v, k) ==> Hops(n, res, s, v, k)
  }

  // ---------- Counting augmentations ----------

  /** Residual arcs that climb exactly one level. */
  function Tight(n: nat, res: Matrix, d: seq<nat>): set<(nat, nat)>
    requires Square(n, res) && |d| == n
  {
    set x: nat, y: nat | 0 <= x < n && 0 <= y < n && res[x][y] > 0.0 && d[y] == d[x] + 1 :: (x, y)
  }

  /** Emptying an arc of the path leaves strictly fewer tight arcs at the same levels. */
  lemma TightShrinks(n: nat, res: Matrix, s: nat, t: nat, d: seq<nat>, path: seq<nat>, p: real, i: nat)
    requires Square(n, res) && Labels(n, res, s, d) && LevelPath(n, res, s, t, d, path) && p > 0.0
    requires i + 1 < |path| && p == res[path[i]][path[i + 1]]
    ensures |Tight(n, Augmented(n, res, path, 0, p), d)| < |Tight(n, res, d)|
  {
    var m := Augmented(n, res, path, 0, p);
    var before, after := Tight(n, res, d), Tight(n, m, d);
    forall a | a in after
      ensures a in before
    {
      AugmentedEntry(n, res, s, t, d, path, 0, p, a.0, a.1);
      OnPathClimbs(n, res, s, t, d, path, a.1, a.0);
    }
    var gone := (path[i], path[i + 1]);
    assert d[path[i]] == i && d[path[i + 1]] == i + 1;
    AugmentedEntry(n, res, s, t, d, path, 0, p, path[i], path[i + 1]);
    assert gone in before - after;
    SubsetSize(after, before - {gone});
  }

  /** Ordered pairs with capacity. */
  function CapArcs(n: nat, cap: Matrix): set<(nat, nat)>
    requires Square(n, cap)
  {
    set x: nat, y: nat | 0 <= x < n && 0 <= y < n && cap[x][y] > 0.0 :: (x, y)
  }

  /** There are never more tight arcs than pairs with capacity. */
  lemma TightBound(n: nat, cap: Matrix, s: nat, t: nat, res: Matrix, value: real, d: seq<nat>)
    requires Residual(n, cap, s, t, res, value) && |d| == n
    ensures |Tight(n, res, d)| <= |CapArcs(n, cap)|
  {
    var tight, arcs := Tight(n, res, d), CapArcs(n, cap);
    forall a | a in tight
      ensures (a in arcs || (a.1, a.0) in arcs) && (a.1, a.0) !in tight
    {
      assert res[a.0][a.1] + res[a.1][a.0] == cap[a.0][a.1] + cap[a.1][a.0];
    }
    OneDirection(tight, arcs);
  }

  lemma {:induction false} OneDirection(tight: set<(nat, nat)>, arcs: set<(nat, nat)>)
    requires forall a <- tight :: (a in arcs || (a.1, a.0) in arcs) && (a.1, a.0) !in tight
    ensures |tight| <= |arcs|
  {
    if tight != {} {
      var a :| a in tight;
      var b := if a in arcs then a else (a.1, a.0);
      OneDirection(tight - {a}, arcs - {b});
    }
  }

  /** Valid labels that give the sink the path's length agree with the path everywhere on it. */
  lemma SameLevels(n: nat, res: Matrix, s: nat, t: nat, d: seq<nat>, d': seq<nat>, path: seq<nat>)
    requires Square(n, res) && Labels(n, res, s, d) && Labels(n, res, s, d') && LevelPath(n, res, s, t, d', path)
    ensures d[t] <= d'[t]
    ensures d[t] == d'[t] ==> LevelPath(n, res, s, t, d, path)
  {
    forall i | 0 <= i < |path|
      ensures d[path[i]] <= i && d[t] <= d[path[i]] + (|path| - 1 - i)
    {
      PathHops(n, res, s, t, d', path, i);
      LabelsBelowHops(n, res, s, d, path[i], i);
      LevelsToEnd(n, res, s, t, d, d', path, i);
    }
    assert d'[path[|path| - 1]] == |path| - 1;
  }

  lemma {:induction false} LevelsToEnd(n: nat, res: Matrix, s: nat, t: nat, d: seq<nat>, d': seq<nat>, path: seq<nat>, i: nat)
    requires Square(n, res) && Labels(n, res, s, d) && |d'| == n && LevelPath(n, res, s, t, d', path) && i < |path|
    ensures d[t] <= d[path[i]] + (|path| - 1 - i)
    decreases |path| - i
  {
    if i + 1 < |path| {
      LevelsToEnd(n, res, s, t, d, d', path, i + 1);
      assert res[path[i]][path[i + 1]] > 0.0;
    }
  }

  /** The budget of augmentations: E per level reached so far plus E for the current one, less its tight arcs. */
  ghost predicate WithinBudget(n: nat, cap: Matrix, t: nat, res: Matrix, d: seq<nat>, count: nat)
    requires Square(n, cap) && Square(n, res) && |d| == n && t < n
  {
    count <= d[t] * |CapArcs(n, cap)| + |CapArcs(n, cap)| - |Tight(n, res, d)|
  }

  /** Moving to labels with a farther sink keeps the budget. */
  lemma BudgetNextPhase(n: nat, cap: Matrix, s: nat, t: nat, res: Matrix, value: real, d: seq<nat>, d': seq<nat>, count: nat)
    requires Residual(n, cap, s, t, res, value) && |d| == |d'| == n && d[t] < d'[t]
    requires WithinBudget(n, cap, t, res, d, count)
    ensures WithinBudget(n, cap, t, res, d', count)
  {
    var e := |CapArcs(n, cap)|;
    TightBound(n, cap, s, t, res, value, d');
    MulMonotone(d[t] + 1, d'[t], e);
  }

  lemma {:induction false} MulMonotone(a: nat, b: nat, c: nat)
    requires a <= b
    ensures a * c <= b * c
  {
    if a < b {
      MulMonotone(a, b - 1, c);
      assert b * c == (b - 1) * c + c;
    }
  }

  lemma BudgetTotal(n: nat, cap: Matrix, t: nat, res: Matrix, d: seq<nat>, count: nat)
    requires Square(n, cap) && Square(n, res) && |d| == n && t < n && d[t] < n && WithinBudget(n, cap, t, res, d, count)
    ensures count <= n * |CapArcs(n, cap)|
  {
    MulMonotone(d[t] + 1, n, |CapArcs(n, cap)|);
  }

  /** One augmentation: the invariant of the whole run is kept, the distances do not shrink, and either
      the sink's level rose or the tight arcs became fewer. */
  lemma AugmentStep(n: nat, cap: Matrix, s: nat, t: nat, res: Matrix, value: real, d: seq<nat>, count: nat,
                    found: seq<nat>, path: seq<nat>, p: real, least: nat) returns (d': seq<nat>)
    requires Residual(n, cap, s, t, res, value) && s != t && Labels(n, res, s, d) && WithinBudget(n, cap, t, res, d, count)
    requires Labels(n, res, s, found) && LevelPath(n, res, s, t, found, path)
    requires p > 0.0 && forall i :: 0 <= i < |path| - 1 ==> p <= res[path[i]][path[i + 1]]
    requires least + 1 < |path| && p == res[path[least]][path[least + 1]]
    ensures forall j :: 0 <= j < |path| ==> path[j] < n
    ensures var res' := Augmented(n, res, path, 0, p);
            && Residual(n, cap, s, t, res', value + p) && Labels(n, res', s, d')
            && WithinBudget(n, cap, t, res', d', count + 1)
            && |d'| == n && d'[t] == found[t]
            && (d'[t] > d[t] || (d' == d && |Tight(n, res', d')| < |Tight(n, res, d)|))
            && NoCloser(n, res, res', s)
  {
    SameLevels(n, res, s, t, d, found, path);
    d' := d;
    if d[t] < found[t] {
      BudgetNextPhase(n, cap, s, t, res, value, d, found, count);
      d' := found;
    }
    AugmentKeepsResidual(n, cap, s, t, res, value, d', path, p);
    AugmentKeepsLabels(n, res, s, t, d', path, p);
    TightShrinks(n, res, s, t, d', path, p, least);
    forall v: nat, k: nat | Hops(n, Augmented(n, res, path, 0, p), s, v, k)
      ensures Hops(n, res, s, v, k)
    {
      DistancesGrow(n, res, s, t, d', path, p, v, k);
    }
  }
}
