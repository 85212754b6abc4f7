/** Counting shortest paths: sets of walks, how they split at a node, and Brandes' dependency recurrence. */
module PathCounts {
  import opened Digraphs
  import opened Sums

  // ---------- Walks of a given length ----------

  /** All walks with `k` arcs from `s` to `t`, as node sequences. */
  ghost function Walks(d: Digraph, s: nat, t: nat, k: nat): set<seq<nat>>
    decreases k
  {
    if k == 0 then
      if s == t && s < |d| then {[s]} else {}
    else
      set v, p | 0 <= v < |d| && p in Walks(d, s, v, k - 1) && Arc(d, v, t) :: p + [t]
  }

  lemma {:induction false} WalksAre(d: Digraph, s: nat, t: nat, k: nat, p: seq<nat>)
    ensures p in Walks(d, s, t, k) <==> |p| == k + 1 && WalkFromTo(d, p, s, t)
    decreases k
  {
    if k > 0 {
      if p in Walks(d, s, t, k) {
        var v, q :| 0 <= v < |d| && q in Walks(d, s, v, k - 1) && Arc(d, v, t) && p == q + [t];
        WalksAre(d, s, v, k - 1, q);
      }
      if |p| == k + 1 && WalkFromTo(d, p, s, t) {
        var q := p[..k];
        assert Arc(d, p[k - 1], p[k - 1 + 1]);
        WalksAre(d, s, p[k - 1], k - 1, q);
        assert p == q + [t];
      }
    } else if |p| == 1 && WalkFromTo(d, p, s, t) {
      assert p == [s];
    }
  }

  /** The walks that stand at `v` after `i` arcs. */
  ghost function Fiber(walks: set<seq<nat>>, i: nat, v: nat): set<seq<nat>> {
    set p | p in walks && i < |p| && p[i] == v
  }

  ghost function Size(walks: set<seq<nat>>): real {
    |walks| as real
  }

  ghost function FiberSizes(walks: set<seq<nat>>, i: nat): int -> real {
    v => if v >= 0 then Size(Fiber(walks, i, v)) else 0.0
  }

  lemma FiberRest(walks: set<seq<nat>>, i: nat, u: nat)
    ensures Size(walks) == Size(walks - Fiber(walks, i, u)) + FiberSizes(walks, i)(u)
    ensures forall p <- walks - Fiber(walks, i, u) :: i < |p| ==> p[i] != u
    ensures forall v :: v != u ==> FiberSizes(walks - Fiber(walks, i, u), i)(v) == FiberSizes(walks, i)(v)
  {
    var here := Fiber(walks, i, u);
    assert |walks| == |walks - here| + |here|;
    forall v | v != u && v >= 0
      ensures Fiber(walks - here, i, v) == Fiber(walks, i, v)
    {
    }
  }

  /** Every walk stands, after `i` arcs, at a node below `n`. */
  ghost predicate StandBelow(walks: set<seq<nat>>, i: nat, n: nat) {
    forall p <- walks :: i < |p| && p[i] < n
  }

  lemma StandRest(walks: set<seq<nat>>, i: nat, n: nat)
    requires StandBelow(walks, i, n)
    ensures n == 0 ==> walks == {}
    ensures n > 0 ==> StandBelow(walks - Fiber(walks, i, n - 1), i, n - 1)
  {
  }

  /** Every walk stands at exactly one node after `i` arcs. */
  lemma {:induction false} FiberSum(walks: set<seq<nat>>, i: nat, n: nat)
    requires StandBelow(walks, i, n)
    ensures Size(walks) == Sum(n, FiberSizes(walks, i))
  {
    hide StandBelow, FiberSizes;
    StandRest(walks, i, n);
    if n > 0 {
      var rest := walks - Fiber(walks, i, n - 1);
      FiberRest(walks, i, n - 1);
      SumLast(n, FiberSizes(walks, i));
      FiberSum(rest, i, n - 1);
      SumExt(n - 1, FiberSizes(rest, i), FiberSizes(walks, i));
    }
  }

  /** All ways to go on from a walk that ends where the second ones start. */
  ghost function Joins(first: set<seq<nat>>, second: set<seq<nat>>): set<seq<nat>> {
    set p, q | p in first && q in second && |q| > 0 :: p + q[1..]
  }

  lemma SameContinuation(p: seq<nat>, q: seq<nat>, q': seq<nat>)
    requires |q| > 0 && |q'| > 0 && q[0] == q'[0] && p + q[1..] == p + q'[1..]
    ensures q == q'
  {
    assert q[1..] == (p + q[1..])[|p|..] && q'[1..] == (p + q'[1..])[|p|..];
    assert q == [q[0]] + q[1..] && q' == [q'[0]] + q'[1..];
  }

  lemma {:induction false} JoinOne(p: seq<nat>, second: set<seq<nat>>, v: nat)
    requires forall q <- second :: |q| > 0 && q[0] == v
    ensures |Joins({p}, second)| == |second|
  {
    if second == {} {
      assert Joins({p}, second) == {};
    } else {
      var q :| q in second;
      var r := p + q[1..];
      JoinOne(p, second - {q}, v);
      assert Joins({p}, second) == Joins({p}, second - {q}) + {r};
      assert r !in Joins({p}, second - {q}) by {
        forall q' | q' in second - {q}
          ensures p + q'[1..] != r
        {
          if p + q'[1..] == r {
            SameContinuation(p, q, q');
          }
        }
      }
    }
  }

  lemma JoinsSplit(first: set<seq<nat>>, second: set<seq<nat>>, len: nat, p: seq<nat>)
    requires p in first && forall q <- first :: |q| == len
    ensures Joins(first, second) == Joins({p}, second) + Joins(first - {p}, second)
    ensures Joins({p}, second) !! Joins(first - {p}, second)
  {
    forall r | r in Joins(first, second)
      ensures r in Joins({p}, second) || r in Joins(first - {p}, second)
    {
      var p', q' :| p' in first && q' in second && |q'| > 0 && r == p' + q'[1..];
      assert p' == p || p' in first - {p};
    }
    forall r | r in Joins({p}, second)
      ensures r !in Joins(first - {p}, second)
    {
      assert r[..len] == p;
      forall p', q' | p' in first - {p} && q' in second && |q'| > 0
        ensures r != p' + q'[1..]
      {
        assert (p' + q'[1..])[..len] == p';
      }
    }
  }

  lemma {:induction false} JoinsSize(first: set<seq<nat>>, second: set<seq<nat>>, len: nat, v: nat)
    requires forall p <- first :: |p| == len
    requires forall q <- second :: |q| > 0 && q[0] == v
    ensures |Joins(first, second)| == |first| * |second|
  {
    if first == {} {
      assert Joins(first, second) == {};
    } else {
      var p :| p in first;
      JoinsSize(first - {p}, second, len, v);
      JoinsStep(first, second, len, v, p);
    }
  }

  lemma JoinsStep(first: set<seq<nat>>, second: set<seq<nat>>, len: nat, v: nat, p: seq<nat>)
    requires p in first && forall q <- first :: |q| == len
    requires forall q <- second :: |q| > 0 && q[0] == v
    requires |Joins(first - {p}, second)| == |first - {p}| * |second|
    ensures |Joins(first, second)| == |first| * |second|
  {
    hide Joins;
    JoinOne(p, second, v);
    JoinsSplit(first, second, len, p);
    assert |Joins(first, second)| == |Joins({p}, second)| + |Joins(first - {p}, second)|;
    OneMore(|first - {p}|, |second|);
  }

  lemma OneMore(a: nat, b: nat)
    ensures (a + 1) * b == a * b + b
  {
  }

  /** Walks standing at `v` after `i` arcs are the walks to `v` continued by the walks from `v`. */
  lemma FiberProduct(d: Digraph, s: nat, t: nat, k: nat, i: nat, v: nat)
    requires i <= k
    ensures |Fiber(Walks(d, s, t, k), i, v)| == |Walks(d, s, v, i)| * |Walks(d, v, t, k - i)|
  {
    hide Walks;
    var first, second := Walks(d, s, v, i), Walks(d, v, t, k - i);
    forall p | p in first
      ensures |p| == i + 1
    {
      WalksAre(d, s, v, i, p);
    }
    forall q | q in second
      ensures |q| > 0 && q[0] == v
    {
      WalksAre(d, v, t, k - i, q);
    }
    JoinsSize(first, second, i + 1, v);
    forall r | r in Fiber(Walks(d, s, t, k), i, v)
      ensures r in Joins(first, second)
    {
      SplitWalk(d, s, t, k, i, r);
      assert r == r[..i + 1] + r[i..][1..];
    }
    forall r | r in Joins(first, second)
      ensures r in Fiber(Walks(d, s, t, k), i, v)
    {
      var p, q :| p in first && q in second && |q| > 0 && r == p + q[1..];
      JoinWalks(d, s, v, t, i, k - i, p, q);
    }
    assert Fiber(Walks(d, s, t, k), i, v) == Joins(first, second);
  }

  lemma SplitWalk(d: Digraph, s: nat, t: nat, k: nat, i: nat, r: seq<nat>)
    requires r in Walks(d, s, t, k) && i <= k
    ensures |r| == k + 1 && r[i] < |d| && r[..i + 1] in Walks(d, s, r[i], i) && r[i..] in Walks(d, r[i], t, k - i)
  {
    WalksAre(d, s, t, k, r);
    WalkInside(d, r, i);
    WalksAre(d, s, r[i], i, r[..i + 1]);
    var q := r[i..];
    forall j | 0 <= j < |q| - 1
      ensures Arc(d, q[j], q[j + 1])
    {
      assert q[j] == r[i + j] && q[j + 1] == r[i + j + 1];
    }
    WalksAre(d, r[i], t, k - i, q);
  }

  lemma WalkInside(d: Digraph, r: seq<nat>, i: nat)
    requires IsWalk(d, r) && i < |r|
    ensures r[i] < |d|
  {
    if i > 0 {
      assert Arc(d, r[i - 1], r[i - 1 + 1]);
    }
  }

  lemma JoinWalks(d: Digraph, s: nat, v: nat, t: nat, i: nat, j: nat, p: seq<nat>, q: seq<nat>)
    requires p in Walks(d, s, v, i) && q in Walks(d, v, t, j)
    ensures |p| == i + 1 && |q| == j + 1 && p + q[1..] in Fiber(Walks(d, s, t, i + j), i, v)
  {
    WalksAre(d, s, v, i, p);
    WalksAre(d, v, t, j, q);
    var r := p + q[1..];
    forall a | 0 <= a < |r| - 1
      ensures Arc(d, r[a], r[a + 1])
    {
      if a >= i {
        assert r[a] == q[a - i] && r[a + 1] == q[a - i + 1];
      }
    }
    WalksAre(d, s, t, i + j, r);
  }

  lemma OneArc(d: Digraph, u: nat, v: nat)
    ensures |Walks(d, u, v, 1)| == if Arc(d, u, v) then 1 else 0
  {
    forall p | p in Walks(d, u, v, 1)
      ensures p == [u, v] && Arc(d, u, v)
    {
      WalksAre(d, u, v, 1, p);
      assert Arc(d, p[0], p[0 + 1]);
    }
    if Arc(d, u, v) {
      WalksAre(d, u, v, 1, [u, v]);
      assert Walks(d, u, v, 1) == {[u, v]};
    } else {
      assert Walks(d, u, v, 1) == {};
    }
  }

  ghost function Count(d: Digraph, s: int, t: int, k: int): real {
    if s >= 0 && t >= 0 && k >= 0 then Size(Walks(d, s, t, k)) else 0.0
  }

  /** For each node: walks to it with `i` arcs times walks from it with the remaining ones. */
  ghost function Products(d: Digraph, s: nat, t: nat, k: nat, i: nat): int -> real {
    v => Count(d, s, v, i) * Count(d, v, t, k - i)
  }

  /** Walks counted by the node they visit after `i` arcs. */
  lemma CountThrough(d: Digraph, s: nat, t: nat, k: nat, i: nat)
    requires i <= k
    ensures Count(d, s, t, k) == Sum(|d|, Products(d, s, t, k, i))
  {
    hide Walks, Fiber;
    var walks := Walks(d, s, t, k);
    forall p | p in walks
      ensures i < |p| && p[i] < |d|
    {
      SplitWalk(d, s, t, k, i, p);
    }
    FiberSum(walks, i, |d|);
    forall v | 0 <= v < |d|
      ensures FiberSizes(walks, i)(v) == Products(d, s, t, k, i)(v)
    {
      FiberProduct(d, s, t, k, i, v);
    }
    SumExt(|d|, FiberSizes(walks, i), Products(d, s, t, k, i));
  }
}
