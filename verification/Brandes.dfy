/** Brandes' betweenness algorithm: per-source breadth-first counting and backward accumulation. */
module Brandes {
  import opened Digraphs
  import opened PropertyGraphs
  import opened Sums
  import opened PathCounts
  import opened Betweenness

  /** No adjacency list names another node twice; an undirected self-loop names its own node twice. */
  predicate NoParallel(d: Digraph) {
    forall u, i, j :: 0 <= u < |d| && 0 <= i < j < |d[u]| && d[u][i] == d[u][j] ==> d[u][i] == u
  }

  /** The largest value of the code's path counters. */
  const INT_MAX := 0x7fff_ffff

  /** Some counter is larger than the code's integers. */
  predicate Exceeds(sig: seq<nat>) {
    exists v :: 0 <= v < |sig| && sig[v] > INT_MAX
  }

  // ---------- Forward search: invariant ----------

  /** The search has looked at the arc (v, w): `v` is expanded, or is being expanded and `w` is among the
      first `k` entries of its list. */
  ghost predicate Seen(d: Digraph, q: seq<nat>, done: nat, k: nat, v: nat, w: nat) {
    (exists i :: 0 <= i < done && i < |q| && q[i] == v && v < |d| && w in d[v])
    || (done < |q| && v == q[done] && v < |d| && exists j :: 0 <= j < k && j < |d[v]| && d[v][j] == w)
  }

  /** Levels and queue: `done` nodes of the queue are expanded. */
  ghost predicate Frontier(d: Digraph, s: nat, dist: seq<int>, q: seq<nat>, done: nat, k: nat) {
    && |dist| == |d| && s < |d| && dist[s] == 0 && done <= |q|
    && (if done < |q| then q[done] < |d| && k <= |d[q[done]]| else k == 0)
    && (forall i :: 0 <= i < |q| ==> q[i] < |d| && dist[q[i]] >= 0)
    && (forall v {:trigger v in q} :: 0 <= v < |d| && dist[v] >= 0 ==> v in q)
    && (forall i, j :: 0 <= i < j < |q| ==> q[i] != q[j] && dist[q[i]] <= dist[q[j]])
    && (done < |q| ==> forall j :: 0 <= j < |q| ==> dist[q[j]] <= dist[q[done]] + 1)
    && (forall v, w {:trigger Seen(d, q, done, k, v, w)} ::
          0 <= v < |d| && 0 <= w < |d| && Seen(d, q, done, k, v, w) ==> 0 <= dist[w] <= dist[v] + 1)
    && (forall w {:trigger HasParent(d, dist, w)} :: 0 <= w < |d| && w != s && dist[w] >= 0 ==> HasParent(d, dist, w))
  }

  function SumSeq(list: seq<nat>, sig: seq<nat>): nat
    requires forall i :: 0 <= i < |list| ==> list[i] < |sig|
  {
    if list == [] then 0 else SumSeq(list[..|list| - 1], sig) + sig[list[|list| - 1]]
  }

  /** The predecessor lists hold the level-climbing arcs seen so far, and the counts add up along them. */
  ghost predicate Tally(d: Digraph, s: nat, sig: seq<nat>, dist: seq<int>, pred: seq<seq<nat>>, q: seq<nat>, done: nat, k: nat) {
    && |sig| == |pred| == |dist| == |d|
    && (forall w {:trigger ListOk(d, s, sig, dist, pred[w], q, done, k, w)} ::
          0 <= w < |d| ==> ListOk(d, s, sig, dist, pred[w], q, done, k, w))
  }

  ghost predicate ListOk(d: Digraph, s: nat, sig: seq<nat>, dist: seq<int>, list: seq<nat>, q: seq<nat>, done: nat, k: nat, w: nat)
    requires |sig| == |dist| == |d| && w < |d|
  {
    && (forall i :: 0 <= i < |list| ==> list[i] < |sig|)
    && (forall i, j :: 0 <= i < j < |list| ==> list[i] != list[j])
    && (forall v {:trigger v in list} {:trigger Seen(d, q, done, k, v, w)} ::
          0 <= v < |d| ==> (v in list <==> Seen(d, q, done, k, v, w) && DagArc(d, dist, v, w)))
    && sig[w] == (if w == s then 1 else 0) + SumSeq(list, sig)
  }

  lemma {:induction false} SumSeqFrame(list: seq<nat>, sig: seq<nat>, sig': seq<nat>)
    requires |sig'| == |sig| && forall i :: 0 <= i < |list| ==> list[i] < |sig| && sig'[list[i]] == sig[list[i]]
    ensures SumSeq(list, sig') == SumSeq(list, sig)
  {
    if list != [] {
      SumSeqFrame(list[..|list| - 1], sig, sig');
    }
  }

  // ---------- Forward search: steps ----------

  lemma StartSearch(d: Digraph, s: nat, sig: seq<nat>, dist: seq<int>, pred: seq<seq<nat>>)
    requires s < |d| == |sig| == |dist| == |pred|
    requires forall v :: 0 <= v < |d| ==> dist[v] == (if v == s then 0 else -1) && sig[v] == (if v == s then 1 else 0) && pred[v] == []
    ensures Frontier(d, s, dist, [s], 0, 0) && Tally(d, s, sig, dist, pred, [s], 0, 0)
  {
  }

  /** Discovering `w` from the node being expanded. */
  lemma DiscoverFrontier(d: Digraph, s: nat, dist: seq<int>, q: seq<nat>, done: nat, k: nat, w: nat)
    requires IsDigraph(d) && Frontier(d, s, dist, q, done, k) && done < |q| && k < |d[q[done]]| && w == d[q[done]][k]
    requires dist[w] < 0
    ensures Frontier(d, s, dist[w := dist[q[done]] + 1], q + [w], done, k)
    ensures |q| < |d| && dist[q[done]] >= 0
  {
    hide Seen, HasParent;
    var u := q[done];
    var dist', q' := dist[w := dist[u] + 1], q + [w];
    DiscoverQueue(d, dist, q, done, w);
    forall v | 0 <= v < |d| && dist'[v] >= 0
      ensures v in q'
    {
      assert v != w ==> v in q;
      assert q'[|q|] == w;
    }
    forall a, b | 0 <= a < |d| && 0 <= b < |d| && Seen(d, q', done, k, a, b)
      ensures 0 <= dist'[b] <= dist'[a] + 1
    {
      SeenSame(d, q, w, done, k, a, b);
    }
    forall x | 0 <= x < |d| && x != s && dist'[x] >= 0
      ensures HasParent(d, dist', x)
    {
      assert x != w ==> HasParent(d, dist, x);
      ParentStays(d, dist, u, w, x);
    }
    DistinctFits(q', |d|);
  }

  lemma ParentStays(d: Digraph, dist: seq<int>, u: nat, w: nat, x: nat)
    requires |dist| == |d| && u < |d| && w < |d| && x < |d| && Arc(d, u, w) && dist[u] >= 0 && dist[w] < 0
    requires x != w ==> HasParent(d, dist, x)
    ensures HasParent(d, dist[w := dist[u] + 1], x)
  {
    var dist' := dist[w := dist[u] + 1];
    if x == w {
      assert DagArc(d, dist', u, w);
    } else {
      var v :| DagArc(d, dist, v, x);
      assert DagArc(d, dist', v, x);
    }
  }

  lemma DiscoverQueue(d: Digraph, dist: seq<int>, q: seq<nat>, done: nat, w: nat)
    requires |dist| == |d| && done < |q| && w < |d| && dist[w] < 0
    requires forall i :: 0 <= i < |q| ==> q[i] < |d| && dist[q[i]] >= 0
    requires forall i, j :: 0 <= i < j < |q| ==> q[i] != q[j] && dist[q[i]] <= dist[q[j]]
    requires forall j :: 0 <= j < |q| ==> dist[q[j]] <= dist[q[done]] + 1
    ensures var dist', q' := dist[w := dist[q[done]] + 1], q + [w];
            && (forall i :: 0 <= i < |q'| ==> q'[i] < |d| && dist'[q'[i]] >= 0)
            && (forall i, j :: 0 <= i < j < |q'| ==> q'[i] != q'[j] && dist'[q'[i]] <= dist'[q'[j]])
            && (forall j :: 0 <= j < |q'| ==> dist'[q'[j]] <= dist'[q'[done]] + 1)
  {
  }

  lemma SeenSame(d: Digraph, q: seq<nat>, x: nat, done: nat, k: nat, v: nat, w: nat)
    requires done < |q|
    ensures Seen(d, q + [x], done, k, v, w) <==> Seen(d, q, done, k, v, w)
  {
    var q' := q + [x];
    assert q'[done] == q[done];
    if i :| 0 <= i < done && i < |q| && q[i] == v && v < |d| && w in d[v] {
      assert q'[i] == v;
    }
    if i :| 0 <= i < done && i < |q'| && q'[i] == v && v < |d| && w in d[v] {
      assert q[i] == v;
    }
  }

  lemma DiscoverTally(d: Digraph, s: nat, sig: seq<nat>, dist: seq<int>, pred: seq<seq<nat>>, q: seq<nat>, done: nat, k: nat, w: nat)
    requires Frontier(d, s, dist, q, done, k) && Tally(d, s, sig, dist, pred, q, done, k) && done < |q| && w < |d| && dist[w] < 0
    ensures Tally(d, s, sig, dist[w := dist[q[done]] + 1], pred, q + [w], done, k)
  {
    var dist' := dist[w := dist[q[done]] + 1];
    forall x | 0 <= x < |d|
      ensures ListOk(d, s, sig, dist', pred[x], q + [w], done, k, x)
    {
      assert ListOk(d, s, sig, dist, pred[x], q, done, k, x);
      forall v | 0 <= v < |d|
        ensures v in pred[x] <==> Seen(d, q + [w], done, k, v, x) && DagArc(d, dist', v, x)
      {
        SeenSame(d, q, w, done, k, v, x);
        SeenIsReached(d, s, dist, q, done, k, v, x);
      }
    }
  }

  lemma SeenIsReached(d: Digraph, s: nat, dist: seq<int>, q: seq<nat>, done: nat, k: nat, v: nat, x: nat)
    requires Frontier(d, s, dist, q, done, k) && v < |d| && x < |d|
    ensures Seen(d, q, done, k, v, x) ==> dist[v] >= 0 && dist[x] >= 0
  {
  }

  /** Looking at entry `k`: it counts when it climbs one level. */
  lemma CreditStep(d: Digraph, s: nat, sig: seq<nat>, dist: seq<int>, pred: seq<seq<nat>>, q: seq<nat>, done: nat, k: nat)
    requires IsDigraph(d) && NoParallel(d) && Frontier(d, s, dist, q, done, k) && Tally(d, s, sig, dist, pred, q, done, k)
    requires done < |q| && k < |d[q[done]]| && dist[d[q[done]][k]] >= 0
    ensures Frontier(d, s, dist, q, done, k + 1)
    ensures var u, w := q[done], d[q[done]][k];
            if dist[w] == dist[u] + 1
            then Tally(d, s, sig[w := sig[w] + sig[u]], dist, pred[w := pred[w] + [u]], q, done, k + 1) && |pred[w]| < |d|
            else Tally(d, s, sig, dist, pred, q, done, k + 1)
  {
    var u := q[done];
    var w := d[u][k];
    forall a, b | 0 <= a < |d| && 0 <= b < |d| && Seen(d, q, done, k + 1, a, b)
      ensures 0 <= dist[b] <= dist[a] + 1
    {
      SeenNext(d, q, done, k, a, b);
      if a == u && b == w {
        assert w in q;
      }
    }
    if dist[w] == dist[u] + 1 {
      CreditTally(d, s, sig, dist, pred, q, done, k);
    } else {
      forall x | 0 <= x < |d|
        ensures ListOk(d, s, sig, dist, pred[x], q, done, k + 1, x)
      {
        assert ListOk(d, s, sig, dist, pred[x], q, done, k, x);
        forall v | 0 <= v < |d|
          ensures Seen(d, q, done, k + 1, v, x) && DagArc(d, dist, v, x) <==> Seen(d, q, done, k, v, x) && DagArc(d, dist, v, x)
        {
          SeenNext(d, q, done, k, v, x);
        }
      }
    }
  }

  lemma SeenNext(d: Digraph, q: seq<nat>, done: nat, k: nat, v: nat, x: nat)
    requires done < |q| && q[done] < |d| && k < |d[q[done]]|
    ensures Seen(d, q, done, k + 1, v, x) <==> Seen(d, q, done, k, v, x) || (v == q[done] && x == d[q[done]][k])
  {
  }

  lemma CreditTally(d: Digraph, s: nat, sig: seq<nat>, dist: seq<int>, pred: seq<seq<nat>>, q: seq<nat>, done: nat, k: nat)
    requires IsDigraph(d) && NoParallel(d) && Frontier(d, s, dist, q, done, k) && Tally(d, s, sig, dist, pred, q, done, k)
    requires done < |q| && k < |d[q[done]]| && dist[d[q[done]][k]] == dist[q[done]] + 1
    ensures var u, w := q[done], d[q[done]][k];
            Tally(d, s, sig[w := sig[w] + sig[u]], dist, pred[w := pred[w] + [u]], q, done, k + 1) && |pred[w]| < |d|
  {
    var u := q[done];
    var w := d[u][k];
    var sig', pred' := sig[w := sig[w] + sig[u]], pred[w := pred[w] + [u]];
    assert !Seen(d, q, done, k, u, w);
    forall x | 0 <= x < |d|
      ensures ListOk(d, s, sig', dist, pred'[x], q, done, k + 1, x)
    {
      assert ListOk(d, s, sig, dist, pred[x], q, done, k, x);
      CreditList(d, s, sig, dist, pred[x], q, done, k, u, w, x);
    }
    assert ListOk(d, s, sig', dist, pred'[w], q, done, k + 1, w);
    DistinctFits(pred'[w], |d|);
  }

  lemma CreditList(d: Digraph, s: nat, sig: seq<nat>, dist: seq<int>, list: seq<nat>, q: seq<nat>, done: nat, k: nat, u: nat, w: nat, x: nat)
    requires |sig| == |dist| == |d| && x < |d| && Frontier(d, s, dist, q, done, k) && ListOk(d, s, sig, dist, list, q, done, k, x)
    requires done < |q| && u == q[done] && u < |d| && k < |d[u]| && w == d[u][k] && DagArc(d, dist, u, w)
    requires !Seen(d, q, done, k, u, w)
    ensures ListOk(d, s, sig[w := sig[w] + sig[u]], dist, if x == w then list + [u] else list, q, done, k + 1, x)
  {
    assert dist[w] == dist[u] + 1;
    hide Frontier, Seen, DagArc, SumSeq;
    CreditMembers(d, s, sig, dist, list, q, done, k, x);
    ListAvoids(d, s, sig, dist, list, q, done, k, w, x);
    CreditSum(sig, list, u, w, x, if x == s then 1 else 0);
  }

  /** Members of a predecessor list lie no deeper than the node being expanded. */
  lemma ListAvoids(d: Digraph, s: nat, sig: seq<nat>, dist: seq<int>, list: seq<nat>, q: seq<nat>, done: nat, k: nat, w: nat, x: nat)
    requires |sig| == |dist| == |d| && x < |d| && Frontier(d, s, dist, q, done, k) && ListOk(d, s, sig, dist, list, q, done, k, x)
    requires done < |q| && w < |d| && q[done] < |d| && dist[w] > dist[q[done]]
    ensures forall i :: 0 <= i < |list| ==> list[i] < |sig| && list[i] != w
  {
    hide Frontier, Seen, DagArc, SumSeq;
    forall i | 0 <= i < |list|
      ensures list[i] != w
    {
      assert list[i] in list;
      SeenLow(d, s, dist, q, done, k, list[i], x);
    }
  }

  lemma CreditSum(sig: seq<nat>, list: seq<nat>, u: nat, w: nat, x: nat, base: nat)
    requires u < |sig| && w < |sig| && x < |sig| && u != w
    requires forall i :: 0 <= i < |list| ==> list[i] < |sig| && list[i] != w
    requires sig[x] == base + SumSeq(list, sig)
    ensures var sig', list' := sig[w := sig[w] + sig[u]], if x == w then list + [u] else list;
            sig'[x] == base + SumSeq(list', sig')
  {
    var sig' := sig[w := sig[w] + sig[u]];
    SumSeqFrame(list, sig, sig');
    if x == w {
      assert (list + [u])[..|list|] == list;
    }
  }

  lemma CreditMembers(d: Digraph, s: nat, sig: seq<nat>, dist: seq<int>, list: seq<nat>, q: seq<nat>, done: nat, k: nat, x: nat)
    requires |sig| == |dist| == |d| && x < |d| && ListOk(d, s, sig, dist, list, q, done, k, x)
    requires done < |q| && q[done] < |d| && k < |d[q[done]]| && DagArc(d, dist, q[done], d[q[done]][k])
    requires !Seen(d, q, done, k, q[done], d[q[done]][k])
    ensures var list' := if x == d[q[done]][k] then list + [q[done]] else list;
            && (forall v {:trigger v in list'} {:trigger Seen(d, q, done, k + 1, v, x)} ::
                  0 <= v < |d| ==> (v in list' <==> Seen(d, q, done, k + 1, v, x) && DagArc(d, dist, v, x)))
            && (forall i, j :: 0 <= i < j < |list'| ==> list'[i] != list'[j])
  {
    hide Seen, DagArc;
    var list' := if x == d[q[done]][k] then list + [q[done]] else list;
    forall v {:trigger v in list'} | 0 <= v < |d|
      ensures v in list' <==> Seen(d, q, done, k + 1, v, x) && DagArc(d, dist, v, x)
    {
      SeenNext(d, q, done, k, v, x);
      assert v in list <==> Seen(d, q, done, k, v, x) && DagArc(d, dist, v, x);
    }
    if x == d[q[done]][k] {
      assert q[done] !in list;
    }
  }

  /** Arcs seen so far leave nodes no deeper than the one being expanded. */
  lemma SeenLow(d: Digraph, s: nat, dist: seq<int>, q: seq<nat>, done: nat, k: nat, v: nat, x: nat)
    requires Frontier(d, s, dist, q, done, k) && done < |q| && Seen(d, q, done, k, v, x) && v < |d|
    ensures dist[v] <= dist[q[done]]
  {
  }

  /** The node at the front is fully expanded. */
  lemma FinishStep(d: Digraph, s: nat, sig: seq<nat>, dist: seq<int>, pred: seq<seq<nat>>, q: seq<nat>, done: nat)
    requires done < |q| && q[done] < |d| && Frontier(d, s, dist, q, done, |d[q[done]]|)
    requires Tally(d, s, sig, dist, pred, q, done, |d[q[done]]|)
    ensures Frontier(d, s, dist, q, done + 1, 0) && Tally(d, s, sig, dist, pred, q, done + 1, 0)
  {
    hide Seen, DagArc, HasParent;
    var k := |d[q[done]]|;
    forall v, w {:trigger Seen(d, q, done + 1, 0, v, w)} | 0 <= v < |d| && 0 <= w < |d| && Seen(d, q, done + 1, 0, v, w)
      ensures 0 <= dist[w] <= dist[v] + 1
    {
      SeenFinished(d, q, done, v, w);
    }
    forall x | 0 <= x < |d|
      ensures ListOk(d, s, sig, dist, pred[x], q, done + 1, 0, x)
    {
      assert ListOk(d, s, sig, dist, pred[x], q, done, k, x);
      forall v | 0 <= v < |d|
        ensures Seen(d, q, done + 1, 0, v, x) <==> Seen(d, q, done, k, v, x)
      {
        SeenFinished(d, q, done, v, x);
      }
    }
  }

  lemma SeenFinished(d: Digraph, q: seq<nat>, done: nat, v: nat, w: nat)
    requires done < |q| && q[done] < |d|
    ensures Seen(d, q, done + 1, 0, v, w) <==> Seen(d, q, done, |d[q[done]]|, v, w)
  {
    if i :| 0 <= i < done + 1 && i < |q| && q[i] == v && v < |d| && w in d[v] {
      if i == done {
        var j :| 0 <= j < |d[v]| && d[v][j] == w;
      }
    }
  }

  // ---------- Forward search: result ----------

  /** Levels, predecessor lists and path counts of a completed search; `q` lists the reached nodes by level. */
  ghost predicate Counted(d: Digraph, s: nat, sig: seq<nat>, dist: seq<int>, pred: seq<seq<nat>>, q: seq<nat>) {
    && |sig| == |pred| == |dist| == |d| && BfsLevels(d, s, dist)
    && (forall w :: 0 <= w < |d| ==> PredsAre(d, dist, pred[w], w))
    && (forall w :: 0 <= w < |d| && dist[w] >= 0 ==> sig[w] as real == Sigma(d, s, dist, w))
    && (forall w :: 0 <= w < |d| && dist[w] < 0 ==> sig[w] == 0)
    && (forall i :: 0 <= i < |q| ==> q[i] < |d| && dist[q[i]] >= 0)
    && (forall v {:trigger v in q} :: 0 <= v < |d| && dist[v] >= 0 ==> v in q)
    && (forall i, j :: 0 <= i < j < |q| ==> q[i] != q[j] && dist[q[i]] <= dist[q[j]])
  }

  /** `list` names exactly the nodes with a level-climbing arc to `w`, once each. */
  ghost predicate PredsAre(d: Digraph, dist: seq<int>, list: seq<nat>, w: nat)
    requires |dist| == |d|
  {
    && (forall i :: 0 <= i < |list| ==> list[i] < |d| && DagArc(d, dist, list[i], w))
    && (forall i, j :: 0 <= i < j < |list| ==> list[i] != list[j])
    && (forall v {:trigger v in list} :: 0 <= v < |d| && DagArc(d, dist, v, w) ==> v in list)
  }

  lemma SeenAll(d: Digraph, s: nat, dist: seq<int>, q: seq<nat>, v: nat, w: nat)
    requires Frontier(d, s, dist, q, |q|, 0) && v < |d|
    ensures Seen(d, q, |q|, 0, v, w) <==> dist[v] >= 0 && w in d[v]
  {
    if dist[v] >= 0 && w in d[v] {
      assert v in q;
      var i :| 0 <= i < |q| && q[i] == v;
    }
  }

  lemma SearchDoneLevels(d: Digraph, s: nat, dist: seq<int>, q: seq<nat>)
    requires Frontier(d, s, dist, q, |q|, 0)
    ensures BfsLevels(d, s, dist)
  {
    forall u, w | 0 <= u < |d| && 0 <= w < |d| && dist[u] >= 0 && Arc(d, u, w)
      ensures 0 <= dist[w] <= dist[u] + 1
    {
      SeenAll(d, s, dist, q, u, w);
    }
  }

  lemma SearchDonePreds(d: Digraph, s: nat, sig: seq<nat>, dist: seq<int>, pred: seq<seq<nat>>, q: seq<nat>, w: nat)
    requires Frontier(d, s, dist, q, |q|, 0) && Tally(d, s, sig, dist, pred, q, |q|, 0) && w < |d|
    ensures PredsAre(d, dist, pred[w], w) && sig[w] == (if w == s then 1 else 0) + SumSeq(pred[w], sig)
  {
    assert ListOk(d, s, sig, dist, pred[w], q, |q|, 0, w);
    forall v | 0 <= v < |d| && DagArc(d, dist, v, w)
      ensures v in pred[w]
    {
      SeenAll(d, s, dist, q, v, w);
    }
    forall i | 0 <= i < |pred[w]|
      ensures DagArc(d, dist, pred[w][i], w)
    {
      assert pred[w][i] in pred[w];
    }
  }

  /** A duplicate-free list adds up to the sum over all nodes, when the others add nothing. */
  lemma {:induction false} ListSum(list: seq<nat>, sig: seq<nat>, n: nat, f: int -> real)
    requires |sig| == n && forall i :: 0 <= i < |list| ==> list[i] < n && f(list[i]) == sig[list[i]] as real
    requires forall i, j :: 0 <= i < j < |list| ==> list[i] != list[j]
    requires forall v :: 0 <= v < n && v !in list ==> f(v) == 0.0
    ensures SumSeq(list, sig) as real == Sum(n, f)
  {
    if list == [] {
      SumZero(n, f);
    } else {
      var init, last := list[..|list| - 1], list[|list| - 1];
      var rest := (v: int) => if v == last then 0.0 else f(v);
      ListSum(init, sig, n, rest);
      SumChange(n, rest, f, last);
    }
  }

  lemma NoPredAtSource(d: Digraph, s: nat, dist: seq<int>, list: seq<nat>)
    requires |dist| == |d| && s < |d| && dist[s] == 0 && PredsAre(d, dist, list, s)
    ensures list == []
  {
    hide PredsAre, DagArc;
    if list != [] {
      PredBelow(d, dist, list, s);
    }
  }

  lemma PredBelow(d: Digraph, dist: seq<int>, list: seq<nat>, w: nat)
    requires |dist| == |d| && w < |d| && list != [] && PredsAre(d, dist, list, w)
    ensures dist[w] > 0
  {
    assert DagArc(d, dist, list[0], w);
  }

  lemma {:induction false} CountsAreSigma(d: Digraph, s: nat, sig: seq<nat>, dist: seq<int>, pred: seq<seq<nat>>, w: nat)
    requires BfsLevels(d, s, dist) && |sig| == |pred| == |dist| == |d| && w < |d| && dist[w] >= 0
    requires forall x :: 0 <= x < |d| ==> PredsAre(d, dist, pred[x], x) && sig[x] == (if x == s then 1 else 0) + SumSeq(pred[x], sig)
    ensures sig[w] as real == Sigma(d, s, dist, w)
    decreases dist[w]
  {
    if w == s {
      NoPredAtSource(d, s, dist, pred[s]);
      assert Walks(d, s, s, 0) == {[s]};
    } else {
      SigmaStep(d, s, dist, w);
      var f := FromParents(d, s, dist, w);
      forall i | 0 <= i < |pred[w]|
        ensures f(pred[w][i]) == sig[pred[w][i]] as real
      {
        assert DagArc(d, dist, pred[w][i], w);
        CountsAreSigma(d, s, sig, dist, pred, pred[w][i]);
      }
      ListSum(pred[w], sig, |d|, f);
    }
  }

  lemma SearchDone(d: Digraph, s: nat, sig: seq<nat>, dist: seq<int>, pred: seq<seq<nat>>, q: seq<nat>)
    requires Frontier(d, s, dist, q, |q|, 0) && Tally(d, s, sig, dist, pred, q, |q|, 0)
    ensures Counted(d, s, sig, dist, pred, q)
  {
    SearchDoneLevels(d, s, dist, q);
    forall w | 0 <= w < |d|
      ensures PredsAre(d, dist, pred[w], w) && sig[w] == (if w == s then 1 else 0) + SumSeq(pred[w], sig)
    {
      SearchDonePreds(d, s, sig, dist, pred, q, w);
    }
    forall w | 0 <= w < |d| && dist[w] >= 0
      ensures sig[w] as real == Sigma(d, s, dist, w)
    {
      CountsAreSigma(d, s, sig, dist, pred, w);
    }
    forall w | 0 <= w < |d| && dist[w] < 0
      ensures sig[w] == 0
    {
      NoPredUnreached(d, s, dist, pred[w], w);
    }
  }

  lemma NoPredUnreached(d: Digraph, s: nat, dist: seq<int>, list: seq<nat>, w: nat)
    requires BfsLevels(d, s, dist) && w < |d| && dist[w] < 0 && PredsAre(d, dist, list, w)
    ensures w != s && list == []
  {
    hide PredsAre, DagArc;
    if list != [] {
      PredBelow(d, dist, list, w);
    }
  }

  /** The counters of a completed search are the numbers of shortest paths. */
  lemma CountersAre(d: Digraph, s: nat, sig: seq<nat>, dist: seq<int>, pred: seq<seq<nat>>, q: seq<nat>)
    requires Counted(d, s, sig, dist, pred, q)
    ensures |sig| == |d| && forall w :: 0 <= w < |d| ==> sig[w] == |ShortestPaths(d, s, w)|
  {
    forall w | 0 <= w < |d|
      ensures sig[w] == |ShortestPaths(d, s, w)|
    {
      LevelsAreDistances(d, s, dist, w);
    }
  }

  // ---------- Forward search: the loops ----------

  method Forward(d: Digraph, s: nat, sigma: array<nat>, dist: array<int>, pred: array<seq<nat>>, stack: array<nat>)
    returns (stackTop: nat, ghost overflowed: bool)
    requires IsDigraph(d) && NoParallel(d) && s < |d|
    requires sigma.Length == dist.Length == pred.Length == stack.Length == |d| && sigma != stack
    modifies sigma, dist, pred, stack
    ensures stackTop <= |d| && Counted(d, s, sigma[..], dist[..], pred[..], stack[..stackTop])
    ensures overflowed <==> exists w :: 0 <= w < |d| && |ShortestPaths(d, s, w)| > INT_MAX
  {
    hide Frontier, Tally, Counted, IsDigraph, NoParallel, ShortestPaths;
    var n := |d|;
    overflowed := false;
    Reset(s, sigma, dist, pred);
    var queue := new nat[n](_ => 0);
    var front, rear := 0, 1;
    queue[0] := s;
    stackTop := 0;
    StartSearch(d, s, sigma[..], dist[..], pred[..]);
    assert queue[..rear] == [s];
    while front < rear
      invariant 0 <= front <= rear <= n && stackTop == front && stack[..stackTop] == queue[..front]
      invariant Frontier(d, s, dist[..], queue[..rear], front, 0)
      invariant Tally(d, s, sigma[..], dist[..], pred[..], queue[..rear], front, 0)
      invariant overflowed <==> Exceeds(sigma[..])
      decreases n - front
    {
      FrontIsNode(d, s, dist[..], queue[..rear], front);
      var v := queue[front];
      stack[stackTop] := v;
      stackTop := stackTop + 1;
      ghost var listed := queue[..rear];
      assert stack[..stackTop] == listed[..front + 1];
      rear, overflowed := ExpandNode(d, s, sigma, dist, pred, queue, front, rear, v, overflowed);
      assert queue[..|listed|] == listed;
      assert queue[..front + 1] == listed[..front + 1];
      front := front + 1;
    }
    assert queue[..rear] == stack[..stackTop];
    SearchDone(d, s, sigma[..], dist[..], pred[..], queue[..rear]);
    CountersAre(d, s, sigma[..], dist[..], pred[..], queue[..rear]);
  }

  method Reset(s: nat, sigma: array<nat>, dist: array<int>, pred: array<seq<nat>>)
    requires s < sigma.Length == dist.Length == pred.Length
    modifies sigma, dist, pred
    ensures forall v :: 0 <= v < dist.Length ==> dist[v] == (if v == s then 0 else -1)
    ensures forall v :: 0 <= v < dist.Length ==> sigma[v] == (if v == s then 1 else 0) && pred[v] == []
  {
    var i := 0;
    while i < dist.Length
      invariant 0 <= i <= dist.Length
      invariant forall v :: 0 <= v < i ==> dist[v] == -1 && sigma[v] == 0 && pred[v] == []
    {
      sigma[i], dist[i], pred[i] := 0, -1, [];
      i := i + 1;
    }
    sigma[s] := 1;
    dist[s] := 0;
  }

  lemma FrontIsNode(d: Digraph, s: nat, dist: seq<int>, q: seq<nat>, done: nat)
    requires Frontier(d, s, dist, q, done, 0) && done < |q|
    ensures q[done] < |d|
  {
  }

  /** Looks at every adjacency entry of the node at the queue's front. */
  method ExpandNode(d: Digraph, s: nat, sigma: array<nat>, dist: array<int>, pred: array<seq<nat>>, queue: array<nat>,
                    front: nat, rear0: nat, v: nat, ghost overflowed0: bool) returns (rear: nat, ghost overflowed: bool)
    requires IsDigraph(d) && NoParallel(d) && sigma.Length == dist.Length == pred.Length == queue.Length == |d| && sigma != queue
    requires front < rear0 <= |d| && v == queue[front] && v < |d|
    requires Frontier(d, s, dist[..], queue[..rear0], front, 0)
    requires Tally(d, s, sigma[..], dist[..], pred[..], queue[..rear0], front, 0)
    requires overflowed0 <==> Exceeds(sigma[..])
    modifies sigma, dist, pred, queue
    ensures rear0 <= rear <= |d| && queue[..rear0] == old(queue[..rear0])
    ensures Frontier(d, s, dist[..], queue[..rear], front + 1, 0)
    ensures Tally(d, s, sigma[..], dist[..], pred[..], queue[..rear], front + 1, 0)
    ensures overflowed <==> Exceeds(sigma[..])
  {
    hide Frontier, Tally, NoParallel, Exceeds;
    rear, overflowed := rear0, overflowed0;
    var k := 0;
    while k < |d[v]|
      invariant 0 <= k <= |d[v]| && rear0 <= rear <= |d| && queue[..rear0] == old(queue[..rear0])
      invariant v == queue[front]
      invariant Frontier(d, s, dist[..], queue[..rear], front, k)
      invariant Tally(d, s, sigma[..], dist[..], pred[..], queue[..rear], front, k)
      invariant overflowed <==> Exceeds(sigma[..])
    {
      var w := d[v][k];
      ghost var sig, dst, prd, q := sigma[..], dist[..], pred[..], queue[..rear];
      if dist[w] < 0 {
        DiscoverFrontier(d, s, dst, q, front, k, w);
        DiscoverTally(d, s, sig, dst, prd, q, front, k, w);
        dist[w] := dist[v] + 1;
        queue[rear] := w;
        rear := rear + 1;
        dst := dst[w := dst[v] + 1];
        q := q + [w];
        assert dist[..] == dst && queue[..rear] == q;
      }
      CreditStep(d, s, sig, dst, prd, q, front, k);
      if dist[w] == dist[v] + 1 {
        sigma[w] := sigma[w] + sigma[v];
        pred[w] := pred[w] + [v];
        assert sigma[..] == sig[w := sig[w] + sig[v]] && pred[..] == prd[w := prd[w] + [v]];
        ExceedsStep(sig, w, sig[v]);
        overflowed := overflowed || sigma[w] > INT_MAX;
      }
      k := k + 1;
    }
    FinishStep(d, s, sigma[..], dist[..], pred[..], queue[..rear], front);
  }

  /** Counters only grow, so one that exceeded the limit still does. */
  lemma ExceedsStep(sig: seq<nat>, w: nat, more: nat)
    requires w < |sig|
    ensures Exceeds(sig[w := sig[w] + more]) <==> Exceeds(sig) || sig[w] + more > INT_MAX
  {
    var sig' := sig[w := sig[w] + more];
    if v :| 0 <= v < |sig| && sig[v] > INT_MAX {
      assert sig'[v] > INT_MAX;
    }
    if sig[w] + more > INT_MAX {
      assert sig'[w] > INT_MAX;
    }
  }

  // ---------- Backward accumulation ----------

  /** What `v` has collected once the stack entries from `top` on are popped. */
  ghost function Collected(d: Digraph, s: nat, dist: seq<int>, q: seq<nat>, top: nat, v: nat): int -> real
    requires |dist| == |d| && top <= |q|
  {
    w => if w in q[top..] then Share(d, s, dist, v, w) else 0.0
  }

  ghost function Gathered(d: Digraph, s: nat, dist: seq<int>, q: seq<nat>, top: nat, v: nat): real
    requires |dist| == |d| && top <= |q|
  {
    Sum(|d|, Collected(d, s, dist, q, top, v))
  }

  /** When a node is popped, everything above it has been popped: its dependency is complete. */
  lemma PopReady(d: Digraph, s: nat, sig: seq<nat>, dist: seq<int>, pred: seq<seq<nat>>, q: seq<nat>, top: nat)
    requires Counted(d, s, sig, dist, pred, q) && 0 < top <= |q|
    ensures q[top - 1] < |d| && dist[q[top - 1]] >= 0
    ensures Gathered(d, s, dist, q, top, q[top - 1]) == Dep(d, s, dist, q[top - 1])
  {
    var v := q[top - 1];
    forall w | 0 <= w < |d|
      ensures Collected(d, s, dist, q, top, v)(w) == Share(d, s, dist, v, w)
    {
      if DagArc(d, dist, v, w) {
        assert w in q;
        var i :| 0 <= i < |q| && q[i] == w;
        assert q[top..][i - top] == w;
      }
    }
    DependencyRecurrence(d, s, dist, v);
    SumExt(|d|, Collected(d, s, dist, q, top, v), w => Share(d, s, dist, v, w));
  }

  /** Popping `w` adds `v`'s share of it. */
  lemma PopAdds(d: Digraph, s: nat, sig: seq<nat>, dist: seq<int>, pred: seq<seq<nat>>, q: seq<nat>, top: nat, v: nat)
    requires Counted(d, s, sig, dist, pred, q) && 0 < top <= |q| && v < |d|
    ensures Gathered(d, s, dist, q, top - 1, v) == Gathered(d, s, dist, q, top, v) + Share(d, s, dist, v, q[top - 1])
  {
    var w := q[top - 1];
    assert w !in q[top..];
    var f, g := Collected(d, s, dist, q, top, v), Collected(d, s, dist, q, top - 1, v);
    assert q[top - 1..] == [w] + q[top..];
    SumChange(|d|, f, g, w);
  }

  /** The share computed from the counts. */
  lemma ShareByCounts(d: Digraph, s: nat, sig: seq<nat>, dist: seq<int>, pred: seq<seq<nat>>, q: seq<nat>, v: nat, w: nat)
    requires Counted(d, s, sig, dist, pred, q) && v < |d| && w < |d| && dist[w] >= 0
    ensures sig[w] > 0
    ensures Share(d, s, dist, v, w)
         == if v in pred[w] then sig[v] as real / sig[w] as real * (1.0 + Dep(d, s, dist, w)) else 0.0
  {
    SigmaPositive(d, s, dist, w);
    assert PredsAre(d, dist, pred[w], w);
  }

  lemma NothingPopped(d: Digraph, s: nat, dist: seq<int>, q: seq<nat>, v: nat)
    requires |dist| == |d|
    ensures Gathered(d, s, dist, q, |q|, v) == 0.0
  {
    SumZero(|d|, Collected(d, s, dist, q, |q|, v));
  }

  lemma CountedShape(d: Digraph, s: nat, sig: seq<nat>, dist: seq<int>, pred: seq<seq<nat>>, q: seq<nat>, w: nat)
    requires Counted(d, s, sig, dist, pred, q) && w < |d|
    ensures |sig| == |pred| == |dist| == |d|
    ensures forall i :: 0 <= i < |pred[w]| ==> pred[w][i] < |d| && pred[w][i] != w
    ensures forall i, j :: 0 <= i < j < |pred[w]| ==> pred[w][i] != pred[w][j]
  {
    assert PredsAre(d, dist, pred[w], w);
  }

  /** Hands `w`'s dependency down to its predecessors. */
  method HandDown(d: Digraph, s: nat, sigma: array<nat>, delta: array<real>, pred: array<seq<nat>>, w: nat,
                  ghost dist: seq<int>, ghost q: seq<nat>, ghost top: nat)
    requires sigma.Length == delta.Length == pred.Length == |d| == |dist| && 0 < top <= |q| && w == q[top - 1] && w < |d|
    requires Counted(d, s, sigma[..], dist, pred[..], q)
    requires forall v :: 0 <= v < |d| ==> delta[v] == Gathered(d, s, dist, q, top, v)
    modifies delta
    ensures forall v :: 0 <= v < |d| ==> delta[v] == Gathered(d, s, dist, q, top - 1, v)
    ensures delta[w] == Dep(d, s, dist, w)
  {
    hide Counted, Gathered, Share, Dep;
    ghost var sig, prd := sigma[..], pred[..];
    PopReady(d, s, sig, dist, prd, q, top);
    CountedShape(d, s, sig, dist, prd, q, w);
    ShareByCounts(d, s, sig, dist, prd, q, w, w);
    var p := 0;
    while p < |pred[w]|
      invariant 0 <= p <= |pred[w]| && delta[w] == Dep(d, s, dist, w)
      invariant forall v :: 0 <= v < |d| ==>
                              delta[v] == Gathered(d, s, dist, q, top, v) + if v in prd[w][..p] then Share(d, s, dist, v, w) else 0.0
    {
      var v := pred[w][p];
      ShareByCounts(d, s, sig, dist, prd, q, v, w);
      assert v !in prd[w][..p];
      assert prd[w][..p + 1] == prd[w][..p] + [v];
      delta[v] := delta[v] + sigma[v] as real / sigma[w] as real * (1.0 + delta[w]);
      p := p + 1;
    }
    assert prd[w][..p] == prd[w];
    forall v | 0 <= v < |d|
      ensures delta[v] == Gathered(d, s, dist, q, top - 1, v)
    {
      ShareByCounts(d, s, sig, dist, prd, q, v, w);
      PopAdds(d, s, sig, dist, prd, q, top, v);
    }
  }

  /** Pops the stack, hands dependencies down and adds them to the running totals. */
  method Backward(d: Digraph, s: nat, sigma: array<nat>, delta: array<real>, pred: array<seq<nat>>, stack: array<nat>,
                  stackTop0: nat, cb: array<real>, ghost dist: seq<int>)
    requires sigma.Length == delta.Length == pred.Length == cb.Length == |d| == |dist| && stackTop0 <= stack.Length
    requires s < |d| && delta != cb && sigma != stack
    requires Counted(d, s, sigma[..], dist, pred[..], stack[..stackTop0])
    requires forall v :: 0 <= v < |d| ==> delta[v] == 0.0
    modifies delta, cb
    ensures forall v :: 0 <= v < |d| ==> cb[v] == old(cb[v]) + Dependency(d, s, v)
  {
    hide Counted, Gathered, Dep, Dependency;
    ghost var q := stack[..stackTop0];
    var stackTop := stackTop0;
    forall v | 0 <= v < |d|
      ensures Gathered(d, s, dist, q, stackTop0, v) == 0.0
    {
      NothingPopped(d, s, dist, q, v);
    }
    while stackTop > 0
      invariant 0 <= stackTop <= stackTop0 && Counted(d, s, sigma[..], dist, pred[..], q)
      invariant forall v :: 0 <= v < |d| ==> delta[v] == Gathered(d, s, dist, q, stackTop, v)
      invariant forall v :: 0 <= v < |d| ==>
                              cb[v] == old(cb[v]) + if v in q[stackTop..] && v != s then Dep(d, s, dist, v) else 0.0
    {
      PopReady(d, s, sigma[..], dist, pred[..], q, stackTop);
      QueueDistinct(d, s, sigma[..], dist, pred[..], q, stackTop);
      var w := stack[stackTop - 1];
      HandDown(d, s, sigma, delta, pred, w, dist, q, stackTop);
      stackTop := stackTop - 1;
      if w != s {
        cb[w] := cb[w] + delta[w];
      }
      assert q[stackTop..] == [w] + q[stackTop + 1..];
    }
    assert q[0..] == q;
    forall v | 0 <= v < |d|
      ensures cb[v] == old(cb[v]) + Dependency(d, s, v)
    {
      Collectors(d, s, sigma[..], dist, pred[..], q, v);
    }
  }

  lemma QueueDistinct(d: Digraph, s: nat, sig: seq<nat>, dist: seq<int>, pred: seq<seq<nat>>, q: seq<nat>, top: nat)
    requires Counted(d, s, sig, dist, pred, q) && 0 < top <= |q|
    ensures q[top - 1] !in q[top..]
  {
  }

  /** The popped nodes are the reached ones, and their dependencies are the betweenness contributions. */
  lemma Collectors(d: Digraph, s: nat, sig: seq<nat>, dist: seq<int>, pred: seq<seq<nat>>, q: seq<nat>, v: nat)
    requires Counted(d, s, sig, dist, pred, q) && v < |d|
    ensures Dependency(d, s, v) == if v in q && v != s then Dep(d, s, dist, v) else 0.0
  {
    if v != s {
      DepIsDependency(d, s, dist, v);
      assert v in q <==> dist[v] >= 0;
    }
  }

  // ---------- All sources ----------

  /** Betweenness of every node, by node index. A path counter exceeds the code's integers exactly if two nodes have
      more than 2^31 - 1 shortest paths between them. */
  method CentralityBetweenness(g: Graph) returns (cb: array<real>, ghost overflowed: bool)
    requires g.Valid() && NoParallel(g.Succs())
    ensures overflowed <==> exists s, w :: 0 <= s < g.N() && 0 <= w < g.N() && |ShortestPaths(g.Succs(), s, w)| > INT_MAX
    ensures cb.Length == g.N()
    ensures forall v :: 0 <= v < g.N() ==> cb[v] == BetweennessOf(g.Succs(), v)
  {
    hide Counted, Dependency, NoParallel, Graph.Valid, ShortestPaths;
    overflowed := false;
    var d := g.Succs();
    var n := |d|;
    cb := new real[n](_ => 0.0);
    var sigma, dist, delta := new nat[n](_ => 0), new int[n](_ => 0), new real[n](_ => 0.0);
    var pred := new seq<nat>[n](_ => []);
    var stack := new nat[n](_ => 0);
    var s := 0;
    while s < n
      invariant 0 <= s <= n && fresh(cb)
      invariant forall v :: 0 <= v < n ==> cb[v] == Sum(s, Contributions(d, v))
      invariant overflowed <==> exists r, w :: 0 <= r < s && 0 <= w < n && |ShortestPaths(d, r, w)| > INT_MAX
    {
      forall i | 0 <= i < n {
        delta[i] := 0.0;
      }
      var stackTop;
      ghost var exceeded;
      stackTop, exceeded := Forward(d, s, sigma, dist, pred, stack);
      overflowed := overflowed || exceeded;
      ghost var before := cb[..];
      Backward(d, s, sigma, delta, pred, stack, stackTop, cb, dist[..]);
      forall v | 0 <= v < n
        ensures cb[v] == Sum(s + 1, Contributions(d, v))
      {
        assert cb[v] == before[v] + Dependency(d, s, v);
      }
      s := s + 1;
    }
  }
}
