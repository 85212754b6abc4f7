/** Forests in an undirected multigraph and why taking edges greedily by weight is optimal. */
module SpanningForests {

  datatype Link = Link(a: nat, b: nat)

  /** `links` are the edges by index; an edge subset is a set of indices. */
  predicate InRange(n: nat, links: seq<Link>) {
    forall e :: 0 <= e < |links| ==> links[e].a < n && links[e].b < n
  }

  // ---------- Connectivity ----------

  predicate Touches(l: Link, u: nat, v: nat) {
    (l.a == u && l.b == v) || (l.b == u && l.a == v)
  }

  ghost predicate Joined(links: seq<Link>, edges: set<nat>, u: nat, v: nat) {
    exists e :: e in edges && e < |links| && Touches(links[e], u, v)
  }

  ghost predicate Walk(n: nat, links: seq<Link>, edges: set<nat>, p: seq<nat>) {
    |p| > 0 && p[0] < n && forall i {:trigger p[i]} :: 0 < i < |p| ==> p[i] < n && Joined(links, edges, p[i - 1], p[i])
  }

  ghost predicate WalkBetween(n: nat, links: seq<Link>, edges: set<nat>, p: seq<nat>, u: nat, v: nat) {
    Walk(n, links, edges, p) && p[0] == u && p[|p| - 1] == v
  }

  ghost predicate Connected(n: nat, links: seq<Link>, edges: set<nat>, u: nat, v: nat) {
    exists p :: WalkBetween(n, links, edges, p, u, v)
  }

  lemma ConnectedRefl(n: nat, links: seq<Link>, edges: set<nat>, u: nat)
    requires u < n
    ensures Connected(n, links, edges, u, u)
  {
    assert WalkBetween(n, links, edges, [u], u, u);
  }

  lemma ConnectedTrans(n: nat, links: seq<Link>, edges: set<nat>, u: nat, v: nat, w: nat)
    requires Connected(n, links, edges, u, v) && Connected(n, links, edges, v, w)
    ensures Connected(n, links, edges, u, w)
  {
    var p :| WalkBetween(n, links, edges, p, u, v);
    var q :| WalkBetween(n, links, edges, q, v, w);
    var r := p + q[1..];
    forall i | 0 < i < |r|
      ensures r[i] < n && Joined(links, edges, r[i - 1], r[i])
    {
      if i >= |p| {
        assert r[i] == q[i - |p| + 1] && r[i - 1] == q[i - |p|];
      }
    }
    assert WalkBetween(n, links, edges, r, u, w);
  }

  lemma ConnectedSym(n: nat, links: seq<Link>, edges: set<nat>, u: nat, v: nat)
    requires Connected(n, links, edges, u, v)
    ensures Connected(n, links, edges, v, u)
  {
    var p :| WalkBetween(n, links, edges, p, u, v);
    var r := seq(|p|, i requires 0 <= i < |p| => p[|p| - 1 - i]);
    forall i | 0 < i < |r|
      ensures r[i] < n && Joined(links, edges, r[i - 1], r[i])
    {
      assert r[i - 1] == p[|p| - i] && r[i] == p[|p| - i - 1];
      var e :| e in edges && e < |links| && Touches(links[e], p[|p| - i - 1], p[|p| - i]);
      assert Touches(links[e], r[i - 1], r[i]);
    }
    assert p[|p| - 1] < n;
    assert WalkBetween(n, links, edges, r, v, u);
  }

  lemma ConnectedMono(n: nat, links: seq<Link>, edges: set<nat>, more: set<nat>, u: nat, v: nat)
    requires Connected(n, links, edges, u, v) && edges <= more
    ensures Connected(n, links, more, u, v)
  {
    var p :| WalkBetween(n, links, edges, p, u, v);
    forall i | 0 < i < |p|
      ensures Joined(links, more, p[i - 1], p[i])
    {
      var e :| e in edges && e < |links| && Touches(links[e], p[i - 1], p[i]);
      assert e in more;
    }
    assert WalkBetween(n, links, more, p, u, v);
  }

  lemma ConnectedEdge(n: nat, links: seq<Link>, edges: set<nat>, e: nat)
    requires InRange(n, links) && e in edges && e < |links|
    ensures Connected(n, links, edges, links[e].a, links[e].b)
  {
    assert Touches(links[e], links[e].a, links[e].b);
    assert WalkBetween(n, links, edges, [links[e].a, links[e].b], links[e].a, links[e].b);
  }

  // ---------- Forests ----------

  /** No edge of the set closes a cycle: its ends are not connected by the others. */
  ghost predicate IsForest(n: nat, links: seq<Link>, edges: set<nat>) {
    forall e <- edges :: e < |links| && !Connected(n, links, edges - {e}, links[e].a, links[e].b)
  }

  /** The set connects exactly what all edges connect. */
  ghost predicate Spans(n: nat, links: seq<Link>, edges: set<nat>) {
    forall u: nat, v: nat :: Connected(n, links, AllEdges(links), u, v) ==> Connected(n, links, edges, u, v)
  }

  function AllEdges(links: seq<Link>): set<nat> {
    set e: nat {:trigger links[e]} | e < |links|
  }

  /** The total weight of the chosen indices below `m`. */
  function WeightOf(weights: seq<real>, edges: set<nat>, m: nat): real
    requires m <= |weights|
  {
    if m == 0 then 0.0
    else WeightOf(weights, edges, m - 1) + if m - 1 in edges then weights[m - 1] else 0.0
  }

  ghost predicate MinimumSpanningForest(n: nat, links: seq<Link>, weights: seq<real>, edges: set<nat>)
    requires |links| == |weights|
  {
    && IsForest(n, links, edges) && Spans(n, links, edges)
    && forall other :: IsForest(n, links, other) && Spans(n, links, other) ==>
                         WeightOf(weights, edges, |weights|) <= WeightOf(weights, other, |weights|)
  }

  // ---------- Component labels ----------

  /** Gives `b`'s class the label of `a`'s. */
  function Merge(lab: seq<nat>, a: nat, b: nat): (r: seq<nat>)
    requires a < |lab| && b < |lab|
    ensures |r| == |lab|
  {
    seq(|lab|, v requires 0 <= v < |lab| => if lab[v] == lab[b] then lab[a] else lab[v])
  }

  /** The component labels after adding those of the first `k` edges of the order that are in `edges`. */
  function Labels(n: nat, links: seq<Link>, order: seq<nat>, edges: set<nat>, k: nat): (r: seq<nat>)
    requires InRange(n, links) && k <= |order| && forall i :: 0 <= i < |order| ==> order[i] < |links|
    ensures |r| == n
  {
    if k == 0 then seq(n, v => v)
    else
      var lab := Labels(n, links, order, edges, k - 1);
      var l := links[order[k - 1]];
      if order[k - 1] in edges then Merge(lab, l.a, l.b) else lab
  }

  /** A label is a member of the class it names. */
  predicate Canonical(lab: seq<nat>) {
    forall v :: 0 <= v < |lab| ==> lab[v] < |lab| && lab[lab[v]] == lab[v]
  }

  function Roots(lab: seq<nat>): set<nat> {
    set r: nat | r < |lab| && lab[r] == r
  }

  lemma {:induction false} LabelsCanonical(n: nat, links: seq<Link>, order: seq<nat>, edges: set<nat>, k: nat)
    requires InRange(n, links) && k <= |order| && forall i :: 0 <= i < |order| ==> order[i] < |links|
    ensures Canonical(Labels(n, links, order, edges, k))
  {
    if k > 0 {
      LabelsCanonical(n, links, order, edges, k - 1);
    }
  }

  /** Merging two classes loses one root; merging a class with itself changes nothing. */
  lemma MergeRoots(lab: seq<nat>, a: nat, b: nat)
    requires Canonical(lab) && a < |lab| && b < |lab|
    ensures lab[a] != lab[b] ==> |Roots(Merge(lab, a, b))| == |Roots(lab)| - 1
    ensures lab[a] == lab[b] ==> Merge(lab, a, b) == lab
  {
    if lab[a] != lab[b] {
      assert Roots(Merge(lab, a, b)) == Roots(lab) - {lab[b]};
    }
  }

  /** The prefix of the order that lies in the set. */
  function Taken(order: seq<nat>, edges: set<nat>, k: nat): set<nat>
    requires k <= |order|
  {
    set i | 0 <= i < k && order[i] in edges :: order[i]
  }

  /** Equal labels mean connected by the edges taken so far. */
  lemma {:induction false} LabelsSound(n: nat, links: seq<Link>, order: seq<nat>, edges: set<nat>, k: nat, u: nat, v: nat)
    requires InRange(n, links) && k <= |order| && forall i :: 0 <= i < |order| ==> order[i] < |links|
    requires u < n && v < n && Labels(n, links, order, edges, k)[u] == Labels(n, links, order, edges, k)[v]
    ensures Connected(n, links, Taken(order, edges, k), u, v)
  {
    var now := Taken(order, edges, k);
    if k == 0 {
      ConnectedRefl(n, links, now, u);
    } else {
      var before := Taken(order, edges, k - 1);
      var lab := Labels(n, links, order, edges, k - 1);
      var e := order[k - 1];
      if lab[u] == lab[v] {
        LabelsSound(n, links, order, edges, k - 1, u, v);
        ConnectedMono(n, links, before, now, u, v);
      } else {
        var (x, y) := if lab[u] == lab[links[e].b] then (links[e].b, links[e].a) else (links[e].a, links[e].b);
        LabelsSound(n, links, order, edges, k - 1, u, x);
        LabelsSound(n, links, order, edges, k - 1, y, v);
        ConnectedMono(n, links, before, now, u, x);
        ConnectedMono(n, links, before, now, y, v);
        ConnectedEdge(n, links, now, e);
        if x == links[e].b {
          ConnectedSym(n, links, now, links[e].a, links[e].b);
        }
        ConnectedTrans(n, links, now, u, x, y);
        ConnectedTrans(n, links, now, u, y, v);
      }
    }
  }

  lemma {:induction false} LabelsStayEqual(n: nat, links: seq<Link>, order: seq<nat>, edges: set<nat>, j: nat, k: nat, u: nat, v: nat)
    requires InRange(n, links) && j <= k <= |order| && forall i :: 0 <= i < |order| ==> order[i] < |links|
    requires u < n && v < n && Labels(n, links, order, edges, j)[u] == Labels(n, links, order, edges, j)[v]
    ensures Labels(n, links, order, edges, k)[u] == Labels(n, links, order, edges, k)[v]
  {
    if j < k {
      LabelsStayEqual(n, links, order, edges, j, k - 1, u, v);
    }
  }

  /** Connected by the edges taken so far means equal labels. */
  lemma LabelsComplete(n: nat, links: seq<Link>, order: seq<nat>, edges: set<nat>, k: nat, u: nat, v: nat)
    requires InRange(n, links) && k <= |order| && forall i :: 0 <= i < |order| ==> order[i] < |links|
    requires Connected(n, links, Taken(order, edges, k), u, v)
    ensures u < n && v < n && Labels(n, links, order, edges, k)[u] == Labels(n, links, order, edges, k)[v]
  {
    var p :| WalkBetween(n, links, Taken(order, edges, k), p, u, v);
    WalkLabels(n, links, order, edges, k, p, |p| - 1);
  }

  lemma {:induction false} WalkLabels(n: nat, links: seq<Link>, order: seq<nat>, edges: set<nat>, k: nat, p: seq<nat>, i: nat)
    requires InRange(n, links) && k <= |order| && forall i :: 0 <= i < |order| ==> order[i] < |links|
    requires Walk(n, links, Taken(order, edges, k), p) && i < |p|
    ensures p[i] < n && Labels(n, links, order, edges, k)[p[0]] == Labels(n, links, order, edges, k)[p[i]]
  {
    if i > 0 {
      WalkLabels(n, links, order, edges, k, p, i - 1);
      var e :| e in Taken(order, edges, k) && e < |links| && Touches(links[e], p[i - 1], p[i]);
      var j :| 0 <= j < k && order[j] in edges && order[j] == e;
      LabelsStayEqual(n, links, order, edges, j + 1, k, links[e].a, links[e].b);
    }
  }

  // ---------- Counting components ----------

  /** A processing order: every edge index once. */
  predicate IsOrder(links: seq<Link>, order: seq<nat>) {
    && (forall i :: 0 <= i < |order| ==> order[i] < |links|)
    && (forall i, j :: 0 <= i < j < |order| ==> order[i] != order[j])
    && (forall e :: 0 <= e < |links| ==> e in order)
  }

  /** How many of the first `k` edges of the order lie in the set. */
  function CountTaken(order: seq<nat>, edges: set<nat>, k: nat): nat
    requires k <= |order|
  {
    if k == 0 then 0 else CountTaken(order, edges, k - 1) + if order[k - 1] in edges then 1 else 0
  }

  lemma {:induction false} IdentityRoots(n: nat)
    ensures |Roots(seq(n, v => v))| == n
  {
    if n > 0 {
      IdentityRoots(n - 1);
      assert Roots(seq(n, v => v)) == Roots(seq(n - 1, v => v)) + {n - 1};
    }
  }

  /** Every edge joins at most two components. */
  lemma {:induction false} RootsAtLeast(n: nat, links: seq<Link>, order: seq<nat>, edges: set<nat>, k: nat)
    requires InRange(n, links) && IsOrder(links, order) && k <= |order|
    ensures |Roots(Labels(n, links, order, edges, k))| >= n - CountTaken(order, edges, k)
  {
    if k == 0 {
      IdentityRoots(n);
    } else {
      RootsAtLeast(n, links, order, edges, k - 1);
      LabelsCanonical(n, links, order, edges, k - 1);
      MergeRoots(Labels(n, links, order, edges, k - 1), links[order[k - 1]].a, links[order[k - 1]].b);
    }
  }

  /** Every forest edge joins exactly two components. */
  lemma {:induction false} ForestRoots(n: nat, links: seq<Link>, order: seq<nat>, edges: set<nat>, k: nat)
    requires InRange(n, links) && IsOrder(links, order) && k <= |order| && IsForest(n, links, edges)
    ensures |Roots(Labels(n, links, order, edges, k))| == n - CountTaken(order, edges, k)
  {
    if k == 0 {
      IdentityRoots(n);
    } else {
      ForestRoots(n, links, order, edges, k - 1);
      var lab := Labels(n, links, order, edges, k - 1);
      var e := order[k - 1];
      LabelsCanonical(n, links, order, edges, k - 1);
      MergeRoots(lab, links[e].a, links[e].b);
      if e in edges && lab[links[e].a] == lab[links[e].b] {
        LabelsSound(n, links, order, edges, k - 1, links[e].a, links[e].b);
        ConnectedMono(n, links, Taken(order, edges, k - 1), edges - {e}, links[e].a, links[e].b);
      }
    }
  }

  lemma {:induction false} InjectiveInto(from: set<nat>, to: set<nat>, f: seq<nat>)
    requires forall x <- from :: x < |f| && f[x] in to
    requires forall x, y :: x in from && y in from && f[x] == f[y] ==> x == y
    ensures |from| <= |to|
  {
    if from != {} {
      var x :| x in from;
      InjectiveInto(from - {x}, to - {f[x]}, f);
    }
  }

  /** A coarser labelling has no more roots. */
  lemma CoarserFewerRoots(fine: seq<nat>, coarse: seq<nat>)
    requires Canonical(fine) && Canonical(coarse) && |fine| == |coarse|
    requires forall u, v :: 0 <= u < |fine| && 0 <= v < |fine| && fine[u] == fine[v] ==> coarse[u] == coarse[v]
    ensures |Roots(coarse)| <= |Roots(fine)|
  {
    forall x, y | x in Roots(coarse) && y in Roots(coarse) && fine[x] == fine[y]
      ensures x == y
    {
      assert coarse[x] == coarse[y];
    }
    InjectiveInto(Roots(coarse), Roots(fine), fine);
  }

  /** Whatever some edges connect, more edges connect too: the labels get coarser. */
  lemma MoreEdgesFewerRoots(n: nat, links: seq<Link>, order: seq<nat>, some: set<nat>, more: set<nat>, k: nat)
    requires InRange(n, links) && IsOrder(links, order) && k <= |order|
    requires forall u: nat, v: nat :: Connected(n, links, Taken(order, some, k), u, v) ==> Connected(n, links, Taken(order, more, k), u, v)
    ensures |Roots(Labels(n, links, order, more, k))| <= |Roots(Labels(n, links, order, some, k))|
  {
    var fine, coarse := Labels(n, links, order, some, k), Labels(n, links, order, more, k);
    LabelsCanonical(n, links, order, some, k);
    LabelsCanonical(n, links, order, more, k);
    forall u, v | 0 <= u < n && 0 <= v < n && fine[u] == fine[v]
      ensures coarse[u] == coarse[v]
    {
      LabelsSound(n, links, order, some, k, u, v);
      LabelsComplete(n, links, order, more, k, u, v);
    }
    CoarserFewerRoots(fine, coarse);
  }

  // ---------- The greedy choice ----------

  /** Edge number `i` of the order joins two components of the edges before it. */
  predicate Accepted(n: nat, links: seq<Link>, order: seq<nat>, i: nat)
    requires InRange(n, links) && IsOrder(links, order) && i < |order|
  {
    var lab := Labels(n, links, order, AllEdges(links), i);
    lab[links[order[i]].a] != lab[links[order[i]].b]
  }

  /** The edges accepted among the first `k` of the order, in order. */
  function Greedy(n: nat, links: seq<Link>, order: seq<nat>, k: nat): seq<nat>
    requires InRange(n, links) && IsOrder(links, order) && k <= |order|
  {
    if k == 0 then []
    else if Accepted(n, links, order, k - 1) then Greedy(n, links, order, k - 1) + [order[k - 1]]
    else Greedy(n, links, order, k - 1)
  }

  function Chosen(n: nat, links: seq<Link>, order: seq<nat>): set<nat>
    requires InRange(n, links) && IsOrder(links, order)
  {
    set e <- Greedy(n, links, order, |order|)
  }

  lemma {:induction false} GreedyMembers(n: nat, links: seq<Link>, order: seq<nat>, k: nat, e: nat)
    requires InRange(n, links) && IsOrder(links, order) && k <= |order|
    ensures e in Greedy(n, links, order, k) <==> exists i :: 0 <= i < k && order[i] == e && Accepted(n, links, order, i)
  {
    if k > 0 {
      GreedyMembers(n, links, order, k - 1, e);
    }
  }

  lemma ChosenAt(n: nat, links: seq<Link>, order: seq<nat>, i: nat)
    requires InRange(n, links) && IsOrder(links, order) && i < |order|
    ensures order[i] in Chosen(n, links, order) <==> Accepted(n, links, order, i)
  {
    GreedyMembers(n, links, order, |order|, order[i]);
  }

  /** The chosen edges keep the components of all edges, at every stage. */
  lemma {:induction false} ChosenLabels(n: nat, links: seq<Link>, order: seq<nat>, k: nat)
    requires InRange(n, links) && IsOrder(links, order) && k <= |order|
    ensures Labels(n, links, order, Chosen(n, links, order), k) == Labels(n, links, order, AllEdges(links), k)
    ensures |Greedy(n, links, order, k)| == CountTaken(order, Chosen(n, links, order), k)
    ensures |Greedy(n, links, order, k)| == n - |Roots(Labels(n, links, order, AllEdges(links), k))|
  {
    if k == 0 {
      IdentityRoots(n);
    } else {
      ChosenLabels(n, links, order, k - 1);
      ChosenAt(n, links, order, k - 1);
      LabelsCanonical(n, links, order, AllEdges(links), k - 1);
      MergeRoots(Labels(n, links, order, AllEdges(links), k - 1), links[order[k - 1]].a, links[order[k - 1]].b);
    }
  }

  /** A walk can go round an edge whose ends the other edges connect. */
  lemma {:induction false} Bypass(n: nat, links: seq<Link>, edges: set<nat>, e: nat, p: seq<nat>, i: nat)
    requires InRange(n, links) && e < |links| && Walk(n, links, edges, p) && i < |p|
    requires Connected(n, links, edges - {e}, links[e].a, links[e].b)
    ensures Connected(n, links, edges - {e}, p[0], p[i])
  {
    var rest := edges - {e};
    if i == 0 {
      ConnectedRefl(n, links, rest, p[0]);
    } else {
      Bypass(n, links, edges, e, p, i - 1);
      var f :| f in edges && f < |links| && Touches(links[f], p[i - 1], p[i]);
      if f != e {
        ConnectedEdge(n, links, rest, f);
      }
      ConnectedSym(n, links, rest, links[f].a, links[f].b);
      ConnectedTrans(n, links, rest, p[0], p[i - 1], p[i]);
    }
  }

  lemma {:induction false} CountWithout(order: seq<nat>, edges: set<nat>, e: nat, k: nat)
    requires k <= |order| && forall i, j :: 0 <= i < j < |order| ==> order[i] != order[j]
    ensures CountTaken(order, edges - {e}, k) == CountTaken(order, edges, k) - if e in Taken(order, edges, k) then 1 else 0
  {
    if k > 0 {
      CountWithout(order, edges, e, k - 1);
      assert Taken(order, edges, k) == Taken(order, edges, k - 1) + if order[k - 1] in edges then {order[k - 1]} else {};
    }
  }

  lemma TakenAll(links: seq<Link>, order: seq<nat>, edges: set<nat>)
    requires IsOrder(links, order) && forall e <- edges :: e < |links|
    ensures Taken(order, edges, |order|) == edges
  {
    forall e | e in edges
      ensures e in Taken(order, edges, |order|)
    {
      assert e in order;
    }
  }

  /** The chosen edges form a forest that connects all that can be connected. */
  lemma ChosenSpans(n: nat, links: seq<Link>, order: seq<nat>)
    requires InRange(n, links) && IsOrder(links, order)
    ensures IsForest(n, links, Chosen(n, links, order)) && Spans(n, links, Chosen(n, links, order))
  {
    var chosen, m := Chosen(n, links, order), |order|;
    ChosenLabels(n, links, order, m);
    forall e | e in chosen
      ensures e < |links|
    {
      GreedyMembers(n, links, order, m, e);
    }
    TakenAll(links, order, chosen);
    TakenAll(links, order, AllEdges(links));
    forall u: nat, v: nat | Connected(n, links, AllEdges(links), u, v)
      ensures Connected(n, links, chosen, u, v)
    {
      LabelsComplete(n, links, order, AllEdges(links), m, u, v);
      LabelsSound(n, links, order, chosen, m, u, v);
    }
    forall e | e in chosen
      ensures !Connected(n, links, chosen - {e}, links[e].a, links[e].b)
    {
      ChosenNeedsAll(n, links, order, e);
    }
  }

  /** Dropping a chosen edge loses a connection: otherwise too few edges would do. */
  lemma ChosenNeedsAll(n: nat, links: seq<Link>, order: seq<nat>, e: nat)
    requires InRange(n, links) && IsOrder(links, order) && e in Chosen(n, links, order) && e < |links|
    requires Taken(order, Chosen(n, links, order), |order|) == Chosen(n, links, order)
    ensures !Connected(n, links, Chosen(n, links, order) - {e}, links[e].a, links[e].b)
  {
    var chosen, m := Chosen(n, links, order), |order|;
    var rest := chosen - {e};
    assert Taken(order, rest, m) == rest;
    RootsAtLeast(n, links, order, rest, m);
    CountWithout(order, chosen, e, m);
    ChosenLabels(n, links, order, m);
    if Connected(n, links, rest, links[e].a, links[e].b) {
      forall u: nat, v: nat | Connected(n, links, chosen, u, v)
        ensures Connected(n, links, rest, u, v)
      {
        var p :| WalkBetween(n, links, chosen, p, u, v);
        Bypass(n, links, chosen, e, p, |p| - 1);
      }
      MoreEdgesFewerRoots(n, links, order, chosen, rest, m);
    }
  }

  // ---------- Optimality ----------

  predicate Ascending(weights: seq<real>, order: seq<nat>) {
    && (forall i :: 0 <= i < |order| ==> order[i] < |weights|)
    && (forall i, j :: 0 <= i < j < |order| ==> weights[order[i]] <= weights[order[j]])
  }

  /** The weight of the chosen edges among the first `k` of the order. */
  function OrderedWeight(weights: seq<real>, order: seq<nat>, edges: set<nat>, k: nat): real
    requires k <= |order| && forall i :: 0 <= i < |order| ==> order[i] < |weights|
  {
    if k == 0 then 0.0
    else OrderedWeight(weights, order, edges, k - 1) + if order[k - 1] in edges then weights[order[k - 1]] else 0.0
  }

  /** At every stage the greedy choice has at least as many edges as any forest. */
  lemma GreedyAhead(n: nat, links: seq<Link>, order: seq<nat>, other: set<nat>, k: nat)
    requires InRange(n, links) && IsOrder(links, order) && k <= |order| && IsForest(n, links, other)
    ensures CountTaken(order, other, k) <= CountTaken(order, Chosen(n, links, order), k)
  {
    ChosenLabels(n, links, order, k);
    ForestRoots(n, links, order, other, k);
    var all := AllEdges(links);
    forall u: nat, v: nat | Connected(n, links, Taken(order, other, k), u, v)
      ensures Connected(n, links, Taken(order, all, k), u, v)
    {
      ConnectedMono(n, links, Taken(order, other, k), Taken(order, all, k), u, v);
    }
    MoreEdgesFewerRoots(n, links, order, other, all, k);
  }

  /** How many edges the set has more than the greedy choice after `k` steps. */
  function Lead(n: nat, links: seq<Link>, order: seq<nat>, other: set<nat>, k: nat): real
    requires InRange(n, links) && IsOrder(links, order) && k <= |order|
  {
    (CountTaken(order, other, k) - CountTaken(order, Chosen(n, links, order), k)) as real
  }

  function Times(w: real, x: real): real {
    w * x
  }

  /** Summation by parts: being ahead in number at every stage of an ascending order means being cheaper,
      up to the edges still missing. */
  lemma {:induction false} GreedyCheaper(n: nat, links: seq<Link>, weights: seq<real>, order: seq<nat>, other: set<nat>, k: nat)
    requires InRange(n, links) && IsOrder(links, order) && Ascending(weights, order) && IsForest(n, links, other)
    requires 0 < k <= |order|
    ensures OrderedWeight(weights, order, other, k) - OrderedWeight(weights, order, Chosen(n, links, order), k)
         >= Times(weights[order[k - 1]], Lead(n, links, order, other, k))
  {
    hide IsForest, Chosen, Times;
    var chosen := Chosen(n, links, order);
    var w := weights[order[k - 1]];
    var before := Lead(n, links, order, other, k - 1);
    var cost := OrderedWeight(weights, order, other, k - 1) - OrderedWeight(weights, order, chosen, k - 1);
    var inOther, inChosen := order[k - 1] in other, order[k - 1] in chosen;
    var now := Lead(n, links, order, other, k);
    assert now == before + (if inOther then 1.0 else 0.0) - (if inChosen then 1.0 else 0.0);
    if k == 1 {
      PartsStep(w, w, before, cost, inOther, inChosen, now);
    } else {
      GreedyCheaper(n, links, weights, order, other, k - 1);
      GreedyAhead(n, links, order, other, k - 1);
      PartsStep(weights[order[k - 2]], w, before, cost, inOther, inChosen, now);
    }
  }

  /** One step of the summation by parts. */
  lemma PartsStep(v: real, w: real, before: real, cost: real, inOther: bool, inChosen: bool, now: real)
    requires v <= w && before <= 0.0 && ((before == 0.0 && cost == 0.0) || cost >= Times(v, before))
    requires now == before + (if inOther then 1.0 else 0.0) - (if inChosen then 1.0 else 0.0)
    ensures cost + (if inOther then w else 0.0) - (if inChosen then w else 0.0) >= Times(w, now)
  {
    assert (w - v) * (0.0 - before) >= 0.0;
    assert w * (before + 1.0) == w * before + w && w * (before - 1.0) == w * before - w;
  }

  lemma {:induction false} WeightInsert(weights: seq<real>, edges: set<nat>, e: nat, m: nat)
    requires m <= |weights| && e !in edges
    ensures WeightOf(weights, edges + {e}, m) == WeightOf(weights, edges, m) + if e < m then weights[e] else 0.0
  {
    if m > 0 {
      WeightInsert(weights, edges, e, m - 1);
    }
  }

  lemma {:induction false} OrderedIsWeight(links: seq<Link>, weights: seq<real>, order: seq<nat>, edges: set<nat>, k: nat)
    requires |weights| == |links| && IsOrder(links, order) && k <= |order|
    ensures OrderedWeight(weights, order, edges, k) == WeightOf(weights, Taken(order, edges, k), |weights|)
  {
    if k == 0 {
      assert Taken(order, edges, 0) == {};
      NoWeight(weights, |weights|);
    } else {
      OrderedIsWeight(links, weights, order, edges, k - 1);
      var before, e := Taken(order, edges, k - 1), order[k - 1];
      if e in edges {
        assert Taken(order, edges, k) == before + {e};
        WeightInsert(weights, before, e, |weights|);
      } else {
        assert Taken(order, edges, k) == before;
      }
    }
  }

  lemma {:induction false} NoWeight(weights: seq<real>, m: nat)
    requires m <= |weights|
    ensures WeightOf(weights, {}, m) == 0.0
  {
    if m > 0 {
      NoWeight(weights, m - 1);
    }
  }

  /** Kruskal's theorem: taking edges in ascending order gives a spanning forest of least weight. */
  lemma KruskalOptimal(n: nat, links: seq<Link>, weights: seq<real>, order: seq<nat>)
    requires InRange(n, links) && |weights| == |links| && IsOrder(links, order) && Ascending(weights, order)
    ensures MinimumSpanningForest(n, links, weights, Chosen(n, links, order))
  {
    var chosen, m := Chosen(n, links, order), |order|;
    ChosenSpans(n, links, order);
    forall other | IsForest(n, links, other) && Spans(n, links, other)
      ensures WeightOf(weights, chosen, |weights|) <= WeightOf(weights, other, |weights|)
    {
      TakenAll(links, order, chosen);
      TakenAll(links, order, other);
      OrderedIsWeight(links, weights, order, chosen, m);
      OrderedIsWeight(links, weights, order, other, m);
      if m > 0 {
        SameSize(n, links, order, other);
        GreedyCheaper(n, links, weights, order, other, m);
      }
    }
  }

  /** All spanning forests have the same number of edges. */
  lemma SameSize(n: nat, links: seq<Link>, order: seq<nat>, other: set<nat>)
    requires InRange(n, links) && IsOrder(links, order) && IsForest(n, links, other) && Spans(n, links, other)
    ensures CountTaken(order, other, |order|) == CountTaken(order, Chosen(n, links, order), |order|)
  {
    var all, m := AllEdges(links), |order|;
    GreedyAhead(n, links, order, other, m);
    TakenAll(links, order, all);
    TakenAll(links, order, other);
    MoreEdgesFewerRoots(n, links, order, all, other, m);
    ForestRoots(n, links, order, other, m);
    ChosenLabels(n, links, order, m);
  }

  // ---------- Other sets of edges ----------

  /** A set that connects the ends of every edge connects whatever all edges connect. */
  lemma SpansByEdges(n: nat, links: seq<Link>, edges: set<nat>)
    requires InRange(n, links)
    requires forall e :: 0 <= e < |links| ==> Connected(n, links, edges, links[e].a, links[e].b)
    ensures Spans(n, links, edges)
  {
    hide Connected;
    forall u: nat, v: nat | Connected(n, links, AllEdges(links), u, v)
      ensures Connected(n, links, edges, u, v)
    {
      WalkSpanned(n, links, edges, u, v);
    }
  }

  lemma WalkSpanned(n: nat, links: seq<Link>, edges: set<nat>, u: nat, v: nat)
    requires InRange(n, links) && Connected(n, links, AllEdges(links), u, v)
    requires forall e :: 0 <= e < |links| ==> Connected(n, links, edges, links[e].a, links[e].b)
    ensures Connected(n, links, edges, u, v)
  {
    var p :| WalkBetween(n, links, AllEdges(links), p, u, v);
    StepsSpanned(n, links, edges, p, |p| - 1);
  }

  lemma {:induction false} StepsSpanned(n: nat, links: seq<Link>, edges: set<nat>, p: seq<nat>, i: nat)
    requires InRange(n, links) && Walk(n, links, AllEdges(links), p) && i < |p|
    requires forall e :: 0 <= e < |links| ==> Connected(n, links, edges, links[e].a, links[e].b)
    ensures Connected(n, links, edges, p[0], p[i])
  {
    hide Connected;
    if i == 0 {
      ConnectedRefl(n, links, edges, p[0]);
    } else {
      StepsSpanned(n, links, edges, p, i - 1);
      var e :| e in AllEdges(links) && e < |links| && Touches(links[e], p[i - 1], p[i]);
      ConnectedSym(n, links, edges, links[e].a, links[e].b);
      ConnectedTrans(n, links, edges, p[0], p[i - 1], p[i]);
    }
  }

  /** An edge whose ends the others connect can be left out. */
  lemma LeaveOut(n: nat, links: seq<Link>, edges: set<nat>, e: nat)
    requires InRange(n, links) && Spans(n, links, edges) && e in edges && e < |links|
    requires Connected(n, links, edges - {e}, links[e].a, links[e].b)
    ensures Spans(n, links, edges - {e})
  {
    hide Connected;
    forall k | 0 <= k < |links|
      ensures Connected(n, links, edges - {e}, links[k].a, links[k].b)
    {
      ConnectedEdge(n, links, AllEdges(links), k);
      StillConnected(n, links, edges, e, links[k].a, links[k].b);
    }
    SpansByEdges(n, links, edges - {e});
  }

  lemma StillConnected(n: nat, links: seq<Link>, edges: set<nat>, e: nat, u: nat, v: nat)
    requires InRange(n, links) && e < |links| && Connected(n, links, edges, u, v)
    requires Connected(n, links, edges - {e}, links[e].a, links[e].b)
    ensures Connected(n, links, edges - {e}, u, v)
  {
    var p :| WalkBetween(n, links, edges, p, u, v);
    Bypass(n, links, edges, e, p, |p| - 1);
  }

  /** Without negative weights every spanning set holds a spanning forest that is no heavier. */
  lemma {:induction false} ForestInside(n: nat, links: seq<Link>, weights: seq<real>, edges: set<nat>) returns (forest: set<nat>)
    requires InRange(n, links) && |weights| == |links| && Spans(n, links, edges) && edges <= AllEdges(links)
    requires forall k :: 0 <= k < |weights| ==> weights[k] >= 0.0
    ensures IsForest(n, links, forest) && Spans(n, links, forest)
    ensures WeightOf(weights, forest, |weights|) <= WeightOf(weights, edges, |weights|)
    decreases edges
  {
    hide Connected, Spans;
    forest := edges;
    if e :| e in edges && Connected(n, links, edges - {e}, links[e].a, links[e].b) {
      LeaveOut(n, links, edges, e);
      WeightWithout(weights, edges, e, |weights|);
      forest := ForestInside(n, links, weights, edges - {e});
    }
  }

  lemma {:induction false} WeightWithout(weights: seq<real>, edges: set<nat>, e: nat, m: nat)
    requires e in edges && m <= |weights|
    ensures WeightOf(weights, edges, m) == WeightOf(weights, edges - {e}, m) + if e < m then weights[e] else 0.0
  {
    if m > 0 {
      WeightWithout(weights, edges, e, m - 1);
    }
  }

  /** Part of a forest is a forest. */
  lemma PartIsForest(n: nat, links: seq<Link>, edges: set<nat>, part: set<nat>)
    requires IsForest(n, links, edges) && part <= edges
    ensures IsForest(n, links, part)
  {
    hide Connected;
    forall e | e in part
      ensures e < |links| && !Connected(n, links, part - {e}, links[e].a, links[e].b)
    {
      if Connected(n, links, part - {e}, links[e].a, links[e].b) {
        ConnectedMono(n, links, part - {e}, edges - {e}, links[e].a, links[e].b);
      }
    }
  }

  // ---------- Negative weights ----------

  function Negatives(weights: seq<real>): set<nat> {
    set k | 0 <= k < |weights| && weights[k] < 0.0
  }

  /** An edge that is not chosen closes a cycle with edges before it in the order. */
  lemma RefusedCloses(n: nat, links: seq<Link>, order: seq<nat>, i: nat)
    requires InRange(n, links) && IsOrder(links, order) && i < |order| && order[i] !in Chosen(n, links, order)
    ensures Connected(n, links, Taken(order, AllEdges(links), i), links[order[i]].a, links[order[i]].b)
  {
    hide Connected;
    ChosenAt(n, links, order, i);
    LabelsSound(n, links, order, AllEdges(links), i, links[order[i]].a, links[order[i]].b);
  }

  /** All edges of negative weight are chosen if and only if they form a forest. */
  lemma NegativesChosen(n: nat, links: seq<Link>, weights: seq<real>, order: seq<nat>)
    requires InRange(n, links) && |weights| == |links| && IsOrder(links, order) && Ascending(weights, order)
    ensures Negatives(weights) <= Chosen(n, links, order) <==> IsForest(n, links, Negatives(weights))
  {
    hide Connected, Chosen;
    var chosen, negatives := Chosen(n, links, order), Negatives(weights);
    ChosenSpans(n, links, order);
    if negatives <= chosen {
      PartIsForest(n, links, chosen, negatives);
    } else {
      var k :| k in negatives && k !in chosen;
      assert k in AllEdges(links);
      TakenAll(links, order, AllEdges(links));
      var i :| 0 <= i < |order| && order[i] == k;
      RefusedCloses(n, links, order, i);
      var before := Taken(order, AllEdges(links), i);
      assert forall j :: 0 <= j < i ==> weights[order[j]] <= weights[order[i]];
      assert before <= negatives - {k};
      ConnectedMono(n, links, before, negatives - {k}, links[k].a, links[k].b);
    }
  }

  /** Where every edge of negative weight is in the one set, cutting weights off below at zero favours the other. */
  lemma {:induction false} CutOff(weights: seq<real>, positive: seq<real>, all: set<nat>, some: set<nat>, m: nat)
    requires m <= |weights| == |positive| && Negatives(weights) <= all
    requires forall k :: 0 <= k < |weights| ==> positive[k] == if weights[k] < 0.0 then 0.0 else weights[k]
    ensures WeightOf(weights, all, m) - WeightOf(positive, all, m) <= WeightOf(weights, some, m) - WeightOf(positive, some, m)
  {
    if m > 0 {
      CutOff(weights, positive, all, some, m - 1);
    }
  }

  /** The greedy choice is lightest among all sets that connect as much, cycles or not, if and only if the edges of
      negative weight form a forest. */
  lemma LightestSpanning(n: nat, links: seq<Link>, weights: seq<real>, order: seq<nat>)
    requires InRange(n, links) && |weights| == |links| && IsOrder(links, order) && Ascending(weights, order)
    ensures (forall edges :: edges <= AllEdges(links) && Spans(n, links, edges) ==>
               WeightOf(weights, Chosen(n, links, order), |weights|) <= WeightOf(weights, edges, |weights|))
            <==> IsForest(n, links, Negatives(weights))
  {
    hide Connected, Chosen, Spans, Negatives, IsForest, WeightOf, Ascending;
    var chosen := Chosen(n, links, order);
    NegativesChosen(n, links, weights, order);
    if Negatives(weights) <= chosen {
      forall edges | edges <= AllEdges(links) && Spans(n, links, edges)
        ensures WeightOf(weights, chosen, |weights|) <= WeightOf(weights, edges, |weights|)
      {
        LighterThanSpanning(n, links, weights, order, edges);
      }
    } else {
      var k :| k in Negatives(weights) && k !in chosen;
      OneMore(n, links, weights, order, k);
    }
  }

  lemma LighterThanSpanning(n: nat, links: seq<Link>, weights: seq<real>, order: seq<nat>, edges: set<nat>)
    requires InRange(n, links) && |weights| == |links| && IsOrder(links, order) && Ascending(weights, order)
    requires Negatives(weights) <= Chosen(n, links, order) && edges <= AllEdges(links) && Spans(n, links, edges)
    ensures WeightOf(weights, Chosen(n, links, order), |weights|) <= WeightOf(weights, edges, |weights|)
  {
    hide Connected, Chosen, Spans, IsForest, WeightOf;
    var positive := seq(|weights|, k requires 0 <= k < |weights| => if weights[k] < 0.0 then 0.0 else weights[k]);
    KruskalOptimal(n, links, positive, order);
    var forest := ForestInside(n, links, positive, edges);
    CutOff(weights, positive, Chosen(n, links, order), edges, |weights|);
  }

  /** Another edge of negative weight makes the choice lighter. */
  lemma OneMore(n: nat, links: seq<Link>, weights: seq<real>, order: seq<nat>, k: nat)
    requires InRange(n, links) && |weights| == |links| && IsOrder(links, order)
    requires k in Negatives(weights) && k !in Chosen(n, links, order)
    ensures var more := Chosen(n, links, order) + {k};
            && more <= AllEdges(links) && Spans(n, links, more)
            && WeightOf(weights, more, |weights|) < WeightOf(weights, Chosen(n, links, order), |weights|)
  {
    hide Connected, Chosen, WeightOf;
    var chosen := Chosen(n, links, order);
    ChosenSpans(n, links, order);
    WeightInsert(weights, chosen, k, |weights|);
    forall u: nat, v: nat | Connected(n, links, AllEdges(links), u, v)
      ensures Connected(n, links, chosen + {k}, u, v)
    {
      ConnectedMono(n, links, chosen, chosen + {k}, u, v);
    }
  }
}
