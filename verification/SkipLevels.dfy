/** What storing under a key does to a sorted list of entries: the meaning of the skip list. */
module SortedEntries {
  import opened Bytes
  import opened BlockFormat
  import opened Options

  /** What storing a value under a key does to a sorted list of entries. */
  function Inserted(es: seq<Entry>, key: bytes, value: bytes): seq<Entry> {
    if es == [] || Less(key, es[0].key) then [Entry(key, value)] + es
    else if es[0].key == key then [Entry(key, value)] + es[1..]
    else [es[0]] + Inserted(es[1..], key, value)
  }

  /** After an insert the key has the new value and every other key has what it had. */
  lemma {:induction false} InsertedLookup(es: seq<Entry>, key: bytes, value: bytes, q: bytes)
    requires Ascending(es)
    ensures Lookup(Inserted(es, key, value), q) == if q == key then Some(value) else Lookup(es, q)
  {
    if es == [] || Less(key, es[0].key) || es[0].key == key {
      LessIrreflexive(key);
    } else {
      InsertedLookup(es[1..], key, value, q);
    }
  }

  lemma {:induction false} InsertedKeys(es: seq<Entry>, key: bytes, value: bytes)
    ensures forall i :: 0 <= i < |Inserted(es, key, value)| ==>
                          Inserted(es, key, value)[i].key == key || exists j :: 0 <= j < |es| && es[j].key == Inserted(es, key, value)[i].key
  {
    if !(es == [] || Less(key, es[0].key) || es[0].key == key) {
      var rest := Inserted(es[1..], key, value);
      InsertedKeys(es[1..], key, value);
      forall i | 0 <= i < |Inserted(es, key, value)|
        ensures Inserted(es, key, value)[i].key == key || exists j :: 0 <= j < |es| && es[j].key == Inserted(es, key, value)[i].key
      {
        if i > 0 && rest[i - 1].key != key {
          var j :| 0 <= j < |es[1..]| && es[1..][j].key == rest[i - 1].key;
          assert es[j + 1].key == rest[i - 1].key;
        }
      }
    }
  }

  /** Inserting keeps the order. */
  lemma {:induction false} InsertedAscending(es: seq<Entry>, key: bytes, value: bytes)
    requires Ascending(es)
    ensures Ascending(Inserted(es, key, value))
  {
    if es != [] && !Less(key, es[0].key) && es[0].key != key {
      InsertedAscending(es[1..], key, value);
      InsertedKeys(es[1..], key, value);
      LessTotal(key, es[0].key);
    } else if es != [] && Less(key, es[0].key) {
      forall j | 0 < j < |es|
        ensures Less(key, es[j].key)
      {
        LessTrans(key, es[0].key, es[j].key);
      }
    }
  }

  lemma NotBothWays(a: bytes, b: bytes)
    requires Less(a, b)
    ensures a != b && !Less(b, a)
  {
    KeyCompareIsOrder(a, b);
  }

  /** The list is what it was before position `p`, then the entry, then what it was. */
  lemma {:induction false} InsertedAt(es: seq<Entry>, key: bytes, value: bytes, p: nat)
    requires p <= |es| && forall j :: 0 <= j < p ==> Less(es[j].key, key)
    requires p < |es| ==> Less(key, es[p].key)
    ensures Inserted(es, key, value) == es[..p] + [Entry(key, value)] + es[p..]
  {
    if p > 0 {
      NotBothWays(es[0].key, key);
      InsertedAt(es[1..], key, value, p - 1);
      assert es[1..][..p - 1] == es[..p][1..];
    }
  }

  lemma {:induction false} InsertedOver(es: seq<Entry>, key: bytes, value: bytes, p: nat)
    requires p < |es| && forall j :: 0 <= j < p ==> Less(es[j].key, key)
    requires es[p].key == key
    ensures Inserted(es, key, value) == es[p := Entry(key, value)]
  {
    if p > 0 {
      NotBothWays(es[0].key, key);
      InsertedOver(es[1..], key, value, p - 1);
    } else {
      LessIrreflexive(key);
    }
  }

  /** The list after a run of inserts, the last one last. */
  function AfterInserts(run: seq<Entry>): seq<Entry> {
    if run == [] then [] else Inserted(AfterInserts(run[..|run| - 1]), run[|run| - 1].key, run[|run| - 1].value)
  }

  /** The value of the last insert of the key in the run. */
  function LastInserted(run: seq<Entry>, key: bytes): Option<bytes> {
    if run == [] then None
    else if run[|run| - 1].key == key then Some(run[|run| - 1].value)
    else LastInserted(run[..|run| - 1], key)
  }

  /** Over any run of inserts: the list is in strictly ascending order and holds for each key the value inserted last. */
  lemma {:induction false} RunKeepsLast(run: seq<Entry>, key: bytes)
    ensures Ascending(AfterInserts(run)) && Lookup(AfterInserts(run), key) == LastInserted(run, key)
  {
    if run != [] {
      var before, e := AfterInserts(run[..|run| - 1]), run[|run| - 1];
      RunKeepsLast(run[..|run| - 1], key);
      InsertedAscending(before, e.key, e.value);
      InsertedLookup(before, e.key, e.value, key);
    }
  }
}

/** The levels of a skip list as sequences of nodes, and the walk that every operation makes down through them. */
module SkipLevels {
  import opened Bytes
  import opened BlockFormat
  import opened SortedEntries

  const MAX_LEVEL := 12

  /** A node's forward pointers, one for each level. */
  type Links = s: seq<SkipNode?> | |s| == MAX_LEVEL witness seq(MAX_LEVEL, _ => null)

  class SkipNode {
    const key: bytes
    var value: bytes
    var forward: Links

    constructor (key: bytes, value: bytes)
      ensures this.key == key && this.value == value && forward == seq(MAX_LEVEL, _ => null)
    {
      this.key, this.value := key, value;
      forward := seq(MAX_LEVEL, _ => null);
    }
  }

  // ---------- One level ----------

  /** The node at a position of a level, the header standing at position 0. */
  function At(header: SkipNode, lv: seq<SkipNode>, k: nat): SkipNode
    requires k <= |lv|
  {
    if k == 0 then header else lv[k - 1]
  }

  function Next(lv: seq<SkipNode>, k: nat): SkipNode? {
    if k < |lv| then lv[k] else null
  }

  /** The pointers of level `i` lead from the header through exactly these nodes. */
  ghost predicate Linked(header: SkipNode, lv: seq<SkipNode>, i: nat)
    requires i < MAX_LEVEL
    reads header, lv
  {
    forall k {:trigger At(header, lv, k)} :: 0 <= k <= |lv| ==> At(header, lv, k).forward[i] == Next(lv, k)
  }

  ghost predicate DistinctNodes(lv: seq<SkipNode>) {
    forall j, k :: 0 <= j < k < |lv| ==> lv[j] != lv[k]
  }

  ghost predicate SortedNodes(lv: seq<SkipNode>) {
    forall j, k :: 0 <= j < k < |lv| ==> Less(lv[j].key, lv[k].key)
  }

  /** The first `p` nodes have smaller keys. */
  ghost predicate SmallerBefore(lv: seq<SkipNode>, key: bytes, p: nat) {
    p <= |lv| && forall j :: 0 <= j < p ==> Less(lv[j].key, key)
  }

  /** The nodes before position `p` have smaller keys, the others do not. */
  ghost predicate Cut(lv: seq<SkipNode>, key: bytes, p: nat) {
    SmallerBefore(lv, key, p) && forall j :: p <= j < |lv| ==> !Less(lv[j].key, key)
  }

  /** Some node has the key. */
  ghost predicate HasKey(lv: seq<SkipNode>, key: bytes) {
    exists k :: 0 <= k < |lv| && lv[k].key == key
  }

  ghost predicate NoEmptyKey(lv: seq<SkipNode>) {
    forall k :: 0 <= k < |lv| ==> lv[k].key != []
  }

  /** No two nodes under the empty key stand side by side. */
  ghost predicate EmptiesApart(lv: seq<SkipNode>) {
    forall k :: 0 <= k < |lv| - 1 ==> lv[k].key != [] || lv[k + 1].key != []
  }

  function EntryOf(n: SkipNode): Entry
    reads n
  {
    Entry(n.key, n.value)
  }

  function EntriesOf(lv: seq<SkipNode>): (es: seq<Entry>)
    reads lv
    ensures |es| == |lv| && forall i :: 0 <= i < |lv| ==> es[i] == EntryOf(lv[i])
  {
    if lv == [] then [] else EntriesOf(lv[..|lv| - 1]) + [EntryOf(lv[|lv| - 1])]
  }

  function WithNode(lv: seq<SkipNode>, p: nat, n: SkipNode): (lv': seq<SkipNode>)
    requires p <= |lv|
    ensures |lv'| == |lv| + 1 && forall k :: 0 <= k < |lv'| ==> lv'[k] == if k < p then lv[k] else if k == p then n else lv[k - 1]
  {
    lv[..p] + [n] + lv[p..]
  }

  lemma HasKeyWithNode(lv: seq<SkipNode>, p: nat, n: SkipNode, key: bytes)
    requires p <= |lv|
    ensures HasKey(WithNode(lv, p, n), key) <==> key == n.key || HasKey(lv, key)
  {
    var lv' := WithNode(lv, p, n);
    assert lv'[p] == n;
    if k :| 0 <= k < |lv| && lv[k].key == key {
      assert lv'[if k < p then k else k + 1].key == key;
    }
  }

  /** A node put where its key belongs keeps the order. */
  lemma WithNodeSorted(lv: seq<SkipNode>, p: nat, n: SkipNode)
    requires SortedNodes(lv) && Cut(lv, n.key, p) && (p < |lv| ==> lv[p].key != n.key)
    ensures SortedNodes(WithNode(lv, p, n))
  {
    forall j | p <= j < |lv|
      ensures Less(n.key, lv[j].key)
    {
      LessTotal(lv[p].key, n.key);
      if j > p {
        LessTrans(n.key, lv[p].key, lv[j].key);
      }
    }
  }

  lemma EntriesWithNode(es: seq<Entry>, lv: seq<SkipNode>, p: nat, n: SkipNode)
    requires p <= |lv| == |es| && forall i :: 0 <= i < |lv| ==> es[i] == EntryOf(lv[i])
    ensures EntriesOf(WithNode(lv, p, n)) == es[..p] + [EntryOf(n)] + es[p..]
  {
  }

  // ---------- Levels above each other ----------

  /** Where a node stands in a level. */
  ghost function PlaceOf(lv: seq<SkipNode>, n: SkipNode): (k: nat)
    requires n in lv
    ensures k < |lv| && lv[k] == n
  {
    if lv[0] == n then 0 else 1 + PlaceOf(lv[1..], n)
  }

  /** The nodes of `upper` stand in `lower` in the same order. */
  ghost predicate Nested(upper: seq<SkipNode>, lower: seq<SkipNode>) {
    && (forall k :: 0 <= k < |upper| ==> upper[k] in lower)
    && forall j, k :: 0 <= j < k < |upper| ==> PlaceOf(lower, upper[j]) < PlaceOf(lower, upper[k])
  }

  /** `upper` is `lower` with some nodes left out. */
  ghost predicate SublistOf(upper: seq<SkipNode>, lower: seq<SkipNode>) {
    upper == [] || (lower != [] && if upper[0] == lower[0] then SublistOf(upper[1..], lower[1..]) else SublistOf(upper, lower[1..]))
  }

  lemma {:induction false} NestedIsSublist(upper: seq<SkipNode>, lower: seq<SkipNode>)
    requires Nested(upper, lower) && DistinctNodes(lower)
    ensures SublistOf(upper, lower)
    decreases |lower|
  {
    hide Nested, DistinctNodes;
    if upper != [] {
      RestNested(upper, lower);
      NestedIsSublist(if upper[0] == lower[0] then upper[1..] else upper, lower[1..]);
    }
  }

  lemma RestNested(upper: seq<SkipNode>, lower: seq<SkipNode>)
    requires Nested(upper, lower) && DistinctNodes(lower) && upper != []
    ensures lower != [] && DistinctNodes(lower[1..])
    ensures Nested(if upper[0] == lower[0] then upper[1..] else upper, lower[1..])
  {
    assert upper[0] in lower;
    var first := upper[0] == lower[0];
    var rest := if first then upper[1..] else upper;
    PlaceIs(lower, lower[0], 0);
    forall k | 0 <= k < |rest|
      ensures rest[k] in lower[1..] && PlaceOf(lower[1..], rest[k]) == PlaceOf(lower, rest[k]) - 1
    {
      var k' := if first then k + 1 else k;
      assert rest[k] == upper[k'] && upper[k'] in lower;
      assert k' > 0 ==> PlaceOf(lower, upper[0]) < PlaceOf(lower, upper[k']);
      TailPlace(lower, rest[k]);
    }
  }

  lemma TailPlace(lv: seq<SkipNode>, n: SkipNode)
    requires n in lv && PlaceOf(lv, n) > 0
    ensures n in lv[1..] && PlaceOf(lv[1..], n) == PlaceOf(lv, n) - 1
  {
    assert lv[1..][PlaceOf(lv, n) - 1] == n;
  }

  lemma PlaceIs(lv: seq<SkipNode>, n: SkipNode, k: nat)
    requires DistinctNodes(lv) && k < |lv| && lv[k] == n
    ensures PlaceOf(lv, n) == k
  {
  }

  /** A new node moves those behind it by one. */
  lemma PlaceWithNode(lv: seq<SkipNode>, p: nat, n: SkipNode, m: SkipNode)
    requires DistinctNodes(lv) && p <= |lv| && n !in lv && m in lv
    ensures DistinctNodes(WithNode(lv, p, n)) && n in WithNode(lv, p, n) && PlaceOf(WithNode(lv, p, n), n) == p
    ensures m in WithNode(lv, p, n)
    ensures PlaceOf(WithNode(lv, p, n), m) == PlaceOf(lv, m) + if PlaceOf(lv, m) >= p then 1 else 0
  {
    var lv', k := WithNode(lv, p, n), PlaceOf(lv, m);
    DistinctWithNode(lv, p, n);
    var k' := if k >= p then k + 1 else k;
    assert lv'[k'] == m && lv'[p] == n;
    PlaceIs(lv', m, k');
    PlaceIs(lv', n, p);
  }

  lemma DistinctWithNode(lv: seq<SkipNode>, p: nat, n: SkipNode)
    requires DistinctNodes(lv) && p <= |lv| && n !in lv
    ensures DistinctNodes(WithNode(lv, p, n))
  {
  }

  /** Position `p` of the upper level and position `q` of the lower one are the same place. */
  ghost predicate SamePlace(upper: seq<SkipNode>, lower: seq<SkipNode>, p: nat, q: nat)
    requires Nested(upper, lower)
  {
    && p <= |upper| && q <= |lower|
    && (p > 0 ==> PlaceOf(lower, upper[p - 1]) < q)
    && (p < |upper| ==> q <= PlaceOf(lower, upper[p]))
  }

  /** A node put into both levels at the same place keeps them nested. */
  lemma NestedWithNode(upper: seq<SkipNode>, lower: seq<SkipNode>, p: nat, q: nat, n: SkipNode)
    requires Nested(upper, lower) && DistinctNodes(lower) && n !in upper && n !in lower
    requires p <= |upper| && q <= |lower| && SamePlace(upper, lower, p, q)
    ensures Nested(WithNode(upper, p, n), WithNode(lower, q, n))
  {
    hide PlaceOf, DistinctNodes, SamePlace;
    var above, below := WithNode(upper, p, n), WithNode(lower, q, n);
    NewPlace(lower, q, n);
    forall k | 0 <= k < |above|
      ensures above[k] in below
      ensures k < p ==> PlaceOf(below, above[k]) == PlaceOf(lower, upper[k]) < q
      ensures k == p ==> PlaceOf(below, above[k]) == q
      ensures k > p ==> PlaceOf(below, above[k]) == PlaceOf(lower, upper[k - 1]) + 1 > q
    {
      if k != p {
        var k' := if k < p then k else k - 1;
        PlaceWithNode(lower, q, n, upper[k']);
        SideOf(upper, lower, p, q, k');
      }
    }
    forall j, k | 0 <= j < k < |above|
      ensures PlaceOf(below, above[j]) < PlaceOf(below, above[k])
    {
      assert k < p ==> PlaceOf(lower, upper[j]) < PlaceOf(lower, upper[k]);
      assert j > p ==> PlaceOf(lower, upper[j - 1]) < PlaceOf(lower, upper[k - 1]);
    }
  }

  lemma NewPlace(lv: seq<SkipNode>, p: nat, n: SkipNode)
    requires DistinctNodes(lv) && p <= |lv| && n !in lv
    ensures n in WithNode(lv, p, n) && PlaceOf(WithNode(lv, p, n), n) == p
  {
    DistinctWithNode(lv, p, n);
    assert WithNode(lv, p, n)[p] == n;
    PlaceIs(WithNode(lv, p, n), n, p);
  }

  /** A node stands on the same side of the place in both levels. */
  lemma SideOf(upper: seq<SkipNode>, lower: seq<SkipNode>, p: nat, q: nat, k: nat)
    requires Nested(upper, lower) && SamePlace(upper, lower, p, q) && k < |upper|
    ensures k < p <==> PlaceOf(lower, upper[k]) < q
  {
    assert k + 1 < p ==> PlaceOf(lower, upper[k]) < PlaceOf(lower, upper[p - 1]);
    assert p < k ==> PlaceOf(lower, upper[p]) < PlaceOf(lower, upper[k]);
  }

  /** A node put into the lower level only keeps the upper one nested in it. */
  lemma NestedBelow(upper: seq<SkipNode>, lower: seq<SkipNode>, q: nat, n: SkipNode)
    requires Nested(upper, lower) && DistinctNodes(lower) && n !in lower && q <= |lower|
    ensures Nested(upper, WithNode(lower, q, n))
  {
    forall k | 0 <= k < |upper|
      ensures upper[k] in WithNode(lower, q, n)
      ensures PlaceOf(WithNode(lower, q, n), upper[k]) == PlaceOf(lower, upper[k]) + if PlaceOf(lower, upper[k]) >= q then 1 else 0
    {
      PlaceWithNode(lower, q, n, upper[k]);
    }
  }

  // ---------- The walk ----------

  /** A walk for the key goes over nodes with smaller keys, but stops before the empty key. */
  ghost predicate Passes(n: SkipNode, key: bytes) {
    n.key != [] && Less(n.key, key)
  }

  /** Where a walk along a level from position `p` stops. */
  ghost function Stop(lv: seq<SkipNode>, key: bytes, p: nat): (q: nat)
    requires p <= |lv|
    ensures p <= q <= |lv| && (q < |lv| ==> !Passes(lv[q], key)) && forall j :: p <= j < q ==> Passes(lv[j], key)
    decreases |lv| - p
  {
    if p < |lv| && Passes(lv[p], key) then Stop(lv, key, p + 1) else p
  }

  lemma StopIs(lv: seq<SkipNode>, key: bytes, p: nat, q: nat)
    requires p <= q <= |lv| && (q < |lv| ==> !Passes(lv[q], key)) && forall j :: p <= j < q ==> Passes(lv[j], key)
    ensures Stop(lv, key, p) == q
  {
  }

  /** A level has no node twice, and its nodes stand in the level below in the same order. */
  ghost predicate Fits(levels: seq<seq<SkipNode>>, i: nat)
    requires i < |levels|
  {
    DistinctNodes(levels[i]) && (i > 0 ==> Nested(levels[i], levels[i - 1]))
  }

  ghost predicate Stacked(levels: seq<seq<SkipNode>>) {
    |levels| == MAX_LEVEL && forall i {:trigger Fits(levels, i)} :: 0 <= i < MAX_LEVEL ==> Fits(levels, i)
  }

  lemma Height(levels: seq<seq<SkipNode>>)
    requires Stacked(levels)
    ensures |levels| == MAX_LEVEL
  {
  }

  /** Going down from position `p` of a level to the one below. */
  ghost function Under(upper: seq<SkipNode>, lower: seq<SkipNode>, p: nat): (q: nat)
    requires Nested(upper, lower) && p <= |upper|
    ensures q <= |lower| && (p == 0 <==> q == 0)
  {
    if p == 0 then 0 else PlaceOf(lower, upper[p - 1]) + 1
  }

  /** Where the walk enters level `i`. */
  ghost function Start(levels: seq<seq<SkipNode>>, key: bytes, i: nat): (p: nat)
    requires Stacked(levels) && i < MAX_LEVEL
    ensures p <= |levels[i]|
    decreases MAX_LEVEL - i, 0
  {
    if i == MAX_LEVEL - 1 then 0 else assert Fits(levels, i + 1); Under(levels[i + 1], levels[i], Place(levels, key, i + 1))
  }

  /** Where the walk leaves level `i`. */
  ghost function Place(levels: seq<seq<SkipNode>>, key: bytes, i: nat): (p: nat)
    requires Stacked(levels) && i < MAX_LEVEL
    ensures Start(levels, key, i) <= p <= |levels[i]| && (p < |levels[i]| ==> !Passes(levels[i][p], key))
    ensures forall j :: Start(levels, key, i) <= j < p ==> Passes(levels[i][j], key)
    decreases MAX_LEVEL - i, 1
  {
    Stop(levels[i], key, Start(levels, key, i))
  }

  lemma StartUnfolds(levels: seq<seq<SkipNode>>, key: bytes, i: nat)
    requires Stacked(levels) && i < MAX_LEVEL
    ensures i == MAX_LEVEL - 1 ==> Start(levels, key, i) == 0
    ensures i < MAX_LEVEL - 1 ==>
              Nested(levels[i + 1], levels[i]) && Start(levels, key, i) == Under(levels[i + 1], levels[i], Place(levels, key, i + 1))
  {
    assert i < MAX_LEVEL - 1 ==> Fits(levels, i + 1);
  }

  lemma PlaceUnfolds(levels: seq<seq<SkipNode>>, key: bytes, i: nat)
    requires Stacked(levels) && i < MAX_LEVEL
    ensures Place(levels, key, i) == Stop(levels[i], key, Start(levels, key, i))
  {
  }

  ghost function Places(levels: seq<seq<SkipNode>>, key: bytes): (ps: seq<nat>)
    requires Stacked(levels)
    ensures |ps| == MAX_LEVEL && forall i :: 0 <= i < MAX_LEVEL ==> ps[i] == Place(levels, key, i) <= |levels[i]|
  {
    seq(MAX_LEVEL, i requires 0 <= i < MAX_LEVEL => Place(levels, key, i))
  }

  /** The node behind a position, if it has the key. */
  function Behind(lv: seq<SkipNode>, p: nat, key: bytes): (r: SkipNode?)
    ensures r != null ==> r in lv && r.key == key
  {
    if p < |lv| && lv[p].key == key then lv[p] else null
  }

  /** What the walk finds. */
  ghost function Found(levels: seq<seq<SkipNode>>, key: bytes): (r: SkipNode?)
    requires Stacked(levels)
    ensures r != null ==> r in levels[0] && r.key == key
  {
    Behind(levels[0], Place(levels, key, 0), key)
  }

  /** The walk stays at the header when every level begins with a node that stops it. */
  lemma {:induction false} FrontStops(levels: seq<seq<SkipNode>>, key: bytes, i: nat)
    requires Stacked(levels) && i < MAX_LEVEL
    requires forall j :: i <= j < MAX_LEVEL && levels[j] != [] ==> !Passes(levels[j][0], key)
    ensures Start(levels, key, i) == Place(levels, key, i) == 0
    decreases MAX_LEVEL - i
  {
    if i + 1 < MAX_LEVEL {
      FrontStops(levels, key, i + 1);
    }
  }

  /** A walk for the empty key goes nowhere. */
  lemma EmptyStays(levels: seq<seq<SkipNode>>, i: nat)
    requires Stacked(levels) && i < MAX_LEVEL
    ensures Start(levels, [], i) == Place(levels, [], i) == 0
  {
    FrontStops(levels, [], i);
  }

  /** The places where a walk leaves two levels are the same. */
  lemma LeavesSamePlace(levels: seq<seq<SkipNode>>, key: bytes, i: nat)
    requires Stacked(levels) && 0 < i < MAX_LEVEL
    ensures Nested(levels[i], levels[i - 1]) && SamePlace(levels[i], levels[i - 1], Place(levels, key, i), Place(levels, key, i - 1))
  {
    hide Nested, SamePlace, Place, Start, Stop, Under, Passes;
    StartUnfolds(levels, key, i - 1);
    PlaceUnfolds(levels, key, i - 1);
    StopsAtSamePlace(levels[i], levels[i - 1], key, Place(levels, key, i));
  }

  lemma StopsAtSamePlace(upper: seq<SkipNode>, lower: seq<SkipNode>, key: bytes, p: nat)
    requires Nested(upper, lower) && p <= |upper| && (p < |upper| ==> !Passes(upper[p], key))
    ensures SamePlace(upper, lower, p, Stop(lower, key, Under(upper, lower, p)))
  {
    hide PlaceOf, Passes, Stop;
    if p < |upper| {
      var k := PlaceOf(lower, upper[p]);
      assert p > 0 ==> PlaceOf(lower, upper[p - 1]) < k;
      assert !Passes(lower[k], key);
    }
  }

  /** Every node is on level 0. */
  lemma {:induction false} OnGround(levels: seq<seq<SkipNode>>, i: nat, n: SkipNode)
    requires Stacked(levels) && i < MAX_LEVEL && n in levels[i]
    ensures n in levels[0]
  {
    if i > 0 {
      assert Fits(levels, i);
      OnGround(levels, i - 1, n);
    }
  }

  // ---------- Walks for different keys ----------

  lemma UnderMonotone(upper: seq<SkipNode>, lower: seq<SkipNode>, p: nat, q: nat)
    requires Nested(upper, lower) && p <= q <= |upper|
    ensures Under(upper, lower, p) <= Under(upper, lower, q)
  {
  }

  lemma StopMonotone(lv: seq<SkipNode>, a: bytes, b: bytes, p: nat, q: nat)
    requires p <= q <= |lv| && Less(a, b)
    ensures Stop(lv, a, p) <= Stop(lv, b, q)
  {
    var sa, sb := Stop(lv, a, p), Stop(lv, b, q);
    if sb < sa {
      LessTrans(lv[sb].key, a, b);
      assert false;
    }
  }

  /** A walk for a larger key gets no less far on every level. */
  lemma {:induction false} WalksOrdered(levels: seq<seq<SkipNode>>, a: bytes, b: bytes, i: nat)
    requires Stacked(levels) && i < MAX_LEVEL && Less(a, b)
    ensures Start(levels, a, i) <= Start(levels, b, i) && Place(levels, a, i) <= Place(levels, b, i)
    decreases MAX_LEVEL - i
  {
    StartUnfolds(levels, a, i);
    StartUnfolds(levels, b, i);
    if i + 1 < MAX_LEVEL {
      WalksOrdered(levels, a, b, i + 1);
      UnderMonotone(levels[i + 1], levels[i], Place(levels, a, i + 1), Place(levels, b, i + 1));
    }
    StopMonotone(levels[i], a, b, Start(levels, a, i), Start(levels, b, i));
  }

  // ---------- Walks after an insert ----------

  /** The levels with a node put into the first `count` of them. */
  ghost function Woven(levels: seq<seq<SkipNode>>, ps: seq<nat>, n: SkipNode, count: nat): (woven: seq<seq<SkipNode>>)
    requires |levels| == |ps| && forall i :: 0 <= i < |levels| ==> ps[i] <= |levels[i]|
    ensures |woven| == |levels|
    ensures forall i :: 0 <= i < |levels| ==> woven[i] == if i < count then WithNode(levels[i], ps[i], n) else levels[i]
  {
    seq(|levels|, i requires 0 <= i < |levels| => if i < count then WithNode(levels[i], ps[i], n) else levels[i])
  }

  ghost predicate Absent(levels: seq<seq<SkipNode>>, n: SkipNode) {
    forall i :: 0 <= i < |levels| ==> n !in levels[i]
  }

  /** The levels after a new node was put where the walk for its key left each of the first `count`. */
  ghost function Grown(levels: seq<seq<SkipNode>>, n: SkipNode, count: nat): (grown: seq<seq<SkipNode>>)
    requires Stacked(levels)
    ensures |grown| == MAX_LEVEL
  {
    Woven(levels, Places(levels, n.key), n, count)
  }

  lemma GrownIs(levels: seq<seq<SkipNode>>, n: SkipNode, count: nat)
    requires Stacked(levels)
    ensures Grown(levels, n, count) == Woven(levels, Places(levels, n.key), n, count)
  {
  }

  lemma GrownLevel(levels: seq<seq<SkipNode>>, n: SkipNode, count: nat, i: nat)
    requires Stacked(levels) && i < MAX_LEVEL
    ensures Grown(levels, n, count)[i] == if i < count then WithNode(levels[i], Place(levels, n.key, i), n) else levels[i]
  {
  }

  /** Linking in a node keeps every level a sublist of the one below, whatever the order of the keys. */
  lemma GrownStacked(levels: seq<seq<SkipNode>>, n: SkipNode, count: nat)
    requires Stacked(levels) && Absent(levels, n)
    ensures Stacked(Grown(levels, n, count))
  {
    hide Nested, DistinctNodes, Place, SamePlace, Grown, WithNode;
    var grown := Grown(levels, n, count);
    forall i | 0 <= i < MAX_LEVEL
      ensures Fits(grown, i)
    {
      assert Fits(levels, i);
      GrownLevel(levels, n, count, i);
      DistinctWithNode(levels[i], Place(levels, n.key, i), n);
      if i > 0 {
        assert Fits(levels, i - 1);
        GrownLevel(levels, n, count, i - 1);
        LeavesSamePlace(levels, n.key, i);
        if i < count {
          NestedWithNode(levels[i], levels[i - 1], Place(levels, n.key, i), Place(levels, n.key, i - 1), n);
        } else if i - 1 < count {
          NestedBelow(levels[i], levels[i - 1], Place(levels, n.key, i - 1), n);
        }
      }
    }
  }

  lemma LevelFacts(levels: seq<seq<SkipNode>>, n: SkipNode, i: nat)
    requires Stacked(levels) && Absent(levels, n) && i < MAX_LEVEL
    ensures |levels| == MAX_LEVEL && DistinctNodes(levels[i]) && n !in levels[i]
  {
    assert Fits(levels, i);
  }

  lemma GrownNested(levels: seq<seq<SkipNode>>, n: SkipNode, count: nat, i: nat)
    requires Stacked(levels) && Stacked(Grown(levels, n, count)) && i < MAX_LEVEL
    ensures i + 1 < MAX_LEVEL ==> Nested(Grown(levels, n, count)[i + 1], Grown(levels, n, count)[i])
  {
    assert i + 1 < MAX_LEVEL ==> Fits(Grown(levels, n, count), i + 1);
  }

  /** Going down to a level that got the new node at position `q`, from a place that stays. */
  lemma UnderGrown(upper: seq<SkipNode>, lower: seq<SkipNode>, p: nat, q: nat, n: SkipNode)
    requires Nested(upper, lower) && DistinctNodes(lower) && n !in lower && p <= |upper| && q <= |lower|
    requires Nested(upper, WithNode(lower, q, n))
    ensures Under(upper, WithNode(lower, q, n), p) == Under(upper, lower, p) + if Under(upper, lower, p) > q then 1 else 0
  {
    if p > 0 {
      PlaceWithNode(lower, q, n, upper[p - 1]);
    }
  }

  /** Going down to a level below, both having got the new node, from a place before it, at it or behind it. */
  lemma UnderBoth(upper: seq<SkipNode>, lower: seq<SkipNode>, p: nat, q: nat, u: nat, n: SkipNode)
    requires Nested(upper, lower) && DistinctNodes(lower) && n !in upper && n !in lower && SamePlace(upper, lower, p, q)
    requires p <= |upper| && q <= |lower| && u <= |upper| && Nested(WithNode(upper, p, n), WithNode(lower, q, n))
    ensures var above, below := WithNode(upper, p, n), WithNode(lower, q, n);
            && (u <= p ==> Under(above, below, u) == Under(upper, lower, u) <= q)
            && (u == p ==> Under(above, below, u + 1) == q + 1)
            && (u > p ==> Under(above, below, u + 1) == Under(upper, lower, u) + 1 && Under(upper, lower, u) > q)
  {
    hide Nested, DistinctNodes, SamePlace, PlaceOf;
    NewPlace(lower, q, n);
    if u > 0 {
      InLower(upper, lower, u - 1);
      PlaceWithNode(lower, q, n, upper[u - 1]);
      SideOf(upper, lower, p, q, u - 1);
    }
  }

  lemma InLower(upper: seq<SkipNode>, lower: seq<SkipNode>, k: nat)
    requires Nested(upper, lower) && k < |upper|
    ensures upper[k] in lower
  {
  }

  /** A walk that gets as far as the new node passes it. */
  lemma StopThrough(lv: seq<SkipNode>, p: nat, n: SkipNode, key: bytes, from: nat, from': nat)
    requires p <= |lv| && from <= |lv| && Passes(n, key) && forall j :: from <= j < p ==> Passes(lv[j], key)
    requires (from' == from && from <= p) || from' == (if from > p then from else p) + 1
    ensures from' <= |lv| + 1 && Stop(WithNode(lv, p, n), key, from') == Stop(lv, key, from) + 1
  {
    StopIs(WithNode(lv, p, n), key, from', Stop(lv, key, from) + 1);
  }

  /** Where a walk that passed the new node above enters the level below. */
  lemma StartPast(levels: seq<seq<SkipNode>>, n: SkipNode, count: nat, key: bytes, i: nat)
    requires Stacked(levels) && Absent(levels, n) && Less(n.key, key) && i < count && i < MAX_LEVEL
    requires Stacked(Grown(levels, n, count))
    requires i + 1 < MAX_LEVEL ==>
               Place(Grown(levels, n, count), key, i + 1) == Place(levels, key, i + 1) + if i + 1 < count then 1 else 0
    ensures var from, from', p := Start(levels, key, i), Start(Grown(levels, n, count), key, i), Place(levels, n.key, i);
            (from' == from && from <= p) || from' == (if from > p then from else p) + 1
  {
    hide Nested, DistinctNodes, Stop, SamePlace, Grown, Place, Start, Under, Stacked, Absent, Less, Passes, WithNode;
    StartUnfolds(levels, key, i);
    StartUnfolds(Grown(levels, n, count), key, i);
    GrownLevel(levels, n, count, i);
    LevelFacts(levels, n, i);
    GrownNested(levels, n, count, i);
    if i + 1 < MAX_LEVEL {
      var u, p := Place(levels, key, i + 1), Place(levels, n.key, i);
      GrownLevel(levels, n, count, i + 1);
      LevelFacts(levels, n, i + 1);
      WalksOrdered(levels, n.key, key, i + 1);
      LeavesSamePlace(levels, n.key, i + 1);
      if i + 1 < count {
        UnderBoth(levels[i + 1], levels[i], Place(levels, n.key, i + 1), p, u, n);
      } else {
        UnderGrown(levels[i + 1], levels[i], u, p, n);
      }
    }
  }

  /** A walk for a larger key passes the new node on every level that has it. */
  lemma {:induction false} WalkPast(levels: seq<seq<SkipNode>>, n: SkipNode, count: nat, key: bytes, i: nat)
    requires Stacked(levels) && Absent(levels, n) && n.key != [] && Less(n.key, key) && i < MAX_LEVEL
    requires Stacked(Grown(levels, n, count))
    ensures Place(Grown(levels, n, count), key, i) == Place(levels, key, i) + if i < count then 1 else 0
    decreases MAX_LEVEL - i
  {
    hide Nested, DistinctNodes, Stop, SamePlace, Grown, Place, Start, Under, Stacked, Absent, Less, WithNode;
    var grown := Grown(levels, n, count);
    if i + 1 < MAX_LEVEL {
      WalkPast(levels, n, count, key, i + 1);
    }
    PlaceUnfolds(levels, key, i);
    PlaceUnfolds(grown, key, i);
    GrownLevel(levels, n, count, i);
    LevelFacts(levels, n, i);
    if i < count {
      StartPast(levels, n, count, key, i);
      WalksOrdered(levels, n.key, key, i);
      PassesSmaller(levels, n.key, key, i);
      StopThrough(levels[i], Place(levels, n.key, i), n, key, Start(levels, key, i), Start(grown, key, i));
    } else {
      SameStart(levels, n, count, key, i);
    }
  }

  /** Above the new node nothing changes. */
  lemma SameStart(levels: seq<seq<SkipNode>>, n: SkipNode, count: nat, key: bytes, i: nat)
    requires Stacked(levels) && count <= i < MAX_LEVEL && Stacked(Grown(levels, n, count))
    requires i + 1 < MAX_LEVEL ==> Place(Grown(levels, n, count), key, i + 1) == Place(levels, key, i + 1)
    ensures Start(Grown(levels, n, count), key, i) == Start(levels, key, i)
  {
    hide Stacked, Nested, Under, Place, Start;
    StartUnfolds(levels, key, i);
    StartUnfolds(Grown(levels, n, count), key, i);
    GrownLevel(levels, n, count, i);
    if i + 1 < MAX_LEVEL {
      GrownLevel(levels, n, count, i + 1);
    }
  }

  /** What a walk passes, one for a larger key passes too. */
  lemma PassesSmaller(levels: seq<seq<SkipNode>>, a: bytes, b: bytes, i: nat)
    requires Stacked(levels) && i < MAX_LEVEL && Less(a, b)
    ensures forall j :: Start(levels, a, i) <= j < Place(levels, a, i) ==> Passes(levels[i][j], b)
  {
    forall j | Start(levels, a, i) <= j < Place(levels, a, i)
      ensures Passes(levels[i][j], b)
    {
      LessTrans(levels[i][j].key, a, b);
    }
  }

  lemma StopBefore(lv: seq<SkipNode>, p: nat, n: SkipNode, key: bytes, from: nat)
    requires from <= |lv| && Stop(lv, key, from) <= p <= |lv| && !Passes(n, key)
    ensures Stop(WithNode(lv, p, n), key, from) == Stop(lv, key, from)
  {
    StopIs(WithNode(lv, p, n), key, from, Stop(lv, key, from));
  }

  /** Where a walk that stays before the new node enters a level. */
  lemma StartBefore(levels: seq<seq<SkipNode>>, n: SkipNode, count: nat, key: bytes, i: nat)
    requires Stacked(levels) && Absent(levels, n) && (key == n.key || Less(key, n.key)) && i < count && i < MAX_LEVEL
    requires Stacked(Grown(levels, n, count))
    requires i + 1 < MAX_LEVEL ==>
               Place(Grown(levels, n, count), key, i + 1) == Place(levels, key, i + 1) <= Place(levels, n.key, i + 1)
    ensures Start(Grown(levels, n, count), key, i) == Start(levels, key, i)
  {
    hide Nested, DistinctNodes, Stop, SamePlace, Grown, Place, Start, Under, Stacked, Absent, Less, Passes, WithNode;
    StartUnfolds(levels, key, i);
    StartUnfolds(Grown(levels, n, count), key, i);
    GrownLevel(levels, n, count, i);
    LevelFacts(levels, n, i);
    GrownNested(levels, n, count, i);
    if i + 1 < MAX_LEVEL {
      var u, p := Place(levels, key, i + 1), Place(levels, n.key, i);
      GrownLevel(levels, n, count, i + 1);
      LevelFacts(levels, n, i + 1);
      LeavesSamePlace(levels, n.key, i + 1);
      if i + 1 < count {
        UnderBoth(levels[i + 1], levels[i], Place(levels, n.key, i + 1), p, u, n);
      } else {
        if key != n.key {
          WalksOrdered(levels, key, n.key, i);
        }
        UnderGrown(levels[i + 1], levels[i], u, p, n);
      }
    }
  }

  /** A walk that gets no farther than the new node's place and does not pass the new node ends where it did. */
  lemma {:induction false} WalkBefore(levels: seq<seq<SkipNode>>, n: SkipNode, count: nat, key: bytes, i: nat)
    requires Stacked(levels) && Absent(levels, n) && !Passes(n, key) && i < MAX_LEVEL
    requires Stacked(Grown(levels, n, count)) && (key == n.key || Less(key, n.key))
    ensures Place(Grown(levels, n, count), key, i) == Place(levels, key, i) <= Place(levels, n.key, i)
    decreases MAX_LEVEL - i
  {
    hide Nested, DistinctNodes, Stop, SamePlace, Grown, Place, Start, Under, Stacked, Absent, Less, Passes, WithNode;
    if key != n.key {
      WalksOrdered(levels, key, n.key, i);
    }
    if i + 1 < MAX_LEVEL {
      WalkBefore(levels, n, count, key, i + 1);
    }
    PlaceUnfolds(levels, key, i);
    PlaceUnfolds(Grown(levels, n, count), key, i);
    GrownLevel(levels, n, count, i);
    LevelFacts(levels, n, i);
    if i < count {
      StartBefore(levels, n, count, key, i);
      StopBefore(levels[i], Place(levels, n.key, i), n, key, Start(levels, key, i));
    } else {
      SameStart(levels, n, count, key, i);
    }
  }

  /** An empty key in front stops a walk that has not gone past it. */
  lemma StopBlocked(lv: seq<SkipNode>, n: SkipNode, key: bytes, from: nat, from': nat)
    requires n.key == [] && from <= |lv| && (from' == 0 || from' == from + 1)
    ensures from' <= |lv| + 1 && Stop(WithNode(lv, 0, n), key, from') == if from' == 0 then 0 else Stop(lv, key, from) + 1
  {
    StopIs(WithNode(lv, 0, n), key, from', if from' == 0 then 0 else Stop(lv, key, from) + 1);
  }

  /** After an insert of the empty key a walk is kept at the header or ends behind the node where it did. */
  lemma {:induction false} WalkBlocked(levels: seq<seq<SkipNode>>, n: SkipNode, count: nat, key: bytes, i: nat)
    requires Stacked(levels) && Absent(levels, n) && n.key == [] && i < MAX_LEVEL
    requires Stacked(Grown(levels, n, count))
    ensures var p, p' := Place(levels, key, i), Place(Grown(levels, n, count), key, i);
            if i < count then p' == 0 || p' == p + 1 else p' == p
    decreases MAX_LEVEL - i
  {
    hide Nested, DistinctNodes, Stop, SamePlace, Grown, Place, Start, Under, Stacked, Absent, Less, Passes, WithNode;
    LevelFacts(levels, n, i);
    LevelFacts(levels, n, if i + 1 < MAX_LEVEL then i + 1 else i);
    GrownNested(levels, n, count, i);
    var grown := Grown(levels, n, count);
    StartUnfolds(levels, key, i);
    StartUnfolds(grown, key, i);
    PlaceUnfolds(levels, key, i);
    PlaceUnfolds(grown, key, i);
    GrownLevel(levels, n, count, i);
    EmptyStays(levels, i);
    if i + 1 < MAX_LEVEL {
      WalkBlocked(levels, n, count, key, i + 1);
      GrownLevel(levels, n, count, i + 1);
      LeavesSamePlace(levels, [], i + 1);
      EmptyStays(levels, i + 1);
      var u := Place(levels, key, i + 1);
      if i + 1 < count {
        UnderBoth(levels[i + 1], levels[i], 0, 0, u, n);
      } else if i < count {
        UnderGrown(levels[i + 1], levels[i], u, 0, n);
      }
    }
    if i < count {
      StopBlocked(levels[i], n, key, Start(levels, key, i), Start(grown, key, i));
    }
  }

  /** Right after its insert a key is found. */
  lemma FoundNew(levels: seq<seq<SkipNode>>, n: SkipNode, count: nat)
    requires Stacked(levels) && Absent(levels, n) && count > 0
    requires Stacked(Grown(levels, n, count))
    ensures Found(Grown(levels, n, count), n.key) == n
  {
    hide Place, Grown, Stacked;
    LessIrreflexive(n.key);
    WalkBefore(levels, n, count, n.key, 0);
    GrownLevel(levels, n, count, 0);
  }

  lemma BehindWithNode(lv: seq<SkipNode>, p: nat, n: SkipNode, key: bytes, k: nat, k': nat)
    requires p <= |lv| && n.key != key && ((k' == k && k <= p) || (k' == k + 1 && k >= p) || (k' == p == 0))
    ensures Behind(WithNode(lv, p, n), k', key) in {Behind(lv, k, key), null}
  {
  }

  /** The insert of another key changes what is found at most to nothing. */
  lemma FoundOther(levels: seq<seq<SkipNode>>, n: SkipNode, count: nat, key: bytes)
    requires Stacked(levels) && Absent(levels, n) && count > 0 && key != n.key
    requires Stacked(Grown(levels, n, count))
    ensures Found(Grown(levels, n, count), key) in {Found(levels, key), null}
  {
    var grown := Grown(levels, n, count);
    LessTotal(key, n.key);
    if n.key == [] {
      WalkBlocked(levels, n, count, key, 0);
      EmptyStays(levels, 0);
    } else if Less(key, n.key) {
      NotBothWays(key, n.key);
      WalkBefore(levels, n, count, key, 0);
    } else {
      WalkPast(levels, n, count, key, 0);
      WalksOrdered(levels, n.key, key, 0);
    }
    hide Place, Start, Grown, Absent, Less, Passes, Behind, Nested, DistinctNodes;
    GrownLevel(levels, n, count, 0);
    BehindWithNode(levels[0], Place(levels, n.key, 0), n, key, Place(levels, key, 0), Place(grown, key, 0));
  }

  // ---------- Levels in key order ----------

  ghost predicate AllSorted(levels: seq<seq<SkipNode>>) {
    forall i :: 0 <= i < |levels| ==> SortedNodes(levels[i])
  }

  /** The walk does not meet an empty key before a smaller one. */
  ghost predicate Unhindered(levels: seq<seq<SkipNode>>, key: bytes)
    requires Stacked(levels)
  {
    key == [] || NoEmptyKey(levels[0])
  }

  /** In key order an unhindered walk leaves every level where the key belongs. */
  lemma {:induction false} WalkCuts(levels: seq<seq<SkipNode>>, key: bytes, i: nat)
    requires Stacked(levels) && AllSorted(levels) && Unhindered(levels, key) && i < MAX_LEVEL
    ensures Cut(levels[i], key, Place(levels, key, i))
    decreases MAX_LEVEL - i
  {
    hide Cut, SortedNodes, Nested, Place, Start, SmallerBefore, Unhindered, Under;
    StartUnfolds(levels, key, i);
    if i + 1 < MAX_LEVEL {
      WalkCuts(levels, key, i + 1);
      CutIsSmaller(levels[i + 1], key, Place(levels, key, i + 1));
      SmallerUnder(levels[i + 1], levels[i], key, Place(levels, key, i + 1));
    }
    StopsSmaller(levels, key, i);
    CutFrom(levels[i], key, Start(levels, key, i), Place(levels, key, i));
  }

  lemma CutIsSmaller(lv: seq<SkipNode>, key: bytes, p: nat)
    requires Cut(lv, key, p)
    ensures SmallerBefore(lv, key, p)
  {
  }

  lemma CutFrom(lv: seq<SkipNode>, key: bytes, p: nat, q: nat)
    requires SortedNodes(lv) && p <= q <= |lv| && (p == 0 || SmallerBefore(lv, key, p))
    requires forall j :: p <= j < q ==> Passes(lv[j], key)
    requires q < |lv| ==> !Less(lv[q].key, key)
    ensures Cut(lv, key, q)
  {
    forall j | q < j < |lv|
      ensures !Less(lv[j].key, key)
    {
      if Less(lv[j].key, key) {
        LessTrans(lv[q].key, lv[j].key, key);
      }
    }
  }

  lemma SmallerUnder(upper: seq<SkipNode>, lower: seq<SkipNode>, key: bytes, p: nat)
    requires Nested(upper, lower) && SortedNodes(lower) && SmallerBefore(upper, key, p)
    ensures SmallerBefore(lower, key, Under(upper, lower, p))
  {
    if p > 0 {
      var k := PlaceOf(lower, upper[p - 1]);
      forall j | 0 <= j < k
        ensures Less(lower[j].key, key)
      {
        LessTrans(lower[j].key, lower[k].key, key);
      }
    }
  }

  lemma StopsSmaller(levels: seq<seq<SkipNode>>, key: bytes, i: nat)
    requires Stacked(levels) && Unhindered(levels, key) && i < MAX_LEVEL
    ensures var q := Place(levels, key, i); q < |levels[i]| ==> !Less(levels[i][q].key, key)
  {
    var q := Place(levels, key, i);
    if q < |levels[i]| {
      OnGround(levels, i, levels[i][q]);
    }
  }

  /** In key order a key that an unhindered walk does not find is nowhere. */
  lemma NotFound(levels: seq<seq<SkipNode>>, key: bytes)
    requires Stacked(levels) && AllSorted(levels) && Unhindered(levels, key) && Found(levels, key) == null
    ensures !HasKey(levels[0], key)
  {
    hide Place, Start, HasKey, Cut, SortedNodes, Unhindered;
    WalkCuts(levels, key, 0);
    NotAtCut(levels[0], key, Place(levels, key, 0));
  }

  lemma NotAtCut(lv: seq<SkipNode>, key: bytes, p: nat)
    requires SortedNodes(lv) && Cut(lv, key, p) && (p < |lv| ==> lv[p].key != key)
    ensures !HasKey(lv, key)
  {
    LessIrreflexive(key);
    forall k | 0 <= k < |lv|
      ensures lv[k].key != key
    {
      if p < k {
        NotBothWays(lv[p].key, lv[k].key);
      }
    }
  }

  /** In key order the insert of a key by an unhindered walk keeps the order. */
  lemma GrownSorted(levels: seq<seq<SkipNode>>, n: SkipNode, count: nat)
    requires Stacked(levels) && AllSorted(levels) && Unhindered(levels, n.key) && Found(levels, n.key) == null
    ensures AllSorted(Grown(levels, n, count))
  {
    hide SortedNodes, Cut;
    NotFound(levels, n.key);
    forall i | 0 <= i < MAX_LEVEL
      ensures SortedNodes(Grown(levels, n, count)[i])
    {
      WalkCuts(levels, n.key, i);
      GrownLevel(levels, n, count, i);
      var p := Place(levels, n.key, i);
      if p < |levels[i]| {
        OnGround(levels, i, levels[i][p]);
      }
      WithNodeSorted(levels[i], p, n);
    }
  }
}
