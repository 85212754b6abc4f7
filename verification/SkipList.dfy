/** The list itself: its invariant over every run of inserts, the empty key included. */
module SkipLists {
  import opened Bytes
  import opened BlockFormat
  import opened SortedEntries
  import opened SkipLevels
  import opened Options

  const KEY_LIMIT := 255
  const VALUE_LIMIT := 1023

  // ---------- Levels and runs ----------

  predicate NoneEmpty(run: seq<Entry>) {
    forall i :: 0 <= i < |run| ==> run[i].key != []
  }

  predicate AllEmpty(run: seq<Entry>) {
    forall i :: 0 <= i < |run| ==> run[i].key == []
  }

  /** No other key was inserted after the empty key. */
  predicate InOrder(run: seq<Entry>) {
    forall i, j :: 0 <= i < j < |run| && run[i].key == [] ==> run[j].key == []
  }

  /** What a search for the key comes back with, `es` being the entries on level 0. */
  ghost function Answer(levels: seq<seq<SkipNode>>, es: seq<Entry>, key: bytes): Option<bytes>
    requires Stacked(levels) && |es| == |levels[0]|
  {
    if Found(levels, key) == null then None else Some(es[Place(levels, key, 0)].value)
  }

  /** The entries with one more at position `p`. */
  function Splice(es: seq<Entry>, e: Entry, p: nat): seq<Entry>
    requires p <= |es|
  {
    es[..p] + [e] + es[p..]
  }

  predicate SameOrNone(a: Option<bytes>, b: Option<bytes>) {
    a == b || a == None
  }

  /** The entries are those of the nodes. */
  ghost predicate KeysOf(lv: seq<SkipNode>, es: seq<Entry>) {
    |es| == |lv| && forall k :: 0 <= k < |es| ==> es[k].key == lv[k].key
  }

  /** The level has exactly the keys of the run. */
  ghost predicate HoldsRun(lv: seq<SkipNode>, run: seq<Entry>) {
    forall key {:trigger LastInserted(run, key)} :: HasKey(lv, key) <==> LastInserted(run, key).Some?
  }

  /** No search comes back with an outdated value. */
  ghost predicate NeverStale(levels: seq<seq<SkipNode>>, es: seq<Entry>, run: seq<Entry>)
    requires Stacked(levels) && |es| == |levels[0]|
  {
    forall key {:trigger Answer(levels, es, key)} :: SameOrNone(Answer(levels, es, key), LastInserted(run, key))
  }

  /** The levels and the entries on level 0 are what the run of inserts makes them: every key of the run is there, no
      search comes back with an outdated value, and as long as no other key follows the empty one the list is in order
      and holds what a sorted list holds. */
  ghost predicate Records(levels: seq<seq<SkipNode>>, es: seq<Entry>, run: seq<Entry>)
    requires Stacked(levels)
  {
    && KeysOf(levels[0], es) && HoldsRun(levels[0], run) && NeverStale(levels, es, run) && EmptiesApart(levels[0])
    && (InOrder(run) ==> AllSorted(levels) && es == AfterInserts(run))
  }

  lemma LastInsertedStep(run: seq<Entry>, e: Entry, key: bytes)
    ensures LastInserted(run + [e], key) == if key == e.key then Some(e.value) else LastInserted(run, key)
    ensures AfterInserts(run + [e]) == Inserted(AfterInserts(run), e.key, e.value)
  {
    assert (run + [e])[..|run|] == run;
  }

  lemma {:induction false} InRun(run: seq<Entry>, key: bytes)
    ensures LastInserted(run, key).Some? <==> exists i :: 0 <= i < |run| && run[i].key == key
  {
    if run != [] {
      InRun(run[..|run| - 1], key);
    }
  }

  /** While the order lasts, a walk for the key inserted last meets no empty key before it. */
  lemma OrderUnhinders(levels: seq<seq<SkipNode>>, es: seq<Entry>, run: seq<Entry>, e: Entry)
    requires Stacked(levels) && Records(levels, es, run) && InOrder(run + [e])
    ensures InOrder(run) && AllSorted(levels) && Unhindered(levels, e.key)
  {
    hide Stacked, AllSorted, Answer, AfterInserts;
    var run' := run + [e];
    assert forall i :: 0 <= i < |run| ==> run'[i] == run[i];
    InRun(run, []);
    forall i | 0 <= i < |run| && e.key != []
      ensures run[i].key != []
    {
      assert run'[|run|] == e;
    }
  }

  /** Overwriting the value of the node that was found. */
  lemma OverwriteRecords(levels: seq<seq<SkipNode>>, es: seq<Entry>, run: seq<Entry>, e: Entry)
    requires Stacked(levels) && Records(levels, es, run) && Found(levels, e.key) != null
    ensures Place(levels, e.key, 0) < |es|
    ensures var es' := es[Place(levels, e.key, 0) := e];
            && Records(levels, es', run + [e]) && Answer(levels, es', e.key) == Some(e.value)
            && forall other :: other != e.key ==> Answer(levels, es', other) == Answer(levels, es, other)
  {
    hide Place, Stacked, AllSorted, LastInserted, AfterInserts, InOrder, EmptiesApart, HasKey, Answer, Found, NeverStale, HoldsRun;
    Height(levels);
    OverwrittenAnswer(levels, es, e, e.key);
    var lv, p := levels[0], Place(levels, e.key, 0);
    var es' := es[p := e];
    forall key
      ensures Answer(levels, es', key) == if key == e.key then Some(e.value) else Answer(levels, es, key)
    {
      OverwrittenAnswer(levels, es, e, key);
    }
    StaleStep(levels, es, levels, es', run, e);
    HasKeyAt(lv, p);
    HoldsStep(lv, lv, run, e);
    if InOrder(run + [e]) {
      OrderUnhinders(levels, es, run, e);
      LastInsertedStep(run, e, e.key);
      OverwrittenEntries(levels, es, e);
    }
  }

  lemma HasKeyAt(lv: seq<SkipNode>, k: nat)
    requires k < |lv|
    ensures HasKey(lv, lv[k].key)
  {
  }

  lemma StaleStep(levels: seq<seq<SkipNode>>, es: seq<Entry>, levels': seq<seq<SkipNode>>, es': seq<Entry>, run: seq<Entry>, e: Entry)
    requires Stacked(levels) && |es| == |levels[0]| && NeverStale(levels, es, run)
    requires Stacked(levels') && |es'| == |levels'[0]| && Answer(levels', es', e.key) == Some(e.value)
    requires forall key :: key != e.key ==> SameOrNone(Answer(levels', es', key), Answer(levels, es, key))
    ensures NeverStale(levels', es', run + [e])
  {
    hide Answer, LastInserted, Stacked;
    forall key
      ensures SameOrNone(Answer(levels', es', key), LastInserted(run + [e], key))
    {
      LastInsertedStep(run, e, key);
    }
  }

  lemma HoldsStep(lv: seq<SkipNode>, lv': seq<SkipNode>, run: seq<Entry>, e: Entry)
    requires HoldsRun(lv, run) && forall key :: HasKey(lv', key) <==> key == e.key || HasKey(lv, key)
    ensures HoldsRun(lv', run + [e])
  {
    hide LastInserted, HasKey;
    forall key
      ensures HasKey(lv', key) <==> LastInserted(run + [e], key).Some?
    {
      LastInsertedStep(run, e, key);
    }
  }

  lemma OverwrittenAnswer(levels: seq<seq<SkipNode>>, es: seq<Entry>, e: Entry, key: bytes)
    requires Stacked(levels) && KeysOf(levels[0], es) && Found(levels, e.key) != null
    ensures var p := Place(levels, e.key, 0);
            && p < |es| && levels[0][p].key == e.key
            && Answer(levels, es[p := e], key) == if key == e.key then Some(e.value) else Answer(levels, es, key)
  {
    hide Place, Nested, DistinctNodes;
  }

  lemma OverwrittenEntries(levels: seq<seq<SkipNode>>, es: seq<Entry>, e: Entry)
    requires Stacked(levels) && AllSorted(levels) && Unhindered(levels, e.key) && Found(levels, e.key) != null
    requires KeysOf(levels[0], es)
    ensures var p := Place(levels, e.key, 0); p < |es| && Inserted(es, e.key, e.value) == es[p := e]
  {
    hide Place, AllSorted, Unhindered, Inserted, Nested, DistinctNodes;
    WalkCuts(levels, e.key, 0);
    InsertedOver(es, e.key, e.value, Place(levels, e.key, 0));
  }

  /** Linking in a node for a key that was not found. */
  lemma GrownRecords(levels: seq<seq<SkipNode>>, es: seq<Entry>, run: seq<Entry>, n: SkipNode, value: bytes, count: nat)
    requires Stacked(levels) && Records(levels, es, run) && Absent(levels, n) && Found(levels, n.key) == null && count > 0
    requires Stacked(Grown(levels, n, count))
    ensures Place(levels, n.key, 0) <= |es| && |Grown(levels, n, count)[0]| == |es| + 1
    ensures var p, e := Place(levels, n.key, 0), Entry(n.key, value);
            var es' := Splice(es, e, p);
            && Records(Grown(levels, n, count), es', run + [e]) && Answer(Grown(levels, n, count), es', e.key) == Some(value)
            && forall other :: other != e.key ==> SameOrNone(Answer(Grown(levels, n, count), es', other), Answer(levels, es, other))
  {
    hide Place, Stacked, AllSorted, LastInserted, AfterInserts, InOrder, Grown, EmptiesApart, HasKey, Found, Answer, WithNode, HoldsRun, NeverStale, Splice;
    Height(levels);
    var lv, p, e, grown := levels[0], Place(levels, n.key, 0), Entry(n.key, value), Grown(levels, n, count);
    GrownLevel(levels, n, count, 0);
    var es' := Splice(es, e, p);
    SplicedKeys(lv, es, n, e, p);
    forall key
      ensures if key == e.key then Answer(grown, es', key) == Some(value) else SameOrNone(Answer(grown, es', key), Answer(levels, es, key))
    {
      GrownAnswer(levels, es, es', n, e, count, key);
    }
    StaleStep(levels, es, grown, es', run, e);
    forall key
      ensures HasKey(grown[0], key) <==> key == e.key || HasKey(lv, key)
    {
      HasKeyWithNode(lv, p, n, key);
    }
    HoldsStep(lv, grown[0], run, e);
    GrownApart(levels, n);
    if InOrder(run + [e]) {
      OrderUnhinders(levels, es, run, e);
      GrownSorted(levels, n, count);
      LastInsertedStep(run, e, e.key);
      GrownEntries(levels, es, e);
    }
  }

  /** `es'` is `es` with `e` put in at position `p`. */
  ghost predicate Spliced(es: seq<Entry>, es': seq<Entry>, e: Entry, p: nat) {
    && p <= |es| && |es'| == |es| + 1 && es'[p] == e
    && forall k :: 0 <= k < |es| ==> es'[if k >= p then k + 1 else k] == es[k]
  }

  lemma SplicedHere(es: seq<Entry>, es': seq<Entry>, e: Entry, p: nat)
    requires Spliced(es, es', e, p)
    ensures p < |es'| && es'[p] == e
  {
  }

  lemma SplicedKeys(lv: seq<SkipNode>, es: seq<Entry>, n: SkipNode, e: Entry, p: nat)
    requires KeysOf(lv, es) && p <= |lv| && n.key == e.key
    ensures Spliced(es, Splice(es, e, p), e, p) && KeysOf(WithNode(lv, p, n), Splice(es, e, p))
  {
  }

  lemma GrownEntries(levels: seq<seq<SkipNode>>, es: seq<Entry>, e: Entry)
    requires Stacked(levels) && AllSorted(levels) && Unhindered(levels, e.key) && Found(levels, e.key) == null
    requires KeysOf(levels[0], es)
    ensures var p := Place(levels, e.key, 0); Inserted(es, e.key, e.value) == Splice(es, e, p)
  {
    hide Place, AllSorted, Unhindered, Inserted, Nested, DistinctNodes, Cut;
    WalkCuts(levels, e.key, 0);
    InsertedAtCut(levels[0], es, e, Place(levels, e.key, 0));
  }

  lemma InsertedAtCut(lv: seq<SkipNode>, es: seq<Entry>, e: Entry, p: nat)
    requires |es| == |lv| && forall k :: 0 <= k < |es| ==> es[k].key == lv[k].key
    requires Cut(lv, e.key, p) && Behind(lv, p, e.key) == null
    ensures p <= |es| && Inserted(es, e.key, e.value) == Splice(es, e, p)
  {
    if p < |es| {
      LessTotal(e.key, es[p].key);
    }
    hide Less, Inserted;
    InsertedAt(es, e.key, e.value, p);
  }

  /** Only the empty key goes in front of another empty key, and only if none is there. */
  lemma GrownApart(levels: seq<seq<SkipNode>>, n: SkipNode)
    requires Stacked(levels) && EmptiesApart(levels[0]) && Found(levels, n.key) == null
    ensures EmptiesApart(WithNode(levels[0], Place(levels, n.key, 0), n))
  {
    hide Place, Start, Stacked, EmptiesApart, Behind;
    Height(levels);
    if n.key == [] {
      EmptyStays(levels, 0);
    }
    ApartWithNode(levels[0], Place(levels, n.key, 0), n);
  }

  lemma ApartWithNode(lv: seq<SkipNode>, p: nat, n: SkipNode)
    requires EmptiesApart(lv) && p <= |lv| && (n.key == [] ==> p == 0 && Behind(lv, p, n.key) == null)
    ensures EmptiesApart(WithNode(lv, p, n))
  {
    var lv' := WithNode(lv, p, n);
    forall k | 0 <= k < |lv'| - 1
      ensures lv'[k].key != [] || lv'[k + 1].key != []
    {
      if k + 1 < p {
        assert lv[k].key != [] || lv[k + 1].key != [];
      } else if k > p {
        assert lv[k - 1].key != [] || lv[k].key != [];
      }
    }
  }

  lemma AnswerByNode(levels: seq<seq<SkipNode>>, es: seq<Entry>, key: bytes)
    requires Stacked(levels) && |es| == |levels[0]|
    ensures Answer(levels, es, key) ==
            if Found(levels, key) == null then None else Some(es[PlaceOf(levels[0], Found(levels, key))].value)
  {
    hide Place, Nested;
    assert Fits(levels, 0);
    if Found(levels, key) != null {
      PlaceIs(levels[0], Found(levels, key), Place(levels, key, 0));
    }
  }

  lemma MovedEntry(lv: seq<SkipNode>, p: nat, n: SkipNode, es: seq<Entry>, es': seq<Entry>, e: Entry, m: SkipNode)
    requires DistinctNodes(lv) && p <= |lv| == |es| && n !in lv && m in lv && Spliced(es, es', e, p)
    ensures m in WithNode(lv, p, n) && es'[PlaceOf(WithNode(lv, p, n), m)] == es[PlaceOf(lv, m)]
  {
    hide DistinctNodes, PlaceOf;
    PlaceWithNode(lv, p, n, m);
  }

  lemma GrownAnswer(levels: seq<seq<SkipNode>>, es: seq<Entry>, es': seq<Entry>, n: SkipNode, e: Entry, count: nat, key: bytes)
    requires Stacked(levels) && |es| == |levels[0]| && Absent(levels, n) && Found(levels, n.key) == null && count > 0
    requires Stacked(Grown(levels, n, count)) && |es'| == |Grown(levels, n, count)[0]|
    requires n.key == e.key && Spliced(es, es', e, Place(levels, n.key, 0))
    ensures if key == e.key then Answer(Grown(levels, n, count), es', key) == Some(e.value)
            else SameOrNone(Answer(Grown(levels, n, count), es', key), Answer(levels, es, key))
  {
    hide Place, Stacked, Found, Grown, Answer, Absent, DistinctNodes, PlaceOf, WithNode, Spliced;
    LevelFacts(levels, n, 0);
    var lv, p, grown := levels[0], Place(levels, n.key, 0), Grown(levels, n, count);
    GrownLevel(levels, n, count, 0);
    AnswerByNode(levels, es, key);
    AnswerByNode(grown, es', key);
    if key == n.key {
      FoundNew(levels, n, count);
      NewPlace(lv, p, n);
      assert es'[p] == e by {
        SplicedHere(es, es', e, p);
      }
    } else {
      FoundOther(levels, n, count, key);
      if Found(levels, key) != null {
        MovedEntry(lv, p, n, es, es', e, Found(levels, key));
      }
    }
  }

  // ---------- When search is right ----------

  /** On a list made by a run of inserts, search agrees with the value inserted last for every key if and only if no key
      of the run is empty or all are. */
  lemma AgreesExactly(levels: seq<seq<SkipNode>>, es: seq<Entry>, run: seq<Entry>)
    requires Stacked(levels) && Records(levels, es, run)
    ensures (forall key :: Answer(levels, es, key) == LastInserted(run, key)) <==> NoneEmpty(run) || AllEmpty(run)
  {
    hide Stacked, Place;
    if NoneEmpty(run) || AllEmpty(run) {
      forall key
        ensures Answer(levels, es, key) == LastInserted(run, key)
      {
        RightAnswer(levels, es, run, key);
      }
    } else {
      var lost := LostKey(levels, es, run);
    }
  }

  lemma RightAnswer(levels: seq<seq<SkipNode>>, es: seq<Entry>, run: seq<Entry>, key: bytes)
    requires Stacked(levels) && Records(levels, es, run) && (NoneEmpty(run) || AllEmpty(run))
    ensures Answer(levels, es, key) == LastInserted(run, key)
  {
    InRun(run, key);
    InRun(run, []);
    assert SameOrNone(Answer(levels, es, key), LastInserted(run, key));
    if LastInserted(run, key).Some? {
      assert Unhindered(levels, key) by {
        assert NoneEmpty(run) ==> !HasKey(levels[0], []);
      }
      assert HasKey(levels[0], key);
      if Found(levels, key) == null {
        NotFound(levels, key);
      }
    }
  }

  /** The least key on the level but the empty one. */
  ghost predicate LeastOther(lv: seq<SkipNode>, key: bytes) {
    key != [] && HasKey(lv, key) && forall k :: 0 <= k < |lv| ==> lv[k].key == [] || !Less(lv[k].key, key)
  }

  lemma {:induction false} LeastBelow(lv: seq<SkipNode>, n: nat, k: nat) returns (key: bytes)
    requires k < n <= |lv| && lv[k].key != []
    ensures key != [] && HasKey(lv, key) && forall j :: 0 <= j < n ==> lv[j].key == [] || !Less(lv[j].key, key)
  {
    var last := lv[n - 1].key;
    LessIrreflexive(last);
    if m :| 0 <= m < n - 1 && lv[m].key != [] {
      key := LeastBelow(lv, n - 1, m);
      if last != [] && Less(last, key) {
        forall j | 0 <= j < n - 1 && Less(lv[j].key, last)
          ensures lv[j].key == []
        {
          LessTrans(lv[j].key, last, key);
        }
        key := last;
      }
    } else {
      key := lv[k].key;
    }
  }

  /** Otherwise the front node decides what search loses: the empty key if another key stands in front, else the least
      other key. Both were inserted. */
  lemma LostKey(levels: seq<seq<SkipNode>>, es: seq<Entry>, run: seq<Entry>) returns (lost: bytes)
    requires Stacked(levels) && Records(levels, es, run) && !NoneEmpty(run) && !AllEmpty(run)
    ensures levels[0] != [] && if levels[0][0].key != [] then lost == [] else LeastOther(levels[0], lost)
    ensures Answer(levels, es, lost) == None && LastInserted(run, lost).Some?
  {
    InRun(run, []);
    assert HasKey(levels[0], []);
    if levels[0][0].key != [] {
      lost := [];
      EmptyStays(levels, 0);
    } else {
      var i :| 0 <= i < |run| && run[i].key != [];
      InRun(run, run[i].key);
      assert HasKey(levels[0], run[i].key);
      var k :| 0 <= k < |levels[0]| && levels[0][k].key == run[i].key;
      lost := LeastBelow(levels[0], |levels[0]|, k);
      LeastIsLost(levels, lost);
      assert LastInserted(run, lost).Some?;
    }
  }

  /** Behind an empty key in front the least other key is not found. */
  lemma LeastIsLost(levels: seq<seq<SkipNode>>, key: bytes)
    requires Stacked(levels) && levels[0] != [] && levels[0][0].key == [] && LeastOther(levels[0], key)
    ensures Found(levels, key) == null
  {
    forall j | 0 <= j < MAX_LEVEL && levels[j] != []
      ensures !Passes(levels[j][0], key)
    {
      OnGround(levels, j, levels[j][0]);
    }
    FrontStops(levels, key, 0);
  }

  // ---------- The list ----------

  class SkipList {
    const header: SkipNode
    var level: nat
    var size: nat
    /** The nodes of each level in order. */
    ghost var levels: seq<seq<SkipNode>>
    ghost var nodes: set<SkipNode>
    /** The accepted inserts so far. */
    ghost var run: seq<Entry>

    /** The nodes belong to the list and the header is none of them. */
    ghost predicate Owns(lv: seq<SkipNode>)
      reads this`nodes
    {
      forall k :: 0 <= k < |lv| ==> lv[k] in nodes && lv[k] != header
    }

    /** The pointers of a level lead through its nodes. */
    ghost predicate LinkedAt(i: nat)
      requires i < |levels| == MAX_LEVEL
      reads this`levels, this`nodes, nodes, header
    {
      Owns(levels[i]) && Linked(header, levels[i], i)
    }

    ghost predicate AllLinked()
      reads this`levels, this`nodes, nodes, header
    {
      |levels| == MAX_LEVEL && forall i {:trigger LinkedAt(i)} :: 0 <= i < MAX_LEVEL ==> LinkedAt(i)
    }

    /** Nothing is above the highest level in use. */
    ghost predicate EmptyAbove()
      reads this`levels, this`level
    {
      |levels| == MAX_LEVEL && forall i :: level < i < MAX_LEVEL ==> levels[i] == []
    }

    /** The levels are linked and nested; nothing is said about the order of the keys. */
    ghost predicate Shape()
      reads this`level, this`size, this`levels, this`nodes, nodes
    {
      && Stacked(levels) && level < MAX_LEVEL && header in nodes && size == |levels[0]| && AllLinked() && EmptyAbove()
    }

    ghost predicate Valid()
      reads this, nodes
    {
      Shape() && Records(levels, Entries(), run)
    }

    /** The entries on level 0. */
    ghost function Entries(): seq<Entry>
      requires Shape()
      reads this`level, this`size, this`levels, this`nodes, nodes
    {
      assert LinkedAt(0);
      EntriesOf(levels[0])
    }

    /** Search comes back with what was inserted last under the key. */
    ghost predicate Agrees(key: bytes)
      requires Shape()
      reads this, nodes
    {
      Answer(levels, Entries(), key) == LastInserted(run, key)
    }

    constructor ()
      ensures Valid() && run == [] && Entries() == [] && fresh(nodes)
    {
      header := new SkipNode([], []);
      level, size := 0, 0;
      levels, run := seq(MAX_LEVEL, _ => []), [];
      new;
      nodes := {header};
    }

    /** As long as no other key follows the empty one, the entries ascend and are what a sorted list holds. */
    lemma EntriesAscend()
      requires Valid()
      ensures |Entries()| == size
      ensures InOrder(run) ==> Ascending(Entries()) && Entries() == AfterInserts(run)
    {
      RunKeepsLast(run, []);
    }

    /** Whatever was inserted, each level is a sublist of the one below. */
    lemma LevelsNest(i: nat)
      requires Valid() && 0 < i < MAX_LEVEL
      ensures SublistOf(levels[i], levels[i - 1])
    {
      assert Fits(levels, i) && Fits(levels, i - 1);
      NestedIsSublist(levels[i], levels[i - 1]);
    }

    /** Search agrees for every key if and only if no key of the run is empty or all are. */
    lemma AgreesExactlyNow()
      requires Valid()
      ensures (forall key :: Agrees(key)) <==> NoneEmpty(run) || AllEmpty(run)
    {
      hide Records, Stacked, Answer, LastInserted;
      assert forall key :: Agrees(key) <==> Answer(levels, Entries(), key) == LastInserted(run, key);
      AgreesExactly(levels, Entries(), run);
    }

    /** Walks along level `i` while the next node's key is smaller and not empty. */
    method Advance(x0: SkipNode, i: nat, key: bytes, ghost p0: nat) returns (x: SkipNode)
      requires Shape() && i < MAX_LEVEL && p0 <= |levels[i]| && x0 == At(header, levels[i], p0)
      ensures x == At(header, levels[i], Stop(levels[i], key, p0))
    {
      hide Stacked, Stop;
      Height(levels);
      x := x0;
      assert LinkedAt(i);
      ghost var p := p0;
      while x.forward[i] != null && |x.forward[i].key| > 0
        invariant p0 <= p <= |levels[i]| && x == At(header, levels[i], p)
        invariant forall j :: p0 <= j < p ==> Passes(levels[i][j], key)
        decreases |levels[i]| - p
      {
        KeyCompareIsOrder(x.forward[i].key, key);
        if KeyCompare(x.forward[i].key, key) < 0 {
          x := x.forward[i];
          p := p + 1;
        } else {
          break;
        }
      }
      StopIs(levels[i], key, p0, p);
    }

    lemma NextAt(i: nat, p: nat)
      requires Shape() && i < MAX_LEVEL && p <= |levels[i]|
      ensures At(header, levels[i], p).forward[i] == Next(levels[i], p)
      ensures p < |levels[i]| ==> levels[i][p] in nodes
    {
      assert LinkedAt(i);
    }

    /** Where the walk leaves a level and enters the one below is the same node. */
    lemma Below(i: nat, key: bytes)
      requires Shape() && 0 < i < MAX_LEVEL
      ensures At(header, levels[i], Place(levels, key, i)) == At(header, levels[i - 1], Start(levels, key, i - 1))
    {
      hide Stacked, Start, Place, Nested;
      Height(levels);
      StartUnfolds(levels, key, i - 1);
    }

    /** The levels above those in use are empty, so a walk enters the highest one in use at the header. */
    lemma Above(key: bytes)
      requires Shape()
      ensures forall i :: level < i < MAX_LEVEL ==> levels[i] == [] && Place(levels, key, i) == 0
      ensures Start(levels, key, level) == 0
    {
      forall i | level < i < MAX_LEVEL
        ensures levels[i] == [] && Place(levels, key, i) == 0
      {
      }
      StartUnfolds(levels, key, level);
    }

    /** Looks the key up. What it finds is never outdated; if no key of the run is empty, or all are, it finds the key
        exactly when it was inserted. */
    method Search(key: bytes) returns (r: SkipNode?)
      requires Valid()
      ensures r == Found(levels, key)
      ensures (if r == null then None else Some(r.value)) == Answer(levels, Entries(), key)
      ensures r != null ==> LastInserted(run, key) == Some(r.value)
      ensures NoneEmpty(run) || AllEmpty(run) ==> (r == null <==> LastInserted(run, key) == None)
    {
      hide Stacked, Start, Place, NoneEmpty, AllEmpty, Stop, Records;
      Height(levels);
      Above(key);
      var x := header;
      var i: int := level;
      while i >= 0
        invariant -1 <= i <= level
        invariant i >= 0 ==> x == At(header, levels[i], Start(levels, key, i))
        invariant i < 0 ==> x == At(header, levels[0], Place(levels, key, 0))
      {
        PlaceUnfolds(levels, key, i);
        x := Advance(x, i, key, Start(levels, key, i));
        if i > 0 {
          Below(i, key);
        }
        i := i - 1;
      }
      NextAt(0, Place(levels, key, 0));
      FoundAt(levels, key);
      NotOutdated(key);
      x := x.forward[0];
      if x != null && x.key == key {
        return x;
      }
      r := null;
    }

    lemma NotOutdated(key: bytes)
      requires Valid()
      ensures SameOrNone(Answer(levels, Entries(), key), LastInserted(run, key))
      ensures NoneEmpty(run) || AllEmpty(run) ==> Agrees(key)
    {
      if NoneEmpty(run) || AllEmpty(run) {
        RightAnswer(levels, Entries(), run, key);
      }
    }

    /** The nodes where the walk for the key leaves the levels. */
    ghost predicate LeftAt(update: seq<SkipNode>, key: bytes)
      requires Stacked(levels)
      reads this`levels
    {
      |update| == MAX_LEVEL && forall i :: 0 <= i < MAX_LEVEL ==> update[i] == At(header, levels[i], Place(levels, key, i))
    }

    /** Finds, for each level, the node where the walk for the key leaves it. */
    method Locate(key: bytes) returns (update: array<SkipNode>)
      requires Shape()
      ensures fresh(update) && update.Length == MAX_LEVEL
      ensures LeftAt(update[..], key)
    {
      hide Stacked, Start, Place, Stop;
      Height(levels);
      update := new SkipNode[MAX_LEVEL](_ => header);
      Above(key);
      var x := header;
      var i: int := level;
      while i >= 0
        invariant -1 <= i <= level
        invariant i >= 0 ==> x == At(header, levels[i], Start(levels, key, i))
        invariant forall j :: i < j < MAX_LEVEL ==> update[j] == At(header, levels[j], Place(levels, key, j))
      {
        PlaceUnfolds(levels, key, i);
        x := Advance(x, i, key, Start(levels, key, i));
        update[i] := x;
        if i > 0 {
          Below(i, key);
        }
        i := i - 1;
      }
    }

    /** Puts a node behind `prev` at level `i`. */
    method LinkAt(node: SkipNode, prev: SkipNode, i: nat, ghost lv: seq<SkipNode>, ghost p: nat)
      requires i < MAX_LEVEL && p <= |lv| && prev == At(header, lv, p) && Linked(header, lv, i)
      requires DistinctNodes(lv) && header !in lv && node !in lv && node != header
      modifies prev`forward, node`forward
      ensures node.forward == old(node.forward)[i := old(prev.forward[i])]
      ensures prev.forward == old(prev.forward)[i := node]
      ensures Linked(header, WithNode(lv, p, node), i)
    {
      ghost var after := WithNode(lv, p, node);
      assert forall k :: 0 <= k <= |lv| ==> At(header, lv, k).forward[i] == Next(lv, k);
      node.forward := node.forward[i := prev.forward[i]];
      prev.forward := prev.forward[i := node];
      forall k | 0 <= k <= |after|
        ensures At(header, after, k).forward[i] == Next(after, k)
      {
        if k <= p {
          assert At(header, after, k) == At(header, lv, k);
          assert k < p ==> At(header, lv, k) != prev;
        } else if k > p + 1 {
          assert At(header, after, k) == At(header, lv, k - 1) && At(header, lv, k - 1) != prev;
        }
      }
    }

    /** Gives the node that was found a new value. */
    method Overwrite(x: SkipNode, value: bytes)
      requires Valid() && x == Found(levels, x.key) && x in nodes
      modifies this`run, x`value
      ensures Valid() && run == old(run) + [Entry(x.key, value)] && x.value == value
      ensures Place(levels, x.key, 0) < |old(Entries())|
      ensures Entries() == old(Entries())[Place(levels, x.key, 0) := Entry(x.key, value)]
      ensures Answer(levels, Entries(), x.key) == Some(value)
      ensures forall other :: other != x.key ==> Answer(levels, Entries(), other) == old(Answer(levels, Entries(), other))
    {
      hide Stacked, Place, Records, Answer, Found, DistinctNodes, AllLinked, EmptyAbove;
      ghost var es, e, p := Entries(), Entry(x.key, value), Place(levels, x.key, 0);
      OverwriteRecords(levels, es, run, e);
      FoundAt(levels, x.key);
      SetValue(x, value, p);
      run := run + [e];
    }

    method SetValue(x: SkipNode, value: bytes, ghost p: nat)
      requires Shape() && p < |levels[0]| && x == levels[0][p] && x in nodes
      modifies x`value
      ensures Shape() && Entries() == old(Entries())[p := Entry(x.key, value)]
    {
      hide Owns, Nested;
      assert Fits(levels, 0) && LinkedAt(0);
      ghost var es := Entries();
      x.value := value;
      forall i | 0 <= i < MAX_LEVEL
        ensures LinkedAt(i)
      {
        assert old(LinkedAt(i)) && old(Linked(header, levels[i], i));
      }
      assert forall k :: 0 <= k < |levels[0]| && k != p ==> levels[0][k] != x;
      assert Entries() == es[p := Entry(x.key, value)];
    }

    /** Links a node into one level; the other levels stay linked. */
    method LinkLevel(node: SkipNode, prev: SkipNode, i: nat, ghost p: nat)
      requires AllLinked() && i < MAX_LEVEL && p <= |levels[i]| && prev == At(header, levels[i], p)
      requires DistinctNodes(levels[i]) && node !in levels[i] && node != header && node in nodes
      modifies this`levels, prev`forward, node`forward
      ensures AllLinked() && levels == old(levels)[i := WithNode(old(levels[i]), p, node)]
    {
      hide DistinctNodes, WithNode;
      assert LinkedAt(i);
      ghost var before := levels;
      LinkAt(node, prev, i, levels[i], p);
      levels := levels[i := WithNode(levels[i], p, node)];
      OwnsWithNode(before[i], p, node);
      forall j | 0 <= j < MAX_LEVEL
        ensures LinkedAt(j)
      {
        assert old(LinkedAt(j)) && old(Linked(header, levels[j], j));
        if j != i {
          assert levels[j] == before[j];
        }
      }
    }

    lemma OwnsWithNode(lv: seq<SkipNode>, p: nat, node: SkipNode)
      requires Owns(lv) && p <= |lv| && node in nodes && node != header
      ensures Owns(WithNode(lv, p, node))
    {
    }

    /** Creates a node that is not linked yet. */
    method Create(key: bytes, value: bytes) returns (node: SkipNode)
      requires Shape()
      modifies this`nodes
      ensures fresh(node) && nodes == old(nodes) + {node} && node.key == key && node.value == value
      ensures Shape() && Absent(levels, node) && node != header
    {
      hide Stacked, Linked;
      node := new SkipNode(key, value);
      nodes := nodes + {node};
      forall i | 0 <= i < MAX_LEVEL
        ensures LinkedAt(i) && node !in levels[i]
      {
        assert old(LinkedAt(i)) && old(Linked(header, levels[i], i));
      }
    }

    /** Links a node into the levels 0 to `newLevel`. */
    method Weave(node: SkipNode, newLevel: nat, update: array<SkipNode>, ghost ps: seq<nat>)
      requires AllLinked() && Stacked(levels) && Absent(levels, node) && header in nodes && node in nodes && node != header
      requires |ps| == MAX_LEVEL == update.Length && newLevel < MAX_LEVEL
      requires forall i :: 0 <= i < MAX_LEVEL ==> ps[i] <= |levels[i]| && update[i] == At(header, levels[i], ps[i])
      modifies this`levels, nodes`forward
      ensures levels == Woven(old(levels), ps, node, newLevel + 1) && AllLinked()
    {
      hide DistinctNodes, LinkedAt, Nested, WithNode;
      ghost var lv := levels;
      forall i | 0 <= i < MAX_LEVEL
        ensures DistinctNodes(lv[i]) && node !in lv[i] && update[i] in nodes
      {
        assert Fits(lv, i);
        InNodes(i, ps[i]);
      }
      var i := 0;
      assert levels == Woven(lv, ps, node, 0);
      while i <= newLevel
        invariant i <= newLevel + 1 && levels == Woven(lv, ps, node, i) && AllLinked()
      {
        assert levels[i] == lv[i];
        LinkLevel(node, update[i], i, ps[i]);
        assert levels == Woven(lv, ps, node, i + 1);
        i := i + 1;
      }
    }

    lemma InNodes(i: nat, p: nat)
      requires AllLinked() && header in nodes && i < MAX_LEVEL && p <= |levels[i]|
      ensures At(header, levels[i], p) in nodes
    {
      assert LinkedAt(i);
    }

    /** Creates the node and links it into levels 0 to `newLevel`. */
    method Grow(key: bytes, value: bytes, newLevel: nat, update: array<SkipNode>) returns (node: SkipNode)
      requires Shape() && newLevel < MAX_LEVEL && update.Length == MAX_LEVEL && LeftAt(update[..], key)
      modifies this`level, this`size, this`levels, this`nodes, nodes`forward, update
      ensures Shape() && fresh(nodes - old(nodes)) && level == if newLevel > old(level) then newLevel else old(level)
      ensures fresh(node) && node.key == key && node.value == value && Absent(old(levels), node)
      ensures levels == Grown(old(levels), node, newLevel + 1)
      ensures var p := old(Place(levels, key, 0));
              p <= |old(Entries())| && Entries() == Splice(old(Entries()), Entry(key, value), p)
    {
      hide Stacked, Place, EntriesOf, Absent, Grown, WithNode, LinkedAt, AllLinked, EmptyAbove, LeftAt, Splice;
      Height(levels);
      ghost var lv, es := levels, Entries();
      Raise(newLevel, update, key);
      node := Create(key, value);
      Above(key);
      GrownStacked(lv, node, newLevel + 1);
      LinkIn(node, newLevel, update);
      size := size + 1;
      StillEmptyAbove(lv, node, newLevel);
      SplicedEntries(lv, es, node, newLevel + 1);
    }

    lemma SplicedEntries(before: seq<seq<SkipNode>>, es: seq<Entry>, node: SkipNode, count: nat)
      requires Stacked(before) && Shape() && levels == Grown(before, node, count) && count > 0
      requires |es| == |before[0]| && forall k :: 0 <= k < |es| ==> es[k] == EntryOf(before[0][k])
      ensures Entries() == Splice(es, EntryOf(node), Place(before, node.key, 0))
    {
      hide Stacked, Place, Grown, AllLinked, EmptyAbove;
      Height(before);
      GrownLevel(before, node, count, 0);
      EntriesWithNode(es, before[0], Place(before, node.key, 0), node);
    }

    /** Links a new node into levels 0 to `newLevel`. */
    method LinkIn(node: SkipNode, newLevel: nat, update: array<SkipNode>)
      requires AllLinked() && Stacked(levels) && header in nodes && newLevel < MAX_LEVEL
      requires update.Length == MAX_LEVEL && LeftAt(update[..], node.key)
      requires Absent(levels, node) && node in nodes && node != header
      modifies this`levels, nodes`forward
      ensures AllLinked() && levels == Grown(old(levels), node, newLevel + 1)
    {
      hide Stacked, Absent, Grown, AllLinked, Woven, LeftAt, Places;
      PlacesLeft(update, node.key);
      GrownIs(levels, node, newLevel + 1);
      Weave(node, newLevel, update, Places(levels, node.key));
    }

    lemma StillEmptyAbove(before: seq<seq<SkipNode>>, node: SkipNode, newLevel: nat)
      requires Stacked(before) && newLevel <= level && forall i :: level < i < MAX_LEVEL ==> before[i] == []
      requires levels == Grown(before, node, newLevel + 1)
      ensures EmptyAbove() && |levels[0]| == |before[0]| + 1
    {
      hide Stacked, Place, Grown, WithNode;
      Height(before);
      GrownLevel(before, node, newLevel + 1, 0);
      forall i | level < i < MAX_LEVEL
        ensures levels[i] == []
      {
        GrownLevel(before, node, newLevel + 1, i);
      }
    }

    lemma PlacesLeft(update: array<SkipNode>, key: bytes)
      requires Stacked(levels) && LeftAt(update[..], key)
      ensures |levels| == MAX_LEVEL && var ps := Places(levels, key);
              |ps| == MAX_LEVEL == update.Length
              && forall i :: 0 <= i < MAX_LEVEL ==> ps[i] <= |levels[i]| && update[i] == At(header, levels[i], ps[i])
    {
      hide Place, Stacked;
      Height(levels);
      forall i | 0 <= i < MAX_LEVEL
        ensures update[i] == At(header, levels[i], Place(levels, key, i))
      {
        assert update[i] == update[..][i];
      }
    }

    /** Puts a key that was not found into the list. */
    method AddNode(key: bytes, value: bytes, newLevel: nat, update: array<SkipNode>) returns (ghost node: SkipNode)
      requires Valid() && newLevel < MAX_LEVEL && update.Length == MAX_LEVEL && Found(levels, key) == null
      requires Stacked(levels) && LeftAt(update[..], key)
      modifies this, nodes`forward, update
      ensures Valid() && fresh(nodes - old(nodes)) && level == if newLevel > old(level) then newLevel else old(level)
      ensures run == old(run) + [Entry(key, value)]
      ensures fresh(node) && levels == Grown(old(levels), node, newLevel + 1)
      ensures Found(levels, key) == node && Answer(levels, Entries(), key) == Some(value)
      ensures forall other :: other != key ==> SameOrNone(Answer(levels, Entries(), other), old(Answer(levels, Entries(), other)))
      ensures var p := old(Place(levels, key, 0));
              p <= |old(Entries())| && Entries() == Splice(old(Entries()), Entry(key, value), p)
    {
      hide Stacked, Place, Records, Answer, Found, Linked, EntriesOf, Absent, Grown, AllLinked, EmptyAbove, LeftAt, Splice;
      ghost var lv, es := levels, Entries();
      var n := Grow(key, value, newLevel, update);
      node := n;
      FoundNew(lv, n, newLevel + 1);
      GrownRecords(lv, es, run, n, value, newLevel + 1);
      run := run + [Entry(key, value)];
    }

    /** Brings levels above those in use into use; they start out empty. */
    method Raise(newLevel: nat, update: array<SkipNode>, ghost key: bytes)
      requires Shape() && newLevel < MAX_LEVEL == update.Length
      requires LeftAt(update[..], key)
      modifies this`level, update
      ensures Shape() && update[..] == old(update[..]) && level == if newLevel > old(level) then newLevel else old(level)
    {
      hide Stacked, Place, Start, AllLinked;
      Height(levels);
      Above(key);
      if newLevel > level {
        PlacesLeft(update, key);
        RaiseUpdate(level, newLevel, update);
        level := newLevel;
      }
    }

    /** The header precedes a new node in the levels above those in use. */
    method RaiseUpdate(level: nat, newLevel: nat, update: array<SkipNode>)
      requires level < newLevel < MAX_LEVEL == update.Length
      requires forall j :: level < j <= newLevel ==> update[j] == header
      modifies update
      ensures update[..] == old(update[..])
    {
      var j := level + 1;
      while j <= newLevel
        invariant level < j <= newLevel + 1 && update[..] == old(update[..])
      {
        update[j] := header;
        j := j + 1;
      }
    }

    /** Locates the key and looks whether the next node has it. */
    method Probe(key: bytes) returns (update: array<SkipNode>, x: SkipNode?)
      requires Shape()
      ensures fresh(update) && update.Length == MAX_LEVEL && LeftAt(update[..], key)
      ensures x == Found(levels, key) && (x != null ==> x in nodes && x.key == key)
    {
      hide Stacked, Place, Found, Linked, EntriesOf, AllLinked, EmptyAbove, LeftAt;
      update := Locate(key);
      Height(levels);
      NextAt(0, Place(levels, key, 0));
      FoundAt(levels, key);
      PlacesLeft(update, key);
      x := update[0].forward[0];
      if x == null || x.key != key {
        x := null;
      }
    }

    /** Inserts the pair, or overwrites the value; `newLevel` is the random level of a new node. The key is found
        afterwards, and no other key's answer becomes anything but none. */
    method Insert(key: bytes, value: bytes, newLevel: nat) returns (ok: bool)
      requires Valid() && newLevel < MAX_LEVEL
      modifies this, nodes
      ensures Valid() && fresh(nodes - old(nodes))
      ensures ok <==> |key| <= 255 && |value| <= 1023
      ensures run == old(run) + if ok then [Entry(key, value)] else []
      ensures ok ==> Answer(levels, Entries(), key) == Some(value)
      ensures forall other :: other != key ==> SameOrNone(Answer(levels, Entries(), other), old(Answer(levels, Entries(), other)))
      ensures !ok ==> Entries() == old(Entries())
      ensures !ok || old(Found(levels, key)) != null ==> level == old(level) && levels == old(levels)
      ensures ok && old(Found(levels, key)) != null ==>
                var p := Place(levels, key, 0); p < |old(Entries())| && Entries() == old(Entries())[p := Entry(key, value)]
      ensures ok && old(Found(levels, key)) == null ==>
                && level == (if newLevel > old(level) then newLevel else old(level))
                && Found(levels, key) != null && fresh(Found(levels, key))
                && levels == Grown(old(levels), Found(levels, key), newLevel + 1)
                && var p := old(Place(levels, key, 0));
                   p <= |old(Entries())| && Entries() == Splice(old(Entries()), Entry(key, value), p)
      ensures ok && InOrder(run) ==> Entries() == Inserted(old(Entries()), key, value)
    {
      hide Stacked, Place, Records, Answer, Found, Linked, EntriesOf, Grown, InOrder, Inserted, AfterInserts, AllLinked, EmptyAbove, LeftAt, Splice;
      if |key| > KEY_LIMIT || |value| > VALUE_LIMIT {
        return false;
      }
      ok := true;
      ghost var es, before := Entries(), run;
      EntriesAscend();
      var update, x := Probe(key);
      if x != null {
        Overwrite(x, value);
      } else {
        ghost var node := AddNode(key, value, newLevel, update);
      }
      EntriesAscend();
      OrderBefore(before, Entry(key, value));
    }
  }

  lemma OrderBefore(run: seq<Entry>, e: Entry)
    ensures InOrder(run + [e]) ==> InOrder(run)
    ensures AfterInserts(run + [e]) == Inserted(AfterInserts(run), e.key, e.value)
  {
    LastInsertedStep(run, e, e.key);
    assert forall i :: 0 <= i < |run| ==> (run + [e])[i] == run[i];
  }

  lemma FoundAt(levels: seq<seq<SkipNode>>, key: bytes)
    requires Stacked(levels)
    ensures var p := Place(levels, key, 0);
            p <= |levels[0]| && Found(levels, key) == Behind(levels[0], p, key)
  {
    hide Place;
  }

  // ---------- Runs ----------

  /** The inserts that are not rejected. */
  function Accepted(inserts: seq<Entry>): seq<Entry> {
    if inserts == [] then []
    else
      var last := inserts[|inserts| - 1];
      Accepted(inserts[..|inserts| - 1]) + if |last.key| <= KEY_LIMIT && |last.value| <= VALUE_LIMIT then [last] else []
  }

  /** Whatever is inserted at whatever random levels: search agrees with the value inserted last for every key if and
      only if no accepted key is empty or all are. */
  method InsertAll(inserts: seq<Entry>, newLevels: seq<nat>) returns (list: SkipList)
    requires |newLevels| == |inserts| && forall i :: 0 <= i < |newLevels| ==> newLevels[i] < MAX_LEVEL
    ensures list.Valid() && list.run == Accepted(inserts)
    ensures (forall key :: list.Agrees(key)) <==> NoneEmpty(Accepted(inserts)) || AllEmpty(Accepted(inserts))
  {
    hide SkipList.Shape, Records, Stacked, SkipList.Agrees, SkipList.Valid, SkipList.Entries;
    list := new SkipList();
    var k := 0;
    while k < |inserts|
      invariant 0 <= k <= |inserts| && fresh(list) && fresh(list.nodes) && list.Valid() && list.run == Accepted(inserts[..k])
    {
      var ok := Store(list, inserts[k], newLevels[k]);
      assert inserts[..k + 1][..k] == inserts[..k];
      k := k + 1;
    }
    assert inserts[..k] == inserts;
    list.AgreesExactlyNow();
  }

  method Store(list: SkipList, e: Entry, newLevel: nat) returns (ok: bool)
    requires list.Valid() && newLevel < MAX_LEVEL
    modifies list, list.nodes
    ensures list.Valid() && fresh(list.nodes - old(list.nodes))
    ensures ok <==> |e.key| <= KEY_LIMIT && |e.value| <= VALUE_LIMIT
    ensures list.run == old(list.run) + if ok then [e] else []
    ensures ok ==> Answer(list.levels, list.Entries(), e.key) == Some(e.value)
  {
    ok := list.Insert(e.key, e.value, newLevel);
  }

  /** After an insert of a new node under the empty key that node stands in front of every level that has it. */
  lemma EmptyInFront(before: seq<seq<SkipNode>>, n: SkipNode, count: nat)
    requires Stacked(before) && n.key == []
    ensures |before| == MAX_LEVEL && forall i :: 0 <= i < count && i < MAX_LEVEL ==> Grown(before, n, count)[i] == [n] + before[i]
  {
    hide Place, Start, Stacked, Grown;
    Height(before);
    forall i | 0 <= i < count && i < MAX_LEVEL
      ensures Grown(before, n, count)[i] == [n] + before[i]
    {
      EmptyStays(before, i);
      GrownLevel(before, n, count, i);
    }
  }

  /** Inserting the empty key hides the least other key from search, and every other key if it was not found before and
      the random level is the list's, although what was inserted under the key is still what it was. */
  method EmptyKeyHides(list: SkipList, value: bytes, newLevel: nat, key: bytes) returns (r: SkipNode?)
    requires list.Valid() && |value| <= VALUE_LIMIT && newLevel < MAX_LEVEL && key != []
    requires LeastOther(list.levels[0], key) || (list.level <= newLevel && Found(list.levels, []) == null)
    modifies list, list.nodes
    ensures list.Valid() && LastInserted(list.run, key) == old(LastInserted(list.run, key)) && r == null
  {
    hide Stacked, Place, Records, Answer, Found, EntriesOf, Grown, Inserted, AfterInserts, LastInserted, SkipList.AllLinked;
    ghost var lv, run := list.levels, list.run;
    list.Above(key);
    var ok := list.Insert([], value, newLevel);
    LastInsertedStep(run, Entry([], value), key);
    HiddenByEmpty(lv, list.levels, Found(list.levels, []), newLevel, key);
    r := list.Search(key);
  }

  lemma HiddenByEmpty(before: seq<seq<SkipNode>>, after: seq<seq<SkipNode>>, n: SkipNode?, newLevel: nat, key: bytes)
    requires Stacked(before) && Stacked(after) && newLevel < MAX_LEVEL && key != []
    requires LeastOther(before[0], key) || (Found(before, []) == null && forall i :: newLevel < i < MAX_LEVEL ==> before[i] == [])
    requires if Found(before, []) != null then after == before
             else n != null && n.key == [] && after == Grown(before, n, newLevel + 1)
    ensures Found(after, key) == null
  {
    hide Place, Stacked, Grown, Found;
    Height(before);
    if Found(before, []) != null {
      EmptyAtFront(before);
      LeastIsLost(after, key);
    } else {
      EmptyInFront(before, n, newLevel + 1);
      if LeastOther(before[0], key) {
        var k :| 0 <= k < |before[0]| && before[0][k].key == key;
        assert after[0][k + 1].key == key;
        LeastIsLost(after, key);
      } else {
        forall i | 0 <= i < MAX_LEVEL && after[i] != []
          ensures !Passes(after[i][0], key)
        {
          GrownLevel(before, n, newLevel + 1, i);
        }
        FrontStops(after, key, 0);
        FoundAt(after, key);
      }
    }
  }

  lemma EmptyAtFront(levels: seq<seq<SkipNode>>)
    requires Stacked(levels) && Found(levels, []) != null
    ensures levels[0] != [] && levels[0][0].key == []
  {
    hide Place;
    EmptyStays(levels, 0);
  }

  /** The least run on which search is wrong: at any random levels, the empty key and then another. The second is found,
      the first is not. */
  method EmptyKeyLost(first: bytes, key: bytes, second: bytes, level1: nat, level2: nat) returns (list: SkipList, r: SkipNode?, e: SkipNode?)
    requires 0 < |key| <= KEY_LIMIT && |first| <= VALUE_LIMIT && |second| <= VALUE_LIMIT && level1 < MAX_LEVEL && level2 < MAX_LEVEL
    ensures list.Valid() && list.run == [Entry([], first), Entry(key, second)]
    ensures r != null && r.key == key && r.value == second && e == null
  {
    hide SkipList.Shape, Records, Stacked, SkipList.Entries, Answer, Found, LastInserted;
    list := new SkipList();
    var ok := Store(list, Entry([], first), level1);
    ok := Store(list, Entry(key, second), level2);
    EmptyIsLost(list, Entry([], first), Entry(key, second));
    r := list.Search(key);
    e := list.Search([]);
  }

  /** If the other of two keys is found, the empty one is lost. */
  lemma EmptyIsLost(list: SkipList, a: Entry, b: Entry)
    requires list.Valid() && list.run == [a, b] && a.key == [] != b.key
    requires Answer(list.levels, list.Entries(), b.key) != None
    ensures Answer(list.levels, list.Entries(), []) == None
  {
    hide Stacked, Records, Answer;
    assert list.run[0] == a && list.run[1] == b;
    var lost := LostKey(list.levels, list.Entries(), list.run);
    InRun(list.run, lost);
  }

  // ---------- Iterating ----------

  /** The entries an iterator yields: all but those under the empty key, which it takes for the header. */
  function Yielded(es: seq<Entry>): seq<Entry> {
    if es == [] then [] else Yielded(es[..|es| - 1]) + if es[|es| - 1].key == [] then [] else [es[|es| - 1]]
  }

  lemma NothingYielded(es: seq<Entry>)
    ensures Yielded(es[..0]) == []
  {
  }

  lemma YieldedStep(es: seq<Entry>, k: nat)
    requires k < |es|
    ensures Yielded(es[..k + 1]) == Yielded(es[..k]) + if es[k].key == [] then [] else [es[k]]
  {
    assert es[..k + 1][..k] == es[..k];
  }

  /** Of entries in order at most the first is left out. */
  lemma {:induction false} YieldedInOrder(es: seq<Entry>)
    requires Ascending(es)
    ensures Yielded(es) == if es != [] && es[0].key == [] then es[1..] else es
  {
    if es != [] {
      var init := es[..|es| - 1];
      YieldedInOrder(init);
      assert |es| > 1 ==> Less(es[0].key, es[|es| - 1].key);
      assert es == init + [es[|es| - 1]];
    }
  }

  /** Walks the entries in order; it stands before the first one at first. */
  class SkipIterator {
    const list: SkipList
    var current: SkipNode?
    /** How many nodes were passed. */
    ghost var passed: nat

    ghost predicate Valid()
      reads this, list, list.nodes
    {
      list.Valid() && passed <= |list.levels[0]| && current == At(list.header, list.levels[0], passed)
    }

    constructor (list: SkipList)
      requires list.Valid()
      ensures Valid() && this.list == list && passed == 0
    {
      this.list, current, passed := list, list.header, 0;
    }

    /** Yields the next entry that is not under the empty key, or null when there is none. */
    method Advance() returns (r: SkipNode?)
      requires Valid()
      modifies this
      ensures r == null ==> Yielded(list.Entries()) == Yielded(list.Entries()[..old(passed)])
      ensures r != null ==> Valid() && passed > old(passed)
                            && Yielded(list.Entries()[..passed]) == Yielded(list.Entries()[..old(passed)]) + [EntryOf(r)]
    {
      hide EntriesOf, Stacked, Yielded, NeverStale, HoldsRun, AfterInserts;
      ghost var lv, es := list.levels[0], list.Entries();
      list.NextAt(0, passed);
      assert es[..|es|] == es;
      current := current.forward[0];
      if passed < |es| {
        YieldedStep(es, passed);
      }
      passed := passed + 1;
      if current != null && |current.key| == 0 {
        list.NextAt(0, passed);
        current := current.forward[0];
        if passed < |es| {
          YieldedStep(es, passed);
        }
        passed := passed + 1;
      }
      r := current;
    }
  }

  lemma DrainedInOrder(list: SkipList)
    requires list.Valid()
    ensures InOrder(list.run) ==> Ascending(Yielded(list.Entries()))
    ensures NoneEmpty(list.run) ==> Yielded(list.Entries()) == AfterInserts(list.run)
  {
    list.EntriesAscend();
    if InOrder(list.run) {
      YieldedInOrder(list.Entries());
    }
    if NoneEmpty(list.run) && list.Entries() != [] {
      var lv := list.levels[0];
      assert HasKey(lv, lv[0].key);
      InRun(list.run, lv[0].key);
    }
  }

  /** Draining an iterator yields the entries under other than the empty key, each once, in the order of level 0. */
  method Drain(list: SkipList) returns (es: seq<Entry>)
    requires list.Valid()
    ensures es == Yielded(list.Entries())
    ensures InOrder(list.run) ==> Ascending(es)
    ensures NoneEmpty(list.run) ==> es == AfterInserts(list.run)
  {
    hide SkipList.Shape, Records, Stacked, Yielded, InOrder, AfterInserts;
    ghost var all := list.Entries();
    var it := new SkipIterator(list);
    es := [];
    assert Yielded(all[..0]) == es by {
      NothingYielded(all);
    }
    while true
      invariant it.Valid() && it.list == list && fresh(it) && list.Entries() == all
      invariant it.passed <= |all| && es == Yielded(all[..it.passed])
      decreases |all| - it.passed
    {
      var n := it.Advance();
      if n == null {
        break;
      }
      es := es + [EntryOf(n)];
    }
    DrainedInOrder(list);
  }
}
