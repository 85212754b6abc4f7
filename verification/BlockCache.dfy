/** What an LRU cache means: a list of distinct keys, most recently used first. */
module Recency {
  import opened Bytes
  import opened Options
  import opened Sets

  datatype Item = Item(key: bytes, data: bytes)

  predicate DistinctItems(s: seq<Item>) {
    forall i, j :: 0 <= i < j < |s| ==> s[i].key != s[j].key
  }

  /** The first position that holds the key, or the length. */
  function Place(s: seq<Item>, key: bytes): (p: nat)
    ensures p <= |s| && (p < |s| ==> s[p].key == key) && forall j :: 0 <= j < p ==> s[j].key != key
  {
    if s == [] || s[0].key == key then 0
    else
      var p := Place(s[1..], key);
      assert forall j :: 0 < j < 1 + p ==> s[j].key == s[1..][j - 1].key;
      1 + p
  }

  predicate Cached(s: seq<Item>, key: bytes) {
    Place(s, key) < |s|
  }

  function DataOf(s: seq<Item>, key: bytes): Option<bytes> {
    if Cached(s, key) then Some(s[Place(s, key)].data) else None
  }

  function Without(s: seq<Item>, key: bytes): seq<Item> {
    if Cached(s, key) then s[..Place(s, key)] + s[Place(s, key) + 1..] else s
  }

  /** Putting makes the key the most recent; a new key first pushes the least recent ones out of a full cache. */
  function Put(s: seq<Item>, capacity: nat, key: bytes, data: bytes): seq<Item>
    requires capacity > 0
  {
    [Item(key, data)] + if Cached(s, key) || |s| < capacity then Without(s, key) else s[..capacity - 1]
  }

  /** A hit makes the key the most recent, a miss changes nothing. */
  function Get(s: seq<Item>, key: bytes): seq<Item> {
    if Cached(s, key) then [s[Place(s, key)]] + Without(s, key) else s
  }

  // ---------- Runs ----------

  datatype Op = PutOp(key: bytes, data: bytes) | GetOp(key: bytes) | InvalidateOp(key: bytes)

  function Step(s: seq<Item>, capacity: nat, op: Op): seq<Item>
    requires capacity > 0
  {
    match op
    case PutOp(key, data) => Put(s, capacity, key, data)
    case GetOp(key) => Get(s, key)
    case InvalidateOp(key) => Without(s, key)
  }

  /** The cache after a run of operations that starts with an empty cache. */
  function After(ops: seq<Op>, capacity: nat): seq<Item>
    requires capacity > 0
  {
    if ops == [] then [] else Step(After(ops[..|ops| - 1], capacity), capacity, ops[|ops| - 1])
  }

  /** When the key was last put or asked for. */
  function LastUse(ops: seq<Op>, key: bytes): int {
    if ops == [] then -1
    else if ops[|ops| - 1].key == key && !ops[|ops| - 1].InvalidateOp? then |ops| - 1
    else LastUse(ops[..|ops| - 1], key)
  }

  function LastPut(ops: seq<Op>, key: bytes): Option<bytes> {
    if ops == [] then None
    else if ops[|ops| - 1].PutOp? && ops[|ops| - 1].key == key then Some(ops[|ops| - 1].data)
    else LastPut(ops[..|ops| - 1], key)
  }

  /** The items stand in the order of their last use, and each holds what was put last under its key. */
  ghost predicate RecencyOrdered(s: seq<Item>, ops: seq<Op>) {
    && (forall i, j :: 0 <= i < j < |s| ==> LastUse(ops, s[i].key) > LastUse(ops, s[j].key))
    && (forall i :: 0 <= i < |s| ==> Some(s[i].data) == LastPut(ops, s[i].key))
  }

  lemma {:induction false} LastUseBound(ops: seq<Op>, key: bytes)
    ensures -1 <= LastUse(ops, key) < |ops|
  {
    if ops != [] {
      LastUseBound(ops[..|ops| - 1], key);
    }
  }

  /** Over any run: distinct keys, never more than the capacity, ordered by last use, each with its last put. */
  lemma {:induction false} RunIsLru(ops: seq<Op>, capacity: nat)
    requires capacity > 0
    ensures DistinctItems(After(ops, capacity)) && |After(ops, capacity)| <= capacity
    ensures RecencyOrdered(After(ops, capacity), ops)
  {
    if ops != [] {
      var init, op := ops[..|ops| - 1], ops[|ops| - 1];
      RunIsLru(init, capacity);
      var s := After(init, capacity);
      StepFits(s, capacity, op);
      StepOrdered(s, capacity, ops);
      OrderedDistinct(After(ops, capacity), ops);
    }
  }

  lemma StepFits(s: seq<Item>, capacity: nat, op: Op)
    requires capacity > 0 && DistinctItems(s) && |s| <= capacity
    ensures |Step(s, capacity, op)| <= capacity
  {
    WithoutShape(s, op.key);
    hide Without;
  }

  /** An order by last use has each key once. */
  lemma OrderedDistinct(s: seq<Item>, ops: seq<Op>)
    requires RecencyOrdered(s, ops)
    ensures DistinctItems(s)
  {
  }

  lemma WithoutShape(s: seq<Item>, key: bytes)
    requires DistinctItems(s)
    ensures |Without(s, key)| == |s| - if Cached(s, key) then 1 else 0
    ensures forall i :: 0 <= i < |Without(s, key)| ==>
                          Without(s, key)[i] == s[if i < Place(s, key) then i else i + 1] && Without(s, key)[i].key != key
  {
  }

  /** Items under other keys keep their order and their last put over one more operation. */
  lemma OthersKeep(t: seq<Item>, ops: seq<Op>)
    requires ops != [] && RecencyOrdered(t, ops[..|ops| - 1])
    requires ops[|ops| - 1].InvalidateOp? || forall i :: 0 <= i < |t| ==> t[i].key != ops[|ops| - 1].key
    ensures RecencyOrdered(t, ops)
  {
  }

  lemma WithoutOrdered(s: seq<Item>, key: bytes, ops: seq<Op>)
    requires DistinctItems(s) && RecencyOrdered(s, ops)
    ensures RecencyOrdered(Without(s, key), ops)
  {
    WithoutShape(s, key);
    hide Without, LastUse, LastPut;
  }

  /** The item used last goes to the front. */
  lemma FrontOrdered(e: Item, t: seq<Item>, ops: seq<Op>)
    requires RecencyOrdered(t, ops) && LastUse(ops, e.key) == |ops| - 1 && LastPut(ops, e.key) == Some(e.data)
    requires forall i :: 0 <= i < |t| ==> LastUse(ops, t[i].key) < |ops| - 1
    ensures RecencyOrdered([e] + t, ops)
  {
  }

  lemma StepOrdered(s: seq<Item>, capacity: nat, ops: seq<Op>)
    requires capacity > 0 && ops != [] && DistinctItems(s) && |s| <= capacity && RecencyOrdered(s, ops[..|ops| - 1])
    ensures RecencyOrdered(Step(s, capacity, ops[|ops| - 1]), ops)
  {
    hide RecencyOrdered;
    var init, op := ops[..|ops| - 1], ops[|ops| - 1];
    var rest := if op.PutOp? && !Cached(s, op.key) && |s| >= capacity then s[..capacity - 1] else Without(s, op.key);
    WithoutShape(s, op.key);
    assert RecencyOrdered(rest, init) by {
      WithoutOrdered(s, op.key, init);
      PrefixOrdered(s, capacity, init);
    }
    OthersKeep(rest, ops);
    UsedBefore(rest, ops);
    DataIsLastPut(s, op.key, init);
    if op.PutOp? || (op.GetOp? && Cached(s, op.key)) {
      FrontOrdered(Step(s, capacity, op)[0], rest, ops);
    }
  }

  lemma PrefixOrdered(s: seq<Item>, capacity: nat, ops: seq<Op>)
    requires RecencyOrdered(s, ops) && capacity > 0
    ensures |s| >= capacity ==> RecencyOrdered(s[..capacity - 1], ops)
  {
  }

  lemma DataIsLastPut(s: seq<Item>, key: bytes, ops: seq<Op>)
    requires RecencyOrdered(s, ops)
    ensures Cached(s, key) ==> LastPut(ops, key) == Some(s[Place(s, key)].data)
  {
  }

  lemma UsedBefore(t: seq<Item>, ops: seq<Op>)
    requires ops != [] && forall i :: 0 <= i < |t| ==> t[i].key != ops[|ops| - 1].key
    ensures forall i :: 0 <= i < |t| ==> LastUse(ops, t[i].key) < |ops| - 1
  {
    forall i | 0 <= i < |t|
      ensures LastUse(ops, t[i].key) < |ops| - 1
    {
      LastUseBound(ops[..|ops| - 1], t[i].key);
    }
  }

  /** A put of a new key into a full cache drops exactly one item, the one whose last use is the oldest. */
  lemma EvictsLeastRecent(ops: seq<Op>, capacity: nat, key: bytes, data: bytes)
    requires capacity > 0 && |After(ops, capacity)| == capacity && !Cached(After(ops, capacity), key)
    ensures var s, s' := After(ops, capacity), After(ops + [PutOp(key, data)], capacity);
            var victim := s[capacity - 1];
            && s' == [Item(key, data)] + s[..capacity - 1] && !Cached(s', victim.key)
            && forall i :: 0 <= i < capacity - 1 ==> LastUse(ops, victim.key) < LastUse(ops, s[i].key)
  {
    RunIsLru(ops, capacity);
    assert (ops + [PutOp(key, data)])[..|ops|] == ops;
    var s, s' := After(ops, capacity), After(ops + [PutOp(key, data)], capacity);
    assert s' == [Item(key, data)] + s[..capacity - 1];
    assert s[capacity - 1].key != key;
  }

  // ---------- What stays cached ----------

  /** The keys of the items in front of the key's. */
  function AheadKeys(s: seq<Item>, key: bytes): set<bytes> {
    set j | 0 <= j < Place(s, key) :: s[j].key
  }

  lemma AheadIff(s: seq<Item>, key: bytes, k: bytes)
    ensures k in AheadKeys(s, key) <==> Place(s, k) < Place(s, key)
  {
  }

  lemma {:induction false} DistinctCount(s: seq<Item>, p: nat)
    requires DistinctItems(s) && p <= |s|
    ensures |set j | 0 <= j < p :: s[j].key| == p
  {
    if p > 0 {
      DistinctCount(s, p - 1);
      assert (set j | 0 <= j < p :: s[j].key) == (set j | 0 <= j < p - 1 :: s[j].key) + {s[p - 1].key};
    }
  }

  lemma PlaceBehind(e: Item, t: seq<Item>, key: bytes)
    ensures Place([e] + t, key) == if e.key == key then 0 else 1 + Place(t, key)
  {
    assert ([e] + t)[1..] == t;
  }

  lemma PlacePrefix(s: seq<Item>, n: nat, key: bytes)
    requires n <= |s|
    ensures Place(s[..n], key) == if Place(s, key) < n then Place(s, key) else n
  {
  }

  lemma PlaceWithout(s: seq<Item>, gone: bytes, key: bytes)
    requires DistinctItems(s)
    ensures Place(Without(s, gone), key) ==
            if gone == key then |Without(s, gone)| else Place(s, key) - if Place(s, gone) < Place(s, key) then 1 else 0
  {
    WithoutShape(s, gone);
    hide Without;
    var p, q, t := Place(s, key), Place(s, gone), Without(s, gone);
    if gone != key && p < |s| {
      assert t[if q < p then p - 1 else p] == s[p];
    }
  }

  /** What an operation on another key does to the set of keys in front. */
  function Passed(ahead: set<bytes>, op: Op, hit: bool): set<bytes> {
    match op
    case PutOp(k, _) => ahead + {k}
    case GetOp(k) => if hit then ahead + {k} else ahead
    case InvalidateOp(k) => ahead - {k}
  }

  /** Where a key stands after an operation on another one. */
  lemma StepPlace(s: seq<Item>, capacity: nat, op: Op, key: bytes)
    requires capacity > 0 && DistinctItems(s) && |s| <= capacity && op.key != key
    ensures var s', p, q := Step(s, capacity, op), Place(s, key), Place(s, op.key);
            && Cached(s', key) == (Cached(s, key) && !(op.PutOp? && q == |s| == capacity && p == capacity - 1))
            && (Cached(s', key) ==> Place(s', key) == if op.InvalidateOp? then (if q < p then p - 1 else p)
                                                      else if op.GetOp? && q == |s| then p
                                                      else if q < p then p else p + 1)
  {
    hide Place, Without;
    WithoutShape(s, op.key);
    PlaceWithout(s, op.key, key);
    match op
    case PutOp(k, data) =>
      if !Cached(s, k) && |s| == capacity {
        PlacePrefix(s, capacity - 1, key);
        PlaceBehind(Item(k, data), s[..capacity - 1], key);
      } else {
        PlaceBehind(Item(k, data), Without(s, k), key);
      }
    case GetOp(k) =>
      if Cached(s, k) {
        PlaceBehind(s[Place(s, k)], Without(s, k), key);
      }
    case InvalidateOp(_) =>
  }

  /** The other keys keep their order among themselves. */
  lemma StepAheadIff(s: seq<Item>, capacity: nat, op: Op, key: bytes, k: bytes)
    requires capacity > 0 && DistinctItems(s) && |s| <= capacity && op.key != key && Cached(Step(s, capacity, op), key)
    ensures k in AheadKeys(Step(s, capacity, op), key) <==> k in Passed(AheadKeys(s, key), op, Cached(s, op.key))
  {
    var s' := Step(s, capacity, op);
    hide Step, Without, Place, AheadKeys;
    AheadIff(s, key, k);
    AheadIff(s', key, k);
    StepPlace(s, capacity, op, key);
    if k == op.key {
      OwnPlace(s, capacity, op);
    } else {
      StepPlace(s, capacity, op, k);
    }
  }

  /** The operation's own key goes to the front, unless it is invalidated or asked for in vain. */
  lemma OwnPlace(s: seq<Item>, capacity: nat, op: Op)
    requires capacity > 0 && DistinctItems(s)
    ensures var s' := Step(s, capacity, op);
            if op.PutOp? || (op.GetOp? && Cached(s, op.key)) then Cached(s', op.key) && Place(s', op.key) == 0
            else !Cached(s', op.key)
  {
    PlaceWithout(s, op.key, op.key);
  }

  /** A key survives an operation on another one exactly if fewer keys than the cache holds are then in front of it. */
  lemma StepAhead(s: seq<Item>, capacity: nat, op: Op, key: bytes)
    requires capacity > 0 && DistinctItems(s) && |s| <= capacity && op.key != key && Cached(s, key)
    requires DistinctItems(Step(s, capacity, op)) && |Step(s, capacity, op)| <= capacity
    ensures var s', ahead := Step(s, capacity, op), Passed(AheadKeys(s, key), op, Cached(s, op.key));
            && (Cached(s', key) <==> |ahead| < capacity)
            && (Cached(s', key) ==> AheadKeys(s', key) == ahead)
  {
    hide Step, Without;
    var s', ahead := Step(s, capacity, op), Passed(AheadKeys(s, key), op, Cached(s, op.key));
    StepPlace(s, capacity, op, key);
    if Cached(s', key) {
      forall k: bytes
        ensures k in AheadKeys(s', key) <==> k in ahead
      {
        StepAheadIff(s, capacity, op, key, k);
      }
      assert AheadKeys(s', key) == ahead;
      DistinctCount(s', Place(s', key));
    } else {
      DistinctCount(s, Place(s, key));
      AheadIff(s, key, op.key);
    }
  }

  /** Operation `u` puts its key, or finds it. */
  predicate Touches(ops: seq<Op>, capacity: nat, u: nat)
    requires capacity > 0
  {
    u < |ops| && (ops[u].PutOp? || (ops[u].GetOp? && Cached(After(ops[..u], capacity), ops[u].key)))
  }

  /** The other keys put or found since operation `u` and not invalidated after that. */
  function UsedSince(ops: seq<Op>, capacity: nat, u: nat): set<bytes>
    requires capacity > 0 && u < |ops|
  {
    if u == |ops| - 1 then {}
    else
      var init, op := ops[..|ops| - 1], ops[|ops| - 1];
      var used := UsedSince(init, capacity, u);
      if op.key == ops[u].key then used else Passed(used, op, Cached(After(init, capacity), op.key))
  }

  /** Since operation `u` its key was not invalidated, and there were never as many such others as the cache holds. */
  predicate RoomSince(ops: seq<Op>, capacity: nat, u: nat)
    requires capacity > 0 && u < |ops|
  {
    u == |ops| - 1
    || (RoomSince(ops[..|ops| - 1], capacity, u)
        && !(ops[|ops| - 1].InvalidateOp? && ops[|ops| - 1].key == ops[u].key)
        && |UsedSince(ops, capacity, u)| < capacity)
  }

  lemma {:induction false} RoomKeeps(ops: seq<Op>, capacity: nat, u: nat)
    requires capacity > 0 && Touches(ops, capacity, u) && RoomSince(ops, capacity, u)
    ensures Cached(After(ops, capacity), ops[u].key)
    ensures AheadKeys(After(ops, capacity), ops[u].key) <= UsedSince(ops, capacity, u)
    decreases |ops|
  {
    hide Step;
    var init, op := ops[..|ops| - 1], ops[|ops| - 1];
    var s := After(init, capacity);
    RunIsLru(init, capacity);
    RunIsLru(ops, capacity);
    if u < |ops| - 1 {
      assert init[..u] == ops[..u];
      RoomKeeps(init, capacity, u);
    }
    if op.key == ops[u].key {
      OwnPlace(s, capacity, op);
    } else {
      StepAhead(s, capacity, op, ops[u].key);
      SubsetSize(Passed(AheadKeys(s, ops[u].key), op, Cached(s, op.key)), UsedSince(ops, capacity, u));
    }
  }

  lemma {:induction false} TouchedLast(ops: seq<Op>, capacity: nat, key: bytes) returns (u: nat)
    requires capacity > 0 && Cached(After(ops, capacity), key)
    ensures Touches(ops, capacity, u) && ops[u].key == key && RoomSince(ops, capacity, u)
    ensures UsedSince(ops, capacity, u) == AheadKeys(After(ops, capacity), key)
    decreases |ops|
  {
    hide Step;
    var init, op := ops[..|ops| - 1], ops[|ops| - 1];
    var s := After(init, capacity);
    RunIsLru(init, capacity);
    RunIsLru(ops, capacity);
    u := |ops| - 1;
    if op.key == key {
      OwnPlace(s, capacity, op);
    } else {
      StepPlace(s, capacity, op, key);
      u := TouchedLast(init, capacity, key);
      assert init[..u] == ops[..u];
      StepAhead(s, capacity, op, key);
    }
  }

  /** After any run a key is cached exactly if it was put or found at some point, was not invalidated since, and the
      other keys put or found since and still valid were at no time as many as the cache holds. */
  lemma CachedExactly(ops: seq<Op>, capacity: nat, key: bytes)
    requires capacity > 0
    ensures Cached(After(ops, capacity), key) <==>
            exists u :: 0 <= u < |ops| && ops[u].key == key && Touches(ops, capacity, u) && RoomSince(ops, capacity, u)
  {
    if Cached(After(ops, capacity), key) {
      var u := TouchedLast(ops, capacity, key);
    }
    if u :| 0 <= u < |ops| && ops[u].key == key && Touches(ops, capacity, u) && RoomSince(ops, capacity, u) {
      RoomKeeps(ops, capacity, u);
    }
  }

  /** The other keys put or asked for after operation `u`. */
  ghost function OthersSince(ops: seq<Op>, u: nat): set<bytes>
    requires u < |ops|
  {
    set i | u < i < |ops| && ops[i].key != ops[u].key && !ops[i].InvalidateOp? :: ops[i].key
  }

  /** So a key put or found stays cached until it is invalidated or as many others as the cache holds were asked for. */
  lemma {:induction false} Retained(ops: seq<Op>, capacity: nat, u: nat)
    requires capacity > 0 && Touches(ops, capacity, u)
    requires forall i :: u < i < |ops| ==> !(ops[i].InvalidateOp? && ops[i].key == ops[u].key)
    requires |OthersSince(ops, u)| < capacity
    ensures RoomSince(ops, capacity, u) && UsedSince(ops, capacity, u) <= OthersSince(ops, u)
    ensures Cached(After(ops, capacity), ops[u].key)
    decreases |ops|
  {
    hide After;
    var init := ops[..|ops| - 1];
    if u + 1 < |ops| {
      assert init[..u] == ops[..u];
      assert OthersSince(init, u) <= OthersSince(ops, u) by {
        assert forall i :: 0 <= i < |init| ==> init[i] == ops[i];
      }
      SubsetSize(OthersSince(init, u), OthersSince(ops, u));
      Retained(init, capacity, u);
      SubsetSize(UsedSince(ops, capacity, u), OthersSince(ops, u));
    }
    RoomKeeps(ops, capacity, u);
  }
}

/** The block cache: hash chains and a doubly linked list over the same entries. */
module BlockCaches {
  import opened Bytes
  import opened Recency
  import opened Options

  const DEFAULT_CAPACITY := 128
  const CACHE_MAX_KEY_SIZE := 256

  class CacheEntry {
    const key: bytes
    var data: bytes
    var hashNext: CacheEntry?
    var lruPrev: CacheEntry?
    var lruNext: CacheEntry?

    constructor (key: bytes, data: bytes)
      ensures this.key == key && this.data == data
    {
      this.key, this.data := key, data;
      hashNext, lruPrev, lruNext := null, null, null;
    }
  }

  function Nth(s: seq<CacheEntry>, k: int): CacheEntry? {
    if 0 <= k < |s| then s[k] else null
  }

  function Removed(s: seq<CacheEntry>, p: nat): seq<CacheEntry>
    requires p < |s|
  {
    s[..p] + s[p + 1..]
  }

  ghost predicate NodeAt(s: seq<CacheEntry>, k: int)
    requires 0 <= k < |s|
    reads s`lruPrev, s`lruNext
  {
    s[k].lruPrev == Nth(s, k - 1) && s[k].lruNext == Nth(s, k + 1)
  }

  /** Head, tail and the pointers in both directions agree with the list. */
  ghost predicate ListLinked(head: CacheEntry?, tail: CacheEntry?, s: seq<CacheEntry>)
    reads s`lruPrev, s`lruNext
  {
    && head == Nth(s, 0) && tail == Nth(s, |s| - 1)
    && forall k {:trigger NodeAt(s, k)} :: 0 <= k < |s| ==> NodeAt(s, k)
  }

  ghost predicate ChainAt(s: seq<CacheEntry>, k: int)
    requires 0 <= k < |s|
    reads s`hashNext
  {
    s[k].hashNext == Nth(s, k + 1)
  }

  ghost predicate ChainLinked(first: CacheEntry?, s: seq<CacheEntry>)
    reads s`hashNext
  {
    first == Nth(s, 0) && forall k {:trigger ChainAt(s, k)} :: 0 <= k < |s| ==> ChainAt(s, k)
  }

  ghost predicate DistinctEntries(s: seq<CacheEntry>) {
    forall i, j :: 0 <= i < j < |s| ==> s[i].key != s[j].key
  }

  function ItemOf(e: CacheEntry): Item
    reads e`data
  {
    Item(e.key, e.data)
  }

  function ItemsOf(s: seq<CacheEntry>): (items: seq<Item>)
    reads s`data
    ensures |items| == |s| && forall i :: 0 <= i < |s| ==> items[i] == ItemOf(s[i])
  {
    if s == [] then [] else ItemsOf(s[..|s| - 1]) + [ItemOf(s[|s| - 1])]
  }

  class BlockCache {
    const capacity: nat
    const hashBuckets: nat
    const hash: bytes -> nat
    const hashTable: array<CacheEntry?>
    var lruHead: CacheEntry?
    var lruTail: CacheEntry?
    var size: nat
    /** The entries from most to least recently used. */
    ghost var lru: seq<CacheEntry>
    /** The entries of each bucket in chain order. */
    ghost var chains: seq<seq<CacheEntry>>
    /** Every entry that was ever in the cache. */
    ghost var entries: set<CacheEntry>

    function Bucket(key: bytes): nat
      requires hashBuckets > 0
    {
      hash(key) % hashBuckets
    }

    /** A bucket's chain holds only entries of that bucket, each once. */
    ghost predicate BucketOk(chains: seq<seq<CacheEntry>>, b: nat)
      requires hashBuckets > 0 && b < |chains|
    {
      DistinctEntries(chains[b]) && forall k :: 0 <= k < |chains[b]| ==> Bucket(chains[b][k].key) == b
    }

    ghost predicate BucketsOk(chains: seq<seq<CacheEntry>>) {
      && hashBuckets > 0 && |chains| == hashBuckets
      && forall b {:trigger BucketOk(chains, b)} :: 0 <= b < hashBuckets ==> BucketOk(chains, b)
    }

    /** The chains hold exactly the entries of the list. */
    ghost predicate SameEntries(lru: seq<CacheEntry>, chains: seq<seq<CacheEntry>>)
      requires BucketsOk(chains)
    {
      && (forall b, k {:trigger InList(lru, chains[b][k])} :: 0 <= b < hashBuckets && 0 <= k < |chains[b]| ==> InList(lru, chains[b][k]))
      && forall k {:trigger InChain(chains, lru[k])} :: 0 <= k < |lru| ==> InChain(chains, lru[k])
    }

    ghost predicate InList(lru: seq<CacheEntry>, e: CacheEntry) {
      e in lru
    }

    ghost predicate InChain(chains: seq<seq<CacheEntry>>, e: CacheEntry)
      requires BucketsOk(chains)
    {
      e in chains[Bucket(e.key)]
    }

    ghost predicate ChainsLinked()
      reads this`chains, this`entries, hashTable, entries`hashNext
    {
      && hashTable.Length == hashBuckets == |chains|
      && (forall b :: 0 <= b < hashBuckets ==> forall e :: e in chains[b] ==> e in entries)
      && forall b {:trigger chains[b]} :: 0 <= b < hashBuckets ==> ChainLinked(hashTable[b], chains[b])
    }

    ghost predicate Listed()
      reads this`lru, this`lruHead, this`lruTail, this`entries, entries`lruPrev, entries`lruNext
    {
      (forall e :: e in lru ==> e in entries) && DistinctEntries(lru) && ListLinked(lruHead, lruTail, lru)
    }

    ghost predicate Valid()
      reads this, hashTable, entries
    {
      capacity > 0 && size == |lru| <= capacity && Listed() && BucketsOk(chains) && SameEntries(lru, chains) && ChainsLinked()
    }

    ghost function Items(): seq<Item>
      requires Valid()
      reads this, hashTable, entries
    {
      ItemsOf(lru)
    }

    constructor (capacity: nat, hash: bytes -> nat)
      ensures Valid() && Items() == [] && this.hash == hash && this.capacity == if capacity == 0 then 128 else capacity
      ensures fresh(hashTable) && entries == {}
    {
      var c := if capacity == 0 then DEFAULT_CAPACITY else capacity;
      var n := if c > 1021 then 4099 else 1021;
      this.capacity, this.hash, hashBuckets := c, hash, n;
      hashTable := new CacheEntry?[n](_ => null);
      lruHead, lruTail, size := null, null, 0;
      lru, entries := [], {};
      chains := seq(n, _ => []);
    }

    // ---------- The list ----------

    /** Takes an entry out of the list; its own pointers keep their values. */
    method LruDetach(entry: CacheEntry, ghost p: nat)
      requires Listed() && p < |lru| && entry == lru[p]
      modifies this`lruHead, this`lruTail, this`lru, entries`lruPrev, entries`lruNext
      ensures Listed() && lru == Removed(old(lru), p)
    {
      hide DistinctEntries;
      Apart(lru);
      RemovedDistinct(lru, p);
      assert NodeAt(lru, p);
      if entry.lruPrev != null {
        entry.lruPrev.lruNext := entry.lruNext;
      } else {
        lruHead := entry.lruNext;
      }
      if entry.lruNext != null {
        entry.lruNext.lruPrev := entry.lruPrev;
      } else {
        lruTail := entry.lruPrev;
      }
      ghost var s := lru;
      lru := Removed(lru, p);
      forall k | 0 <= k < |lru|
        ensures NodeAt(lru, k)
      {
        assert old(NodeAt(lru, if k < p then k else k + 1));
      }
    }

    lemma RemovedDistinct(s: seq<CacheEntry>, p: nat)
      requires DistinctEntries(s) && p < |s|
      ensures DistinctEntries(Removed(s, p)) && forall e :: e in Removed(s, p) ==> e in s
    {
    }

    lemma Apart(s: seq<CacheEntry>)
      requires DistinctEntries(s)
      ensures forall i, j :: 0 <= i < j < |s| ==> s[i] != s[j]
    {
    }

    /** Puts an entry at the head of the list. */
    method LruAttachHead(entry: CacheEntry)
      requires Listed() && entry in entries && forall k :: 0 <= k < |lru| ==> lru[k].key != entry.key
      modifies this`lruHead, this`lruTail, this`lru, entries`lruPrev, entries`lruNext
      ensures Listed() && lru == [entry] + old(lru)
    {
      assert |lru| > 0 ==> NodeAt(lru, 0);
      entry.lruPrev := null;
      entry.lruNext := lruHead;
      if lruHead != null {
        lruHead.lruPrev := entry;
      } else {
        lruTail := entry;
      }
      lruHead := entry;
      lru := [entry] + lru;
      Apart(lru);
      forall k | 0 <= k < |lru|
        ensures NodeAt(lru, k)
      {
        assert k > 0 ==> old(NodeAt(lru, k - 1));
      }
    }

    // ---------- The chains ----------

    /** Finds an entry by its key. */
    method Find(key: bytes) returns (e: CacheEntry?)
      requires Valid()
      ensures e == null <==> !Cached(Items(), key)
      ensures e != null ==> Place(Items(), key) < |lru| && e == lru[Place(Items(), key)] && e.key == key && e in entries
    {
      var b := Bucket(key);
      ghost var k, chain := 0, chains[b];
      assert BucketOk(chains, b);
      e := hashTable[b];
      while e != null
        invariant 0 <= k <= |chain| && e == Nth(chain, k) && forall j :: 0 <= j < k ==> chain[j].key != key
        decreases |chain| - k
      {
        assert ChainAt(chain, k);
        if e.key == key {
          assert InList(lru, chains[b][k]);
          PlaceOf(e, key);
          return;
        }
        e := e.hashNext;
        k := k + 1;
      }
      NotThere(key);
    }

    lemma PlaceOf(e: CacheEntry, key: bytes)
      requires Valid() && e in lru && e.key == key
      ensures Place(Items(), key) < |lru| && lru[Place(Items(), key)] == e
    {
      var p :| 0 <= p < |lru| && lru[p] == e;
      assert Items()[p].key == key;
      assert Place(Items(), key) <= p;
    }

    lemma NotThere(key: bytes)
      requires Valid() && forall j :: 0 <= j < |chains[Bucket(key)]| ==> chains[Bucket(key)][j].key != key
      ensures !Cached(Items(), key)
    {
      forall p | 0 <= p < |lru|
        ensures Items()[p].key != key
      {
        assert InChain(chains, lru[p]);
      }
    }

    /** Takes an entry out of its bucket's chain. */
    method Unchain(victim: CacheEntry, ghost q: nat)
      requires BucketsOk(chains) && ChainsLinked()
      requires q < |chains[Bucket(victim.key)]| && chains[Bucket(victim.key)][q] == victim
      modifies hashTable, this`chains, entries`hashNext
      ensures BucketsOk(chains) && ChainsLinked()
      ensures chains == old(chains)[Bucket(victim.key) := Removed(old(chains[Bucket(victim.key)]), q)]
    {
      var b := Bucket(victim.key);
      ghost var chain := chains[b];
      assert BucketOk(chains, b);
      Apart(chain);
      var prev, cur := null, hashTable[b];
      ghost var k := 0;
      while cur != null && cur != victim
        invariant 0 <= k <= q && cur == Nth(chain, k) && prev == Nth(chain, k - 1)
        decreases q - k
      {
        assert ChainAt(chain, k);
        prev := cur;
        cur := cur.hashNext;
        k := k + 1;
      }
      assert ChainAt(chain, q);
      Unlink(b, prev, victim, q);
    }

    /** Redirects the pointer to the victim past it. */
    method Unlink(b: nat, prev: CacheEntry?, victim: CacheEntry, ghost q: nat)
      requires BucketsOk(chains) && ChainsLinked() && b < hashBuckets && q < |chains[b]| && chains[b][q] == victim
      requires prev == Nth(chains[b], q - 1)
      modifies hashTable, this`chains, entries`hashNext
      ensures BucketsOk(chains) && ChainsLinked()
      ensures chains == old(chains)[b := Removed(old(chains[b]), q)]
    {
      hide DistinctEntries;
      ghost var before, chain := chains, chains[b];
      assert BucketOk(before, b) && ChainAt(chain, q);
      Apart(chain);
      if prev == null {
        hashTable[b] := victim.hashNext;
      } else {
        prev.hashNext := victim.hashNext;
      }
      chains := chains[b := Removed(chain, q)];
      RemovedDistinct(chain, q);
      forall k | 0 <= k < |chains[b]|
        ensures ChainAt(chains[b], k)
      {
        assert old(ChainAt(chain, if k < q then k else k + 1));
      }
      forall c | 0 <= c < hashBuckets
        ensures BucketOk(chains, c) && ChainLinked(hashTable[c], chains[c])
      {
        assert BucketOk(before, c) && old(ChainLinked(hashTable[c], chains[c]));
        if c != b {
          assert forall k :: 0 <= k < |before[c]| ==> before[c][k] != prev;
          forall k | 0 <= k < |before[c]|
            ensures ChainAt(before[c], k)
          {
            assert old(ChainAt(chains[c], k));
          }
        }
      }
    }

    // ---------- Operations ----------

    /** Takes an entry out of the list and out of its chain. */
    method Remove(entry: CacheEntry, ghost p: nat)
      requires Valid() && p < |lru| && entry == lru[p]
      modifies this`lruHead, this`lruTail, this`lru, this`chains, this`size, hashTable, entries`lruPrev, entries`lruNext, entries`hashNext
      ensures Valid() && lru == Removed(old(lru), p) && Items() == old(Items())[..p] + old(Items())[p + 1..]
    {
      hide ChainsLinked, Listed, SameEntries, DistinctEntries, ItemsOf;
      DistinctList();
      ghost var before, b := chains, Bucket(entry.key);
      ghost var q := ChainIndex(entry);
      LruDetach(entry, p);
      Unchain(entry, q);
      size := size - 1;
      SameWithout(old(lru), before, p, q, b);
      ItemsRemoved(old(lru), p, old(Items()));
    }

    lemma DistinctList()
      requires Listed()
      ensures DistinctEntries(lru) && forall e :: e in lru ==> e in entries
    {
    }

    lemma ItemsRemoved(before: seq<CacheEntry>, p: nat, items: seq<Item>)
      requires p < |before| == |items| && forall i :: 0 <= i < |before| ==> items[i] == ItemOf(before[i])
      ensures ItemsOf(Removed(before, p)) == items[..p] + items[p + 1..]
    {
    }

    lemma ChainIndex(e: CacheEntry) returns (q: nat)
      requires Valid() && e in lru
      ensures q < |chains[Bucket(e.key)]| && chains[Bucket(e.key)][q] == e
    {
      var k :| 0 <= k < |lru| && lru[k] == e;
      assert InChain(chains, lru[k]);
      var i :| 0 <= i < |chains[Bucket(e.key)]| && chains[Bucket(e.key)][i] == e;
      q := i;
    }

    lemma SameWithout(lru: seq<CacheEntry>, chains: seq<seq<CacheEntry>>, p: nat, q: nat, b: nat)
      requires BucketsOk(chains) && SameEntries(lru, chains) && DistinctEntries(lru) && p < |lru| && b == Bucket(lru[p].key)
      requires q < |chains[b]| && chains[b][q] == lru[p]
      requires BucketsOk(chains[b := Removed(chains[b], q)])
      ensures SameEntries(Removed(lru, p), chains[b := Removed(chains[b], q)])
    {
      var lru', chains' := Removed(lru, p), chains[b := Removed(chains[b], q)];
      assert BucketOk(chains, b);
      forall c, k | 0 <= c < hashBuckets && 0 <= k < |chains'[c]|
        ensures InList(lru', chains'[c][k])
      {
        var k' := if c == b && k >= q then k + 1 else k;
        assert BucketOk(chains, c) && InList(lru, chains[c][k']);
        if c == b {
          InRemoved(chains[b], q, k);
        }
        StillIn(lru, p, chains'[c][k]);
      }
      forall k | 0 <= k < |lru'|
        ensures InChain(chains', lru'[k])
      {
        var k' := if k < p then k else k + 1;
        assert InChain(chains, lru[k']);
        InRemoved(lru, p, k);
        if Bucket(lru'[k].key) == b {
          StillIn(chains[b], q, lru'[k]);
        }
      }
    }

    lemma InRemoved(s: seq<CacheEntry>, p: nat, k: nat)
      requires DistinctEntries(s) && p < |s| && k < |s| - 1
      ensures Removed(s, p)[k] in s && Removed(s, p)[k] != s[p]
    {
      assert Removed(s, p)[k] == s[if k < p then k else k + 1];
    }

    lemma StillIn(s: seq<CacheEntry>, p: nat, e: CacheEntry)
      requires p < |s| && e in s && e != s[p]
      ensures e in Removed(s, p)
    {
      var i :| 0 <= i < |s| && s[i] == e;
      assert Removed(s, p)[if i < p then i else i - 1] == e;
    }

    lemma TailIsLast()
      requires Listed()
      ensures if lru == [] then lruTail == null else lruTail == lru[|lru| - 1]
    {
    }

    /** Drops the least recently used entry. */
    method EvictTail()
      requires Valid()
      modifies this`lruHead, this`lruTail, this`lru, this`chains, this`size, hashTable, entries`lruPrev, entries`lruNext, entries`hashNext
      ensures Valid() && Items() == if |old(Items())| == 0 then [] else old(Items())[..|old(Items())| - 1]
    {
      hide ListLinked, SameEntries, ChainsLinked, DistinctEntries, BucketsOk, ItemsOf;
      TailIsLast();
      if lruTail == null {
        return;
      }
      Remove(lruTail, |lru| - 1);
    }

    /** Removes a key. */
    method Invalidate(key: bytes) returns (found: bool)
      requires Valid()
      modifies this`lruHead, this`lruTail, this`lru, this`chains, this`size, hashTable, entries`lruPrev, entries`lruNext, entries`hashNext
      ensures Valid() && found == Cached(old(Items()), key) && Items() == Without(old(Items()), key)
    {
      hide Listed, SameEntries, ChainsLinked, DistinctEntries, BucketsOk, ItemsOf;
      var entry := Find(key);
      if entry == null {
        return false;
      }
      Remove(entry, Place(Items(), key));
      found := true;
    }

    /** Moves an entry of the list to its head. */
    method MoveToFront(entry: CacheEntry, ghost p: nat)
      requires Valid() && p < |lru| && entry == lru[p]
      modifies this`lruHead, this`lruTail, this`lru, entries`lruPrev, entries`lruNext
      ensures Valid() && lru == [entry] + Removed(old(lru), p)
      ensures Items() == [old(Items())[p]] + (old(Items())[..p] + old(Items())[p + 1..])
    {
      hide ChainsLinked, Listed, BucketsOk, ItemsOf, DistinctEntries, SameEntries;
      DistinctList();
      OthersDiffer(lru, p);
      LruDetach(entry, p);
      LruAttachHead(entry);
      SameMembers(old(lru), lru, p);
      SameReordered(old(lru), lru);
      ItemsRemoved(old(lru), p, old(Items()));
      ItemsCons(entry, Removed(old(lru), p));
    }

    lemma OthersDiffer(s: seq<CacheEntry>, p: nat)
      requires DistinctEntries(s) && p < |s|
      ensures forall k :: 0 <= k < |Removed(s, p)| ==> Removed(s, p)[k].key != s[p].key
    {
    }

    lemma SameReordered(before: seq<CacheEntry>, after: seq<CacheEntry>)
      requires BucketsOk(chains) && SameEntries(before, chains) && forall e :: e in after <==> e in before
      ensures SameEntries(after, chains)
    {
      forall k | 0 <= k < |after|
        ensures InChain(chains, after[k])
      {
        assert after[k] in before;
        var i :| 0 <= i < |before| && before[i] == after[k];
        assert InChain(chains, before[i]);
      }
      forall b, k | 0 <= b < hashBuckets && 0 <= k < |chains[b]|
        ensures InList(after, chains[b][k])
      {
        assert InList(before, chains[b][k]);
      }
    }

    lemma SameMembers(before: seq<CacheEntry>, after: seq<CacheEntry>, p: nat)
      requires p < |before| && after == [before[p]] + Removed(before, p)
      ensures forall e :: e in after <==> e in before
    {
      assert before == before[..p] + [before[p]] + before[p + 1..];
    }

    lemma ItemsCons(e: CacheEntry, s: seq<CacheEntry>)
      ensures ItemsOf([e] + s) == [ItemOf(e)] + ItemsOf(s)
    {
    }

    /** Looks a key up; a hit makes it the most recent. */
    method Get(key: bytes) returns (r: Option<bytes>)
      requires Valid()
      modifies this`lruHead, this`lruTail, this`lru, entries`lruPrev, entries`lruNext
      ensures Valid() && r == DataOf(old(Items()), key) && Items() == Recency.Get(old(Items()), key)
    {
      hide Listed, SameEntries, ChainsLinked, DistinctEntries, BucketsOk, ItemsOf;
      var entry := Find(key);
      if entry == null {
        return None;
      }
      MoveToFront(entry, Place(Items(), key));
      r := Some(entry.data);
    }

    /** Puts a block in the cache, evicting the least recently used one when a new key finds it full. */
    method Put(key: bytes, data: bytes) returns (ok: bool)
      requires Valid()
      modifies this, hashTable, entries
      ensures Valid() && fresh(entries - old(entries)) && ok == (|key| <= 256)
      ensures Items() == if ok then Recency.Put(old(Items()), capacity, key, data) else old(Items())
    {
      hide Listed, SameEntries, ChainsLinked, DistinctEntries, BucketsOk, ItemsOf;
      if |key| > CACHE_MAX_KEY_SIZE {
        return false;
      }
      ok := true;
      var existing := Find(key);
      if existing != null {
        ghost var p := Place(Items(), key);
        SetData(existing, data, p);
        MoveToFront(existing, p);
        return;
      }
      ghost var before := Items();
      assert |before| == size && before[..size] == before;
      while size >= capacity
        invariant Valid() && fresh(entries - old(entries)) && size <= |before| && Items() == before[..size]
        invariant size >= if |before| < capacity then |before| else capacity - 1
        decreases size
      {
        EvictTail();
      }
      NotInPrefix(before, size, key);
      AddEntry(key, data);
    }

    lemma NotInPrefix(s: seq<Item>, n: nat, key: bytes)
      requires n <= |s| && !Cached(s, key)
      ensures !Cached(s[..n], key)
    {
      assert forall j :: 0 <= j < n ==> s[..n][j].key == s[j].key;
    }

    /** Replaces an entry's block. */
    method SetData(entry: CacheEntry, data: bytes, ghost p: nat)
      requires Valid() && p < |lru| && entry == lru[p]
      modifies entry`data
      ensures Valid() && Items() == old(Items())[p := Item(entry.key, data)]
    {
      hide ListLinked, ChainsLinked, BucketsOk, SameEntries;
      Apart(lru);
      entry.data := data;
    }

    /** Creates an entry, puts it first in its bucket's chain and first in the list. */
    method AddEntry(key: bytes, data: bytes)
      requires Valid() && size < capacity && !Cached(Items(), key)
      modifies this, hashTable, entries
      ensures Valid() && fresh(entries - old(entries)) && Items() == [Item(key, data)] + old(Items())
    {
      hide ChainsLinked, Listed, ItemsOf, DistinctEntries, SameEntries, BucketsOk;
      NewKey(key);
      var entry := NewEntry(key, data);
      LinkEntry(entry);
      ItemsCons(entry, old(lru));
    }

    /** Puts a new entry first in its bucket's chain and first in the list. */
    method LinkEntry(entry: CacheEntry)
      requires Listed() && BucketsOk(chains) && SameEntries(lru, chains) && ChainsLinked() && entry in entries
      requires forall k :: 0 <= k < |lru| ==> lru[k].key != entry.key
      requires forall b :: 0 <= b < hashBuckets ==> forall e :: e in chains[b] ==> e.key != entry.key
      modifies this`lruHead, this`lruTail, this`lru, this`chains, this`size, hashTable, entries`lruPrev, entries`lruNext, entries`hashNext
      ensures Listed() && BucketsOk(chains) && SameEntries(lru, chains) && ChainsLinked()
      ensures lru == [entry] + old(lru) && size == old(size) + 1
    {
      hide ChainsLinked, Listed, DistinctEntries, SameEntries, BucketsOk;
      Enchain(entry);
      LruAttachHead(entry);
      size := size + 1;
      SameWith(old(lru), old(chains), entry);
    }

    method NewEntry(key: bytes, data: bytes) returns (entry: CacheEntry)
      requires Listed() && ChainsLinked()
      modifies this`entries
      ensures fresh(entry) && entry.key == key && entry.data == data && entries == old(entries) + {entry}
      ensures Listed() && ChainsLinked()
    {
      entry := new CacheEntry(key, data);
      entries := entries + {entry};
    }

    lemma NewKey(key: bytes)
      requires Valid() && !Cached(Items(), key)
      ensures forall k :: 0 <= k < |lru| ==> lru[k].key != key
      ensures forall b :: 0 <= b < hashBuckets ==> forall e :: e in chains[b] ==> e.key != key
    {
      assert forall k :: 0 <= k < |lru| ==> Items()[k].key == lru[k].key;
      forall b, i | 0 <= b < hashBuckets && 0 <= i < |chains[b]|
        ensures chains[b][i].key != key
      {
        assert InList(lru, chains[b][i]);
      }
    }

    lemma SameWith(lru: seq<CacheEntry>, chains: seq<seq<CacheEntry>>, e: CacheEntry)
      requires BucketsOk(chains) && SameEntries(lru, chains)
      requires BucketsOk(chains[Bucket(e.key) := [e] + chains[Bucket(e.key)]])
      ensures SameEntries([e] + lru, chains[Bucket(e.key) := [e] + chains[Bucket(e.key)]])
    {
      var lru', chains' := [e] + lru, chains[Bucket(e.key) := [e] + chains[Bucket(e.key)]];
      forall b, k | 0 <= b < hashBuckets && 0 <= k < |chains'[b]|
        ensures InList(lru', chains'[b][k])
      {
        if b != Bucket(e.key) {
          assert InList(lru, chains[b][k]);
        } else if k > 0 {
          assert InList(lru, chains[b][k - 1]);
        }
      }
      forall k | 0 <= k < |lru'|
        ensures InChain(chains', lru'[k])
      {
        if k > 0 {
          assert InChain(chains, lru[k - 1]);
        }
      }
    }

    /** Puts an entry first in its bucket's chain. */
    method Enchain(entry: CacheEntry)
      requires BucketsOk(chains) && ChainsLinked() && entry in entries
      requires forall b :: 0 <= b < hashBuckets ==> forall e :: e in chains[b] ==> e.key != entry.key
      modifies entry`hashNext, this`chains, hashTable
      ensures BucketsOk(chains) && ChainsLinked()
      ensures chains == old(chains)[Bucket(entry.key) := [entry] + old(chains[Bucket(entry.key)])]
    {
      var b := Bucket(entry.key);
      ghost var before := chains;
      entry.hashNext := hashTable[b];
      hashTable[b] := entry;
      chains := chains[b := [entry] + chains[b]];
      forall c | 0 <= c < hashBuckets
        ensures BucketOk(chains, c) && ChainLinked(hashTable[c], chains[c])
      {
        assert BucketOk(before, c) && old(ChainLinked(hashTable[c], chains[c]));
        forall k | 0 <= k < |chains[c]|
          ensures ChainAt(chains[c], k)
        {
          if c != b {
            assert old(ChainAt(chains[c], k));
          } else if k > 0 {
            assert old(ChainAt(chains[c], k - 1));
          }
        }
      }
    }
  }
}
