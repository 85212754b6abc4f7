/** Range scan over one table, with the decoder state that persists between calls. */
module RangeQuery {
  import opened Bytes
  import opened BlockFormat
  import opened SSTable

  const RANGE_MAX_KEY_LEN := 256
  const RANGE_MAX_VALUE_LEN := 1024
  const SCRATCH_LEN := 256
  const NO_OFFSET := 0xFFFF_FFFF

  datatype KeyRange = KeyRange(startKey: bytes, startInclusive: bool, endKey: bytes, endInclusive: bool)

  predicate BelowStart(r: KeyRange, key: bytes) {
    var c := KeyCompare(key, r.startKey);
    if r.startInclusive then c < 0 else c <= 0
  }

  predicate AboveEnd(r: KeyRange, key: bytes) {
    var c := KeyCompare(key, r.endKey);
    if r.endInclusive then c > 0 else c >= 0
  }

  predicate KeyInRange(key: bytes, r: KeyRange) {
    !BelowStart(r, key) && !AboveEnd(r, key)
  }

  /** The entries in range, in order. */
  function Matching(es: seq<Entry>, r: KeyRange): seq<Entry> {
    if es == [] then []
    else Matching(es[..|es| - 1], r) + if KeyInRange(es[|es| - 1].key, r) then [es[|es| - 1]] else []
  }

  /** A key is in range if it is above the start key, or equal to an inclusive one, and below the end key, or equal to an
      inclusive one. */
  lemma InRangeExactly(key: bytes, r: KeyRange)
    ensures KeyInRange(key, r) <==>
            && (Less(r.startKey, key) || (r.startInclusive && key == r.startKey))
            && (Less(key, r.endKey) || (r.endInclusive && key == r.endKey))
  {
    KeyCompareIsOrder(key, r.startKey);
    KeyCompareIsOrder(key, r.endKey);
  }

  /** The matches are the entries in range, each once and in order. */
  lemma {:induction false} MatchingExactly(es: seq<Entry>, r: KeyRange)
    requires Ascending(es)
    ensures Ascending(Matching(es, r))
    ensures forall e :: e in Matching(es, r) <==>
                          && e in es
                          && (Less(r.startKey, e.key) || (r.startInclusive && e.key == r.startKey))
                          && (Less(e.key, r.endKey) || (r.endInclusive && e.key == r.endKey))
  {
    if es != [] {
      var init, last := es[..|es| - 1], es[|es| - 1];
      MatchingExactly(init, r);
      InRangeExactly(last.key, r);
      forall i | 0 <= i < |Matching(init, r)|
        ensures Less(Matching(init, r)[i].key, last.key)
      {
        assert Matching(init, r)[i] in init;
      }
    }
  }

  /** In key order the range's bounds are crossed once each. */
  lemma BoundsMonotone(r: KeyRange, a: bytes, b: bytes)
    requires Less(a, b)
    ensures BelowStart(r, b) ==> BelowStart(r, a)
    ensures AboveEnd(r, a) ==> AboveEnd(r, b)
  {
    KeyCompareIsOrder(a, r.startKey);
    KeyCompareIsOrder(b, r.startKey);
    KeyCompareIsOrder(a, r.endKey);
    KeyCompareIsOrder(b, r.endKey);
    if Less(b, r.startKey) {
      LessTrans(a, b, r.startKey);
    }
    if Less(r.endKey, a) {
      LessTrans(r.endKey, a, b);
    }
  }

  /** A stretch without matches can be skipped. */
  lemma {:induction false} SkipStretch(es: seq<Entry>, r: KeyRange, a: nat, b: nat)
    requires a <= b <= |es| && forall i :: a <= i < b ==> !KeyInRange(es[i].key, r)
    ensures Matching(es[..b], r) == Matching(es[..a], r)
  {
    if a < b {
      SkipStretch(es, r, a, b - 1);
      assert es[..b][..b - 1] == es[..b - 1];
    }
  }

  lemma TakeNext(es: seq<Entry>, r: KeyRange, i: nat)
    requires i < |es|
    ensures Matching(es[..i + 1], r) == Matching(es[..i], r) + if KeyInRange(es[i].key, r) then [es[i]] else []
  {
    assert es[..i + 1][..i] == es[..i];
  }

  lemma {:induction false} MatchingPrefix(es: seq<Entry>, r: KeyRange, i: nat)
    requires i <= |es|
    ensures Matching(es[..i], r) <= Matching(es, r)
  {
    if i < |es| {
      var init := es[..|es| - 1];
      MatchingPrefix(init, r, i);
      assert init[..i] == es[..i];
    } else {
      assert es[..i] == es;
    }
  }

  // ---------- The decoder ----------

  datatype Decoded = Exhausted | Overrun | Decoded(key: bytes, value: bytes, next: nat)

  class Decoder {
    var prevKey: bytes
    var prevExpectedOffset: nat

    constructor ()
      ensures Valid()
    {
      prevKey := seq(RANGE_MAX_KEY_LEN, _ => 0);
      prevExpectedOffset := NO_OFFSET;
    }

    predicate Valid()
      reads this
    {
      |prevKey| == RANGE_MAX_KEY_LEN
    }

    /** The decoder can go on at entry `i`: it is a restart point, or the decoder has just read entry `i - 1`. */
    ghost predicate Ready(es: seq<Entry>, i: nat)
      requires AllWithin(es) && i <= |es|
      reads this
    {
      Valid() && (i % RESTART_INTERVAL != 0 ==>
                    prevExpectedOffset == Offset(es, i) && prevKey[..|es[i - 1].key|] == es[i - 1].key)
    }

    /** A restart point can be decoded whatever was read before. */
    lemma ReadyAtRestart(es: seq<Entry>, r: nat)
      requires AllWithin(es) && r * RESTART_INTERVAL <= |es| && Valid()
      ensures Ready(es, r * RESTART_INTERVAL)
    {
    }

    /** A decoder that has just read entry `i` can go on behind it. */
    lemma ReadyBehind(es: seq<Entry>, i: nat)
      requires AllWithin(es) && i < |es| && Valid()
      requires prevExpectedOffset == Offset(es, i + 1) && prevKey[..|es[i].key|] == es[i].key
      ensures Ready(es, i + 1)
    {
    }

    /** What a ready decoder remembers serves for entry `i`. */
    lemma RememberedKey(es: seq<Entry>, i: nat)
      requires AllWithin(es) && i <= |es| && Ready(es, i)
      ensures Valid()
      ensures i % RESTART_INTERVAL != 0 ==>
                && prevExpectedOffset == Offset(es, i)
                && |prevKey| >= |es[i - 1].key| && prevKey[..|es[i - 1].key|] == es[i - 1].key
    {
      if i > 0 {
        LimitOf(es, i - 1);
      }
    }

    /** Decodes one entry at a byte offset into a value buffer of the given size. */
    method DecodeKv(db: DataBlock, offset: nat, valueCapacity: nat, ghost es: seq<Entry>, ghost i: nat) returns (r: Decoded)
      requires IsBlockOf(db, es) && i <= |es| && offset == Offset(es, i) && Ready(es, i)
      modifies this
      ensures Valid()
      ensures i == |es| ==> r == Exhausted
      ensures i < |es| && |es[i].value| > valueCapacity ==> r == Overrun
      ensures i < |es| && |es[i].value| <= valueCapacity ==>
                r == Decoded(es[i].key, es[i].value, Offset(es, i + 1)) && Ready(es, i + 1)
    {
      hide IsBlockOf, Get32At, BlockData, AllWithin, Offset, Decodes, Ready;
      BlockShape(db, es);
      RememberedKey(es, i);
      if offset >= |db.data| {
        OffsetInside(es, i);
        return Exhausted;
      }
      BeforeEnd(es, i, |es|);
      if offset != prevExpectedOffset {
        prevKey := seq(RANGE_MAX_KEY_LEN, _ => 0);
      }
      LimitOf(es, i);
      DecodeStep(es, i, prevKey);
      DecodedFields(db.data, offset, prevKey, es[i], Offset(es, i + 1), i % RESTART_INTERVAL == 0);
      var shared, nonshared, vlen := Get32At(db.data, offset), Get32At(db.data, offset + 4), Get32At(db.data, offset + 8);
      var pos := offset + 12;
      if pos + nonshared + vlen > |db.data| {
        return Exhausted;
      }
      var keyOut := if shared == 0 then db.data[pos..pos + nonshared] else prevKey[..shared] + db.data[pos..pos + nonshared];
      assert keyOut == es[i].key;
      pos := pos + nonshared;
      var taken := if vlen <= RANGE_MAX_VALUE_LEN then vlen else RANGE_MAX_VALUE_LEN;
      if taken > valueCapacity {
        return Overrun;
      }
      var valueOut := db.data[pos..pos + taken];
      pos := pos + taken;
      Remember(keyOut, pos);
      ReadyBehind(es, i);
      r := Decoded(keyOut, valueOut, pos);
    }

    /** Keeps the key and the position for the next call. */
    method Remember(key: bytes, pos: nat)
      requires Valid() && |key| <= RANGE_MAX_KEY_LEN
      modifies this
      ensures Valid() && prevKey[..|key|] == key && prevExpectedOffset == pos
    {
      prevKey := key + prevKey[|key|..];
      prevExpectedOffset := pos;
    }
  }

  lemma OffsetInside(es: seq<Entry>, i: nat)
    requires AllWithin(es) && i <= |es| && Offset(es, i) >= Offset(es, |es|)
    ensures i == |es|
  {
    AtEnd(es, i, |es|);
  }

  // ---------- Finding where to start ----------

  /** The first block whose last key is not below the start key, or -1. */
  method FindStartBlock(t: Table, r: KeyRange, ghost es: seq<Entry>, ghost starts: seq<nat>) returns (b: int)
    requires Ascending(es) && Partition(t, es, starts) && starts[|t.blocks|] == |es|
    ensures -1 <= b < |t.blocks|
    ensures forall i :: 0 <= i < |es| && (b >= 0 ==> i < starts[b]) ==> Less(es[i].key, r.startKey)
    ensures b >= 0 ==> !Less(t.lastKeys[b], r.startKey)
  {
    hide HoldsBlock, Ascending;
    var lo, hi := 0, |t.lastKeys|;
    if |t.lastKeys| == 0 {
      return -1;
    }
    while lo < hi
      invariant 0 <= lo <= hi <= |t.lastKeys|
      invariant starts[lo] <= |es| && forall i :: 0 <= i < starts[lo] ==> Less(es[i].key, r.startKey)
      invariant hi < |t.lastKeys| ==> !Less(t.lastKeys[hi], r.startKey)
    {
      var mid := lo + (hi - lo) / 2;
      LastKeyOf(t, es, starts, mid);
      KeyCompareIsOrder(r.startKey, t.lastKeys[mid]);
      if KeyCompare(r.startKey, t.lastKeys[mid]) > 0 {
        AllBelow(es, starts[mid + 1] - 1, r.startKey);
        lo := mid + 1;
      } else {
        hi := mid;
      }
    }
    if lo >= |t.lastKeys| {
      return -1;
    }
    b := lo;
  }

  lemma AllBelow(es: seq<Entry>, p: nat, bound: bytes)
    requires Ascending(es) && p < |es| && Less(es[p].key, bound)
    ensures forall i :: 0 <= i <= p ==> Less(es[i].key, bound)
  {
    forall i | 0 <= i < p
      ensures Less(es[i].key, bound)
    {
      LessTrans(es[i].key, es[p].key, bound);
    }
  }

  /** Restart point `r` of a block holds a value too long for the scratch buffer. */
  predicate LongRestart(es: seq<Entry>, r: nat) {
    r * RESTART_INTERVAL < |es| && |es[r * RESTART_INTERVAL].value| > SCRATCH_LEN
  }

  ghost predicate HasLongRestart(es: seq<Entry>) {
    exists r: nat :: LongRestart(es, r)
  }

  /** A long restart point that holds exactly the start key. */
  ghost predicate LongAtStart(es: seq<Entry>, range: KeyRange) {
    exists r: nat :: LongRestart(es, r) && es[r * RESTART_INTERVAL].key == range.startKey
  }

  /** The restart point to scan from: the last one below the start key, or the first. */
  method FindRestart(db: DataBlock, range: KeyRange, dec: Decoder, ghost es: seq<Entry>) returns (rStart: nat, overrun: bool)
    requires IsBlockOf(db, es) && Ascending(es) && |db.restartOffsets| > 0 && dec.Valid()
    modifies dec
    ensures dec.Valid() && rStart < |db.restartOffsets| && rStart * RESTART_INTERVAL < |es|
    ensures overrun ==> HasLongRestart(es)
    ensures LongAtStart(es, range) ==> overrun
    ensures !overrun ==> forall i :: 0 <= i < rStart * RESTART_INTERVAL ==> Less(es[i].key, range.startKey)
  {
    hide IsBlockOf, AllWithin, Offset, Ascending, Decoder.Ready;
    BlockShape(db, es);
    rStart, overrun := 0, false;
    var lo, hi := 0, |db.restartOffsets|;
    ghost var long := -1;
    if LongAtStart(es, range) {
      ghost var r: nat :| LongRestart(es, r) && es[r * RESTART_INTERVAL].key == range.startKey;
      long := r;
    }
    while lo < hi
      invariant 0 <= lo <= hi <= |db.restartOffsets| && dec.Valid()
      invariant lo > 0 ==> forall i :: 0 <= i <= (lo - 1) * RESTART_INTERVAL ==> Less(es[i].key, range.startKey)
      invariant long >= 0 ==> lo <= long < hi
    {
      var mid := lo + (hi - lo) / 2;
      dec.ReadyAtRestart(es, mid);
      var d := dec.DecodeKv(db, db.restartOffsets[mid], SCRATCH_LEN, es, mid * RESTART_INTERVAL);
      if d == Overrun {
        assert LongRestart(es, mid);
        return 0, true;
      }
      if d == Exhausted {
        lo := mid + 1;
        continue;
      }
      KeyCompareIsOrder(range.startKey, d.key);
      LongSide(es, mid, long, range.startKey);
      if KeyCompare(range.startKey, d.key) > 0 {
        AllBelow(es, mid * RESTART_INTERVAL, range.startKey);
        lo := mid + 1;
      } else {
        hi := mid;
      }
    }
    rStart := if lo > 0 then lo - 1 else 0;
  }

  /** The long restart point lies on the side of the probe that the comparison says. */
  lemma LongSide(es: seq<Entry>, mid: nat, long: int, key: bytes)
    requires Ascending(es) && mid * RESTART_INTERVAL < |es|
    requires long >= 0 ==> LongRestart(es, long) && es[long * RESTART_INTERVAL].key == key && long != mid
    ensures long >= 0 ==> (Less(es[mid * RESTART_INTERVAL].key, key) <==> mid < long)
  {
    if long >= 0 {
      var a, b := mid * RESTART_INTERVAL, long * RESTART_INTERVAL;
      if mid < long {
        assert Less(es[a].key, es[b].key);
      } else {
        assert Less(es[b].key, es[a].key);
        KeyCompareIsOrder(es[a].key, es[b].key);
      }
    }
  }

  // ---------- The scan ----------

  /** The results are the first `max` matches among the first `n` entries. */
  predicate FirstMatches(results: seq<Entry>, es: seq<Entry>, n: nat, r: KeyRange, max: nat)
    requires n <= |es|
  {
    results <= Matching(es[..n], r) && |results| <= max && (|results| < max ==> results == Matching(es[..n], r))
  }

  lemma FirstMatchesLater(results: seq<Entry>, es: seq<Entry>, n: nat, m: nat, r: KeyRange, max: nat)
    requires n <= m <= |es| && FirstMatches(results, es, n, r, max)
    requires |results| == max || forall i :: n <= i < m ==> !KeyInRange(es[i].key, r)
    ensures FirstMatches(results, es, m, r, max)
  {
    if |results| < max {
      SkipStretch(es, r, n, m);
    } else {
      assert es[..m][..n] == es[..n];
      MatchingPrefix(es[..m], r, n);
    }
  }

  lemma BelowStartStretch(es: seq<Entry>, r: KeyRange, a: nat, b: nat)
    requires a <= b <= |es| && forall i :: a <= i < b ==> Less(es[i].key, r.startKey)
    ensures forall i :: a <= i < b ==> !KeyInRange(es[i].key, r)
  {
    forall i | a <= i < b
      ensures !KeyInRange(es[i].key, r)
    {
      KeyCompareIsOrder(es[i].key, r.startKey);
    }
  }

  lemma AboveEndStretch(es: seq<Entry>, r: KeyRange, a: nat)
    requires Ascending(es) && a < |es| && AboveEnd(r, es[a].key)
    ensures forall i :: a <= i < |es| ==> !KeyInRange(es[i].key, r)
  {
    forall i | a <= i < |es|
      ensures !KeyInRange(es[i].key, r)
    {
      if a < i {
        BoundsMonotone(r, es[a].key, es[i].key);
      }
    }
  }

  /** Scans one block from its starting restart point; `stop` tells that the block begins beyond the range. */
  method ScanBlock(db: DataBlock, r: KeyRange, max: nat, dec: Decoder, results0: seq<Entry>,
                   ghost es: seq<Entry>, ghost a: nat, ghost b: nat)
    returns (results: seq<Entry>, overrun: bool, stop: bool)
    requires a < b <= |es| && IsBlockOf(db, es[a..b]) && Ascending(es) && Ascending(es[a..b]) && dec.Valid()
    requires FirstMatches(results0, es, a, r, max) && |results0| < max
    modifies dec
    ensures dec.Valid()
    ensures overrun ==> HasLongRestart(es[a..b])
    ensures LongAtStart(es[a..b], r) && !AboveEnd(r, r.startKey) ==> overrun
    ensures !overrun && !stop ==> FirstMatches(results, es, b, r, max)
    ensures !overrun && stop ==> FirstMatches(results, es, |es|, r, max)
  {
    hide IsBlockOf, AllWithin, Offset, Ascending, FirstMatches, LongAtStart, KeyInRange;
    ghost var part := es[a..b];
    results, overrun, stop := results0, false, false;
    BlockShape(db, part);
    RestartsNeeded(part, |db.restartOffsets|);
    var first := dec.DecodeKv(db, db.restartOffsets[0], SCRATCH_LEN, part, 0);
    if first == Overrun {
      assert LongRestart(part, 0);
      overrun := true;
      return;
    }
    if first == Exhausted {
      return;
    }
    var cmpEnd := KeyCompare(r.endKey, first.key);
    EndTest(r, first.key);
    if (!r.endInclusive && cmpEnd <= 0) || (r.endInclusive && cmpEnd < 0) {
      AboveEndStretch(es, r, a);
      NotAtStart(part, r);
      FirstMatchesLater(results, es, a, |es|, r, max);
      stop := true;
      return;
    }
    var rStart;
    rStart, overrun := FindRestart(db, r, dec, part);
    if overrun {
      return;
    }
    results := ScanEntries(db, r, max, dec, rStart, results, es, a, b);
  }

  lemma RestartsNeeded(es: seq<Entry>, n: nat)
    requires es != [] && n == RestartCount(|es|)
    ensures n > 0
  {
  }

  lemma EndTest(r: KeyRange, key: bytes)
    ensures AboveEnd(r, key) <==> (!r.endInclusive && KeyCompare(r.endKey, key) <= 0) || (r.endInclusive && KeyCompare(r.endKey, key) < 0)
  {
    KeyCompareIsOrder(r.endKey, key);
    KeyCompareIsOrder(key, r.endKey);
  }

  /** If the block begins beyond the range, so would a restart point at the start key. */
  lemma NotAtStart(es: seq<Entry>, r: KeyRange)
    requires Ascending(es) && es != [] && AboveEnd(r, es[0].key)
    ensures LongAtStart(es, r) ==> AboveEnd(r, r.startKey)
  {
    if LongAtStart(es, r) {
      var k: nat :| LongRestart(es, k) && es[k * RESTART_INTERVAL].key == r.startKey;
      if k > 0 {
        BoundsMonotone(r, es[0].key, es[k * RESTART_INTERVAL].key);
      }
    }
  }

  /** One turn of the scan: decodes entry `i` and keeps it if it is in range; `last` tells that the range has ended. */
  method ScanEntry(db: DataBlock, r: KeyRange, max: nat, dec: Decoder, pos: nat, results0: seq<Entry>,
                   ghost es: seq<Entry>, ghost a: nat, ghost b: nat, ghost i: nat)
    returns (results: seq<Entry>, next: nat, last: bool)
    requires a + i < b <= |es| && IsBlockOf(db, es[a..b]) && AllWithin(es[a..b]) && Ascending(es)
    requires pos == Offset(es[a..b], i) && dec.Ready(es[a..b], i)
    requires FirstMatches(results0, es, a + i, r, max) && |results0| < max
    modifies dec
    ensures dec.Valid() && (last ==> FirstMatches(results, es, b, r, max))
    ensures !last ==> FirstMatches(results, es, a + i + 1, r, max) && next == Offset(es[a..b], i + 1) && dec.Ready(es[a..b], i + 1)
  {
    hide IsBlockOf, AllWithin, Offset, Ascending, FirstMatches, KeyInRange;
    ghost var part := es[a..b];
    LimitOf(part, i);
    results, last := results0, false;
    var d := dec.DecodeKv(db, pos, RANGE_MAX_VALUE_LEN, part, i);
    assert d == Decoded(es[a + i].key, es[a + i].value, Offset(part, i + 1));
    next := d.next;
    if AboveEnd(r, d.key) {
      AboveEndStretch(es, r, a + i);
      FirstMatchesLater(results, es, a + i, b, r, max);
      last := true;
      return;
    }
    MatchStep(results, es, a + i, r, max);
    if !BelowStart(r, d.key) {
      results := results + [Entry(d.key, d.value)];
    }
  }

  /** Decodes from the restart point on, keeping the entries in range, until the range ends. */
  method ScanEntries(db: DataBlock, r: KeyRange, max: nat, dec: Decoder, rStart: nat, results0: seq<Entry>,
                     ghost es: seq<Entry>, ghost a: nat, ghost b: nat) returns (results: seq<Entry>)
    requires a < b <= |es| && IsBlockOf(db, es[a..b]) && Ascending(es) && dec.Valid()
    requires rStart < |db.restartOffsets| && rStart * RESTART_INTERVAL < b - a
    requires forall i :: 0 <= i < rStart * RESTART_INTERVAL ==> Less(es[a..b][i].key, r.startKey)
    requires FirstMatches(results0, es, a, r, max) && |results0| < max
    modifies dec
    ensures dec.Valid() && FirstMatches(results, es, b, r, max)
  {
    hide IsBlockOf, AllWithin, Offset, Ascending, FirstMatches, KeyInRange, Decoder.Ready;
    ghost var part := es[a..b];
    results := results0;
    BlockShape(db, part);
    ghost var i := rStart * RESTART_INTERVAL;
    SkipTo(es, r, a, b, i, results, max);
    dec.ReadyAtRestart(part, rStart);
    var pos := db.restartOffsets[rStart];
    while pos < |db.data| && |results| < max
      invariant i <= |part| && pos == Offset(part, i) && dec.Valid() && dec.Ready(part, i)
      invariant FirstMatches(results, es, a + i, r, max)
      decreases |part| - i
    {
      BeforeEnd(part, i, |part|);
      var last;
      results, pos, last := ScanEntry(db, r, max, dec, pos, results, es, a, b, i);
      if last {
        return;
      }
      i := i + 1;
    }
    if |results| < max {
      OffsetInside(part, i);
    }
    BlockScanned(results, es, a + i, b, r, max);
  }

  lemma BlockScanned(results: seq<Entry>, es: seq<Entry>, n: nat, b: nat, r: KeyRange, max: nat)
    requires n <= b <= |es| && FirstMatches(results, es, n, r, max) && (n == b || |results| >= max)
    ensures FirstMatches(results, es, b, r, max)
  {
    FirstMatchesLater(results, es, n, b, r, max);
  }

  /** Entries below the start key may be skipped. */
  lemma SkipTo(es: seq<Entry>, r: KeyRange, a: nat, b: nat, i: nat, results: seq<Entry>, max: nat)
    requires a + i <= b <= |es| && forall j :: 0 <= j < i ==> Less(es[a..b][j].key, r.startKey)
    requires FirstMatches(results, es, a, r, max)
    ensures FirstMatches(results, es, a + i, r, max)
  {
    hide FirstMatches, KeyInRange;
    assert forall j :: a <= j < a + i ==> es[j] == es[a..b][j - a];
    BelowStartStretch(es, r, a, a + i);
    FirstMatchesLater(results, es, a, a + i, r, max);
  }

  lemma LengthAtMost(results: seq<Entry>, es: seq<Entry>, n: nat, r: KeyRange, max: nat)
    requires n <= |es| && FirstMatches(results, es, n, r, max)
    ensures |results| <= max
  {
  }

  lemma MatchStep(results: seq<Entry>, es: seq<Entry>, n: nat, r: KeyRange, max: nat)
    requires n < |es| && FirstMatches(results, es, n, r, max) && |results| < max && !AboveEnd(r, es[n].key)
    ensures FirstMatches(if BelowStart(r, es[n].key) then results else results + [es[n]], es, n + 1, r, max)
  {
    TakeNext(es, r, n);
  }

  datatype ScanStatus = Invalid | ScratchOverrun | Done

  /** The scan returns exactly the first `maxResults` entries in range, in order, unless a restart point it
      decodes holds a value longer than its scratch buffer. */
  method SstableRangeScan(t: Table, r: KeyRange, maxResults: nat, dec: Decoder, ghost es: seq<Entry>, ghost starts: seq<nat>)
    returns (status: ScanStatus, results: seq<Entry>)
    requires Ascending(es) && Partition(t, es, starts) && starts[|t.blocks|] == |es| && dec.Valid()
    modifies dec
    ensures dec.Valid() && (status == Invalid <==> maxResults == 0)
    ensures status == Done ==> FirstMatches(results, es, |es|, r, maxResults)
    ensures status == Done ==> results == if |Matching(es, r)| <= maxResults then Matching(es, r) else Matching(es, r)[..maxResults]
    ensures status == ScratchOverrun ==> exists b :: 0 <= b < |t.blocks| && BlockHasLong(es, starts, b)
    ensures status == Done && !AboveEnd(r, r.startKey) ==>
              forall b :: 0 <= b < |t.blocks| ==> !BlockLongAtStart(es, starts, b, r)
  {
    hide HoldsBlock, Ascending, FirstMatches, AboveEnd, BelowStart, LongAtStart;
    results := [];
    if maxResults == 0 {
      return Invalid, [];
    }
    NoMatchYet(es, r, maxResults);
    var startBlk := FindStartBlock(t, r, es, starts);
    StartBlockFacts(t, es, starts, r, startBlk);
    if startBlk < 0 {
      BelowStartStretch(es, r, 0, |es|);
      FirstMatchesLater([], es, 0, |es|, r, maxResults);
      AllFirst([], es, r, maxResults);
      return Done, [];
    }
    BelowStartStretch(es, r, 0, starts[startBlk]);
    FirstMatchesLater([], es, 0, starts[startBlk], r, maxResults);
    var bi := startBlk;
    while bi < |t.blocks| && |results| < maxResults
      invariant startBlk <= bi <= |t.blocks| && dec.Valid() && starts[bi] <= |es|
      invariant FirstMatches(results, es, starts[bi], r, maxResults) && (bi == startBlk ==> results == [])
      invariant !AboveEnd(r, r.startKey) && bi > startBlk ==> !BlockLongAtStart(es, starts, startBlk, r)
    {
      BlockEntries(t, es, starts, bi);
      var overrun, stop;
      results, overrun, stop := ScanBlock(t.blocks[bi], r, maxResults, dec, results, es, starts[bi], starts[bi + 1]);
      if overrun {
        assert BlockHasLong(es, starts, bi);
        return ScratchOverrun, results;
      }
      if stop {
        AllFirst(results, es, r, maxResults);
        return Done, results;
      }
      bi := bi + 1;
    }
    if |results| >= maxResults {
      LengthAtMost(results, es, starts[bi], r, maxResults);
    }
    FirstMatchesLater(results, es, starts[bi], |es|, r, maxResults);
    AllFirst(results, es, r, maxResults);
    status := Done;
  }

  lemma AllFirst(results: seq<Entry>, es: seq<Entry>, r: KeyRange, max: nat)
    requires FirstMatches(results, es, |es|, r, max)
    ensures results == if |Matching(es, r)| <= max then Matching(es, r) else Matching(es, r)[..max]
  {
    assert es[..|es|] == es;
  }

  lemma NoMatchYet(es: seq<Entry>, r: KeyRange, max: nat)
    requires max > 0
    ensures FirstMatches([], es, 0, r, max)
  {
    assert es[..0] == [];
  }

  ghost predicate BlockHasLong(es: seq<Entry>, starts: seq<nat>, b: nat) {
    b + 1 < |starts| && starts[b] <= starts[b + 1] <= |es| && HasLongRestart(es[starts[b]..starts[b + 1]])
  }

  /** Block `b` has a restart point that holds exactly the start key with a value too long for the scratch buffer. */
  ghost predicate BlockLongAtStart(es: seq<Entry>, starts: seq<nat>, b: nat, r: KeyRange) {
    b + 1 < |starts| && starts[b] <= starts[b + 1] <= |es| && LongAtStart(es[starts[b]..starts[b + 1]], r)
  }

  /** Only the starting block can hold the start key. */
  lemma StartBlockFacts(t: Table, es: seq<Entry>, starts: seq<nat>, r: KeyRange, startBlk: int)
    requires Ascending(es) && Partition(t, es, starts) && starts[|t.blocks|] == |es| && -1 <= startBlk < |t.blocks|
    requires forall i :: 0 <= i < |es| && (startBlk >= 0 ==> i < starts[startBlk]) ==> Less(es[i].key, r.startKey)
    requires startBlk >= 0 ==> !Less(t.lastKeys[startBlk], r.startKey)
    ensures startBlk >= 0 ==> starts[startBlk] <= |es|
    ensures forall b :: 0 <= b < |t.blocks| && b != startBlk ==> !BlockLongAtStart(es, starts, b, r)
  {
    if startBlk >= 0 {
      LastKeyOf(t, es, starts, startBlk);
    }
    forall b | 0 <= b < |t.blocks| && b != startBlk
      ensures !BlockLongAtStart(es, starts, b, r)
    {
      OtherBlock(t, es, starts, r, startBlk, b);
    }
  }

  lemma {:induction false} StartsMonotone(t: Table, es: seq<Entry>, starts: seq<nat>, a: nat, b: nat)
    requires Partition(t, es, starts) && a <= b <= |t.blocks|
    ensures starts[a] <= starts[b] <= |es|
  {
    if a < b {
      StartsMonotone(t, es, starts, a, b - 1);
      LastKeyOf(t, es, starts, b - 1);
    } else if a < |t.blocks| {
      LastKeyOf(t, es, starts, a);
    }
  }

  lemma OtherBlock(t: Table, es: seq<Entry>, starts: seq<nat>, r: KeyRange, startBlk: int, b: nat)
    requires Ascending(es) && Partition(t, es, starts) && -1 <= startBlk < |t.blocks| && b < |t.blocks| && b != startBlk
    requires forall i :: 0 <= i < |es| && (startBlk >= 0 ==> i < starts[startBlk]) ==> Less(es[i].key, r.startKey)
    requires startBlk >= 0 ==> !Less(t.lastKeys[startBlk], r.startKey)
    ensures !BlockLongAtStart(es, starts, b, r)
  {
    hide Ascending, HoldsBlock, LongAtStart;
    LastKeyOf(t, es, starts, b);
    LessIrreflexive(r.startKey);
    if startBlk >= 0 && b > startBlk {
      LastKeyOf(t, es, starts, startBlk);
      StartsMonotone(t, es, starts, startBlk + 1, b);
      AllAbove(es, starts[startBlk + 1] - 1, r.startKey);
    } else if startBlk >= 0 {
      StartsMonotone(t, es, starts, b + 1, startBlk);
    }
    NotLongAtStart(es, starts[b], starts[b + 1], r);
  }

  lemma AllAbove(es: seq<Entry>, p: nat, bound: bytes)
    requires Ascending(es) && p < |es| && !Less(es[p].key, bound)
    ensures forall i :: p < i < |es| ==> es[i].key != bound
  {
  }

  lemma NotLongAtStart(es: seq<Entry>, a: nat, b: nat, r: KeyRange)
    requires a <= b <= |es| && forall i :: a <= i < b ==> es[i].key != r.startKey
    ensures !LongAtStart(es[a..b], r)
  {
    var part := es[a..b];
    forall k: nat | LongRestart(part, k)
      ensures part[k * RESTART_INTERVAL].key != r.startKey
    {
      assert part[k * RESTART_INTERVAL] == es[a + k * RESTART_INTERVAL];
    }
  }

  /** The restart point `k` of block `b` holds the key with a value too long for the scratch buffer. */
  ghost predicate LongRestartOf(es: seq<Entry>, starts: seq<nat>, b: nat, k: nat, key: bytes) {
    && b + 1 < |starts| && starts[b] <= starts[b + 1] <= |es|
    && LongRestart(es[starts[b]..starts[b + 1]], k) && es[starts[b]..starts[b + 1]][k * RESTART_INTERVAL].key == key
  }

  /** Every restart point with a long value is decoded by the range that holds its key alone. */
  lemma LongRestartIsReached(es: seq<Entry>, starts: seq<nat>, b: nat, k: nat, key: bytes)
    requires LongRestartOf(es, starts, b, k, key)
    ensures var r := KeyRange(key, true, key, true); !AboveEnd(r, r.startKey) && BlockLongAtStart(es, starts, b, r)
  {
    KeyCompareIsOrder(key, key);
    LessIrreflexive(key);
  }

  /** So a table is safe to scan for all ranges only if no restart point holds a longer value: from any that does, the
      scan of its key alone overruns the buffer. */
  method ScanLongRestart(t: Table, key: bytes, maxResults: nat, dec: Decoder, ghost es: seq<Entry>, ghost starts: seq<nat>,
                         ghost b: nat, ghost k: nat)
    returns (status: ScanStatus, results: seq<Entry>)
    requires Ascending(es) && Partition(t, es, starts) && starts[|t.blocks|] == |es| && dec.Valid()
    requires b < |t.blocks| && LongRestartOf(es, starts, b, k, key) && maxResults > 0
    modifies dec
    ensures dec.Valid() && status == ScratchOverrun
  {
    hide Ascending, FirstMatches, LongAtStart, HoldsBlock, LongRestartOf, AboveEnd;
    LongRestartIsReached(es, starts, b, k, key);
    status, results := SstableRangeScan(t, KeyRange(key, true, key, true), maxResults, dec, es, starts);
  }
}
