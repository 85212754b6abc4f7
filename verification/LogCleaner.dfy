/** What log compaction does to a list of records, and what it keeps. */
module LogCompaction {
  import opened Bytes
  import opened Options

  /** An empty key marks a record without a key, an empty value a tombstone. */
  datatype Record = Record(offset: nat, timestamp: int, key: bytes, value: bytes)

  /** Every record stands at the position its offset names. */
  predicate OffsetsOk(recs: seq<Record>) {
    forall g :: 0 <= g < |recs| ==> recs[g].offset == g
  }

  /** The position of the last record with the key, or -1. */
  function LastOf(recs: seq<Record>, key: bytes): (g: int)
    ensures -1 <= g < |recs| && (g >= 0 ==> recs[g].key == key)
    ensures forall h :: g < h < |recs| ==> recs[h].key != key
  {
    if recs == [] then -1
    else if recs[|recs| - 1].key == key then |recs| - 1
    else LastOf(recs[..|recs| - 1], key)
  }

  lemma LastOfUnique(recs: seq<Record>, key: bytes, g: int)
    requires -1 <= g < |recs| && (g >= 0 ==> recs[g].key == key) && forall h :: g < h < |recs| ==> recs[h].key != key
    ensures LastOf(recs, key) == g
  {
    var l := LastOf(recs, key);
  }

  /** What a reader of the log takes to be the key's value: the latest one, unless that is a tombstone. */
  function ValueOf(recs: seq<Record>, key: bytes): Option<bytes> {
    var g := LastOf(recs, key);
    if g < 0 || recs[g].value == [] then None else Some(recs[g].value)
  }

  /** The value stands in a record of the key after which the key does not come again. */
  lemma ValueExactly(recs: seq<Record>, key: bytes, v: bytes)
    ensures ValueOf(recs, key) == Some(v) <==>
            v != [] && exists g :: 0 <= g < |recs| && recs[g].key == key && recs[g].value == v &&
                                   forall h :: g < h < |recs| ==> recs[h].key != key
  {
    if g :| 0 <= g < |recs| && recs[g].key == key && recs[g].value == v && forall h :: g < h < |recs| ==> recs[h].key != key {
      LastOfUnique(recs, key, g);
    }
  }

  // ---------- One cleaning cycle ----------

  function Blank(r: Record): Record {
    r.(key := [], value := [])
  }

  /** Compaction blanks a keyed record unless it is the latest of its key in the whole log. */
  function CompactRecord(r: Record, recs: seq<Record>): Record {
    if r.key != [] && LastOf(recs, r.key) != r.offset then Blank(r) else r
  }

  /** Compaction of the first `limit` records, those before the active segment. */
  function Compacted(recs: seq<Record>, limit: nat): (after: seq<Record>)
    ensures |after| == |recs|
  {
    seq(|recs|, g requires 0 <= g < |recs| => if g < limit then CompactRecord(recs[g], recs) else recs[g])
  }

  predicate Expired(r: Record, now: int, retention: int) {
    r.value == [] && r.key != [] && now - r.timestamp > retention
  }

  function ExpireRecord(r: Record, now: int, retention: int): Record {
    if Expired(r, now, retention) then r.(key := []) else r
  }

  function WithoutExpired(recs: seq<Record>, limit: nat, now: int, retention: int): (after: seq<Record>)
    ensures |after| == |recs|
  {
    seq(|recs|, g requires 0 <= g < |recs| => if g < limit then ExpireRecord(recs[g], now, retention) else recs[g])
  }

  /** A cycle under the compaction policy. */
  function Cleaned(recs: seq<Record>, limit: nat, now: int, retention: int): (after: seq<Record>)
    ensures |after| == |recs|
  {
    WithoutExpired(Compacted(recs, limit), limit, now, retention)
  }

  /** Before the active segment each key has at most one record, and no other segment has a later one. */
  ghost predicate OnlyLatest(recs: seq<Record>, limit: nat) {
    forall g :: 0 <= g < |recs| && g < limit && recs[g].key != [] ==> LastOf(recs, recs[g].key) == g
  }

  lemma CompactedLast(recs: seq<Record>, limit: nat, key: bytes)
    requires OffsetsOk(recs) && key != []
    ensures LastOf(Compacted(recs, limit), key) == LastOf(recs, key)
    ensures LastOf(recs, key) >= 0 ==> Compacted(recs, limit)[LastOf(recs, key)] == recs[LastOf(recs, key)]
  {
    LastOfUnique(Compacted(recs, limit), key, LastOf(recs, key));
  }

  lemma CompactedOnlyLatest(recs: seq<Record>, limit: nat)
    requires OffsetsOk(recs)
    ensures OffsetsOk(Compacted(recs, limit)) && OnlyLatest(Compacted(recs, limit), limit)
  {
    var after := Compacted(recs, limit);
    forall g | 0 <= g < |after| && g < limit && after[g].key != []
      ensures LastOf(after, after[g].key) == g
    {
      CompactedLast(recs, limit, after[g].key);
    }
  }

  /** Removing an expired tombstone changes no key's value once only the latest records are left. */
  lemma ExpiryKeepsValue(recs: seq<Record>, limit: nat, now: int, retention: int, key: bytes)
    requires OnlyLatest(recs, limit) && key != []
    ensures ValueOf(WithoutExpired(recs, limit, now, retention), key) == ValueOf(recs, key)
    ensures LastOf(WithoutExpired(recs, limit, now, retention), key) ==
            if LastOf(recs, key) >= 0 && LastOf(recs, key) < limit && Expired(recs[LastOf(recs, key)], now, retention) then -1
            else LastOf(recs, key)
  {
    var after, l := WithoutExpired(recs, limit, now, retention), LastOf(recs, key);
    if l >= 0 && l < limit && Expired(recs[l], now, retention) {
      LastOfUnique(after, key, -1);
    } else {
      LastOfUnique(after, key, l);
    }
  }

  /** Some older value is bared: every later record of its key is an expired tombstone before the active segment. */
  ghost predicate Resurrects(recs: seq<Record>, limit: nat, now: int, retention: int, key: bytes) {
    exists g :: 0 <= g < LastOf(recs, key) && recs[g].key == key && recs[g].value != [] && Bared(recs, limit, now, retention, g)
  }

  predicate Bared(recs: seq<Record>, limit: nat, now: int, retention: int, g: nat)
    requires g < |recs|
  {
    forall h :: g < h < |recs| && recs[h].key == recs[g].key ==> h < limit && Expired(recs[h], now, retention)
  }

  /** On any log, removing expired tombstones keeps a key's value exactly if that bares no older one. */
  lemma ExpiryKeepsValueExactly(recs: seq<Record>, limit: nat, now: int, retention: int, key: bytes)
    requires key != []
    ensures ValueOf(WithoutExpired(recs, limit, now, retention), key) == ValueOf(recs, key) <==>
            !Resurrects(recs, limit, now, retention, key)
  {
    var after, l := WithoutExpired(recs, limit, now, retention), LastOf(recs, key);
    var a := LastOf(after, key);
    assert forall h :: 0 <= h < |recs| && recs[h].key == key ==>
        after[h].key == if h < limit && Expired(recs[h], now, retention) then [] else key;
    if 0 <= a < l && recs[a].value != [] {
      assert Bared(recs, limit, now, retention, a);
    }
    if g :| 0 <= g < l && recs[g].key == key && recs[g].value != [] && Bared(recs, limit, now, retention, g) {
      LastOfUnique(after, key, g);
    }
  }

  /** A cycle keeps the value of every key. */
  lemma CleaningKeepsValues(recs: seq<Record>, limit: nat, now: int, retention: int, key: bytes)
    requires OffsetsOk(recs) && key != []
    ensures ValueOf(Cleaned(recs, limit, now, retention), key) == ValueOf(recs, key)
  {
    CompactedOnlyLatest(recs, limit);
    CompactedLast(recs, limit, key);
    ExpiryKeepsValue(Compacted(recs, limit), limit, now, retention, key);
  }

  /** A cycle leaves at most one record of each key before the active segment, keeps offsets and the active segment. */
  lemma CleaningShape(recs: seq<Record>, limit: nat, now: int, retention: int)
    requires OffsetsOk(recs)
    ensures var after := Cleaned(recs, limit, now, retention);
            && OffsetsOk(after) && OnlyLatest(after, limit)
            && (forall g :: 0 <= g < |recs| && limit <= g ==> after[g] == recs[g])
            && (forall g :: 0 <= g < |recs| && g < limit && recs[g].key == [] ==> after[g] == recs[g])
  {
    CompactedOnlyLatest(recs, limit);
    var c, after := Compacted(recs, limit), Cleaned(recs, limit, now, retention);
    forall g | 0 <= g < |after| && g < limit && after[g].key != []
      ensures LastOf(after, after[g].key) == g
    {
      ExpiryKeepsValue(c, limit, now, retention, after[g].key);
    }
  }

  /** A keyed record stays whole exactly if it is the key's latest and no tombstone past its retention; else its key is gone. */
  lemma WhatIsKept(recs: seq<Record>, limit: nat, now: int, retention: int, g: nat)
    requires OffsetsOk(recs) && g < limit && g < |recs| && recs[g].key != []
    ensures var r, after := recs[g], Cleaned(recs, limit, now, retention)[g];
            if (forall h :: g < h < |recs| ==> recs[h].key != r.key) && !(r.value == [] && now > r.timestamp + retention)
            then after == r
            else after == r.(key := [], value := [])
  {
    if forall h :: g < h < |recs| ==> recs[h].key != recs[g].key {
      LastOfUnique(recs, recs[g].key, g);
    }
  }

  /** Cleaning again at the same time changes nothing. */
  lemma CleaningIdempotent(recs: seq<Record>, limit: nat, now: int, retention: int)
    requires OffsetsOk(recs)
    ensures var once := Cleaned(recs, limit, now, retention); Cleaned(once, limit, now, retention) == once
  {
    CleaningShape(recs, limit, now, retention);
    var once := Cleaned(recs, limit, now, retention);
    assert Compacted(once, limit) == once;
  }

  /** Without compaction before it, removing expired tombstones can bring an overwritten value back. */
  lemma ExpiryAloneResurrects()
    ensures var recs := [Record(0, 0, [1], [7]), Record(1, 0, [1], [])];
            OffsetsOk(recs) && ValueOf(recs, [1]) == None && ValueOf(WithoutExpired(recs, 2, 10, 5), [1]) == Some([7])
  {
    var recs := [Record(0, 0, [1], [7]), Record(1, 0, [1], [])];
    LastOfUnique(recs, [1], 1);
    LastOfUnique(WithoutExpired(recs, 2, 10, 5), [1], 0);
  }
}

/** The cleaner working on a partition's segments. */
module LogCleaners {
  import opened Bytes
  import opened Options
  import opened LogCompaction
  import opened TopicPartition

  const MAX_COMPACTION_MAP_SIZE := 1024

  datatype CompactionEntry = CompactionEntry(key: bytes, offset: nat, timestamp: int, isTombstone: bool)

  function EntryFor(r: Record): CompactionEntry {
    CompactionEntry(r.key, r.offset, r.timestamp, r.value == [])
  }

  predicate HasKey(es: seq<CompactionEntry>, key: bytes) {
    exists i :: 0 <= i < |es| && es[i].key == key
  }

  /** The map has one entry for each key of the records, made from the key's latest record. */
  ghost predicate MapOk(es: seq<CompactionEntry>, recs: seq<Record>) {
    && (forall i, j :: 0 <= i < j < |es| ==> es[i].key != es[j].key)
    && (forall i :: 0 <= i < |es| ==> EntryOk(es[i], recs))
    && (forall g :: 0 <= g < |recs| && recs[g].key != [] ==> HasKey(es, recs[g].key))
  }

  ghost predicate EntryOk(e: CompactionEntry, recs: seq<Record>) {
    && e.key != [] && LastOf(recs, e.key) == e.offset && e.offset < |recs| && e == EntryFor(recs[e.offset])
  }

  lemma LastOfAppend(recs: seq<Record>, r: Record, key: bytes)
    ensures LastOf(recs + [r], key) == if r.key == key then |recs| else LastOf(recs, key)
  {
    LastOfUnique(recs + [r], key, if r.key == key then |recs| else LastOf(recs, key));
  }

  lemma EntryStays(e: CompactionEntry, recs: seq<Record>, r: Record)
    requires EntryOk(e, recs) && r.key != e.key
    ensures EntryOk(e, recs + [r])
  {
    LastOfAppend(recs, r, e.key);
  }

  lemma EntryNew(recs: seq<Record>, r: Record)
    requires r.key != [] && r.offset == |recs|
    ensures EntryOk(EntryFor(r), recs + [r])
  {
    LastOfAppend(recs, r, r.key);
  }

  lemma MapSkips(es: seq<CompactionEntry>, recs: seq<Record>, r: Record)
    requires MapOk(es, recs) && r.key == []
    ensures MapOk(es, recs + [r])
  {
    forall i | 0 <= i < |es|
      ensures EntryOk(es[i], recs + [r])
    {
      EntryStays(es[i], recs, r);
    }
    forall g | 0 <= g < |recs + [r]| && (recs + [r])[g].key != []
      ensures HasKey(es, (recs + [r])[g].key)
    {
      assert g < |recs|;
    }
  }

  lemma MapUpdates(es: seq<CompactionEntry>, recs: seq<Record>, r: Record, i: nat)
    requires MapOk(es, recs) && i < |es| && es[i].key == r.key && r.offset == |recs|
    ensures MapOk(es[i := EntryFor(r)], recs + [r])
  {
    var es', recs' := es[i := EntryFor(r)], recs + [r];
    assert EntryOk(es[i], recs);
    EntryNew(recs, r);
    forall k | 0 <= k < |es'|
      ensures EntryOk(es'[k], recs')
    {
      if k != i {
        EntryStays(es[k], recs, r);
      }
    }
    forall g | 0 <= g < |recs'| && recs'[g].key != []
      ensures HasKey(es', recs'[g].key)
    {
      if g < |recs| {
        var k :| 0 <= k < |es| && es[k].key == recs[g].key;
        assert es'[k].key == recs[g].key;
      } else {
        assert es'[i].key == r.key;
      }
    }
  }

  lemma MapInserts(es: seq<CompactionEntry>, recs: seq<Record>, r: Record)
    requires MapOk(es, recs) && r.key != [] && !HasKey(es, r.key) && r.offset == |recs|
    ensures MapOk(es + [EntryFor(r)], recs + [r])
  {
    var es', recs' := es + [EntryFor(r)], recs + [r];
    EntryNew(recs, r);
    forall k | 0 <= k < |es'|
      ensures EntryOk(es'[k], recs')
    {
      if k < |es| {
        EntryStays(es[k], recs, r);
      }
    }
    forall g | 0 <= g < |recs'| && recs'[g].key != []
      ensures HasKey(es', recs'[g].key)
    {
      if g < |recs| {
        var k :| 0 <= k < |es| && es[k].key == recs[g].key;
        assert es'[k].key == recs[g].key;
      } else {
        assert es'[|es|].key == r.key;
      }
    }
  }

  /** Enters one record into the map. */
  method NoteRecord(entries: array<CompactionEntry>, count0: nat, rec: Record, ghost recs: seq<Record>) returns (count: nat)
    requires entries.Length == MAX_COMPACTION_MAP_SIZE && count0 <= |recs| < MAX_COMPACTION_MAP_SIZE
    requires MapOk(entries[..count0], recs) && rec.offset == |recs|
    modifies entries
    ensures count <= |recs| + 1 && MapOk(entries[..count], recs + [rec])
  {
    hide MapOk, HasKey;
    count := count0;
    if rec.key == [] {
      MapSkips(entries[..count], recs, rec);
      return;
    }
    ghost var es := entries[..count];
    var i := 0;
    while i < count && entries[i].key != rec.key
      invariant 0 <= i <= count && forall k :: 0 <= k < i ==> entries[k].key != rec.key
    {
      i := i + 1;
    }
    if i < count {
      LatestIsOlder(es, recs, i);
      MapUpdates(es, recs, rec, i);
      if rec.offset > entries[i].offset {
        entries[i] := entries[i].(offset := rec.offset, timestamp := rec.timestamp, isTombstone := rec.value == []);
      }
      assert entries[..count] == es[i := EntryFor(rec)];
      return;
    }
    if count < MAX_COMPACTION_MAP_SIZE {
      NoSuchKey(es, rec.key);
      MapInserts(es, recs, rec);
      entries[count] := CompactionEntry(rec.key, rec.offset, rec.timestamp, rec.value == []);
      count := count + 1;
      assert entries[..count] == es + [EntryFor(rec)];
    }
  }

  lemma LatestIsOlder(es: seq<CompactionEntry>, recs: seq<Record>, i: nat)
    requires MapOk(es, recs) && i < |es|
    ensures es[i].offset < |recs|
  {
    assert EntryOk(es[i], recs);
  }

  lemma NoSuchKey(es: seq<CompactionEntry>, key: bytes)
    requires forall k :: 0 <= k < |es| ==> es[k].key != key
    ensures !HasKey(es, key)
  {
  }

  /** Builds the map from all segments; it has room for every key of the partition. */
  method BuildMap(p: Partition) returns (entries: array<CompactionEntry>, count: nat)
    requires p.Valid()
    ensures fresh(entries) && count <= entries.Length && MapOk(entries[..count], p.Log())
  {
    hide MapOk, SegmentsOk, Flat;
    entries := new CompactionEntry[MAX_COMPACTION_MAP_SIZE](_ => CompactionEntry([], 0, 0, false));
    count := 0;
    ghost var ss := p.segments[..p.segmentCount];
    EmptyMap();
    assert entries[..0] == [] && ss[..0] == [];
    var i := 0;
    while i < p.segmentCount
      invariant 0 <= i <= p.segmentCount && count <= |Flat(ss[..i])| && count <= entries.Length
      invariant MapOk(entries[..count], Flat(ss[..i]))
    {
      SegmentAt(ss, i);
      FlatStep(ss, i);
      count := NoteSegment(entries, count, p.segments[i], Flat(ss[..i]));
      i := i + 1;
    }
    assert ss[..|ss|] == ss;
  }

  lemma EmptyMap()
    ensures MapOk([], []) && Flat([]) == []
  {
  }

  lemma SegmentAt(ss: seq<LogSegment>, i: nat)
    requires SegmentsOk(ss) && i < |ss|
    ensures forall j :: 0 <= j < |ss[i].records| ==> ss[i].records[j].offset == |Flat(ss[..i])| + j
    ensures |Flat(ss[..i])| + |ss[i].records| <= MAX_COMPACTION_MAP_SIZE
  {
    FlatOffsets(ss, i);
    assert SegmentOk(ss, i);
  }

  method NoteSegment(entries: array<CompactionEntry>, count0: nat, seg: LogSegment, ghost recs: seq<Record>) returns (count: nat)
    requires entries.Length == MAX_COMPACTION_MAP_SIZE && count0 <= |recs| && |recs| + |seg.records| <= MAX_COMPACTION_MAP_SIZE
    requires MapOk(entries[..count0], recs)
    requires forall j :: 0 <= j < |seg.records| ==> seg.records[j].offset == |recs| + j
    modifies entries
    ensures count <= |recs| + |seg.records| && MapOk(entries[..count], recs + seg.records)
  {
    hide MapOk;
    count := count0;
    var j := 0;
    assert recs + seg.records[..0] == recs;
    while j < |seg.records|
      invariant 0 <= j <= |seg.records| && count <= |recs| + j && MapOk(entries[..count], recs + seg.records[..j])
    {
      assert recs + seg.records[..j] + [seg.records[j]] == recs + seg.records[..j + 1];
      count := NoteRecord(entries, count, seg.records[j], recs + seg.records[..j]);
      j := j + 1;
    }
    assert seg.records[..j] == seg.records;
  }

  // ---------- Applying the map ----------

  /** The map tells which records are the latest of their key. */
  lemma MapDecides(es: seq<CompactionEntry>, recs: seq<Record>, r: Record)
    requires MapOk(es, recs) && r in recs && r.key != []
    ensures (exists i :: 0 <= i < |es| && es[i].key == r.key && es[i].offset == r.offset) <==> LastOf(recs, r.key) == r.offset
  {
    var g :| 0 <= g < |recs| && recs[g] == r;
    assert HasKey(es, r.key);
    var i :| 0 <= i < |es| && es[i].key == r.key;
    assert EntryOk(es[i], recs);
    forall k | 0 <= k < |es| && es[k].key == r.key && es[k].offset == r.offset
      ensures LastOf(recs, r.key) == r.offset
    {
      assert EntryOk(es[k], recs);
    }
  }

  method IsLatest(entries: array<CompactionEntry>, count: nat, r: Record, ghost recs: seq<Record>) returns (latest: bool)
    requires count <= entries.Length && MapOk(entries[..count], recs) && r in recs && r.key != []
    ensures latest == (LastOf(recs, r.key) == r.offset)
  {
    hide MapOk, LastOf;
    MapDecides(entries[..count], recs, r);
    var i := 0;
    while i < count
      invariant 0 <= i <= count
      invariant forall k :: 0 <= k < i ==> !(entries[..count][k].key == r.key && entries[..count][k].offset == r.offset)
    {
      assert entries[..count][i] == entries[i];
      if entries[i].key == r.key && entries[i].offset == r.offset {
        return true;
      }
      i := i + 1;
    }
    latest := false;
  }

  /** Blanks the records of a segment that are not the latest of their key. */
  method CompactSegment(entries: array<CompactionEntry>, count: nat, seg: LogSegment, ghost recs: seq<Record>)
    returns (after: LogSegment)
    requires count <= entries.Length && MapOk(entries[..count], recs)
    requires forall j :: 0 <= j < |seg.records| ==> seg.records[j] in recs
    ensures Compacts(seg, after, recs)
  {
    hide MapOk, LastOf;
    after := seg;
    var j := 0;
    while j < |seg.records|
      invariant 0 <= j <= |seg.records| == |after.records| && after == seg.(records := after.records)
      invariant forall k :: 0 <= k < j ==> after.records[k] == CompactRecord(seg.records[k], recs)
      invariant forall k :: j <= k < |seg.records| ==> after.records[k] == seg.records[k]
    {
      var rec := seg.records[j];
      if rec.key != [] {
        var latest := IsLatest(entries, count, rec, recs);
        if !latest {
          after := after.(records := after.records[j := rec.(value := [], key := [])]);
        }
      }
      j := j + 1;
    }
  }

  /** One segment's records, each treated as compaction treats it. */
  ghost predicate Compacts(seg: LogSegment, after: LogSegment, recs: seq<Record>) {
    && after == seg.(records := after.records) && |after.records| == |seg.records|
    && forall k :: 0 <= k < |seg.records| ==> after.records[k] == CompactRecord(seg.records[k], recs)
  }

  ghost predicate Expires(seg: LogSegment, after: LogSegment, now: int, retention: int) {
    && after == seg.(records := after.records) && |after.records| == |seg.records|
    && forall k :: 0 <= k < |seg.records| ==> after.records[k] == ExpireRecord(seg.records[k], now, retention)
  }

  /** A segment with its records changed in place, offsets kept. */
  ghost predicate SameOffsets(before: LogSegment, after: LogSegment) {
    && after == before.(records := after.records) && |after.records| == |before.records|
    && forall j :: 0 <= j < |before.records| ==> after.records[j].offset == before.records[j].offset
  }

  ghost predicate Treated(before: seq<LogSegment>, after: seq<LogSegment>) {
    |after| == |before| && forall k :: 0 <= k < |before| ==> SameOffsets(before[k], after[k])
  }

  lemma {:induction false} TreatedFlat(before: seq<LogSegment>, after: seq<LogSegment>, n: nat)
    requires Treated(before, after) && n <= |before|
    ensures |Flat(after[..n])| == |Flat(before[..n])|
  {
    if n > 0 {
      FlatStep(before, n - 1);
      FlatStep(after, n - 1);
      assert SameOffsets(before[n - 1], after[n - 1]);
      TreatedFlat(before, after, n - 1);
    }
  }

  lemma TreatedOk(before: seq<LogSegment>, after: seq<LogSegment>)
    requires SegmentsOk(before) && Treated(before, after)
    ensures SegmentsOk(after)
  {
    forall k | 0 <= k < |after|
      ensures SegmentOk(after, k)
    {
      assert SegmentOk(before, k) && SameOffsets(before[k], after[k]);
      TreatedFlat(before, after, k);
    }
  }

  lemma {:induction false} CompactedFlat(before: seq<LogSegment>, after: seq<LogSegment>, recs: seq<Record>, n: nat)
    requires |after| == |before| && n <= |before| && forall k :: 0 <= k < n ==> Compacts(before[k], after[k], recs)
    ensures var a, b := Flat(after[..n]), Flat(before[..n]);
            |a| == |b| && forall g :: 0 <= g < |b| ==> a[g] == CompactRecord(b[g], recs)
  {
    if n > 0 {
      CompactedFlat(before, after, recs, n - 1);
      FlatStep(before, n - 1);
      FlatStep(after, n - 1);
      assert Compacts(before[n - 1], after[n - 1], recs);
    }
  }

  lemma {:induction false} ExpiredFlat(before: seq<LogSegment>, after: seq<LogSegment>, now: int, retention: int, n: nat)
    requires |after| == |before| && n <= |before| && forall k :: 0 <= k < n ==> Expires(before[k], after[k], now, retention)
    ensures var a, b := Flat(after[..n]), Flat(before[..n]);
            |a| == |b| && forall g :: 0 <= g < |b| ==> a[g] == ExpireRecord(b[g], now, retention)
  {
    if n > 0 {
      ExpiredFlat(before, after, now, retention, n - 1);
      FlatStep(before, n - 1);
      FlatStep(after, n - 1);
      assert Expires(before[n - 1], after[n - 1], now, retention);
    }
  }

  /** Every record of a segment is in the log. */
  lemma InLog(ss: seq<LogSegment>, i: nat)
    requires i < |ss|
    ensures forall j :: 0 <= j < |ss[i].records| ==> ss[i].records[j] in Flat(ss)
  {
    FlatStep(ss, i);
    FlatPrefix(ss, i + 1, |ss|);
    assert ss[..|ss|] == ss;
    forall j | 0 <= j < |ss[i].records|
      ensures ss[i].records[j] in Flat(ss)
    {
      assert Flat(ss)[|Flat(ss[..i])| + j] == ss[i].records[j];
    }
  }

  /** Blanks, in all segments but the active one, the records that are not the latest of their key. */
  method ApplyMap(p: Partition, entries: array<CompactionEntry>, count: nat)
    requires p.Valid() && count <= entries.Length && MapOk(entries[..count], p.Log())
    modifies p.segments
    ensures p.Valid() && p.ActiveBase() == old(p.ActiveBase()) && p.Log() == Compacted(old(p.Log()), p.ActiveBase())
    ensures p.segments[p.activeSegmentIdx] == old(p.segments[p.activeSegmentIdx])
  {
    hide MapOk, Flat, SegmentsOk, Compacts;
    ghost var before, recs := p.segments[..p.segmentCount], p.Log();
    ghost var last := p.segmentCount - 1;
    p.LogFacts();
    OnlyLastActive(before);
    var i := 0;
    while i < p.segmentCount
      invariant 0 <= i <= p.segmentCount
      invariant forall k :: 0 <= k < i && k < last ==> Compacts(before[k], p.segments[k], recs)
      invariant forall k :: 0 <= k < p.segmentCount && (i <= k || k == last) ==> p.segments[k] == before[k]
    {
      InLog(before, i);
      if !p.segments[i].isActive {
        p.segments[i] := CompactSegment(entries, count, p.segments[i], recs);
      }
      i := i + 1;
    }
    CompactedSegments(before, p.segments[..p.segmentCount]);
  }

  lemma OnlyLastActive(ss: seq<LogSegment>)
    requires SegmentsOk(ss)
    ensures forall k :: 0 <= k < |ss| ==> (ss[k].isActive <==> k == |ss| - 1)
  {
    forall k | 0 <= k < |ss|
      ensures ss[k].isActive <==> k == |ss| - 1
    {
      assert SegmentOk(ss, k);
    }
  }

  lemma CompactedOffsets(before: LogSegment, after: LogSegment, recs: seq<Record>, closed: bool)
    requires if closed then Compacts(before, after, recs) else after == before
    ensures SameOffsets(before, after)
  {
  }

  lemma ExpiredOffsets(before: LogSegment, after: LogSegment, now: int, retention: int, closed: bool)
    requires if closed then Expires(before, after, now, retention) else after == before
    ensures SameOffsets(before, after)
  {
  }

  lemma CompactedJoin(closed: seq<Record>, after: seq<Record>, active: seq<Record>, recs: seq<Record>)
    requires recs == closed + active && |after| == |closed| && forall g :: 0 <= g < |closed| ==> after[g] == CompactRecord(closed[g], recs)
    ensures after + active == Compacted(recs, |closed|)
  {
    hide CompactRecord;
  }

  lemma ExpiredJoin(closed: seq<Record>, after: seq<Record>, active: seq<Record>, recs: seq<Record>, now: int, retention: int)
    requires recs == closed + active && |after| == |closed| && forall g :: 0 <= g < |closed| ==> after[g] == ExpireRecord(closed[g], now, retention)
    ensures after + active == WithoutExpired(recs, |closed|, now, retention)
  {
    hide ExpireRecord;
  }

  /** The log is what lies before the active segment and the active segment. */
  lemma ActiveApart(ss: seq<LogSegment>)
    requires SegmentsOk(ss)
    ensures var last := |ss| - 1; Flat(ss) == Flat(ss[..last]) + ss[last].records && ss[last].baseOffset == |Flat(ss[..last])|
  {
    assert SegmentOk(ss, |ss| - 1);
  }

  lemma CompactedSegments(before: seq<LogSegment>, after: seq<LogSegment>)
    requires SegmentsOk(before) && |after| == |before|
    requires forall k :: 0 <= k < |before| - 1 ==> Compacts(before[k], after[k], Flat(before))
    requires after[|before| - 1] == before[|before| - 1]
    ensures SegmentsOk(after) && Flat(after) == Compacted(Flat(before), before[|before| - 1].baseOffset)
  {
    hide Flat, SegmentsOk, SameOffsets, Compacts, Compacted, WithoutExpired;
    var last := |before| - 1;
    forall k | 0 <= k < |before|
      ensures SameOffsets(before[k], after[k])
    {
      CompactedOffsets(before[k], after[k], Flat(before), k < last);
    }
    TreatedOk(before, after);
    CompactedFlat(before, after, Flat(before), last);
    ActiveApart(before);
    ActiveApart(after);
    CompactedJoin(Flat(before[..last]), Flat(after[..last]), before[last].records, Flat(before));
  }

  /** Removes expired tombstones from all segments but the active one. */
  method RemoveExpiredTombstones(p: Partition, now: int, retention: int)
    requires p.Valid()
    modifies p.segments
    ensures p.Valid() && p.ActiveBase() == old(p.ActiveBase())
    ensures p.Log() == WithoutExpired(old(p.Log()), p.ActiveBase(), now, retention)
    ensures p.segments[p.activeSegmentIdx] == old(p.segments[p.activeSegmentIdx])
    ensures forall key :: key != [] ==>
              (ValueOf(p.Log(), key) == ValueOf(old(p.Log()), key) <==>
               !Resurrects(old(p.Log()), p.ActiveBase(), now, retention, key))
  {
    hide Flat, SegmentsOk, Expires, ValueOf, Resurrects, WithoutExpired;
    ghost var recs := p.Log();
    ghost var before := p.segments[..p.segmentCount];
    ghost var last := p.segmentCount - 1;
    p.LogFacts();
    OnlyLastActive(before);
    var i := 0;
    while i < p.segmentCount
      invariant 0 <= i <= p.segmentCount
      invariant forall k :: 0 <= k < i && k < last ==> Expires(before[k], p.segments[k], now, retention)
      invariant forall k :: 0 <= k < p.segmentCount && (i <= k || k == last) ==> p.segments[k] == before[k]
    {
      if !p.segments[i].isActive {
        p.segments[i] := ExpireSegment(p.segments[i], now, retention);
      }
      i := i + 1;
    }
    ExpiredSegments(before, p.segments[..p.segmentCount], now, retention);
    forall key | key != []
      ensures ValueOf(p.Log(), key) == ValueOf(recs, key) <==> !Resurrects(recs, p.ActiveBase(), now, retention, key)
    {
      ExpiryKeepsValueExactly(recs, p.ActiveBase(), now, retention, key);
    }
  }

  method ExpireSegment(seg: LogSegment, now: int, retention: int) returns (after: LogSegment)
    ensures Expires(seg, after, now, retention)
  {
    after := seg;
    var j := 0;
    while j < |seg.records|
      invariant 0 <= j <= |seg.records| == |after.records| && after == seg.(records := after.records)
      invariant forall k :: 0 <= k < j ==> after.records[k] == ExpireRecord(seg.records[k], now, retention)
      invariant forall k :: j <= k < |seg.records| ==> after.records[k] == seg.records[k]
    {
      var rec := seg.records[j];
      if rec.value == [] && rec.key != [] {
        var age := now - rec.timestamp;
        if age > retention {
          after := after.(records := after.records[j := rec.(key := [])]);
        }
      }
      j := j + 1;
    }
  }

  lemma ExpiredSegments(before: seq<LogSegment>, after: seq<LogSegment>, now: int, retention: int)
    requires SegmentsOk(before) && |after| == |before|
    requires forall k :: 0 <= k < |before| - 1 ==> Expires(before[k], after[k], now, retention)
    requires after[|before| - 1] == before[|before| - 1]
    ensures SegmentsOk(after) && Flat(after) == WithoutExpired(Flat(before), before[|before| - 1].baseOffset, now, retention)
  {
    hide Flat, SegmentsOk, SameOffsets, Expires, Compacted, WithoutExpired;
    var last := |before| - 1;
    forall k | 0 <= k < |before|
      ensures SameOffsets(before[k], after[k])
    {
      ExpiredOffsets(before[k], after[k], now, retention, k < last);
    }
    TreatedOk(before, after);
    ExpiredFlat(before, after, now, retention, last);
    ActiveApart(before);
    ActiveApart(after);
    ExpiredJoin(Flat(before[..last]), Flat(after[..last]), before[last].records, Flat(before), now, retention);
  }

  /** A cleaning cycle under the compaction policy: every key keeps its value, the active segment and all offsets stay. */
  method RunCompactionCycle(p: Partition, now: int, retention: int)
    requires p.Valid()
    modifies p.segments
    ensures p.Valid() && p.ActiveBase() == old(p.ActiveBase())
    ensures p.Log() == Cleaned(old(p.Log()), p.ActiveBase(), now, retention)
    ensures p.segments[p.activeSegmentIdx] == old(p.segments[p.activeSegmentIdx])
    ensures forall key :: key != [] ==> ValueOf(p.Log(), key) == ValueOf(old(p.Log()), key)
  {
    hide MapOk, Compacted, WithoutExpired, ValueOf, Partition.Valid;
    ghost var recs, limit := p.Log(), p.ActiveBase();
    p.LogFacts();
    var entries, count := BuildMap(p);
    ApplyMap(p, entries, count);
    RemoveExpiredTombstones(p, now, retention);
    forall key | key != []
      ensures ValueOf(p.Log(), key) == ValueOf(recs, key)
    {
      CleaningKeepsValues(recs, limit, now, retention, key);
    }
  }

  // ---------- Runs ----------

  datatype PartitionOp = Append(key: bytes, value: bytes, timestamp: int) | Roll | Clean(now: int, retention: int)

  /** The room taken after a run of operations on a new partition. */
  function RoomAfter(ops: seq<PartitionOp>): Room {
    if ops == [] then Room(1, 0)
    else
      var room := RoomAfter(ops[..|ops| - 1]);
      match ops[|ops| - 1]
      case Append(_, _, _) => RoomTaken(room)
      case Roll => RoomRolled(room)
      case Clean(_, _) => room
  }

  /** The log after the run: appends cut their key and value to size and are refused once all segments are full. */
  function LogAfter(ops: seq<PartitionOp>): seq<Record> {
    if ops == [] then []
    else
      var init := ops[..|ops| - 1];
      var recs := LogAfter(init);
      match ops[|ops| - 1]
      case Append(key, value, ts) =>
        if IsFull(RoomAfter(init)) then recs
        else recs + [Record(|recs|, ts, Truncated(key, MAX_KEY_LEN), Truncated(value, MAX_VALUE_LEN))]
      case Roll => recs
      case Clean(now, retention) =>
        var active := RoomAfter(init).records;
        Cleaned(recs, if active <= |recs| then |recs| - active else 0, now, retention)
  }

  /** What the run appended last under the key, as cut to size; nothing that was refused counts, an empty value deletes. */
  function LastAppended(ops: seq<PartitionOp>, key: bytes): Option<bytes> {
    if ops == [] then None
    else
      var init, op := ops[..|ops| - 1], ops[|ops| - 1];
      if op.Append? && Truncated(op.key, MAX_KEY_LEN) == key && !IsFull(RoomAfter(init)) then
        var value := Truncated(op.value, MAX_VALUE_LEN);
        if value == [] then None else Some(value)
      else LastAppended(init, key)
  }

  lemma NothingStored(key: bytes)
    ensures OffsetsOk([]) && ValueOf([], key) == None
  {
  }

  lemma ValueAppended(recs: seq<Record>, r: Record, key: bytes)
    requires OffsetsOk(recs) && r.offset == |recs|
    ensures OffsetsOk(recs + [r])
    ensures ValueOf(recs + [r], key) == if r.key != key then ValueOf(recs, key) else if r.value == [] then None else Some(r.value)
  {
    LastOfAppend(recs, r, key);
  }

  /** Over any run, however often it is cleaned, the log holds for every key the value appended last. */
  lemma {:induction false} RunKeepsValues(ops: seq<PartitionOp>, key: bytes)
    requires key != []
    ensures OffsetsOk(LogAfter(ops)) && ValueOf(LogAfter(ops), key) == LastAppended(ops, key)
  {
    hide Truncated, Cleaned, RoomAfter, ValueOf, OffsetsOk, IsFull;
    if ops == [] {
      NothingStored(key);
    } else {
      var init, recs := ops[..|ops| - 1], LogAfter(ops[..|ops| - 1]);
      RunKeepsValues(init, key);
      match ops[|ops| - 1]
      case Append(k, v, ts) =>
        var r := Record(|recs|, ts, Truncated(k, MAX_KEY_LEN), Truncated(v, MAX_VALUE_LEN));
        ValueAppended(recs, r, key);
      case Roll =>
      case Clean(now, retention) =>
        var active := RoomAfter(init).records;
        var limit := if active <= |recs| then |recs| - active else 0;
        CleaningShape(recs, limit, now, retention);
        CleaningKeepsValues(recs, limit, now, retention, key);
    }
  }

  /** Without early rolls the first 1024 appends are taken and no others, however often the log is cleaned. */
  lemma {:induction false} AppendsTaken(ops: seq<PartitionOp>)
    requires forall k :: 0 <= k < |ops| ==> !ops[k].Roll?
    ensures |LogAfter(ops)| == if Appends(ops) < 1024 then Appends(ops) else 1024
    ensures var room := RoomAfter(ops); 0 < room.segments <= 8 && room.records <= 128 && (room.segments > 1 ==> room.records > 0)
    ensures var room := RoomAfter(ops); |LogAfter(ops)| == (room.segments - 1) * 128 + room.records
  {
    hide Truncated, Cleaned;
    if ops != [] {
      AppendsTaken(ops[..|ops| - 1]);
    }
  }

  function Appends(ops: seq<PartitionOp>): nat {
    if ops == [] then 0 else Appends(ops[..|ops| - 1]) + if ops[|ops| - 1].Append? then 1 else 0
  }

  /** Any run of appends, rolls and cleaning cycles on a new partition: its log is what the run says, and holds for every
      key the value appended last. */
  method RunPartition(ops: seq<PartitionOp>) returns (p: Partition)
    ensures p.Valid() && p.Occupied() == RoomAfter(ops) && p.Log() == LogAfter(ops)
    ensures forall key :: key != [] ==> ValueOf(p.Log(), key) == LastAppended(ops, key)
  {
    hide Partition.Valid, Truncated, Cleaned, ValueOf, LastAppended, Partition.Log, IsFull, RoomTaken, RoomRolled;
    p := new Partition();
    var k := 0;
    while k < |ops|
      invariant 0 <= k <= |ops| && fresh(p) && fresh(p.segments) && p.Valid()
      invariant p.Occupied() == RoomAfter(ops[..k]) && p.Log() == LogAfter(ops[..k])
    {
      assert ops[..k + 1][..k] == ops[..k];
      Apply(p, ops[k]);
      k := k + 1;
    }
    assert ops[..k] == ops;
    forall key | key != []
      ensures ValueOf(p.Log(), key) == LastAppended(ops, key)
    {
      RunKeepsValues(ops, key);
    }
  }

  /** One operation. */
  method Apply(p: Partition, op: PartitionOp)
    requires p.Valid()
    modifies p, p.segments
    ensures p.Valid()
    ensures match op
            case Append(key, value, ts) =>
              && p.Occupied() == RoomTaken(old(p.Occupied()))
              && p.Log() == (if IsFull(old(p.Occupied())) then old(p.Log())
                             else old(p.Log()) + [Record(|old(p.Log())|, ts, Truncated(key, MAX_KEY_LEN), Truncated(value, MAX_VALUE_LEN))])
            case Roll => p.Occupied() == RoomRolled(old(p.Occupied())) && p.Log() == old(p.Log())
            case Clean(now, retention) =>
              && p.Occupied() == old(p.Occupied()) && p.Occupied().records <= |p.Log()|
              && p.Log() == Cleaned(old(p.Log()), |old(p.Log())| - p.Occupied().records, now, retention)
  {
    hide Truncated, Cleaned, ValueOf, SegmentsOk, IsFull, RoomTaken, RoomRolled;
    p.LogFacts();
    match op
    case Append(key, value, ts) =>
      var r := p.Append(key, value, ts);
    case Roll =>
      p.RollSegment();
    case Clean(now, retention) =>
      RunCompactionCycle(p, now, retention);
  }
}
