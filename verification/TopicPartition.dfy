/** A partition: up to eight segments of up to 128 records, the last one active. */
module TopicPartition {
  import opened Bytes
  import opened LogCompaction

  const MAX_SEGMENTS := 8
  const MAX_RECORDS_PER_SEG := 128
  const MAX_KEY_LEN := 256
  const MAX_VALUE_LEN := 4096

  datatype LogSegment = LogSegment(baseOffset: nat, records: seq<Record>, isActive: bool)

  /** The records of the segments one after the other. */
  function Flat(ss: seq<LogSegment>): seq<Record> {
    if ss == [] then [] else Flat(ss[..|ss| - 1]) + ss[|ss| - 1].records
  }

  lemma FlatStep(ss: seq<LogSegment>, k: nat)
    requires k < |ss|
    ensures Flat(ss[..k + 1]) == Flat(ss[..k]) + ss[k].records
  {
    assert ss[..k + 1][..k] == ss[..k];
  }

  lemma {:induction false} FlatPrefix(ss: seq<LogSegment>, k: nat, n: nat)
    requires k <= n <= |ss|
    ensures Flat(ss[..k]) <= Flat(ss[..n])
  {
    if k < n {
      FlatStep(ss, n - 1);
      FlatPrefix(ss, k, n - 1);
    }
  }

  /** Segment `k` starts where the ones before it end, its records carry consecutive offsets, and only the last is active. */
  ghost predicate SegmentOk(ss: seq<LogSegment>, k: nat)
    requires k < |ss|
  {
    && ss[k].baseOffset == |Flat(ss[..k])| && |ss[k].records| <= MAX_RECORDS_PER_SEG
    && (ss[k].isActive <==> k == |ss| - 1)
    && forall j :: 0 <= j < |ss[k].records| ==> ss[k].records[j].offset == ss[k].baseOffset + j
  }

  ghost predicate SegmentsOk(ss: seq<LogSegment>) {
    0 < |ss| <= MAX_SEGMENTS && forall k {:trigger SegmentOk(ss, k)} :: 0 <= k < |ss| ==> SegmentOk(ss, k)
  }

  /** Offsets are positions: they increase by one from record to record, across segments too. */
  lemma {:induction false} FlatOffsets(ss: seq<LogSegment>, n: nat)
    requires SegmentsOk(ss) && n <= |ss|
    ensures OffsetsOk(Flat(ss[..n])) && |Flat(ss[..n])| <= n * MAX_RECORDS_PER_SEG
  {
    if n > 0 {
      FlatOffsets(ss, n - 1);
      FlatStep(ss, n - 1);
      assert SegmentOk(ss, n - 1);
    }
  }

  /** One place of the limit is kept for the terminator. */
  function Truncated(s: bytes, limit: nat): (cut: bytes)
    ensures cut <= s
    ensures limit > 0 ==> |cut| < limit && (|s| < limit ==> cut == s) && (|s| >= limit ==> |cut| + 1 == limit)
  {
    if |s| >= limit && limit > 0 then s[..limit - 1] else s
  }

  /** How many segments are in use and how many records the active one has. */
  datatype Room = Room(segments: nat, records: nat)

  predicate IsFull(r: Room) {
    r.segments >= MAX_SEGMENTS && r.records >= MAX_RECORDS_PER_SEG
  }

  function RoomRolled(r: Room): Room {
    if r.segments < MAX_SEGMENTS then Room(r.segments + 1, 0) else r
  }

  function RoomTaken(r: Room): Room {
    if IsFull(r) then r
    else if r.records >= MAX_RECORDS_PER_SEG then Room(r.segments + 1, 1)
    else Room(r.segments, r.records + 1)
  }

  class Partition {
    const segments: array<LogSegment>
    var segmentCount: nat
    var activeSegmentIdx: nat

    ghost predicate Valid()
      reads this, segments
    {
      && segments.Length == MAX_SEGMENTS && 0 < segmentCount <= MAX_SEGMENTS && activeSegmentIdx == segmentCount - 1
      && SegmentsOk(segments[..segmentCount])
    }

    /** All records in order. */
    ghost function Log(): seq<Record>
      requires Valid()
      reads this, segments
    {
      Flat(segments[..segmentCount])
    }

    /** Where the active segment begins. */
    ghost function ActiveBase(): nat
      requires Valid()
      reads this, segments
    {
      segments[activeSegmentIdx].baseOffset
    }

    function Occupied(): Room
      requires Valid()
      reads this, segments
    {
      Room(segmentCount, |segments[activeSegmentIdx].records|)
    }

    constructor ()
      ensures Valid() && Log() == [] && Occupied() == Room(1, 0) && fresh(segments)
    {
      segments := new LogSegment[MAX_SEGMENTS](_ => LogSegment(0, [], false));
      segmentCount, activeSegmentIdx := 1, 0;
      new;
      segments[0] := LogSegment(0, [], true);
      assert segments[..1] == [LogSegment(0, [], true)];
      assert SegmentOk(segments[..1], 0);
    }

    lemma LogFacts()
      requires Valid()
      ensures OffsetsOk(Log()) && |Log()| <= MAX_SEGMENTS * MAX_RECORDS_PER_SEG
      ensures ActiveBase() <= |Log()| && |Log()| == ActiveBase() + |segments[activeSegmentIdx].records|
      ensures ActiveBase() == |Flat(segments[..activeSegmentIdx])|
    {
      var ss := segments[..segmentCount];
      FlatOffsets(ss, segmentCount);
      assert ss[..segmentCount] == ss;
      FlatStep(ss, activeSegmentIdx);
      assert SegmentOk(ss, activeSegmentIdx);
      assert ss[..activeSegmentIdx] == segments[..activeSegmentIdx];
    }

    /** Closes the active segment and opens the next one, unless all are in use. */
    method RollSegment()
      requires Valid()
      modifies this, segments
      ensures Valid() && Log() == old(Log()) && Occupied() == RoomRolled(old(Occupied()))
      ensures segmentCount == if old(segmentCount) < MAX_SEGMENTS then old(segmentCount) + 1 else old(segmentCount)
      ensures segments[activeSegmentIdx].records == if old(segmentCount) < MAX_SEGMENTS then [] else old(segments[activeSegmentIdx].records)
      ensures ActiveBase() == if old(segmentCount) < MAX_SEGMENTS then |Log()| else old(ActiveBase())
    {
      if segmentCount >= MAX_SEGMENTS {
        return;
      }
      LogFacts();
      ghost var before := segments[..segmentCount];
      var active := segments[activeSegmentIdx];
      segments[activeSegmentIdx] := active.(isActive := false);
      var nextBase := active.baseOffset + |active.records|;
      activeSegmentIdx := segmentCount;
      segmentCount := segmentCount + 1;
      segments[activeSegmentIdx] := LogSegment(nextBase, [], true);
      Rolled(before, segments[..segmentCount]);
    }

    /** Appends a record to the active segment, rolling it when it is full; the log is full after eight segments. */
    method Append(key: bytes, value: bytes, timestamp: int) returns (r: int)
      requires Valid()
      modifies this, segments
      ensures Valid()
      ensures Occupied() == RoomTaken(old(Occupied()))
      ensures r == -1 <==> IsFull(old(Occupied()))
      ensures r == -1 <==> old(segmentCount) == 8 && old(|segments[activeSegmentIdx].records|) == 128
      ensures r == -1 ==> Log() == old(Log())
      ensures r != -1 ==> r == |old(Log())| &&
                          Log() == old(Log()) + [Record(r, timestamp, Truncated(key, MAX_KEY_LEN), Truncated(value, MAX_VALUE_LEN))]
    {
      hide SegmentsOk, Truncated;
      LogFacts();
      ActiveRoom();
      if |segments[activeSegmentIdx].records| >= MAX_RECORDS_PER_SEG {
        RollSegment();
        LogFacts();
        ActiveRoom();
      }
      var seg := segments[activeSegmentIdx];
      if |seg.records| < MAX_RECORDS_PER_SEG && seg.isActive {
        var offset := seg.baseOffset + |seg.records|;
        var rec := Record(offset, timestamp, Truncated(key, MAX_KEY_LEN), Truncated(value, MAX_VALUE_LEN));
        ghost var before := segments[..segmentCount];
        segments[activeSegmentIdx] := seg.(records := seg.records + [rec]);
        assert segments[..segmentCount] == before[activeSegmentIdx := seg.(records := seg.records + [rec])];
        Appended(before, rec);
        return offset;
      }
      r := -1;
    }

    lemma ActiveRoom()
      requires Valid()
      ensures segments[activeSegmentIdx].isActive && |segments[activeSegmentIdx].records| <= MAX_RECORDS_PER_SEG
    {
      assert SegmentOk(segments[..segmentCount], activeSegmentIdx);
    }
  }

  lemma {:induction false} FlatSame(a: seq<LogSegment>, b: seq<LogSegment>, n: nat)
    requires n <= |a| && n <= |b| && forall k :: 0 <= k < n ==> a[k].records == b[k].records
    ensures Flat(a[..n]) == Flat(b[..n])
  {
    if n > 0 {
      FlatSame(a, b, n - 1);
      FlatStep(a, n - 1);
      FlatStep(b, n - 1);
    }
  }

  lemma Rolled(before: seq<LogSegment>, after: seq<LogSegment>)
    requires SegmentsOk(before) && |before| < MAX_SEGMENTS && |after| == |before| + 1
    requires var n := |before| - 1;
             && after[..n] == before[..n] && after[n] == before[n].(isActive := false)
             && after[n + 1] == LogSegment(before[n].baseOffset + |before[n].records|, [], true)
    ensures SegmentsOk(after) && Flat(after) == Flat(before)
  {
    hide Flat;
    var n := |before| - 1;
    assert forall k :: 0 <= k < n ==> after[k] == after[..n][k] == before[k];
    assert after[..n + 2] == after && before[..n + 1] == before;
    FlatSame(after, before, n + 1);
    FlatStep(after, n + 1);
    FlatStep(before, n);
    assert SegmentOk(before, n);
    forall k | 0 <= k < |after|
      ensures SegmentOk(after, k)
    {
      FlatSame(after, before, if k <= n then k else n);
      if k <= n {
        assert SegmentOk(before, k);
      }
    }
  }

  lemma Appended(before: seq<LogSegment>, rec: Record)
    requires SegmentsOk(before)
    requires var n := |before| - 1; |before[n].records| < MAX_RECORDS_PER_SEG && rec.offset == before[n].baseOffset + |before[n].records|
    ensures var n := |before| - 1;
            var after := before[n := before[n].(records := before[n].records + [rec])];
            SegmentsOk(after) && Flat(after) == Flat(before) + [rec]
  {
    var n := |before| - 1;
    var after := before[n := before[n].(records := before[n].records + [rec])];
    forall k | 0 <= k < |after|
      ensures SegmentOk(after, k)
    {
      FlatSame(after, before, k);
      assert SegmentOk(before, k);
    }
    FlatSame(after, before, n);
  }
}
