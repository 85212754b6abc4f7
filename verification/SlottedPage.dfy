/** Slots and the bytes they stand for. */
module Slots {
  import opened Bytes
  import opened Options

  const PAGE_SIZE := 4096

  /** A tuple's place in the page; length 0 marks a deleted one. */
  datatype Slot = Slot(offset: nat, length: nat)

  predicate Live(s: Slot) {
    s.length > 0
  }

  /** Live tuples lie between the end of the free space and the end of the page. */
  predicate Within(slots: seq<Slot>, freeEnd: nat) {
    forall i :: 0 <= i < |slots| && Live(slots[i]) ==> freeEnd <= slots[i].offset && slots[i].offset + slots[i].length <= PAGE_SIZE
  }

  predicate Disjoint(s: Slot, t: Slot) {
    s.offset + s.length <= t.offset || t.offset + t.length <= s.offset
  }

  /** Live tuples do not overlap. */
  predicate Apart(slots: seq<Slot>) {
    forall i, j {:trigger Disjoint(slots[i], slots[j])} ::
      0 <= i < j < |slots| && Live(slots[i]) && Live(slots[j]) ==> Disjoint(slots[i], slots[j])
  }

  function LiveCount(slots: seq<Slot>): (n: nat)
    ensures n <= |slots|
  {
    if slots == [] then 0
    else LiveCount(slots[..|slots| - 1]) + if Live(slots[|slots| - 1]) then 1 else 0
  }

  function LiveTotal(slots: seq<Slot>): nat {
    if slots == [] then 0 else LiveTotal(slots[..|slots| - 1]) + slots[|slots| - 1].length
  }

  function TupleAt(s: Slot, data: bytes): Option<bytes> {
    if Live(s) && s.offset + s.length <= |data| then Some(data[s.offset..s.offset + s.length]) else None
  }

  /** The tuple of each slot. */
  function Tuples(slots: seq<Slot>, data: bytes): (ts: seq<Option<bytes>>)
    ensures |ts| == |slots| && forall i :: 0 <= i < |slots| ==> ts[i] == TupleAt(slots[i], data)
  {
    seq(|slots|, i requires 0 <= i < |slots| => TupleAt(slots[i], data))
  }

  // ---------- Disjoint tuples fit ----------

  function Span(a: nat, n: nat): (r: set<int>)
    ensures |r| == n && forall x :: x in r <==> a <= x < a + n
  {
    if n == 0 then {} else Span(a, n - 1) + {a + n - 1}
  }

  /** The positions that the tuples occupy. */
  function Covered(slots: seq<Slot>): set<int> {
    if slots == [] then {}
    else Covered(slots[..|slots| - 1]) + Span(slots[|slots| - 1].offset, slots[|slots| - 1].length)
  }

  lemma {:induction false} CoveredBy(slots: seq<Slot>, x: int) returns (i: nat)
    requires x in Covered(slots)
    ensures i < |slots| && slots[i].offset <= x < slots[i].offset + slots[i].length
  {
    var n := |slots| - 1;
    if x in Covered(slots[..n]) {
      i := CoveredBy(slots[..n], x);
    } else {
      i := n;
    }
  }

  lemma {:induction false} CoveredSize(slots: seq<Slot>)
    requires Apart(slots)
    ensures |Covered(slots)| == LiveTotal(slots)
  {
    if slots != [] {
      var n := |slots| - 1;
      var low, last := Covered(slots[..n]), Span(slots[n].offset, slots[n].length);
      InitApart(slots);
      CoveredSize(slots[..n]);
      forall x | x in low
        ensures x !in last
      {
        var i := CoveredBy(slots[..n], x);
        assert Live(slots[n]) ==> Disjoint(slots[i], slots[n]);
      }
      assert low !! last;
    }
  }

  lemma InitApart(slots: seq<Slot>)
    requires Apart(slots) && slots != []
    ensures Apart(slots[..|slots| - 1])
  {
    var init := slots[..|slots| - 1];
    forall i, j | 0 <= i < j < |init| && Live(init[i]) && Live(init[j])
      ensures Disjoint(init[i], init[j])
    {
      assert Disjoint(slots[i], slots[j]);
    }
  }

  /** The live tuples together are no longer than the space behind the free space. */
  lemma TotalFits(slots: seq<Slot>, freeEnd: nat)
    requires Apart(slots) && Within(slots, freeEnd) && freeEnd <= PAGE_SIZE
    ensures LiveTotal(slots) <= PAGE_SIZE - freeEnd
  {
    CoveredSize(slots);
    var all := Span(freeEnd, PAGE_SIZE - freeEnd);
    forall x | x in Covered(slots)
      ensures x in all
    {
      var i := CoveredBy(slots, x);
    }
    assert all == Covered(slots) + (all - Covered(slots));
  }

  // ---------- Packing ----------

  /** How many tuples before slot `i` are live, and their bytes in all. */
  function CountTo(slots: seq<Slot>, i: nat): nat
    requires i <= |slots|
  {
    LiveCount(slots[..i])
  }

  function TotalTo(slots: seq<Slot>, i: nat): nat
    requires i <= |slots|
  {
    LiveTotal(slots[..i])
  }

  lemma {:induction false} TotalMonotone(slots: seq<Slot>, i: nat, j: nat)
    requires i <= j <= |slots|
    ensures LiveTotal(slots[..i]) <= LiveTotal(slots[..j]) && LiveCount(slots[..i]) <= LiveCount(slots[..j])
  {
    if i < j {
      TotalStep(slots, j - 1);
      TotalMonotone(slots, i, j - 1);
    }
  }

  lemma TotalStep(slots: seq<Slot>, i: nat)
    requires i < |slots|
    ensures LiveTotal(slots[..i + 1]) == LiveTotal(slots[..i]) + slots[i].length
    ensures LiveCount(slots[..i + 1]) == LiveCount(slots[..i]) + if Live(slots[i]) then 1 else 0
  {
    assert slots[..i + 1][..i] == slots[..i];
  }

  /** The live tuples' bytes one after the other. */
  function Packed(slots: seq<Slot>, data: bytes): (b: bytes)
    requires Within(slots, 0) && |data| == PAGE_SIZE
    ensures |b| == LiveTotal(slots)
  {
    if slots == [] then []
    else
      var s := slots[|slots| - 1];
      Packed(slots[..|slots| - 1], data) + if Live(s) then data[s.offset..s.offset + s.length] else []
  }

  lemma PackedStep(slots: seq<Slot>, data: bytes, i: nat)
    requires Within(slots, 0) && |data| == PAGE_SIZE && i < |slots|
    ensures Packed(slots[..i + 1], data) == Packed(slots[..i], data) +
                                            if Live(slots[i]) then data[slots[i].offset..slots[i].offset + slots[i].length] else []
  {
    assert slots[..i + 1][..i] == slots[..i];
  }

  lemma {:induction false} PackedPrefix(slots: seq<Slot>, data: bytes, i: nat, j: nat)
    requires Within(slots, 0) && |data| == PAGE_SIZE && i <= j <= |slots|
    ensures Packed(slots[..i], data) <= Packed(slots[..j], data)
  {
    if i < j {
      PackedStep(slots, data, j - 1);
      PackedPrefix(slots, data, i, j - 1);
    }
  }

  /** A live tuple is found in the packing behind the tuples before it. */
  lemma PackedAt(slots: seq<Slot>, data: bytes, i: nat)
    requires Within(slots, 0) && |data| == PAGE_SIZE && i < |slots| && Live(slots[i])
    ensures var p, s := LiveTotal(slots[..i]), slots[i];
            p + s.length <= LiveTotal(slots) && Packed(slots, data)[p..p + s.length] == data[s.offset..s.offset + s.length]
  {
    hide Packed, LiveTotal;
    PackedStep(slots, data, i);
    PackedPrefix(slots, data, i + 1, |slots|);
    assert slots[..|slots|] == slots;
    PrefixSlice(Packed(slots[..i], data), data[slots[i].offset..slots[i].offset + slots[i].length], Packed(slots, data));
  }

  lemma PrefixSlice(a: bytes, b: bytes, whole: bytes)
    requires a + b <= whole
    ensures whole[|a|..|a| + |b|] == b
  {
    assert whole[|a|..|a| + |b|] == (a + b)[|a|..];
  }

  /** The slots after packing the live tuples from `base` on. */
  function Moved(slots: seq<Slot>, base: nat): (moved: seq<Slot>)
    ensures |moved| == |slots|
  {
    seq(|slots|, i requires 0 <= i < |slots| =>
      if Live(slots[i]) then Slot(base + TotalTo(slots, i), slots[i].length) else slots[i])
  }

  /** Packing keeps the tuples apart, inside the page and above the new end of the free space. */
  lemma MovedOk(slots: seq<Slot>, base: nat)
    requires base + LiveTotal(slots) <= PAGE_SIZE
    ensures Within(Moved(slots, base), base) && Apart(Moved(slots, base))
  {
    var moved := Moved(slots, base);
    forall i | 0 <= i < |slots|
      ensures LiveTotal(slots[..i]) + slots[i].length <= LiveTotal(slots)
    {
      TotalStep(slots, i);
      TotalMonotone(slots, i + 1, |slots|);
      assert slots[..|slots|] == slots;
    }
    forall i, j | 0 <= i < j < |moved| && Live(moved[i]) && Live(moved[j])
      ensures Disjoint(moved[i], moved[j])
    {
      TotalStep(slots, i);
      TotalMonotone(slots, i + 1, j);
    }
  }

  /** Packing keeps the length, count and total of the live tuples. */
  lemma {:induction false} MovedTotals(slots: seq<Slot>, base: nat)
    ensures LiveCount(Moved(slots, base)) == LiveCount(slots) && LiveTotal(Moved(slots, base)) == LiveTotal(slots)
  {
    if slots != [] {
      var n := |slots| - 1;
      MovedTotals(slots[..n], base);
      assert Moved(slots, base)[..n] == Moved(slots[..n], base) by {
        assert forall i :: 0 <= i < n ==> slots[..n][..i] == slots[..i];
      }
    }
  }

  /** Once the packed bytes lie at `base`, every slot has the tuple it had. */
  lemma MovedTuples(slots: seq<Slot>, data: bytes, base: nat, data': bytes)
    requires Within(slots, 0) && |data| == |data'| == PAGE_SIZE
    requires base + LiveTotal(slots) <= PAGE_SIZE && data'[base..base + LiveTotal(slots)] == Packed(slots, data)
    ensures Tuples(Moved(slots, base), data') == Tuples(slots, data)
  {
    hide Packed, LiveTotal;
    forall i | 0 <= i < |slots|
      ensures TupleAt(Moved(slots, base)[i], data') == TupleAt(slots[i], data)
    {
      if Live(slots[i]) {
        PackedAt(slots, data, i);
        var p := LiveTotal(slots[..i]);
        SubSlice(data', base, Packed(slots, data), p, p + slots[i].length);
      }
    }
  }

  // ---------- Single changes ----------

  lemma CountChange(slots: seq<Slot>, k: nat, s: Slot)
    requires k < |slots|
    ensures LiveCount(slots[k := s]) == LiveCount(slots) - (if Live(slots[k]) then 1 else 0) + if Live(s) then 1 else 0
    decreases |slots|
  {
    var n := |slots| - 1;
    if k < n {
      CountChange(slots[..n], k, s);
      assert slots[k := s][..n] == slots[..n][k := s];
    } else {
      assert slots[k := s][..n] == slots[..n];
    }
  }

  /** Shortening or deleting one tuple keeps the others apart. */
  lemma ShortenOk(slots: seq<Slot>, freeEnd: nat, k: nat, n: nat)
    requires k < |slots| && n <= slots[k].length && Within(slots, freeEnd) && Apart(slots)
    ensures var slots' := slots[k := Slot(slots[k].offset, n)]; Within(slots', freeEnd) && Apart(slots')
  {
    var slots' := slots[k := Slot(slots[k].offset, n)];
    forall i, j | 0 <= i < j < |slots'| && Live(slots'[i]) && Live(slots'[j])
      ensures Disjoint(slots'[i], slots'[j])
    {
      assert Disjoint(slots[i], slots[j]);
    }
  }

  /** A tuple placed just below all others is apart from them. */
  lemma AppendOk(slots: seq<Slot>, freeEnd: nat, n: nat)
    requires Within(slots, freeEnd) && Apart(slots) && n <= freeEnd <= PAGE_SIZE
    ensures var slots' := slots + [Slot(freeEnd - n, n)]; Within(slots', freeEnd - n) && Apart(slots')
    ensures LiveCount(slots + [Slot(freeEnd - n, n)]) == LiveCount(slots) + if n > 0 then 1 else 0
  {
    var slots' := slots + [Slot(freeEnd - n, n)];
    assert slots'[..|slots|] == slots;
    forall i, j | 0 <= i < j < |slots'| && Live(slots'[i]) && Live(slots'[j])
      ensures Disjoint(slots'[i], slots'[j])
    {
      if j < |slots| {
        assert Disjoint(slots[i], slots[j]);
      }
    }
  }

  /** Bytes written outside a tuple leave it as it is. */
  lemma TupleKept(s: Slot, data: bytes, data': bytes, a: nat, b: nat)
    requires |data| == |data'| && a <= b <= |data| && data'[..a] == data[..a] && data'[b..] == data[b..]
    requires Live(s) ==> s.offset + s.length <= |data| && (s.offset + s.length <= a || b <= s.offset)
    ensures TupleAt(s, data') == TupleAt(s, data)
  {
    forall k | 0 <= k < |data| && (k < a || b <= k)
      ensures data'[k] == data[k]
    {
      if k < a {
        assert data'[..a][k] == data[..a][k];
      } else {
        assert data'[b..][k - b] == data[b..][k - b];
      }
    }
    if Live(s) {
      assert data'[s.offset..s.offset + s.length] == data[s.offset..s.offset + s.length];
    }
  }
}

/** A page with a slot array and tuples that grow down from its end. */
module SlottedPages {
  import opened Bytes
  import opened Slots
  import opened Options

  const MAX_SLOTS := 256
  const HEADER_SIZE := 64
  const SLOT_SIZE := 8

  /** Free space as the page accounts for it; a slot's own eight bytes are only counted once it is there. */
  function FreeSpace(freeStart: nat, freeEnd: nat): int {
    freeEnd - freeStart
  }

  /** Where the free space ends after compaction: with no dead slot nothing is moved. */
  function CompactedEnd(slots: seq<Slot>, freeEnd: nat): int {
    if LiveCount(slots) == |slots| then freeEnd else PAGE_SIZE - LiveTotal(slots)
  }

  /** The second pass noted the `j`-th live slot and where its tuple went. */
  ghost predicate NotedAt(s: seq<Slot>, newOffsets: seq<nat>, slotMap: seq<nat>, j: nat)
    requires j < |newOffsets| && j < |slotMap|
  {
    slotMap[j] < |s| && Live(s[slotMap[j]]) && CountTo(s, slotMap[j]) == j && newOffsets[j] == TotalTo(s, slotMap[j])
  }

  ghost predicate Collected(s: seq<Slot>, newOffsets: seq<nat>, slotMap: seq<nat>, idx: nat) {
    idx <= |newOffsets| && idx <= |slotMap| && forall j: nat :: j < idx ==> NotedAt(s, newOffsets, slotMap, j)
  }

  class SlottedPage {
    const slots: array<Slot>
    const data: array<byte>
    var slotCount: nat
    var tupleCount: nat
    var freeStart: nat
    var freeEnd: nat

    ghost predicate Valid()
      reads this, slots, data
    {
      && slots.Length == MAX_SLOTS && data.Length == PAGE_SIZE && slotCount <= MAX_SLOTS
      && freeStart == HEADER_SIZE + SLOT_SIZE * slotCount && freeStart <= freeEnd + SLOT_SIZE && freeEnd <= PAGE_SIZE
      && Within(slots[..slotCount], freeEnd) && Apart(slots[..slotCount])
      && tupleCount == LiveCount(slots[..slotCount])
    }

    /** The tuple in each slot. */
    ghost function Contents(): seq<Option<bytes>>
      requires Valid()
      reads this, slots, data
    {
      Tuples(slots[..slotCount], data[..])
    }

    constructor ()
      ensures Valid() && Contents() == [] && FreeSpace(freeStart, freeEnd) == PAGE_SIZE - HEADER_SIZE
      ensures fresh(slots) && fresh(data)
    {
      slots := new Slot[MAX_SLOTS](_ => Slot(0, 0));
      data := new byte[PAGE_SIZE](_ => 0);
      slotCount, tupleCount, freeStart, freeEnd := 0, 0, HEADER_SIZE, PAGE_SIZE;
    }

    /** Reads a tuple. */
    method GetTuple(slotId: int) returns (r: Option<bytes>)
      requires Valid()
      ensures r == if 0 <= slotId < slotCount then Contents()[slotId] else None
    {
      if slotId < 0 || slotId >= slotCount {
        return None;
      }
      if slots[slotId].length == 0 {
        return None;
      }
      var len, off := slots[slotId].length, slots[slotId].offset;
      assert slots[..slotCount][slotId] == slots[slotId];
      r := Some(data[off..off + len]);
    }

    /** Deletes a tuple; its slot stays. */
    method DeleteTuple(slotId: int) returns (ok: bool)
      requires Valid()
      modifies this`tupleCount, slots
      ensures Valid() && ok == (0 <= slotId < slotCount && old(Contents())[slotId] != None)
      ensures Contents() == if ok then old(Contents())[slotId := None] else old(Contents())
      ensures slots[..slotCount] == if ok then old(slots[..slotCount])[slotId := Slot(old(slots[slotId].offset), 0)] else old(slots[..slotCount])
    {
      if slotId < 0 || slotId >= slotCount {
        return false;
      }
      ghost var before := slots[..slotCount];
      assert before[slotId] == slots[slotId];
      if slots[slotId].length == 0 {
        return false;
      }
      ShortenOk(before, freeEnd, slotId, 0);
      CountChange(before, slotId, Slot(before[slotId].offset, 0));
      slots[slotId] := slots[slotId].(length := 0);
      assert slots[..slotCount] == before[slotId := Slot(before[slotId].offset, 0)];
      tupleCount := tupleCount - 1;
      ok := true;
    }

    // ---------- Compaction ----------

    /** Counts the live tuples and their bytes. */
    method Measure() returns (activeCount: nat, totalData: nat)
      requires slotCount <= slots.Length
      ensures activeCount == LiveCount(slots[..slotCount]) && totalData == LiveTotal(slots[..slotCount])
    {
      ghost var s := slots[..slotCount];
      activeCount, totalData := 0, 0;
      var i := 0;
      while i < slotCount
        invariant 0 <= i <= slotCount && activeCount == LiveCount(s[..i]) && totalData == LiveTotal(s[..i])
      {
        TotalStep(s, i);
        if slots[i].length > 0 {
          activeCount := activeCount + 1;
          totalData := totalData + slots[i].length;
        }
        i := i + 1;
      }
      assert s[..slotCount] == s;
    }

    /** Copies the live tuples to a buffer and notes where each went. */
    method Collect(temp: array<byte>, newOffsets: array<nat>, slotMap: array<nat>) returns (idx: nat)
      requires slotCount <= slots.Length && data.Length == PAGE_SIZE && Within(slots[..slotCount], 0)
      requires temp.Length == LiveTotal(slots[..slotCount]) && temp != data
      requires newOffsets.Length == slotMap.Length == LiveCount(slots[..slotCount]) && newOffsets != slotMap
      modifies temp, newOffsets, slotMap
      ensures idx == LiveCount(slots[..slotCount]) && temp[..] == Packed(slots[..slotCount], data[..])
      ensures Collected(slots[..slotCount], newOffsets[..], slotMap[..], idx)
    {
      hide LiveCount, LiveTotal, Packed, Collected;
      ghost var s, d := slots[..slotCount], data[..];
      assert s[..slotCount] == s && s[..0] == [];
      assert Collected(s, newOffsets[..], slotMap[..], 0) by {
        NothingNoted(s, newOffsets[..], slotMap[..]);
      }
      var cur: nat, i: nat := 0, 0;
      idx := 0;
      Nothing(d);
      while i < slotCount
        invariant 0 <= i <= slotCount && cur == TotalTo(s, i) <= temp.Length
        invariant temp[..cur] == Packed(s[..i], d)
        invariant idx == CountTo(s, i) && Collected(s, newOffsets[..], slotMap[..], idx)
      {
        TotalStep(s, i);
        TotalMonotone(s, i + 1, slotCount);
        PackedStep(s, d, i);
        if slots[i].length > 0 {
          PutBytes(temp, cur, data[slots[i].offset..slots[i].offset + slots[i].length]);
          ghost var offs, map0 := newOffsets[..], slotMap[..];
          newOffsets[idx] := cur;
          slotMap[idx] := i;
          Noted(s, i, offs, map0, idx);
          assert newOffsets[..] == offs[idx := cur] && slotMap[..] == map0[idx := i];
          cur := cur + slots[i].length;
          idx := idx + 1;
        }
        i := i + 1;
      }
    }

    lemma Noted(s: seq<Slot>, i: nat, newOffsets: seq<nat>, slotMap: seq<nat>, idx: nat)
      requires i < |s| && Live(s[i]) && idx == CountTo(s, i) && idx < |newOffsets| && idx < |slotMap|
      requires Collected(s, newOffsets, slotMap, idx)
      ensures Collected(s, newOffsets[idx := TotalTo(s, i)], slotMap[idx := i], idx + 1)
    {
      hide CountTo, TotalTo;
      var offs, map0 := newOffsets[idx := TotalTo(s, i)], slotMap[idx := i];
      forall j: nat | j < idx + 1
        ensures NotedAt(s, offs, map0, j)
      {
        assert j < idx ==> NotedAt(s, newOffsets, slotMap, j);
      }
    }

    lemma NothingNoted(s: seq<Slot>, newOffsets: seq<nat>, slotMap: seq<nat>)
      ensures Collected(s, newOffsets, slotMap, 0)
    {
    }

    lemma Nothing(d: bytes)
      requires |d| == PAGE_SIZE
      ensures LiveCount([]) == 0 && LiveTotal([]) == 0 && Packed([], d) == []
    {
    }

    /** Gives every live slot its new offset. */
    method Relocate(newOffsets: array<nat>, slotMap: array<nat>, idx: nat, ghost s: seq<Slot>)
      requires slotCount <= slots.Length && slots[..slotCount] == s && idx == CountTo(s, |s|)
      requires idx <= newOffsets.Length && idx <= slotMap.Length && Collected(s, newOffsets[..], slotMap[..], idx)
      modifies slots
      ensures slots[..slotCount] == Moved(s, freeEnd)
    {
      hide Collected, Moved, CountTo;
      var j := 0;
      NonePlaced(s, freeEnd);
      while j < idx
        invariant 0 <= j <= idx && slots[..slotCount] == Placed(s, freeEnd, j)
      {
        IsNoted(s, newOffsets[..], slotMap[..], idx, j);
        PlaceNext(s, freeEnd, newOffsets[..], slotMap[..], idx, j);
        var si := slotMap[j];
        slots[si] := slots[si].(offset := freeEnd + newOffsets[j]);
        j := j + 1;
      }
      AllPlaced(s, freeEnd);
    }

    /** Packs the live tuples at the end of the page, if any slot is dead. */
    method Compact()
      requires Valid()
      modifies this`freeEnd, this`freeStart, slots, data
      ensures Valid() && Contents() == old(Contents())
      ensures freeEnd == CompactedEnd(old(slots[..slotCount]), old(freeEnd)) >= old(freeEnd) && freeStart == old(freeStart)
      ensures LiveCount(slots[..slotCount]) == old(LiveCount(slots[..slotCount]))
      ensures LiveTotal(slots[..slotCount]) == old(LiveTotal(slots[..slotCount]))
    {
      hide LiveCount, LiveTotal, Moved, Packed, CountTo, Collected;
      hide Apart, Tuples;
      ghost var s, d := slots[..slotCount], data[..];
      var activeCount, totalData := Measure();
      if activeCount == slotCount {
        return;
      }
      TotalFits(s, freeEnd);
      var temp := new byte[totalData](_ => 0);
      var newOffsets := new nat[activeCount](_ => 0);
      var slotMap := new nat[activeCount](_ => 0);
      var idx := Collect(temp, newOffsets, slotMap);
      freeEnd := PAGE_SIZE - totalData;
      PutBack(temp);
      CountAll(s);
      Relocate(newOffsets, slotMap, idx, s);
      freeStart := HEADER_SIZE + SLOT_SIZE * slotCount;
      MovedOk(s, freeEnd);
      MovedTotals(s, freeEnd);
      MovedTuples(s, d, freeEnd, data[..]);
    }

    lemma CountAll(s: seq<Slot>)
      ensures CountTo(s, |s|) == LiveCount(s)
    {
      assert s[..|s|] == s;
    }

    /** Copies the buffer to the end of the page. */
    method PutBack(temp: array<byte>)
      requires data.Length == PAGE_SIZE && freeEnd + temp.Length == PAGE_SIZE && temp != data
      modifies data
      ensures data[freeEnd..freeEnd + temp.Length] == temp[..] && data[..freeEnd] == old(data[..freeEnd])
    {
      forall i | 0 <= i < temp.Length {
        data[freeEnd + i] := temp[i];
      }
    }

    // ---------- Inserting and updating ----------

    /** Stores a tuple in a new slot, compacting when the free space does not suffice. */
    method InsertTuple(tuple: bytes) returns (r: Option<nat>)
      requires Valid()
      modifies this, slots, data
      ensures Valid()
      ensures r.Some? <==> |tuple| > 0 && old(slotCount) < MAX_SLOTS && Fits(|tuple|, old(slots[..slotCount]), old(freeStart), old(freeEnd))
      ensures old(freeStart) == 64 + 8 * |old(Contents())|
      ensures r.Some? <==> |tuple| > 0 && |old(Contents())| < 256 &&
                           (old(freeStart) + |tuple| <= old(freeEnd) ||
                            (None in old(Contents()) && old(freeStart) + StoredBytes(old(Contents())) + |tuple| <= 4096))
      ensures r.Some? ==> r.value == old(slotCount) && Contents() == old(Contents()) + [Some(tuple)]
      ensures r.None? ==> Contents() == old(Contents()) && freeEnd >= old(freeEnd)
      ensures r.Some? ==> var direct := |tuple| <= FreeSpace(old(freeStart), old(freeEnd));
                          freeEnd == (if direct then old(freeEnd) else CompactedEnd(old(slots[..slotCount]), old(freeEnd))) - |tuple|
    {
      hide LiveCount, LiveTotal, Tuples, Within, Apart, StoredBytes;
      FitsExactly(|tuple|, slots[..slotCount], data[..], freeStart, freeEnd);
      if |tuple| <= 0 {
        return None;
      }
      if slotCount >= MAX_SLOTS {
        return None;
      }
      if |tuple| > FreeSpace(freeStart, freeEnd) {
        Compact();
        if |tuple| > FreeSpace(freeStart, freeEnd) {
          return None;
        }
      }
      r := Some(slotCount);
      Place(tuple);
    }

    /** Puts the tuple just below the others. */
    method Place(tuple: bytes)
      requires Valid() && 0 < |tuple| <= FreeSpace(freeStart, freeEnd) && slotCount < MAX_SLOTS
      modifies this, slots, data
      ensures Valid() && Contents() == old(Contents()) + [Some(tuple)] && slotCount == old(slotCount) + 1
      ensures freeEnd == old(freeEnd) - |tuple|
    {
      hide LiveCount, Apart, Within, TupleAt;
      ghost var s, d := slots[..slotCount], data[..];
      AppendOk(s, freeEnd, |tuple|);
      var slotIdx := slotCount;
      freeEnd := freeEnd - |tuple|;
      slots[slotIdx] := Slot(freeEnd, |tuple|);
      WriteAt(freeEnd, tuple);
      slotCount := slotCount + 1;
      tupleCount := tupleCount + 1;
      freeStart := HEADER_SIZE + SLOT_SIZE * slotCount;
      assert slots[..slotCount] == s + [Slot(freeEnd, |tuple|)];
      OthersKept(s, d, data[..], freeEnd, freeEnd + |tuple|);
      NewTuple(Slot(freeEnd, |tuple|), data[..]);
    }

    /** Writes bytes into the page. */
    method WriteAt(offset: nat, src: bytes)
      requires data.Length == PAGE_SIZE && offset + |src| <= PAGE_SIZE
      modifies data
      ensures data[..offset] == old(data[..offset]) && data[offset..offset + |src|] == src
      ensures data[offset + |src|..] == old(data[offset + |src|..])
    {
      forall i | 0 <= i < |src| {
        data[offset + i] := src[i];
      }
    }

    lemma NewTuple(s: Slot, d: bytes)
      requires s.offset + s.length <= |d| && Live(s)
      ensures TupleAt(s, d) == Some(d[s.offset..s.offset + s.length])
    {
    }

    lemma OthersKept(s: seq<Slot>, d: bytes, d': bytes, a: nat, b: nat)
      requires |d| == |d'| == PAGE_SIZE && a <= b <= PAGE_SIZE && d'[..a] == d[..a] && d'[b..] == d[b..] && Within(s, b)
      ensures Tuples(s, d') == Tuples(s, d)
    {
      forall i | 0 <= i < |s|
        ensures TupleAt(s[i], d') == TupleAt(s[i], d)
      {
        TupleKept(s[i], d, d', a, b);
      }
    }

    /** Writes a tuple over a live one that is at least as long. */
    method Overwrite(slotId: nat, tuple: bytes)
      requires Valid() && slotId < slotCount && 0 < |tuple| <= slots[slotId].length
      modifies slots, data
      ensures Valid() && Contents() == old(Contents())[slotId := Some(tuple)]
      ensures slots[..slotCount] == old(slots[..slotCount])[slotId := Slot(old(slots[slotId].offset), |tuple|)]
    {
      hide LiveCount, Apart, Within, TupleAt;
      ghost var s, d := slots[..slotCount], data[..];
      ghost var off := s[slotId].offset;
      OneWithin(s, freeEnd, slotId);
      ShortenOk(s, freeEnd, slotId, |tuple|);
      CountChange(s, slotId, Slot(off, |tuple|));
      WriteAt(slots[slotId].offset, tuple);
      slots[slotId] := slots[slotId].(length := |tuple|);
      assert slots[..slotCount] == s[slotId := Slot(off, |tuple|)];
      assert d == old(data[..]) && |d| == PAGE_SIZE;
      assert data[..][..off] == data[..off] && data[..][off + |tuple|..] == data[off + |tuple|..];
      assert d[..off] == old(data[..off]) && d[off + |tuple|..] == old(data[off + |tuple|..]);
      NeighboursKept(s, d, data[..], freeEnd, slotId, |tuple|);
      NewTuple(Slot(off, |tuple|), data[..]);
    }

    lemma OneWithin(s: seq<Slot>, freeEnd: nat, k: nat)
      requires Within(s, freeEnd) && k < |s| && Live(s[k])
      ensures s[k].offset + s[k].length <= PAGE_SIZE
    {
    }

    lemma NeighboursKept(s: seq<Slot>, d: bytes, d': bytes, freeEnd: nat, k: nat, n: nat)
      requires |d| == |d'| == PAGE_SIZE && k < |s| && Live(s[k]) && n <= s[k].length && Apart(s) && Within(s, freeEnd)
      requires d'[..s[k].offset] == d[..s[k].offset] && d'[s[k].offset + n..] == d[s[k].offset + n..]
      ensures forall i :: 0 <= i < |s| && i != k ==> TupleAt(s[i], d') == TupleAt(s[i], d)
    {
      forall i | 0 <= i < |s| && i != k
        ensures TupleAt(s[i], d') == TupleAt(s[i], d)
      {
        assert Live(s[i]) ==> if i < k then Disjoint(s[i], s[k]) else Disjoint(s[k], s[i]);
        assert Live(s[i]) ==> s[i].offset + s[i].length <= PAGE_SIZE;
        TupleKept(s[i], d, d', s[k].offset, s[k].offset + n);
      }
    }

    /** Replaces a tuple: in its place if the new one is no longer, else in a new slot after deleting the old one. */
    method UpdateTuple(slotId: int, tuple: bytes) returns (ok: bool)
      requires Valid()
      modifies this, slots, data
      ensures Valid()
      ensures var before := old(Contents());
              if |tuple| == 0 || !(0 <= slotId < |before|) || before[slotId] == None then !ok && Contents() == before
              else if |tuple| <= |before[slotId].value| then
                && ok && Contents() == before[slotId := Some(tuple)]
                && slotCount == old(slotCount) && freeStart == old(freeStart) && freeEnd == old(freeEnd)
                && slots[..slotCount] == old(slots[..slotCount])[slotId := Slot(old(slots[slotId].offset), |tuple|)]
              else
                var cleared := old(slots[..slotCount])[slotId := Slot(old(slots[slotId].offset), 0)];
                && ok == (old(slotCount) < MAX_SLOTS && Fits(|tuple|, cleared, old(freeStart), old(freeEnd)))
                && Contents() == before[slotId := None] + if ok then [Some(tuple)] else []
    {
      hide LiveCount, LiveTotal, Apart;
      if |tuple| <= 0 {
        return false;
      }
      if slotId < 0 || slotId >= slotCount {
        return false;
      }
      ghost var s := slots[..slotCount];
      assert s[slotId] == slots[slotId];
      if slots[slotId].length == 0 {
        return false;
      }
      if |tuple| <= slots[slotId].length {
        Overwrite(slotId, tuple);
        ok := true;
      } else {
        ok := DeleteTuple(slotId);
        var r := InsertTuple(tuple);
        ok := r.Some?;
      }
    }
  }

  /** A new page whose only tuple is one byte long: replacing it by one of more than 4024 bytes fails and loses it. */
  method GrowingUpdateLosesTuple(small: byte, large: bytes) returns (page: SlottedPage, updated: bool)
    requires |large| > 1
    ensures page.Valid() && (updated <==> |large| <= PAGE_SIZE - HEADER_SIZE - SLOT_SIZE)
    ensures page.Contents() == [None] + if updated then [Some(large)] else []
  {
    page := new SlottedPage();
    var id := page.InsertTuple([small]);
    NoneLive([Slot(page.slots[0].offset, 0)]);
    ghost var cleared := page.slots[..1][0 := Slot(page.slots[0].offset, 0)];
    assert cleared == [Slot(page.slots[0].offset, 0)];
    updated := page.UpdateTuple(0, large);
  }

  /** A new page whose only tuple fills it but for `room` bytes and is then cut down to one byte: as no slot is dead,
      a tuple that needs more than the room is refused, although all but one byte of the page is unused. */
  method ShrunkSpaceLost(large: bytes, small: byte, tuple: bytes, ghost room: nat) returns (page: SlottedPage, id: Option<nat>)
    requires |large| > 0 && |large| + room == PAGE_SIZE - HEADER_SIZE - SLOT_SIZE && |tuple| > room
    ensures page.Valid() && page.Contents() == [Some([small])] && id == None
  {
    page := new SlottedPage();
    var first := page.InsertTuple(large);
    var ok := page.UpdateTuple(0, [small]);
    OneLive(page.slots[..1]);
    id := page.InsertTuple(tuple);
  }

  lemma OneLive(s: seq<Slot>)
    requires |s| == 1 && Live(s[0])
    ensures LiveCount(s) == 1
  {
  }

  lemma NoneLive(s: seq<Slot>)
    requires |s| == 1 && !Live(s[0])
    ensures LiveCount(s) == 0 && LiveTotal(s) == 0
  {
  }

  /** Whether a tuple finds room, directly or after compaction. */
  predicate Fits(n: nat, slots: seq<Slot>, freeStart: nat, freeEnd: nat) {
    n <= FreeSpace(freeStart, freeEnd) || n <= CompactedEnd(slots, freeEnd) - freeStart
  }

  /** The bytes of all tuples together. */
  function StoredBytes(ts: seq<Option<bytes>>): nat {
    if ts == [] then 0
    else StoredBytes(ts[..|ts| - 1]) + if ts[|ts| - 1].Some? then |ts[|ts| - 1].value| else 0
  }

  lemma {:induction false} TotalIsStored(slots: seq<Slot>, data: bytes)
    requires Within(slots, 0) && |data| == PAGE_SIZE
    ensures StoredBytes(Tuples(slots, data)) == LiveTotal(slots)
    ensures LiveCount(slots) == |slots| <==> None !in Tuples(slots, data)
  {
    var ts := Tuples(slots, data);
    if slots != [] {
      var n := |slots| - 1;
      TotalIsStored(slots[..n], data);
      assert ts[..n] == Tuples(slots[..n], data);
      assert ts == ts[..n] + [ts[n]];
    }
  }

  /** A tuple fits if it is no longer than the gap or if, once a slot is dead, the page is large enough for all tuples. */
  lemma FitsExactly(n: nat, slots: seq<Slot>, data: bytes, freeStart: nat, freeEnd: nat)
    requires Within(slots, freeEnd) && |data| == PAGE_SIZE
    ensures Fits(n, slots, freeStart, freeEnd) <==>
            freeStart + n <= freeEnd || (None in Tuples(slots, data) && freeStart + StoredBytes(Tuples(slots, data)) + n <= 4096)
  {
    hide LiveCount, LiveTotal, StoredBytes, Tuples;
    TotalIsStored(slots, data);
  }

  /** The slots when the first `j` live ones have their new offsets. */
  function Placed(slots: seq<Slot>, base: nat, j: nat): (placed: seq<Slot>)
    ensures |placed| == |slots|
  {
    seq(|slots|, i requires 0 <= i < |slots| =>
      if Live(slots[i]) && CountTo(slots, i) < j then Slot(base + TotalTo(slots, i), slots[i].length) else slots[i])
  }

  lemma NonePlaced(s: seq<Slot>, base: nat)
    ensures Placed(s, base, 0) == s
  {
  }

  lemma CountsDiffer(s: seq<Slot>, i: nat, k: nat)
    requires i < k < |s| && Live(s[i])
    ensures CountTo(s, i) < CountTo(s, k)
  {
    TotalStep(s, i);
    TotalMonotone(s, i + 1, k);
  }

  lemma IsNoted(s: seq<Slot>, newOffsets: seq<nat>, slotMap: seq<nat>, idx: nat, j: nat)
    requires Collected(s, newOffsets, slotMap, idx) && j < idx
    ensures j < |newOffsets| && j < |slotMap| && NotedAt(s, newOffsets, slotMap, j)
  {
  }

  lemma PlaceNext(s: seq<Slot>, base: nat, newOffsets: seq<nat>, slotMap: seq<nat>, idx: nat, j: nat)
    requires j < idx <= |newOffsets| && idx <= |slotMap| && NotedAt(s, newOffsets, slotMap, j)
    ensures slotMap[j] < |s| && Placed(s, base, j)[slotMap[j]] == s[slotMap[j]]
    ensures Placed(s, base, j + 1) == Placed(s, base, j)[slotMap[j] := Slot(base + newOffsets[j], s[slotMap[j]].length)]
  {
    hide CountTo, TotalTo;
    var si := slotMap[j];
    forall i | 0 <= i < |s| && i != si && Live(s[i])
      ensures CountTo(s, i) != j
    {
      CountsDiffer(s, if i < si then i else si, if i < si then si else i);
    }
  }

  lemma AllPlaced(s: seq<Slot>, base: nat)
    ensures Placed(s, base, CountTo(s, |s|)) == Moved(s, base)
  {
    forall i | 0 <= i < |s| && Live(s[i])
      ensures CountTo(s, i) < CountTo(s, |s|)
    {
      TotalStep(s, i);
      TotalMonotone(s, i + 1, |s|);
    }
  }
}
