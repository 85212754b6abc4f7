/** Sorted string tables: writing blocks, index and Bloom filter, and point lookup. */
module SSTable {
  import opened Bytes
  import opened BlockFormat
  import opened Options

  const SEED1 := 0x9747B28C
  const SEED2 := 0xE17A1465
  const SEED3 := 0x9AE16A3B
  const BITS_PER_KEY := 10

  /** The Bloom hash of a key under a seed; nothing is assumed about it. */
  type BloomHash = (bytes, nat) -> nat

  datatype Table = Table(lastKeys: seq<bytes>, blocks: seq<DataBlock>, bloom: seq<bool>)

  // ---------- Bloom filter ----------

  function BloomBits(numKeys: nat): (n: nat)
    ensures n >= 64 && n % 8 == 0 && 10 * numKeys <= n && (n == 64 || n < 10 * numKeys + 8)
  {
    var wanted := if numKeys * BITS_PER_KEY < 64 then 64 else numKeys * BITS_PER_KEY;
    (wanted + 7) / 8 * 8
  }

  /** All three bits of the key are set. */
  predicate BloomMaybeContain(bits: seq<bool>, hash: BloomHash, key: bytes)
    requires |bits| > 0
  {
    && bits[hash(key, SEED1) % |bits|]
    && bits[hash(key, SEED2) % |bits|]
    && bits[hash(key, SEED3) % |bits|]
  }

  /** The key sets the bit. */
  predicate IsBitOf(i: nat, n: nat, hash: BloomHash, key: bytes)
    requires n > 0
  {
    i == hash(key, SEED1) % n || i == hash(key, SEED2) % n || i == hash(key, SEED3) % n
  }

  /** The bits are those of the entries' keys and no others. */
  ghost predicate FilterOf(bits: seq<bool>, hash: BloomHash, es: seq<Entry>) {
    |bits| > 0 && forall i :: 0 <= i < |bits| ==> (bits[i] <==> exists k :: 0 <= k < |es| && IsBitOf(i, |bits|, hash, es[k].key))
  }

  lemma FilterStep(before: seq<bool>, after: seq<bool>, hash: BloomHash, es: seq<Entry>, e: Entry)
    requires FilterOf(before, hash, es) && |after| == |before|
    requires forall i :: 0 <= i < |after| ==> (after[i] <==> before[i] || IsBitOf(i, |after|, hash, e.key))
    ensures FilterOf(after, hash, es + [e])
  {
    hide IsBitOf;
    forall i | 0 <= i < |after|
      ensures after[i] <==> exists k :: 0 <= k < |es + [e]| && IsBitOf(i, |after|, hash, (es + [e])[k].key)
    {
      if k :| 0 <= k < |es| && IsBitOf(i, |after|, hash, es[k].key) {
        assert (es + [e])[k] == es[k];
      }
      assert (es + [e])[|es|] == e;
    }
  }

  lemma EmptyFilter(bits: seq<bool>, hash: BloomHash)
    requires |bits| > 0 && forall i :: 0 <= i < |bits| ==> !bits[i]
    ensures FilterOf(bits, hash, [])
  {
  }

  method BloomAdd(bits: array<bool>, hash: BloomHash, key: bytes)
    requires bits.Length > 0
    modifies bits
    ensures BloomMaybeContain(bits[..], hash, key)
    ensures forall i :: 0 <= i < bits.Length ==> (bits[i] <==> old(bits[i]) || IsBitOf(i, bits.Length, hash, key))
    ensures forall k :: old(BloomMaybeContain(bits[..], hash, k)) ==> BloomMaybeContain(bits[..], hash, k)
  {
    bits[hash(key, SEED1) % bits.Length] := true;
    bits[hash(key, SEED2) % bits.Length] := true;
    bits[hash(key, SEED3) % bits.Length] := true;
  }

  // ---------- Writing a block ----------

  lemma BlockDataStep(es: seq<Entry>, i: nat)
    requires AllWithin(es) && i < |es|
    ensures AllWithin(es[..i]) && AllWithin(es[..i + 1])
    ensures BlockData(es[..i + 1]) == BlockData(es[..i]) + EncodedEntry(SharedOf(es, i), es[i])
  {
    var p := es[..i + 1];
    assert p[..|p| - 1] == es[..i] && p[i] == es[i];
    SharedOfPrefix(es, i + 1, i);
  }

  /** Three words appended to the buffer. */
  method PutWords(buf: array<byte>, offset0: nat, x: nat, y: nat, z: nat) returns (offset: nat)
    requires x < WORD && y < WORD && z < WORD && offset0 + 12 <= buf.Length
    modifies buf
    ensures offset == offset0 + 12
    ensures buf[..offset] == old(buf[..offset0]) + (Put32(x) + Put32(y) + Put32(z))
  {
    hide Put32;
    PutBytes(buf, offset0, Put32(x));
    PutBytes(buf, offset0 + 4, Put32(y));
    PutBytes(buf, offset0 + 8, Put32(z));
    offset := offset0 + 12;
  }

  /** Entry `i`'s bytes appended to the buffer, field by field. */
  method PutEntry(buf: array<byte>, offset0: nat, shared: nat, e: Entry) returns (offset: nat)
    requires WithinLimits(e) && shared <= |e.key| && offset0 + |EncodedEntry(shared, e)| <= buf.Length
    modifies buf
    ensures offset == offset0 + |EncodedEntry(shared, e)|
    ensures buf[..offset] == old(buf[..offset0]) + EncodedEntry(shared, e)
  {
    hide Put32;
    var nonShared := |e.key| - shared;
    offset := PutWords(buf, offset0, shared, nonShared, |e.value|);
    PutBytes(buf, offset, e.key[shared..]);
    offset := offset + nonShared;
    PutBytes(buf, offset, e.value);
    offset := offset + |e.value|;
  }

  /** The length of the prefix two keys share, by comparing byte after byte. */
  method SharedLength(prev: bytes, key: bytes) returns (shared: nat)
    ensures shared == CommonPrefix(prev, key)
  {
    shared := 0;
    while shared < |prev| && shared < |key| && prev[shared] == key[shared]
      invariant shared <= |prev| && shared <= |key| && prev[..shared] == key[..shared]
    {
      shared := shared + 1;
    }
    PrefixUnique(prev, key, shared);
  }

  lemma {:induction false} PrefixUnique(a: bytes, b: bytes, n: nat)
    requires n <= |a| && n <= |b| && a[..n] == b[..n] && (n < |a| && n < |b| ==> a[n] != b[n])
    ensures n == CommonPrefix(a, b)
  {
    if n > 0 {
      assert a[1..][..n - 1] == a[..n][1..] == b[..n][1..] == b[1..][..n - 1];
      assert a[0] == a[..n][0] == b[..n][0] == b[0];
      PrefixUnique(a[1..], b[1..], n - 1);
    }
  }

  /** Writes the entries and records the restart offsets. */
  method SerializeDataBlock(es: seq<Entry>, buf: array<byte>, restartOffsets: array<nat>)
    returns (dataLen: nat, numRestarts: nat)
    requires AllWithin(es) && |BlockData(es)| <= buf.Length && RestartCount(|es|) <= restartOffsets.Length
    modifies buf, restartOffsets
    ensures dataLen == |BlockData(es)| && buf[..dataLen] == BlockData(es)
    ensures numRestarts == RestartCount(|es|) && restartOffsets[..numRestarts] == Restarts(es)
  {
    hide BlockData, EncodedEntry, AllWithin;
    dataLen, numRestarts := 0, 0;
    OffsetEnds(es);
    WithinPrefix(es, 0);
    var i := 0;
    while i < |es|
      invariant 0 <= i <= |es| && numRestarts == RestartCount(i) && AllWithin(es[..i])
      invariant dataLen <= buf.Length
      invariant dataLen == Offset(es, i) && buf[..dataLen] == BlockData(es[..i])
      invariant forall r :: 0 <= r < numRestarts ==> restartOffsets[r] == Offset(es, r * RESTART_INTERVAL)
    {
      RestartsCounted(i, |es|);
      if i % RESTART_INTERVAL == 0 {
        restartOffsets[numRestarts] := dataLen;
        numRestarts := numRestarts + 1;
      }
      var shared := 0;
      if i % RESTART_INTERVAL != 0 {
        shared := SharedLength(es[i - 1].key, es[i].key);
      }
      OffsetMonotone(es, i + 1, |es|);
      BlockDataStep(es, i);
      LimitOf(es, i);
      dataLen := PutEntry(buf, dataLen, shared, es[i]);
      i := i + 1;
    }
    assert es[..|es|] == es;
  }

  lemma RestartsCounted(i: nat, n: nat)
    requires i < n
    ensures RestartCount(i + 1) == RestartCount(i) + (if i % RESTART_INTERVAL == 0 then 1 else 0)
    ensures RestartCount(i + 1) <= RestartCount(n)
    ensures i % RESTART_INTERVAL == 0 ==> i == RestartCount(i) * RESTART_INTERVAL
  {
  }

  lemma WithinPrefix(es: seq<Entry>, i: nat)
    requires AllWithin(es) && i <= |es|
    ensures AllWithin(es[..i])
  {
  }

  lemma LimitOf(es: seq<Entry>, i: nat)
    requires AllWithin(es) && i < |es|
    ensures WithinLimits(es[i])
  {
  }

  // ---------- Writing a table ----------

  /** Block `b` holds entries starts[b] .. starts[b + 1], the index names its last key, and it fits its buffer. */
  ghost predicate HoldsBlock(t: Table, es: seq<Entry>, starts: seq<nat>, b: nat) {
    && b + 1 < |starts| && starts[b] < starts[b + 1] <= |es| && b < |t.blocks| && b < |t.lastKeys|
    && IsBlockOf(t.blocks[b], es[starts[b]..starts[b + 1]])
    && t.lastKeys[b] == es[starts[b + 1] - 1].key
    && |t.blocks[b].data| <= BLOCK_SIZE
  }

  /** The blocks cover the entries in order, without gap or overlap. */
  ghost predicate Partition(t: Table, es: seq<Entry>, starts: seq<nat>) {
    && |t.blocks| == |t.lastKeys| && |starts| == |t.blocks| + 1
    && starts[0] == 0 && starts[|t.blocks|] <= |es|
    && forall b {:trigger HoldsBlock(t, es, starts, b)} :: 0 <= b < |t.blocks| ==> HoldsBlock(t, es, starts, b)
  }

  /** The table that writing `es` produces. */
  ghost predicate IsTableOf(t: Table, es: seq<Entry>, starts: seq<nat>, hash: BloomHash) {
    && Partition(t, es, starts) && starts[|t.blocks|] == |es| && |t.bloom| > 0
    && forall i :: 0 <= i < |es| ==> BloomMaybeContain(t.bloom, hash, es[i].key)
  }

  function EntrySize(e: Entry): nat {
    |e.key| + |e.value| + 16
  }

  /** The estimated size of a block that holds the entries. */
  function Estimate(es: seq<Entry>): nat {
    if es == [] then 0 else Estimate(es[..|es| - 1]) + |es[|es| - 1].key| + |es[|es| - 1].value| + 16
  }

  lemma EstimateStep(es: seq<Entry>, a: nat, b: nat)
    requires a <= b < |es|
    ensures Estimate(es[a..a]) == 0
    ensures Estimate(es[a..b + 1]) == Estimate(es[a..b]) + EntrySize(es[b])
  {
    assert es[a..b + 1][..b - a] == es[a..b];
  }

  /** Takes entries while their estimated size stays below three quarters of a block, and at least one. */
  method TakeBlock(es: seq<Entry>, start: nat) returns (end: nat)
    requires AllWithin(es) && start < |es|
    ensures start < end <= |es| && AllWithin(es[start..end]) && |BlockData(es[start..end])| <= BLOCK_SIZE
    ensures RestartCount(end - start) <= BLOCK_SIZE
    ensures end == start + 1 || Estimate(es[start..end]) < 3072
    ensures end == |es| || Estimate(es[start..end + 1]) >= 3072
  {
    hide Estimate, BlockData, AllWithin, WithinLimits;
    end := start;
    var estSize := 0;
    NothingTaken(es, start);
    EstimateStep(es, start, start);
    while end < |es| && estSize + EntrySize(es[end]) < BLOCK_SIZE * 3 / 4
      invariant start <= end <= |es| && AllWithin(es[start..end])
      invariant |BlockData(es[start..end])| <= estSize && 16 * (end - start) <= estSize
      invariant estSize <= BLOCK_SIZE && (end == start ==> estSize == 0)
      invariant estSize == Estimate(es[start..end]) && (end > start ==> estSize < 3072)
    {
      EstimateStep(es, start, end);
      TakeOne(es, start, end);
      estSize := estSize + EntrySize(es[end]);
      end := end + 1;
    }
    if end == start {
      OneFits(es, start);
      end := start + 1;
    }
    if end < |es| {
      EstimateStep(es, start, end);
    }
  }

  lemma OneFits(es: seq<Entry>, start: nat)
    requires AllWithin(es) && start < |es|
    ensures AllWithin(es[start..start + 1]) && |BlockData(es[start..start + 1])| <= BLOCK_SIZE
  {
    NothingTaken(es, start);
    TakeOne(es, start, start);
  }

  lemma NothingTaken(es: seq<Entry>, start: nat)
    requires start <= |es|
    ensures AllWithin(es[start..start]) && |BlockData(es[start..start])| == 0
  {
  }

  lemma WithinPart(es: seq<Entry>, a: nat, b: nat)
    requires AllWithin(es) && a <= b <= |es|
    ensures AllWithin(es[a..b])
  {
  }

  lemma TakeOne(es: seq<Entry>, start: nat, end: nat)
    requires AllWithin(es) && start <= end < |es| && AllWithin(es[start..end])
    ensures AllWithin(es[start..end + 1]) && WithinLimits(es[end])
    ensures |BlockData(es[start..end + 1])| <= |BlockData(es[start..end])| + EntrySize(es[end])
  {
    hide BlockData, SharedOf, AllWithin;
    var part := es[start..end + 1];
    WithinPart(es, start, end + 1);
    LimitOf(es, end);
    BlockDataStep(part, end - start);
    assert part[..end - start] == es[start..end] && part[..|part|] == part;
  }

  /** Writes the table: partition into blocks, index entry and Bloom bits for each. */
  method SstableWrite(es: seq<Entry>, hash: BloomHash) returns (t: Table, ghost starts: seq<nat>)
    requires Ascending(es) && AllWithin(es)
    ensures IsTableOf(t, es, starts, hash)
    ensures |t.bloom| == BloomBits(|es|) && FilterOf(t.bloom, hash, es)
  {
    hide BlockData, AllWithin, HoldsBlock, BloomMaybeContain, FilterOf;
    var blocks: seq<DataBlock>, lastKeys: seq<bytes> := [], [];
    starts := [0];
    var bits := new bool[BloomBits(|es|)](_ => false);
    var buf := new byte[BLOCK_SIZE](_ => 0);
    var restartOffsets := new nat[BLOCK_SIZE](_ => 0);
    var entryIdx := 0;
    EmptyFilter(bits[..], hash);
    assert es[..0] == [] && es[..|es|] == es;
    while entryIdx < |es|
      invariant 0 <= entryIdx <= |es| && bits.Length > 0
      invariant Partition(Table(lastKeys, blocks, []), es, starts) && starts[|blocks|] == entryIdx
      invariant forall i :: 0 <= i < entryIdx ==> BloomMaybeContain(bits[..], hash, es[i].key)
      invariant FilterOf(bits[..], hash, es[..entryIdx])
    {
      var start := entryIdx;
      entryIdx := TakeBlock(es, start);
      var part := es[start..entryIdx];
      var dataLen, numRestarts := SerializeDataBlock(part, buf, restartOffsets);
      var block := DataBlock(entryIdx - start, buf[..dataLen], restartOffsets[..numRestarts]);
      var lastKey := es[entryIdx - 1].key;
      BlockAdded(Table(lastKeys, blocks, []), es, starts, block, entryIdx);
      blocks, lastKeys, starts := blocks + [block], lastKeys + [lastKey], starts + [entryIdx];
      AddKeys(es, start, entryIdx, bits, hash);
    }
    t := Table(lastKeys, blocks, bits[..]);
    SameBlocks(Table(lastKeys, blocks, []), t, es, starts);
  }

  method AddKeys(es: seq<Entry>, start: nat, end: nat, bits: array<bool>, hash: BloomHash)
    requires start <= end <= |es| && bits.Length > 0
    requires forall i :: 0 <= i < start ==> BloomMaybeContain(bits[..], hash, es[i].key)
    requires FilterOf(bits[..], hash, es[..start])
    modifies bits
    ensures forall i :: 0 <= i < end ==> BloomMaybeContain(bits[..], hash, es[i].key)
    ensures FilterOf(bits[..], hash, es[..end])
  {
    hide BloomMaybeContain, FilterOf, IsBitOf;
    var k := start;
    while k < end
      invariant start <= k <= end
      invariant forall i :: 0 <= i < k ==> BloomMaybeContain(bits[..], hash, es[i].key)
      invariant FilterOf(bits[..], hash, es[..k])
    {
      ghost var before := bits[..];
      BloomAdd(bits, hash, es[k].key);
      FilterStep(before, bits[..], hash, es[..k], es[k]);
      assert es[..k] + [es[k]] == es[..k + 1];
      k := k + 1;
    }
  }

  lemma BlockAdded(t: Table, es: seq<Entry>, starts: seq<nat>, block: DataBlock, end: nat)
    requires Partition(t, es, starts) && starts[|t.blocks|] < end <= |es|
    requires IsBlockOf(block, es[starts[|t.blocks|]..end]) && |block.data| <= BLOCK_SIZE
    ensures Partition(t.(blocks := t.blocks + [block], lastKeys := t.lastKeys + [es[end - 1].key]), es, starts + [end])
  {
    hide IsBlockOf;
    var t' := t.(blocks := t.blocks + [block], lastKeys := t.lastKeys + [es[end - 1].key]);
    forall b | 0 <= b < |t'.blocks|
      ensures HoldsBlock(t', es, starts + [end], b)
    {
      assert b < |t.blocks| ==> HoldsBlock(t, es, starts, b);
    }
  }

  lemma SameBlocks(t: Table, t': Table, es: seq<Entry>, starts: seq<nat>)
    requires Partition(t, es, starts) && t'.blocks == t.blocks && t'.lastKeys == t.lastKeys
    ensures Partition(t', es, starts)
  {
    forall b | 0 <= b < |t'.blocks|
      ensures HoldsBlock(t', es, starts, b)
    {
      assert HoldsBlock(t, es, starts, b);
    }
  }

  // ---------- Searching a block ----------

  /** The key that a reader finds at restart point `r`. */
  lemma RestartKey(b: DataBlock, es: seq<Entry>, r: nat)
    requires IsBlockOf(b, es) && r < |b.restartOffsets|
    ensures r * RESTART_INTERVAL < |es| && b.restartOffsets[r] + 12 <= |b.data|
    ensures var off, key := b.restartOffsets[r], es[r * RESTART_INTERVAL].key;
            off + 12 + |key| <= |b.data| && Get32At(b.data, off + 4) == |key| && b.data[off + 12..off + 12 + |key|] == key
  {
    RestartIsWhole(es, r);
    EntryFields(es, r * RESTART_INTERVAL);
  }

  /** The last restart point whose key is at most the target, or the first one. */
  method LastRestartAtMost(block: DataBlock, target: bytes, ghost es: seq<Entry>) returns (lo: nat)
    requires IsBlockOf(block, es) && Ascending(es) && |block.restartOffsets| > 0
    ensures lo < |block.restartOffsets|
    ensures forall i :: 0 <= i < |es| && es[i].key == target ==>
                          lo * RESTART_INTERVAL <= i && (lo + 1 < |block.restartOffsets| ==> i < (lo + 1) * RESTART_INTERVAL)
  {
    hide IsBlockOf, Get32;
    var hi := |block.restartOffsets| - 1;
    lo := 0;
    while lo < hi
      invariant 0 <= lo <= hi < |block.restartOffsets|
      invariant forall i :: 0 <= i < |es| && es[i].key == target ==> lo * RESTART_INTERVAL <= i
      invariant hi + 1 < |block.restartOffsets| ==>
                  forall i :: 0 <= i < |es| && es[i].key == target ==> i < (hi + 1) * RESTART_INTERVAL
    {
      var mid := lo + (hi - lo + 1) / 2;
      RestartKey(block, es, mid);
      var off := block.restartOffsets[mid];
      var rkey := block.data[off + 12..off + 12 + Get32At(block.data, off + 4)];
      var cmp := KeyCompare(rkey, target);
      Around(es, mid * RESTART_INTERVAL, target);
      if cmp <= 0 {
        lo := mid;
      } else {
        hi := mid - 1;
      }
    }
  }

  /** In an ascending list a key lies on the side of entry `p` that the comparison says. */
  lemma Around(es: seq<Entry>, p: nat, target: bytes)
    requires Ascending(es) && p < |es|
    ensures KeyCompare(es[p].key, target) <= 0 ==> forall i :: 0 <= i < |es| && es[i].key == target ==> p <= i
    ensures KeyCompare(es[p].key, target) > 0 ==> forall i :: 0 <= i < |es| && es[i].key == target ==> i < p
    ensures KeyCompare(es[p].key, target) == 0 ==> forall i :: 0 <= i < |es| && es[i].key == target ==> i == p
  {
    KeyCompareIsOrder(es[p].key, target);
    forall i | 0 <= i < |es| && es[i].key == target
      ensures KeyCompare(es[p].key, target) <= 0 ==> p <= i
      ensures KeyCompare(es[p].key, target) > 0 ==> i < p
      ensures KeyCompare(es[p].key, target) == 0 ==> i == p
    {
      KeyCompareIsOrder(es[i].key, es[p].key);
      assert i < p ==> Less(es[i].key, es[p].key);
      assert p < i ==> Less(es[p].key, es[i].key);
      LessIrreflexive(target);
    }
  }

  /** Finds the value stored under the target key in a block. */
  method BlockSearch(block: DataBlock, target: bytes, ghost es: seq<Entry>) returns (r: Option<bytes>)
    requires IsBlockOf(block, es) && Ascending(es)
    ensures r == Lookup(es, target)
  {
    hide IsBlockOf, Get32, BlockData, Ascending, Offset, AllWithin, Decodes;
    var numR := |block.restartOffsets|;
    BlockShape(block, es);
    if numR == 0 {
      return None;
    }
    var lo := LastRestartAtMost(block, target, es);
    ghost var first := lo * RESTART_INTERVAL;
    ghost var end := if lo + 1 < numR then (lo + 1) * RESTART_INTERVAL else |es|;
    var startOff := block.restartOffsets[lo];
    var endOff := if lo + 1 < numR then block.restartOffsets[lo + 1] else |block.data|;
    ghost var i := first;
    var pos := startOff;
    var prevKey: bytes := [];
    while pos < endOff
      invariant first <= i <= end && pos == Offset(es, i)
      invariant i % RESTART_INTERVAL != 0 ==> prevKey == es[i - 1].key
      invariant forall j :: first <= j < i ==> es[j].key != target
      decreases end - i
    {
      BeforeEnd(es, i, end);
      DecodeStep(es, i, prevKey);
      DecodedFields(block.data, pos, prevKey, es[i], Offset(es, i + 1), i % RESTART_INTERVAL == 0);
      var shared, nonshared, vlen := Get32At(block.data, pos), Get32At(block.data, pos + 4), Get32At(block.data, pos + 8);
      pos := pos + 12;
      var curKey := prevKey[..shared] + block.data[pos..pos + nonshared];
      pos := pos + nonshared;
      if curKey == target {
        LookupFinds(es, i);
        return Some(block.data[pos..pos + vlen]);
      }
      prevKey := curKey;
      pos := pos + vlen;
      i := i + 1;
    }
    AtEnd(es, i, end);
    LookupMisses(es, target);
    r := None;
  }

  /** The block's fields in terms of the entries it holds. */
  lemma BlockShape(b: DataBlock, es: seq<Entry>)
    requires IsBlockOf(b, es)
    ensures AllWithin(es) && b.data == BlockData(es) && |b.restartOffsets| == RestartCount(|es|)
    ensures Offset(es, |es|) == |b.data| && (|b.restartOffsets| == 0 ==> es == [])
    ensures forall r :: 0 <= r < |b.restartOffsets| ==>
                          r * RESTART_INTERVAL < |es| && b.restartOffsets[r] == Offset(es, r * RESTART_INTERVAL)
  {
    hide BlockData, AllWithin, Offset;
    OffsetEnds(es);
  }

  lemma BeforeEnd(es: seq<Entry>, i: nat, end: nat)
    requires AllWithin(es) && i <= end <= |es| && Offset(es, i) < Offset(es, end)
    ensures i < end
  {
  }

  lemma AtEnd(es: seq<Entry>, i: nat, end: nat)
    requires AllWithin(es) && i <= end <= |es| && Offset(es, i) >= Offset(es, end)
    ensures i == end
  {
    OffsetMonotone(es, i, end);
  }

  // ---------- Point lookup ----------

  /** Point lookup agrees with the sorted list, for present and absent keys alike. */
  method SstableGet(t: Table, key: bytes, hash: BloomHash, ghost es: seq<Entry>, ghost starts: seq<nat>) returns (r: Option<bytes>)
    requires Ascending(es) && IsTableOf(t, es, starts, hash)
    ensures r == Lookup(es, key)
  {
    hide HoldsBlock, Ascending, BloomMaybeContain;
    if !BloomMaybeContain(t.bloom, hash, key) {
      LookupMisses(es, key);
      return None;
    }
    if |t.lastKeys| == 0 {
      return None;
    }
    var lo, hi := 0, |t.lastKeys|;
    while lo < hi
      invariant 0 <= lo <= hi <= |t.lastKeys|
      invariant forall i :: 0 <= i < |es| && es[i].key == key ==> starts[lo] <= i
      invariant hi < |t.lastKeys| ==> forall i :: 0 <= i < |es| && es[i].key == key ==> i < starts[hi + 1]
    {
      var mid := lo + (hi - lo) / 2;
      LastKeyOf(t, es, starts, mid);
      Around(es, starts[mid + 1] - 1, key);
      KeyCompareIsOrder(key, t.lastKeys[mid]);
      KeyCompareIsOrder(t.lastKeys[mid], key);
      if KeyCompare(key, t.lastKeys[mid]) > 0 {
        LessIrreflexive(key);
        lo := mid + 1;
      } else {
        hi := mid;
      }
    }
    if lo >= |t.lastKeys| {
      LookupMisses(es, key);
      lo := |t.lastKeys| - 1;
    }
    LastKeyOf(t, es, starts, lo);
    BlockEntries(t, es, starts, lo);
    r := BlockSearch(t.blocks[lo], key, es[starts[lo]..starts[lo + 1]]);
    BlockLookup(es, starts[lo], starts[lo + 1], key);
  }

  lemma LastKeyOf(t: Table, es: seq<Entry>, starts: seq<nat>, b: nat)
    requires Partition(t, es, starts) && b < |t.blocks|
    ensures starts[b] < starts[b + 1] <= |es| && t.lastKeys[b] == es[starts[b + 1] - 1].key
  {
    assert HoldsBlock(t, es, starts, b);
  }

  lemma BlockEntries(t: Table, es: seq<Entry>, starts: seq<nat>, b: nat)
    requires Partition(t, es, starts) && b < |t.blocks| && Ascending(es)
    ensures starts[b] < starts[b + 1] <= |es| && IsBlockOf(t.blocks[b], es[starts[b]..starts[b + 1]])
    ensures Ascending(es[starts[b]..starts[b + 1]])
  {
    assert HoldsBlock(t, es, starts, b);
  }

  /** Looking in the one stretch that can hold the key is looking in the whole list. */
  lemma BlockLookup(es: seq<Entry>, a: nat, b: nat, key: bytes)
    requires a <= b <= |es| && Ascending(es)
    requires forall i :: 0 <= i < |es| && es[i].key == key ==> a <= i < b
    ensures Lookup(es[a..b], key) == Lookup(es, key)
  {
    if i :| 0 <= i < |es| && es[i].key == key {
      LookupFinds(es, i);
      assert es[a..b][i - a] == es[i];
      LookupFinds(es[a..b], i - a);
    } else {
      LookupMisses(es, key);
      LookupMisses(es[a..b], key);
    }
  }
}
