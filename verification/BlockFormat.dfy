/** The SSTable data block: prefix-delta entries with restart points, and what its bytes decode to. */
module BlockFormat {
  import opened Bytes
  import opened Options

  const BLOCK_SIZE := 4096
  const MAX_KEY_SIZE := 256
  const MAX_VALUE_SIZE := 1024
  const RESTART_INTERVAL := 16

  datatype Entry = Entry(key: bytes, value: bytes)

  predicate WithinLimits(e: Entry) {
    |e.key| <= MAX_KEY_SIZE && |e.value| <= MAX_VALUE_SIZE
  }

  predicate Ascending(es: seq<Entry>) {
    forall i, j :: 0 <= i < j < |es| ==> Less(es[i].key, es[j].key)
  }

  predicate AllWithin(es: seq<Entry>) {
    forall i :: 0 <= i < |es| ==> WithinLimits(es[i])
  }

  /** The value stored under a key. */
  function Lookup(es: seq<Entry>, key: bytes): Option<bytes> {
    if es == [] then None
    else if es[0].key == key then Some(es[0].value)
    else Lookup(es[1..], key)
  }

  lemma {:induction false} LookupFinds(es: seq<Entry>, i: nat)
    requires Ascending(es) && i < |es|
    ensures Lookup(es, es[i].key) == Some(es[i].value)
  {
    if i > 0 {
      LessIrreflexive(es[i].key);
      assert Less(es[0].key, es[i].key);
      LookupFinds(es[1..], i - 1);
    }
  }

  lemma {:induction false} LookupMisses(es: seq<Entry>, key: bytes)
    requires forall i :: 0 <= i < |es| ==> es[i].key != key
    ensures Lookup(es, key) == None
  {
    if es != [] {
      LookupMisses(es[1..], key);
    }
  }

  // ---------- Encoding ----------

  /** How many leading bytes entry `i` shares with its predecessor: none at a restart point. */
  function SharedOf(es: seq<Entry>, i: nat): (n: nat)
    requires i < |es|
    ensures n <= |es[i].key|
    ensures n > 0 ==> i > 0 && n <= |es[i - 1].key| && es[i].key[..n] == es[i - 1].key[..n]
  {
    if i % RESTART_INTERVAL == 0 then 0 else CommonPrefix(es[i - 1].key, es[i].key)
  }

  function EncodedEntry(shared: nat, e: Entry): (b: bytes)
    requires WithinLimits(e) && shared <= |e.key|
    ensures |b| == 12 + |e.key| - shared + |e.value|
  {
    Put32(shared) + Put32(|e.key| - shared) + Put32(|e.value|) + e.key[shared..] + e.value
  }

  /** The bytes of a block that holds `es`. */
  function BlockData(es: seq<Entry>): bytes
    requires AllWithin(es)
  {
    if es == [] then []
    else
      var i := |es| - 1;
      BlockData(es[..i]) + EncodedEntry(SharedOf(es, i), es[i])
  }

  /** Where entry `i` starts. */
  function Offset(es: seq<Entry>, i: nat): nat
    requires AllWithin(es) && i <= |es|
  {
    |BlockData(es[..i])|
  }

  function RestartCount(n: nat): nat {
    (n + RESTART_INTERVAL - 1) / RESTART_INTERVAL
  }

  /** Restart point `r` is entry `r * RESTART_INTERVAL`. */
  function Restarts(es: seq<Entry>): (offsets: seq<nat>)
    requires AllWithin(es)
    ensures |offsets| == RestartCount(|es|)
  {
    seq(RestartCount(|es|), r requires 0 <= r < RestartCount(|es|) => Offset(es, r * RESTART_INTERVAL))
  }

  datatype DataBlock = DataBlock(numEntries: nat, data: bytes, restartOffsets: seq<nat>)

  /** The block that serializing `es` produces. */
  predicate IsBlockOf(b: DataBlock, es: seq<Entry>) {
    AllWithin(es) && b == DataBlock(|es|, BlockData(es), Restarts(es))
  }

  // ---------- Decoding ----------

  lemma SharedOfPrefix(es: seq<Entry>, n: nat, i: nat)
    requires i < |es| && n <= |es|
    ensures i < n ==> SharedOf(es[..n], i) == SharedOf(es, i)
  {
  }

  /** The bytes of entry `i` lie between its offset and the next one. */
  lemma {:induction false} EntryBytes(es: seq<Entry>, i: nat)
    requires AllWithin(es) && i < |es|
    ensures Offset(es, i) + 12 <= Offset(es, i + 1) <= |BlockData(es)|
    ensures BlockData(es)[Offset(es, i)..Offset(es, i + 1)] == EncodedEntry(SharedOf(es, i), es[i])
  {
    hide EncodedEntry, SharedOf;
    var n := |es| - 1;
    var init := es[..n];
    SharedOfPrefix(es, n, i);
    assert es[..i + 1][..i] == es[..i] && es[..i + 1][i] == es[i];
    if i < n {
      EntryBytes(init, i);
      assert init[..i] == es[..i] && init[..i + 1] == es[..i + 1];
    } else {
      assert es[..i + 1] == es;
    }
  }

  lemma OffsetEnds(es: seq<Entry>)
    requires AllWithin(es)
    ensures Offset(es, 0) == 0 && Offset(es, |es|) == |BlockData(es)|
  {
    assert es[..|es|] == es && es[..0] == [];
  }

  lemma {:induction false} OffsetMonotone(es: seq<Entry>, i: nat, j: nat)
    requires AllWithin(es) && i <= j <= |es|
    ensures Offset(es, i) + 12 * (j - i) <= Offset(es, j)
  {
    hide BlockData, EncodedEntry, SharedOf;
    if i < j {
      OffsetMonotone(es, i, j - 1);
      EntryBytes(es, j - 1);
    }
  }

  /** What a reader finds at `pos`: the three lengths, the unshared key bytes and the value. */
  predicate FieldsAt(data: bytes, pos: nat, shared: nat, e: Entry) {
    && shared <= |e.key| && pos + 12 + |e.key| - shared + |e.value| <= |data|
    && Get32At(data, pos) == shared
    && Get32At(data, pos + 4) == |e.key| - shared
    && Get32At(data, pos + 8) == |e.value|
    && data[pos + 12..pos + 12 + |e.key| - shared] == e.key[shared..]
    && data[pos + 12 + |e.key| - shared..pos + 12 + |e.key| - shared + |e.value|] == e.value
  }

  lemma EntryFields(es: seq<Entry>, i: nat)
    requires AllWithin(es) && i < |es|
    ensures FieldsAt(BlockData(es), Offset(es, i), SharedOf(es, i), es[i])
    ensures Offset(es, i + 1) == Offset(es, i) + 12 + |es[i].key| - SharedOf(es, i) + |es[i].value| <= |BlockData(es)|
  {
    hide BlockData, Get32, EncodedEntry, SharedOf, FieldsAt;
    var data, pos, shared := BlockData(es), Offset(es, i), SharedOf(es, i);
    EntryBytes(es, i);
    EncodedFields(data, pos, shared, es[i]);
  }

  lemma EncodedFields(data: bytes, pos: nat, shared: nat, e: Entry)
    requires WithinLimits(e) && shared <= |e.key| && pos + |EncodedEntry(shared, e)| <= |data|
    requires data[pos..pos + |EncodedEntry(shared, e)|] == EncodedEntry(shared, e)
    ensures FieldsAt(data, pos, shared, e)
  {
    hide Put32, Get32;
    var nonShared, vlen := |e.key| - shared, |e.value|;
    var enc := EncodedEntry(shared, e);
    Word32RoundTrip(shared);
    Word32RoundTrip(nonShared);
    Word32RoundTrip(vlen);
    SubSlice(data, pos, enc, 0, 4);
    SubSlice(data, pos, enc, 4, 8);
    SubSlice(data, pos, enc, 8, 12);
    SubSlice(data, pos, enc, 12, 12 + nonShared);
    SubSlice(data, pos, enc, 12 + nonShared, 12 + nonShared + vlen);
    assert enc[0..4] == Put32(shared) && enc[4..8] == Put32(nonShared) && enc[8..12] == Put32(vlen);
    assert enc[12..12 + nonShared] == e.key[shared..];
    assert enc[12 + nonShared..12 + nonShared + vlen] == e.value;
  }

  /** A reader that knows the previous key gets the entry's key back. */
  lemma KeyRebuilt(es: seq<Entry>, i: nat, prev: bytes)
    requires AllWithin(es) && i < |es|
    requires i % RESTART_INTERVAL != 0 ==> |prev| >= |es[i - 1].key| && prev[..|es[i - 1].key|] == es[i - 1].key
    ensures SharedOf(es, i) <= |prev| && prev[..SharedOf(es, i)] + es[i].key[SharedOf(es, i)..] == es[i].key
  {
    var n := SharedOf(es, i);
    if n > 0 {
      assert prev[..n] == prev[..|es[i - 1].key|][..n];
    }
    assert es[i].key == es[i].key[..n] + es[i].key[n..];
  }

  /** What decoding at `pos` with the previous key at hand yields: the entry's key and value, and the next
      position; a whole key uses nothing of the previous one. */
  predicate Decodes(data: bytes, pos: nat, prev: bytes, e: Entry, next: nat, whole: bool) {
    && pos + 12 <= |data|
    && var shared, nonShared, vlen := Get32At(data, pos), Get32At(data, pos + 4), Get32At(data, pos + 8);
    && shared <= |prev| && pos + 12 + nonShared + vlen <= |data|
    && prev[..shared] + data[pos + 12..pos + 12 + nonShared] == e.key
    && data[pos + 12 + nonShared..pos + 12 + nonShared + vlen] == e.value
    && pos + 12 + nonShared + vlen == next && (whole ==> shared == 0)
  }

  lemma FieldsDecode(data: bytes, pos: nat, shared: nat, e: Entry, prev: bytes)
    requires FieldsAt(data, pos, shared, e) && shared <= |prev| && prev[..shared] + e.key[shared..] == e.key
    ensures Decodes(data, pos, prev, e, pos + 12 + |e.key| - shared + |e.value|, shared == 0)
  {
    hide Get32;
  }

  /** Decoding at the start of entry `i` with the previous key at hand yields the entry and the next start. */
  lemma DecodeStep(es: seq<Entry>, i: nat, prev: bytes)
    requires AllWithin(es) && i < |es|
    requires i % RESTART_INTERVAL != 0 ==> |prev| >= |es[i - 1].key| && prev[..|es[i - 1].key|] == es[i - 1].key
    ensures Decodes(BlockData(es), Offset(es, i), prev, es[i], Offset(es, i + 1), i % RESTART_INTERVAL == 0)
  {
    hide BlockData, FieldsAt, Decodes, SharedOf;
    EntryFields(es, i);
    KeyRebuilt(es, i, prev);
    SharedAtRestart(es, i);
    var shared := SharedOf(es, i);
    FieldsDecode(BlockData(es), Offset(es, i), shared, es[i], prev);
    Weaken(BlockData(es), Offset(es, i), prev, es[i], Offset(es, i + 1), shared == 0, i % RESTART_INTERVAL == 0);
  }

  lemma Weaken(data: bytes, pos: nat, prev: bytes, e: Entry, next: nat, whole: bool, claimed: bool)
    requires Decodes(data, pos, prev, e, next, whole) && (claimed ==> whole)
    ensures Decodes(data, pos, prev, e, next, claimed)
  {
  }

  /** The single facts of a decoding. */
  lemma DecodedFields(data: bytes, pos: nat, prev: bytes, e: Entry, next: nat, whole: bool)
    requires Decodes(data, pos, prev, e, next, whole)
    ensures pos + 12 <= |data|
    ensures var shared, nonShared, vlen := Get32At(data, pos), Get32At(data, pos + 4), Get32At(data, pos + 8);
            && shared <= |prev| && pos + 12 + nonShared + vlen == next <= |data| && (whole ==> shared == 0)
            && prev[..shared] + data[pos + 12..pos + 12 + nonShared] == e.key
            && data[pos + 12 + nonShared..next] == e.value
  {
  }

  lemma SharedAtRestart(es: seq<Entry>, i: nat)
    requires i < |es|
    ensures i % RESTART_INTERVAL == 0 ==> SharedOf(es, i) == 0
  {
  }

  /** A restart point stores its whole key. */
  lemma RestartIsWhole(es: seq<Entry>, r: nat)
    requires AllWithin(es) && r < RestartCount(|es|)
    ensures r * RESTART_INTERVAL < |es| && SharedOf(es, r * RESTART_INTERVAL) == 0
    ensures Restarts(es)[r] == Offset(es, r * RESTART_INTERVAL)
  {
  }
}
