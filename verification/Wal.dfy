/** The write-ahead log file: appending records, and replaying a file that was cut anywhere. */
module WalFile {
  import opened Bytes

  const PAYLOAD_LIMIT := 2048
  const WAL_KEY_LIMIT := 255
  const WAL_VALUE_LIMIT := 1023

  type word = x: int | 0 <= x < WORD

  /** The checksum of a payload; nothing is assumed about it. */
  type Checksum = bytes -> word

  datatype Record = Record(kind: byte, key: bytes, value: bytes)

  // ---------- The format ----------

  function PayloadLength(r: Record): nat {
    9 + |r.key| + |r.value|
  }

  /** The record fits the payload buffers of writer and reader. */
  predicate Storable(r: Record) {
    PayloadLength(r) <= PAYLOAD_LIMIT
  }

  function Payload(r: Record): (p: bytes)
    requires Storable(r)
    ensures |p| == PayloadLength(r)
  {
    [r.kind] + Put32(|r.key|) + Put32(|r.value|) + r.key + r.value
  }

  function RecordBytes(r: Record, crc: Checksum): (b: bytes)
    requires Storable(r)
    ensures |b| == 8 + PayloadLength(r)
  {
    Put32(crc(Payload(r))) + Put32(PayloadLength(r)) + Payload(r)
  }

  predicate AllStorable(rs: seq<Record>) {
    forall i :: 0 <= i < |rs| ==> Storable(rs[i])
  }

  /** The file after the records were appended. */
  function LogBytes(rs: seq<Record>, crc: Checksum): bytes
    requires AllStorable(rs)
  {
    if rs == [] then [] else RecordBytes(rs[0], crc) + LogBytes(rs[1..], crc)
  }

  lemma PayloadDigits(r: Record, crc: Checksum)
    requires Storable(r)
    ensures Payload(r) == [r.kind] + Digits(|r.key|, 4) + Digits(|r.value|, 4) + r.key + r.value
    ensures Put32(crc(Payload(r))) == Digits(crc(Payload(r)), 4)
    ensures Put32(PayloadLength(r)) == Digits(9 + |r.key| + |r.value|, 4)
  {
    hide Put32, Digits;
    Word32Digits(|r.key|);
    Word32Digits(|r.value|);
    Word32Digits(crc(Payload(r)));
    Word32Digits(PayloadLength(r));
  }

  // ---------- Replaying ----------

  /** `ReadsUnwritten` marks a payload that is too short for the fields it announces. */
  datatype Outcome = Replayed(records: seq<Record>) | ReadsUnwritten(records: seq<Record>)

  function Prepend(r: Record, o: Outcome): Outcome {
    match o
    case Replayed(rs) => Replayed([r] + rs)
    case ReadsUnwritten(rs) => ReadsUnwritten([r] + rs)
  }

  /** A step of recovery: the record at an offset, or why there is none. */
  datatype Parsed = End | TooShort | One(record: Record, next: nat)

  function ParseAt(file: bytes, offset: nat, crc: Checksum): (p: Parsed)
    ensures p.One? ==> offset < p.next <= |file|
  {
    if offset + 8 > |file| then End
    else
      var storedCrc, payloadLen, start := Get32At(file, offset), Get32At(file, offset + 4), offset + 8;
      if start + payloadLen > |file| || payloadLen > PAYLOAD_LIMIT then End
      else
        var payload := file[start..start + payloadLen];
        if crc(payload) != storedCrc then End
        else if payloadLen < 9 then TooShort
        else
          var klen, vlen := Get32At(payload, 1), Get32At(payload, 5);
          if klen > WAL_KEY_LIMIT || vlen > WAL_VALUE_LIMIT then End
          else if 9 + klen + vlen > payloadLen then TooShort
          else One(Record(payload[0], payload[9..9 + klen], payload[9 + klen..9 + klen + vlen]), start + payloadLen)
  }

  /** What recovery replays from an offset on. */
  function Replay(file: bytes, offset: nat, crc: Checksum): Outcome
    decreases |file| - offset
  {
    match ParseAt(file, offset, crc)
    case End => Replayed([])
    case TooShort => ReadsUnwritten([])
    case One(r, next) => Prepend(r, Replay(file, next, crc))
  }

  // ---------- Crash cuts ----------

  /** The reader accepts the record's lengths. */
  predicate Readable(r: Record) {
    |r.key| <= WAL_KEY_LIMIT && |r.value| <= WAL_VALUE_LIMIT
  }

  /** The records that lie wholly in the first `n` bytes of the log, up to the first one the reader rejects. */
  function Surviving(rs: seq<Record>, n: int): seq<Record> {
    if rs == [] || 8 + PayloadLength(rs[0]) > n || !Readable(rs[0]) then []
    else [rs[0]] + Surviving(rs[1..], n - 8 - PayloadLength(rs[0]))
  }

  /** How many bytes the first `k` records take. */
  function BytesOf(rs: seq<Record>, k: nat): nat
    requires k <= |rs|
  {
    if k == 0 then 0 else 8 + PayloadLength(rs[0]) + BytesOf(rs[1..], k - 1)
  }

  lemma {:induction false} LogLength(rs: seq<Record>, crc: Checksum)
    requires AllStorable(rs)
    ensures |LogBytes(rs, crc)| == BytesOf(rs, |rs|)
  {
    if rs != [] {
      LogLength(rs[1..], crc);
    }
  }

  /** The survivors are the longest prefix of the log whose records are all readable and whose bytes are all there. */
  lemma {:induction false} SurvivorsArePrefix(rs: seq<Record>, n: nat)
    ensures var k := |Surviving(rs, n)|;
            && k <= |rs| && Surviving(rs, n) == rs[..k] && BytesOf(rs, k) <= n
            && (forall i :: 0 <= i < k ==> Readable(rs[i]))
            && (k < |rs| && Readable(rs[k]) ==> BytesOf(rs, k + 1) > n)
  {
    if !(rs == [] || 8 + PayloadLength(rs[0]) > n || !Readable(rs[0])) {
      SurvivorsArePrefix(rs[1..], n - 8 - PayloadLength(rs[0]));
    }
  }

  /** The two header words of a record whose first eight bytes are there. */
  lemma HeaderAt(file: bytes, offset: nat, r: Record, crc: Checksum)
    requires Storable(r) && offset + 8 <= |file| && file[offset..offset + 8] == RecordBytes(r, crc)[..8]
    ensures Get32At(file, offset) == crc(Payload(r)) && Get32At(file, offset + 4) == PayloadLength(r)
  {
    hide Put32, Get32, Payload;
    var head := RecordBytes(r, crc)[..8];
    assert head[0..4] == Put32(crc(Payload(r))) && head[4..8] == Put32(PayloadLength(r));
    SubSlice(file, offset, head, 0, 4);
    SubSlice(file, offset, head, 4, 8);
    Word32RoundTrip(crc(Payload(r)));
    Word32RoundTrip(PayloadLength(r));
  }

  /** The fields of a payload. */
  lemma PayloadFields(r: Record)
    requires Storable(r)
    ensures var p := Payload(r);
            && p[0] == r.kind && Get32At(p, 1) == |r.key| && Get32At(p, 5) == |r.value|
            && p[9..9 + |r.key|] == r.key && p[9 + |r.key|..9 + |r.key| + |r.value|] == r.value
  {
    hide Put32, Get32;
    var p := Payload(r);
    assert p[1..5] == Put32(|r.key|) && p[5..9] == Put32(|r.value|);
    Word32RoundTrip(|r.key|);
    Word32RoundTrip(|r.value|);
  }

  /** A record that is all there is parsed back, unless its lengths are rejected. */
  lemma ParseWhole(file: bytes, offset: nat, r: Record, crc: Checksum)
    requires Storable(r) && offset + |RecordBytes(r, crc)| <= |file|
    requires file[offset..offset + |RecordBytes(r, crc)|] == RecordBytes(r, crc)
    ensures ParseAt(file, offset, crc) == if Readable(r) then One(r, offset + 8 + PayloadLength(r)) else End
  {
    hide Put32, Get32, Payload;
    var b := RecordBytes(r, crc);
    SubSlice(file, offset, b, 0, 8);
    HeaderAt(file, offset, r, crc);
    SubSlice(file, offset, b, 8, |b|);
    assert b[8..] == Payload(r);
    PayloadFields(r);
  }

  /** A log cut at any byte replays exactly the surviving records and then stops. */
  lemma {:induction false} CutReplays(rs: seq<Record>, file: bytes, offset: nat, crc: Checksum)
    requires AllStorable(rs) && offset <= |file| && |file| - offset <= |LogBytes(rs, crc)|
    requires file[offset..] == LogBytes(rs, crc)[..|file| - offset]
    ensures Replay(file, offset, crc) == Replayed(Surviving(rs, |file| - offset))
  {
    hide ParseAt, Replay, RecordBytes, LogBytes;
    var m := |file| - offset;
    ReplayStep(file, offset, crc);
    LogStep(rs, crc);
    if rs == [] || m < 8 + PayloadLength(rs[0]) {
      TornEnds(rs, file, offset, crc);
    } else {
      var b, rest := RecordBytes(rs[0], crc), LogBytes(rs[1..], crc);
      CutSplits(file[offset..], b, rest);
      assert file[offset..offset + |b|] == file[offset..][..|b|] && file[offset + |b|..] == file[offset..][|b|..];
      ParseWhole(file, offset, rs[0], crc);
      if Readable(rs[0]) {
        CutReplays(rs[1..], file, offset + |b|, crc);
      }
    }
  }

  lemma LogStep(rs: seq<Record>, crc: Checksum)
    requires AllStorable(rs)
    ensures if rs == [] then LogBytes(rs, crc) == [] else LogBytes(rs, crc) == RecordBytes(rs[0], crc) + LogBytes(rs[1..], crc)
  {
  }

  lemma CutSplits(cut: bytes, b: bytes, rest: bytes)
    requires |b| <= |cut| <= |b| + |rest| && cut == (b + rest)[..|cut|]
    ensures cut[..|b|] == b && cut[|b|..] == rest[..|cut| - |b|]
  {
  }

  /** Nothing is parsed where the log ends or its next record is torn. */
  lemma TornEnds(rs: seq<Record>, file: bytes, offset: nat, crc: Checksum)
    requires AllStorable(rs) && offset <= |file| && |file| - offset <= |LogBytes(rs, crc)|
    requires file[offset..] == LogBytes(rs, crc)[..|file| - offset]
    requires rs == [] || |file| - offset < 8 + PayloadLength(rs[0])
    ensures ParseAt(file, offset, crc) == End
  {
    hide Get32, Payload, Put32;
    if rs != [] && |file| - offset >= 8 {
      var b := RecordBytes(rs[0], crc);
      assert file[offset..offset + 8] == file[offset..][..8] == b[..8];
      HeaderAt(file, offset, rs[0], crc);
    }
  }

  /** The same for the whole file. */
  lemma CrashCut(rs: seq<Record>, n: nat, crc: Checksum)
    requires AllStorable(rs) && n <= |LogBytes(rs, crc)|
    ensures Replay(LogBytes(rs, crc)[..n], 0, crc) == Replayed(Surviving(rs, n))
  {
    var file := LogBytes(rs, crc)[..n];
    assert file[0..] == file;
    CutReplays(rs, file, 0, crc);
  }

  // ---------- Damaged files ----------

  /** Readable records at an offset are all replayed, and no more if nothing can be parsed behind them. */
  lemma {:induction false} LogThenEnd(rs: seq<Record>, file: bytes, offset: nat, crc: Checksum)
    requires AllStorable(rs) && forall i :: 0 <= i < |rs| ==> Readable(rs[i])
    requires offset + |LogBytes(rs, crc)| <= |file| && file[offset..offset + |LogBytes(rs, crc)|] == LogBytes(rs, crc)
    requires ParseAt(file, offset + |LogBytes(rs, crc)|, crc) == End
    ensures Replay(file, offset, crc) == Replayed(rs)
  {
    hide ParseAt, Replay, RecordBytes, LogBytes;
    ReplayStep(file, offset, crc);
    LogStep(rs, crc);
    if rs != [] {
      var b, rest, all := RecordBytes(rs[0], crc), LogBytes(rs[1..], crc), LogBytes(rs, crc);
      SubSlice(file, offset, all, 0, |b|);
      SubSlice(file, offset, all, |b|, |all|);
      assert all[0..|b|] == b && all[|b|..|all|] == rest;
      ParseWhole(file, offset, rs[0], crc);
      LogThenEnd(rs[1..], file, offset + |b|, crc);
    }
  }

  /** A payload behind a word that is not its checksum is not replayed, and nothing behind it: a file of readable records
      that goes on with such a payload, whatever follows, replays exactly those records. */
  lemma DamageEndsReplay(rs: seq<Record>, c: word, p: bytes, rest: bytes, crc: Checksum)
    requires AllStorable(rs) && forall i :: 0 <= i < |rs| ==> Readable(rs[i])
    requires c != crc(p) && |p| <= PAYLOAD_LIMIT
    ensures Replay(LogBytes(rs, crc) + Put32(c) + Put32(|p|) + p + rest, 0, crc) == Replayed(rs)
  {
    hide Put32, Get32, LogBytes, Replay;
    var log, head := LogBytes(rs, crc), Put32(c) + Put32(|p|) + p;
    var file := log + Put32(c) + Put32(|p|) + p + rest;
    var o := |log|;
    assert file == log + head + rest;
    assert file[0..o] == log && file[o..o + |head|] == head;
    assert file[o..o + 4] == Put32(c) && file[o + 4..o + 8] == Put32(|p|) && file[o + 8..o + 8 + |p|] == p;
    Word32RoundTrip(c);
    Word32RoundTrip(|p|);
    LogThenEnd(rs, file, 0, crc);
  }

  /** A payload of at most 2048 bytes stands at byte `o` of the file behind its checksum and its length. */
  ghost predicate PayloadAt(file: bytes, o: nat, p: bytes, crc: Checksum) {
    && |p| <= 2048 && o + 8 + |p| <= |file|
    && file[o..o + 8 + |p|] == Put32(crc(p)) + Put32(|p|) + p
  }

  /** What becomes of such a payload is decided by its length and by the lengths it announces. */
  lemma StandingIsParsed(file: bytes, o: nat, p: bytes, crc: Checksum)
    requires PayloadAt(file, o, p, crc)
    ensures |p| < 9 ==> ParseAt(file, o, crc) == TooShort
    ensures |p| >= 9 ==>
              var k, v := Get32At(p, 1), Get32At(p, 5);
              ParseAt(file, o, crc) ==
              if k > 255 || v > 1023 then End
              else if 9 + k + v > |p| then TooShort
              else One(Record(p[0], p[9..9 + k], p[9 + k..9 + k + v]), o + 8 + |p|)
  {
    hide Put32, Get32;
    var all := Put32(crc(p)) + Put32(|p|) + p;
    SubSlice(file, o, all, 0, 4);
    SubSlice(file, o, all, 4, 8);
    SubSlice(file, o, all, 8, 8 + |p|);
    assert all[0..4] == Put32(crc(p)) && all[4..8] == Put32(|p|) && all[8..8 + |p|] == p;
    Word32RoundTrip(crc(p));
    Word32RoundTrip(|p|);
  }

  /** Where no such payload stands the replay ends. */
  lemma NothingStanding(file: bytes, o: nat, crc: Checksum)
    requires forall p :: !PayloadAt(file, o, p, crc)
    ensures ParseAt(file, o, crc) == End && Replay(file, o, crc) == Replayed([])
  {
    hide Put32, Get32, PayloadAt;
    if ParseAt(file, o, crc) != End {
      var n := Get32At(file, o + 4);
      var p := file[o + 8..o + 8 + n];
      assert PayloadAt(file, o, p, crc) by {
        WordAt(file, o);
        WordAt(file, o + 4);
        StandsTogether(file, o, p, crc);
      }
    }
  }

  lemma WordAt(file: bytes, o: nat)
    requires o + 4 <= |file|
    ensures Get32At(file, o) < WORD && Put32(Get32At(file, o)) == file[o..o + 4]
  {
    hide Put32, Get32;
    Bytes32RoundTrip(file[o..o + 4]);
  }

  lemma StandsTogether(file: bytes, o: nat, p: bytes, crc: Checksum)
    requires |p| <= PAYLOAD_LIMIT && o + 8 + |p| <= |file| && file[o + 8..o + 8 + |p|] == p
    requires file[o..o + 4] == Put32(crc(p)) && file[o + 4..o + 8] == Put32(|p|)
    ensures PayloadAt(file, o, p, crc)
  {
    hide Put32;
    assert file[o..o + 8 + |p|] == file[o..o + 4] + file[o + 4..o + 8] + file[o + 8..o + 8 + |p|];
  }

  /** The record stands at byte `o` of the file: its checksum, the length of its payload, its kind, the lengths of key and
      value, key and value. */
  ghost predicate StandsAt(file: bytes, o: nat, r: Record, crc: Checksum) {
    && o + 17 <= |file| && var n := Get32At(file, o + 4);
    && 9 <= n <= PAYLOAD_LIMIT && o + 8 + n <= |file|
    && Get32At(file, o) == crc(file[o + 8..o + 8 + n])
    && |r.key| == Get32At(file, o + 9) && |r.value| == Get32At(file, o + 13) && 9 + |r.key| + |r.value| <= n
    && r.kind == file[o + 8]
    && r.key == file[o + 17..o + 17 + |r.key|] && r.value == file[o + 17 + |r.key|..o + 17 + |r.key| + |r.value|]
  }

  /** On any file, every replayed record stands in it with the checksum of its payload. */
  lemma {:induction false} ReplayedStands(file: bytes, offset: nat, crc: Checksum, i: nat) returns (o: nat)
    requires i < |Replay(file, offset, crc).records|
    ensures o >= offset && StandsAt(file, o, Replay(file, offset, crc).records[i], crc)
    decreases |file| - offset
  {
    hide StandsAt, ParseAt, Replay;
    ReplayStep(file, offset, crc);
    var p := ParseAt(file, offset, crc);
    if i == 0 {
      o := offset;
      ParsedStands(file, offset, crc);
    } else {
      ParsedAhead(file, offset, crc);
      o := ReplayedStands(file, p.next, crc, i - 1);
    }
  }

  lemma ParsedAhead(file: bytes, offset: nat, crc: Checksum)
    ensures var p := ParseAt(file, offset, crc); p.One? ==> offset < p.next <= |file|
  {
  }

  lemma ParsedStands(file: bytes, offset: nat, crc: Checksum)
    requires ParseAt(file, offset, crc).One?
    ensures StandsAt(file, offset, ParseAt(file, offset, crc).record, crc)
  {
    hide Get32;
    var n := Get32At(file, offset + 4);
    var payload := file[offset + 8..offset + 8 + n];
    var klen, vlen := Get32At(payload, 1), Get32At(payload, 5);
    SubSlice(file, offset + 8, payload, 1, 5);
    SubSlice(file, offset + 8, payload, 5, 9);
    SubSlice(file, offset + 8, payload, 9, 9 + klen);
    SubSlice(file, offset + 8, payload, 9 + klen, 9 + klen + vlen);
  }

  /** The uncut log replays as it was appended exactly if the reader accepts the lengths of every record. */
  lemma WholeLogExactly(rs: seq<Record>, crc: Checksum)
    requires AllStorable(rs)
    ensures Replay(LogBytes(rs, crc), 0, crc) == Replayed(rs) <==>
            forall i :: 0 <= i < |rs| ==> |rs[i].key| <= 255 && |rs[i].value| <= 1023
  {
    hide Replay, LogBytes, BytesOf, Surviving, AllStorable;
    var file := LogBytes(rs, crc);
    assert file[..|file|] == file;
    CrashCut(rs, |file|, crc);
    SurvivorsArePrefix(rs, |file|);
    LogLength(rs, crc);
    var k := |Surviving(rs, |file|)|;
    assert rs[..|rs|] == rs;
    if k < |rs| && Readable(rs[k]) {
      BytesMonotone(rs, k + 1);
    }
  }

  lemma {:induction false} BytesMonotone(rs: seq<Record>, k: nat)
    requires k <= |rs|
    ensures BytesOf(rs, k) <= BytesOf(rs, |rs|)
  {
    if k > 0 {
      BytesMonotone(rs[1..], k - 1);
    }
  }

  lemma {:induction false} LogAppend(rs: seq<Record>, r: Record, crc: Checksum)
    requires AllStorable(rs) && Storable(r)
    ensures LogBytes(rs + [r], crc) == LogBytes(rs, crc) + RecordBytes(r, crc)
  {
    if rs == [] {
      assert [r][1..] == [];
    } else {
      LogAppend(rs[1..], r, crc);
      assert (rs + [r])[1..] == rs[1..] + [r];
    }
  }

  // ---------- Writer and reader ----------

  /** Writes the payload field by field. */
  method FillPayload(buf: array<byte>, r: Record)
    requires Storable(r) && buf.Length == PAYLOAD_LIMIT
    modifies buf
    ensures buf[..PayloadLength(r)] == Payload(r)
  {
    hide Put32;
    var pos := 0;
    buf[pos] := r.kind;
    pos := pos + 1;
    assert buf[..1] == [r.kind];
    pos := PutField(buf, pos, Put32(|r.key|));
    pos := PutField(buf, pos, Put32(|r.value|));
    pos := PutField(buf, pos, r.key);
    pos := PutField(buf, pos, r.value);
  }

  method PutField(buf: array<byte>, pos: nat, src: bytes) returns (next: nat)
    requires pos + |src| <= buf.Length
    modifies buf
    ensures next == pos + |src| && buf[..next] == old(buf[..pos]) + src
  {
    PutBytes(buf, pos, src);
    next := pos + |src|;
  }

  class WalWriter {
    const crc: Checksum
    var file: bytes
    var currentOffset: nat
    var recordCount: nat
    ghost var appended: seq<Record>

    ghost predicate Valid()
      reads this
    {
      AllStorable(appended) && file == LogBytes(appended, crc) && currentOffset == |file| && recordCount == |appended|
    }

    /** Opens a new log. */
    constructor (crc: Checksum)
      ensures Valid() && appended == [] && this.crc == crc
    {
      this.crc := crc;
      file, currentOffset, recordCount, appended := [], 0, 0, [];
    }

    /** Appends a record; its payload is put together in a fixed buffer, which longer ones overrun. */
    method Append(r: Record) returns (overrun: bool)
      requires Valid()
      modifies this
      ensures Valid() && (overrun <==> 9 + |r.key| + |r.value| > 2048)
      ensures appended == if overrun then old(appended) else old(appended) + [r]
      ensures |r.key| < WORD && |r.value| < WORD && !overrun ==>
                var p := [r.kind] + Digits(|r.key|, 4) + Digits(|r.value|, 4) + r.key + r.value;
                file == old(file) + Digits(crc(p), 4) + Digits(9 + |r.key| + |r.value|, 4) + p
    {
      hide Put32, LogBytes, Payload, Digits;
      if PayloadLength(r) > PAYLOAD_LIMIT {
        return true;
      }
      overrun := false;
      var payloadLen := 1 + 4 + 4 + |r.key| + |r.value|;
      var buf := new byte[PAYLOAD_LIMIT](_ => 0);
      FillPayload(buf, r);
      PayloadDigits(r, crc);
      file := file + Put32(crc(buf[..payloadLen])) + Put32(payloadLen) + buf[..payloadLen];
      currentOffset := currentOffset + 8 + payloadLen;
      recordCount := recordCount + 1;
      LogAppend(appended, r, crc);
      appended := appended + [r];
    }
  }

  /** Replays a file; offsets are 32-bit and a read past the end of the file stops the replay. */
  method Recover(file: bytes, crc: Checksum) returns (o: Outcome)
    requires |file| < WORD
    ensures o == Replay(file, 0, crc)
  {
    hide Get32, Replay;
    var records: seq<Record>, offset: nat := [], 0;
    while (offset + 8) % WORD <= |file|
      invariant offset <= |file| && Replay(file, 0, crc) == PrependAll(records, Replay(file, offset, crc))
      decreases |file| - offset
    {
      ReplayStep(file, offset, crc);
      PrependAllEnds(records);
      if offset + 8 > |file| {
        return Replayed(records);
      }
      var storedCrc, payloadLen := Get32At(file, offset), Get32At(file, offset + 4);
      var start := (offset + 8) % WORD;
      if (start + payloadLen) % WORD > |file| {
        return Replayed(records);
      }
      if payloadLen > PAYLOAD_LIMIT {
        return Replayed(records);
      }
      if start + payloadLen > |file| {
        return Replayed(records);
      }
      var payload := file[start..start + payloadLen];
      if crc(payload) != storedCrc {
        return Replayed(records);
      }
      if payloadLen < 9 {
        return ReadsUnwritten(records);
      }
      var klen, vlen := Get32At(payload, 1), Get32At(payload, 5);
      if klen > WAL_KEY_LIMIT || vlen > WAL_VALUE_LIMIT {
        return Replayed(records);
      }
      if 9 + klen + vlen > payloadLen {
        return ReadsUnwritten(records);
      }
      var r := Record(payload[0], payload[9..9 + klen], payload[9 + klen..9 + klen + vlen]);
      PrependOneMore(records, r, Replay(file, start + payloadLen, crc));
      records := records + [r];
      offset := start + payloadLen;
    }
    ReplayStep(file, offset, crc);
    PrependAllEnds(records);
    o := Replayed(records);
  }

  function PrependAll(rs: seq<Record>, o: Outcome): Outcome {
    match o
    case Replayed(more) => Replayed(rs + more)
    case ReadsUnwritten(more) => ReadsUnwritten(rs + more)
  }

  lemma PrependAllEnds(rs: seq<Record>)
    ensures PrependAll(rs, Replayed([])) == Replayed(rs) && PrependAll(rs, ReadsUnwritten([])) == ReadsUnwritten(rs)
  {
    assert rs + [] == rs;
  }

  lemma PrependOneMore(rs: seq<Record>, r: Record, o: Outcome)
    ensures PrependAll(rs, Prepend(r, o)) == PrependAll(rs + [r], o)
  {
    assert rs + ([r] + o.records) == rs + [r] + o.records;
  }

  lemma ReplayStep(file: bytes, offset: nat, crc: Checksum)
    ensures Replay(file, offset, crc) == match ParseAt(file, offset, crc)
                                         case End => Replayed([])
                                         case TooShort => ReadsUnwritten([])
                                         case One(r, next) => Prepend(r, Replay(file, next, crc))
  {
  }

  const LONG_KEY: bytes := seq(WAL_KEY_LIMIT + 1, _ => 0)

  /** After a record with a key of 256 bytes nothing is replayed, neither it nor what was appended behind it. */
  method LongKeyEndsReplay(crc: Checksum) returns (writer: WalWriter, o: Outcome)
    ensures writer.Valid() && writer.appended == [Record(1, LONG_KEY, []), Record(1, [1], [2])]
    ensures o == Replayed([])
  {
    hide LogBytes, Replay;
    writer := new WalWriter(crc);
    var overrun := writer.Append(Record(1, LONG_KEY, []));
    overrun := writer.Append(Record(1, [1], [2]));
    ghost var rs := writer.appended;
    LogLength(rs, crc);
    assert BytesOf(rs, 2) == 8 + PayloadLength(rs[0]) + BytesOf(rs[1..], 1);
    assert BytesOf(rs[1..], 1) == 8 + PayloadLength(rs[1]) + BytesOf(rs[1..][1..], 0);
    var file := writer.file;
    assert file[..|file|] == file;
    CrashCut(rs, |file|, crc);
    o := Recover(file, crc);
  }
}
