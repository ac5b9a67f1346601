/** The write-ahead log's record format: length, checksum, payload. */
module WalFormat {
  import opened Core
  import opened BigEndian

  type Word32 = n: nat | n < TWO_32

  /** The CRC-32 of a payload; nothing below depends on which function it is. */
  type Checksum = Bytes -> Word32

  // ---- Encoding ----

  const HEADER_SIZE: nat := 8

  function EncodeRecord(crc: Checksum, data: Bytes): (b: Bytes)
    ensures |b| == HEADER_SIZE + |data|
  {
    U32(|data|) + U32(crc(data)) + data
  }

  /** Length in bytes 0 to 3, checksum in bytes 4 to 7, most significant byte first, then the payload. */
  lemma RecordLayout(crc: Checksum, data: Bytes)
    requires |data| < TWO_32
    ensures var b := EncodeRecord(crc, data);
      && |b| == 8 + |data| && b[8..] == data
      && Uint32At(b, 0) == |data| && Uint32At(b, 4) == crc(data)
  {
    var b := EncodeRecord(crc, data);
    assert b[0..4] == U32(|data|) && b[4..8] == U32(crc(data));
    Written32(|data|, b, 0);
    Written32(crc(data), b, 4);
  }

  function EncodeLog(crc: Checksum, records: seq<Bytes>): Bytes {
    if records == [] then [] else EncodeRecord(crc, records[0]) + EncodeLog(crc, records[1..])
  }

  /** Records whose length fits the 32-bit length field. */
  ghost predicate Fits(records: seq<Bytes>) {
    forall i :: 0 <= i < |records| ==> |records[i]| < TWO_32
  }

  // ---- Decoding ----

  datatype Replayed = Replayed(records: seq<Bytes>, mismatch: bool)

  /** Records read until the bytes run out or a checksum does not match. */
  function DecodeLog(crc: Checksum, b: Bytes): Replayed
    decreases |b|
  {
    if |b| < HEADER_SIZE then Replayed([], false)
    else
      var end := HEADER_SIZE + Get32(b[..4]);
      if |b| < end then Replayed([], false)
      else if crc(b[HEADER_SIZE..end]) != Get32(b[4..8]) then Replayed([], true)
      else
        var rest := DecodeLog(crc, b[end..]);
        Replayed([b[HEADER_SIZE..end]] + rest.records, rest.mismatch)
  }

  /** What a replay gives behind records already read. */
  function After(records: seq<Bytes>, rest: Replayed): Replayed {
    Replayed(records + rest.records, rest.mismatch)
  }

  lemma AfterAppend(records: seq<Bytes>, data: Bytes, rest: Replayed)
    ensures After(records, After([data], rest)) == After(records + [data], rest)
  {
    assert records + ([data] + rest.records) == records + [data] + rest.records;
  }

  /** The replay loop of recovery, reading from a moving position. */
  method ReadAll(crc: Checksum, file: Bytes) returns (records: seq<Bytes>, mismatch: bool)
    ensures Replayed(records, mismatch) == DecodeLog(crc, file)
  {
    records, mismatch := [], false;
    var pos := 0;
    assert file[0..] == file && [] + DecodeLog(crc, file).records == DecodeLog(crc, file).records;
    while pos + HEADER_SIZE <= |file|
      invariant 0 <= pos <= |file|
      invariant DecodeLog(crc, file) == After(records, DecodeLog(crc, file[pos..]))
    {
      DecodeAt(crc, file, pos);
      var length := Get32(file[pos..pos + 4]);
      var expected := Get32(file[pos + 4..pos + 8]);
      var end := pos + HEADER_SIZE + length;
      if end > |file| {
        return;
      }
      var data := file[pos + HEADER_SIZE..end];
      if crc(data) != expected {
        return records, true;
      }
      AfterAppend(records, data, DecodeLog(crc, file[end..]));
      records := records + [data];
      pos := end;
    }
  }

  /** One round of the replay loop, in terms of positions in the file. */
  lemma DecodeAt(crc: Checksum, file: Bytes, pos: nat)
    requires pos + HEADER_SIZE <= |file|
    ensures var end := pos + HEADER_SIZE + Get32(file[pos..pos + 4]);
      DecodeLog(crc, file[pos..]) ==
      if end > |file| then Replayed([], false)
      else if crc(file[pos + HEADER_SIZE..end]) != Get32(file[pos + 4..pos + 8]) then Replayed([], true)
      else After([file[pos + HEADER_SIZE..end]], DecodeLog(crc, file[end..]))
  {
    var rest := file[pos..];
    assert rest[..4] == file[pos..pos + 4] && rest[4..8] == file[pos + 4..pos + 8];
    var length := Get32(rest[..4]);
    if pos + HEADER_SIZE + length <= |file| {
      assert rest[HEADER_SIZE..HEADER_SIZE + length] == file[pos + HEADER_SIZE..pos + HEADER_SIZE + length];
      assert rest[HEADER_SIZE + length..] == file[pos + HEADER_SIZE + length..];
    }
  }

  // ---- Truncation ----

  /** How many records lie wholly within the first c bytes of their encoding. */
  function Whole(records: seq<Bytes>, c: nat): (n: nat)
    ensures n <= |records|
  {
    if records == [] || c < HEADER_SIZE + |records[0]| then 0
    else 1 + Whole(records[1..], c - HEADER_SIZE - |records[0]|)
  }

  lemma {:induction false} WholeIs(crc: Checksum, records: seq<Bytes>, c: nat)
    requires c <= |EncodeLog(crc, records)|
    ensures var n := Whole(records, c);
      |EncodeLog(crc, records[..n])| <= c && (n < |records| ==> c < |EncodeLog(crc, records[..n + 1])|)
  {
    if records != [] && c >= HEADER_SIZE + |records[0]| {
      var n := Whole(records, c);
      WholeIs(crc, records[1..], c - HEADER_SIZE - |records[0]|);
      assert records[..n][1..] == records[1..][..n - 1];
      if n < |records| { assert records[..n + 1][1..] == records[1..][..n]; }
    }
  }

  lemma HeaderOf(crc: Checksum, data: Bytes, rest: Bytes)
    requires |data| < TWO_32
    ensures var b := EncodeRecord(crc, data) + rest;
      && Get32(b[..4]) == |data| && Get32(b[4..8]) == crc(data)
      && b[8..8 + |data|] == data && b[8 + |data|..] == rest
  {
    var b := EncodeRecord(crc, data) + rest;
    assert b[..4] == U32(|data|) && b[4..8] == U32(crc(data));
    Read32(|data|);
    Read32(crc(data));
  }

  /** A whole record at the front is read back, whatever follows it. */
  lemma DecodeOne(crc: Checksum, data: Bytes, rest: Bytes)
    requires |data| < TWO_32
    ensures DecodeLog(crc, EncodeRecord(crc, data) + rest) ==
      Replayed([data] + DecodeLog(crc, rest).records, DecodeLog(crc, rest).mismatch)
  {
    HeaderOf(crc, data, rest);
  }

  /** A record cut short ends the replay without an error. */
  lemma DecodeTorn(crc: Checksum, data: Bytes, c: nat)
    requires |data| < TWO_32 && c < HEADER_SIZE + |data|
    ensures DecodeLog(crc, EncodeRecord(crc, data)[..c]) == Replayed([], false)
  {
    if HEADER_SIZE <= c {
      HeaderOf(crc, data, []);
      var b := EncodeRecord(crc, data);
      assert b + [] == b && b[..c][..4] == b[..4];
    }
  }

  /**
   * However the encoding of a log is cut, replaying what is left returns exactly the records that
   * lie wholly before the cut.
   */
  lemma {:induction false} TruncatedReplay(crc: Checksum, records: seq<Bytes>, c: nat)
    requires Fits(records) && c <= |EncodeLog(crc, records)|
    ensures DecodeLog(crc, EncodeLog(crc, records)[..c]) == Replayed(records[..Whole(records, c)], false)
  {
    if records != [] {
      var data, rest := records[0], EncodeLog(crc, records[1..]);
      var size := HEADER_SIZE + |data|;
      if c < size {
        assert EncodeLog(crc, records)[..c] == EncodeRecord(crc, data)[..c];
        DecodeTorn(crc, data, c);
      } else {
        assert EncodeLog(crc, records)[..c] == EncodeRecord(crc, data) + rest[..c - size];
        TruncatedReplay(crc, records[1..], c - size);
        var n := Whole(records[1..], c - size);
        PrependRecord(crc, records[..n + 1], rest[..c - size], Replayed(records[1..][..n], false), Replayed([], false));
      }
    }
  }

  lemma {:induction false} DecodePrefix(crc: Checksum, records: seq<Bytes>, rest: Bytes)
    requires Fits(records)
    ensures DecodeLog(crc, EncodeLog(crc, records) + rest) ==
      Replayed(records + DecodeLog(crc, rest).records, DecodeLog(crc, rest).mismatch)
  {
    if records == [] {
      assert EncodeLog(crc, records) + rest == rest;
    } else {
      var tail := EncodeLog(crc, records[1..]) + rest;
      assert EncodeLog(crc, records) + rest == EncodeRecord(crc, records[0]) + tail;
      DecodePrefix(crc, records[1..], rest);
      PrependRecord(crc, records, tail, DecodeLog(crc, tail), DecodeLog(crc, rest));
    }
  }

  lemma PrependRecord(crc: Checksum, records: seq<Bytes>, tail: Bytes, d: Replayed, e: Replayed)
    requires records != [] && |records[0]| < TWO_32 && DecodeLog(crc, tail) == d
    requires d == Replayed(records[1..] + e.records, e.mismatch)
    ensures DecodeLog(crc, EncodeRecord(crc, records[0]) + tail) == Replayed(records + e.records, e.mismatch)
  {
    DecodeOne(crc, records[0], tail);
    assert [records[0]] + (records[1..] + e.records) == records + e.records;
  }

  /** When one record's checksum fails, exactly the records before it are returned, with the error. */
  lemma CorruptReplay(crc: Checksum, before: seq<Bytes>, data: Bytes, sum: nat, after: Bytes)
    requires Fits(before) && |data| < TWO_32 && sum < TWO_32 && sum != crc(data)
    ensures DecodeLog(crc, EncodeLog(crc, before) + (U32(|data|) + U32(sum) + data + after)) ==
      Replayed(before, true)
  {
    var b := U32(|data|) + U32(sum) + data + after;
    assert b[..4] == U32(|data|) && b[4..8] == U32(sum) && b[8..8 + |data|] == data;
    Read32(|data|);
    Read32(sum);
    DecodePrefix(crc, before, b);
    assert before + [] == before;
  }

  /** The bytes hold no whole record with a matching checksum at their front. */
  predicate NoRecordAtFront(crc: Checksum, b: Bytes) {
    |b| < HEADER_SIZE ||
    var end := HEADER_SIZE + Get32(b[..4]);
    |b| < end || crc(b[HEADER_SIZE..end]) != Get32(b[4..8])
  }

  /** What was decoded, encoded again, is a prefix of the bytes, and every record fits its field. */
  lemma {:induction false} DecodedIsPrefix(crc: Checksum, b: Bytes)
    ensures Fits(DecodeLog(crc, b).records) && EncodeLog(crc, DecodeLog(crc, b).records) <= b
    decreases |b|
  {
    if !NoRecordAtFront(crc, b) {
      var end := HEADER_SIZE + Get32(b[..4]);
      var data, rest := b[HEADER_SIZE..end], DecodeLog(crc, b[end..]).records;
      DecodedIsPrefix(crc, b[end..]);
      FrontRecord(crc, b, end);
      assert ([data] + rest)[1..] == rest;
      PrefixJoin(b[..end], EncodeLog(crc, rest), b, end);
    }
  }

  lemma {:induction false} FrontRecord(crc: Checksum, b: Bytes, end: nat)
    requires HEADER_SIZE <= |b| && end == HEADER_SIZE + Get32(b[..4]) && end <= |b|
    requires crc(b[HEADER_SIZE..end]) == Get32(b[4..8])
    ensures EncodeRecord(crc, b[HEADER_SIZE..end]) == b[..end]
  {
    EncodeDecode(b[..4]);
    EncodeDecode(b[4..8]);
    assert b[..end] == b[..4] + b[4..8] + b[HEADER_SIZE..end];
  }

  lemma PrefixJoin(front: Bytes, rest: Bytes, b: Bytes, end: nat)
    requires end <= |b| && front == b[..end] && rest <= b[end..]
    ensures front + rest <= b
  {
    assert b == b[..end] + b[end..];
  }

  /** Replaying bytes gives exactly some records when their encoding is in front and no record follows. */
  lemma {:induction false} DecodesToExact(crc: Checksum, b: Bytes, records: seq<Bytes>)
    ensures DecodeLog(crc, b).records == records <==>
      (var e := EncodeLog(crc, records); Fits(records) && e <= b && NoRecordAtFront(crc, b[|e|..]))
  {
    var e := EncodeLog(crc, records);
    DecodedIsPrefix(crc, b);
    if Fits(records) && e <= b {
      DecodesBehind(crc, records, b[|e|..]);
      assert b == e + b[|e|..];
    }
  }

  lemma {:induction false} DecodesBehind(crc: Checksum, records: seq<Bytes>, rest: Bytes)
    requires Fits(records)
    ensures DecodeLog(crc, EncodeLog(crc, records) + rest).records == records <==> NoRecordAtFront(crc, rest)
  {
    DecodePrefix(crc, records, rest);
    assert |records + DecodeLog(crc, rest).records| == |records| + |DecodeLog(crc, rest).records|;
    assert records + [] == records;
  }

  /** The bytes behind the intact log: what is left of a torn record, then the records appended. */
  function TornTail(crc: Checksum, torn: Bytes, c: nat, appended: seq<Bytes>): Bytes
    requires c <= HEADER_SIZE + |torn|
  {
    EncodeRecord(crc, torn)[..c] + EncodeLog(crc, appended)
  }

  /**
   * Opening a log does not cut a torn tail. However much of a record is left, of its header or of its
   * payload, the records appended behind it are recovered, and nothing else, exactly when the torn bytes
   * and what follows them happen to start with the encoding of those records and hold none after it.
   */
  lemma {:induction false} AppendAfterTornTail(crc: Checksum, before: seq<Bytes>, torn: Bytes, c: nat,
                                               appended: seq<Bytes>)
    requires Fits(before) && c < HEADER_SIZE + |torn|
    ensures var e, b := EncodeLog(crc, appended), TornTail(crc, torn, c, appended);
      DecodeLog(crc, EncodeLog(crc, before) + b).records == before + appended <==>
      Fits(appended) && e <= b && NoRecordAtFront(crc, b[|e|..])
  {
    var b := TornTail(crc, torn, c, appended);
    DecodePrefix(crc, before, b);
    DecodesToExact(crc, b, appended);
    var r := DecodeLog(crc, b).records;
    assert (before + r)[|before|..] == r && (before + appended)[|before|..] == appended;
  }

  /** Everything appended is lost, with nothing in its place, exactly when the tail reads as no record. */
  lemma {:induction false} TornTailEndsLog(crc: Checksum, before: seq<Bytes>, torn: Bytes, c: nat, appended: seq<Bytes>)
    requires Fits(before) && c < HEADER_SIZE + |torn|
    ensures var b := TornTail(crc, torn, c, appended);
      DecodeLog(crc, EncodeLog(crc, before) + b).records == before <==> NoRecordAtFront(crc, b)
  {
    DecodesBehind(crc, before, TornTail(crc, torn, c, appended));
  }

  /** With a whole header left, the first appended record must have the torn one's length and checksum. */
  lemma {:induction false} HeaderDecides(crc: Checksum, torn: Bytes, c: nat, appended: seq<Bytes>)
    requires |torn| < TWO_32 && HEADER_SIZE <= c < HEADER_SIZE + |torn|
    requires Fits(appended) && appended != [] && EncodeLog(crc, appended) <= TornTail(crc, torn, c, appended)
    ensures |appended[0]| == |torn| && crc(appended[0]) == crc(torn)
  {
    var e, b, r := EncodeLog(crc, appended), TornTail(crc, torn, c, appended), EncodeRecord(crc, torn);
    HeaderOf(crc, appended[0], EncodeLog(crc, appended[1..]));
    HeaderOf(crc, torn, []);
    assert r + [] == r && b[..4] == r[..4] && b[4..8] == r[4..8];
    assert e == b[..|e|] && e[..4] == b[..4] && e[4..8] == b[4..8];
  }

  /** A record of two bytes torn behind its header loses a record of one byte appended to it. */
  lemma {:induction false} TornHeaderLosesRecord(crc: Checksum, before: seq<Bytes>, x: byte)
    requires Fits(before)
    ensures var b := TornTail(crc, [1, 1], HEADER_SIZE, [[x]]);
      DecodeLog(crc, EncodeLog(crc, before) + b).records != before + [[x]]
  {
    AppendAfterTornTail(crc, before, [1, 1], HEADER_SIZE, [[x]]);
    var e, b := EncodeLog(crc, [[x]]), TornTail(crc, [1, 1], HEADER_SIZE, [[x]]);
    if e <= b { HeaderDecides(crc, [1, 1], HEADER_SIZE, [[x]]); }
  }

  /** A tear in the payload: the header is intact, so its length and checksum decide. */
  lemma {:induction false} PayloadTornTail(crc: Checksum, torn: Bytes, c: nat, rest: Bytes)
    requires |torn| < TWO_32 && HEADER_SIZE <= c < HEADER_SIZE + |torn|
    ensures var filled := EncodeRecord(crc, torn)[HEADER_SIZE..c] + rest;
      NoRecordAtFront(crc, EncodeRecord(crc, torn)[..c] + rest) <==>
      (|filled| < |torn| || crc(filled[..|torn|]) != crc(torn))
  {
    var r := EncodeRecord(crc, torn);
    var b := r[..c] + rest;
    HeaderOf(crc, torn, []);
    assert r + [] == r && b[..4] == r[..4] && b[4..8] == r[4..8];
    var filled := r[HEADER_SIZE..c] + rest;
    assert b[HEADER_SIZE..] == filled;
    if |torn| <= |filled| { assert b[HEADER_SIZE..HEADER_SIZE + |torn|] == filled[..|torn|]; }
  }

  /** With nothing left of the torn record nothing is lost. */
  lemma {:induction false} CleanTail(crc: Checksum, before: seq<Bytes>, torn: Bytes, appended: seq<Bytes>)
    requires Fits(before) && Fits(appended)
    ensures DecodeLog(crc, EncodeLog(crc, before) + TornTail(crc, torn, 0, appended)).records == before + appended
  {
    var e, b := EncodeLog(crc, appended), TornTail(crc, torn, 0, appended);
    assert b == e && b[|e|..] == [];
    AppendAfterTornTail(crc, before, torn, 0, appended);
  }
}
