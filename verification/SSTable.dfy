/** The byte format of sorted tables: data block, index block, footer. */
module TableFormat {
  import opened Core
  import opened BigEndian

  const MAGIC: nat := 0x4F43_4B56_5353_5442
  const FOOTER_SIZE: nat := 24

  datatype IndexEntry = IndexEntry(key: Key, offset: Int64)

  // ---- Records ----

  function EncodeEntry(e: Entry): (b: Bytes)
    ensures |b| == |e.key| + |e.value| + 17
  {
    U32(|e.key|) + e.key + U32(|e.value|) + e.value + EncodeTail(e)
  }

  function Data(es: seq<Entry>): Bytes {
    if es == [] then [] else Data(es[..|es| - 1]) + EncodeEntry(es[|es| - 1])
  }

  /** A length-prefixed field at the front of b: the field and what follows it. */
  function Field(b: Bytes): (r: Option<(Bytes, Bytes)>)
    ensures r.Some? ==> |r.value.1| < |b|
  {
    if |b| < 4 then None
    else
      var n := 4 + Get32(b[..4]);
      if |b| < n then None else Some((b[4..n], b[n..]))
  }

  /** The next record of a stream and the rest of the stream; None when the bytes run out. */
  function ReadEntry(b: Bytes): (r: Option<(Entry, Bytes)>)
    ensures r.Some? ==> |r.value.1| < |b|
  {
    var key := Field(b);
    if key.None? then None
    else
      var value := Field(key.value.1);
      if value.None? || |value.value.1| < 9 then None
      else
        var tail := value.value.1;
        Some((Entry(key.value.0, value.value.0, ToSigned(Get64(tail[..8])), tail[8] == 1), tail[9..]))
  }

  lemma FieldRoundTrip(x: Bytes, rest: Bytes)
    requires |x| < TWO_32
    ensures Field(U32(|x|) + x + rest) == Some((x, rest))
  {
    var b := U32(|x|) + x + rest;
    assert b[..4] == U32(|x|);
    Read32(|x|);
    assert b[4..4 + |x|] == x && b[4 + |x|..] == rest;
  }

  ghost predicate Storable(e: Entry) {
    |e.key| < TWO_32 && |e.value| < TWO_32
  }

  /** A record that was written is read back, whatever follows it. */
  lemma EntryRoundTrip(e: Entry, rest: Bytes)
    requires Storable(e)
    ensures ReadEntry(EncodeEntry(e) + rest) == Some((e, rest))
  {
    var tail := EncodeTail(e) + rest;
    var afterKey := U32(|e.value|) + e.value + tail;
    assert EncodeEntry(e) + rest == U32(|e.key|) + e.key + afterKey;
    FieldRoundTrip(e.key, afterKey);
    FieldRoundTrip(e.value, tail);
    TailRoundTrip(e, rest);
  }

  function EncodeTail(e: Entry): (b: Bytes)
    ensures |b| == 9
  {
    U64(ToUnsigned(e.version)) + [if e.deleted then 1 else 0]
  }

  lemma TailRoundTrip(e: Entry, rest: Bytes)
    ensures var tail := EncodeTail(e) + rest;
      ToSigned(Get64(tail[..8])) == e.version && (tail[8] == 1 <==> e.deleted) && tail[9..] == rest
  {
    var tail := EncodeTail(e) + rest;
    assert tail[..8] == U64(ToUnsigned(e.version));
    SignedRoundTrip(e.version);
  }

  /** Two length-prefixed fields, the version in two's complement, one byte that is 1 for a tombstone. */
  lemma {:induction false} RecordLayout(e: Entry)
    requires Storable(e)
    ensures var b, k, v := EncodeEntry(e), |e.key|, |e.value|;
      && |b| == 4 + k + 4 + v + 8 + 1
      && Uint32At(b, 0) == k && b[4..4 + k] == e.key
      && Uint32At(b, 4 + k) == v && b[8 + k..8 + k + v] == e.value
      && Uint64At(b, 8 + k + v) == e.version % 0x1_0000_0000_0000_0000
      && b[16 + k + v] == if e.deleted then 1 else 0
  {
    var k, v := |e.key|, |e.value|;
    var b := EncodeEntry(e);
    RecordParts(U32(k), e.key, U32(v), e.value, U64(ToUnsigned(e.version)), if e.deleted then 1 else 0);
    Written32(k, b, 0);
    Written32(v, b, 4 + k);
    SignedRoundTrip(e.version);
    Written64(ToUnsigned(e.version), b, 8 + k + v);
  }

  lemma RecordParts(x: Bytes, key: Bytes, y: Bytes, value: Bytes, version: Bytes, flag: byte)
    requires |x| == 4 && |y| == 4 && |version| == 8
    ensures var b, k, v := x + key + y + value + (version + [flag]), |key|, |value|;
      && |b| == 17 + k + v && b[0..4] == x && b[4..4 + k] == key && b[4 + k..8 + k] == y
      && b[8 + k..8 + k + v] == value && b[8 + k + v..16 + k + v] == version && b[16 + k + v] == flag
  {
  }

  /** The record of e with any last byte. */
  function Flagged(e: Entry, flag: byte): Bytes {
    U32(|e.key|) + e.key + U32(|e.value|) + e.value + U64(ToUnsigned(e.version)) + [flag]
  }

  lemma FieldExact(b: Bytes, x: Bytes, rest: Bytes)
    ensures Field(b) == Some((x, rest)) <==> |x| < TWO_32 && b == U32(|x|) + x + rest
  {
    if Field(b) == Some((x, rest)) {
      EncodeDecode(b[..4]);
      assert b == b[..4] + b[4..4 + |x|] + b[4 + |x|..];
    }
    if |x| < TWO_32 { FieldRoundTrip(x, rest); }
  }

  /** What is read is what stands at the front of the bytes, and the rest is what follows it. */
  lemma ReadExact(b: Bytes, e: Entry, rest: Bytes)
    ensures ReadEntry(b) == Some((e, rest)) <==>
      Storable(e) && exists flag: byte :: (flag == 1 <==> e.deleted) && b == Flagged(e, flag) + rest
  {
    if ReadEntry(b) == Some((e, rest)) { ReadIsFront(b, e, rest); }
    if flag: byte :| Storable(e) && (flag == 1 <==> e.deleted) && b == Flagged(e, flag) + rest {
      FrontIsRead(e, flag, rest);
    }
  }

  lemma {:induction false} ReadIsFront(b: Bytes, e: Entry, rest: Bytes)
    requires ReadEntry(b) == Some((e, rest))
    ensures Storable(e) && exists flag: byte :: (flag == 1 <==> e.deleted) && b == Flagged(e, flag) + rest
  {
    var afterKey := Field(b).value.1;
    var tail := Field(afterKey).value.1;
    FieldExact(b, e.key, afterKey);
    FieldExact(afterKey, e.value, tail);
    SignedBytes(tail[..8]);
    JoinFields(b, U32(|e.key|), e.key, afterKey, U32(|e.value|), e.value, tail);
    assert b == Flagged(e, tail[8]) + rest;
  }

  lemma JoinFields(b: Bytes, x: Bytes, key: Bytes, afterKey: Bytes, y: Bytes, value: Bytes, tail: Bytes)
    requires b == x + key + afterKey && afterKey == y + value + tail && 9 <= |tail|
    ensures b == x + key + y + value + tail[..8] + [tail[8]] + tail[9..]
  {
    assert tail == tail[..8] + [tail[8]] + tail[9..];
  }

  lemma FrontIsRead(e: Entry, flag: byte, rest: Bytes)
    requires Storable(e) && (flag == 1 <==> e.deleted)
    ensures ReadEntry(Flagged(e, flag) + rest) == Some((e, rest))
  {
    var tail := U64(ToUnsigned(e.version)) + [flag] + rest;
    var afterKey := U32(|e.value|) + e.value + tail;
    assert Flagged(e, flag) + rest == U32(|e.key|) + e.key + afterKey;
    FieldRoundTrip(e.key, afterKey);
    FieldRoundTrip(e.value, tail);
    assert tail[..8] == U64(ToUnsigned(e.version)) && tail[8] == flag && tail[9..] == rest;
    SignedRoundTrip(e.version);
  }

  // ---- Index ----

  function EncodeIndexEntry(ie: IndexEntry): (b: Bytes)
    ensures |b| == |ie.key| + 12
  {
    U32(|ie.key|) + ie.key + U64(ToUnsigned(ie.offset))
  }

  function IndexBlock(index: seq<IndexEntry>): Bytes {
    if index == [] then [] else EncodeIndexEntry(index[0]) + IndexBlock(index[1..])
  }

  /** The index of a parsed block; None where the program would run past the buffer and panic. */
  function ParseIndex(b: Bytes): Option<seq<IndexEntry>>
    decreases |b|
  {
    if b == [] then Some([])
    else
      var key := Field(b);
      if key.None? || |key.value.1| < 8 then None
      else
        var rest := ParseIndex(key.value.1[8..]);
        if rest.None? then None
        else Some([IndexEntry(key.value.0, ToSigned(Get64(key.value.1[..8])))] + rest.value)
  }

  ghost predicate Indexable(index: seq<IndexEntry>) {
    forall i :: 0 <= i < |index| ==> |index[i].key| < TWO_32
  }

  lemma IndexEntryRoundTrip(ie: IndexEntry, rest: Bytes)
    requires |ie.key| < TWO_32
    ensures Field(EncodeIndexEntry(ie) + rest) == Some((ie.key, U64(ToUnsigned(ie.offset)) + rest))
    ensures ToSigned(Get64((U64(ToUnsigned(ie.offset)) + rest)[..8])) == ie.offset
    ensures (U64(ToUnsigned(ie.offset)) + rest)[8..] == rest
  {
    var tail := U64(ToUnsigned(ie.offset)) + rest;
    assert EncodeIndexEntry(ie) + rest == U32(|ie.key|) + ie.key + tail;
    FieldRoundTrip(ie.key, tail);
    assert tail[..8] == U64(ToUnsigned(ie.offset));
    SignedRoundTrip(ie.offset);
  }

  lemma {:induction false} IndexRoundTrip(index: seq<IndexEntry>)
    requires Indexable(index)
    ensures ParseIndex(IndexBlock(index)) == Some(index)
  {
    if index != [] {
      IndexEntryRoundTrip(index[0], IndexBlock(index[1..]));
      IndexRoundTrip(index[1..]);
      assert index == [index[0]] + index[1..];
    }
  }

  lemma IndexEntryLayout(ie: IndexEntry)
    requires |ie.key| < TWO_32
    ensures var b, k := EncodeIndexEntry(ie), |ie.key|;
      && |b| == 4 + k + 8 && Uint32At(b, 0) == k && b[4..4 + k] == ie.key
      && Uint64At(b, 4 + k) == ie.offset % 0x1_0000_0000_0000_0000
  {
    var b, k := EncodeIndexEntry(ie), |ie.key|;
    assert b[0..4] == U32(k) && b[4 + k..12 + k] == U64(ToUnsigned(ie.offset));
    Written32(k, b, 0);
    SignedRoundTrip(ie.offset);
    Written64(ToUnsigned(ie.offset), b, 4 + k);
  }

  lemma {:induction false} ParsedIsBlock(b: Bytes)
    ensures var r := ParseIndex(b); r.Some? ==> Indexable(r.value) && IndexBlock(r.value) == b
    decreases |b|
  {
    if b != [] && ParseIndex(b).Some? {
      var key, tail := Field(b).value.0, Field(b).value.1;
      var rest := ParseIndex(tail[8..]).value;
      var ie := IndexEntry(key, ToSigned(Get64(tail[..8])));
      FieldExact(b, key, tail);
      ParsedIsBlock(tail[8..]);
      BlockStep(b, key, tail);
      assert ParseIndex(b).value == [ie] + rest && ([ie] + rest)[1..] == rest;
    }
  }

  lemma BlockStep(b: Bytes, key: Bytes, tail: Bytes)
    requires b == U32(|key|) + key + tail && 8 <= |tail|
    ensures EncodeIndexEntry(IndexEntry(key, ToSigned(Get64(tail[..8])))) + tail[8..] == b
  {
    SignedBytes(tail[..8]);
    assert tail == tail[..8] + tail[8..];
  }

  /** The parser accepts exactly the index blocks the writer can produce. */
  lemma ParseExact(b: Bytes, index: seq<IndexEntry>)
    ensures ParseIndex(b) == Some(index) <==> Indexable(index) && b == IndexBlock(index)
  {
    ParsedIsBlock(b);
    if Indexable(index) { IndexRoundTrip(index); }
  }

  // ---- The whole table ----

  /** Everything but the file offsets fits its field. */
  ghost predicate Writable(es: seq<Entry>) {
    && (forall i :: 0 <= i < |es| ==> Storable(es[i]))
    && |Data(es)| < TWO_63 && |es| < TWO_32
    && |IndexBlock(IndexOf(es))| < TWO_32
  }

  /** Every record's key with the offset at which it starts. */
  function IndexOf(es: seq<Entry>): (r: seq<IndexEntry>)
    requires |Data(es)| < TWO_63
    ensures |r| == |es|
  {
    if es == [] then []
    else IndexOf(es[..|es| - 1]) + [IndexEntry(es[|es| - 1].key, |Data(es[..|es| - 1])|)]
  }

  function Footer(indexStart: nat, indexLen: nat, count: nat): (b: Bytes)
    ensures |b| == FOOTER_SIZE
  {
    U64(indexStart) + U32(indexLen) + U32(count) + U64(MAGIC)
  }

  function Table(es: seq<Entry>): Bytes
    requires |Data(es)| < TWO_63
  {
    var index := IndexBlock(IndexOf(es));
    Data(es) + index + Footer(|Data(es)|, |index|, |es|)
  }

  /** Data block, index block, then 24 bytes: start, length, number of entries, magic number. */
  lemma {:induction false} TableLayout(es: seq<Entry>)
    requires |Data(es)| < TWO_63 && Writable(es)
    ensures var b, d := Table(es), |Data(es)|;
      var end := |b| - 24;
      && d <= end && b[..d] == Data(es) && b[d..end] == IndexBlock(IndexOf(es))
      && Uint64At(b, end) == d && Uint32At(b, end + 8) == end - d && Uint32At(b, end + 12) == |es|
      && Uint64At(b, end + 16) == 0x4F43_4B56_5353_5442
  {
    BlocksLayout(Data(es), IndexBlock(IndexOf(es)), |es|);
  }

  lemma BlocksLayout(data: Bytes, index: Bytes, count: nat)
    requires |data| < TWO_63 && |index| < TWO_32 && count < TWO_32
    ensures var b, d := data + index + Footer(|data|, |index|, count), |data|;
      var end := |b| - 24;
      && d <= end && b[..d] == data && b[d..end] == index
      && Uint64At(b, end) == d && Uint32At(b, end + 8) == end - d && Uint32At(b, end + 12) == count
      && Uint64At(b, end + 16) == 0x4F43_4B56_5353_5442
  {
    FooterLayout(data + index, |data|, |index|, count);
  }

  lemma FooterLayout(front: Bytes, start: nat, len: nat, count: nat)
    requires start < TWO_64 && len < TWO_32 && count < TWO_32
    ensures var b, end := front + Footer(start, len, count), |front|;
      && |b| == end + 24
      && Uint64At(b, end) == start && Uint32At(b, end + 8) == len && Uint32At(b, end + 12) == count
      && Uint64At(b, end + 16) == 0x4F43_4B56_5353_5442
  {
    var b, end := front + Footer(start, len, count), |front|;
    assert b[end..end + 8] == U64(start) && b[end + 8..end + 12] == U32(len);
    assert b[end + 12..end + 16] == U32(count) && b[end + 16..end + 24] == U64(MAGIC);
    Written64(start, b, end);
    Written32(len, b, end + 8);
    Written32(count, b, end + 12);
    Written64(MAGIC, b, end + 16);
  }

  lemma {:induction false} IndexAt(es: seq<Entry>, i: nat)
    requires |Data(es)| < TWO_63 && i < |es|
    ensures |Data(es[..i])| < TWO_63
    ensures IndexOf(es)[i] == IndexEntry(es[i].key, |Data(es[..i])|)
  {
    var n := |es| - 1;
    if i < n {
      IndexAt(es[..n], i);
      assert es[..n][..i] == es[..i];
    }
  }

  lemma {:induction false} DataSplit(a: seq<Entry>, b: seq<Entry>)
    ensures Data(a + b) == Data(a) + Data(b)
    decreases |b|
  {
    if b == [] {
      assert a + b == a;
    } else {
      var n := |b| - 1;
      assert (a + b)[..|a + b| - 1] == a + b[..n] && (a + b)[|a + b| - 1] == b[n];
      DataSplit(a, b[..n]);
      assert Data(a + b) == Data(a + b[..n]) + EncodeEntry(b[n]);
      assert Data(b) == Data(b[..n]) + EncodeEntry(b[n]);
    }
  }

  /** The bytes from a record's offset on start with that record. */
  lemma TableFrom(es: seq<Entry>, i: nat)
    requires |Data(es)| < TWO_63 && i <= |es|
    ensures |Data(es[..i])| <= |Data(es)|
    ensures Table(es)[|Data(es[..i])|..] == Data(es[i..]) + Table(es)[|Data(es)|..]
  {
    assert es == es[..i] + es[i..];
    DataSplit(es[..i], es[i..]);
  }

  lemma DataCons(e: Entry, es: seq<Entry>)
    ensures Data([e] + es) == EncodeEntry(e) + Data(es)
  {
    DataSplit([e], es);
    assert [e][..0] == [];
  }
}
