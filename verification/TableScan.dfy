/**
 * Scanning a table. The scan reads records until the bytes stop decoding; nothing tells it where the
 * data block ends.
 */
module TableScan {
  import opened Core
  import opened BigEndian
  import opened TableFormat
  import opened TableIO

  /** Takes one record off a stream. */
  type Decoder = Bytes -> Option<(Entry, Bytes)>

  ghost predicate Consumes(read: Decoder) {
    forall b :: read(b).Some? ==> |read(b).value.1| < |b|
  }

  /** Records read off a stream; a negative `left` means no limit. */
  ghost function ReadStream(read: Decoder, b: Bytes, left: int): seq<Entry>
    requires Consumes(read)
    decreases |b|
  {
    if left == 0 || read(b).None? then []
    else [read(b).value.0] + ReadStream(read, read(b).value.1, Less1(left))
  }

  function Less1(left: int): int {
    if left < 0 then left else left - 1
  }

  function Left(limit: int): int {
    if limit > 0 then limit else -1
  }

  /** The entries at or after `start`, as an index into the table. */
  ghost predicate StartsAt(es: seq<Entry>, start: Key, i: nat) {
    && i <= |es|
    && (forall j :: 0 <= j < i ==> Less(es[j].key, start))
    && (i < |es| ==> !Less(es[i].key, start))
  }

  ghost function StartOf(es: seq<Entry>, start: Key): (i: nat)
    ensures StartsAt(es, start, i)
  {
    if es == [] || !Less(es[0].key, start) then 0 else 1 + StartOf(es[1..], start)
  }

  lemma StartIs(es: seq<Entry>, start: Key, i: nat)
    requires StartsAt(es, start, i)
    ensures i == StartOf(es, start)
  {
  }

  /** What Scan returns from the position it starts at. */
  ghost function ScanResult(es: seq<Entry>, i: nat, limit: int): seq<Entry>
    requires |Data(es)| < TWO_63 && i <= |es|
  {
    if i == |es| then [] else ReadStream(ReadEntry, Data(es[i..]) + Table(es)[|Data(es)|..], Left(limit))
  }

  method Scan(r: Reader, start: Key, limit: int, ghost es: seq<Entry>) returns (results: seq<Entry>)
    requires r.Reads(es)
    ensures results == ScanResult(es, StartOf(es, start), limit)
  {
    var idx := 0;
    while idx < |r.index| && Less(r.index[idx].key, start)
      invariant 0 <= idx <= |es| && forall j :: 0 <= j < idx ==> Less(es[j].key, start)
    {
      IndexAt(es, idx);
      idx := idx + 1;
    }
    if idx >= |r.index| {
      StartIs(es, start, idx);
      return [];
    }
    IndexAt(es, idx);
    StartIs(es, start, idx);
    TableFrom(es, idx);
    results := ReadRecords(ReadEntry, r.file[r.index[idx].offset..], limit);
  }

  /** Reads records until the limit is reached or the bytes stop decoding. */
  method ReadRecords(read: Decoder, b: Bytes, limit: int) returns (results: seq<Entry>)
    requires Consumes(read)
    ensures results == ReadStream(read, b, Left(limit))
  {
    results := [];
    var rest := b;
    while !(limit > 0 && |results| >= limit)
      invariant limit > 0 ==> |results| <= limit
      invariant ReadStream(read, b, Left(limit)) ==
        results + ReadStream(read, rest, if limit > 0 then limit - |results| else -1)
      decreases |rest|
    {
      var e := read(rest);
      if e.None? {
        break;
      }
      ReadNext(read, rest, results, if limit > 0 then limit - |results| else -1);
      results := results + [e.value.0];
      rest := e.value.1;
    }
  }

  lemma {:induction false} ReadNext(read: Decoder, rest: Bytes, results: seq<Entry>, left: int)
    requires Consumes(read) && left != 0 && read(rest).Some?
    ensures results + ReadStream(read, rest, left) ==
      results + [read(rest).value.0] + ReadStream(read, read(rest).value.1, Less1(left))
  {
  }

  /** A stream that passes through bs[0], bs[1], … yielding one entry of es at each step. */
  ghost predicate Yields(read: Decoder, bs: seq<Bytes>, es: seq<Entry>) {
    |bs| == |es| + 1 && forall j :: 0 <= j < |es| ==> read(bs[j]) == Some((es[j], bs[j + 1]))
  }

  /** Up to the limit the entries are read one by one; without one, or past it, reading runs on. */
  lemma {:induction false} StreamYields(read: Decoder, bs: seq<Bytes>, es: seq<Entry>, left: int)
    requires Consumes(read) && Yields(read, bs, es)
    ensures ReadStream(read, bs[0], left) ==
      if 0 <= left <= |es| then es[..left]
      else es + ReadStream(read, bs[|es|], if left < 0 then left else left - |es|)
    decreases |es|
  {
    if es != [] && left != 0 {
      assert read(bs[0]) == Some((es[0], bs[1]));
      StreamYields(read, bs[1..], es[1..], Less1(left));
      assert es == [es[0]] + es[1..];
    }
  }

  /** The stream positions of a table's records from position i on. */
  ghost function Positions(es: seq<Entry>, i: nat, after: Bytes): (bs: seq<Bytes>)
    requires i <= |es|
    ensures |bs| == |es| - i + 1 && forall j :: 0 <= j < |bs| ==> bs[j] == Data(es[i + j..]) + after
  {
    seq(|es| - i + 1, j requires 0 <= j <= |es| - i => Data(es[i + j..]) + after)
  }

  lemma {:induction false} TableYields(es: seq<Entry>, i: nat, after: Bytes)
    requires i <= |es| && forall j :: 0 <= j < |es| ==> Storable(es[j])
    ensures Yields(ReadEntry, Positions(es, i, after), es[i..])
    ensures Positions(es, i, after)[|es| - i] == after
  {
    var bs := Positions(es, i, after);
    forall j | 0 <= j < |es| - i ensures ReadEntry(bs[j]) == Some((es[i..][j], bs[j + 1])) {
      YieldAt(es, i, after, bs, j);
    }
    EndOfData(es, after);
  }

  lemma {:induction false} YieldAt(es: seq<Entry>, i: nat, after: Bytes, bs: seq<Bytes>, j: nat)
    requires i + j < |es| && Storable(es[i + j]) && bs == Positions(es, i, after)
    ensures ReadEntry(bs[j]) == Some((es[i..][j], bs[j + 1]))
  {
    RecordIn(es, i + j, after);
    assert bs[j + 1] == Data(es[i + (j + 1)..]) + after;
  }

  lemma EndOfData(es: seq<Entry>, after: Bytes)
    ensures Data(es[|es|..]) + after == after
  {
    assert es[|es|..] == [] && [] + after == after;
  }

  // ---- What lies behind the data block ----

  lemma {:induction false} EncodeZero(w: nat)
    ensures forall i :: 0 <= i < w ==> Encode(0, w)[i] == 0
  {
    if w != 0 { EncodeZero(w - 1); }
  }

  /** Eight zero bytes read as an empty field and four bytes more. */
  lemma ZeroField(rest: Bytes)
    ensures Field(U64(0) + rest) == Some(([], U32(0) + rest))
  {
    EncodeZero(8);
    EncodeZero(4);
    assert U64(0) == U32(0) + U32(0);
    assert U64(0) + rest == U32(0) + [] + (U32(0) + rest);
    FieldRoundTrip([], U32(0) + rest);
  }

  lemma {:induction false} BehindData(es: seq<Entry>, more: Bytes)
    requires es != [] && |Data(es)| < TWO_63 && Writable(es)
    requires more == IndexBlock(IndexOf(es)[1..]) + Footer(|Data(es)|, |IndexBlock(IndexOf(es))|, |es|)
    ensures IndexOf(es)[0] == IndexEntry(es[0].key, 0)
    ensures Table(es)[|Data(es)|..] == EncodeIndexEntry(IndexOf(es)[0]) + more
  {
    IndexAt(es, 0);
    assert es[..0] == [];
    var index := IndexOf(es);
    var footer := Footer(|Data(es)|, |IndexBlock(index)|, |es|);
    BehindPrefix(Data(es), EncodeIndexEntry(index[0]), IndexBlock(index[1..]), footer);
  }

  lemma BehindPrefix(data: Bytes, first: Bytes, others: Bytes, footer: Bytes)
    ensures (data + (first + others) + footer)[|data|..] == first + (others + footer)
  {
  }

  /** What the bytes behind the first index entry decode to: version and deleted flag of the record. */
  ghost predicate Stamped(e: Entry, es: seq<Entry>)
    requires es != []
  {
    if 2 <= |es| then
      // the length of the second key, and whether it starts with the byte 1
      e.version == |es[1].key| && (es[1].key != [] ==> (e.deleted <==> es[1].key[0] == 1))
    else
      // from the footer: the upper half of the length of the data block, and its next byte
      e.version == |Data(es)| / TWO_32 && (e.deleted <==> |Data(es)| / 0x100_0000 % 256 == 1)
  }

  /**
   * The first index entry always decodes as a record: its offset is zero, which reads as an empty
   * value, and the footer supplies enough bytes for the rest.
   */
  lemma {:induction false} SpuriousRecord(es: seq<Entry>)
    requires es != [] && |Data(es)| < TWO_63 && Writable(es)
    ensures var r := ReadEntry(Table(es)[|Data(es)|..]);
      && r.Some? && r.value.0.key == es[0].key && r.value.0.value == [] && Stamped(r.value.0, es)
  {
    var index := IndexOf(es);
    var more := IndexBlock(index[1..]) + Footer(|Data(es)|, |IndexBlock(index)|, |es|);
    BehindData(es, more);
    StampDecodes(es, more);
    FirstDecodes(index[0], more);
  }

  /** An index entry with offset zero reads as a record without a value. */
  lemma {:induction false} FirstDecodes(ie: IndexEntry, more: Bytes)
    requires |ie.key| < TWO_32 && ie.offset == 0 && |more| >= 5
    ensures ReadEntry(EncodeIndexEntry(ie) + more) ==
      Some((Entry(ie.key, [], ToSigned(Get64((U32(0) + more)[..8])), more[4] == 1), more[5..]))
  {
    IndexEntryRoundTrip(ie, more);
    ZeroField(more);
    assert (U32(0) + more)[8] == more[4] && (U32(0) + more)[9..] == more[5..];
  }

  lemma {:induction false} StampDecodes(es: seq<Entry>, more: Bytes)
    requires es != [] && |Data(es)| < TWO_63 && Writable(es)
    requires more == IndexBlock(IndexOf(es)[1..]) + Footer(|Data(es)|, |IndexBlock(IndexOf(es))|, |es|)
    ensures |more| >= 24
    ensures var version := ToSigned(Get64((U32(0) + more)[..8]));
      if 2 <= |es| then version == |es[1].key| && (es[1].key != [] ==> more[4] == es[1].key[0])
      else version == |Data(es)| / TWO_32 && more[4] as nat == |Data(es)| / 0x100_0000 % 256
  {
    if 2 <= |es| {
      SecondKeyFirst(es, more);
      StampVersion(more, |es[1].key|);
    } else {
      var d := |Data(es)|;
      assert IndexOf(es)[1..] == [] && more == Footer(d, |IndexBlock(IndexOf(es))|, |es|);
      assert more[..8] == U64(d);
      UpperHalf(d);
      assert more[..4] == U64(d)[..4] && more[4] == U64(d)[4];
      StampVersion(more, d / TWO_32);
    }
  }

  lemma {:induction false} SecondKeyFirst(es: seq<Entry>, more: Bytes)
    requires 2 <= |es| && |Data(es)| < TWO_63
    requires more == IndexBlock(IndexOf(es)[1..]) + Footer(|Data(es)|, |IndexBlock(IndexOf(es))|, |es|)
    ensures |more| >= 24 && more[..4] == U32(|es[1].key|) && (es[1].key != [] ==> more[4] == es[1].key[0])
  {
    var index := IndexOf(es);
    IndexAt(es, 1);
    assert IndexBlock(index[1..]) == EncodeIndexEntry(index[1]) + IndexBlock(index[1..][1..]);
  }

  /** Four zero bytes and a 32-bit number read as that number. */
  lemma {:induction false} StampVersion(more: Bytes, n: nat)
    requires n < TWO_32 && |more| >= 4 && more[..4] == U32(n)
    ensures ToSigned(Get64((U32(0) + more)[..8])) == n
  {
    assert (U32(0) + more)[..8] == U32(0) + U32(n);
    LeadingZeros(n);
    Read64(n);
  }

  lemma EncodeInit(n: nat, w: nat)
    requires 0 < w
    ensures Encode(n, w)[..w - 1] == Encode(n / 256, w - 1) && Encode(n, w)[w - 1] as nat == n % 256
  {
  }

  lemma UpperHalf(d: nat)
    requires d < TWO_64
    ensures U64(d)[..4] == U32(d / TWO_32) && U64(d)[4] as nat == d / 0x100_0000 % 256
  {
    var a, b, c := d / 256, d / 256 / 256, d / 256 / 256 / 256;
    EncodeInit(d, 8);
    EncodeInit(a, 7);
    EncodeInit(b, 6);
    EncodeInit(c, 5);
    assert c == d / 0x100_0000 && c / 256 == d / TWO_32;
    assert U64(d)[..7][..6][..5] == Encode(c, 5) && U64(d)[..7][..6][..5][..4] == U64(d)[..4];
    assert U64(d)[4] == Encode(c, 5)[4];
  }

  lemma {:induction false} EncodeSplit(n: nat, w: nat, v: nat)
    requires n < Pow256(w)
    ensures Encode(n, v + w) == Encode(0, v) + Encode(n, w)
  {
    if w == 0 {
      assert n == 0;
      assert Encode(0, v) + [] == Encode(0, v);
    } else {
      EncodeSplit(n / 256, w - 1, v);
    }
  }

  lemma LeadingZeros(n: nat)
    requires n < TWO_32
    ensures U64(n) == U32(0) + U32(n)
  {
    Widths();
    EncodeSplit(n, 4, 4);
  }

  // ---- What a scan returns ----

  /** What is decoded behind the data block: never empty behind a table that is not. */
  ghost function Trailing(es: seq<Entry>): seq<Entry>
    requires |Data(es)| < TWO_63
  {
    if es == [] then [] else ReadStream(ReadEntry, Table(es)[|Data(es)|..], -1)
  }

  lemma {:induction false} TrailingFirst(es: seq<Entry>)
    requires es != [] && |Data(es)| < TWO_63 && Writable(es)
    ensures Trailing(es) != [] && Trailing(es)[0].key == es[0].key && Trailing(es)[0].value == []
    ensures Stamped(Trailing(es)[0], es)
  {
    SpuriousRecord(es);
  }

  /** Without a limit a scan returns the entries from its start on and then everything trailing. */
  lemma {:induction false} ScanUnlimited(es: seq<Entry>, i: nat)
    requires |Data(es)| < TWO_63 && Writable(es) && i <= |es|
    ensures ScanResult(es, i, 0) == if i == |es| then [] else es[i..] + Trailing(es)
  {
    if i < |es| {
      var after := Table(es)[|Data(es)|..];
      TableYields(es, i, after);
      StreamAll(ReadEntry, Positions(es, i, after), es[i..], Data(es[i..]) + after, after);
    }
  }

  /** A limit cuts that short, wherever it falls. */
  lemma {:induction false} ScanLimited(es: seq<Entry>, i: nat, limit: int)
    requires |Data(es)| < TWO_63 && Writable(es) && i <= |es|
    ensures ScanResult(es, i, limit) == if i == |es| then [] else Cut(es[i..] + Trailing(es), limit)
  {
    ScanUnlimited(es, i);
    if i < |es| && 0 < limit {
      StreamCut(ReadEntry, Data(es[i..]) + Table(es)[|Data(es)|..], limit);
    }
  }

  lemma {:induction false} StreamCut(read: Decoder, b: Bytes, left: nat)
    requires Consumes(read)
    ensures var all := ReadStream(read, b, -1);
      ReadStream(read, b, left) == if left <= |all| then all[..left] else all
    decreases |b|
  {
    if left != 0 && read(b).Some? {
      StreamCut(read, read(b).value.1, left - 1);
    }
  }

  /**
   * A scan returns exactly the entries at or after its start, cut at the limit, if and only if there
   * are none or the limit is positive and no larger than their number. In every other case they are a
   * proper prefix of what it returns.
   */
  lemma {:induction false} ScanExact(es: seq<Entry>, i: nat, limit: int)
    requires |Data(es)| < TWO_63 && Writable(es) && i <= |es|
    ensures Cut(es[i..], limit) <= ScanResult(es, i, limit)
    ensures ScanResult(es, i, limit) == Cut(es[i..], limit) <==> i == |es| || 0 < limit <= |es| - i
  {
    ScanLimited(es, i, limit);
    if i < |es| {
      TrailingFirst(es);
      CutOfBoth(es[i..], Trailing(es), limit);
    }
  }

  lemma CutOfBoth(a: seq<Entry>, b: seq<Entry>, limit: int)
    requires b != []
    ensures Cut(a, limit) <= Cut(a + b, limit)
    ensures Cut(a + b, limit) == Cut(a, limit) <==> 0 < limit <= |a|
  {
  }

  lemma StreamAll(read: Decoder, bs: seq<Bytes>, es: seq<Entry>, from: Bytes, after: Bytes)
    requires Consumes(read) && Yields(read, bs, es) && bs[0] == from && bs[|es|] == after
    ensures ReadStream(read, from, -1) == es + ReadStream(read, after, -1)
  {
    StreamYields(read, bs, es, -1);
  }

  // ---- When one record trails ----

  /** What lies behind the first trailing record: the index from the second key's second byte on. */
  ghost function AfterFirst(es: seq<Entry>): Bytes
    requires 2 <= |es| && |Data(es)| < TWO_63
  {
    (IndexBlock(IndexOf(es)[1..]) + Footer(|Data(es)|, |IndexBlock(IndexOf(es))|, |es|))[5..]
  }

  lemma {:induction false} SpuriousRest(es: seq<Entry>)
    requires 2 <= |es| && |Data(es)| < TWO_63 && Writable(es)
    ensures var r := ReadEntry(Table(es)[|Data(es)|..]); r.Some? && r.value.1 == AfterFirst(es)
  {
    var index := IndexOf(es);
    var more := IndexBlock(index[1..]) + Footer(|Data(es)|, |IndexBlock(index)|, |es|);
    BehindData(es, more);
    FirstDecodes(index[0], more);
  }

  /**
   * Bytes 1 to 4 of the second key are read as the length of the next record's key. If that is more
   * than is left, as for keys of text and an index below 512 MB, one record trails and the entries
   * tell which.
   */
  lemma {:induction false} OneRecordTrails(es: seq<Entry>)
    requires 2 <= |es| && |Data(es)| < TWO_63 && Writable(es) && 5 <= |es[1].key|
    requires |AfterFirst(es)| < 4 + Get32(es[1].key[1..5])
    ensures Trailing(es) == [Entry(es[0].key, [], |es[1].key|, es[1].key[0] == 1)]
  {
    var after := Table(es)[|Data(es)|..];
    SpuriousRecord(es);
    SpuriousRest(es);
    NextLength(es);
    TooLong(AfterFirst(es), es[1].key[1..5]);
    StreamEnds(ReadEntry, after, ReadEntry(after).value.0, AfterFirst(es));
  }

  lemma {:induction false} TooLong(b: Bytes, length: Bytes)
    requires 4 <= |b| && b[..4] == length && |b| < 4 + Get32(length)
    ensures ReadEntry(b).None?
  {
  }

  lemma {:induction false} StreamEnds(read: Decoder, b: Bytes, e: Entry, rest: Bytes)
    requires Consumes(read) && read(b) == Some((e, rest)) && read(rest).None?
    ensures ReadStream(read, b, -1) == [e]
  {
  }

  lemma {:induction false} NextLength(es: seq<Entry>)
    requires 2 <= |es| && |Data(es)| < TWO_63 && 5 <= |es[1].key|
    ensures 4 <= |AfterFirst(es)| && AfterFirst(es)[..4] == es[1].key[1..5]
  {
    var index := IndexOf(es);
    IndexAt(es, 1);
    var others, footer := IndexBlock(index[1..][1..]), Footer(|Data(es)|, |IndexBlock(index)|, |es|);
    assert IndexBlock(index[1..]) == EncodeIndexEntry(index[1]) + others;
    KeyBehindLength(U32(|es[1].key|), es[1].key, U64(ToUnsigned(index[1].offset)), others, footer);
  }

  lemma KeyBehindLength(length: Bytes, key: Bytes, offset: Bytes, others: Bytes, footer: Bytes)
    requires |length| == 4 && 5 <= |key| && |offset| == 8
    ensures var b := (length + key + offset) + others + footer; 9 <= |b| && b[5..][..4] == key[1..5]
  {
  }
}
