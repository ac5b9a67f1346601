/** Writing and reading tables. */
module TableIO {
  import opened Core
  import opened BigEndian
  import opened BloomFilter
  import opened TableFormat

  class Writer {
    var out: Bytes                 // what has reached the buffered file
    var index: seq<IndexEntry>
    var offset: nat
    var count: nat
    ghost var entries: seq<Entry>

    ghost predicate Valid()
      reads this
    {
      && |Data(entries)| < TWO_63
      && out == Data(entries) && offset == |out| && count == |entries|
      && index == IndexOf(entries)
    }

    constructor ()
      ensures Valid() && entries == []
    {
      out, index, offset, count, entries := [], [], 0, 0, [];
    }

    /** Appends one record and its index entry. */
    method Write(e: Entry)
      requires Valid() && |Data(entries)| + |EncodeEntry(e)| < TWO_63
      modifies this
      ensures Valid() && entries == old(entries) + [e]
    {
      AppendEntry(entries, e);
      index := index + [IndexEntry(e.key, offset)];
      var rec := Record(e);
      out := out + rec;
      offset := offset + |rec|;
      count := count + 1;
      entries := entries + [e];
    }

    /** Fills the record buffer at a moving position. */
    static method Record(e: Entry) returns (b: Bytes)
      ensures b == EncodeEntry(e)
    {
      var rec := new byte[4 + |e.key| + 4 + |e.value| + 8 + 1](_ => 0);
      var pos := 0;
      pos := PutField(rec, pos, e.key);
      pos := PutField(rec, pos, e.value);
      assert rec[..pos] == U32(|e.key|) + e.key + U32(|e.value|) + e.value;
      PutUint64(rec, pos, ToUnsigned(e.version));
      pos := pos + 8;
      assert rec[..pos] == U32(|e.key|) + e.key + U32(|e.value|) + e.value + U64(ToUnsigned(e.version));
      if e.deleted {
        rec[pos] := 1;
      } else {
        rec[pos] := 0;
      }
      b := rec[..];
    }

    /** A length and the bytes it counts, from a position on. */
    static method PutField(rec: array<byte>, pos: nat, x: Bytes) returns (next: nat)
      requires pos + 4 + |x| <= rec.Length
      modifies rec
      ensures next == pos + 4 + |x|
      ensures rec[..next] == old(rec[..pos]) + U32(|x|) + x
    {
      PutUint32(rec, pos, |x|);
      CopyInto(rec, pos + 4, x);
      next := pos + 4 + |x|;
    }

    /** Writes the index block and the footer. */
    method Close() returns (file: Bytes)
      requires Valid()
      ensures file == Table(entries)
    {
      file := out;
      var indexLen := 0;
      for i := 0 to |index|
        invariant file == out + IndexBlock(index[..i]) && indexLen == |IndexBlock(index[..i])|
      {
        IndexBlockAppend(index[..i], index[i]);
        assert index[..i + 1] == index[..i] + [index[i]];
        file := file + EncodeIndexEntry(index[i]);
        indexLen := indexLen + 4 + |index[i].key| + 8;
      }
      assert index[..|index|] == index;
      file := file + Footer(offset, indexLen, count);
    }
  }

  lemma {:induction false} IndexBlockAppend(a: seq<IndexEntry>, ie: IndexEntry)
    ensures IndexBlock(a + [ie]) == IndexBlock(a) + EncodeIndexEntry(ie)
  {
    if a == [] {
      assert a + [ie] == [ie] && [ie][1..] == [];
    } else {
      assert (a + [ie])[1..] == a[1..] + [ie];
      IndexBlockAppend(a[1..], ie);
    }
  }

  lemma AppendEntry(es: seq<Entry>, e: Entry)
    ensures Data(es + [e]) == Data(es) + EncodeEntry(e)
    ensures |Data(es)| + |EncodeEntry(e)| < TWO_63 ==>
      IndexOf(es + [e]) == IndexOf(es) + [IndexEntry(e.key, |Data(es)|)]
  {
    assert (es + [e])[..|es|] == es;
  }

  // ---- Opening ----

  datatype Opened = Opened(index: seq<IndexEntry>, count: nat)

  /** The index block at a place in the file, parsed; as an offset of 64 bits the place is not negative. */
  function IndexFrom(file: Bytes, start: nat, len: nat): Option<seq<IndexEntry>> {
    if TWO_63 <= start || (0 < len && |file| < start + len) then None
    else ParseIndex(if len == 0 then [] else file[start..start + len])
  }

  /** Footer and index of a file; None where opening fails. */
  function LoadIndex(file: Bytes): Option<Opened> {
    if |file| < FOOTER_SIZE then None
    else
      var footer := file[|file| - FOOTER_SIZE..];
      var index := IndexFrom(file, Get64(footer[..8]), Get32(footer[8..12]));
      if Get64(footer[16..]) != MAGIC || index.None? then None
      else Some(Opened(index.value, Get32(footer[12..16])))
  }

  /** Opening what the writer produced recovers its index and its count. */
  lemma {:induction false} LoadTable(es: seq<Entry>)
    requires |Data(es)| < TWO_63 && Writable(es)
    ensures LoadIndex(Table(es)) == Some(Opened(IndexOf(es), |es|))
  {
    TableLayout(es);
    IndexOfFits(es);
    FooterOpens(Table(es), |Data(es)|, IndexOf(es), |es|);
    LoadExact(Table(es), IndexOf(es), |es|);
  }

  lemma {:induction false} IndexOfFits(es: seq<Entry>)
    requires |Data(es)| < TWO_63 && Writable(es)
    ensures Indexable(IndexOf(es))
  {
    forall i | 0 <= i < |es| ensures |IndexOf(es)[i].key| < TWO_32 { IndexAt(es, i); }
  }

  lemma {:induction false} FooterOpens(b: Bytes, d: nat, index: seq<IndexEntry>, count: nat)
    requires d < TWO_63 && d + 24 <= |b| && Indexable(index) && b[d..|b| - 24] == IndexBlock(index)
    requires Uint64At(b, |b| - 24) == d && Uint32At(b, |b| - 16) == |b| - 24 - d && Uint32At(b, |b| - 12) == count
    requires Uint64At(b, |b| - 8) == 0x4F43_4B56_5353_5442
    ensures Opens(b, index, count)
  {
  }

  /**
   * The file ends in 24 bytes with the magic number; they name `count` entries and a place, at which the
   * file holds the block of `index`.
   */
  ghost predicate Opens(file: Bytes, index: seq<IndexEntry>, count: nat) {
    var end := |file| - 24;
    && 0 <= end && Uint64At(file, end + 16) == 0x4F43_4B56_5353_5442 && Uint32At(file, end + 12) == count
    && Uint64At(file, end) < TWO_63 && Indexable(index) && HoldsAt(file, Uint64At(file, end), IndexBlock(index))
    && |IndexBlock(index)| == Uint32At(file, end + 8)
  }

  ghost predicate HoldsAt(file: Bytes, start: nat, block: Bytes) {
    block == [] || (start + |block| <= |file| && file[start..start + |block|] == block)
  }

  lemma {:induction false} IndexFromExact(file: Bytes, start: nat, len: nat, index: seq<IndexEntry>)
    ensures IndexFrom(file, start, len) == Some(index) <==>
      start < TWO_63 && Indexable(index) && |IndexBlock(index)| == len && HoldsAt(file, start, IndexBlock(index))
  {
    if start < TWO_63 {
      if len == 0 {
        ParseExact([], index);
      } else if start + len <= |file| {
        ParseExact(file[start..start + len], index);
      }
    }
  }

  lemma {:induction false} LoadIs(file: Bytes)
    requires 24 <= |file|
    ensures var end := |file| - 24;
      var index := IndexFrom(file, Uint64At(file, end), Uint32At(file, end + 8));
      LoadIndex(file) ==
      if Uint64At(file, end + 16) != 0x4F43_4B56_5353_5442 || index.None? then None
      else Some(Opened(index.value, Uint32At(file, end + 12)))
  {
    FooterFields(file);
  }

  /** A file opens with an index and a count exactly when it ends in a footer that leads to them. */
  lemma {:induction false} LoadExact(file: Bytes, index: seq<IndexEntry>, count: nat)
    ensures LoadIndex(file) == Some(Opened(index, count)) <==> Opens(file, index, count)
  {
    if 24 <= |file| {
      LoadIs(file);
      IndexFromExact(file, Uint64At(file, |file| - 24), Uint32At(file, |file| - 16), index);
    }
  }

  lemma {:induction false} FooterFields(file: Bytes)
    requires 24 <= |file|
    ensures var footer, end := file[|file| - 24..], |file| - 24;
      && Get64(footer[..8]) == Uint64At(file, end) && Get32(footer[8..12]) == Uint32At(file, end + 8)
      && Get32(footer[12..16]) == Uint32At(file, end + 12) && Get64(footer[16..]) == Uint64At(file, end + 16)
  {
    var footer, end := file[|file| - 24..], |file| - 24;
    assert footer[..8] == file[end..end + 8] && footer[8..12] == file[end + 8..end + 12];
    assert footer[12..16] == file[end + 12..end + 16] && footer[16..] == file[end + 16..end + 24];
    Get64Is(file, end);
    Get32Is(file, end + 8);
    Get32Is(file, end + 12);
    Get64Is(file, end + 16);
  }

  /** What a parse gives in front of the result of parsing the rest. */
  function Prepended(index: seq<IndexEntry>, rest: Option<seq<IndexEntry>>): Option<seq<IndexEntry>> {
    if rest.None? then None else Some(index + rest.value)
  }

  lemma PrependedNothing(rest: Option<seq<IndexEntry>>)
    ensures Prepended([], rest) == rest
  {
    if rest.Some? { assert [] + rest.value == rest.value; }
  }

  lemma PrependedAppend(index: seq<IndexEntry>, ie: IndexEntry, rest: Option<seq<IndexEntry>>)
    ensures Prepended(index, Prepended([ie], rest)) == Prepended(index + [ie], rest)
  {
    if rest.Some? { assert index + ([ie] + rest.value) == index + [ie] + rest.value; }
  }

  /** The parse loop over the index block. */
  method ParseIndexBlock(buf: Bytes) returns (r: Option<seq<IndexEntry>>)
    ensures r == ParseIndex(buf)
  {
    var index: seq<IndexEntry> := [];
    var pos := 0;
    assert buf[0..] == buf;
    PrependedNothing(ParseIndex(buf));
    while pos < |buf|
      invariant 0 <= pos <= |buf|
      invariant ParseIndex(buf) == Prepended(index, ParseIndex(buf[pos..]))
    {
      if |buf| < pos + 4 {
        ParseAt(buf, pos);
        return None;
      }
      var end := pos + 4 + Get32(buf[pos..pos + 4]);
      if |buf| < end + 8 {
        ParseAt(buf, pos);
        return None;
      }
      ParseNext(buf, pos, index, end);
      index := index + [IndexEntry(buf[pos + 4..end], ToSigned(Get64(buf[end..end + 8])))];
      pos := end + 8;
    }
    assert index + [] == index;
    return Some(index);
  }

  lemma {:induction false} ParseNext(buf: Bytes, pos: nat, index: seq<IndexEntry>, end: nat)
    requires pos + 4 <= |buf| && end == pos + 4 + Get32(buf[pos..pos + 4]) && end + 8 <= |buf|
    requires ParseIndex(buf) == Prepended(index, ParseIndex(buf[pos..]))
    ensures var ie := IndexEntry(buf[pos + 4..end], ToSigned(Get64(buf[end..end + 8])));
      ParseIndex(buf) == Prepended(index + [ie], ParseIndex(buf[end + 8..]))
  {
    ParseAt(buf, pos);
    var ie := IndexEntry(buf[pos + 4..end], ToSigned(Get64(buf[end..end + 8])));
    PrependedAppend(index, ie, ParseIndex(buf[end + 8..]));
  }

  lemma {:induction false} ParseAt(buf: Bytes, pos: nat)
    requires pos < |buf|
    ensures ParseIndex(buf[pos..]) ==
      if |buf| < pos + 4 then None
      else
        var end := pos + 4 + Get32(buf[pos..pos + 4]);
        if |buf| < end + 8 then None
        else Prepended([IndexEntry(buf[pos + 4..end], ToSigned(Get64(buf[end..end + 8])))], ParseIndex(buf[end + 8..]))
  {
    var b := buf[pos..];
    if 4 <= |b| {
      assert b[..4] == buf[pos..pos + 4];
      var n := 4 + Get32(b[..4]);
      if n <= |b| {
        assert b[4..n] == buf[pos + 4..pos + n] && b[n..] == buf[pos + n..];
        if n + 8 <= |b| {
          assert b[n..][..8] == buf[pos + n..pos + n + 8] && b[n..][8..] == buf[pos + n + 8..];
        }
      }
    }
  }

  // ---- Reading ----

  /** How a lookup ends: the record, a miss, or a read error. */
  datatype Found = Hit(entry: Entry) | Miss | Failed

  class Reader {
    const file: Bytes
    const index: seq<IndexEntry>
    const count: nat
    const filter: Filter

    constructor (file: Bytes, loaded: Opened, filter: Filter)
      ensures this.file == file && index == loaded.index && count == loaded.count && this.filter == filter
    {
      this.file, index, count, this.filter := file, loaded.index, loaded.count, filter;
    }

    /** This reader was loaded on the table of `es`. */
    ghost predicate Reads(es: seq<Entry>)
      reads filter, filter.bits
    {
      && Sorted(es) && |Data(es)| < TWO_63 && Writable(es)
      && file == Table(es) && index == IndexOf(es)
      && filter.Valid() && forall i :: 0 <= i < |es| ==> es[i].key in filter.added
    }

    /** Bloom filter, binary search in the index, then one record read at its offset. */
    method Get(key: Key, ghost es: seq<Entry>) returns (r: Found)
      requires Reads(es)
      ensures r == if key in ToMap(es) then Hit(ToMap(es)[key]) else Miss
    {
      var maybe := filter.Contains(key);
      if !maybe {
        NotAdded(es, key);
        return Miss;
      }
      var idx := Search(key, es);
      if idx == -1 {
        NoSuchKey(es, key);
        return Miss;
      }
      IndexAt(es, idx);
      RecordAt(es, idx);
      ToMapAt(es, idx);
      r := ReadAt(index[idx].offset);
    }

    lemma NotAdded(es: seq<Entry>, key: Key)
      requires Reads(es) && key !in filter.added
      ensures key !in ToMap(es)
    {
      if key in ToMap(es) { var i := ToMapFrom(es, key); }
    }

    method Search(key: Key, ghost es: seq<Entry>) returns (idx: int)
      requires Sorted(es) && |Data(es)| < TWO_63 && index == IndexOf(es)
      ensures -1 <= idx < |es|
      ensures 0 <= idx ==> es[idx].key == key
      ensures idx == -1 ==> forall i :: 0 <= i < |es| ==> es[i].key != key
    {
      var lo, hi := 0, |index| - 1;
      while lo <= hi
        invariant 0 <= lo <= hi + 1 <= |es|
        invariant forall i :: 0 <= i < lo ==> es[i].key != key
        invariant forall i :: hi < i < |es| ==> es[i].key != key
      {
        var mid := (lo + hi) / 2;
        IndexAt(es, mid);
        if index[mid].key == key {
          return mid;
        } else if Less(index[mid].key, key) {
          BelowDiffers(es, mid, key);
          lo := mid + 1;
        } else {
          AboveDiffers(es, mid, key);
          hi := mid - 1;
        }
      }
      return -1;
    }

    method ReadAt(offset: Int64) returns (r: Found)
      ensures r ==
        if offset < 0 then Failed
        else
          var e := ReadEntry(if offset <= |file| then file[offset..] else []);
          if e.Some? then Hit(e.value.0) else Failed
    {
      if offset < 0 {
        return Failed;
      }
      var e := ReadEntry(if offset <= |file| then file[offset..] else []);
      r := if e.Some? then Hit(e.value.0) else Failed;
    }
  }

  lemma NoSuchKey(es: seq<Entry>, key: Key)
    requires forall i :: 0 <= i < |es| ==> es[i].key != key
    ensures key !in ToMap(es)
  {
    if key in ToMap(es) { var i := ToMapFrom(es, key); }
  }

  lemma BelowDiffers(es: seq<Entry>, mid: nat, key: Key)
    requires Sorted(es) && mid < |es| && Less(es[mid].key, key)
    ensures forall i :: 0 <= i <= mid ==> es[i].key != key
  {
    forall i | 0 <= i <= mid ensures es[i].key != key {
      if i < mid { LessTransitive(es[i].key, es[mid].key, key); }
      LessIrreflexive(key);
    }
  }

  lemma AboveDiffers(es: seq<Entry>, mid: nat, key: Key)
    requires Sorted(es) && mid < |es| && !Less(es[mid].key, key) && es[mid].key != key
    ensures forall i :: mid <= i < |es| ==> es[i].key != key
  {
    LessTotal(es[mid].key, key);
    forall i | mid <= i < |es| ensures es[i].key != key {
      if mid < i { LessAsymmetric(key, es[mid].key); }
    }
  }

  /** The record at an index entry's offset is the one written there. */
  lemma RecordAt(es: seq<Entry>, i: nat)
    requires |Data(es)| < TWO_63 && Writable(es) && i < |es|
    ensures |Data(es[..i])| <= |Table(es)|
    ensures ReadEntry(Table(es)[|Data(es[..i])|..]) == Some((es[i], Data(es[i + 1..]) + Table(es)[|Data(es)|..]))
  {
    TableFrom(es, i);
    RecordIn(es, i, Table(es)[|Data(es)|..]);
  }

  lemma RecordIn(es: seq<Entry>, i: nat, after: Bytes)
    requires i < |es| && Storable(es[i])
    ensures ReadEntry(Data(es[i..]) + after) == Some((es[i], Data(es[i + 1..]) + after))
  {
    assert es[i..] == [es[i]] + es[i + 1..];
    DataCons(es[i], es[i + 1..]);
    assert Data(es[i..]) + after == EncodeEntry(es[i]) + (Data(es[i + 1..]) + after);
    EntryRoundTrip(es[i], Data(es[i + 1..]) + after);
  }

  lemma LoadDecides(file: Bytes)
    ensures LoadIndex(file).None? <==> forall index, count :: !Opens(file, index, count)
    ensures LoadIndex(file).Some? ==> Opens(file, LoadIndex(file).value.index, LoadIndex(file).value.count)
  {
    forall index, count ensures LoadIndex(file) == Some(Opened(index, count)) <==> Opens(file, index, count) {
      LoadExact(file, index, count);
    }
    if LoadIndex(file).Some? {
      LoadExact(file, LoadIndex(file).value.index, LoadIndex(file).value.count);
    }
  }

  method BuildFilter(index: seq<IndexEntry>, m: nat, k: nat) returns (filter: Filter)
    requires 0 < m && 0 < k
    ensures fresh(filter) && fresh(filter.bits) && filter.Valid()
    ensures forall key :: key in filter.added <==> exists j :: 0 <= j < |index| && index[j].key == key
  {
    filter := new Filter(m, k);
    for i := 0 to |index|
      invariant filter.Valid() && fresh(filter) && fresh(filter.bits)
      invariant forall key :: key in filter.added <==> exists j :: 0 <= j < i && index[j].key == key
    {
      filter.Add(index[i].key);
    }
  }

  /** The file is what the writer produces for a strictly sorted list that fits its fields. */
  ghost predicate IsTable(file: Bytes, es: seq<Entry>) {
    Sorted(es) && |Data(es)| < TWO_63 && Writable(es) && file == Table(es)
  }

  lemma {:induction false} TableOpens(file: Bytes, es: seq<Entry>)
    requires IsTable(file, es)
    ensures LoadIndex(file) == Some(Opened(IndexOf(es), |es|))
    ensures forall i :: 0 <= i < |es| ==> IndexOf(es)[i].key == es[i].key
  {
    LoadTable(es);
    forall i | 0 <= i < |es| ensures IndexOf(es)[i].key == es[i].key { IndexAt(es, i); }
  }

  /** Opens a file: index, then a filter of any size holding every indexed key. */
  method OpenReader(file: Bytes, m: nat, k: nat, ghost es: seq<Entry>) returns (r: Reader?)
    requires 0 < m && 0 < k
    ensures r == null <==> forall index, count :: !Opens(file, index, count)
    ensures r != null ==> Opens(file, r.index, r.count)
    ensures r != null ==> fresh(r) && fresh(r.filter) && fresh(r.filter.bits) && r.file == file
    ensures IsTable(file, es) ==> r != null && r.Reads(es) && r.count == |es|
  {
    if IsTable(file, es) { TableOpens(file, es); }
    LoadDecides(file);
    var loaded := Load(file);
    if loaded.None? {
      return null;
    }
    var filter := BuildFilter(loaded.value.index, m, k);
    r := new Reader(file, loaded.value, filter);
  }

  method Load(file: Bytes) returns (r: Option<Opened>)
    ensures r == LoadIndex(file)
  {
    if |file| < FOOTER_SIZE {
      return None;
    }
    var footer := file[|file| - FOOTER_SIZE..];
    if Get64(footer[16..]) != MAGIC {
      return None;
    }
    var start, len := ToSigned(Get64(footer[..8])), Get32(footer[8..12]);
    if start < 0 || (0 < len && |file| < start + len) {
      return None;
    }
    var index := ParseIndexBlock(if len == 0 then [] else file[start..start + len]);
    return if index.None? then None else Some(Opened(index.value, Get32(footer[12..16])));
  }

  /**
   * End to end: writing any strictly sorted list of entries whose lengths fit their fields, opening
   * the bytes and looking up any key finds exactly the entry written under it, or misses.
   */
  method WriteThenGet(es: seq<Entry>, key: Key, m: nat, k: nat) returns (r: Found)
    requires Sorted(es) && |Data(es)| < TWO_63 && Writable(es) && 0 < m && 0 < k
    ensures r == if key in ToMap(es) then Hit(ToMap(es)[key]) else Miss
  {
    var w := new Writer();
    for i := 0 to |es|
      invariant w.Valid() && fresh(w) && w.entries == es[..i]
    {
      assert es[..i + 1] == es[..i] + [es[i]];
      AppendEntry(es[..i], es[i]);
      TableFrom(es, i + 1);
      w.Write(es[i]);
    }
    assert es[..|es|] == es;
    var file := w.Close();
    var reader := OpenReader(file, m, k, es);
    r := reader.Get(key, es);
  }
}
