/**
 * What reading past the data block does to the callers of an unlimited scan: the merge of a
 * compaction, where the newest version wins, and the engine's scan, where the first entry seen wins.
 */
module TableMerge {
  import opened Core
  import opened SkiplistModel
  import opened TableFormat
  import opened TableIO
  import opened TableScan
  import opened CompactionModel
  import opened ScanModel

  // ---- Entries and what trails behind them ----

  /** Each list followed by its trail. */
  ghost function Both(lists: seq<seq<Entry>>, trails: seq<seq<Entry>>): (r: seq<seq<Entry>>)
    requires |lists| == |trails|
    ensures |r| == |lists| && forall i :: 0 <= i < |r| ==> r[i] == lists[i] + trails[i]
  {
    seq(|lists|, i requires 0 <= i < |lists| => lists[i] + trails[i])
  }

  /** The list that the entry kept for a key came from. */
  ghost function Source(lists: seq<seq<Entry>>, k: Key): (i: nat)
    ensures i <= |lists| && (Best(Flatten(lists), k).Some? ==> i < |lists|)
  {
    if lists == [] then 0
    else
      var n := |lists| - 1;
      var w, x := Best(Flatten(lists[..n]), k), Best(lists[n], k);
      BestConcat(Flatten(lists[..n]), lists[n], k);
      if Newer(w, x) != w then n else Source(lists[..n], k)
  }

  /** A trailing entry is kept instead of the right one: it is newer, or as old and read earlier. */
  ghost predicate Overrides(w: Option<Entry>, i: nat, x: Option<Entry>, j: nat) {
    x.Some? && (w.None? || x.value.version > w.value.version || (x.value.version == w.value.version && j < i))
  }

  /** One more table: its entries are read first, then its trail. */
  lemma OneMore(w: Option<Entry>, i: nat, x: Option<Entry>, j: nat, e: Option<Entry>, t: Option<Entry>, n: nat)
    requires i <= n && j <= n && (w.Some? ==> i < n) && (x.Some? ==> j < n)
    ensures var m := if Overrides(w, i, x, j) then x else w;
      var i2, j2 := if Newer(w, e) != w then n else i, if Newer(x, t) != x then n else j;
      Newer(Newer(m, e), t) == if Overrides(Newer(w, e), i2, Newer(x, t), j2) then Newer(x, t) else Newer(w, e)
  {
  }

  /** What the merge loop keeps of a key when every table is read with its trail. */
  lemma {:induction false} BestBoth(lists: seq<seq<Entry>>, trails: seq<seq<Entry>>, k: Key)
    requires |lists| == |trails|
    ensures var w, x := Best(Flatten(lists), k), Best(Flatten(trails), k);
      Best(Flatten(Both(lists, trails)), k) == if Overrides(w, Source(lists, k), x, Source(trails, k)) then x else w
  {
    if lists != [] {
      var n := |lists| - 1;
      var a, b := lists[..n], trails[..n];
      BestBoth(a, b, k);
      LastOfBoth(lists, trails, k);
      LastSource(lists, k);
      LastSource(trails, k);
      OneMore(Best(Flatten(a), k), Source(a, k), Best(Flatten(b), k), Source(b, k),
              Best(lists[n], k), Best(trails[n], k), n);
    }
  }

  lemma LastSource(lists: seq<seq<Entry>>, k: Key)
    requires lists != []
    ensures var n := |lists| - 1;
      var w, e := Best(Flatten(lists[..n]), k), Best(lists[n], k);
      && Best(Flatten(lists), k) == Newer(w, e)
      && Source(lists, k) == if Newer(w, e) != w then n else Source(lists[..n], k)
  {
    BestConcat(Flatten(lists[..|lists| - 1]), lists[|lists| - 1], k);
  }

  lemma LastOfBoth(lists: seq<seq<Entry>>, trails: seq<seq<Entry>>, k: Key)
    requires |lists| == |trails| && lists != []
    ensures var n := |lists| - 1;
      Best(Flatten(Both(lists, trails)), k) ==
      Newer(Newer(Best(Flatten(Both(lists[..n], trails[..n])), k), Best(lists[n], k)), Best(trails[n], k))
  {
    var n := |lists| - 1;
    var before := Both(lists[..n], trails[..n]);
    assert Both(lists, trails)[..n] == before;
    BestConcat(Flatten(before), lists[n] + trails[n], k);
    BestConcat(lists[n], trails[n], k);
  }

  /**
   * Reading the trails leaves what the merge keeps of a key exactly when no trailing entry overrides
   * the right one, or the one that does shows the same.
   */
  lemma MergeOfScansExact(lists: seq<seq<Entry>>, trails: seq<seq<Entry>>, k: Key)
    requires |lists| == |trails|
    ensures var w, x := Best(Flatten(lists), k), Best(Flatten(trails), k);
      Visible(Best(Flatten(Both(lists, trails)), k)) == Visible(w) <==>
      !Overrides(w, Source(lists, k), x, Source(trails, k)) || Visible(x) == Visible(w)
  {
    BestBoth(lists, trails, k);
  }

  /** For one table: nothing trails under the key, what trails is no newer, or neither shows anything. */
  lemma OneTableExact(es: seq<Entry>, trail: seq<Entry>, k: Key)
    ensures var w, x := Best(es, k), Best(trail, k);
      Visible(Best(es + trail, k)) == Visible(w) <==>
      x.None? || (w.Some? && x.value.version <= w.value.version) || (x.value.deleted && Visible(w).None?)
  {
    BestConcat(es, trail, k);
  }

  // ---- The merge of a tier, read as bytes ----

  ghost predicate AllWritable(lists: seq<seq<Entry>>) {
    forall i :: 0 <= i < |lists| ==> Sorted(lists[i]) && |Data(lists[i])| < TWO_63 && Writable(lists[i])
  }

  ghost function Trails(lists: seq<seq<Entry>>): (r: seq<seq<Entry>>)
    requires AllWritable(lists)
    ensures |r| == |lists| && forall i :: 0 <= i < |r| ==> r[i] == Trailing(lists[i])
  {
    seq(|lists|, i requires 0 <= i < |lists| => Trailing(lists[i]))
  }

  /** Every table of the tier is scanned without a limit, and the results are merged. */
  method MergeTables(tables: seq<Reader>, ghost lists: seq<seq<Entry>>) returns (out: seq<Entry>)
    requires |tables| == |lists| && forall i :: 0 <= i < |tables| ==> tables[i].Reads(lists[i])
    ensures AllWritable(lists) && IsMerge(out, Flatten(Both(lists, Trails(lists))))
  {
    var scans: seq<seq<Entry>> := [];
    ghost var all := Both(lists, Trails(lists));
    for i := 0 to |tables|
      invariant scans == all[..i]
    {
      var scan := ScanTable(tables[i], lists[i]);
      TakeOne(all, i);
      scans := scans + [scan];
    }
    assert all[..|all|] == all;
    out := Merge(scans);
  }

  method ScanTable(table: Reader, ghost es: seq<Entry>) returns (scan: seq<Entry>)
    requires table.Reads(es)
    ensures scan == es + Trailing(es)
  {
    scan := Scan(table, [], 0, es);
    ScanFromStart(es);
  }

  lemma ScanFromStart(es: seq<Entry>)
    requires |Data(es)| < TWO_63 && Writable(es)
    ensures ScanResult(es, StartOf(es, []), 0) == es + Trailing(es)
  {
    ScanUnlimited(es, 0);
    assert es[0..] == es;
  }

  /** The first trailing record of a tier of one: it replaces a first entry older than the second key is long. */
  lemma MergeLosesFirstEntry(es: seq<Entry>)
    requires Sorted(es) && |Data(es)| < TWO_63 && Writable(es)
    requires 2 <= |es| && es[0].version < |es[1].key|
    ensures CompactionModel.Best(es + Trailing(es), es[0].key) != Some(es[0])
  {
    TrailingFirst(es);
    BestConcat(es, Trailing(es), es[0].key);
    BestIsNewest(Trailing(es), 0);
    if Best(es + Trailing(es), es[0].key) == Some(es[0]) { BestOfSorted(es, 0); }
  }

  lemma {:induction false} BestIsNewest(entries: seq<Entry>, i: nat)
    requires i < |entries|
    ensures var w := Best(entries, entries[i].key); w.Some? && w.value.version >= entries[i].version
  {
    var n := |entries| - 1;
    if i < n { BestIsNewest(entries[..n], i); }
  }

  lemma {:induction false} BestOfSorted(es: seq<Entry>, i: nat)
    requires Sorted(es) && i < |es|
    ensures Best(es, es[i].key) == Some(es[i])
  {
    SortedKeysDistinct(es);
    BestAppend([], es, es[i].key);
    assert [] + es == es;
    ToMapAt(es, i);
  }

  // ---- The swap, with the tier read as bytes ----

  /**
   * When swapping a tier whose winner is w for a merge that kept m leaves the view of a key: with a
   * merge that shows what w shows, as for entry lists; otherwise only if the kept tables hide w anyway
   * and show the same.
   */
  ghost predicate SafeScanned(w: Option<Entry>, m: Option<Entry>, next: Option<Entry>) {
    if Visible(m) == Visible(w) then
      w.None? ||
      if w.value.deleted then next.None? || next.value.version > w.value.version || next.value.deleted
      else next.None? || next.value.version <= w.value.version
    else if Visible(m).Some? then
      Visible(next) == Visible(m) && (w.None? || next.value.version > w.value.version)
    else
      next.Some? && w.value.version <= next.value.version
  }

  /**
   * The swap of a tier for the merge of its scans leaves what readers see of a key exactly when it is
   * safe in that sense.
   */
  lemma ScannedSwapExact(files: Files, paths: seq<Path>, tier: seq<Path>, m: Option<Entry>, out: Layer, k: Key)
    requires Known(files, paths, tier)
    requires (k in out <==> m.Some? && !m.value.deleted) && (k in out ==> out[k] == m.value)
    ensures var w := Winner(Layers(files, tier), k);
      var next := Lookup(Layers(files, Kept(paths, tier)), k);
      Visible(Lookup([out] + Layers(files, Kept(paths, tier)), k)) == Visible(Lookup(Layers(files, paths), k))
      <==> SafeScanned(w, m, next)
  {
    var kept := Kept(paths, tier);
    var w, next := Winner(Layers(files, tier), k), Lookup(Layers(files, kept), k);
    assert ([out] + Layers(files, kept))[1..] == Layers(files, kept);
    BeforeIsNewest(files, paths, tier, k);
    if w.Some? && next.Some? && w.value.version == next.value.version {
      var p := WinnerPath(files, tier, k);
      var q := LookupPath(files, kept, k);
      SameVersionAgrees(files, paths, p, q, k);
    }
  }

  /**
   * Compaction of a tier of written tables. `out` is what merging their scans gives. Readers see the
   * same of a key as before exactly under the condition on the tier's newest entry, what the merge kept
   * of it and of the trails, and the first kept entry.
   */
  lemma TierReadAsBytes(files: Files, paths: seq<Path>, tier: seq<Path>, lists: seq<seq<Entry>>, out: seq<Entry>,
                        k: Key)
    requires Known(files, paths, tier) && |lists| == |tier| && AllWritable(lists)
    requires forall i :: 0 <= i < |tier| ==> files[tier[i]] == ToMap(lists[i])
    requires IsMerge(out, Flatten(Both(lists, Trails(lists))))
    ensures var w, x := Best(Flatten(lists), k), Best(Flatten(Trails(lists)), k);
      var m := if Overrides(w, Source(lists, k), x, Source(Trails(lists), k)) then x else w;
      var next := Lookup(Layers(files, Kept(paths, tier)), k);
      && w == Winner(Layers(files, tier), k)
      && (Visible(Lookup([ToMap(out)] + Layers(files, Kept(paths, tier)), k)) ==
            Visible(Lookup(Layers(files, paths), k))
          <==> SafeScanned(w, m, next))
  {
    forall i | 0 <= i < |lists| ensures DistinctKeys(lists[i]) { SortedKeysDistinct(lists[i]); }
    BestIsWinner(lists, k);
    assert Maps(lists) == Layers(files, tier);
    BestBoth(lists, Trails(lists), k);
    ScannedSwapExact(files, paths, tier, Best(Flatten(Both(lists, Trails(lists))), k), ToMap(out), k);
  }

  // ---- The engine's scan, with tables read as bytes ----

  /** The first list whose trail holds k although neither it nor a list before it does. */
  ghost predicate Intrudes(lists: seq<seq<Entry>>, trails: seq<seq<Entry>>, k: Key, g: nat) {
    && |lists| == |trails| && FirstHolder(trails, k, g)
    && forall j :: 0 <= j <= g ==> k !in ToMap(lists[j])
  }

  /** With the first entry seen winning, a trail counts only where it intrudes. */
  lemma {:induction false} FirstSeen(lists: seq<seq<Entry>>, trails: seq<seq<Entry>>, k: Key)
    requires |lists| == |trails|
    ensures forall g: nat :: Intrudes(lists, trails, k, g) ==>
      Lookup(Maps(Both(lists, trails)), k) == Some(ToMap(trails[g])[k])
    ensures (forall g: nat :: !Intrudes(lists, trails, k, g)) ==>
      Lookup(Maps(Both(lists, trails)), k) == Lookup(Maps(lists), k)
    decreases |lists|
  {
    if lists != [] {
      var a, b := lists[1..], trails[1..];
      FirstSeen(a, b, k);
      assert Maps(Both(lists, trails))[1..] == Maps(Both(a, b)) && Maps(lists)[1..] == Maps(a);
      ConcatMap(lists[0], trails[0]);
      ShiftIntrudes(lists, trails, k);
    }
  }

  lemma ShiftIntrudes(lists: seq<seq<Entry>>, trails: seq<seq<Entry>>, k: Key)
    requires |lists| == |trails| && lists != []
    ensures Intrudes(lists, trails, k, 0) <==> k in ToMap(trails[0]) && k !in ToMap(lists[0])
    ensures forall g: nat :: 0 < g && Intrudes(lists, trails, k, g) ==>
      && Intrudes(lists[1..], trails[1..], k, g - 1) && trails[1..][g - 1] == trails[g]
      && k !in ToMap(lists[0]) && k !in ToMap(trails[0])
    ensures k !in ToMap(lists[0]) && k !in ToMap(trails[0]) ==>
      forall g: nat :: Intrudes(lists[1..], trails[1..], k, g) ==> Intrudes(lists, trails, k, g + 1)
  {
    var a, b := lists[1..], trails[1..];
    assert forall j :: 0 <= j < |a| ==> a[j] == lists[j + 1] && b[j] == trails[j + 1];
  }

  ghost predicate SomeIntrudes(lists: seq<seq<Entry>>, trails: seq<seq<Entry>>, k: Key) {
    exists g: nat :: Intrudes(lists, trails, k, g)
  }

  /**
   * What a scan with any limit shows when tables are read as bytes: `lists` are the layers, of which it
   * wants the slices, and `tails` what it gets behind them. Below the prefix it shows nothing exactly
   * when no live entry intrudes. Above it, it shows what a read shows exactly when the entry that
   * intrudes shows that, or none does and the cuts are harmless.
   */
  lemma ScanOfBytesExact(lists: seq<seq<Entry>>, tails: seq<seq<Entry>>, prefix: Key, limit: int, k: Key)
    requires |lists| == |tails| && forall i :: 0 <= i < |lists| ==> Sorted(lists[i])
    ensures var wanted := Wanted(lists, prefix, limit);
      var shown := Visible(Lookup(Maps(Both(wanted, tails)), k));
      var read := if Less(k, prefix) then None else Visible(Lookup(Maps(lists), k));
      shown == read <==>
      if SomeIntrudes(wanted, tails, k)
      then forall g: nat :: Intrudes(wanted, tails, k, g) ==> Visible(Some(ToMap(tails[g])[k])) == read
      else Less(k, prefix) || ScanAgrees(lists, prefix, limit, k)
  {
    var wanted := Wanted(lists, prefix, limit);
    FirstSeen(wanted, tails, k);
    assert Maps(wanted) == Slices(lists, prefix, limit);
    if Less(k, prefix) {
      BelowPrefix(lists, prefix, limit, k);
    } else {
      LimitedScanExact(lists, prefix, limit, k);
    }
  }

  /** What a scan gets of a table behind the wanted entries: the trail, unless the limit ends it before. */
  ghost function Tail(es: seq<Entry>, prefix: Key, limit: int): seq<Entry>
    requires |Data(es)| < TWO_63
  {
    var n := |Slice(es, prefix, 0)|;
    if n == 0 || 0 < limit <= n then [] else Cut(Trailing(es), if 0 < limit then limit - n else limit)
  }

  lemma ScanPart(es: seq<Entry>, prefix: Key, limit: int)
    requires Sorted(es) && |Data(es)| < TWO_63 && Writable(es)
    ensures ScanResult(es, StartOf(es, prefix), limit) == Slice(es, prefix, limit) + Tail(es, prefix, limit)
  {
    var a := SliceIs(es, prefix, limit);
    StartIs(es, prefix, a);
    InRangeIs(es, prefix, [], a, |es|);
    assert es[a..|es|] == es[a..];
    ScanLimited(es, a, limit);
    CutBoth(es[a..], Trailing(es), limit);
  }

  lemma CutBoth(a: seq<Entry>, b: seq<Entry>, limit: int)
    ensures Cut(a + b, limit) ==
      Cut(a, limit) + if 0 < limit <= |a| then [] else Cut(b, if 0 < limit then limit - |a| else limit)
  {
  }

  ghost function Wanted(lists: seq<seq<Entry>>, prefix: Key, limit: int): (r: seq<seq<Entry>>)
    ensures |r| == |lists| && forall i :: 0 <= i < |r| ==> r[i] == Slice(lists[i], prefix, limit)
  {
    seq(|lists|, i requires 0 <= i < |lists| => Slice(lists[i], prefix, limit))
  }

  ghost function Tails(lists: seq<seq<Entry>>, prefix: Key, limit: int): (r: seq<seq<Entry>>)
    requires AllWritable(lists)
    ensures |r| == |lists| && forall i :: 0 <= i < |r| ==> r[i] == Tail(lists[i], prefix, limit)
  {
    seq(|lists|, i requires 0 <= i < |lists| => Tail(lists[i], prefix, limit))
  }

  ghost function NoTails(n: nat): (r: seq<seq<Entry>>)
    ensures |r| == n && forall i :: 0 <= i < n ==> r[i] == []
  {
    seq(n, _ => [])
  }

  /**
   * The engine's scan over the parts of its memtables and the bytes of its tables: every layer
   * contributes the wanted entries and every table a tail.
   */
  method ScanLayers(mems: seq<seq<Entry>>, tables: seq<Reader>, prefix: Key, limit: int,
                    ghost memtables: seq<seq<Entry>>, ghost lists: seq<seq<Entry>>)
    returns (results: seq<Entry>)
    requires mems == Wanted(memtables, prefix, limit)
    requires |tables| == |lists| && forall i :: 0 <= i < |tables| ==> tables[i].Reads(lists[i])
    ensures AllWritable(lists)
    ensures Shows(results, Maps(Both(Wanted(memtables + lists, prefix, limit),
                                     NoTails(|memtables|) + Tails(lists, prefix, limit))))
  {
    var scans := ScanEach(tables, prefix, limit, lists);
    JoinParts(mems, Wanted(lists, prefix, limit), Tails(lists, prefix, limit));
    JoinWanted(memtables, lists, prefix, limit);
    results := Gather(mems + scans);
  }

  method ScanEach(tables: seq<Reader>, prefix: Key, limit: int, ghost lists: seq<seq<Entry>>)
    returns (scans: seq<seq<Entry>>)
    requires |tables| == |lists| && forall i :: 0 <= i < |tables| ==> tables[i].Reads(lists[i])
    ensures AllWritable(lists) && scans == Both(Wanted(lists, prefix, limit), Tails(lists, prefix, limit))
  {
    scans := [];
    ghost var all := Both(Wanted(lists, prefix, limit), Tails(lists, prefix, limit));
    for i := 0 to |tables|
      invariant scans == all[..i]
    {
      var scan := ScanOne(tables[i], prefix, limit, lists[i]);
      TakeOne(all, i);
      scans := scans + [scan];
    }
    assert all[..|all|] == all;
  }

  method ScanOne(table: Reader, prefix: Key, limit: int, ghost es: seq<Entry>) returns (scan: seq<Entry>)
    requires table.Reads(es)
    ensures scan == Slice(es, prefix, limit) + Tail(es, prefix, limit)
  {
    scan := Scan(table, prefix, limit, es);
    ScanPart(es, prefix, limit);
  }

  lemma JoinWanted(a: seq<seq<Entry>>, b: seq<seq<Entry>>, prefix: Key, limit: int)
    ensures Wanted(a + b, prefix, limit) == Wanted(a, prefix, limit) + Wanted(b, prefix, limit)
  {
  }

  lemma JoinParts(mems: seq<seq<Entry>>, lists: seq<seq<Entry>>, tails: seq<seq<Entry>>)
    requires |lists| == |tails|
    ensures Both(mems + lists, NoTails(|mems|) + tails) == mems + Both(lists, tails)
  {
    var a, b := Both(mems + lists, NoTails(|mems|) + tails), mems + Both(lists, tails);
    forall i | 0 <= i < |a| ensures a[i] == b[i] {
      if i < |mems| { assert mems[i] + [] == mems[i]; }
    }
  }

  /** A scan from the start of a table meets the first key before its trailing copy. */
  lemma FirstSpuriousHarmless(lists: seq<seq<Entry>>, trails: seq<seq<Entry>>, g: nat)
    requires |lists| == |trails| && g < |lists| && lists[g] != []
    ensures !Intrudes(lists, trails, lists[g][0].key, g)
  {
    ToMapHas(lists[g], 0);
  }

  /** A scan that starts behind the first key of a table returns that key, although it is below the prefix. */
  lemma ScanReturnsForeignKey(es: seq<Entry>, prefix: Key, results: seq<Entry>)
    requires Sorted(es) && |Data(es)| < TWO_63 && Writable(es)
    requires 0 < StartOf(es, prefix) < |es| && es[1].key[0] != 1
    requires Shows(results, Maps([ScanResult(es, StartOf(es, prefix), 0)]))
    ensures Less(es[0].key, prefix) && es[0].key in ToMap(results)
  {
    var i := StartOf(es, prefix);
    ScanUnlimited(es, i);
    TrailingFirst(es);
    ForeignShown(es, i, Trailing(es), results);
  }

  /** A list read with a trail that starts with a key from in front of it. */
  lemma ForeignShown(es: seq<Entry>, i: nat, trail: seq<Entry>, results: seq<Entry>)
    requires Sorted(es) && 0 < i < |es| && trail != [] && trail[0].key == es[0].key && !trail[0].deleted
    requires Shows(results, Maps([es[i..] + trail]))
    ensures es[0].key in ToMap(results)
  {
    var k, part := es[0].key, es[i..] + trail;
    ConcatMap(es[i..], trail);
    if k in ToMap(es[i..]) {
      var j := ToMapFrom(es[i..], k);
      SortedDistinct(es, 0, i + j);
    }
    assert ToMap(part)[k] == trail[0] && Maps([part])[0] == ToMap(part);
    ShowsIs(results, Maps([part]), k);
  }
}
