/**
 * Size-tiered compaction: merge the tables of one tier by version, drop tombstones, and put the
 * merged table at the front of the list.
 */
module CompactionModel {
  import opened Core

  type Path = nat
  type Files = map<Path, Layer>

  // ---- Reading a list of tables, newest first ----

  function Lookup(tables: seq<Layer>, k: Key): (r: Option<Entry>) {
    if tables == [] then None
    else if k in tables[0] then Some(tables[0][k])
    else Lookup(tables[1..], k)
  }

  /** What a reader is shown: a tombstone reads as a miss. */
  function Visible(o: Option<Entry>): Option<Cell> {
    if o.Some? && !o.value.deleted then Some(CellOf(o.value)) else None
  }

  function Layers(files: Files, paths: seq<Path>): (r: seq<Layer>)
    requires forall p :: p in paths ==> p in files
    ensures |r| == |paths| && forall i :: 0 <= i < |r| ==> r[i] == files[paths[i]]
  {
    seq(|paths|, i requires 0 <= i < |paths| => files[paths[i]])
  }

  /** e may stand before f in the table order: it is newer, or says the same. */
  predicate Covers(e: Entry, f: Entry) {
    e.version > f.version || CellOf(e) == CellOf(f)
  }

  ghost predicate NewestFirst(tables: seq<Layer>) {
    forall i, j, k :: 0 <= i < j < |tables| && k in tables[i] && k in tables[j] ==>
      Covers(tables[i][k], tables[j][k])
  }

  lemma {:induction false} LookupFrom(tables: seq<Layer>, k: Key) returns (i: nat)
    requires Lookup(tables, k).Some?
    ensures i < |tables| && k in tables[i] && Lookup(tables, k) == Some(tables[i][k])
    ensures forall j :: 0 <= j < i ==> k !in tables[j]
  {
    if k in tables[0] {
      i := 0;
    } else {
      i := LookupFrom(tables[1..], k);
      assert forall j :: 1 <= j < i + 1 ==> tables[j] == tables[1..][j - 1];
      i := i + 1;
    }
  }

  lemma {:induction false} LookupMiss(tables: seq<Layer>, k: Key)
    ensures Lookup(tables, k).None? <==> forall i :: 0 <= i < |tables| ==> k !in tables[i]
  {
    if tables != [] {
      LookupMiss(tables[1..], k);
      assert forall j :: 1 <= j < |tables| ==> tables[j] == tables[1..][j - 1];
    }
  }

  lemma LookupCovers(tables: seq<Layer>, k: Key, j: nat)
    requires NewestFirst(tables) && j < |tables| && k in tables[j]
    ensures Lookup(tables, k).Some? && Covers(Lookup(tables, k).value, tables[j][k])
  {
    LookupMiss(tables, k);
    var i := LookupFrom(tables, k);
    assert i <= j;
  }

  // ---- Merging ----

  /** The entry kept for a key while tables are read one after another: a strictly newer one replaces it. */
  function Winner(tier: seq<Layer>, k: Key): Option<Entry> {
    if tier == [] then None
    else
      var w, last := Winner(tier[..|tier| - 1], k), tier[|tier| - 1];
      if k in last && (w.None? || last[k].version > w.value.version) then Some(last[k]) else w
  }

  lemma {:induction false} WinnerFrom(tier: seq<Layer>, k: Key) returns (i: nat)
    requires Winner(tier, k).Some?
    ensures i < |tier| && k in tier[i] && Winner(tier, k) == Some(tier[i][k])
  {
    var n := |tier| - 1;
    if Winner(tier[..n], k) == Winner(tier, k) {
      i := WinnerFrom(tier[..n], k);
    } else {
      i := n;
    }
  }

  lemma {:induction false} WinnerIsNewest(tier: seq<Layer>, k: Key, i: nat)
    requires i < |tier| && k in tier[i]
    ensures Winner(tier, k).Some? && Winner(tier, k).value.version >= tier[i][k].version
  {
    var n := |tier| - 1;
    if i < n {
      WinnerIsNewest(tier[..n], k, i);
    }
  }

  function Keys(tier: seq<Layer>): set<Key> {
    set i, k | 0 <= i < |tier| && k in tier[i] :: k
  }

  /** The merged table: the live winner of every key. */
  function Merged(tier: seq<Layer>): Layer {
    map k | k in Keys(tier) && Winner(tier, k).Some? && !Winner(tier, k).value.deleted
      :: Winner(tier, k).value
  }

  lemma MergedIsWinner(tier: seq<Layer>, k: Key)
    ensures k in Merged(tier) <==> Winner(tier, k).Some? && !Winner(tier, k).value.deleted
    ensures k in Merged(tier) ==> Merged(tier)[k] == Winner(tier, k).value
  {
    if Winner(tier, k).Some? {
      var i := WinnerFrom(tier, k);
      assert k in Keys(tier);
    }
  }

  // ---- The swap ----

  function Kept(paths: seq<Path>, tier: seq<Path>): (r: seq<Path>)
    ensures forall p :: p in r <==> p in paths && p !in tier
  {
    if paths == [] then []
    else (if paths[0] in tier then [] else [paths[0]]) + Kept(paths[1..], tier)
  }

  ghost predicate Known(files: Files, paths: seq<Path>, tier: seq<Path>) {
    && (forall p :: p in paths ==> p in files)
    && (forall p :: p in tier ==> p in paths)
    && NewestFirst(Layers(files, paths))
  }

  /** The list of tables after the swap, as readers see it. */
  function Swapped(files: Files, paths: seq<Path>, tier: seq<Path>): seq<Layer>
    requires forall p :: p in paths ==> p in files
    requires forall p :: p in tier ==> p in paths
  {
    [Merged(Layers(files, tier))] + Layers(files, Kept(paths, tier))
  }

  /** The files after a swap: the tier's are removed, the merged one is there. */
  function SwappedFiles(files: Files, paths: seq<Path>, tier: seq<Path>, path: Path): Files
    requires forall p :: p in paths ==> p in files
    requires forall p :: p in tier ==> p in paths
  {
    (files - (set p | p in tier))[path := Merged(Layers(files, tier))]
  }

  lemma SwappedLayers(files: Files, paths: seq<Path>, tier: seq<Path>, path: Path)
    requires (forall p :: p in paths ==> p in files) && path !in files
    requires forall p :: p in tier ==> p in paths
    ensures forall p :: p in [path] + Kept(paths, tier) ==> p in SwappedFiles(files, paths, tier, path)
    ensures Layers(SwappedFiles(files, paths, tier, path), [path] + Kept(paths, tier)) ==
      Swapped(files, paths, tier)
  {
    var after, kept := SwappedFiles(files, paths, tier, path), Kept(paths, tier);
    forall p | p in kept ensures p in after && p != path && after[p] == files[p] {}
    var lhs, rhs := Layers(after, [path] + kept), Swapped(files, paths, tier);
    forall i | 0 <= i < |lhs| ensures lhs[i] == rhs[i] {
      if i > 0 { assert kept[i - 1] in kept && ([path] + kept)[i] == kept[i - 1]; }
    }
  }

  /**
   * When a swap is harmless for a key: no kept table is newer than a live winner, and behind a
   * dropped tombstone the first kept entry is absent, newer, or a tombstone itself.
   */
  predicate SafeFor(files: Files, paths: seq<Path>, tier: seq<Path>, k: Key)
    requires forall p :: p in paths ==> p in files
    requires forall p :: p in tier ==> p in paths
  {
    var w := Winner(Layers(files, tier), k);
    var kept := Kept(paths, tier);
    var next := Lookup(Layers(files, kept), k);
    if w.None? then true
    else if w.value.deleted then
      next.None? || next.value.version > w.value.version || next.value.deleted
    else
      forall p :: p in kept && k in files[p] ==> files[p][k].version <= w.value.version
  }

  lemma {:induction false} KeptOrder(paths: seq<Path>, tier: seq<Path>, i: nat, j: nat) returns (a: nat, b: nat)
    requires i < j < |Kept(paths, tier)|
    ensures a < b < |paths| && paths[a] == Kept(paths, tier)[i] && paths[b] == Kept(paths, tier)[j]
  {
    var rest := Kept(paths[1..], tier);
    if paths[0] in tier {
      a, b := KeptOrder(paths[1..], tier, i, j);
      a, b := a + 1, b + 1;
    } else if i == 0 {
      var p := rest[j - 1];
      assert p in rest && p in paths[1..];
      b :| 0 <= b < |paths[1..]| && paths[1..][b] == p;
      a, b := 0, b + 1;
    } else {
      a, b := KeptOrder(paths[1..], tier, i - 1, j - 1);
      a, b := a + 1, b + 1;
    }
  }

  lemma KeptNewestFirst(files: Files, paths: seq<Path>, tier: seq<Path>)
    requires Known(files, paths, tier)
    ensures NewestFirst(Layers(files, Kept(paths, tier)))
  {
    var kept := Kept(paths, tier);
    var tables := Layers(files, kept);
    forall i, j, k | 0 <= i < j < |tables| && k in tables[i] && k in tables[j]
      ensures Covers(tables[i][k], tables[j][k])
    {
      var a, b := KeptOrder(paths, tier, i, j);
      var all := Layers(files, paths);
      assert all[a] == tables[i] && all[b] == tables[j];
    }
  }

  lemma SameVersionAgrees(files: Files, paths: seq<Path>, p: Path, q: Path, k: Key)
    requires forall x :: x in paths ==> x in files
    requires NewestFirst(Layers(files, paths)) && p in paths && q in paths
    requires k in files[p] && k in files[q] && files[p][k].version == files[q][k].version
    ensures CellOf(files[p][k]) == CellOf(files[q][k])
  {
    var i :| 0 <= i < |paths| && paths[i] == p;
    var j :| 0 <= j < |paths| && paths[j] == q;
    var all := Layers(files, paths);
    assert all[i] == files[p] && all[j] == files[q];
    if i < j {
      assert Covers(all[i][k], all[j][k]);
    } else if j < i {
      assert Covers(all[j][k], all[i][k]);
    }
  }

  lemma LookupPath(files: Files, paths: seq<Path>, k: Key) returns (p: Path)
    requires forall x :: x in paths ==> x in files
    requires Lookup(Layers(files, paths), k).Some?
    ensures p in paths && k in files[p] && Lookup(Layers(files, paths), k) == Some(files[p][k])
  {
    var i := LookupFrom(Layers(files, paths), k);
    p := paths[i];
  }

  lemma WinnerPath(files: Files, paths: seq<Path>, k: Key) returns (p: Path)
    requires forall x :: x in paths ==> x in files
    requires Winner(Layers(files, paths), k).Some?
    ensures p in paths && k in files[p] && Winner(Layers(files, paths), k) == Some(files[p][k])
  {
    var i := WinnerFrom(Layers(files, paths), k);
    p := paths[i];
  }

  lemma LookupCoversPath(files: Files, paths: seq<Path>, k: Key, p: Path)
    requires forall x :: x in paths ==> x in files
    requires NewestFirst(Layers(files, paths)) && p in paths && k in files[p]
    ensures var b := Lookup(Layers(files, paths), k); b.Some? && Covers(b.value, files[p][k])
  {
    var i :| 0 <= i < |paths| && paths[i] == p;
    LookupCovers(Layers(files, paths), k, i);
  }

  lemma WinnerIsNewestPath(files: Files, tier: seq<Path>, k: Key, p: Path)
    requires (forall x :: x in tier ==> x in files) && p in tier && k in files[p]
    ensures var w := Winner(Layers(files, tier), k); w.Some? && w.value.version >= files[p][k].version
  {
    var i :| 0 <= i < |tier| && tier[i] == p;
    WinnerIsNewest(Layers(files, tier), k, i);
  }

  /** Before a swap a reader sees the newer of the tier's winner and the first kept entry. */
  lemma BeforeIsNewest(files: Files, paths: seq<Path>, tier: seq<Path>, k: Key)
    requires Known(files, paths, tier)
    ensures var b := Lookup(Layers(files, paths), k);
      var w := Winner(Layers(files, tier), k);
      var next := Lookup(Layers(files, Kept(paths, tier)), k);
      && (b.None? <==> w.None? && next.None?)
      && (w.Some? ==> Covers(b.value, w.value))
      && (next.Some? ==> Covers(b.value, next.value))
      && (b.Some? ==> (w.Some? && CellOf(b.value) == CellOf(w.value)) ||
                      (next.Some? && CellOf(b.value) == CellOf(next.value)))
  {
    var kept := Kept(paths, tier);
    if Winner(Layers(files, tier), k).Some? {
      var p := WinnerPath(files, tier, k);
      LookupCoversPath(files, paths, k, p);
    }
    if Lookup(Layers(files, kept), k).Some? {
      var p := LookupPath(files, kept, k);
      LookupCoversPath(files, paths, k, p);
    }
    if Lookup(Layers(files, paths), k).Some? {
      var p := LookupPath(files, paths, k);
      if p in tier {
        WinnerIsNewestPath(files, tier, k, p);
        var q := WinnerPath(files, tier, k);
        LookupCoversPath(files, paths, k, q);
      } else {
        KeptNewestFirst(files, paths, tier);
        LookupCoversPath(files, kept, k, p);
        var q := LookupPath(files, kept, k);
        LookupCoversPath(files, paths, k, q);
      }
    }
  }

  lemma AfterIs(files: Files, paths: seq<Path>, tier: seq<Path>, k: Key)
    requires (forall p :: p in paths ==> p in files) && forall p :: p in tier ==> p in paths
    ensures var w := Winner(Layers(files, tier), k);
      Lookup(Swapped(files, paths, tier), k) ==
      if w.Some? && !w.value.deleted then w else Lookup(Layers(files, Kept(paths, tier)), k)
  {
    MergedIsWinner(Layers(files, tier), k);
    assert Swapped(files, paths, tier)[1..] == Layers(files, Kept(paths, tier));
  }

  lemma KeptBound(files: Files, paths: seq<Path>, tier: seq<Path>, k: Key, v: int)
    requires Known(files, paths, tier)
    ensures var next := Lookup(Layers(files, Kept(paths, tier)), k);
      (next.None? || next.value.version <= v) <==>
      (forall p :: p in Kept(paths, tier) && k in files[p] ==> files[p][k].version <= v)
  {
    var kept := Kept(paths, tier);
    var next := Lookup(Layers(files, kept), k);
    KeptNewestFirst(files, paths, tier);
    if next.Some? {
      var q := LookupPath(files, kept, k);
    }
    forall p | p in kept && k in files[p]
      ensures next.Some? && files[p][k].version <= next.value.version
    {
      LookupCoversPath(files, kept, k, p);
    }
  }

  /** A compaction leaves what readers see of a key unchanged exactly when it is safe for the key. */
  lemma CompactionExact(files: Files, paths: seq<Path>, tier: seq<Path>, k: Key)
    requires Known(files, paths, tier)
    ensures Visible(Lookup(Swapped(files, paths, tier), k)) == Visible(Lookup(Layers(files, paths), k))
            <==> SafeFor(files, paths, tier, k)
  {
    AfterIs(files, paths, tier, k);
    BeforeIsNewest(files, paths, tier, k);
    var w := Winner(Layers(files, tier), k);
    if w.Some? { KeptBound(files, paths, tier, k, w.value.version); }
  }

  /** A safe compaction keeps the tables newest first. */
  lemma CompactionKeepsOrder(files: Files, paths: seq<Path>, tier: seq<Path>)
    requires Known(files, paths, tier) && forall k :: SafeFor(files, paths, tier, k)
    ensures NewestFirst(Swapped(files, paths, tier))
  {
    var kept := Kept(paths, tier);
    var after := Swapped(files, paths, tier);
    KeptNewestFirst(files, paths, tier);
    forall i, j, k | 0 <= i < j < |after| && k in after[i] && k in after[j]
      ensures Covers(after[i][k], after[j][k])
    {
      if i == 0 {
        var q := kept[j - 1];
        assert q in kept && after[j] == files[q];
        MergedCovers(files, paths, tier, q, k);
      } else {
        assert after[i] == Layers(files, kept)[i - 1] && after[j] == Layers(files, kept)[j - 1];
      }
    }
  }

  lemma MergedCovers(files: Files, paths: seq<Path>, tier: seq<Path>, q: Path, k: Key)
    requires Known(files, paths, tier) && SafeFor(files, paths, tier, k)
    requires q in Kept(paths, tier) && k in files[q] && k in Merged(Layers(files, tier))
    ensures Covers(Merged(Layers(files, tier))[k], files[q][k])
  {
    MergedIsWinner(Layers(files, tier), k);
    var p := WinnerPath(files, tier, k);
    if files[p][k].version == files[q][k].version {
      SameVersionAgrees(files, paths, p, q, k);
    }
  }

  /** Compacting every table with nothing registered meanwhile is always safe. */
  lemma FullTierIsSafe(files: Files, paths: seq<Path>, tier: seq<Path>, k: Key)
    requires Known(files, paths, tier) && forall p :: p in paths ==> p in tier
    ensures SafeFor(files, paths, tier, k)
    ensures Kept(paths, tier) == []
  {
    KeptNone(paths, tier);
  }

  lemma {:induction false} KeptNone(paths: seq<Path>, tier: seq<Path>)
    requires forall p :: p in paths ==> p in tier
    ensures Kept(paths, tier) == []
  {
    if paths != [] { KeptNone(paths[1..], tier); }
  }

  // ---- The merge as the program runs it ----

  /** The entry the merge loop has kept for a key after reading `entries` in order. */
  function Best(entries: seq<Entry>, k: Key): (r: Option<Entry>)
    ensures r.Some? ==> r.value.key == k
  {
    if entries == [] then None
    else
      var w, e := Best(entries[..|entries| - 1], k), entries[|entries| - 1];
      if e.key == k && (w.None? || e.version > w.value.version) then Some(e) else w
  }

  /** Entry i is of key k and newer than every other one of k that comes before it, as new as the rest. */
  ghost predicate FirstNewest(entries: seq<Entry>, k: Key, i: nat) {
    && i < |entries| && entries[i].key == k
    && forall j :: 0 <= j < |entries| && entries[j].key == k ==>
         entries[j].version <= entries[i].version && (j < i ==> entries[j].version < entries[i].version)
  }

  lemma {:induction false} BestIsFirstNewest(entries: seq<Entry>, k: Key)
    ensures Best(entries, k).None? ==> forall i :: 0 <= i < |entries| ==> entries[i].key != k
    ensures Best(entries, k).Some? ==>
      exists i: nat :: FirstNewest(entries, k, i) && Best(entries, k) == Some(entries[i])
  {
    if entries != [] {
      var n := |entries| - 1;
      var front, e := entries[..n], entries[n];
      BestIsFirstNewest(front, k);
      var w := Best(front, k);
      if e.key == k && (w.None? || e.version > w.value.version) {
        assert FirstNewest(entries, k, n);
      } else if w.Some? {
        var i: nat :| FirstNewest(front, k, i) && w == Some(front[i]);
        assert FirstNewest(entries, k, i);
      }
    }
  }

  /** The entry kept by a merge: of those with the highest version the first one read. */
  lemma BestExact(entries: seq<Entry>, k: Key, e: Entry)
    ensures Best(entries, k) == Some(e) <==> exists i: nat :: FirstNewest(entries, k, i) && entries[i] == e
  {
    BestIsFirstNewest(entries, k);
    if Best(entries, k).Some? {
      var j: nat :| FirstNewest(entries, k, j) && Best(entries, k) == Some(entries[j]);
      assert forall i: nat :: FirstNewest(entries, k, i) ==> i == j;
    }
  }

  function Flatten(lists: seq<seq<Entry>>): seq<Entry> {
    if lists == [] then [] else Flatten(lists[..|lists| - 1]) + lists[|lists| - 1]
  }

  ghost predicate Keeps(seen: Layer, entries: seq<Entry>) {
    forall k :: if k in seen then Best(entries, k) == Some(seen[k]) else Best(entries, k).None?
  }

  /** The merged output: sorted, and holding exactly the live best entry of every key read. */
  ghost predicate IsMerge(out: seq<Entry>, entries: seq<Entry>) {
    && Sorted(out)
    && forall k :: (k in ToMap(out) <==> Best(entries, k).Some? && !Best(entries, k).value.deleted)
                && (k in ToMap(out) ==> ToMap(out)[k] == Best(entries, k).value)
  }

  method Merge(readers: seq<seq<Entry>>) returns (out: seq<Entry>)
    ensures IsMerge(out, Flatten(readers))
  {
    var seen: Layer := map[];
    for i := 0 to |readers|
      invariant Keeps(seen, Flatten(readers[..i]))
    {
      seen := ReadInto(seen, readers[i], Flatten(readers[..i]));
      assert readers[..i + 1][..i] == readers[..i];
    }
    assert readers[..|readers|] == readers;
    assert forall k :: k in seen ==> seen[k].key == k;
    var merged := Collect(seen);
    merged := SortByKey(merged);
    out := DropTombstones(merged);
  }

  /** Reads the entries of one more table. */
  method ReadInto(kept: Layer, entries: seq<Entry>, ghost before: seq<Entry>) returns (seen: Layer)
    requires Keeps(kept, before)
    ensures Keeps(seen, before + entries)
  {
    seen := kept;
    assert before + entries[..0] == before;
    for j := 0 to |entries|
      invariant Keeps(seen, before + entries[..j])
    {
      var e := entries[j];
      ghost var read := before + entries[..j + 1];
      assert read[..|read| - 1] == before + entries[..j];
      if e.key !in seen || e.version > seen[e.key].version {
        seen := seen[e.key := e];
      }
    }
    assert entries[..|entries|] == entries;
  }

  ghost predicate DistinctKeys(s: seq<Entry>) {
    forall i, j :: 0 <= i < j < |s| ==> s[i].key != s[j].key
  }

  lemma AppendDistinct(s: seq<Entry>, e: Entry)
    requires DistinctKeys(s) && e.key !in ToMap(s)
    ensures DistinctKeys(s + [e])
  {
    forall i | 0 <= i < |s| ensures s[i].key != e.key { ToMapHas(s, i); }
  }

  /** The values of a map in any order. */
  method Collect(seen: Layer) returns (entries: seq<Entry>)
    requires forall k :: k in seen ==> seen[k].key == k
    ensures ToMap(entries) == seen && DistinctKeys(entries)
  {
    entries := [];
    var rest := seen.Keys;
    while rest != {}
      invariant rest <= seen.Keys && ToMap(entries) == seen - rest && DistinctKeys(entries)
    {
      var k :| k in rest;
      AppendMap(entries, seen[k]);
      AppendDistinct(entries, seen[k]);
      entries := entries + [seen[k]];
      rest := rest - {k};
    }
  }

  /** Sorting by key; the keys of the input are all different. */
  method SortByKey(s: seq<Entry>) returns (r: seq<Entry>)
    requires DistinctKeys(s)
    ensures Sorted(r) && ToMap(r) == ToMap(s)
  {
    r := [];
    for i := 0 to |s|
      invariant Sorted(r) && ToMap(r) == ToMap(s[..i])
    {
      var a := 0;
      while a < |r| && Less(r[a].key, s[i].key)
        invariant a <= |r| && forall j :: 0 <= j < a ==> Less(r[j].key, s[i].key)
      {
        a := a + 1;
      }
      SplitHere(r, s[i].key, a);
      assert s[..i + 1] == s[..i] + [s[i]];
      DistinctPrefix(s, i);
      AppendMap(s[..i], s[i]);
      SplitFound(r, s[i].key, a);
      InsertMap(r, a, s[i]);
      r := r[..a] + [s[i]] + r[a..];
    }
    assert s[..|s|] == s;
  }

  lemma SplitHere(r: seq<Entry>, key: Key, a: nat)
    requires Sorted(r) && a <= |r| && (a < |r| ==> !Less(r[a].key, key))
    requires forall j :: 0 <= j < a ==> Less(r[j].key, key)
    ensures SplitsAt(r, key, a)
  {
    forall j | a <= j < |r| ensures !Less(r[j].key, key) {
      NotLessThenLess(key, r[a].key, r[j].key);
    }
  }

  lemma DistinctPrefix(s: seq<Entry>, i: nat)
    requires DistinctKeys(s) && i < |s|
    ensures s[i].key !in ToMap(s[..i])
  {
    if s[i].key in ToMap(s[..i]) {
      var j := ToMapFrom(s[..i], s[i].key);
    }
  }

  method DropTombstones(s: seq<Entry>) returns (out: seq<Entry>)
    requires Sorted(s)
    ensures Sorted(out)
    ensures ToMap(out) == LiveMap(ToMap(s))
  {
    out := [];
    for i := 0 to |s|
      invariant out == LiveOnly(s[..i])
    {
      assert s[..i + 1][..i] == s[..i];
      if !s[i].deleted {
        out := out + [s[i]];
      }
    }
    assert s[..|s|] == s;
    SortedKeysDistinct(s);
    LiveOnlySorted(s);
    LiveOnlyMap(s);
  }

  function LiveOnly(s: seq<Entry>): seq<Entry> {
    if s == [] then []
    else LiveOnly(s[..|s| - 1]) + (if s[|s| - 1].deleted then [] else [s[|s| - 1]])
  }

  lemma {:induction false} LiveOnlySorted(s: seq<Entry>)
    requires Sorted(s)
    ensures forall e :: e in LiveOnly(s) ==> e in s
    ensures Sorted(LiveOnly(s))
  {
    if s != [] {
      var n := |s| - 1;
      LiveOnlySorted(s[..n]);
      var r, out := LiveOnly(s[..n]), LiveOnly(s);
      forall i | 0 <= i < |r| ensures Less(r[i].key, s[n].key) {
        assert r[i] in s[..n];
        var x :| 0 <= x < n && s[x] == r[i];
      }
      forall i, j | 0 <= i < j < |out| ensures Less(out[i].key, out[j].key) {
        assert out[i] == r[i] && (j < |r| ==> out[j] == r[j]);
      }
    }
  }

  function LiveMap(m: Layer): Layer {
    map k | k in m && !m[k].deleted :: m[k]
  }

  lemma LiveMapAdd(m: Layer, e: Entry)
    requires e.key !in m
    ensures LiveMap(m[e.key := e]) == if e.deleted then LiveMap(m) else LiveMap(m)[e.key := e]
    ensures e.key !in LiveMap(m)
  {
  }

  lemma {:induction false} LiveOnlyMap(s: seq<Entry>)
    requires DistinctKeys(s)
    ensures ToMap(LiveOnly(s)) == LiveMap(ToMap(s))
  {
    if s != [] {
      var n := |s| - 1;
      var e := s[n];
      LiveOnlyMap(s[..n]);
      DistinctPrefix(s, n);
      assert s == s[..n] + [e];
      AppendMap(s[..n], e);
      LiveMapAdd(ToMap(s[..n]), e);
      if e.deleted {
        assert LiveOnly(s) == LiveOnly(s[..n]);
      } else {
        AppendMap(LiveOnly(s[..n]), e);
      }
    }
  }

  lemma SortedKeysDistinct(s: seq<Entry>)
    requires Sorted(s)
    ensures DistinctKeys(s)
  {
    forall i, j | 0 <= i < j < |s| ensures s[i].key != s[j].key {
      LessIrreflexive(s[i].key);
    }
  }

  // ---- The merge loop computes the merged table ----

  lemma {:induction false} BestAppend(a: seq<Entry>, b: seq<Entry>, k: Key)
    requires DistinctKeys(b)
    ensures var w := Best(a, k);
      Best(a + b, k) ==
      if k in ToMap(b) && (w.None? || ToMap(b)[k].version > w.value.version)
      then Some(ToMap(b)[k]) else w
    decreases |b|
  {
    if b == [] {
      assert a + b == a;
    } else {
      var n := |b| - 1;
      assert (a + b)[..|a + b| - 1] == a + b[..n];
      BestAppend(a, b[..n], k);
      DistinctPrefix(b, n);
      assert b == b[..n] + [b[n]];
      AppendMap(b[..n], b[n]);
    }
  }

  /** The entry kept of two read one after the other. */
  function Newer(w: Option<Entry>, x: Option<Entry>): Option<Entry> {
    if x.Some? && (w.None? || x.value.version > w.value.version) then x else w
  }

  lemma {:induction false} BestConcat(a: seq<Entry>, b: seq<Entry>, k: Key)
    ensures Best(a + b, k) == Newer(Best(a, k), Best(b, k))
    decreases |b|
  {
    if b == [] {
      assert a + b == a;
    } else {
      var n := |b| - 1;
      assert (a + b)[..|a + b| - 1] == a + b[..n];
      BestConcat(a, b[..n], k);
    }
  }

  function Maps(lists: seq<seq<Entry>>): (r: seq<Layer>)
    ensures |r| == |lists| && forall i :: 0 <= i < |r| ==> r[i] == ToMap(lists[i])
  {
    seq(|lists|, i requires 0 <= i < |lists| => ToMap(lists[i]))
  }

  lemma {:induction false} BestIsWinner(lists: seq<seq<Entry>>, k: Key)
    requires forall i :: 0 <= i < |lists| ==> DistinctKeys(lists[i])
    ensures Best(Flatten(lists), k) == Winner(Maps(lists), k)
  {
    if lists != [] {
      var n := |lists| - 1;
      BestIsWinner(lists[..n], k);
      assert Maps(lists)[..n] == Maps(lists[..n]);
      BestAppend(Flatten(lists[..n]), lists[n], k);
    }
  }

  /** Merging sorted tables gives the one sorted list that stands for the merged table. */
  lemma MergeIsMerged(readers: seq<seq<Entry>>, out: seq<Entry>)
    requires forall i :: 0 <= i < |readers| ==> DistinctKeys(readers[i])
    requires IsMerge(out, Flatten(readers))
    ensures Sorted(out) && ToMap(out) == Merged(Maps(readers))
  {
    forall k
      ensures k in ToMap(out) <==> k in Merged(Maps(readers))
      ensures k in ToMap(out) ==> ToMap(out)[k] == Merged(Maps(readers))[k]
    {
      BestIsWinner(readers, k);
      MergedIsWinner(Maps(readers), k);
    }
  }

  /** Entries filed under their own key. */
  ghost predicate Keyed(files: Files) {
    forall p, k :: p in files && k in files[p] ==> files[p][k].key == k
  }

  ghost predicate TiesAgree(files: Files, tier: seq<Path>)
    requires forall p :: p in tier ==> p in files
  {
    forall p, q, k | p in tier && q in tier && k in files[p] && k in files[q] ::
      files[p][k].version == files[q][k].version ==> CellOf(files[p][k]) == CellOf(files[q][k])
  }

  /**
   * The merged table does not depend on the order in which the tables are read, which the tier
   * selection takes from file sizes.
   */
  lemma {:induction false} MergeOrderIrrelevant(files: Files, tier: seq<Path>, other: seq<Path>)
    requires forall p :: p in tier ==> p in files
    requires forall p :: p in tier <==> p in other
    requires Keyed(files) && TiesAgree(files, tier)
    ensures Merged(Layers(files, tier)) == Merged(Layers(files, other))
  {
    var a, b := Merged(Layers(files, tier)), Merged(Layers(files, other));
    forall k ensures (k in a <==> k in b) && (k in a ==> a[k] == b[k]) {
      MergedAgree(files, tier, other, k);
    }
    SameLayer(a, b);
  }

  lemma SameLayer(a: Layer, b: Layer)
    requires forall k :: (k in a <==> k in b) && (k in a ==> a[k] == b[k])
    ensures a == b
  {
    assert a.Keys == b.Keys;
  }

  lemma MergedAgree(files: Files, tier: seq<Path>, other: seq<Path>, k: Key)
    requires forall p :: p in tier ==> p in files
    requires forall p :: p in tier <==> p in other
    requires Keyed(files) && TiesAgree(files, tier)
    ensures k in Merged(Layers(files, tier)) <==> k in Merged(Layers(files, other))
    ensures k in Merged(Layers(files, tier)) ==>
      Merged(Layers(files, tier))[k] == Merged(Layers(files, other))[k]
  {
    MergedIsWinner(Layers(files, tier), k);
    MergedIsWinner(Layers(files, other), k);
    WinnersAgree(files, tier, other, k);
  }

  lemma WinnersAgree(files: Files, tier: seq<Path>, other: seq<Path>, k: Key)
    requires forall p :: p in tier ==> p in files
    requires forall p :: p in tier <==> p in other
    requires Keyed(files) && TiesAgree(files, tier)
    ensures var v, w := Winner(Layers(files, tier), k), Winner(Layers(files, other), k);
      && (v.Some? <==> w.Some?)
      && (v.Some? ==> CellOf(v.value) == CellOf(w.value) && v.value.key == w.value.key == k)
  {
    if Winner(Layers(files, tier), k).Some? {
      var p := WinnerPath(files, tier, k);
      WinnerIsNewestPath(files, other, k, p);
    }
    if Winner(Layers(files, other), k).Some? {
      var q := WinnerPath(files, other, k);
      WinnerIsNewestPath(files, tier, k, q);
      var p := WinnerPath(files, tier, k);
    }
  }

  // ---- Tier selection ----

  const MIN_COMPACT_TABLES: nat := 4

  ghost predicate SizeSorted(s: seq<Path>, stat: map<Path, nat>) {
    && (forall i :: 0 <= i < |s| ==> s[i] in stat)
    && (forall i, j :: 0 <= i < j < |s| ==> stat[s[i]] <= stat[s[j]])
  }

  ghost predicate NoRepeats(s: seq<Path>) {
    forall i, j :: 0 <= i < j < |s| ==> s[i] != s[j]
  }

  method InsertBySize(r: seq<Path>, p: Path, stat: map<Path, nat>) returns (t: seq<Path>)
    requires SizeSorted(r, stat) && NoRepeats(r) && p in stat && p !in r
    ensures SizeSorted(t, stat) && NoRepeats(t) && |t| == |r| + 1
    ensures forall q :: q in t <==> q in r || q == p
  {
    var a := 0;
    while a < |r| && stat[r[a]] <= stat[p]
      invariant a <= |r| && forall j :: 0 <= j < a ==> stat[r[j]] <= stat[p]
    {
      a := a + 1;
    }
    t := r[..a] + [p] + r[a..];
    PlacedBySize(r, a, p, stat);
    assert r == r[..a] + r[a..];
  }

  lemma PlacedBySize(r: seq<Path>, a: nat, p: Path, stat: map<Path, nat>)
    requires SizeSorted(r, stat) && NoRepeats(r) && p in stat && p !in r && a <= |r|
    requires forall j :: 0 <= j < a ==> stat[r[j]] <= stat[p]
    requires a < |r| ==> stat[p] < stat[r[a]]
    ensures SizeSorted(r[..a] + [p] + r[a..], stat) && NoRepeats(r[..a] + [p] + r[a..])
  {
    var t := r[..a] + [p] + r[a..];
    forall i | 0 <= i < |t| ensures t[i] in stat {
      assert t[i] == if i < a then r[i] else if i == a then p else r[i - 1];
    }
    forall i, j | 0 <= i < j < |t| ensures stat[t[i]] <= stat[t[j]] && t[i] != t[j] {
      assert t[i] == if i < a then r[i] else if i == a then p else r[i - 1];
      assert t[j] == if j < a then r[j] else if j == a then p else r[j - 1];
    }
  }

  /** The tables whose size could be read, smallest first. */
  method SortBySize(tables: seq<Path>, stat: map<Path, nat>) returns (sized: seq<Path>)
    requires NoRepeats(tables)
    ensures SizeSorted(sized, stat) && NoRepeats(sized)
    ensures forall p :: p in sized <==> p in tables && p in stat
  {
    sized := [];
    for i := 0 to |tables|
      invariant SizeSorted(sized, stat) && NoRepeats(sized)
      invariant forall p :: p in sized <==> p in tables[..i] && p in stat
    {
      assert tables[..i + 1] == tables[..i] + [tables[i]];
      if tables[i] in stat {
        sized := InsertBySize(sized, tables[i], stat);
      }
    }
    assert tables[..|tables|] == tables;
  }

  predicate InTier(tables: seq<Path>, stat: map<Path, nat>, p: Path) {
    p in tables && p in stat && forall q :: q in tables && q in stat ==> stat[p] <= 10 * stat[q]
  }

  /** Different tables of similar sizes: none is more than ten times another. */
  ghost predicate Group(t: seq<Path>, tables: seq<Path>, stat: map<Path, nat>) {
    && NoRepeats(t) && (forall p :: p in t ==> p in tables && p in stat)
    && forall p, q :: p in t && q in t ==> stat[p] <= 10 * stat[q]
  }

  ghost predicate Smallest(q: Path, tables: seq<Path>, stat: map<Path, nat>) {
    q in tables && q in stat && forall p :: p in tables && p in stat ==> stat[q] <= stat[p]
  }

  /** A group that holds a smallest table. */
  ghost predicate Anchored(t: seq<Path>, tables: seq<Path>, stat: map<Path, nat>) {
    Group(t, tables, stat) && exists q :: q in t && Smallest(q, tables, stat)
  }

  /** The tier is the group that holds every group with a smallest table; without sizes there is none. */
  ghost predicate WidestAnchored(tier: seq<Path>, tables: seq<Path>, stat: map<Path, nat>) {
    && (forall t :: Anchored(t, tables, stat) ==> forall p :: p in t ==> p in tier)
    && if exists p :: p in tables && p in stat then Anchored(tier, tables, stat) else tier == []
  }

  lemma {:induction false} SmallestTable(tables: seq<Path>, stat: map<Path, nat>) returns (q: Path)
    requires exists p :: p in tables && p in stat
    ensures Smallest(q, tables, stat)
  {
    var n := |tables| - 1;
    assert tables == tables[..n] + [tables[n]];
    if exists p :: p in tables[..n] && p in stat {
      q := SmallestTable(tables[..n], stat);
      if tables[n] in stat && stat[tables[n]] < stat[q] { q := tables[n]; }
    } else {
      q := tables[n];
    }
  }

  lemma TierIsWidest(tables: seq<Path>, stat: map<Path, nat>, tier: seq<Path>)
    requires NoRepeats(tier) && forall p :: p in tier <==> InTier(tables, stat, p)
    ensures WidestAnchored(tier, tables, stat)
  {
    if exists p :: p in tables && p in stat {
      var q := SmallestTable(tables, stat);
      assert InTier(tables, stat, q);
    } else if tier != [] {
      assert tier[0] in tier;
    }
    forall t, p | Anchored(t, tables, stat) && p in t ensures p in tier {
      assert InTier(tables, stat, p);
    }
  }

  /** The smallest table and every table at most ten times its size, smallest first. */
  method SelectTier(tables: seq<Path>, stat: map<Path, nat>) returns (tier: seq<Path>)
    requires NoRepeats(tables) && forall p :: p in stat ==> 0 < stat[p]
    ensures WidestAnchored(tier, tables, stat)
    ensures forall p :: p in tier <==> InTier(tables, stat, p)
    ensures SizeSorted(tier, stat) && NoRepeats(tier)
    ensures tier == [] ==> forall p :: p in tables ==> p !in stat
  {
    var sized := SortBySize(tables, stat);
    if |sized| == 0 {
      assert forall p :: p !in sized;
      TierIsWidest(tables, stat, []);
      return [];
    }
    tier := TakeSimilar(sized, stat);
    assert forall p :: p in tier <==> InTier(tables, stat, p);
    TierIsWidest(tables, stat, tier);
  }

  /** The tables of a list sorted by size that are at most ten times as large as the first. */
  method TakeSimilar(sized: seq<Path>, stat: map<Path, nat>) returns (tier: seq<Path>)
    requires SizeSorted(sized, stat) && NoRepeats(sized) && sized != []
    ensures SizeSorted(tier, stat) && NoRepeats(tier) && tier != []
    ensures forall p :: p in tier <==> p in sized && forall q :: q in sized ==> stat[p] <= 10 * stat[q]
  {
    tier := [sized[0]];
    var n := 1;
    for i := 1 to |sized|
      invariant 1 <= n <= i && tier == sized[..n]
      invariant forall j :: 0 <= j < n ==> stat[sized[j]] <= 10 * stat[sized[0]]
      invariant n < i ==> stat[sized[n]] > 10 * stat[sized[0]]
    {
      if stat[sized[i]] <= 10 * stat[sized[0]] {
        tier := tier + [sized[i]];
        n := n + 1;
      }
    }
    TierIs(sized, n, stat);
  }

  lemma TierIs(sized: seq<Path>, n: nat, stat: map<Path, nat>)
    requires SizeSorted(sized, stat) && 1 <= n <= |sized|
    requires forall j :: 0 <= j < n ==> stat[sized[j]] <= 10 * stat[sized[0]]
    requires n < |sized| ==> stat[sized[n]] > 10 * stat[sized[0]]
    ensures forall p :: p in sized[..n] <==>
      p in sized && forall q :: q in sized ==> stat[p] <= 10 * stat[q]
  {
    forall p | p in sized[..n], q | q in sized ensures stat[p] <= 10 * stat[q] {
      var i :| 0 <= i < n && sized[i] == p;
      var j :| 0 <= j < |sized| && sized[j] == q;
    }
    forall p | p in sized && p !in sized[..n] ensures stat[p] > 10 * stat[sized[0]] {
      var i :| 0 <= i < |sized| && sized[i] == p;
    }
  }

  /** No four tables of similar sizes include a smallest one. */
  ghost predicate TooFew(tables: seq<Path>, stat: map<Path, nat>) {
    forall t :: Anchored(t, tables, stat) ==> |t| < 4
  }

  /** A list without repeats is no longer than a list that holds all its elements. */
  lemma {:induction false} NoRepeatsBound(t: seq<Path>, s: seq<Path>)
    requires NoRepeats(t) && forall p :: p in t ==> p in s
    ensures |t| <= |s|
  {
    if t != [] {
      assert t[0] in t && t[0] in s;
      var i :| 0 <= i < |s| && s[i] == t[0];
      var rest := s[..i] + s[i + 1..];
      forall p | p in t[1..] ensures p in rest {
        assert p in t && p in s;
        var j :| 0 <= j < |s| && s[j] == p;
        assert rest[if j < i then j else j - 1] == p;
      }
      NoRepeatsBound(t[1..], rest);
    }
  }

  lemma ShortListTooFew(tables: seq<Path>, stat: map<Path, nat>)
    requires |tables| < 4
    ensures TooFew(tables, stat)
  {
    forall t | Anchored(t, tables, stat) ensures |t| < 4 {
      NoRepeatsBound(t, tables);
    }
  }

  lemma ShortTierTooFew(tables: seq<Path>, stat: map<Path, nat>, tier: seq<Path>)
    requires |tier| < 4 && WidestAnchored(tier, tables, stat)
    ensures TooFew(tables, stat)
  {
    forall t | Anchored(t, tables, stat) ensures |t| < 4 {
      NoRepeatsBound(t, tier);
    }
  }

  /** Different tables whose sizes lie between that of q and ten times it. */
  ghost predicate Window(t: seq<Path>, tables: seq<Path>, stat: map<Path, nat>, q: Path)
    requires q in stat
  {
    && NoRepeats(t) && (forall p :: p in t ==> p in tables && p in stat)
    && forall p :: p in t ==> stat[q] <= stat[p] <= 10 * stat[q]
  }

  lemma {:induction false} SmallestOf(t: seq<Path>, stat: map<Path, nat>) returns (q: Path)
    requires t != [] && forall p :: p in t ==> p in stat
    ensures q in t && forall p :: p in t ==> stat[q] <= stat[p]
  {
    var n := |t| - 1;
    assert forall p :: p in t <==> p in t[..n] || p == t[n];
    q := t[n];
    if n != 0 {
      var r := SmallestOf(t[..n], stat);
      if stat[r] < stat[q] { q := r; }
    }
  }

  /** The tier holds every table between the size of a smallest one and ten times it. */
  lemma TierIsWindow(tables: seq<Path>, stat: map<Path, nat>, tier: seq<Path>, r: Path)
    requires WidestAnchored(tier, tables, stat) && Smallest(r, tables, stat)
    ensures Window(tier, tables, stat, r)
    ensures forall t :: Window(t, tables, stat, r) ==> |t| <= |tier|
  {
    assert r in tables && r in stat;
    forall t | Window(t, tables, stat, r) ensures |t| <= |tier| {
      forall p | p in t ensures p in tier {
        var pair := if p == r then [r] else [r, p];
        assert r in pair && p in pair && Anchored(pair, tables, stat);
      }
      NoRepeatsBound(t, tier);
    }
  }

  /** No table anchors more than n tables between its size and ten times it. */
  ghost predicate WindowsWithin(tables: seq<Path>, stat: map<Path, nat>, n: nat) {
    forall q, t :: q in tables && q in stat && Window(t, tables, stat, q) ==> |t| <= n
  }

  lemma GroupsAreWindows(tables: seq<Path>, stat: map<Path, nat>, n: nat)
    ensures (forall t :: Group(t, tables, stat) ==> |t| <= n) <==> WindowsWithin(tables, stat, n)
  {
    if forall t :: Group(t, tables, stat) ==> |t| <= n {
      forall q, t | q in tables && q in stat && Window(t, tables, stat, q) ensures |t| <= n {
        assert Group(t, tables, stat);
      }
    }
    if WindowsWithin(tables, stat, n) {
      forall t | Group(t, tables, stat) ensures |t| <= n {
        if t != [] {
          var q := SmallestOf(t, stat);
          assert Window(t, tables, stat, q);
        }
      }
    }
  }

  /** A smallest table anchors as many tables as any other one. */
  ghost predicate SmallestAnchorsMost(tables: seq<Path>, stat: map<Path, nat>, r: Path)
    requires r in stat
  {
    forall q, t :: q in tables && q in stat && Window(t, tables, stat, q) ==>
      exists u :: Window(u, tables, stat, r) && |t| <= |u|
  }

  /**
   * The tier is a largest group of similar sizes exactly when no table anchors more tables between its
   * size and ten times it than a smallest one does.
   */
  lemma LargestTierExact(tables: seq<Path>, stat: map<Path, nat>, tier: seq<Path>, r: Path)
    requires WidestAnchored(tier, tables, stat) && Smallest(r, tables, stat)
    ensures (forall t :: Group(t, tables, stat) ==> |t| <= |tier|) <==> SmallestAnchorsMost(tables, stat, r)
  {
    GroupsAreWindows(tables, stat, |tier|);
    TierIsWindow(tables, stat, tier, r);
  }

  /**
   * The group is anchored at the smallest table: one small table keeps four equal larger ones from
   * being compacted.
   */
  lemma SmallTableBlocksTier()
    ensures var stat: map<Path, nat> := map[1 := 24, 2 := 1000, 3 := 1000, 4 := 1000, 5 := 1000];
      forall p :: InTier([5, 4, 3, 2, 1], stat, p) <==> p == 1
  {
    var stat: map<Path, nat> := map[1 := 24, 2 := 1000, 3 := 1000, 4 := 1000, 5 := 1000];
    assert 1 in [5, 4, 3, 2, 1] && stat[1] == 24;
    assert InTier([5, 4, 3, 2, 1], stat, 1);
  }

  // ---- The compactor ----

  ghost function DataOf(files: map<Path, seq<Entry>>): Files {
    map p | p in files :: ToMap(files[p])
  }

  lemma SwapData(files: map<Path, seq<Entry>>, tier: seq<Path>, path: Path, out: seq<Entry>)
    ensures DataOf((files - (set p | p in tier))[path := out]) ==
      (DataOf(files) - (set p | p in tier))[path := ToMap(out)]
  {
  }

  /** The table list and the files behind it, each file taken as its entry list. */
  class Compactor {
    var tables: seq<Path>  // newest first
    var files: map<Path, seq<Entry>>

    ghost predicate Valid()
      reads this
    {
      && NoRepeats(tables)
      && (forall p :: p in tables ==> p in files)
      && (forall p :: p in files ==> Sorted(files[p]))
    }

    ghost function Data(): Files
      reads this
    {
      DataOf(files)
    }

    /** What readers see, table by table. */
    ghost function View(): seq<Layer>
      reads this
      requires Valid()
    {
      Layers(Data(), tables)
    }

    constructor ()
      ensures Valid() && tables == [] && files == map[]
    {
      tables, files := [], map[];
    }

    /** A table file is written before it is registered. */
    method WriteFile(path: Path, entries: seq<Entry>)
      requires Valid() && path !in files && Sorted(entries)
      modifies this`files
      ensures Valid() && files == old(files)[path := entries]
      ensures Data() == old(Data())[path := ToMap(entries)] && View() == old(View())
    {
      files := files[path := entries];
    }

    /** Puts a written table at the front of the list. */
    method Register(path: Path)
      requires Valid() && path in files && path !in tables
      modifies this`tables
      ensures Valid() && tables == [path] + old(tables)
      ensures View() == [ToMap(files[path])] + old(View())
    {
      tables := [path] + tables;
    }

    /** First critical section and tier selection; an empty tier means there is nothing to do. */
    method Begin(stat: map<Path, nat>) returns (tier: seq<Path>)
      requires Valid() && forall p :: p in stat ==> 0 < stat[p]
      ensures NoRepeats(tier)
      ensures tier == [] <==> TooFew(tables, stat)
      ensures tier != [] ==> |tier| >= 4 && WidestAnchored(tier, tables, stat)
      ensures tier != [] ==> forall p :: p in tier <==> InTier(tables, stat, p)
    {
      if |tables| < MIN_COMPACT_TABLES {
        ShortListTooFew(tables, stat);
        return [];
      }
      tier := SelectTier(tables, stat);
      if |tier| < MIN_COMPACT_TABLES {
        ShortTierTooFew(tables, stat, tier);
        return [];
      }
    }

    method MergeTier(tier: seq<Path>) returns (out: seq<Entry>)
      requires Valid() && forall p :: p in tier ==> p in tables
      ensures Sorted(out) && ToMap(out) == Merged(Layers(Data(), tier))
    {
      var readers: seq<seq<Entry>> := [];
      for i := 0 to |tier|
        invariant |readers| == i && forall j :: 0 <= j < i ==> readers[j] == files[tier[j]]
      {
        readers := readers + [files[tier[i]]];
      }
      out := Merge(readers);
      forall i | 0 <= i < |readers| ensures DistinctKeys(readers[i]) {
        SortedKeysDistinct(readers[i]);
      }
      MergeIsMerged(readers, out);
      assert Maps(readers) == Layers(Data(), tier);
    }

    /**
     * Second critical section: the list may have grown since the tier was chosen. Afterwards the
     * files of the tier are removed.
     */
    method Swap(tier: seq<Path>, merged: Path, out: seq<Entry>)
      requires Valid() && merged !in files && Sorted(out)
      requires forall p :: p in tier ==> p in tables
      requires ToMap(out) == Merged(Layers(Data(), tier))
      modifies this
      ensures Valid() && tables == [merged] + Kept(old(tables), tier)
      ensures Data() == SwappedFiles(old(Data()), old(tables), tier, merged)
      ensures View() == Swapped(old(Data()), old(tables), tier)
    {
      SwapData(files, tier, merged, out);
      SwappedLayers(Data(), tables, tier, merged);
      var kept := Untouched(tables, tier);
      KeptNoRepeats(tables, tier);
      tables := [merged] + kept;
      files := (files - (set p | p in tier))[merged := out];
    }
  }

  method Untouched(paths: seq<Path>, tier: seq<Path>) returns (kept: seq<Path>)
    ensures kept == Kept(paths, tier)
  {
    kept := [];
    for i := 0 to |paths|
      invariant kept == Kept(paths[..i], tier)
    {
      assert paths[..i + 1] == paths[..i] + [paths[i]];
      KeptAppend(paths[..i], paths[i], tier);
      if paths[i] !in tier {
        kept := kept + [paths[i]];
      }
    }
    assert paths[..|paths|] == paths;
  }

  lemma {:induction false} KeptAppend(paths: seq<Path>, p: Path, tier: seq<Path>)
    ensures Kept(paths + [p], tier) == Kept(paths, tier) + if p in tier then [] else [p]
  {
    if paths == [] {
      assert paths + [p] == [p] && [p][1..] == [];
    } else {
      assert (paths + [p])[1..] == paths[1..] + [p] && (paths + [p])[0] == paths[0];
      KeptAppend(paths[1..], p, tier);
      var first := if paths[0] in tier then [] else [paths[0]];
      assert Kept(paths, tier) == first + Kept(paths[1..], tier);
      assert Kept(paths + [p], tier) == first + Kept(paths[1..] + [p], tier);
    }
  }

  lemma KeptNoRepeats(paths: seq<Path>, tier: seq<Path>)
    requires NoRepeats(paths)
    ensures NoRepeats(Kept(paths, tier))
  {
    forall i, j | 0 <= i < j < |Kept(paths, tier)|
      ensures Kept(paths, tier)[i] != Kept(paths, tier)[j]
    {
      var a, b := KeptOrder(paths, tier, i, j);
    }
  }

  // ---- A read that overlaps a swap ----

  /** A read over a list of paths that skips the files it cannot open. */
  function LookupOpenable(files: Files, paths: seq<Path>, k: Key): Option<Entry> {
    if paths == [] then None
    else if paths[0] in files && k in files[paths[0]] then Some(files[paths[0]][k])
    else LookupOpenable(files, paths[1..], k)
  }

  lemma LookupFirst(files: Files, p: Path, rest: seq<Path>, k: Key)
    requires p in files && forall q :: q in rest ==> q in files
    ensures forall q :: q in [p] + rest ==> q in files
    ensures Lookup(Layers(files, [p] + rest), k) ==
      if k in files[p] then Some(files[p][k]) else Lookup(Layers(files, rest), k)
  {
    var layers := Layers(files, [p] + rest);
    assert layers[0] == files[p] && layers[1..] == Layers(files, rest);
  }

  /** With the tier's files gone, a reader holding the old list sees the kept tables only. */
  lemma {:induction false} OpenableIsKept(files: Files, after: Files, paths: seq<Path>, tier: seq<Path>, k: Key)
    requires forall p :: p in paths ==> p in files
    requires forall p :: p in paths ==> if p in tier then p !in after else p in after && after[p] == files[p]
    ensures LookupOpenable(after, paths, k) == Lookup(Layers(files, Kept(paths, tier)), k)
  {
    if paths != [] {
      var p, rest := paths[0], Kept(paths[1..], tier);
      OpenableIsKept(files, after, paths[1..], tier, k);
      if p in tier {
        assert Kept(paths, tier) == rest;
      } else {
        assert Kept(paths, tier) == [p] + rest;
        LookupFirst(files, p, rest, k);
      }
    }
  }

  /**
   * A read that took the table list before a swap and opens the files after it misses the merged
   * table. For a key it shows what it should exactly when the tier does not hold the key, a kept entry
   * is as new as the tier's winner, or the winner is a tombstone and the kept tables show nothing.
   */
  lemma OverlappingReadExact(files: Files, paths: seq<Path>, tier: seq<Path>, merged: Path, k: Key)
    requires Known(files, paths, tier) && merged !in files
    ensures var w := Winner(Layers(files, tier), k);
      var next := Lookup(Layers(files, Kept(paths, tier)), k);
      Visible(LookupOpenable(SwappedFiles(files, paths, tier, merged), paths, k)) ==
        Visible(Lookup(Layers(files, paths), k))
      <==> w.None? || (next.Some? && w.value.version <= next.value.version) ||
           (w.value.deleted && Visible(next).None?)
  {
    OpenableIsKept(files, SwappedFiles(files, paths, tier, merged), paths, tier, k);
    BeforeIsNewest(files, paths, tier, k);
    var w := Winner(Layers(files, tier), k);
    var next := Lookup(Layers(files, Kept(paths, tier)), k);
    if w.Some? && next.Some? {
      var p := WinnerPath(files, tier, k);
      var q := LookupPath(files, Kept(paths, tier), k);
      if files[p][k].version == files[q][k].version { SameVersionAgrees(files, paths, p, q, k); }
    }
  }
}
