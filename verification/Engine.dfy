/** The engine object: memtables, table list, and the operations the state machine abstracts. */
module EngineModel {
  import opened Core
  import opened SkiplistModel
  import opened CompactionModel
  import opened EngineRun
  import opened ScanModel

  class Engine {
    var memtable: Skiplist
    var immutable: Skiplist?   // the rotated memtable of a flush in progress
    const compact: Compactor
    const maxMem: nat
    ghost var phase: Phase     // how far the flush in progress has come
    ghost var merging: Option<seq<Path>>

    ghost predicate Valid()
      reads this, memtable, memtable.Repr, compact
      reads if immutable != null then {immutable} + immutable.Repr else {}
    {
      && memtable.Valid() && compact.Valid()
      && this !in memtable.Repr && compact !in memtable.Repr
      && (immutable != null ==>
            && immutable.Valid() && memtable.Repr !! immutable.Repr
            && this !in immutable.Repr && compact !in immutable.Repr)
    }

    /** The state machine's view of this object. */
    ghost function St(): State
      reads this, memtable, compact
      reads if immutable != null then {immutable} else {}
    {
      State(ToMap(memtable.contents),
            if immutable != null then Some(ToMap(immutable.contents)) else None,
            phase, compact.tables, DataOf(compact.files), merging)
    }

    constructor (maxMem: nat)
      ensures Valid() && fresh(memtable.Repr) && fresh(compact) && immutable == null
      ensures St() == INIT && this.maxMem == maxMem
    {
      memtable := new Skiplist();
      compact := new Compactor();
      immutable, phase, merging := null, Idle, None;
      this.maxMem := maxMem;
    }

    /**
     * Logs the write, then applies it to the memtable; `logged` is the outcome of the log append and
     * `lvl` the level drawn for a new node. The second result asks for a flush.
     */
    method Put(key: Key, value: Value, version: Int64, logged: bool, lvl: Level)
      returns (ok: bool, needFlush: bool)
      requires Valid()
      modifies memtable.Repr
      ensures Valid() && fresh(memtable.Repr - old(memtable.Repr))
      ensures ok == logged && needFlush == (ok && memtable.memSize >= maxMem)
      ensures St() == if ok then Next(old(St()), Write(PutOp(key, value, version))) else old(St())
    {
      if !logged {
        return false, false;
      }
      memtable.Put(key, value, version, lvl);
      return true, memtable.memSize >= maxMem;
    }

    method Delete(key: Key, version: Int64, logged: bool, lvl: Level) returns (ok: bool)
      requires Valid()
      modifies memtable.Repr
      ensures Valid() && fresh(memtable.Repr - old(memtable.Repr))
      ensures ok == logged
      ensures St() == if ok then Next(old(St()), Write(DeleteOp(key, version))) else old(St())
    {
      if !logged {
        return false;
      }
      memtable.Delete(key, version, lvl);
      return true;
    }

    // ---- The flush, one critical section at a time ----

    method Rotate() returns (rotated: bool)
      requires Valid() && phase.Idle?
      modifies this
      ensures Valid()
      ensures rotated == (old(memtable.length) != 0)
      ensures rotated ==> Possible(old(St()), EngineRun.Rotate) && St() == Next(old(St()), EngineRun.Rotate)
      ensures rotated ==> immutable == old(memtable) && fresh(memtable) && fresh(memtable.Repr)
      ensures !rotated ==> St() == old(St()) && memtable == old(memtable) && immutable == old(immutable)
    {
      LengthCountsKeys(memtable);
      if memtable.length == 0 {
        return false;
      }
      immutable := memtable;
      memtable := new Skiplist();
      phase := Rotated;
      return true;
    }

    /** Writes the immutable memtable to a new file. */
    method WriteTable(path: Path)
      requires Valid() && phase.Rotated? && immutable != null && path !in compact.files
      modifies compact, this`phase
      ensures Valid() && memtable == old(memtable) && immutable == old(immutable)
      ensures path in compact.files && compact.tables == old(compact.tables) && phase == Written(path)
      ensures Possible(old(St()), EngineRun.WriteTable(path))
      ensures St() == Next(old(St()), EngineRun.WriteTable(path))
    {
      var entries := immutable.All();
      compact.WriteFile(path, entries);
      phase := Written(path);
    }

    method RegisterTable(path: Path)
      requires Valid() && phase == Written(path) && path in compact.files && path !in compact.tables
      modifies compact, this`phase
      ensures Valid() && memtable == old(memtable) && immutable == old(immutable)
      ensures Possible(old(St()), EngineRun.RegisterTable)
      ensures St() == Next(old(St()), EngineRun.RegisterTable)
    {
      compact.Register(path);
      phase := Registered;
    }

    method ClearImmutable()
      requires Valid() && phase.Registered?
      modifies this
      ensures Valid() && memtable == old(memtable)
      ensures Possible(old(St()), EngineRun.ClearImmutable)
      ensures St() == Next(old(St()), EngineRun.ClearImmutable)
    {
      immutable := null;
      phase := Idle;
    }

    /**
     * A whole flush with nothing in between; `writes` says whether the table can be written. If not,
     * the immutable memtable stays set. An earlier one that was left set is lost.
     */
    method Flush(path: Path, writes: bool) returns (ok: bool)
      requires Valid() && Formed(St()) && phase.Idle? && path !in compact.files
      modifies this, compact
      ensures Valid() && ok == (writes || old(memtable.length) == 0)
      ensures ok ==> Formed(St()) && phase.Idle? && (old(memtable.length) != 0 ==> immutable == null)
      ensures ok && old(LeftoverUnneeded(St())) ==> forall k :: St().View(k) == old(St().View(k))
      ensures old(memtable.length) == 0 ==> St() == old(St())
      ensures !ok ==> St() == old(St()).(mem := map[], imm := Some(old(St()).mem))
    {
      ghost var s0 := St();
      var rotated := Rotate();
      if !rotated {
        return true;
      }
      if !writes {
        phase := Idle;
        return false;
      }
      FinishRotated(path, s0);
      return true;
    }

    method FinishRotated(path: Path, ghost s0: State)
      requires Valid() && phase.Rotated? && immutable != null && path !in compact.files
      requires Formed(s0) && Possible(s0, EngineRun.Rotate) && St() == Next(s0, EngineRun.Rotate)
      modifies this, compact
      ensures Valid() && immutable == null && phase.Idle?
      ensures Formed(St())
      ensures LeftoverUnneeded(s0) ==> forall k :: St().View(k) == s0.View(k)
    {
      FinishFlush(path);
      FlushKeepsForm(s0, path);
      if LeftoverUnneeded(s0) { FlushKeepsView(s0, path); }
    }

    method FinishFlush(path: Path)
      requires Valid() && phase.Rotated? && immutable != null && path !in compact.files
      modifies this, compact
      ensures Valid() && immutable == null && phase.Idle?
      ensures var s := old(St());
        && s.Tabled() && path !in s.files && path !in s.tables
        && St() == s.(imm := None, phase := Idle, tables := [path] + s.tables,
                      files := s.files[path := s.imm.value])
    {
      WriteTable(path);
      RegisterTable(path);
      ClearImmutable();
    }

    // ---- A compaction, one critical section at a time ----

    /** Chooses a tier from the file sizes; an empty one means that there is nothing to compact. */
    method BeginMerge(stat: map<Path, nat>) returns (tier: seq<Path>)
      requires Valid() && merging.None? && forall p :: p in stat ==> 0 < stat[p]
      modifies this`merging
      ensures Valid() && (tier == [] <==> TooFew(compact.tables, stat)) && (tier == [] ==> St() == old(St()))
      ensures tier != [] ==>
        && WidestAnchored(tier, compact.tables, stat)
        && Possible(old(St()), EngineRun.BeginMerge(tier))
        && St() == Next(old(St()), EngineRun.BeginMerge(tier))
    {
      tier := compact.Begin(stat);
      if tier != [] {
        merging := Some(tier);
      }
    }

    /** Merges the tier, then swaps it for the merged table; what was registered meanwhile stays. */
    method SwapMerged(tier: seq<Path>, path: Path)
      requires Valid() && merging == Some(tier) && path !in compact.files
      requires forall p :: p in tier ==> p in compact.tables
      modifies compact, this`merging
      ensures Valid()
      ensures Possible(old(St()), EngineRun.SwapMerged(path))
      ensures St() == Next(old(St()), EngineRun.SwapMerged(path))
    {
      var out := compact.MergeTier(tier);
      compact.Swap(tier, path, out);
      merging := None;
    }

    // ---- Reads ----

    /** Memtable, then immutable memtable, then the tables from newest to oldest. */
    method Get(key: Key) returns (entry: Entry, found: bool)
      requires Valid()
      ensures St().Tabled()
      ensures found <==> St().View(key).Some?
      ensures found ==> St().View(key) == Some(CellOf(entry))
      ensures var r := Lookup(St().ReadOrder(), key);
        entry == if r.Some? then r.value else Entry([], [], 0, false)
    {
      var r := memtable.Get(key);
      if r.None? && immutable != null {
        r := immutable.Get(key);
      }
      if r.None? {
        r := GetFromTables(key);
      }
      LookupReadOrder(St(), key);
      if r.None? {
        return Entry([], [], 0, false), false;
      }
      return r.value, !r.value.deleted;
    }

    method GetFromTables(key: Key) returns (r: Option<Entry>)
      requires Valid()
      ensures r == Lookup(Layers(DataOf(compact.files), compact.tables), key)
    {
      ghost var layers := Layers(DataOf(compact.files), compact.tables);
      var tables := compact.tables;
      for i := 0 to |tables|
        invariant Lookup(layers, key) == Lookup(layers[i..], key)
      {
        r := GetFromTable(compact.files[tables[i]], key);
        assert layers[i..][1..] == layers[i + 1..];
        if r.Some? {
          return;
        }
      }
      r := None;
    }

    /** The entry lists of the layers, in read order. */
    ghost function Lists(): seq<seq<Entry>>
      reads this, memtable, compact
      reads if immutable != null then {immutable} else {}
      requires compact.Valid()
    {
      [memtable.contents] + (if immutable != null then [immutable.contents] else []) +
      TableLists(compact.files, compact.tables)
    }

    lemma ListsAreLayers()
      requires Valid()
      ensures Maps(Lists()) == St().ReadOrder()
      ensures forall i :: 0 <= i < |Lists()| ==> Sorted(Lists()[i])
    {
      var tables := TableLists(compact.files, compact.tables);
      assert Maps(tables) == St().TableLayers();
      if immutable != null {
        assert Maps(Lists()) == [ToMap(memtable.contents)] + [ToMap(immutable.contents)] + Maps(tables);
      } else {
        assert Maps(Lists()) == [ToMap(memtable.contents)] + Maps(tables);
      }
    }

    /** Entries with key >= prefix; each layer is cut at a positive limit of its own. */
    method Scan(prefix: Key, limit: int) returns (results: seq<Entry>)
      requires Valid()
      ensures Shows(results, Slices(Lists(), prefix, limit))
      ensures St().Tabled() && forall k :: ScanIsRight(Lists(), prefix, limit, results, St(), k)
      ensures 0 < limit ==> |results| <= limit * |Lists()|
    {
      var parts := Parts(prefix, limit);
      ListsAreLayers();
      PartsAreSlices(parts, Lists(), prefix, limit);
      results := Gather(parts);
      LimitedScanSize(Lists(), prefix, limit, results);
      forall k ensures ScanIsRight(Lists(), prefix, limit, results, St(), k) {
        ScanAgainstReads(Lists(), prefix, limit, results, St(), k);
      }
    }

    method Parts(prefix: Key, limit: int) returns (parts: seq<seq<Entry>>)
      requires Valid()
      ensures |parts| == |Lists()|
      ensures forall i :: 0 <= i < |parts| ==> parts[i] == Slice(Lists()[i], prefix, limit)
    {
      var part := memtable.Scan(prefix, [], limit);
      parts := [part];
      if immutable != null {
        part := immutable.Scan(prefix, [], limit);
        parts := parts + [part];
      }
      var rest := TableParts(prefix, limit);
      parts := parts + rest;
    }

    method TableParts(prefix: Key, limit: int) returns (parts: seq<seq<Entry>>)
      requires compact.Valid()
      ensures |parts| == |compact.tables|
      ensures forall i :: 0 <= i < |parts| ==>
        parts[i] == Slice(compact.files[compact.tables[i]], prefix, limit)
    {
      parts := [];
      for i := 0 to |compact.tables|
        invariant |parts| == i
        invariant forall j :: 0 <= j < i ==>
          parts[j] == Slice(compact.files[compact.tables[j]], prefix, limit)
      {
        parts := parts + [Slice(compact.files[compact.tables[i]], prefix, limit)];
      }
    }

    /** All live entries. */
    method Snapshot() returns (entries: seq<Entry>)
      requires Valid()
      ensures DistinctKeys(entries) && (forall e :: e in entries ==> !e.deleted)
      ensures forall k :: St().View(k) == Shown(Cells(ToMap(entries)), k)
    {
      entries := Scan([], 0);
      ListsAreLayers();
      forall k ensures St().View(k) == Shown(Cells(ToMap(entries)), k) {
        UnlimitedScanAgreesWithReads(Lists(), [], entries, k);
      }
      forall e | e in entries ensures !e.deleted {
        var i :| 0 <= i < |entries| && entries[i] == e;
        ToMapHas(entries, i);
        var j := ToMapFrom(entries, e.key);
      }
    }

    /** Replaces the active memtable; the other layers are left as they are. */
    method Restore(entries: seq<Entry>, draw: nat -> Level)
      requires Valid()
      modifies this`memtable
      ensures Valid() && fresh(memtable.Repr)
      ensures St() == old(St()).(mem := RestoredMem(entries))
    {
      var m := BuildMemtable(entries, draw);
      memtable := m;
    }

    static method BuildMemtable(entries: seq<Entry>, draw: nat -> Level) returns (m: Skiplist)
      ensures fresh(m) && fresh(m.Repr) && m.Valid() && ToMap(m.contents) == RestoredMem(entries)
    {
      m := new Skiplist();
      for i := 0 to |entries|
        invariant m.Valid() && fresh(m) && fresh(m.Repr)
        invariant ToMap(m.contents) == RestoredMem(entries[..i])
      {
        var e := entries[i];
        m.Put(e.key, e.value, e.version, draw(i));
        assert entries[..i + 1][..i] == entries[..i];
      }
      assert entries[..|entries|] == entries;
    }

    /** Applies decoded log records to the memtable, as recovery does. */
    method ReplayInto(ops: seq<Op>, draw: nat -> Level)
      requires Valid() && St().mem == map[]
      modifies memtable.Repr
      ensures Valid() && fresh(memtable.Repr - old(memtable.Repr))
      ensures St() == old(St()).(mem := ReplayMem(ops))
    {
      for i := 0 to |ops|
        invariant Valid() && fresh(memtable.Repr - old(memtable.Repr))
        invariant St() == old(St()).(mem := ReplayMem(ops[..i]))
      {
        if ops[i].PutOp? {
          memtable.Put(ops[i].key, ops[i].value, ops[i].version, draw(i));
        } else {
          memtable.Delete(ops[i].key, ops[i].version, draw(i));
        }
        assert ops[..i + 1][..i] == ops[..i];
      }
      assert ops[..|ops|] == ops;
    }
  }

  /** Nothing below the prefix is returned, and above it reads are met exactly where the cuts allow it. */
  ghost predicate ScanIsRight(lists: seq<seq<Entry>>, prefix: Key, limit: int, results: seq<Entry>, s: State, k: Key)
    requires s.Tabled()
  {
    if Less(k, prefix) then k !in ToMap(results)
    else Shown(Cells(ToMap(results)), k) == s.View(k) <==> ScanAgrees(lists, prefix, limit, k)
  }

  lemma ScanAgainstReads(lists: seq<seq<Entry>>, prefix: Key, limit: int, results: seq<Entry>, s: State, k: Key)
    requires (forall i :: 0 <= i < |lists| ==> Sorted(lists[i])) && s.Tabled() && Maps(lists) == s.ReadOrder()
    requires Shows(results, Slices(lists, prefix, limit))
    ensures ScanIsRight(lists, prefix, limit, results, s, k)
  {
    ShowsIs(results, Slices(lists, prefix, limit), k);
    if Less(k, prefix) {
      BelowPrefix(lists, prefix, limit, k);
    } else {
      LimitedScanExact(lists, prefix, limit, k);
    }
  }

  /** The memtable a restore builds: every entry is put back as live. */
  function RestoredMem(entries: seq<Entry>): Layer {
    if entries == [] then map[]
    else
      var e := entries[|entries| - 1];
      RestoredMem(entries[..|entries| - 1])[e.key := Entry(e.key, e.value, e.version, false)]
  }

  lemma {:induction false} RestoredMemIs(entries: seq<Entry>)
    requires DistinctKeys(entries) && forall e :: e in entries ==> !e.deleted
    ensures RestoredMem(entries) == ToMap(entries)
  {
    if entries != [] {
      var n := |entries| - 1;
      RestoredMemIs(entries[..n]);
      DistinctPrefix(entries, n);
      assert entries == entries[..n] + [entries[n]];
      AppendMap(entries[..n], entries[n]);
    }
  }

  /** Restoring a snapshot into an engine without tables gives the reads of the engine it was taken from. */
  lemma SnapshotRoundTrip(from: State, into: State, entries: seq<Entry>, k: Key)
    requires from.Tabled() && from.View(k) == Shown(Cells(ToMap(entries)), k)
    requires DistinctKeys(entries) && forall e :: e in entries ==> !e.deleted
    requires into.imm.None? && into.tables == []
    ensures into.(mem := RestoredMem(entries)).Tabled()
    ensures into.(mem := RestoredMem(entries)).View(k) == from.View(k)
  {
    RestoredMemIs(entries);
    MemOnlyView(into.(mem := RestoredMem(entries)), k);
  }

  ghost function TableLists(files: map<Path, seq<Entry>>, paths: seq<Path>): (r: seq<seq<Entry>>)
    requires forall p :: p in paths ==> p in files
    ensures |r| == |paths| && forall i :: 0 <= i < |r| ==> r[i] == files[paths[i]]
  {
    seq(|paths|, i requires 0 <= i < |paths| => files[paths[i]])
  }

  /** A table read: what the byte-level reader is proved to return. */
  method GetFromTable(entries: seq<Entry>, key: Key) returns (r: Option<Entry>)
    requires Sorted(entries)
    ensures r == if key in ToMap(entries) then Some(ToMap(entries)[key]) else None
  {
    for i := 0 to |entries|
      invariant key !in ToMap(entries[..i])
    {
      if entries[i].key == key {
        ToMapAt(entries, i);
        return Some(entries[i]);
      }
      assert entries[..i + 1] == entries[..i] + [entries[i]];
      AppendElsewhere(entries[..i], entries[i], key);
    }
    assert entries[..|entries|] == entries;
    return None;
  }

  lemma AppendElsewhere(s: seq<Entry>, e: Entry, key: Key)
    requires key !in ToMap(s) && e.key != key
    ensures key !in ToMap(s + [e])
  {
    if key in ToMap(s + [e]) {
      var i := ToMapFrom(s + [e], key);
      if i < |s| { ToMapHas(s, i); }
    }
  }
}
