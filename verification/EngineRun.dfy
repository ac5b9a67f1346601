/**
 * The engine as a state machine: writes to the memtable, the lock-separated steps of a flush, and
 * the two critical sections of a compaction, in any interleaving.
 */
module EngineRun {
  import opened Core
  import opened CompactionModel

  datatype Op = PutOp(key: Key, value: Value, version: Int64) | DeleteOp(key: Key, version: Int64)

  // ---- The specification: a last-write-wins map ----

  function ApplyOp(m: map<Key, Cell>, op: Op): map<Key, Cell> {
    m[op.key := if op.PutOp? then Live(op.value, op.version) else Tombstone(op.version)]
  }

  function Replay(ops: seq<Op>): map<Key, Cell> {
    if ops == [] then map[] else ApplyOp(Replay(ops[..|ops| - 1]), ops[|ops| - 1])
  }

  function Shown(m: map<Key, Cell>, k: Key): Option<Cell> {
    if k in m && m[k].Live? then Some(m[k]) else None
  }

  // ---- The engine ----

  /** How far the flush in progress has come. */
  datatype Phase = Idle | Rotated | Written(path: Path) | Registered

  datatype State = State(
    mem: Layer,
    imm: Option<Layer>,
    phase: Phase,
    tables: seq<Path>,
    files: Files,
    merging: Option<seq<Path>>)
  {
    ghost predicate Tabled() {
      forall p :: p in tables ==> p in files
    }

    function TableLayers(): seq<Layer>
      requires Tabled()
    {
      Layers(files, tables)
    }

    /** The layers a read goes through, in order. */
    function ReadOrder(): seq<Layer>
      requires Tabled()
    {
      [mem] + (if imm.Some? then [imm.value] else []) + TableLayers()
    }

    function View(k: Key): Option<Cell>
      requires Tabled()
    {
      Visible(Lookup(ReadOrder(), k))
    }
  }

  const INIT: State := State(map[], None, Idle, [], map[], None)

  datatype Step =
    | Write(op: Op)
    | Rotate                    // swap in a fresh memtable
    | WriteTable(path: Path)    // write the immutable memtable to a file
    | FailTable                 // writing it fails; the immutable memtable stays set
    | RegisterTable             // put the file at the front of the table list
    | ClearImmutable
    | BeginMerge(tier: seq<Path>)
    | SwapMerged(path: Path)

  function MemWrite(mem: Layer, op: Op): Layer {
    if op.PutOp? then mem[op.key := Entry(op.key, op.value, op.version, false)]
    else mem[op.key := Entry(op.key, if op.key in mem then mem[op.key].value else [], op.version, true)]
  }

  ghost predicate Possible(s: State, step: Step) {
    s.Tabled() &&
    match step
    case Write(_) => true
    case Rotate => s.phase.Idle? && s.mem != map[]
    case WriteTable(path) => s.phase.Rotated? && s.imm.Some? && path !in s.files
    case FailTable => s.phase.Rotated?
    case RegisterTable => s.phase.Written? && s.phase.path in s.files && s.phase.path !in s.tables
    case ClearImmutable => s.phase.Registered?
    case BeginMerge(tier) => s.merging.None? && |tier| >= MIN_COMPACT_TABLES && NoRepeats(tier) &&
                             forall p :: p in tier ==> p in s.tables
    case SwapMerged(path) => s.merging.Some? && path !in s.files &&
                             forall p :: p in s.merging.value ==> p in s.tables
  }

  ghost function Next(s: State, step: Step): State
    requires Possible(s, step)
  {
    match step
    case Write(op) => s.(mem := MemWrite(s.mem, op))
    case Rotate => s.(mem := map[], imm := Some(s.mem), phase := Rotated)
    case WriteTable(path) => s.(files := s.files[path := s.imm.value], phase := Written(path))
    case FailTable => s.(phase := Idle)
    case RegisterTable => s.(tables := [s.phase.path] + s.tables, phase := Registered)
    case ClearImmutable => s.(imm := None, phase := Idle)
    case BeginMerge(tier) => s.(merging := Some(tier))
    case SwapMerged(path) =>
      var tier := s.merging.value;
      s.(tables := [path] + Kept(s.tables, tier),
         files := SwappedFiles(s.files, s.tables, tier, path),
         merging := None)
  }

  /** An immutable memtable left by a failed table write shows nothing that the tables do not. */
  ghost predicate LeftoverUnneeded(s: State)
    requires s.Tabled()
  {
    s.imm.Some? ==> forall k :: k in s.imm.value && k !in s.mem ==>
      Visible(Some(s.imm.value[k])) == Visible(Lookup(s.TableLayers(), k))
  }

  /** A flush discards no leftover that is needed, and a swap is safe for every key when it happens. */
  ghost predicate Benign(s: State, step: Step)
    requires Possible(s, step)
  {
    && (step.Rotate? ==> LeftoverUnneeded(s))
    && (step.SwapMerged? ==> forall k :: SafeFor(s.files, s.tables, s.merging.value, k))
  }

  /** The state a sequence of steps leads to from a fresh engine, if every step was possible. */
  ghost function Exec(steps: seq<Step>): Option<State> {
    if steps == [] then Some(INIT)
    else
      var s, step := Exec(steps[..|steps| - 1]), steps[|steps| - 1];
      if s.Some? && Possible(s.value, step) then Some(Next(s.value, step)) else None
  }

  ghost predicate AllBenign(steps: seq<Step>)
    requires Exec(steps).Some?
  {
    steps == [] ||
    (AllBenign(steps[..|steps| - 1]) && Benign(Exec(steps[..|steps| - 1]).value, steps[|steps| - 1]))
  }

  function Ops(steps: seq<Step>): seq<Op> {
    if steps == [] then []
    else Ops(steps[..|steps| - 1]) + if steps[|steps| - 1].Write? then [steps[|steps| - 1].op] else []
  }

  /** Versions are log indexes, so they grow from write to write. */
  ghost predicate Increasing(ops: seq<Op>) {
    forall i, j :: 0 <= i < j < |ops| ==> ops[i].version < ops[j].version
  }

  predicate NoSwap(steps: seq<Step>) {
    forall i :: 0 <= i < |steps| ==> !steps[i].SwapMerged?
  }

  // ---- What every step keeps ----

  ghost predicate Shaped(s: State) {
    && s.Tabled()
    && (!s.phase.Idle? ==> s.imm.Some?)
    && (s.phase.Written? ==> s.phase.path in s.files && s.files[s.phase.path] == s.imm.value &&
                             s.phase.path !in s.tables)
    && (s.merging.Some? ==> forall p :: p in s.merging.value ==> p in s.tables)
  }

  ghost predicate Formed(s: State) {
    Shaped(s) && (s.phase.Registered? ==> Mirrored(s))
  }

  /** Once registered, the tables alone show what the immutable memtable shows. */
  ghost predicate Mirrored(s: State)
    requires s.Tabled() && s.imm.Some?
  {
    forall k :: k in s.imm.value ==>
      Visible(Lookup(s.TableLayers(), k)) == Visible(Some(s.imm.value[k]))
  }

  /** Reading layer by layer. */
  lemma ViewIs(s: State, k: Key)
    requires s.Tabled()
    ensures s.View(k) ==
      if k in s.mem then Visible(Some(s.mem[k]))
      else if s.imm.Some? && k in s.imm.value then Visible(Some(s.imm.value[k]))
      else Visible(Lookup(s.TableLayers(), k))
  {
    LookupReadOrder(s, k);
  }

  lemma LookupReadOrder(s: State, k: Key)
    requires s.Tabled()
    ensures Lookup(s.ReadOrder(), k) ==
      if k in s.mem then Some(s.mem[k])
      else if s.imm.Some? && k in s.imm.value then Some(s.imm.value[k])
      else Lookup(s.TableLayers(), k)
  {
    var below := (if s.imm.Some? then [s.imm.value] else []) + s.TableLayers();
    assert s.ReadOrder() == [s.mem] + below;
    LookupCons(s.mem, below, k);
    if s.imm.Some? { LookupCons(s.imm.value, s.TableLayers(), k); } else { assert below == s.TableLayers(); }
  }

  lemma LookupCons(layer: Layer, rest: seq<Layer>, k: Key)
    ensures Lookup([layer] + rest, k) == if k in layer then Some(layer[k]) else Lookup(rest, k)
  {
    assert ([layer] + rest)[1..] == rest;
  }

  /** The tables show the same of every key after a swap; for tables newest first that is its safety. */
  ghost predicate Unseen(s: State, step: Step)
    requires Possible(s, step)
  {
    && (step.Rotate? ==> LeftoverUnneeded(s))
    && (step.SwapMerged? ==> forall k ::
          Visible(Lookup(Swapped(s.files, s.tables, s.merging.value), k)) == Visible(Lookup(s.TableLayers(), k)))
  }

  lemma SafeIsUnseen(s: State, step: Step)
    requires Possible(s, step) && Benign(s, step) && (step.SwapMerged? ==> NewestFirst(s.TableLayers()))
    ensures Unseen(s, step)
  {
    if step.SwapMerged? {
      forall k
        ensures Visible(Lookup(Swapped(s.files, s.tables, s.merging.value), k)) == Visible(Lookup(s.TableLayers(), k))
      {
        CompactionExact(s.files, s.tables, s.merging.value, k);
      }
    }
  }

  /** Every step other than a write leaves every key's view as it was. */
  lemma UnseenKeepsView(s: State, step: Step, k: Key)
    requires Possible(s, step) && Formed(s) && Unseen(s, step) && !step.Write?
    ensures Next(s, step).Tabled() && Next(s, step).View(k) == s.View(k)
  {
    var t := Next(s, step);
    ViewIs(s, k);
    match step {
      case WriteTable(path) =>
        assert t.TableLayers() == s.TableLayers();
      case RegisterTable =>
        assert t.TableLayers()[0] == s.imm.value && t.TableLayers()[1..] == s.TableLayers();
      case SwapMerged(path) =>
        SwapLayers(s, path);
      case _ =>
    }
    ViewIs(t, k);
  }

  lemma StepKeepsView(s: State, step: Step, k: Key)
    requires Possible(s, step) && Formed(s) && Benign(s, step) && !step.Write?
    requires step.SwapMerged? ==> NewestFirst(s.TableLayers())
    ensures Next(s, step).Tabled() && Next(s, step).View(k) == s.View(k)
  {
    SafeIsUnseen(s, step);
    UnseenKeepsView(s, step, k);
  }

  lemma SwapLayers(s: State, path: Path)
    requires Possible(s, SwapMerged(path))
    ensures Next(s, SwapMerged(path)).Tabled()
    ensures Next(s, SwapMerged(path)).TableLayers() == Swapped(s.files, s.tables, s.merging.value)
  {
    SwappedLayers(s.files, s.tables, s.merging.value, path);
  }

  lemma StepKeepsForm(s: State, step: Step)
    requires Possible(s, step) && Formed(s) && Benign(s, step)
    requires step.SwapMerged? ==> NewestFirst(s.TableLayers())
    ensures Formed(Next(s, step))
  {
    SafeIsUnseen(s, step);
    UnseenKeepsForm(s, step);
  }

  lemma UnseenKeepsForm(s: State, step: Step)
    requires Possible(s, step) && Formed(s) && Unseen(s, step)
    ensures Formed(Next(s, step))
  {
    var t := Next(s, step);
    match step {
      case RegisterTable =>
        forall k | k in s.imm.value
          ensures Visible(Lookup(t.TableLayers(), k)) == Visible(Some(s.imm.value[k]))
        {
          assert t.TableLayers() == [s.imm.value] + s.TableLayers();
          LookupCons(s.imm.value, s.TableLayers(), k);
        }
      case BeginMerge(tier) =>
        assert t.TableLayers() == s.TableLayers();
      case Write(op) =>
        assert t.TableLayers() == s.TableLayers();
      case SwapMerged(path) =>
        SwapLayers(s, path);
      case _ =>
    }
  }

  lemma WriteView(s: State, op: Op, k: Key)
    requires s.Tabled()
    ensures var t := Next(s, Write(op));
      t.Tabled() && t.View(k) == if k == op.key then Shown(ApplyOp(map[], op), k) else s.View(k)
  {
    var t := Next(s, Write(op));
    assert t.TableLayers() == s.TableLayers();
    ViewIs(s, k);
    ViewIs(t, k);
  }

  /** The four steps of a flush in a row. */
  ghost function Flushed(s: State, path: Path): State
    requires Possible(s, Rotate) && Formed(s) && path !in s.files
  {
    var s1 := Next(s, Rotate);
    var s2 := Next(s1, WriteTable(path));
    var s3 := Next(s2, RegisterTable);
    Next(s3, ClearImmutable)
  }

  lemma FlushKeepsForm(s: State, path: Path)
    requires Possible(s, Rotate) && Formed(s) && path !in s.files
    ensures Formed(Flushed(s, path))
  {
    var s1 := Next(s, Rotate);
    assert s1.TableLayers() == s.TableLayers();
    var s2 := Next(s1, WriteTable(path));
    StepKeepsForm(s1, WriteTable(path));
    StepKeepsForm(s2, RegisterTable);
    StepKeepsForm(Next(s2, RegisterTable), ClearImmutable);
  }

  lemma FlushKeepsView(s: State, path: Path)
    requires Possible(s, Rotate) && Formed(s) && path !in s.files && LeftoverUnneeded(s)
    ensures Formed(Flushed(s, path)) && forall k :: Flushed(s, path).View(k) == s.View(k)
  {
    var s1 := Next(s, Rotate);
    StepKeepsForm(s, Rotate);
    var s2 := Next(s1, WriteTable(path));
    StepKeepsForm(s1, WriteTable(path));
    var s3 := Next(s2, RegisterTable);
    StepKeepsForm(s2, RegisterTable);
    StepKeepsForm(s3, ClearImmutable);
    forall k ensures Flushed(s, path).View(k) == s.View(k) {
      StepKeepsView(s, Rotate, k);
      StepKeepsView(s1, WriteTable(path), k);
      StepKeepsView(s2, RegisterTable, k);
      StepKeepsView(s3, ClearImmutable, k);
    }
  }

  // ---- Version order of the layers ----

  ghost predicate Over(a: Layer, b: Layer) {
    forall k :: k in a && k in b ==> Covers(a[k], b[k])
  }

  ghost predicate OverTables(a: Layer, s: State)
    requires s.Tabled()
  {
    forall p :: p in s.tables ==> Over(a, s.files[p])
  }

  ghost predicate Bounded(a: Layer, top: int) {
    forall k :: k in a ==> a[k].version <= top
  }

  /** Every layer is newer than the ones behind it, and no version is above `top`. */
  ghost predicate Ordered(s: State, top: int)
    requires s.Tabled()
  {
    && NewestFirst(s.TableLayers())
    && OverTables(s.mem, s) && Bounded(s.mem, top)
    && (s.imm.Some? ==> Over(s.mem, s.imm.value) && OverTables(s.imm.value, s) && Bounded(s.imm.value, top))
    && (forall p :: p in s.tables ==> Bounded(s.files[p], top))
  }

  lemma RegisterKeepsOrder(s: State, top: int)
    requires Possible(s, RegisterTable) && Formed(s) && Ordered(s, top)
    ensures Ordered(Next(s, RegisterTable), top)
  {
    var t := Next(s, RegisterTable);
    assert t.TableLayers() == [s.imm.value] + s.TableLayers();
    forall i | 0 <= i < |s.tables| ensures Over(s.imm.value, s.TableLayers()[i]) {
      assert s.tables[i] in s.tables;
    }
    NewestFirstCons(s.imm.value, s.TableLayers());
  }

  lemma NewestFirstCons(layer: Layer, tables: seq<Layer>)
    requires NewestFirst(tables) && forall i :: 0 <= i < |tables| ==> Over(layer, tables[i])
    ensures NewestFirst([layer] + tables)
  {
    var all := [layer] + tables;
    forall i, j, k | 0 <= i < j < |all| && k in all[i] && k in all[j] ensures Covers(all[i][k], all[j][k]) {
      assert all[j] == tables[j - 1];
      if i == 0 { assert Over(layer, tables[j - 1]); } else { assert all[i] == tables[i - 1]; }
    }
  }

  /** Whatever bounds every table of the tier bounds the merged table. */
  lemma MergedFrom(files: Files, tier: seq<Path>, a: Layer, top: int)
    requires forall p :: p in tier ==> p in files
    requires forall p :: p in tier ==> Over(a, files[p]) && Bounded(files[p], top)
    ensures Over(a, Merged(Layers(files, tier))) && Bounded(Merged(Layers(files, tier)), top)
  {
    var m := Merged(Layers(files, tier));
    forall k | k in m ensures m[k].version <= top && (k in a ==> Covers(a[k], m[k])) {
      MergedIsWinner(Layers(files, tier), k);
      var p := WinnerPath(files, tier, k);
      assert Over(a, files[p]);
    }
  }

  lemma SwapKeepsOrder(s: State, path: Path, top: int)
    requires Possible(s, SwapMerged(path)) && Formed(s) && Benign(s, SwapMerged(path)) && Ordered(s, top)
    ensures Next(s, SwapMerged(path)).Tabled() && Ordered(Next(s, SwapMerged(path)), top)
  {
    var t, tier := Next(s, SwapMerged(path)), s.merging.value;
    SwapLayers(s, path);
    CompactionKeepsOrder(s.files, s.tables, tier);
    MergedFrom(s.files, tier, s.mem, top);
    if s.imm.Some? { MergedFrom(s.files, tier, s.imm.value, top); }
    forall p | p in t.tables
      ensures Over(s.mem, t.files[p]) && Bounded(t.files[p], top)
      ensures s.imm.Some? ==> Over(s.imm.value, t.files[p])
    {
      if p != path { assert p in Kept(s.tables, tier) && t.files[p] == s.files[p]; }
    }
  }

  lemma StepKeepsOrder(s: State, step: Step, top: int)
    requires Possible(s, step) && Formed(s) && Benign(s, step) && Ordered(s, top)
    requires step.Write? ==> top < step.op.version
    ensures Next(s, step).Tabled()
    ensures Ordered(Next(s, step), if step.Write? then step.op.version else top)
  {
    var t := Next(s, step);
    match step {
      case Write(op) => assert t.TableLayers() == s.TableLayers();
      case Rotate => assert t.TableLayers() == s.TableLayers();
      case WriteTable(path) => assert t.TableLayers() == s.TableLayers();
      case RegisterTable => RegisterKeepsOrder(s, top);
      case FailTable => assert t.TableLayers() == s.TableLayers();
      case ClearImmutable => assert t.TableLayers() == s.TableLayers();
      case BeginMerge(tier) => assert t.TableLayers() == s.TableLayers();
      case SwapMerged(path) => SwapKeepsOrder(s, path, top);
    }
  }

  // ---- Main theorem ----

  function Top(ops: seq<Op>): int {
    if ops == [] then -TWO_63 - 1 else ops[|ops| - 1].version
  }

  lemma {:induction false} RunInvariant(steps: seq<Step>)
    requires Exec(steps).Some? && AllBenign(steps)
    requires NoSwap(steps) || Increasing(Ops(steps))
    ensures var s := Exec(steps).value;
      && Formed(s)
      && (forall k :: s.View(k) == Shown(Replay(Ops(steps)), k))
      && (Increasing(Ops(steps)) ==> Ordered(s, Top(Ops(steps))))
  {
    if steps == [] {
      assert Formed(INIT);
      assert INIT.TableLayers() == [];
      forall k ensures INIT.View(k) == None { ViewIs(INIT, k); }
    } else {
      var n := |steps| - 1;
      var prefix, step := steps[..n], steps[n];
      var s := Exec(prefix).value;
      OpsGrow(steps);
      assert NoSwap(steps) ==> NoSwap(prefix);
      RunInvariant(prefix);
      StepKeepsForm(s, step);
      forall k ensures Next(s, step).View(k) == Shown(Replay(Ops(steps)), k) {
        StepView(s, step, Ops(prefix), k);
      }
      if Increasing(Ops(steps)) {
        StepKeepsOrder(s, step, Top(Ops(prefix)));
      }
    }
  }

  lemma OpsGrow(steps: seq<Step>)
    requires steps != []
    ensures var prefix, step := steps[..|steps| - 1], steps[|steps| - 1];
      && Ops(steps) == Ops(prefix) + (if step.Write? then [step.op] else [])
      && (Increasing(Ops(steps)) ==> Increasing(Ops(prefix)))
      && (Increasing(Ops(steps)) && step.Write? ==> Top(Ops(prefix)) < step.op.version)
  {
    var prefix, step := steps[..|steps| - 1], steps[|steps| - 1];
    var ops := Ops(prefix);
    if Increasing(Ops(steps)) {
      assert forall i :: 0 <= i < |ops| ==> Ops(steps)[i] == ops[i];
      if step.Write? && ops != [] {
        assert Ops(steps)[|ops| - 1].version < Ops(steps)[|ops|].version;
      }
    }
  }

  lemma StepView(s: State, step: Step, ops: seq<Op>, k: Key)
    requires Possible(s, step) && Formed(s) && Benign(s, step)
    requires step.SwapMerged? ==> NewestFirst(s.TableLayers())
    requires s.View(k) == Shown(Replay(ops), k)
    ensures Next(s, step).Tabled()
    ensures Next(s, step).View(k) == Shown(Replay(ops + if step.Write? then [step.op] else []), k)
  {
    if step.Write? {
      WriteView(s, step.op, k);
      assert (ops + [step.op])[..|ops|] == ops;
    } else {
      StepKeepsView(s, step, k);
      assert ops + [] == ops;
    }
  }

  /**
   * In every run in which no flush discards a leftover that is needed and each compaction swap is safe,
   * what a read shows of any key is what a last-write-wins map of the writes so far shows. Table writes
   * may fail at any time.
   */
  lemma LastWriteWins(steps: seq<Step>, k: Key)
    requires Exec(steps).Some? && AllBenign(steps)
    requires NoSwap(steps) || Increasing(Ops(steps))
    ensures Exec(steps).value.Tabled()
    ensures Exec(steps).value.View(k) == Shown(Replay(Ops(steps)), k)
  {
    RunInvariant(steps);
  }

  /** A swap of all the tables in the list is always safe in such a run. */
  lemma FullSwapIsBenign(steps: seq<Step>, path: Path)
    requires Exec(steps).Some? && AllBenign(steps) && Increasing(Ops(steps))
    requires Possible(Exec(steps).value, SwapMerged(path))
    requires var s := Exec(steps).value; forall p :: p in s.tables ==> p in s.merging.value
    ensures Benign(Exec(steps).value, SwapMerged(path))
  {
    RunInvariant(steps);
    var s := Exec(steps).value;
    forall k ensures SafeFor(s.files, s.tables, s.merging.value, k) {
      FullTierIsSafe(s.files, s.tables, s.merging.value, k);
    }
  }

  // ---- After a failed table write ----

  /**
   * A flush that finds a leftover immutable memtable discards it. Reads are unaffected exactly when
   * every key of the leftover that the memtable does not hide reads the same from the tables.
   */
  lemma RotateOverLeftover(s: State)
    requires Possible(s, Rotate) && s.imm.Some?
    ensures Next(s, Rotate).Tabled()
    ensures (forall k :: Next(s, Rotate).View(k) == s.View(k)) <==> LeftoverUnneeded(s)
  {
    var t := Next(s, Rotate);
    assert t.TableLayers() == s.TableLayers();
    forall k
      ensures t.View(k) == s.View(k) <==> (k in s.imm.value && k !in s.mem ==>
        Visible(Some(s.imm.value[k])) == Visible(Lookup(s.TableLayers(), k)))
    {
      ViewIs(s, k);
      ViewIs(t, k);
    }
  }

  /**
   * A failed table write followed by a write of another key and a second flush loses every key that
   * the first flush was carrying and no table shows.
   */
  lemma FailedFlushLosesWrites(s: State, a: Key, op: Op)
    requires Formed(s) && s.phase.Idle? && a in s.mem && !s.mem[a].deleted && op.key != a
    requires Visible(Lookup(s.TableLayers(), a)) == None
    ensures Possible(s, Rotate) && Possible(Next(s, Rotate), FailTable)
    ensures var t := Next(Next(Next(s, Rotate), FailTable), Write(op));
      && Possible(t, Rotate) && Next(t, Rotate).Tabled()
      && s.View(a) == t.View(a) == Some(CellOf(s.mem[a])) && Next(t, Rotate).View(a) == None
  {
    var t := Next(Next(Next(s, Rotate), FailTable), Write(op));
    assert op.key in t.mem;
    var u := Next(t, Rotate);
    assert t.TableLayers() == s.TableLayers() && u.TableLayers() == s.TableLayers();
    ViewIs(s, a);
    ViewIs(t, a);
    ViewIs(u, a);
  }

  // ---- Replaying into an empty memtable ----

  function Cells(m: Layer): map<Key, Cell> {
    map k | k in m :: CellOf(m[k])
  }

  function ReplayMem(ops: seq<Op>): Layer {
    if ops == [] then map[] else MemWrite(ReplayMem(ops[..|ops| - 1]), ops[|ops| - 1])
  }

  /** A memtable that took the writes one by one shows their last-write-wins map. */
  lemma {:induction false} ReplayMemIs(ops: seq<Op>)
    ensures Cells(ReplayMem(ops)) == Replay(ops)
  {
    if ops != [] {
      ReplayMemIs(ops[..|ops| - 1]);
    }
  }

  /** An engine with nothing but a memtable shows that memtable. */
  lemma MemOnlyView(s: State, k: Key)
    requires s.imm.None? && s.tables == []
    ensures s.Tabled() && s.View(k) == Shown(Cells(s.mem), k)
  {
    ViewIs(s, k);
    assert s.TableLayers() == [];
  }

  // ---- Snapshot and restore ----

  /** What lies under the memtable. */
  function Below(s: State, k: Key): Option<Cell>
    requires s.Tabled()
  {
    if s.imm.Some? && k in s.imm.value then Visible(Some(s.imm.value[k]))
    else Visible(Lookup(s.TableLayers(), k))
  }

  /**
   * Restore replaces the active memtable only. The engine then shows exactly the snapshot if and
   * only if no layer under the memtable shows a key that the snapshot does not hold.
   */
  lemma RestoreExact(s: State, snap: Layer)
    requires s.Tabled() && forall k :: k in snap ==> !snap[k].deleted
    ensures s.(mem := snap).Tabled()
    ensures (forall k :: s.(mem := snap).View(k) == Shown(Cells(snap), k)) <==>
      (forall k :: k !in snap ==> Below(s, k).None?)
  {
    var t := s.(mem := snap);
    assert t.TableLayers() == s.TableLayers();
    forall k
      ensures t.View(k) == Shown(Cells(snap), k) <==> (k !in snap ==> Below(s, k).None?)
    {
      ViewIs(t, k);
    }
  }
}
