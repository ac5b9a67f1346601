/** Runs of the engine that end in a wrong read, built from whole flushes of one write each. */
module FaultyRuns {
  import opened Core
  import opened CompactionModel
  import opened EngineRun
  import TableFormat

  /** A write that is flushed to a table of its own. */
  function FlushRun(op: Op, path: Path): seq<Step> {
    [Write(op), Rotate, WriteTable(path), RegisterTable, ClearImmutable]
  }

  function Single(op: Op): Layer {
    MemWrite(map[], op)
  }

  /** The tables n - 1 down to 0. */
  function Down(n: nat): (r: seq<Path>)
    ensures forall p: Path :: p in r <==> p < n
  {
    if n == 0 then [] else [n - 1] + Down(n - 1)
  }

  function FlushEach(ops: seq<Op>): seq<Step> {
    if ops == [] then [] else FlushEach(ops[..|ops| - 1]) + FlushRun(ops[|ops| - 1], |ops| - 1)
  }

  /** An idle engine whose table i holds the i-th write and nothing else. */
  function OneEach(ops: seq<Op>): State {
    State(map[], None, Idle, Down(|ops|), map i | 0 <= i < |ops| :: Single(ops[i]), None)
  }

  /** Nothing is pending, and the next write goes to an empty memtable. */
  ghost predicate Quiet(s: State) {
    s.Tabled() && s.mem == map[] && s.imm.None? && s.phase.Idle?
  }

  /** The steps lead to s, nothing in them goes wrong, and they write `ops`. */
  ghost predicate Leads(steps: seq<Step>, s: State, ops: seq<Op>) {
    Exec(steps) == Some(s) && AllBenign(steps) && Ops(steps) == ops
  }

  lemma LeadsOn(steps: seq<Step>, s: State, ops: seq<Op>, step: Step)
    requires Leads(steps, s, ops) && Possible(s, step) && Benign(s, step)
    ensures Leads(steps + [step], Next(s, step), ops + if step.Write? then [step.op] else [])
  {
    assert (steps + [step])[..|steps|] == steps;
  }

  lemma LeadsFlushed(steps: seq<Step>, s: State, ops: seq<Op>, op: Op, path: Path)
    requires Leads(steps, s, ops) && Quiet(s) && path !in s.files
    ensures Leads(steps + FlushRun(op, path),
                  s.(tables := [path] + s.tables, files := s.files[path := Single(op)]), ops + [op])
  {
    var a := steps + [Write(op)];
    var s1 := s.(mem := Single(op));
    LeadsOn(steps, s, ops, Write(op));
    assert op.key in s1.mem;
    var s2 := s.(imm := Some(Single(op)), phase := Rotated);
    LeadsOn(a, s1, ops + [op], Rotate);
    assert Next(s1, Rotate) == s2;
    LeadsWritten(a + [Rotate], s2, ops + [op], path);
    assert s2.(imm := None, phase := Idle, tables := [path] + s.tables, files := s.files[path := Single(op)]) ==
      s.(tables := [path] + s.tables, files := s.files[path := Single(op)]);
    assert steps + FlushRun(op, path) == a + [Rotate] + [WriteTable(path), RegisterTable, ClearImmutable];
  }

  lemma LeadsWritten(steps: seq<Step>, s: State, ops: seq<Op>, path: Path)
    requires Leads(steps, s, ops) && s.Tabled() && s.phase.Rotated? && s.imm.Some? && path !in s.files
    ensures Leads(steps + [WriteTable(path), RegisterTable, ClearImmutable],
                  s.(imm := None, phase := Idle, tables := [path] + s.tables,
                     files := s.files[path := s.imm.value]), ops)
  {
    assert ops + [] == ops;
    LeadsOn(steps, s, ops, WriteTable(path));
    var s1 := s.(files := s.files[path := s.imm.value], phase := Written(path));
    LeadsOn(steps + [WriteTable(path)], s1, ops, RegisterTable);
    var s2 := s1.(tables := [path] + s.tables, phase := Registered);
    LeadsOn(steps + [WriteTable(path)] + [RegisterTable], s2, ops, ClearImmutable);
    assert steps + [WriteTable(path)] + [RegisterTable] + [ClearImmutable] ==
      steps + [WriteTable(path), RegisterTable, ClearImmutable];
  }

  lemma OneEachGrows(ops: seq<Op>)
    requires ops != []
    ensures var n := |ops| - 1;
      OneEach(ops) == OneEach(ops[..n]).(tables := [n] + OneEach(ops[..n]).tables,
                                         files := OneEach(ops[..n]).files[n := Single(ops[n])])
  {
    var n := |ops| - 1;
    assert Down(n + 1) == [n] + Down(n);
    assert OneEach(ops).files == OneEach(ops[..n]).files[n := Single(ops[n])];
  }

  lemma {:induction false} LeadsEach(ops: seq<Op>)
    ensures Leads(FlushEach(ops), OneEach(ops), ops)
  {
    if ops == [] {
      assert OneEach(ops) == INIT;
    } else {
      var n := |ops| - 1;
      LeadsEach(ops[..n]);
      LeadsFlushed(FlushEach(ops[..n]), OneEach(ops[..n]), ops[..n], ops[n], n);
      OneEachGrows(ops);
      assert ops == ops[..n] + [ops[n]];
    }
  }

  /** What a table of one write weighs: record, index entry and footer. */
  function SizeOf(op: Op): nat {
    2 * |op.key| + (if op.PutOp? then |op.value| else 0) + 53
  }

  lemma SizeIsLength(op: Op)
    requires SizeOf(op) < TWO_63
    ensures var e := Single(op)[op.key];
      |TableFormat.Data([e])| < TWO_63 && |TableFormat.Table([e])| == SizeOf(op)
  {
    var e := Single(op)[op.key];
    assert [e][..0] == [] && |TableFormat.Data([e])| == |TableFormat.EncodeEntry(e)|;
    var index := TableFormat.IndexOf([e]);
    assert index[1..] == [];
    assert |TableFormat.IndexBlock(index)| == |TableFormat.EncodeIndexEntry(index[0])|;
  }

  function Sizes(ops: seq<Op>): map<Path, nat> {
    map i | 0 <= i < |ops| :: SizeOf(ops[i])
  }

  /** All writes flushed, and a tier chosen when `chosen` of them were. */
  function ChosenRun(ops: seq<Op>, chosen: nat, tier: seq<Path>): seq<Step>
    requires chosen <= |ops| <= chosen + 1
  {
    FlushEach(ops[..chosen]) + [BeginMerge(tier)] +
    if chosen == |ops| then [] else FlushRun(ops[chosen], chosen)
  }

  lemma LeadsChosen(ops: seq<Op>, chosen: nat, tier: seq<Path>)
    requires chosen <= |ops| <= chosen + 1
    requires |tier| >= MIN_COMPACT_TABLES && NoRepeats(tier) && forall p :: p in tier ==> p < chosen
    ensures Leads(ChosenRun(ops, chosen, tier), OneEach(ops).(merging := Some(tier)), ops)
  {
    var some := ops[..chosen];
    LeadsEach(some);
    assert some + [] == some;
    LeadsOn(FlushEach(some), OneEach(some), some, BeginMerge(tier));
    var run := FlushEach(some) + [BeginMerge(tier)];
    if chosen == |ops| {
      assert some == ops && run + [] == run;
    } else {
      LeadsFlushed(run, OneEach(some).(merging := Some(tier)), some, ops[chosen], chosen);
      OneEachGrows(ops);
      assert ops == some + [ops[chosen]];
    }
  }

  /** What the swap of a tier leaves of a key: the tier's winner, or the first kept entry behind it. */
  lemma AfterSwap(run: seq<Step>, s: State, ops: seq<Op>, tier: seq<Path>, path: Path, k: Key)
    requires Leads(run, s, ops) && Increasing(ops) && s.merging == Some(tier) && path !in s.files
    ensures Formed(s) && NewestFirst(s.TableLayers()) && s.View(k) == Shown(Replay(ops), k)
    ensures var w := Winner(Layers(s.files, tier), k);
      var t := Exec(run + [SwapMerged(path)]);
      && t.Some? && t.value.Tabled() && t.value.imm == s.imm && t.value.mem == s.mem
      && Lookup(t.value.TableLayers(), k) ==
         if w.Some? && !w.value.deleted then w else Lookup(Layers(s.files, Kept(s.tables, tier)), k)
  {
    RunInvariant(run);
    assert (run + [SwapMerged(path)])[..|run|] == run;
    SwapLayers(s, path);
    AfterIs(s.files, s.tables, tier, k);
  }

  // ---- A table registered during the merge ----

  function Puts(a: Key): seq<Op> {
    [PutOp(a, [], 1), PutOp(a, [], 2), PutOp(a, [], 3), PutOp(a, [], 4), PutOp(a, [], 5)]
  }

  function StaleRun(a: Key): seq<Step> {
    ChosenRun(Puts(a), 4, [0, 1, 2, 3])
  }

  /** The tier is the one that the sizes of the first four tables select. */
  lemma StaleTier(a: Key)
    ensures forall p :: InTier([3, 2, 1, 0], Sizes(Puts(a)[..4]), p) <==> p in [0, 1, 2, 3]
  {
    var stat := Sizes(Puts(a)[..4]);
    assert forall p :: p in stat ==> stat[p] == 2 * |a| + 53;
  }

  /**
   * Four tables of equal size are merged; the fifth write of the key is flushed meanwhile. The swap
   * puts the merged table, with version 4, in front of the newer one.
   */
  lemma ConcurrentRegisterGoesStale(a: Key)
    ensures var s, t := Exec(StaleRun(a)), Exec(StaleRun(a) + [SwapMerged(5)]);
      && s.Some? && AllBenign(StaleRun(a)) && Ops(StaleRun(a)) == Puts(a) && Increasing(Puts(a))
      && s.value.merging == Some([0, 1, 2, 3])
      && s.value.Tabled() && s.value.View(a) == Some(Live([], 5))
      && t.Some? && t.value.Tabled() && t.value.View(a) == Some(Live([], 4))
  {
    var ops, tier: seq<Path> := Puts(a), [0, 1, 2, 3];
    StaleLeads(a);
    AfterSwap(StaleRun(a), OneEach(ops).(merging := Some(tier)), ops, tier, 5, a);
    StaleWinner(a);
    ViewIs(Exec(StaleRun(a) + [SwapMerged(5)]).value, a);
  }

  lemma StaleLeads(a: Key)
    ensures Leads(StaleRun(a), OneEach(Puts(a)).(merging := Some([0, 1, 2, 3])), Puts(a))
    ensures Increasing(Puts(a)) && Shown(Replay(Puts(a)), a) == Some(Live([], 5))
  {
    LeadsChosen(Puts(a), 4, [0, 1, 2, 3]);
  }

  lemma StaleWinner(a: Key)
    ensures var files: Files, tier: seq<Path> := OneEach(Puts(a)).files, [0, 1, 2, 3];
      && (forall p :: p in tier ==> p in files)
      && Winner(Layers(files, tier), a) == Some(Entry(a, [], 4, false))
  {
    var ops, tier: seq<Path> := Puts(a), [0, 1, 2, 3];
    var files := OneEach(ops).files;
    assert tier[3] == 3 && files[3] == Single(ops[3]);
    WinnerIsNewestPath(files, tier, a, 3);
    var p := WinnerPath(files, tier, a);
    assert files[p] == Single(ops[p]);
  }

  // ---- A dropped tombstone ----

  function Deletes(a: Key, value: Value): seq<Op> {
    [PutOp(a, value, 1), DeleteOp(a, 2), DeleteOp(a, 3), DeleteOp(a, 4), DeleteOp(a, 5)]
  }

  function DropRun(a: Key, value: Value): seq<Step> {
    ChosenRun(Deletes(a, value), 5, [1, 2, 3, 4])
  }

  /** A value that makes its table more than ten times the size of the others keeps it out of the tier. */
  lemma DropTier(a: Key, value: Value)
    requires |value| > 9 * (2 * |a| + 53)
    ensures forall p :: InTier([4, 3, 2, 1, 0], Sizes(Deletes(a, value)), p) <==> p in [1, 2, 3, 4]
  {
    var stat := Sizes(Deletes(a, value));
    assert stat[0] == 2 * |a| + 53 + |value|;
    assert forall p :: p in stat && p != 0 ==> stat[p] == 2 * |a| + 53;
    assert 1 in [4, 3, 2, 1, 0] && 1 in stat;
  }

  /**
   * A value is flushed and then deleted; four tables of tombstones make a tier without the value's
   * table. The merge drops the tombstones and the value is back.
   */
  lemma DroppedTombstoneResurrects(a: Key, value: Value)
    ensures var s, t := Exec(DropRun(a, value)), Exec(DropRun(a, value) + [SwapMerged(5)]);
      && s.Some? && AllBenign(DropRun(a, value)) && Ops(DropRun(a, value)) == Deletes(a, value)
      && Increasing(Deletes(a, value)) && s.value.merging == Some([1, 2, 3, 4])
      && s.value.Tabled() && s.value.View(a) == None
      && t.Some? && t.value.Tabled() && t.value.View(a) == Some(Live(value, 1))
  {
    var ops, tier: seq<Path> := Deletes(a, value), [1, 2, 3, 4];
    DropLeads(a, value);
    AfterSwap(DropRun(a, value), OneEach(ops).(merging := Some(tier)), ops, tier, 5, a);
    DropWinner(a, value);
    DropKept(a, value);
    ViewIs(Exec(DropRun(a, value) + [SwapMerged(5)]).value, a);
  }

  lemma DropLeads(a: Key, value: Value)
    ensures Leads(DropRun(a, value), OneEach(Deletes(a, value)).(merging := Some([1, 2, 3, 4])), Deletes(a, value))
    ensures Increasing(Deletes(a, value)) && Shown(Replay(Deletes(a, value)), a) == None
  {
    LeadsChosen(Deletes(a, value), 5, [1, 2, 3, 4]);
  }

  lemma DropWinner(a: Key, value: Value)
    ensures var s, tier: seq<Path> := OneEach(Deletes(a, value)), [1, 2, 3, 4];
      && s.Tabled() && (forall p :: p in tier ==> p in s.tables)
      && Winner(Layers(s.files, tier), a) == Some(Entry(a, [], 5, true))
  {
    var ops, tier: seq<Path> := Deletes(a, value), [1, 2, 3, 4];
    var s := OneEach(ops);
    assert tier[3] == 4 && s.files[4] == Single(ops[4]);
    WinnerIsNewestPath(s.files, tier, a, 4);
    var p := WinnerPath(s.files, tier, a);
    assert s.files[p] == Single(ops[p]);
  }

  lemma {:induction false} KeptDown(n: nat, tier: seq<Path>, m: nat)
    requires forall p: Path :: p < n ==> (p in tier <==> m <= p)
    ensures Kept(Down(n), tier) == Down(if n <= m then n else m)
  {
    if n != 0 {
      KeptDown(n - 1, tier, m);
      assert Down(n)[1..] == Down(n - 1);
    }
  }

  lemma DropKept(a: Key, value: Value)
    ensures var s := OneEach(Deletes(a, value));
      && s.Tabled() && Kept(s.tables, [1, 2, 3, 4]) == [0]
      && Lookup(Layers(s.files, [0]), a) == Some(Entry(a, value, 1, false))
  {
    var s := OneEach(Deletes(a, value));
    KeptDown(5, [1, 2, 3, 4], 1);
    assert Layers(s.files, [0])[0] == Single(PutOp(a, value, 1));
  }

  // ---- A restore over a table ----

  /**
   * A node applies a put and flushes it. Meanwhile the key was deleted, and the node is sent a snapshot
   * taken after that, which is empty. Restoring it leaves the table in place, and the key is back.
   */
  lemma RestoreOverTables(a: Key)
    ensures var put, delete := PutOp(a, [], 1), DeleteOp(a, 2);
      var s := Exec(FlushRun(put, 0));
      && s.Some? && AllBenign(FlushRun(put, 0)) && Ops(FlushRun(put, 0)) == [put]
      && (forall k :: Shown(Cells(map[]), k) == Shown(Replay([put, delete]), k))
      && s.value.(mem := map[]).Tabled() && s.value.(mem := map[]).View(a) == Some(Live([], 1))
  {
    var put, delete := PutOp(a, [], 1), DeleteOp(a, 2);
    assert Leads([], INIT, []);
    LeadsFlushed([], INIT, [], put, 0);
    assert [] + FlushRun(put, 0) == FlushRun(put, 0) && [] + [put] == [put];
    assert [put, delete][..1] == [put] && [put][..0] == [];
    assert Replay([put]) == map[a := Live([], 1)] && Replay([put, delete]) == map[a := Tombstone(2)];
    var s := Exec(FlushRun(put, 0)).value;
    assert s.(mem := map[]).TableLayers()[0] == Single(put);
    ViewIs(s.(mem := map[]), a);
  }
}
