/**
 * Writes applied a second time to a running engine. They carry their old versions, so the tables they
 * are flushed to can stand in front of newer ones and the list is no longer newest first.
 */
module Reapply {
  import opened Core
  import opened CompactionModel
  import opened EngineRun
  import opened Cluster

  // ---- Tables in line with the final cell of a key ----

  function ShownCell(t: Cell): Option<Cell> {
    if t.Live? then Some(t) else None
  }

  /** The entry is older than the final cell, or says the same. */
  predicate AtMost(e: Entry, t: Cell) {
    e.version < t.version || CellOf(e) == t
  }

  predicate AtMostIn(layer: Layer, k: Key, t: Cell) {
    k in layer ==> AtMost(layer[k], t)
  }

  /** Where both hold an entry older than the final cell, a's is the newer one or says the same. */
  predicate OverOld(a: Layer, b: Layer, k: Key, t: Cell) {
    k in a && k in b && a[k].version < t.version && b[k].version < t.version ==> Covers(a[k], b[k])
  }

  /**
   * Every entry of k is at most its final cell t, and the entries older than t stand newest first.
   * Copies of t may stand anywhere.
   */
  ghost predicate Line(files: Files, paths: seq<Path>, k: Key, t: Cell)
    requires forall p :: p in paths ==> p in files
  {
    && (forall p :: p in paths ==> AtMostIn(files[p], k, t))
    && forall i, j :: 0 <= i < j < |paths| ==> OverOld(files[paths[i]], files[paths[j]], k, t)
  }

  lemma NewestFirstIsLine(files: Files, paths: seq<Path>, k: Key, t: Cell)
    requires (forall p :: p in paths ==> p in files) && NewestFirst(Layers(files, paths))
    requires forall p :: p in paths ==> AtMostIn(files[p], k, t)
    ensures Line(files, paths, k, t)
  {
    var all := Layers(files, paths);
    forall i, j | 0 <= i < j < |paths| ensures OverOld(files[paths[i]], files[paths[j]], k, t) {
      assert all[i] == files[paths[i]] && all[j] == files[paths[j]];
    }
  }

  /** An entry older than t, if a read finds it, covers every other such entry. */
  lemma FirstCovers(files: Files, paths: seq<Path>, k: Key, t: Cell, p: Path)
    requires (forall q :: q in paths ==> q in files) && Line(files, paths, k, t)
    requires p in paths && k in files[p] && files[p][k].version < t.version
    ensures var o := Lookup(Layers(files, paths), k);
      o.Some? && AtMost(o.value, t) && (o.value.version < t.version ==> Covers(o.value, files[p][k]))
  {
    var layers := Layers(files, paths);
    var j :| 0 <= j < |paths| && paths[j] == p;
    assert layers[j] == files[p];
    LookupMiss(layers, k);
    var i := LookupFrom(layers, k);
    assert layers[i] == files[paths[i]] && paths[i] in paths && i <= j;
  }

  lemma KeptLine(files: Files, paths: seq<Path>, tier: seq<Path>, k: Key, t: Cell)
    requires (forall q :: q in paths ==> q in files) && Line(files, paths, k, t)
    ensures Line(files, Kept(paths, tier), k, t)
  {
    var kept := Kept(paths, tier);
    forall i, j | 0 <= i < j < |kept| ensures OverOld(files[kept[i]], files[kept[j]], k, t) {
      var a, b := KeptOrder(paths, tier, i, j);
    }
  }

  /** The table a read finds the key in; a tier without it does not hide it. */
  lemma {:induction false} HolderPath(files: Files, paths: seq<Path>, tier: seq<Path>, k: Key) returns (f: Path)
    requires (forall p :: p in paths ==> p in files) && Lookup(Layers(files, paths), k).Some?
    ensures f in paths && k in files[f] && Lookup(Layers(files, paths), k) == Some(files[f][k])
    ensures f !in tier ==> Lookup(Layers(files, Kept(paths, tier)), k) == Lookup(Layers(files, paths), k)
  {
    var p, rest := paths[0], paths[1..];
    assert paths == [p] + rest;
    LookupFirst(files, p, rest, k);
    var kept := Kept(rest, tier);
    if k in files[p] {
      f := p;
      if p !in tier {
        assert Kept(paths, tier) == [p] + kept;
        LookupFirst(files, p, kept, k);
      }
    } else {
      f := HolderPath(files, rest, tier, k);
      if p !in tier {
        assert Kept(paths, tier) == [p] + kept;
        LookupFirst(files, p, kept, k);
      } else {
        assert Kept(paths, tier) == kept;
      }
    }
  }

  /** How the entry a read finds, the winner of a tier and the first kept entry relate in a line. */
  lemma LineFacts(files: Files, paths: seq<Path>, tier: seq<Path>, k: Key, t: Cell)
    requires (forall p :: p in paths ==> p in files) && (forall p :: p in tier ==> p in paths)
    requires Line(files, paths, k, t)
    ensures var o, w := Lookup(Layers(files, paths), k), Winner(Layers(files, tier), k);
      var next := Lookup(Layers(files, Kept(paths, tier)), k);
      && (o.None? <==> w.None? && next.None?)
      && (o.Some? ==> AtMost(o.value, t) && (next == o || (w.Some? && w.value.version >= o.value.version)))
      && (w.Some? ==> AtMost(w.value, t) && Behind(o.value, w.value, t))
      && (next.Some? ==> AtMost(next.value, t) && Behind(o.value, next.value, t))
  {
    var kept := Kept(paths, tier);
    LookupMiss(Layers(files, paths), k);
    if Winner(Layers(files, tier), k).Some? {
      var p := WinnerPath(files, tier, k);
      HeldBehind(files, paths, k, t, p);
    }
    if Lookup(Layers(files, kept), k).Some? {
      var p := LookupPath(files, kept, k);
      HeldBehind(files, paths, k, t, p);
    }
    if Lookup(Layers(files, paths), k).Some? {
      var f := HolderPath(files, paths, tier, k);
      if f in tier { WinnerIsNewestPath(files, tier, k, f); }
    }
  }

  /** Unless one of the two is the final cell, o covers e. */
  predicate Behind(o: Entry, e: Entry, t: Cell) {
    o.version < t.version && e.version < t.version ==> Covers(o, e)
  }

  lemma HeldBehind(files: Files, paths: seq<Path>, k: Key, t: Cell, p: Path)
    requires (forall q :: q in paths ==> q in files) && Line(files, paths, k, t) && p in paths && k in files[p]
    ensures var o := Lookup(Layers(files, paths), k); o.Some? && Behind(o.value, files[p][k], t)
  {
    if files[p][k].version < t.version {
      FirstCovers(files, paths, k, t, p);
    } else {
      var i :| 0 <= i < |paths| && paths[i] == p;
      assert Layers(files, paths)[i] == files[p];
      LookupMiss(Layers(files, paths), k);
    }
  }

  /** What safety says of a live winner: no kept entry is newer. */
  lemma LiveSafe(files: Files, paths: seq<Path>, tier: seq<Path>, k: Key, t: Cell)
    requires (forall p :: p in paths ==> p in files) && (forall p :: p in tier ==> p in paths)
    requires Line(files, paths, k, t)
    requires var w := Winner(Layers(files, tier), k); w.Some? && !w.value.deleted
    ensures var w := Winner(Layers(files, tier), k).value;
      && (CellOf(w) == t ==> SafeFor(files, paths, tier, k))
      && (SafeFor(files, paths, tier, k) ==>
            var next := Lookup(Layers(files, Kept(paths, tier)), k);
            next.Some? ==> next.value.version <= w.version)
  {
    var kept := Kept(paths, tier);
    if Lookup(Layers(files, kept), k).Some? { var q := LookupPath(files, kept, k); }
    assert forall p :: p in kept ==> AtMostIn(files[p], k, t);
  }

  /**
   * A swap of tables in line whose reads show the final cell of a key: they go on showing it exactly
   * when the swap is safe for the key. Tables newest first are the case of `CompactionExact`.
   */
  lemma LineSwapExact(files: Files, paths: seq<Path>, tier: seq<Path>, k: Key, t: Cell)
    requires (forall p :: p in paths ==> p in files) && (forall p :: p in tier ==> p in paths)
    requires Line(files, paths, k, t) && Visible(Lookup(Layers(files, paths), k)) == ShownCell(t)
    ensures Visible(Lookup(Swapped(files, paths, tier), k)) == ShownCell(t) <==> SafeFor(files, paths, tier, k)
  {
    LineFacts(files, paths, tier, k, t);
    AfterIs(files, paths, tier, k);
    var o, w := Lookup(Layers(files, paths), k), Winner(Layers(files, tier), k);
    var next := Lookup(Layers(files, Kept(paths, tier)), k);
    if w.Some? && !w.value.deleted {
      LiveSafe(files, paths, tier, k, t);
      LiveShown(o.value, w.value, next, t);
    } else if w.Some? {
      DroppedShown(o.value, w.value, next, t);
    }
  }

  /** A live winner that no kept entry beats is the final cell. */
  lemma LiveShown(o: Entry, w: Entry, next: Option<Entry>, t: Cell)
    requires AtMost(o, t) && AtMost(w, t) && Behind(o, w, t) && Visible(Some(o)) == ShownCell(t) && !w.deleted
    requires next == Some(o) || w.version >= o.version
    requires next.Some? ==> AtMost(next.value, t) && Behind(o, next.value, t)
    ensures (next.Some? ==> next.value.version <= w.version) ==> CellOf(w) == t
  {
  }

  /** With the winner a tombstone, the kept tables show the final cell exactly when it may be dropped. */
  lemma DroppedShown(o: Entry, w: Entry, next: Option<Entry>, t: Cell)
    requires AtMost(o, t) && AtMost(w, t) && Behind(o, w, t) && Visible(Some(o)) == ShownCell(t) && w.deleted
    requires next == Some(o) || w.version >= o.version
    requires next.Some? ==> AtMost(next.value, t) && Behind(o, next.value, t)
    ensures Visible(next) == ShownCell(t) <==>
      next.None? || next.value.version > w.version || next.value.deleted
  {
  }

  /** A safe swap leaves the tables in line. */
  lemma SwapKeepsLine(files: Files, paths: seq<Path>, tier: seq<Path>, path: Path, k: Key, t: Cell)
    requires (forall p :: p in paths ==> p in files) && (forall p :: p in tier ==> p in paths) && path !in files
    requires Line(files, paths, k, t) && SafeFor(files, paths, tier, k)
    ensures var after, list := SwappedFiles(files, paths, tier, path), [path] + Kept(paths, tier);
      (forall p :: p in list ==> p in after) && Line(after, list, k, t)
  {
    var kept := Kept(paths, tier);
    var after, list := SwappedFiles(files, paths, tier, path), [path] + kept;
    var m := Merged(Layers(files, tier));
    KeptLine(files, paths, tier, k, t);
    MergedIsWinner(Layers(files, tier), k);
    if k in m {
      var q := WinnerPath(files, tier, k);
      forall p | p in kept ensures OverOld(m, files[p], k, t) { MergedOver(files, paths, tier, k, t, q, p); }
    }
    assert forall p :: p in kept ==> p in after && p != path && after[p] == files[p];
    ConsLine(after, path, kept, k, t);
  }

  lemma MergedOver(files: Files, paths: seq<Path>, tier: seq<Path>, k: Key, t: Cell, q: Path, p: Path)
    requires (forall p :: p in paths ==> p in files) && (forall p :: p in tier ==> p in paths)
    requires Line(files, paths, k, t) && SafeFor(files, paths, tier, k)
    requires q in tier && k in files[q] && Winner(Layers(files, tier), k) == Some(files[q][k]) && !files[q][k].deleted
    requires p in Kept(paths, tier)
    ensures OverOld(files[q], files[p], k, t)
  {
    if k in files[p] && files[p][k].version == files[q][k].version {
      var i :| 0 <= i < |paths| && paths[i] == p;
      var j :| 0 <= j < |paths| && paths[j] == q;
      if i < j {
        assert OverOld(files[paths[i]], files[paths[j]], k, t);
      } else {
        assert i != j && OverOld(files[paths[j]], files[paths[i]], k, t);
      }
    }
  }

  lemma ConsLine(files: Files, p: Path, rest: seq<Path>, k: Key, t: Cell)
    requires p in files && (forall q :: q in rest ==> q in files) && Line(files, rest, k, t)
    requires AtMostIn(files[p], k, t) && forall q :: q in rest ==> OverOld(files[p], files[q], k, t)
    ensures (forall q :: q in [p] + rest ==> q in files) && Line(files, [p] + rest, k, t)
  {
    var all := [p] + rest;
    forall i, j | 0 <= i < j < |all| ensures OverOld(files[all[i]], files[all[j]], k, t) {
      assert all[j] == rest[j - 1] && rest[j - 1] in rest;
      if i > 0 { assert all[i] == rest[i - 1]; }
    }
  }

  // ---- The layers of an engine ----

  /** The layers of the engine are in line with the final cell of k. */
  ghost predicate Lined(s: State, k: Key, t: Cell) {
    && s.Tabled() && Line(s.files, s.tables, k, t) && AtMostIn(s.mem, k, t)
    && (forall p :: p in s.tables ==> OverOld(s.mem, s.files[p], k, t))
    && (s.imm.Some? ==>
          && AtMostIn(s.imm.value, k, t) && OverOld(s.mem, s.imm.value, k, t)
          && forall p :: p in s.tables ==> OverOld(s.imm.value, s.files[p], k, t))
  }

  /** Reads show the final cell, and go on doing so when a registered memtable is cleared. */
  ghost predicate Settled(s: State, k: Key, t: Cell) {
    && s.Tabled() && s.View(k) == ShownCell(t)
    && (s.phase.Registered? && k !in s.mem ==> Visible(Lookup(s.TableLayers(), k)) == ShownCell(t))
  }

  lemma StepShaped(s: State, step: Step)
    requires Shaped(s) && Possible(s, step)
    ensures Shaped(Next(s, step))
  {
    if step.SwapMerged? { SwapLayers(s, step.path); }
  }

  lemma SwapLined(s: State, path: Path, k: Key, t: Cell)
    requires Possible(s, SwapMerged(path)) && Lined(s, k, t) && SafeFor(s.files, s.tables, s.merging.value, k)
    ensures Lined(Next(s, SwapMerged(path)), k, t)
  {
    var u, tier := Next(s, SwapMerged(path)), s.merging.value;
    SwapLayers(s, path);
    SwapKeepsLine(s.files, s.tables, tier, path, k, t);
    forall p | p in u.tables
      ensures OverOld(s.mem, u.files[p], k, t) && (s.imm.Some? ==> OverOld(s.imm.value, u.files[p], k, t))
    {
      if p == path {
        MergedIsWinner(Layers(s.files, tier), k);
        if k in u.files[p] { var q := WinnerPath(s.files, tier, k); }
      } else {
        assert p in Kept(s.tables, tier) && u.files[p] == s.files[p];
      }
    }
  }

  lemma RegisterLined(s: State, k: Key, t: Cell)
    requires Shaped(s) && Possible(s, RegisterTable) && Lined(s, k, t)
    ensures Lined(Next(s, RegisterTable), k, t)
  {
    ConsLine(s.files, s.phase.path, s.tables, k, t);
  }

  /** Every step other than a write keeps the layers in line. */
  lemma StepLined(s: State, step: Step, k: Key, t: Cell)
    requires Shaped(s) && Possible(s, step) && Benign(s, step) && !step.Write? && Lined(s, k, t)
    ensures Lined(Next(s, step), k, t)
  {
    match step {
      case WriteTable(path) => assert forall p :: p in s.tables ==> Next(s, step).files[p] == s.files[p];
      case RegisterTable => RegisterLined(s, k, t);
      case SwapMerged(path) => SwapLined(s, path, k, t);
      case _ =>
    }
  }

  lemma SwapSettled(s: State, path: Path, k: Key, t: Cell)
    requires Possible(s, SwapMerged(path)) && Lined(s, k, t) && Settled(s, k, t)
    requires SafeFor(s.files, s.tables, s.merging.value, k)
    ensures Settled(Next(s, SwapMerged(path)), k, t)
  {
    var u := Next(s, SwapMerged(path));
    SwapLayers(s, path);
    ViewIs(s, k);
    ViewIs(u, k);
    if Visible(Lookup(s.TableLayers(), k)) == ShownCell(t) {
      LineSwapExact(s.files, s.tables, s.merging.value, k, t);
    }
  }

  lemma RegisterSettled(s: State, k: Key, t: Cell)
    requires Shaped(s) && Possible(s, RegisterTable) && Settled(s, k, t)
    ensures Settled(Next(s, RegisterTable), k, t)
  {
    var u := Next(s, RegisterTable);
    assert u.TableLayers() == [s.imm.value] + s.TableLayers();
    LookupCons(s.imm.value, s.TableLayers(), k);
    ViewIs(s, k);
    ViewIs(u, k);
  }

  /** Every step other than a write leaves a settled key settled. */
  lemma StepSettled(s: State, step: Step, k: Key, t: Cell)
    requires Shaped(s) && Possible(s, step) && Benign(s, step) && !step.Write? && Lined(s, k, t) && Settled(s, k, t)
    ensures Settled(Next(s, step), k, t)
  {
    if step.RegisterTable? {
      RegisterSettled(s, k, t);
    } else if step.SwapMerged? {
      SwapSettled(s, step.path, k, t);
    } else {
      var u := Next(s, step);
      assert u.TableLayers() == s.TableLayers();
      ViewIs(s, k);
      ViewIs(u, k);
    }
  }

  // ---- Runs from any state ----

  ghost function ExecFrom(s: State, steps: seq<Step>): Option<State> {
    if steps == [] then Some(s)
    else
      var u, step := ExecFrom(s, steps[..|steps| - 1]), steps[|steps| - 1];
      if u.Some? && Possible(u.value, step) then Some(Next(u.value, step)) else None
  }

  ghost predicate BenignFrom(s: State, steps: seq<Step>)
    requires ExecFrom(s, steps).Some?
  {
    steps == [] ||
    var n := |steps| - 1;
    BenignFrom(s, steps[..n]) && Benign(ExecFrom(s, steps[..n]).value, steps[n])
  }

  lemma {:induction false} ExecSplit(steps: seq<Step>, more: seq<Step>)
    requires Exec(steps).Some?
    ensures Exec(steps + more) == ExecFrom(Exec(steps).value, more)
    ensures Exec(steps + more).Some? && AllBenign(steps + more) ==> BenignFrom(Exec(steps).value, more)
    ensures Ops(steps + more) == Ops(steps) + Ops(more)
    decreases |more|
  {
    if more == [] {
      assert steps + more == steps && Ops(steps) + [] == Ops(steps);
    } else {
      var n, all := |more| - 1, steps + more;
      assert all[..|all| - 1] == steps + more[..n] && all[|all| - 1] == more[n];
      ExecSplit(steps, more[..n]);
      var last := if more[n].Write? then [more[n].op] else [];
      assert Ops(steps) + (Ops(more[..n]) + last) == (Ops(steps) + Ops(more[..n])) + last;
    }
  }

  // ---- Applying writes again ----

  /** What all the writes leave of k; of a key never written, less than any entry could say. */
  function Final(ops: seq<Op>, k: Key): Cell {
    var m := Replay(ops);
    if k in m then m[k] else Tombstone(-TWO_63)
  }

  predicate WritesIn(ops: seq<Op>, a: nat, b: nat, k: Key)
    requires a <= b <= |ops|
  {
    exists y :: a <= y < b && ops[y].key == k
  }

  /** The layer's entry of k is the final one, or older than every write to k from x on. */
  ghost predicate OlderThanRest(layer: Layer, ops: seq<Op>, x: nat, k: Key) {
    k in layer && CellOf(layer[k]) != Final(ops, k) ==>
      forall y :: x <= y < |ops| && ops[y].key == k ==> layer[k].version < ops[y].version
  }

  ghost predicate AllOlder(s: State, ops: seq<Op>, x: nat, k: Key) {
    && s.Tabled() && OlderThanRest(s.mem, ops, x, k)
    && (s.imm.Some? ==> OlderThanRest(s.imm.value, ops, x, k))
    && forall p :: p in s.tables ==> OlderThanRest(s.files[p], ops, x, k)
  }

  /**
   * The engine may take the writes from x on, as far as k is concerned: its entries are in line and
   * final or older than what is to come, and if nothing is to come reads are right already.
   */
  ghost predicate ReadyFor(s: State, ops: seq<Op>, x: nat, k: Key) {
    && x <= |ops| && Lined(s, k, Final(ops, k)) && AllOlder(s, ops, x, k)
    && (!WritesIn(ops, x, |ops|, k) ==> Settled(s, k, Final(ops, k)))
  }

  lemma StepOlder(s: State, step: Step, ops: seq<Op>, x: nat, k: Key)
    requires Shaped(s) && Possible(s, step) && !step.Write? && AllOlder(s, ops, x, k)
    ensures AllOlder(Next(s, step), ops, x, k)
  {
    var u := Next(s, step);
    if step.SwapMerged? {
      var tier := s.merging.value;
      SwapLayers(s, step.path);
      forall p | p in u.tables ensures OlderThanRest(u.files[p], ops, x, k) {
        if p == step.path {
          MergedIsWinner(Layers(s.files, tier), k);
          if k in u.files[p] { var q := WinnerPath(s.files, tier, k); }
        } else {
          assert p in Kept(s.tables, tier) && u.files[p] == s.files[p];
        }
      }
    }
  }

  lemma StepReady(s: State, step: Step, ops: seq<Op>, x: nat, k: Key)
    requires Shaped(s) && Possible(s, step) && Benign(s, step) && !step.Write? && ReadyFor(s, ops, x, k)
    ensures ReadyFor(Next(s, step), ops, x, k)
  {
    StepLined(s, step, k, Final(ops, k));
    StepOlder(s, step, ops, x, k);
    if Settled(s, k, Final(ops, k)) { StepSettled(s, step, k, Final(ops, k)); }
  }

  lemma {:induction false} OpBelow(ops: seq<Op>, x: nat)
    requires Increasing(ops) && x < |ops|
    ensures var k := ops[x].key; k in Replay(ops) && ops[x].version <= Replay(ops)[k].version
    ensures !WritesIn(ops, x + 1, |ops|, ops[x].key) ==> Replay(ops)[ops[x].key] == ApplyOp(map[], ops[x])[ops[x].key]
    ensures WritesIn(ops, x + 1, |ops|, ops[x].key) ==> ops[x].version < Replay(ops)[ops[x].key].version
  {
    var n, k := |ops| - 1, ops[x].key;
    if x < n {
      assert Increasing(ops[..n]);
      OpBelow(ops[..n], x);
      if ops[n].key == k {
        assert WritesIn(ops, x + 1, |ops|, k);
      } else if WritesIn(ops, x + 1, |ops|, k) {
        var y :| x + 1 <= y < |ops| && ops[y].key == k;
        assert ops[..n][y].key == k;
      }
    }
  }

  lemma WriteReady(s: State, ops: seq<Op>, x: nat, k: Key)
    requires Shaped(s) && Increasing(ops) && x < |ops| && ReadyFor(s, ops, x, k)
    ensures ReadyFor(Next(s, Write(ops[x])), ops, x + 1, k)
  {
    if k == ops[x].key {
      WriteOwn(s, ops, x);
    } else {
      WriteOther(s, ops, x, k);
    }
  }

  lemma WriteOwn(s: State, ops: seq<Op>, x: nat)
    requires Increasing(ops) && x < |ops| && ReadyFor(s, ops, x, ops[x].key)
    ensures ReadyFor(Next(s, Write(ops[x])), ops, x + 1, ops[x].key)
  {
    var u, k := Next(s, Write(ops[x])), ops[x].key;
    OpBelow(ops, x);
    assert CellOf(u.mem[k]) == ApplyOp(map[], ops[x])[k];
    ViewIs(u, k);
  }

  lemma WriteOther(s: State, ops: seq<Op>, x: nat, k: Key)
    requires x < |ops| && ReadyFor(s, ops, x, k) && k != ops[x].key
    ensures ReadyFor(Next(s, Write(ops[x])), ops, x + 1, k)
  {
    var u := Next(s, Write(ops[x]));
    assert u.TableLayers() == s.TableLayers();
    ViewIs(s, k);
    ViewIs(u, k);
    if WritesIn(ops, x, |ops|, k) {
      var y :| x <= y < |ops| && ops[y].key == k;
      assert WritesIn(ops, x + 1, |ops|, k);
    }
  }

  lemma TakeTail(ops: seq<Op>, i: nat, x: nat, before: seq<Op>, op: Op)
    requires i <= x <= |ops| && before + [op] == ops[i..x]
    ensures i < x && op == ops[x - 1] && before == ops[i..x - 1]
  {
    assert |before + [op]| == x - i && (before + [op])[|before|] == op && (before + [op])[..|before|] == before;
  }

  lemma {:induction false} RunReady(s: State, more: seq<Step>, ops: seq<Op>, i: nat, x: nat, k: Key)
    requires Shaped(s) && Increasing(ops) && i <= x <= |ops| && ReadyFor(s, ops, i, k)
    requires ExecFrom(s, more).Some? && BenignFrom(s, more) && Ops(more) == ops[i..x]
    ensures Shaped(ExecFrom(s, more).value) && ReadyFor(ExecFrom(s, more).value, ops, x, k)
    decreases |more|
  {
    if more != [] {
      var n := |more| - 1;
      if more[n].Write? {
        TakeTail(ops, i, x, Ops(more[..n]), more[n].op);
        RunReady(s, more[..n], ops, i, x - 1, k);
      } else {
        assert Ops(more[..n]) + [] == Ops(more[..n]);
        RunReady(s, more[..n], ops, i, x, k);
      }
      NextReady(ExecFrom(s, more[..n]).value, more[n], ops, if more[n].Write? then x - 1 else x, k);
    }
  }

  lemma NextReady(s: State, step: Step, ops: seq<Op>, x: nat, k: Key)
    requires Shaped(s) && Possible(s, step) && Benign(s, step) && Increasing(ops) && ReadyFor(s, ops, x, k)
    requires step.Write? ==> x < |ops| && step.op == ops[x]
    ensures Shaped(Next(s, step)) && ReadyFor(Next(s, step), ops, if step.Write? then x + 1 else x, k)
  {
    StepShaped(s, step);
    if step.Write? { WriteReady(s, ops, x, k); } else { StepReady(s, step, ops, x, k); }
  }

  /**
   * Writes applied again from i on, among any flushes and safe swaps, end with the reads that all the
   * writes leave, if the engine was ready for them at the start. Nothing is asked of it on the way.
   */
  lemma ReapplyShowsAll(s: State, more: seq<Step>, ops: seq<Op>, i: nat, k: Key)
    requires Shaped(s) && Increasing(ops) && ReadyFor(s, ops, i, k)
    requires ExecFrom(s, more).Some? && BenignFrom(s, more) && Ops(more) == ops[i..]
    ensures ExecFrom(s, more).value.Tabled() && ExecFrom(s, more).value.View(k) == Shown(Replay(ops), k)
  {
    assert ops[i..] == ops[i..|ops|];
    RunReady(s, more, ops, i, |ops|, k);
    assert !WritesIn(ops, |ops|, |ops|, k);
  }

  // ---- Engines that are ready ----

  lemma {:induction false} ReplaySame(ops: seq<Op>, i: nat, k: Key)
    requires i <= |ops| && !WritesIn(ops, i, |ops|, k)
    ensures k in Replay(ops) <==> k in Replay(ops[..i])
    ensures k in Replay(ops) ==> Replay(ops)[k] == Replay(ops[..i])[k]
  {
    if i == |ops| {
      assert ops[..i] == ops;
    } else {
      var n := |ops| - 1;
      assert ops[..n][..i] == ops[..i] && ops[n].key != k;
      assert !WritesIn(ops[..n], i, n, k);
      ReplaySame(ops[..n], i, k);
    }
  }

  /** What the first i writes leave of a key is older than every later write to it. */
  lemma {:induction false} PrefixOlder(ops: seq<Op>, i: nat, k: Key, y: nat)
    requires Increasing(ops) && i <= y < |ops| && k in Replay(ops[..i])
    ensures Replay(ops[..i])[k].version < ops[y].version
    decreases i
  {
    assert ops[..i][..i - 1] == ops[..i - 1];
    if ops[i - 1].key != k { PrefixOlder(ops, i - 1, k, y); }
  }

  lemma PrefixAtMost(ops: seq<Op>, i: nat, k: Key)
    requires Increasing(ops) && i <= |ops| && k in Replay(ops[..i])
    ensures var c := Replay(ops[..i])[k]; c == Final(ops, k) || c.version < Final(ops, k).version
  {
    if WritesIn(ops, i, |ops|, k) {
      var y :| i <= y < |ops| && ops[y].key == k;
      PrefixOlder(ops, i, k, y);
      OpBelow(ops, y);
    } else {
      ReplaySame(ops, i, k);
    }
  }

  /** An engine without tables whose memtable shows what the first i writes leave. */
  ghost predicate Restored(s: State, ops: seq<Op>, i: nat) {
    && s.imm.None? && s.tables == [] && i <= |ops|
    && (forall k :: k in s.mem ==> k in Replay(ops[..i]) && CellOf(s.mem[k]) == Replay(ops[..i])[k])
    && forall k :: Shown(Cells(s.mem), k) == Shown(Replay(ops[..i]), k)
  }

  lemma RestoredIsReady(s: State, ops: seq<Op>, i: nat, k: Key)
    requires Increasing(ops) && Restored(s, ops, i)
    ensures s.Tabled() && ReadyFor(s, ops, i, k)
  {
    MemOnlyView(s, k);
    assert s.TableLayers() == [];
    if k in s.mem {
      PrefixAtMost(ops, i, k);
      forall y | i <= y < |ops| && ops[y].key == k ensures s.mem[k].version < ops[y].version {
        PrefixOlder(ops, i, k, y);
      }
    }
    if !WritesIn(ops, i, |ops|, k) { ReplaySame(ops, i, k); }
  }

  /**
   * A node that starts from a snapshot of the first i writes and applies the rest: whatever flushes and
   * safe swaps happen meanwhile, it ends with the reads that all the writes leave.
   */
  lemma ReapplyAfterRestore(s: State, more: seq<Step>, ops: seq<Op>, i: nat, k: Key)
    requires Shaped(s) && Increasing(ops) && Restored(s, ops, i)
    requires ExecFrom(s, more).Some? && BenignFrom(s, more) && Ops(more) == ops[i..]
    ensures ExecFrom(s, more).value.Tabled() && ExecFrom(s, more).value.View(k) == Shown(Replay(ops), k)
  {
    RestoredIsReady(s, ops, i, k);
    ReapplyShowsAll(s, more, ops, i, k);
  }

  /**
   * A node that recovered all the writes from its log and applies any suffix of them again. No tables
   * are registered at that point, and nothing more is needed.
   */
  lemma ReapplyAfterOpen(s: State, more: seq<Step>, ops: seq<Op>, i: nat, k: Key)
    requires s == INIT.(mem := ReplayMem(ops)) && Increasing(ops) && i <= |ops|
    requires ExecFrom(s, more).Some? && BenignFrom(s, more) && Ops(more) == ops[i..]
    ensures s.Tabled() && s.View(k) == Shown(Replay(ops), k)
    ensures ExecFrom(s, more).value.Tabled() && ExecFrom(s, more).value.View(k) == s.View(k)
  {
    ReplayMemIs(ops);
    MemOnlyView(s, k);
    assert s.TableLayers() == [];
    assert k in s.mem ==> CellOf(s.mem[k]) == Final(ops, k);
    ReapplyShowsAll(s, more, ops, i, k);
  }

  // ---- Engines in the middle of a run ----

  ghost predicate HeldAtMost(s: State, k: Key, t: Cell) {
    && s.Tabled() && AtMostIn(s.mem, k, t) && (s.imm.Some? ==> AtMostIn(s.imm.value, k, t))
    && forall p :: p in s.tables ==> AtMostIn(s.files[p], k, t)
  }

  lemma StepAtMost(s: State, step: Step, k: Key, t: Cell)
    requires Possible(s, step) && !step.Write? && HeldAtMost(s, k, t) && Shaped(s)
    ensures HeldAtMost(Next(s, step), k, t)
  {
    if step.SwapMerged? {
      SwapLayers(s, step.path);
      MergedIsWinner(Layers(s.files, s.merging.value), k);
      if k in Merged(Layers(s.files, s.merging.value)) { var q := WinnerPath(s.files, s.merging.value, k); }
    }
  }

  lemma WriteAtMost(s: State, op: Op, ops: seq<Op>, k: Key)
    requires s.Tabled() && HeldAtMost(s, k, Final(ops, k)) && Ordered(s, Top(ops)) && Top(ops) < op.version
    ensures HeldAtMost(Next(s, Write(op)), k, Final(ops + [op], k))
  {
    assert (ops + [op])[..|ops|] == ops;
  }

  /** In a run with growing versions no layer holds anything newer than the writes leave. */
  lemma {:induction false} RunAtMost(steps: seq<Step>, k: Key)
    requires Exec(steps).Some? && AllBenign(steps) && Increasing(Ops(steps))
    ensures HeldAtMost(Exec(steps).value, k, Final(Ops(steps), k))
  {
    if steps != [] {
      var n := |steps| - 1;
      var s, step := Exec(steps[..n]).value, steps[n];
      OpsGrow(steps);
      RunAtMost(steps[..n], k);
      RunInvariant(steps[..n]);
      if step.Write? {
        WriteAtMost(s, step.op, Ops(steps[..n]), k);
      } else {
        assert Ops(steps) == Ops(steps[..n]);
        StepAtMost(s, step, k, Final(Ops(steps), k));
      }
    }
  }

  lemma OrderedLined(s: State, k: Key, t: Cell, top: int)
    requires Shaped(s) && Ordered(s, top) && HeldAtMost(s, k, t)
    ensures Lined(s, k, t)
  {
    NewestFirstIsLine(s.files, s.tables, k, t);
    forall p | p in s.tables
      ensures OverOld(s.mem, s.files[p], k, t) && (s.imm.Some? ==> OverOld(s.imm.value, s.files[p], k, t))
    {
      assert Over(s.mem, s.files[p]);
    }
  }

  /** The engine's entries of k are the final one or older than the first write applied again. */
  ghost predicate HoldsOlder(s: State, ops: seq<Op>, i: nat, k: Key)
    requires i < |ops|
  {
    && s.Tabled() && OlderThanWrite(s.mem, ops, i, k)
    && (s.imm.Some? ==> OlderThanWrite(s.imm.value, ops, i, k))
    && forall p :: p in s.tables ==> OlderThanWrite(s.files[p], ops, i, k)
  }

  predicate OlderThanWrite(layer: Layer, ops: seq<Op>, i: nat, k: Key)
    requires i < |ops|
  {
    k in layer ==> CellOf(layer[k]) == Final(ops, k) || layer[k].version < ops[i].version
  }

  lemma RunIsReady(steps: seq<Step>, i: nat, k: Key)
    requires Exec(steps).Some? && AllBenign(steps) && Increasing(Ops(steps)) && i <= |Ops(steps)|
    requires WritesIn(Ops(steps), i, |Ops(steps)|, k) ==> HoldsOlder(Exec(steps).value, Ops(steps), i, k)
    ensures Shaped(Exec(steps).value) && ReadyFor(Exec(steps).value, Ops(steps), i, k)
  {
    var s, ops := Exec(steps).value, Ops(steps);
    RunInvariant(steps);
    RunAtMost(steps, k);
    OrderedLined(s, k, Final(ops, k), Top(ops));
    ViewIs(s, k);
    OlderForAll(s, ops, i, k);
  }

  lemma OlderForAll(s: State, ops: seq<Op>, i: nat, k: Key)
    requires s.Tabled() && Increasing(ops) && i <= |ops|
    requires WritesIn(ops, i, |ops|, k) ==> HoldsOlder(s, ops, i, k)
    ensures AllOlder(s, ops, i, k)
  {
    if WritesIn(ops, i, |ops|, k) {
      assert forall y :: i <= y < |ops| ==> ops[i].version <= ops[y].version;
    }
  }

  /** Without swaps in between the view follows the writes whatever their versions. */
  lemma {:induction false} UnswappedView(steps: seq<Step>, more: seq<Step>, k: Key)
    requires Exec(steps).Some? && AllBenign(steps) && (NoSwap(steps) || Increasing(Ops(steps)))
    requires Exec(steps + more).Some? && AllBenign(steps + more) && NoSwap(more)
    ensures var s := Exec(steps + more).value; Formed(s) && s.View(k) == Shown(Replay(Ops(steps + more)), k)
    decreases |more|
  {
    if more == [] {
      assert steps + more == steps;
      RunInvariant(steps);
    } else {
      var n, all := |more| - 1, steps + more;
      assert all[..|all| - 1] == steps + more[..n] && all[|all| - 1] == more[n];
      UnswappedView(steps, more[..n], k);
      StepKeepsForm(Exec(steps + more[..n]).value, more[n]);
      StepView(Exec(steps + more[..n]).value, more[n], Ops(steps + more[..n]), k);
    }
  }

  /**
   * Applying any suffix of the writes again in the middle of a run ends with the reads there were
   * before: without swaps meanwhile always; with any safe swaps if versions grew and of a key that is
   * written again the engine holds only its final cell and entries older than the first repeated write.
   */
  lemma ReapplyKeepsView(steps: seq<Step>, more: seq<Step>, i: nat, k: Key)
    requires Exec(steps).Some? && AllBenign(steps) && (NoSwap(steps) || Increasing(Ops(steps)))
    requires Exec(steps + more).Some? && AllBenign(steps + more)
    requires i <= |Ops(steps)| && Ops(steps + more) == Ops(steps) + Ops(steps)[i..]
    requires NoSwap(more) ||
      (Increasing(Ops(steps)) &&
       (WritesIn(Ops(steps), i, |Ops(steps)|, k) ==> HoldsOlder(Exec(steps).value, Ops(steps), i, k)))
    ensures Exec(steps).value.Tabled() && Exec(steps + more).value.Tabled()
    ensures Exec(steps + more).value.View(k) == Exec(steps).value.View(k)
  {
    var ops := Ops(steps);
    LastWriteWins(steps, k);
    if NoSwap(more) {
      UnswappedView(steps, more, k);
      ReplayIdempotent(ops, i);
    } else {
      RunIsReady(steps, i, k);
      ExecSplit(steps, more);
      assert Ops(more) == (ops + Ops(more))[|ops|..] == ops[i..];
      ReapplyShowsAll(Exec(steps).value, more, ops, i, k);
    }
  }
}
