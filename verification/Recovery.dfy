/** Opening an engine after a crash: the log is replayed into an empty memtable. */
module Recovery {
  import opened Core
  import opened WalFormat
  import opened SkiplistModel
  import opened CompactionModel
  import opened EngineRun
  import opened EngineModel
  import GroupCommit

  /** How writes become log payloads; decoding may fail on foreign bytes. */
  datatype Codec = Codec(encode: Op -> Bytes, decode: Bytes -> Option<Op>)

  ghost predicate Faithful(c: Codec) {
    forall op :: c.decode(c.encode(op)) == Some(op)
  }

  function Encoded(c: Codec, ops: seq<Op>): (r: seq<Bytes>)
    ensures |r| == |ops| && forall i :: 0 <= i < |r| ==> r[i] == c.encode(ops[i])
  {
    seq(|ops|, i requires 0 <= i < |ops| => c.encode(ops[i]))
  }

  /** The writes found in a list of payloads; what does not decode is skipped. */
  function DecodedOps(c: Codec, records: seq<Bytes>): seq<Op> {
    if records == [] then []
    else
      var last := c.decode(records[|records| - 1]);
      DecodedOps(c, records[..|records| - 1]) + if last.Some? then [last.value] else []
  }

  lemma {:induction false} DecodedEncoded(c: Codec, ops: seq<Op>)
    requires Faithful(c)
    ensures DecodedOps(c, Encoded(c, ops)) == ops
  {
    if ops != [] {
      var n := |ops| - 1;
      assert Encoded(c, ops)[..n] == Encoded(c, ops[..n]);
      DecodedEncoded(c, ops[..n]);
      assert ops == ops[..n] + [ops[n]];
    }
  }

  lemma {:induction false} DecodedJoin(c: Codec, a: seq<Bytes>, b: seq<Bytes>)
    ensures DecodedOps(c, a + b) == DecodedOps(c, a) + DecodedOps(c, b)
    decreases |b|
  {
    if b == [] {
      assert a + b == a;
    } else {
      var n := |b| - 1;
      assert (a + b)[..|a + b| - 1] == a + b[..n];
      DecodedJoin(c, a, b[..n]);
    }
  }

  /** A record that does not decode costs itself only: the writes before and behind it are replayed. */
  lemma SkipsUndecodable(c: Codec, before: seq<Op>, record: Bytes, after: seq<Op>)
    requires Faithful(c)
    ensures DecodedOps(c, Encoded(c, before) + [record] + Encoded(c, after)) ==
      before + (if c.decode(record).Some? then [c.decode(record).value] else []) + after
  {
    DecodedJoin(c, Encoded(c, before) + [record], Encoded(c, after));
    DecodedJoin(c, Encoded(c, before), [record]);
    DecodedEncoded(c, before);
    DecodedEncoded(c, after);
    assert [record][..0] == [];
  }

  /** Opens the engine on what the log file holds; tables of an earlier run are not registered. */
  method Open(crc: Checksum, c: Codec, file: Bytes, maxMem: nat, draw: nat -> Level) returns (e: Engine)
    ensures fresh(e) && e.Valid()
    ensures e.St() == INIT.(mem := ReplayMem(DecodedOps(c, DecodeLog(crc, file).records)))
    ensures e.St().Tabled() && forall k :: e.St().View(k) == RecoveredView(crc, c, file, k)
  {
    var records, mismatch := ReadAll(crc, file);
    var ops: seq<Op> := [];
    for i := 0 to |records|
      invariant ops == DecodedOps(c, records[..i])
    {
      assert records[..i + 1][..i] == records[..i];
      var op := c.decode(records[i]);
      if op.Some? {
        ops := ops + [op.value];
      }
    }
    assert records[..|records|] == records;
    e := new Engine(maxMem);
    e.ReplayInto(ops, draw);
    forall k ensures e.St().View(k) == RecoveredView(crc, c, file, k) {
      OpenShowsRecovered(crc, c, file, k);
    }
  }

  /** What a reader of the engine opened on `file` sees. */
  ghost function RecoveredView(crc: Checksum, c: Codec, file: Bytes, k: Key): Option<Cell> {
    Shown(Cells(ReplayMem(DecodedOps(c, DecodeLog(crc, file).records))), k)
  }

  lemma OpenShowsRecovered(crc: Checksum, c: Codec, file: Bytes, k: Key)
    ensures var s := INIT.(mem := ReplayMem(DecodedOps(c, DecodeLog(crc, file).records)));
      s.Tabled() && s.View(k) == RecoveredView(crc, c, file, k)
  {
    MemOnlyView(INIT.(mem := ReplayMem(DecodedOps(c, DecodeLog(crc, file).records))), k);
  }

  /** The engine opened on `file` shows the last-write-wins map of `ops`. */
  ghost predicate Recovers(crc: Checksum, c: Codec, file: Bytes, ops: seq<Op>) {
    forall k :: RecoveredView(crc, c, file, k) == Shown(Replay(ops), k)
  }

  lemma RecoversEncoded(crc: Checksum, c: Codec, file: Bytes, ops: seq<Op>)
    requires Faithful(c) && DecodeLog(crc, file).records == Encoded(c, ops)
    ensures Recovers(crc, c, file, ops)
  {
    DecodedEncoded(c, ops);
    ReplayMemIs(ops);
  }

  /** How many queued writes survive a cut. */
  function Surviving(s: GroupCommit.State, cut: nat): int {
    Whole(s.Log(), cut) - |s.base|
  }

  lemma RecoverFrom(crc: Checksum, c: Codec, before: seq<Op>, ops: seq<Op>, s: GroupCommit.State, cut: nat)
    requires Faithful(c) && GroupCommit.Inv(s) && s.synced <= cut <= s.flushed
    requires s.base == Encoded(c, before) && s.queued == Encoded(c, ops)
    ensures cut <= |s.Image(crc)| && 0 <= Surviving(s, cut) <= |ops|
    ensures Recovers(crc, c, s.Image(crc)[..cut], before + ops[..Surviving(s, cut)])
    ensures forall j :: 0 <= j < |s.answers| && s.answers[j].ok ==> j < Surviving(s, cut)
  {
    GroupCommit.CrashState(crc, s, cut);
    var n := Surviving(s, cut);
    assert s.base + s.queued[..n] == Encoded(c, before + ops[..n]);
    RecoversEncoded(crc, c, s.Image(crc)[..cut], before + ops[..n]);
  }

  /** A run of the log, opened on the intact log of the writes `before`, that queued the writes `ops`. */
  ghost predicate Ran(c: Codec, before: seq<Op>, ops: seq<Op>, steps: seq<GroupCommit.Step>, s: GroupCommit.State) {
    && Fits(Encoded(c, before))
    && GroupCommit.Exec(Encoded(c, before), steps) == Some(s)
    && s.queued == Encoded(c, ops)
  }

  /**
   * Crash recovery: whatever the interleaving of writers with the commit loop and wherever beyond the
   * synced length the crash cuts the file, the engine opened afterwards shows the last-write-wins map
   * of the log found at open followed by a prefix of the queued writes, and that prefix includes every
   * write the log acknowledged. Memtables flushed before the crash play no part in it.
   */
  lemma CrashRecovery(crc: Checksum, c: Codec, before: seq<Op>, ops: seq<Op>,
                      steps: seq<GroupCommit.Step>, s: GroupCommit.State, cut: nat)
    requires Faithful(c) && Ran(c, before, ops, steps, s) && s.synced <= cut <= s.flushed
    ensures cut <= |s.Image(crc)| && 0 <= Surviving(s, cut) <= |ops|
    ensures Recovers(crc, c, s.Image(crc)[..cut], before + ops[..Surviving(s, cut)])
    ensures forall j :: 0 <= j < |s.answers| && s.answers[j].ok ==> j < Surviving(s, cut)
  {
    GroupCommit.RunInvariant(Encoded(c, before), steps);
    RecoverFrom(crc, c, before, ops, s, cut);
  }

  /**
   * With one writer at a time and no log errors, the reads after a crash are the reads before it, or
   * those with the single write in flight applied.
   */
  lemma SerialCrashRecovery(crc: Checksum, c: Codec, before: seq<Op>, ops: seq<Op>,
                            steps: seq<GroupCommit.Step>, s: GroupCommit.State, cut: nat)
    requires Faithful(c) && Ran(c, before, ops, steps, s) && s.synced <= cut <= s.flushed
    requires forall j :: 0 <= j < |s.answers| ==> s.answers[j].ok
    requires |s.answers| <= |ops| <= |s.answers| + 1
    ensures cut <= |s.Image(crc)|
    ensures Recovers(crc, c, s.Image(crc)[..cut], before + ops[..|s.answers|]) ||
            Recovers(crc, c, s.Image(crc)[..cut], before + ops)
  {
    CrashRecovery(crc, c, before, ops, steps, s, cut);
    var n := Surviving(s, cut);
    if |s.answers| > 0 { assert s.answers[|s.answers| - 1].ok; }
    assert |s.answers| <= n;
    if n > |s.answers| { assert ops[..n] == ops; }
  }

  /**
   * The same for a running engine, whatever flushes and compactions it went through: after a crash
   * every key reads as it did before, or every key reads as if the write in flight had been applied.
   */
  lemma CrashPreservesReads(crc: Checksum, c: Codec, before: seq<Op>, ops: seq<Op>,
                            steps: seq<GroupCommit.Step>, s: GroupCommit.State, cut: nat, run: seq<Step>)
    requires Faithful(c) && Ran(c, before, ops, steps, s) && s.synced <= cut <= s.flushed
    requires forall j :: 0 <= j < |s.answers| ==> s.answers[j].ok
    requires |s.answers| <= |ops| <= |s.answers| + 1
    requires Exec(run).Some? && AllBenign(run) && (NoSwap(run) || Increasing(Ops(run)))
    requires Ops(run) == before + ops[..|s.answers|]
    ensures cut <= |s.Image(crc)| && Exec(run).value.Tabled()
    ensures (forall k :: RecoveredView(crc, c, s.Image(crc)[..cut], k) == Exec(run).value.View(k)) ||
            Recovers(crc, c, s.Image(crc)[..cut], before + ops)
  {
    SerialCrashRecovery(crc, c, before, ops, steps, s, cut);
    RunInvariant(run);
  }

  // ---- A crash after a restore ----

  /**
   * A restore does not touch the log. For an engine whose log holds the writes of its run, the reads
   * after a crash are those after the restore exactly for the keys whose reads the restore left alone:
   * the snapshot, or the layers under it where it lacks the key, show what was shown before.
   */
  lemma CrashAfterRestoreExact(crc: Checksum, c: Codec, file: Bytes, run: seq<Step>, snap: Layer, k: Key)
    requires Exec(run).Some? && AllBenign(run) && (NoSwap(run) || Increasing(Ops(run)))
    requires Recovers(crc, c, file, Ops(run))
    ensures var s := Exec(run).value;
      && s.Tabled() && s.(mem := snap).Tabled()
      && (RecoveredView(crc, c, file, k) == s.(mem := snap).View(k) <==>
          (if k in snap then Visible(Some(snap[k])) else Below(s, k)) == s.View(k))
  {
    var s := Exec(run).value;
    LastWriteWins(run, k);
    assert s.(mem := snap).TableLayers() == s.TableLayers();
    ViewIs(s.(mem := snap), k);
  }

  /** A fresh node that installed a snapshot and crashed shows none of it. */
  lemma RestoredThenLost(crc: Checksum, c: Codec, a: Key, value: Value, version: Int64)
    ensures var snap := map[a := Entry(a, value, version, false)];
      && INIT.(mem := snap).Tabled() && INIT.(mem := snap).View(a) == Some(Live(value, version))
      && RecoveredView(crc, c, [], a) == None
  {
    MemOnlyView(INIT.(mem := map[a := Entry(a, value, version, false)]), a);
  }
}
