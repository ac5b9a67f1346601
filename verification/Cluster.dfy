/** Nodes applying prefixes of one committed log, with snapshots, flushes and compactions. */
module Cluster {
  import opened Core
  import opened EngineRun

  // ---- The committed log ----

  /** A log entry as the state machine meets it: a command, or something it takes no action on. */
  datatype LogEntry =
    | PutCmd(key: Key, value: Value)
    | DeleteCmd(key: Key)
    | UnknownCmd              // a command type other than put and delete
    | Undecodable             // a command payload that does not decode
    | NotCommand              // entries of the consensus library itself

  /** The write an entry stands for; its version is the log index. */
  function OpAt(entry: LogEntry, index: nat): Option<Op>
    requires index < TWO_63
  {
    match entry
    case PutCmd(key, value) => Some(PutOp(key, value, index))
    case DeleteCmd(key) => Some(DeleteOp(key, index))
    case _ => None
  }

  /** What the state machine hands back to the consensus library. */
  datatype Response = NoResponse | ApplyError | ApplyResult(version: int)

  /** The response to the entry at `index`; `logged` is the outcome of the engine's log append. */
  function ResponseTo(entry: LogEntry, index: nat, logged: bool): Response {
    if (entry.PutCmd? || entry.DeleteCmd?) && logged then ApplyResult(index)
    else if entry.NotCommand? then NoResponse
    else ApplyError
  }

  /**
   * A version is handed back, the entry's own index, exactly for the writes the engine logged; nothing
   * exactly for entries that are no commands.
   */
  lemma ResponseExact(entry: LogEntry, index: nat, logged: bool)
    requires index < TWO_63
    ensures ResponseTo(entry, index, logged) == ApplyResult(index) <==> logged && OpAt(entry, index).Some?
    ensures ResponseTo(entry, index, logged).ApplyResult? ==> ResponseTo(entry, index, logged).version == index
    ensures ResponseTo(entry, index, logged) == NoResponse <==> entry == NotCommand
  {
  }

  /** The writes of a log prefix, in order; log[i] has index i + 1. */
  function OpsOf(log: seq<LogEntry>): seq<Op>
    requires |log| < TWO_63
  {
    if log == [] then []
    else
      var op := OpAt(log[|log| - 1], |log|);
      OpsOf(log[..|log| - 1]) + if op.Some? then [op.value] else []
  }

  function Fold(log: seq<LogEntry>): map<Key, Cell>
    requires |log| < TWO_63
  {
    Replay(OpsOf(log))
  }

  lemma FoldStep(log: seq<LogEntry>)
    requires log != [] && |log| < TWO_63
    ensures var op := OpAt(log[|log| - 1], |log|);
      Fold(log) == if op.Some? then ApplyOp(Fold(log[..|log| - 1]), op.value) else Fold(log[..|log| - 1])
  {
    var op := OpAt(log[|log| - 1], |log|);
    var before := OpsOf(log[..|log| - 1]);
    if op.Some? {
      assert (before + [op.value])[..|before|] == before;
    } else {
      assert before + [] == before;
    }
  }

  predicate Touches(entry: LogEntry, k: Key) {
    (entry.PutCmd? || entry.DeleteCmd?) && entry.key == k
  }

  ghost predicate IsWrite(entry: LogEntry) {
    exists k :: Touches(entry, k)
  }

  lemma WriteGetsVersion(entry: LogEntry, index: nat, logged: bool)
    ensures ResponseTo(entry, index, logged) == ApplyResult(index) <==> logged && IsWrite(entry)
  {
    if !entry.NotCommand? && !entry.Undecodable? && !entry.UnknownCmd? { assert Touches(entry, entry.key); }
  }

  /** The index of the last write to k, or 0. */
  function LastWrite(log: seq<LogEntry>, k: Key): (i: nat)
    ensures i <= |log| && (0 < i ==> Touches(log[i - 1], k))
    ensures forall j :: i <= j < |log| ==> !Touches(log[j], k)
  {
    if log == [] then 0
    else if Touches(log[|log| - 1], k) then |log|
    else LastWrite(log[..|log| - 1], k)
  }

  /** What the write at index i leaves under its key. */
  function CellAt(log: seq<LogEntry>, i: nat): Cell
    requires 0 < i <= |log| < TWO_63
  {
    if log[i - 1].PutCmd? then Live(log[i - 1].value, i) else Tombstone(i)
  }

  /** What a log leaves under a key is what its last write to the key says. */
  lemma {:induction false} FoldIsLastWrite(log: seq<LogEntry>, k: Key)
    requires |log| < TWO_63
    ensures var i := LastWrite(log, k);
      && (k in Fold(log) <==> 0 < i)
      && (0 < i ==> Fold(log)[k] == CellAt(log, i))
  {
    if log != [] {
      FoldStep(log);
      if !Touches(log[|log| - 1], k) { FoldIsLastWrite(log[..|log| - 1], k); }
    }
  }

  // ---- The cluster ----

  datatype Node = Node(engine: State, applied: nat)

  /** A snapshot of the live entries, taken at a log index. */
  datatype Snap = Snap(index: nat, data: Layer)

  datatype System = System(log: seq<LogEntry>, nodes: seq<Node>, snaps: seq<Snap>)

  datatype Action =
    | Commit(entry: LogEntry)
    | ApplyNext(n: nat)
    | EngineStep(n: nat, step: Step)   // a step of a flush or a compaction
    | TakeSnapshot(n: nat, data: Layer)
    | InstallSnapshot(n: nat, j: nat)

  /** What Engine.Snapshot returns: the live entries, under their own keys. */
  ghost predicate IsSnapshot(s: State, data: Layer) {
    && s.Tabled()
    && (forall k :: k in data ==> !data[k].deleted)
    && (forall k :: s.View(k) == Shown(Cells(data), k))
  }

  ghost predicate Allowed(c: System, a: Action) {
    match a
    case Commit(_) => |c.log| + 1 < TWO_63
    case ApplyNext(n) => n < |c.nodes| && c.nodes[n].applied < |c.log| < TWO_63 && c.nodes[n].engine.Tabled()
    case EngineStep(n, step) => n < |c.nodes| && !step.Write? && Possible(c.nodes[n].engine, step) &&
                                Benign(c.nodes[n].engine, step)
    case TakeSnapshot(n, data) => n < |c.nodes| && IsSnapshot(c.nodes[n].engine, data)
    case InstallSnapshot(n, j) => n < |c.nodes| && j < |c.snaps| && c.nodes[n].applied <= c.snaps[j].index &&
                                  c.nodes[n].engine.imm.None? && c.nodes[n].engine.tables == []
  }

  ghost function Applied(node: Node, log: seq<LogEntry>): Node
    requires node.applied < |log| < TWO_63 && node.engine.Tabled()
  {
    var op := OpAt(log[node.applied], node.applied + 1);
    Node(if op.Some? then Next(node.engine, Write(op.value)) else node.engine, node.applied + 1)
  }

  ghost function Do(c: System, a: Action): System
    requires Allowed(c, a)
  {
    match a
    case Commit(entry) => c.(log := c.log + [entry])
    case ApplyNext(n) => c.(nodes := c.nodes[n := Applied(c.nodes[n], c.log)])
    case EngineStep(n, step) =>
      c.(nodes := c.nodes[n := Node(Next(c.nodes[n].engine, step), c.nodes[n].applied)])
    case TakeSnapshot(n, data) => c.(snaps := c.snaps + [Snap(c.nodes[n].applied, data)])
    case InstallSnapshot(n, j) =>
      c.(nodes := c.nodes[n := Node(c.nodes[n].engine.(mem := c.snaps[j].data), c.snaps[j].index)])
  }

  ghost predicate Fresh(c: System) {
    c.log == [] && c.snaps == [] && forall n :: 0 <= n < |c.nodes| ==> c.nodes[n] == Node(INIT, 0)
  }

  ghost function Run(c: System, actions: seq<Action>): Option<System> {
    if actions == [] then Some(c)
    else
      var d, a := Run(c, actions[..|actions| - 1]), actions[|actions| - 1];
      if d.Some? && Allowed(d.value, a) then Some(Do(d.value, a)) else None
  }

  // ---- What every action keeps ----

  /** The node shows exactly the log prefix it has applied. */
  ghost predicate ShowsPrefix(node: Node, log: seq<LogEntry>) {
    && node.applied <= |log| < TWO_63 && node.engine.Tabled()
    && forall k :: node.engine.View(k) == Shown(Fold(log[..node.applied]), k)
  }

  ghost predicate GoodNode(node: Node, log: seq<LogEntry>) {
    ShowsPrefix(node, log) && Formed(node.engine) && Ordered(node.engine, node.applied)
  }

  ghost predicate GoodSnap(snap: Snap, log: seq<LogEntry>) {
    && snap.index <= |log| < TWO_63
    && (forall k :: k in snap.data ==> !snap.data[k].deleted)
    && (forall k :: Shown(Cells(snap.data), k) == Shown(Fold(log[..snap.index]), k))
  }

  ghost predicate Good(c: System) {
    && (forall n :: 0 <= n < |c.nodes| ==> GoodNode(c.nodes[n], c.log))
    && (forall j :: 0 <= j < |c.snaps| ==> GoodSnap(c.snaps[j], c.log))
  }

  lemma CommitKeepsNode(node: Node, log: seq<LogEntry>, entry: LogEntry)
    requires GoodNode(node, log) && |log| + 1 < TWO_63
    ensures GoodNode(node, log + [entry])
  {
    assert (log + [entry])[..node.applied] == log[..node.applied];
  }

  lemma CommitKeepsSnap(snap: Snap, log: seq<LogEntry>, entry: LogEntry)
    requires GoodSnap(snap, log) && |log| + 1 < TWO_63
    ensures GoodSnap(snap, log + [entry])
  {
    assert (log + [entry])[..snap.index] == log[..snap.index];
  }

  lemma ApplyKeepsNode(node: Node, log: seq<LogEntry>)
    requires GoodNode(node, log) && node.applied < |log|
    ensures GoodNode(Applied(node, log), log)
  {
    var op := OpAt(log[node.applied], node.applied + 1);
    var prefix := log[..node.applied + 1];
    assert prefix[..node.applied] == log[..node.applied];
    FoldStep(prefix);
    if op.Some? {
      WriteKeepsNode(node, log, op.value);
    }
  }

  lemma WriteKeepsNode(node: Node, log: seq<LogEntry>, op: Op)
    requires GoodNode(node, log) && node.applied < |log| && op.version == node.applied + 1
    requires Fold(log[..node.applied + 1]) == ApplyOp(Fold(log[..node.applied]), op)
    ensures GoodNode(Node(Next(node.engine, Write(op)), node.applied + 1), log)
  {
    StepKeepsForm(node.engine, Write(op));
    StepKeepsOrder(node.engine, Write(op), node.applied);
    forall k ensures Next(node.engine, Write(op)).View(k) == Shown(Fold(log[..node.applied + 1]), k) {
      WriteView(node.engine, op, k);
    }
  }

  lemma EngineStepKeepsNode(node: Node, log: seq<LogEntry>, step: Step)
    requires GoodNode(node, log) && !step.Write? && Possible(node.engine, step) && Benign(node.engine, step)
    ensures GoodNode(Node(Next(node.engine, step), node.applied), log)
  {
    StepKeepsForm(node.engine, step);
    StepKeepsOrder(node.engine, step, node.applied);
    forall k ensures Next(node.engine, step).View(k) == node.engine.View(k) {
      StepKeepsView(node.engine, step, k);
    }
  }

  lemma SnapBounded(snap: Snap, log: seq<LogEntry>)
    requires GoodSnap(snap, log)
    ensures Bounded(snap.data, snap.index)
  {
    forall k | k in snap.data ensures snap.data[k].version <= snap.index {
      assert Shown(Cells(snap.data), k) == Some(CellOf(snap.data[k]));
      FoldIsLastWrite(log[..snap.index], k);
    }
  }

  lemma InstallKeepsNode(node: Node, snap: Snap, log: seq<LogEntry>)
    requires GoodNode(node, log) && GoodSnap(snap, log)
    requires node.engine.imm.None? && node.engine.tables == []
    ensures GoodNode(Node(node.engine.(mem := snap.data), snap.index), log)
  {
    var s := node.engine.(mem := snap.data);
    SnapBounded(snap, log);
    assert s.TableLayers() == [];
    forall k ensures s.View(k) == Shown(Cells(snap.data), k) { MemOnlyView(s, k); }
  }

  lemma ActionKeepsGood(c: System, a: Action)
    requires Good(c) && Allowed(c, a)
    ensures Good(Do(c, a))
  {
    match a {
      case Commit(entry) =>
        forall n | 0 <= n < |c.nodes| ensures GoodNode(c.nodes[n], c.log + [entry]) {
          CommitKeepsNode(c.nodes[n], c.log, entry);
        }
        forall j | 0 <= j < |c.snaps| ensures GoodSnap(c.snaps[j], c.log + [entry]) {
          CommitKeepsSnap(c.snaps[j], c.log, entry);
        }
      case ApplyNext(n) => ApplyKeepsNode(c.nodes[n], c.log);
      case EngineStep(n, step) => EngineStepKeepsNode(c.nodes[n], c.log, step);
      case TakeSnapshot(n, data) => assert GoodSnap(Snap(c.nodes[n].applied, data), c.log);
      case InstallSnapshot(n, j) => InstallKeepsNode(c.nodes[n], c.snaps[j], c.log);
    }
  }

  lemma FreshIsGood(c: System)
    requires Fresh(c)
    ensures Good(c)
  {
    assert INIT.TableLayers() == [];
    forall k ensures INIT.View(k) == None { MemOnlyView(INIT, k); }
  }

  lemma {:induction false} RunKeepsGood(c: System, actions: seq<Action>)
    requires Good(c) && Run(c, actions).Some?
    ensures Good(Run(c, actions).value)
  {
    if actions != [] {
      var prefix := actions[..|actions| - 1];
      RunKeepsGood(c, prefix);
      ActionKeepsGood(Run(c, prefix).value, actions[|actions| - 1]);
    }
  }

  /** In every run each node shows the last-write-wins map of the log prefix it has applied. */
  lemma NodesShowTheirPrefix(c: System, actions: seq<Action>, n: nat, k: Key)
    requires Fresh(c) && Run(c, actions).Some? && n < |Run(c, actions).value.nodes|
    ensures var d := Run(c, actions).value;
      && d.nodes[n].applied <= |d.log| < TWO_63 && d.nodes[n].engine.Tabled()
      && d.nodes[n].engine.View(k) == Shown(Fold(d.log[..d.nodes[n].applied]), k)
  {
    FreshIsGood(c);
    RunKeepsGood(c, actions);
    assert GoodNode(Run(c, actions).value.nodes[n], Run(c, actions).value.log);
  }

  /** Nodes that have applied the same index agree on every key. */
  lemma NodesAgree(c: System, actions: seq<Action>, m: nat, n: nat, k: Key)
    requires Fresh(c) && Run(c, actions).Some?
    requires var d := Run(c, actions).value;
      m < |d.nodes| && n < |d.nodes| && d.nodes[m].applied == d.nodes[n].applied
    ensures var d := Run(c, actions).value;
      && d.nodes[m].engine.Tabled() && d.nodes[n].engine.Tabled()
      && d.nodes[m].engine.View(k) == d.nodes[n].engine.View(k)
  {
    NodesShowTheirPrefix(c, actions, m, k);
    NodesShowTheirPrefix(c, actions, n, k);
  }

  /** The rest of the log, applied at node n. */
  function CatchUp(n: nat, count: nat): seq<Action> {
    seq(count, _ => ApplyNext(n))
  }

  lemma {:induction false} CatchUpRuns(c: System, n: nat, count: nat)
    requires Good(c) && n < |c.nodes| && c.nodes[n].applied + count <= |c.log|
    ensures var d := Run(c, CatchUp(n, count));
      && d.Some? && d.value.log == c.log && |d.value.nodes| == |c.nodes| && Good(d.value)
      && d.value.nodes[n].applied == c.nodes[n].applied + count
  {
    if count != 0 {
      CatchUpRuns(c, n, count - 1);
      var all := CatchUp(n, count);
      assert all[..count - 1] == CatchUp(n, count - 1);
      var d := Run(c, all[..count - 1]).value;
      assert GoodNode(d.nodes[n], d.log);
      ActionKeepsGood(d, ApplyNext(n));
    }
  }

  /** What node n has yet to apply. */
  function Remaining(c: System, n: nat): seq<Action>
    requires n < |c.nodes|
  {
    CatchUp(n, if c.nodes[n].applied <= |c.log| then |c.log| - c.nodes[n].applied else 0)
  }

  /** A node that applies the log to its end shows all of it. */
  lemma {:induction false} CaughtUpShows(c: System, n: nat, k: Key)
    requires Good(c) && n < |c.nodes|
    ensures |c.log| < TWO_63
    ensures var d := Run(c, Remaining(c, n));
      && d.Some? && n < |d.value.nodes| && d.value.nodes[n].engine.Tabled()
      && d.value.nodes[n].engine.View(k) == Shown(Fold(c.log), k)
  {
    assert GoodNode(c.nodes[n], c.log);
    CatchUpRuns(c, n, |c.log| - c.nodes[n].applied);
    var d := Run(c, Remaining(c, n)).value;
    assert GoodNode(d.nodes[n], d.log) && d.log[..|d.log|] == c.log;
  }

  /**
   * A committed write is read at every node that applies the log to its end: a put with its value and
   * its index as version, a delete as nothing.
   */
  lemma {:induction false} CommittedIsRead(init: System, actions: seq<Action>, entry: LogEntry, n: nat, k: Key)
    requires Fresh(init) && Run(init, actions).Some? && Touches(entry, k)
    requires var c := Run(init, actions).value; n < |c.nodes| && |c.log| + 1 < TWO_63
    ensures var c := Run(init, actions + [Commit(entry)]);
      && c.Some? && n < |c.value.nodes|
      && (var d := Run(c.value, Remaining(c.value, n));
          && d.Some? && n < |d.value.nodes| && d.value.nodes[n].engine.Tabled()
          && d.value.nodes[n].engine.View(k) ==
               if entry.PutCmd? then Some(Live(entry.value, |Run(init, actions).value.log| + 1)) else None)
  {
    FreshIsGood(init);
    RunKeepsGood(init, actions);
    assert (actions + [Commit(entry)])[..|actions|] == actions;
    var b := Run(init, actions).value;
    ActionKeepsGood(b, Commit(entry));
    var c := Do(b, Commit(entry));
    CaughtUpShows(c, n, k);
    FoldIsLastWrite(c.log, k);
  }

  /**
   * A write whose log append fails is skipped although the applied index moves on. The node still
   * shows its prefix exactly when the entry was no write, or deleted a key that was not shown anyway.
   */
  lemma FailedApplyExact(node: Node, log: seq<LogEntry>)
    requires GoodNode(node, log) && node.applied < |log|
    ensures var op := OpAt(log[node.applied], node.applied + 1);
      ShowsPrefix(Node(node.engine, node.applied + 1), log) <==>
      op.None? || (op.value.DeleteOp? && node.engine.View(op.value.key).None?)
  {
    var op := OpAt(log[node.applied], node.applied + 1);
    var prefix := log[..node.applied + 1];
    assert prefix[..node.applied] == log[..node.applied];
    FoldStep(prefix);
    if op.Some? {
      FoldIsLastWrite(log[..node.applied], op.value.key);
      assert node.engine.View(op.value.key) == Shown(Fold(log[..node.applied]), op.value.key);
    }
  }

  // ---- Re-applying ----

  lemma {:induction false} ReplayConcat(a: seq<Op>, b: seq<Op>)
    ensures Replay(a + b) == Replay(a) + Replay(b)
    decreases |b|
  {
    if b == [] {
      assert a + b == a;
    } else {
      var n := |b| - 1;
      assert (a + b)[..|a + b| - 1] == a + b[..n];
      ReplayConcat(a, b[..n]);
    }
  }

  /** Applying any suffix of the writes a second time changes nothing, although no write compares versions. */
  lemma ReplayIdempotent(ops: seq<Op>, i: nat)
    requires i <= |ops|
    ensures Replay(ops + ops[i..]) == Replay(ops)
  {
    assert ops == ops[..i] + ops[i..];
    ReplayConcat(ops, ops[i..]);
    ReplayConcat(ops[..i], ops[i..]);
  }
}
