/** Reads routed by consistency mode: wait for an applied index, then read the local engine. */
module Router {
  import opened Core
  import opened BigEndian
  import opened Cluster
  import opened EngineModel

  datatype Mode = Strong | Eventual | ReadYourWrites | Monotonic | Unrecognised

  /** One look at the applied index, and whether the context ended the wait after it. */
  datatype Poll = Poll(applied: nat, cancelled: bool)

  /** How a wait ends: at a poll, by cancellation, or not within the polls given. */
  datatype Waited = Ready(at: nat) | Cancelled | Waiting

  /** Poll i is the first to see the index reached; no poll before it was cancelled. */
  ghost predicate ReadyAt(index: nat, polls: seq<Poll>, i: nat) {
    && i < |polls| && index <= polls[i].applied
    && forall j :: 0 <= j < i ==> polls[j].applied < index && !polls[j].cancelled
  }

  /** Poll i is cancelled, and no poll up to it sees the index reached. */
  ghost predicate CancelledAt(index: nat, polls: seq<Poll>, i: nat) {
    && i < |polls| && polls[i].cancelled && polls[i].applied < index
    && forall j :: 0 <= j < i ==> polls[j].applied < index && !polls[j].cancelled
  }

  ghost predicate NeverReady(index: nat, polls: seq<Poll>) {
    forall i :: 0 <= i < |polls| ==> polls[i].applied < index && !polls[i].cancelled
  }

  /** Polls until the applied index reaches `index`; index 0 asks for nothing. */
  method WaitForIndex(index: nat, polls: seq<Poll>) returns (w: Waited)
    ensures index == 0 ==> w == Ready(0)
    ensures 0 < index ==>
      match w
      case Ready(at) => ReadyAt(index, polls, at)
      case Cancelled => exists i: nat :: CancelledAt(index, polls, i)
      case Waiting => NeverReady(index, polls)
  {
    if index == 0 {
      return Ready(0);
    }
    for i := 0 to |polls|
      invariant forall j :: 0 <= j < i ==> polls[j].applied < index && !polls[j].cancelled
    {
      if polls[i].applied >= index {
        return Ready(i);
      }
      if polls[i].cancelled {
        assert CancelledAt(index, polls, i);
        return Cancelled;
      }
    }
    return Waiting;
  }

  /**
   * The index a read waits for: session index or minimum version, as unsigned numbers. A negative one
   * becomes larger than any log index.
   */
  function WaitIndex(mode: Mode, sessionIndex: Int64, minVersion: Int64): nat {
    match mode
    case ReadYourWrites => ToUnsigned(sessionIndex)
    case Monotonic => ToUnsigned(minVersion)
    case _ => 0
  }

  /** Raft reports indexes of its log, which stay below 2^63. */
  ghost predicate LogIndexes(polls: seq<Poll>) {
    forall i :: 0 <= i < |polls| ==> polls[i].applied < TWO_63
  }

  /** A wait can end by reaching its index exactly when the session index or version is not negative. */
  lemma WaitCanEnd(mode: Mode, sessionIndex: Int64, minVersion: Int64)
    requires mode.ReadYourWrites? || mode.Monotonic?
    ensures var index := WaitIndex(mode, sessionIndex, minVersion);
      (exists polls, i: nat :: LogIndexes(polls) && ReadyAt(index, polls, i)) <==>
      0 <= if mode.ReadYourWrites? then sessionIndex else minVersion
  {
    var index := WaitIndex(mode, sessionIndex, minVersion);
    if index < TWO_63 {
      var polls := [Poll(index, false)];
      assert LogIndexes(polls) && ReadyAt(index, polls, 0);
    }
  }

  /** A wait ends in one way only. */
  lemma WaitEndsOnce(index: nat, polls: seq<Poll>)
    ensures !((exists i: nat :: ReadyAt(index, polls, i)) && exists i: nat :: CancelledAt(index, polls, i))
    ensures NeverReady(index, polls) ==>
      !(exists i: nat :: ReadyAt(index, polls, i)) && !(exists i: nat :: CancelledAt(index, polls, i))
  {
  }

  /**
   * The read waits for this index: it is answered exactly when the index is 0 or a poll sees it reached
   * first, fails exactly when a poll is cancelled first, and is left waiting otherwise.
   */
  ghost predicate WaitsFor(index: nat, polls: seq<Poll>, r: ReadResult) {
    && (r.Read? <==> index == 0 || exists i: nat :: ReadyAt(index, polls, i))
    && (r.Failed? <==> index != 0 && exists i: nat :: CancelledAt(index, polls, i))
    && (r.Blocked? <==> index != 0 && NeverReady(index, polls))
  }

  datatype ReadResult = Read(entry: Entry, found: bool) | Failed | Blocked

  /** A routed read; `leads` is the outcome of the leadership check made by strong reads. */
  method Get(store: Engine, key: Key, mode: Mode, sessionIndex: Int64, minVersion: Int64,
             leads: bool, polls: seq<Poll>) returns (r: ReadResult)
    requires store.Valid()
    ensures var index := WaitIndex(mode, sessionIndex, minVersion);
      match r
      case Read(entry, found) =>
        && (mode.Strong? ==> leads)
        && (0 < index ==> exists i: nat :: ReadyAt(index, polls, i))
        && store.St().Tabled() && (found <==> store.St().View(key).Some?)
        && (found ==> store.St().View(key) == Some(CellOf(entry)))
      case Failed => (mode.Strong? && !leads) || exists i: nat :: CancelledAt(index, polls, i)
      case Blocked => 0 < index && NeverReady(index, polls)
    ensures LogIndexes(polls) && TWO_63 <= WaitIndex(mode, sessionIndex, minVersion) ==> !r.Read?
    ensures mode.Eventual? || mode.Unrecognised? ==> r.Read?
    ensures mode.Strong? ==> if leads then r.Read? else r.Failed?
    ensures mode.ReadYourWrites? ==> WaitsFor(sessionIndex % 0x1_0000_0000_0000_0000, polls, r)
    ensures mode.Monotonic? ==> WaitsFor(minVersion % 0x1_0000_0000_0000_0000, polls, r)
  {
    if mode.Strong? && !leads {
      return Failed;
    }
    SignedRoundTrip(sessionIndex);
    SignedRoundTrip(minVersion);
    WaitEndsOnce(WaitIndex(mode, sessionIndex, minVersion), polls);
    var w := WaitForIndex(WaitIndex(mode, sessionIndex, minVersion), polls);
    if w.Cancelled? {
      return Failed;
    }
    if w.Waiting? {
      return Blocked;
    }
    var entry, found := store.Get(key);
    return Read(entry, found);
  }

  // ---- What a read after waiting returns ----

  /**
   * The answer a client that knows of a write to k at index s may get: a version at least s, or
   * nothing because a delete at or after s is the last write to k.
   */
  ghost predicate Recent(view: Option<Cell>, log: seq<LogEntry>, applied: nat, k: Key, s: nat)
    requires applied <= |log|
  {
    match view
    case Some(Live(value, version)) =>
      0 < version && s <= version <= applied && log[version - 1] == PutCmd(k, value)
    case Some(Tombstone(_)) => false
    case None =>
      exists d :: s <= d <= applied && DeletedLast(log, applied, k, d)
  }

  /** The last write to k among the first `applied` entries is a delete at index d. */
  ghost predicate DeletedLast(log: seq<LogEntry>, applied: nat, k: Key, d: nat)
    requires applied <= |log|
  {
    0 < d <= applied && log[d - 1] == DeleteCmd(k) && LastWrite(log[..applied], k) == d
  }

  /** A node's answer is recent exactly when its state machine has consumed the write. */
  lemma PrefixReadExact(node: Node, log: seq<LogEntry>, k: Key, s: nat)
    requires ShowsPrefix(node, log) && 0 < s <= |log| && Touches(log[s - 1], k)
    ensures Recent(node.engine.View(k), log, node.applied, k, s) <==> s <= node.applied
  {
    var prefix := log[..node.applied];
    FoldIsLastWrite(prefix, k);
    var i := LastWrite(prefix, k);
    if s <= node.applied {
      assert prefix[s - 1] == log[s - 1];
      assert s <= i;
      if prefix[i - 1].DeleteCmd? { assert DeletedLast(log, node.applied, k, i); }
    }
  }

  // ---- Over whole runs ----

  lemma {:induction false} RunGrows(c: System, actions: seq<Action>, n: nat)
    requires Run(c, actions).Some? && n < |c.nodes|
    ensures var d := Run(c, actions).value;
      c.log <= d.log && |d.nodes| == |c.nodes| && c.nodes[n].applied <= d.nodes[n].applied
  {
    if actions != [] {
      RunGrows(c, actions[..|actions| - 1], n);
    }
  }

  lemma {:induction false} RunSplit(c: System, a: seq<Action>, b: seq<Action>)
    requires Run(c, a).Some?
    ensures Run(c, a + b) == Run(Run(c, a).value, b)
    decreases |b|
  {
    if b == [] {
      assert a + b == a;
    } else {
      var m := |b| - 1;
      assert (a + b)[..|a + b| - 1] == a + b[..m];
      RunSplit(c, a, b[..m]);
    }
  }

  /** A read at node n after `rest`, once the node has consumed index s. */
  lemma {:induction false} ReadAfterPoll(c: System, rest: seq<Action>, n: nat, k: Key, s: nat)
    requires Good(c) && n < |c.nodes| && Run(c, rest).Some?
    requires 0 < s <= c.nodes[n].applied && Touches(c.log[s - 1], k)
    ensures var d := Run(c, rest).value;
      && n < |d.nodes| && d.nodes[n].applied <= |d.log| && d.nodes[n].engine.Tabled()
      && Recent(d.nodes[n].engine.View(k), d.log, d.nodes[n].applied, k, s)
  {
    var d := Run(c, rest).value;
    RunGrows(c, rest, n);
    RunKeepsGood(c, rest);
    assert GoodNode(d.nodes[n], d.log) && d.log[s - 1] == c.log[s - 1];
    PrefixReadExact(d.nodes[n], d.log, k, s);
  }

  /**
   * The polls of a wait at node n during a run: poll j is taken after the first times[j] actions and
   * reports no more than the node's state machine has consumed by then.
   */
  ghost predicate PolledAlong(init: System, actions: seq<Action>, n: nat, polls: seq<Poll>, times: seq<nat>) {
    && |times| == |polls|
    && forall j :: 0 <= j < |polls| ==> times[j] <= |actions| && ReportsApplied(init, actions[..times[j]], n, polls[j])
  }

  ghost predicate ReportsApplied(init: System, actions: seq<Action>, n: nat, poll: Poll) {
    var c := Run(init, actions);
    c.Some? && n < |c.value.nodes| && poll.applied <= c.value.nodes[n].applied
  }

  /** A read after a wait that ended at some poll, and a write to the key at or before the index waited for. */
  lemma {:induction false} ReadAfterWait(init: System, actions: seq<Action>, n: nat, k: Key, s: nat, waited: nat,
                                         polls: seq<Poll>, times: seq<nat>)
    requires Fresh(init) && Run(init, actions).Some? && PolledAlong(init, actions, n, polls, times)
    requires 0 < s <= waited && exists i: nat :: ReadyAt(waited, polls, i)
    requires var d := Run(init, actions).value; s <= |d.log| && Touches(d.log[s - 1], k)
    ensures var d := Run(init, actions).value;
      && n < |d.nodes| && d.nodes[n].applied <= |d.log| && d.nodes[n].engine.Tabled()
      && Recent(d.nodes[n].engine.View(k), d.log, d.nodes[n].applied, k, s)
  {
    var i: nat :| ReadyAt(waited, polls, i);
    assert ReportsApplied(init, actions[..times[i]], n, polls[i]);
    RunMoment(init, actions, times[i], n);
    ReadAfterPoll(Run(init, actions[..times[i]]).value, actions[times[i]..], n, k, s);
  }

  /** A moment of a run and the rest of the run from there. */
  lemma {:induction false} RunMoment(init: System, actions: seq<Action>, t: nat, n: nat)
    requires Fresh(init) && Run(init, actions).Some? && t <= |actions| && Run(init, actions[..t]).Some?
    requires n < |Run(init, actions[..t]).value.nodes|
    ensures var c, d := Run(init, actions[..t]).value, Run(init, actions).value;
      && Good(c) && Run(c, actions[t..]) == Some(d) && c.nodes[n].applied <= |c.log|
      && c.log <= d.log && |c.nodes| == |d.nodes|
  {
    assert actions == actions[..t] + actions[t..];
    FreshIsGood(init);
    RunKeepsGood(init, actions[..t]);
    RunSplit(init, actions[..t], actions[t..]);
    RunGrows(Run(init, actions[..t]).value, actions[t..], n);
    assert GoodNode(Run(init, actions[..t]).value.nodes[n], Run(init, actions[..t]).value.log);
  }

  /**
   * Read your writes: a session's last write, to whatever key, has index `session`. In every run, at
   * every node, a read whose wait for it ended at a poll taken along the run is recent for every write to
   * the key it reads at or before that index: it returns a version at least that, or nothing because a
   * delete at or after it was applied.
   */
  lemma {:induction false} ReadYourWritesHolds(init: System, actions: seq<Action>, n: nat, k: Key, s: nat,
                                               session: Int64, minVersion: Int64, polls: seq<Poll>, times: seq<nat>)
    requires Fresh(init) && Run(init, actions).Some? && PolledAlong(init, actions, n, polls, times)
    requires 0 < s <= session && exists i: nat :: ReadyAt(WaitIndex(ReadYourWrites, session, minVersion), polls, i)
    requires var d := Run(init, actions).value; s <= |d.log| && Touches(d.log[s - 1], k)
    ensures var d := Run(init, actions).value;
      && n < |d.nodes| && d.nodes[n].applied <= |d.log| && d.nodes[n].engine.Tabled()
      && Recent(d.nodes[n].engine.View(k), d.log, d.nodes[n].applied, k, s)
  {
    ReadAfterWait(init, actions, n, k, s, session, polls, times);
  }

  /**
   * Monotonic reads: after the first `seen` actions a client read version v of k at node m, and the
   * highest version it has seen of any key is `watermark`. A later read of k at any node whose wait for
   * the watermark ended at a poll taken along the run returns a version at least v, or nothing because a
   * delete after v was applied.
   */
  lemma {:induction false} MonotonicReadsHold(init: System, actions: seq<Action>, seen: nat, m: nat, value: Value,
                                              n: nat, k: Key, v: Int64, sessionIndex: Int64, watermark: Int64,
                                              polls: seq<Poll>, times: seq<nat>)
    requires Fresh(init) && Run(init, actions).Some? && PolledAlong(init, actions, n, polls, times)
    requires seen <= |actions| && Run(init, actions[..seen]).Some? && v <= watermark
    requires var c := Run(init, actions[..seen]).value;
      m < |c.nodes| && c.nodes[m].engine.Tabled() && c.nodes[m].engine.View(k) == Some(Live(value, v))
    requires exists i: nat :: ReadyAt(WaitIndex(Monotonic, sessionIndex, watermark), polls, i)
    ensures 0 < v
    ensures var d := Run(init, actions).value;
      && n < |d.nodes| && d.nodes[n].applied <= |d.log| && d.nodes[n].engine.Tabled()
      && Recent(d.nodes[n].engine.View(k), d.log, d.nodes[n].applied, k, v)
  {
    SeenVersionWasWritten(init, actions[..seen], m, k, value, v);
    RunMoment(init, actions, seen, m);
    ReadAfterWait(init, actions, n, k, v, watermark, polls, times);
  }

  /** A version that a read returned is the index of a put of that value. */
  lemma {:induction false} SeenVersionWasWritten(init: System, first: seq<Action>, m: nat, k: Key, value: Value,
                                                 v: Int64)
    requires Fresh(init) && Run(init, first).Some?
    requires var c := Run(init, first).value;
      m < |c.nodes| && c.nodes[m].engine.Tabled() && c.nodes[m].engine.View(k) == Some(Live(value, v))
    ensures var c := Run(init, first).value; 0 < v <= |c.log| && c.log[v - 1] == PutCmd(k, value)
  {
    var c := Run(init, first).value;
    NodesShowTheirPrefix(init, first, m, k);
    FoldIsLastWrite(c.log[..c.nodes[m].applied], k);
  }

  /** What a read tells its client. */
  function Answer(entry: Entry, found: bool): Option<Cell> {
    if found then Some(CellOf(entry)) else None
  }

  /** The answer is recent for every write to the key at or before the index named by the client. */
  ghost predicate RecentForAll(view: Option<Cell>, log: seq<LogEntry>, applied: nat, key: Key, named: int)
    requires applied <= |log|
  {
    forall s: nat :: 0 < s <= named && s <= |log| && Touches(log[s - 1], key) ==> Recent(view, log, applied, key, s)
  }

  /**
   * A routed read at node n of a run: if it returns at all, its answer is recent for every write to the
   * key at or before the session index or minimum version, whichever key that one came from.
   */
  method GetAtNode(store: Engine, key: Key, mode: Mode, sessionIndex: Int64, minVersion: Int64, leads: bool,
                   polls: seq<Poll>, ghost init: System, ghost actions: seq<Action>, ghost n: nat,
                   ghost times: seq<nat>)
    returns (r: ReadResult)
    requires store.Valid() && Fresh(init) && Run(init, actions).Some? && PolledAlong(init, actions, n, polls, times)
    requires n < |Run(init, actions).value.nodes| && store.St() == Run(init, actions).value.nodes[n].engine
    ensures var d := Run(init, actions).value;
      var named := if mode.ReadYourWrites? then sessionIndex else minVersion;
      && d.nodes[n].applied <= |d.log|
      && (r.Read? && (mode.ReadYourWrites? || mode.Monotonic?) ==>
            RecentForAll(Answer(r.entry, r.found), d.log, d.nodes[n].applied, key, named))
  {
    r := Get(store, key, mode, sessionIndex, minVersion, leads, polls);
    NodesShowTheirPrefix(init, actions, n, key);
    if r.Read? && (mode.ReadYourWrites? || mode.Monotonic?) {
      AnswerIsView(store, key, r);
      RecentAtNode(init, actions, n, key, if mode.ReadYourWrites? then sessionIndex else minVersion, polls, times);
    }
  }

  lemma {:induction false} RecentAtNode(init: System, actions: seq<Action>, n: nat, key: Key, named: Int64,
                                        polls: seq<Poll>, times: seq<nat>)
    requires Fresh(init) && Run(init, actions).Some? && PolledAlong(init, actions, n, polls, times)
    requires n < |Run(init, actions).value.nodes|
    requires 0 < named ==> exists i: nat :: ReadyAt(named, polls, i)
    ensures var d := Run(init, actions).value;
      && d.nodes[n].applied <= |d.log| && d.nodes[n].engine.Tabled()
      && RecentForAll(d.nodes[n].engine.View(key), d.log, d.nodes[n].applied, key, named)
  {
    var d := Run(init, actions).value;
    NodesShowTheirPrefix(init, actions, n, key);
    forall s: nat | 0 < s <= named && s <= |d.log| && Touches(d.log[s - 1], key)
      ensures Recent(d.nodes[n].engine.View(key), d.log, d.nodes[n].applied, key, s)
    {
      ReadAfterWait(init, actions, n, key, s, named, polls, times);
    }
  }

  lemma AnswerIsView(store: Engine, key: Key, r: ReadResult)
    requires r.Read? && store.St().Tabled() && (r.found <==> store.St().View(key).Some?)
    requires r.found ==> store.St().View(key) == Some(CellOf(r.entry))
    ensures Answer(r.entry, r.found) == store.St().View(key)
  {
  }
}
