/** The batch writer: one loop moves requests from a channel to Raft and answers each of them. */
module BatchWriter {
  import opened Core
  import opened Cluster
  import FsmRun

  const BATCH_MAX_SIZE: nat := 256

  datatype Req = Req(id: nat, cmd: LogEntry)

  /** An entry of the log, and whether the leader's engine accepted the write it stands for. */
  datatype Committed = Committed(entry: LogEntry, logged: bool)

  /** What proposing one command came to; `gap` are entries that others committed before it. */
  datatype Outcome =
    | EncodeFails
    | NotCommitted(gap: seq<Committed>)                 // an error, and the command is not in the log
    | ErrorAfterCommit(gap: seq<Committed>, logged: bool)
    | Responded(gap: seq<Committed>, logged: bool)      // the state machine's response came back

  datatype Result = Result(version: int, failed: bool)

  datatype Reply = Reply(id: nat, result: Result)

  /** The state of the writer and of the log it proposes to. */
  datatype State = State(
    submitted: seq<LogEntry>,   // every command ever put on the channel, by request number
    channel: seq<Req>,
    pending: seq<Req>,
    log: seq<Committed>,
    proposed: seq<nat>,         // the requests handed to Raft, in order
    replies: seq<Reply>,
    places: seq<nat>,           // the log index of each answered request's command, or 0
    stopped: bool)

  const INIT: State := State([], [], [], [], [], [], [], false)

  /** A response of another kind is reported with the error of a future that has none, and version 0. */
  function ResultOf(r: Response): Result {
    if r.ApplyResult? then Result(r.version, false) else Result(0, false)
  }

  /** One command of a flush: propose it, then answer its request. */
  function ProposeOne(s: State, req: Req, o: Outcome): State {
    match o
    case EncodeFails =>
      s.(replies := s.replies + [Reply(req.id, Result(0, true))], places := s.places + [0])
    case NotCommitted(gap) =>
      s.(log := s.log + gap, proposed := s.proposed + [req.id],
         replies := s.replies + [Reply(req.id, Result(0, true))], places := s.places + [0])
    case ErrorAfterCommit(gap, logged) =>
      s.(log := s.log + gap + [Committed(req.cmd, logged)], proposed := s.proposed + [req.id],
         replies := s.replies + [Reply(req.id, Result(0, true))], places := s.places + [|s.log + gap| + 1])
    case Responded(gap, logged) =>
      var index := |s.log + gap| + 1;
      s.(log := s.log + gap + [Committed(req.cmd, logged)], proposed := s.proposed + [req.id],
         replies := s.replies + [Reply(req.id, ResultOf(ResponseTo(req.cmd, index, logged)))],
         places := s.places + [index])
  }

  /** A flush answers the pending requests in order and empties the list. */
  function FlushWith(s: State, outcomes: seq<Outcome>): State
    requires |outcomes| == |s.pending|
    decreases |s.pending|
  {
    if s.pending == [] then s
    else FlushWith(ProposeOne(s, s.pending[0], outcomes[0]).(pending := s.pending[1..]), outcomes[1..])
  }

  datatype Step =
    | Submit(cmd: LogEntry)
    | Receive(outcomes: seq<Outcome>)                   // take a request; a full batch is flushed at once
    | Tick(outcomes: seq<Outcome>)
    | Stop(outcomes: seq<Outcome>)

  ghost predicate Possible(s: State, step: Step) {
    match step
    case Submit(_) => true
    case Receive(outcomes) => !s.stopped && s.channel != [] && |outcomes| == |s.pending| + 1
    case Tick(outcomes) => !s.stopped && |outcomes| == |s.pending|
    case Stop(outcomes) => !s.stopped && |outcomes| == |s.pending|
  }

  ghost function Next(s: State, step: Step): State
    requires Possible(s, step)
  {
    match step
    case Submit(cmd) =>
      s.(submitted := s.submitted + [cmd], channel := s.channel + [Req(|s.submitted|, cmd)])
    case Receive(outcomes) =>
      var t := s.(channel := s.channel[1..], pending := s.pending + [s.channel[0]]);
      if |t.pending| >= BATCH_MAX_SIZE then FlushWith(t, outcomes) else t
    case Tick(outcomes) => FlushWith(s, outcomes)
    case Stop(outcomes) => FlushWith(s, outcomes).(stopped := true)
  }

  ghost function Exec(steps: seq<Step>): Option<State> {
    if steps == [] then Some(INIT)
    else
      var s, step := Exec(steps[..|steps| - 1]), steps[|steps| - 1];
      if s.Some? && Possible(s.value, step) then Some(Next(s.value, step)) else None
  }

  // ---- What every step keeps ----

  ghost predicate Numbered(reqs: seq<Req>, n: nat, submitted: seq<LogEntry>) {
    && n + |reqs| <= |submitted|
    && forall i :: 0 <= i < |reqs| ==> reqs[i] == Req(n + i, submitted[n + i])
  }

  /** Requests are answered in channel order, each once; what is not answered is pending or queued. */
  ghost predicate InOrder(s: State) {
    && (forall j :: 0 <= j < |s.replies| ==> s.replies[j].id == j)
    && Numbered(s.pending, |s.replies|, s.submitted)
    && Numbered(s.channel, |s.replies| + |s.pending|, s.submitted)
    && |s.replies| + |s.pending| + |s.channel| == |s.submitted|
    && (s.stopped ==> s.pending == [])
  }

  /** Commands reach Raft in channel order, none twice. */
  ghost predicate Ascending(s: State) {
    && (forall i, j :: 0 <= i < j < |s.proposed| ==> s.proposed[i] < s.proposed[j])
    && (forall i :: 0 <= i < |s.proposed| ==> s.proposed[i] < |s.replies|)
  }

  predicate Versioned(r: Result) {
    !r.failed && r.version != 0
  }

  /** A returned version is the log index of that very command. */
  ghost predicate Versions(s: State) {
    forall j :: 0 <= j < |s.replies| && Versioned(s.replies[j].result) ==>
      && 0 < s.replies[j].result.version <= |s.log|
      && j < |s.submitted| && s.log[s.replies[j].result.version - 1].entry == s.submitted[j]
  }

  /** The entry at log index i is a write, and the engine logged it. */
  ghost predicate CarriedOut(log: seq<Committed>, i: nat) {
    0 < i <= |log| && log[i - 1].logged && IsWrite(log[i - 1].entry)
  }

  /** These are the entries whose write the state machine adds to what it has carried out. */
  lemma CarriedOutExact(log: seq<Committed>, i: nat, s: FsmRun.Machine)
    requires 0 < i <= |log| && i < TWO_63
    ensures CarriedOut(log, i) <==>
      |FsmRun.Moved(s, FsmRun.ApplyEntry(log[i - 1].entry, i, log[i - 1].logged)).applied| == |s.applied| + 1
  {
    var entry := log[i - 1].entry;
    if OpAt(entry, i).Some? { assert Touches(entry, entry.key); }
  }

  /** Where the commands of the answered requests lie, and what a reply without an error says of it. */
  ghost predicate Placed(s: State) {
    && |s.places| == |s.replies| <= |s.submitted|
    && forall j :: 0 <= j < |s.replies| ==>
      && s.places[j] <= |s.log|
      && (0 < s.places[j] ==> s.log[s.places[j] - 1].entry == s.submitted[j])
      && (!s.replies[j].result.failed ==>
            0 < s.places[j] &&
            s.replies[j].result.version == if CarriedOut(s.log, s.places[j]) then s.places[j] else 0)
  }

  /** Versions grow in channel order. */
  ghost predicate Growing(s: State) {
    forall i, j :: 0 <= i < j < |s.replies| && Versioned(s.replies[i].result) && Versioned(s.replies[j].result) ==>
      s.replies[i].result.version < s.replies[j].result.version
  }

  ghost predicate Inv(s: State) {
    InOrder(s) && Ascending(s) && Versions(s) && Growing(s) && Placed(s)
  }

  ghost function Popped(s: State, o: Outcome): State
    requires s.pending != []
  {
    ProposeOne(s, s.pending[0], o).(pending := s.pending[1..])
  }

  lemma PopInOrder(s: State, o: Outcome)
    requires InOrder(s) && s.pending != [] && !s.stopped
    ensures InOrder(Popped(s, o))
  {
  }

  lemma PopAscending(s: State, o: Outcome)
    requires InOrder(s) && Ascending(s) && s.pending != []
    ensures Ascending(Popped(s, o))
  {
  }

  /** One more reply behind the old ones; its version, if any, is the new end of the log. */
  lemma PopShape(s: State, o: Outcome)
    requires InOrder(s) && s.pending != []
    ensures var t := Popped(s, o);
      && s.log <= t.log && t.submitted == s.submitted
      && |t.replies| == |s.replies| + 1 && s.replies <= t.replies
      && (var r := t.replies[|s.replies|].result; Versioned(r) ==>
            |s.log| < r.version == |t.log| && t.log[|t.log| - 1].entry == s.submitted[|s.replies|])
  {
  }

  lemma PopVersions(s: State, o: Outcome)
    requires InOrder(s) && Versions(s) && s.pending != []
    ensures Versions(Popped(s, o))
  {
    PopShape(s, o);
  }

  lemma PopGrowing(s: State, o: Outcome)
    requires InOrder(s) && Versions(s) && Growing(s) && s.pending != []
    ensures Growing(Popped(s, o))
  {
    PopShape(s, o);
  }

  lemma PopPlaced(s: State, o: Outcome)
    requires InOrder(s) && Placed(s) && s.pending != []
    ensures Placed(Popped(s, o))
  {
    var t := Popped(s, o);
    assert s.log <= t.log && s.replies <= t.replies && s.places <= t.places;
    WriteGetsVersion(s.pending[0].cmd, |t.log|, o.Responded? && o.logged);
    forall j | 0 <= j < |s.replies| ensures CarriedOut(t.log, s.places[j]) == CarriedOut(s.log, s.places[j]) {
      if 0 < s.places[j] { assert t.log[s.places[j] - 1] == s.log[s.places[j] - 1]; }
    }
  }

  lemma {:induction false} FlushKeepsInv(s: State, outcomes: seq<Outcome>)
    requires Inv(s) && |outcomes| == |s.pending| && !s.stopped
    ensures var t := FlushWith(s, outcomes);
      && Inv(t) && t.pending == [] && t.channel == s.channel && t.submitted == s.submitted && !t.stopped
      && |t.replies| == |s.replies| + |s.pending| && s.replies <= t.replies
    decreases |s.pending|
  {
    if s.pending != [] {
      PopInOrder(s, outcomes[0]);
      PopAscending(s, outcomes[0]);
      PopVersions(s, outcomes[0]);
      PopGrowing(s, outcomes[0]);
      PopPlaced(s, outcomes[0]);
      var t := Popped(s, outcomes[0]);
      FlushKeepsInv(t, outcomes[1..]);
    }
  }

  lemma StepKeepsInv(s: State, step: Step)
    requires Inv(s) && |s.pending| < BATCH_MAX_SIZE && Possible(s, step)
    ensures Inv(Next(s, step)) && |Next(s, step).pending| < BATCH_MAX_SIZE
  {
    match step {
      case Submit(cmd) => SubmitKeepsInv(s, cmd);
      case Receive(outcomes) =>
        var t := s.(channel := s.channel[1..], pending := s.pending + [s.channel[0]]);
        ReceiveKeepsInv(s, t);
        if |t.pending| >= BATCH_MAX_SIZE { FlushKeepsInv(t, outcomes); }
      case Tick(outcomes) => FlushKeepsInv(s, outcomes);
      case Stop(outcomes) =>
        FlushKeepsInv(s, outcomes);
        StopKeepsInv(FlushWith(s, outcomes));
    }
  }

  lemma StopKeepsInv(s: State)
    requires Inv(s) && s.pending == []
    ensures Inv(s.(stopped := true))
  {
  }

  lemma SubmitKeepsInv(s: State, cmd: LogEntry)
    requires Inv(s)
    ensures Inv(Next(s, Submit(cmd)))
  {
    var t := Next(s, Submit(cmd));
    assert t.log == s.log && t.replies == s.replies && t.places == s.places && s.submitted <= t.submitted;
  }

  lemma ReceiveKeepsInv(s: State, t: State)
    requires Inv(s) && s.channel != [] && !s.stopped
    requires t == s.(channel := s.channel[1..], pending := s.pending + [s.channel[0]])
    ensures Inv(t)
  {
  }

  lemma {:induction false} RunInvariant(steps: seq<Step>)
    requires Exec(steps).Some?
    ensures Inv(Exec(steps).value) && |Exec(steps).value.pending| < BATCH_MAX_SIZE
  {
    if steps != [] {
      RunInvariant(steps[..|steps| - 1]);
      StepKeepsInv(Exec(steps[..|steps| - 1]).value, steps[|steps| - 1]);
    }
  }

  /**
   * In every run: requests are answered in channel order and none twice, commands reach Raft in that
   * order, a returned version is the log index of the request's own command, versions grow in that
   * order, fewer than 256 requests wait between steps, and once the loop has returned every request
   * taken from the channel has been answered.
   */
  lemma BatchSafe(steps: seq<Step>)
    requires Exec(steps).Some?
    ensures var s := Exec(steps).value;
      && InOrder(s) && Ascending(s) && Versions(s) && Growing(s) && |s.pending| < BATCH_MAX_SIZE
      && (s.stopped ==> |s.replies| + |s.channel| == |s.submitted|)
  {
    RunInvariant(steps);
  }

  /** A request taken joins the pending ones; the 256th flushes them all, and no other does. */
  lemma FullBatchExact(steps: seq<Step>, outcomes: seq<Outcome>)
    requires Exec(steps).Some? && Possible(Exec(steps).value, Receive(outcomes))
    ensures var s := Exec(steps).value;
      var t := Next(s, Receive(outcomes));
      && |s.pending| < 256
      && if |s.pending| == 255 then t.pending == [] && |t.replies| == |s.replies| + 256
         else t == s.(channel := s.channel[1..], pending := s.pending + [s.channel[0]])
  {
    RunInvariant(steps);
    var s := Exec(steps).value;
    var t := s.(channel := s.channel[1..], pending := s.pending + [s.channel[0]]);
    ReceiveKeepsInv(s, t);
    FlushKeepsInv(t, outcomes);
  }

  /**
   * The reply to the i-th pending request is an error exactly when no response came back for it. Its
   * command is in the log then only if the error came after the commit.
   */
  lemma {:induction false} FlushReplies(s: State, outcomes: seq<Outcome>, i: nat)
    requires |outcomes| == |s.pending| && i < |s.pending| && |s.places| == |s.replies|
    ensures var t, j := FlushWith(s, outcomes), |s.replies| + i;
      && |t.places| == |t.replies| == |s.replies| + |s.pending|
      && s.replies <= t.replies && s.places <= t.places
      && t.replies[j].id == s.pending[i].id && (t.replies[j].result.failed <==> !outcomes[i].Responded?)
      && (t.places[j] == 0 <==> outcomes[i].EncodeFails? || outcomes[i].NotCommitted?)
    decreases |s.pending|
  {
    var t := Popped(s, outcomes[0]);
    if |s.pending| == 1 {
      assert FlushWith(t, outcomes[1..]) == t;
    } else {
      FlushReplies(t, outcomes[1..], if i == 0 then 0 else i - 1);
    }
  }

  ghost predicate HasReply(s: State, id: nat) {
    exists j :: 0 <= j < |s.replies| && s.replies[j].id == id
  }

  /** Once the loop has stopped, every submitted request has its reply exactly when none is in the channel. */
  lemma StoppedRepliesExact(steps: seq<Step>)
    requires Exec(steps).Some? && Exec(steps).value.stopped
    ensures var s := Exec(steps).value;
      (forall id :: 0 <= id < |s.submitted| ==> HasReply(s, id)) <==> s.channel == []
  {
    RunInvariant(steps);
    var s := Exec(steps).value;
    forall id | 0 <= id < |s.replies| ensures HasReply(s, id) {
      assert s.replies[id].id == id;
    }
    assert !HasReply(s, |s.replies|);
  }

  /** What is in the channel of a stopped loop stays there, however the run goes on. */
  lemma {:induction false} StoppedNeverReplies(steps: seq<Step>, more: seq<Step>)
    requires Exec(steps).Some? && Exec(steps + more).Some? && Exec(steps).value.stopped
    ensures var s, t := Exec(steps).value, Exec(steps + more).value;
      t.stopped && t.replies == s.replies && s.channel <= t.channel
    decreases |more|
  {
    if more == [] {
      assert steps + more == steps;
    } else {
      var n := |more| - 1;
      assert (steps + more)[..|steps + more| - 1] == steps + more[..n];
      StoppedNeverReplies(steps, more[..n]);
    }
  }

  /** A command submitted and not yet taken when the loop stops is left in the channel. */
  lemma StopStrandsRequest(cmd: LogEntry)
    ensures var s := Exec([Submit(cmd), Stop([])]);
      s.Some? && s.value.stopped && s.value.channel == [Req(0, cmd)] && s.value.replies == []
  {
    var steps := [Submit(cmd), Stop([])];
    assert steps[..1] == [Submit(cmd)] && steps[..1][..0] == [];
    assert Exec([]) == Some(INIT);
    assert Exec([Submit(cmd)]).Some?;
  }

  /**
   * A reply without an error is honest, in that the state machine carried out the write, exactly when
   * it carries a version.
   */
  lemma HonestExact(steps: seq<Step>, j: nat)
    requires Exec(steps).Some? && j < |Exec(steps).value.replies| && !Exec(steps).value.replies[j].result.failed
    ensures var s := Exec(steps).value;
      && |s.places| == |s.replies| <= |s.submitted|
      && 0 < s.places[j] <= |s.log| && s.log[s.places[j] - 1].entry == s.submitted[j]
      && (CarriedOut(s.log, s.places[j]) <==> s.replies[j].result.version != 0)
  {
    RunInvariant(steps);
  }

  function Entries(log: seq<Committed>): (r: seq<LogEntry>)
    ensures |r| == |log| && forall i :: 0 <= i < |r| ==> r[i] == log[i].entry
  {
    seq(|log|, i requires 0 <= i < |log| => log[i].entry)
  }

  /**
   * A put whose append the leader's engine refuses: the client is told of no error, with version 0,
   * and the leader, having consumed the entry, no longer shows what the log says.
   */
  lemma RefusedPutReportedAsSuccess(s: State, req: Req, node: Node)
    requires req.cmd.PutCmd? && |s.log| + 1 < TWO_63
    requires GoodNode(node, Entries(s.log)) && node.applied == |s.log|
    ensures var t := ProposeOne(s, req, Responded([], false));
      && t.replies == s.replies + [Reply(req.id, Result(0, false))]
      && t.log == s.log + [Committed(req.cmd, false)]
      && !ShowsPrefix(Node(node.engine, node.applied + 1), Entries(t.log))
      && node.engine.Tabled() && node.engine.View(req.cmd.key) != Some(Live(req.cmd.value, |t.log|))
  {
    var t, before := ProposeOne(s, req, Responded([], false)), Entries(s.log);
    assert s.log + [] == s.log;
    assert Entries(t.log) == before + [req.cmd];
    CommitKeepsNode(node, before, req.cmd);
    FailedApplyExact(node, before + [req.cmd]);
    FoldIsLastWrite(before[..node.applied], req.cmd.key);
  }

  /** It happens at once: one submission to a fresh writer, one request taken, one tick. */
  lemma RefusedPutRun(key: Key, value: Value)
    ensures var steps := [Submit(PutCmd(key, value)), Receive([EncodeFails]), Tick([Responded([], false)])];
      && Exec(steps).Some? && Exec(steps).value.replies == [Reply(0, Result(0, false))]
      && Exec(steps).value.log == [Committed(PutCmd(key, value), false)]
  {
    var cmd := PutCmd(key, value);
    var a, b := [Submit(cmd)], [Submit(cmd), Receive([EncodeFails])];
    var steps := [Submit(cmd), Receive([EncodeFails]), Tick([Responded([], false)])];
    assert steps[..2] == b && b[..1] == a && a[..0] == [];
    assert Exec([]) == Some(INIT);
    var s1 := INIT.(submitted := [cmd], channel := [Req(0, cmd)]);
    assert [] + [cmd] == [cmd] && [] + [Req(0, cmd)] == [Req(0, cmd)];
    assert Next(INIT, Submit(cmd)) == s1;
    assert Exec(a) == Some(s1);
    var s2 := s1.(channel := [], pending := [Req(0, cmd)]);
    assert s1.channel[1..] == [] && s1.pending + [s1.channel[0]] == s2.pending;
    assert Next(s1, Receive([EncodeFails])) == s2;
    assert Exec(b) == Some(s2);
    var s3 := ProposeOne(s2, Req(0, cmd), Responded([], false)).(pending := []);
    assert s2.pending[1..] == [] && [Responded([], false)][1..] == [];
    assert FlushWith(s3, []) == s3;
  }

  // ---- The loop as the program runs it ----

  class Writer {
    var channel: seq<Req>
    var pending: seq<Req>
    var log: seq<Committed>
    var proposed: seq<nat>
    var replies: seq<Reply>
    var places: seq<nat>          // kept for the specification
    var stopped: bool
    var submitted: seq<LogEntry>  // every command ever submitted, kept for the specification

    ghost function St(): State
      reads this
    {
      State(submitted, channel, pending, log, proposed, replies, places, stopped)
    }

    constructor ()
      ensures St() == INIT
    {
      channel, pending, log, proposed := [], [], [], [];
      replies, places, stopped, submitted := [], [], false, [];
    }

    /** Answers every pending request in order. */
    method Flush(outcomes: seq<Outcome>)
      requires |outcomes| == |pending|
      modifies this`pending, this`log, this`proposed, this`replies, this`places
      ensures St() == FlushWith(old(St()), outcomes)
    {
      var batch := pending;
      for i := 0 to |batch|
        invariant pending == batch[i..] && channel == old(channel) && stopped == old(stopped)
        invariant |outcomes[i..]| == |pending| && FlushWith(St(), outcomes[i..]) == FlushWith(old(St()), outcomes)
      {
        Propose(pending[0], outcomes[i]);
        assert outcomes[i..][1..] == outcomes[i + 1..] && pending[1..] == batch[i + 1..];
        pending := pending[1..];
      }
    }

    method Propose(req: Req, o: Outcome)
      modifies this`log, this`proposed, this`replies, this`places
      ensures St() == ProposeOne(old(St()), req, o)
    {
      var result, place := Result(0, true), 0;
      if !o.EncodeFails? {
        proposed := proposed + [req.id];
        log := log + o.gap;
        if !o.NotCommitted? {
          log := log + [Committed(req.cmd, o.logged)];
          place := |log|;
          if o.Responded? {
            var response := ResponseTo(req.cmd, place, o.logged);
            if response.ApplyResult? {
              result := Result(response.version, false);
            } else {
              result := Result(0, false);
            }
          }
        }
      }
      replies, places := replies + [Reply(req.id, result)], places + [place];
    }

    /** Takes one request from the channel; a full batch is flushed at once. */
    method ReceiveOne(outcomes: seq<Outcome>)
      requires !stopped && channel != [] && |outcomes| == |pending| + 1
      modifies this
      ensures St() == Next(old(St()), Receive(outcomes))
    {
      pending := pending + [channel[0]];
      channel := channel[1..];
      if |pending| >= BATCH_MAX_SIZE {
        Flush(outcomes);
      }
    }

    method SubmitOne(cmd: LogEntry)
      modifies this`channel, this`submitted
      ensures St() == Next(old(St()), Submit(cmd))
    {
      channel := channel + [Req(|submitted|, cmd)];
      submitted := submitted + [cmd];
    }

    method Shutdown(outcomes: seq<Outcome>)
      requires !stopped && |outcomes| == |pending|
      modifies this
      ensures St() == Next(old(St()), Stop(outcomes))
    {
      Flush(outcomes);
      stopped := true;
    }
  }
}
