/**
 * The group-commit protocol of the write-ahead log: callers queue records, one loop drains the
 * queue in batches, writes every record of a batch, syncs once, and answers every caller.
 */
module GroupCommit {
  import opened Core
  import opened WalFormat

  /** Requests are numbered in the order in which they enter the pending queue. */
  datatype Req = Req(id: nat, data: Bytes)

  datatype Answer = Answer(id: nat, ok: bool)

  /** Where the commit loop stands. */
  datatype Loop =
    | Waiting
    | Writing(i: nat, failed: bool)   // i records of the batch handled so far
    | Answering(i: nat, ok: bool)     // i callers answered so far
    | Stopped

  /**
   * `stream` is what was handed to the buffered writer, `flushed` how many bytes of its encoding
   * reached the file and `synced` how many of those an fsync covers. The writer is `broken` after
   * its first error and accepts nothing more. `base` is the intact log found at open.
   */
  datatype State = State(
    base: seq<Bytes>,
    queued: seq<Bytes>,   // every payload ever queued, by request number
    pending: seq<Req>,
    batch: seq<Req>,
    loop: Loop,
    stream: seq<Bytes>,
    broken: bool,
    flushed: nat,
    synced: nat,
    answers: seq<Answer>,
    closed: bool)
  {
    function Log(): seq<Bytes> { base + stream }

    function Image(crc: Checksum): Bytes { EncodeLog(crc, Log()) }
  }

  function Size(records: seq<Bytes>): nat {
    if records == [] then 0 else HEADER_SIZE + |records[0]| + Size(records[1..])
  }

  function Init(base: seq<Bytes>): State {
    State(base, [], [], [], Waiting, [], false, Size(base), Size(base), [], false)
  }

  datatype Step =
    | Append(data: Bytes)
    | Take                        // drain the pending queue
    | WriteRecord                 // the next record goes into the buffer
    | WriteFails(flushedTo: nat)  // the writer breaks while taking the next record
    | SkipRecord                  // after an error the rest of the batch is not written
    | Spill(flushedTo: nat)       // the buffer overflows into the file
    | SyncBatch                   // flush and fsync succeed
    | FlushFails(flushedTo: nat)
    | SyncFails
    | GiveUp                      // a write failed: nothing is flushed
    | AnswerNext
    | Close
    | Stop                        // the loop notices that the log is closed
    | FinalSync                   // flush and fsync after the loop has stopped

  /** The stream after a failed write: a working writer may have taken part of the record. */
  function Attempted(s: State): seq<Bytes>
    requires s.loop.Writing? && s.loop.i < |s.batch|
  {
    if s.broken then s.stream else s.stream + [s.batch[s.loop.i].data]
  }

  ghost predicate Possible(s: State, step: Step) {
    match step
    case Append(data) => !s.closed && |data| < TWO_32
    case Take => s.loop.Waiting? && !s.closed
    case WriteRecord => s.loop.Writing? && !s.loop.failed && s.loop.i < |s.batch| && !s.broken
    case WriteFails(to) => s.loop.Writing? && !s.loop.failed && s.loop.i < |s.batch| &&
                           s.flushed <= to <= Size(s.base + Attempted(s)) && (s.broken ==> to == s.flushed)
    case SkipRecord => s.loop.Writing? && s.loop.failed && s.loop.i < |s.batch|
    case Spill(to) => !s.broken && s.flushed <= to <= Size(s.Log())
    case SyncBatch => s.loop.Writing? && !s.loop.failed && s.loop.i == |s.batch| && !s.broken
    case FlushFails(to) => s.loop.Writing? && !s.loop.failed && s.loop.i == |s.batch| &&
                           s.flushed <= to <= Size(s.Log()) && (s.broken ==> to == s.flushed)
    case SyncFails => s.loop.Writing? && !s.loop.failed && s.loop.i == |s.batch| && !s.broken
    case GiveUp => s.loop.Writing? && s.loop.failed && s.loop.i == |s.batch|
    case AnswerNext => s.loop.Answering? && s.loop.i < |s.batch|
    case Close => !s.closed
    case Stop => s.loop.Waiting? && s.closed
    case FinalSync => s.loop.Stopped? && !s.broken
  }

  ghost function Next(s: State, step: Step): State
    requires Possible(s, step)
  {
    match step
    case Append(data) =>
      s.(queued := s.queued + [data], pending := s.pending + [Req(|s.queued|, data)])
    case Take =>
      if s.pending == [] then s
      else s.(batch := s.pending, pending := [], loop := Writing(0, false))
    case WriteRecord =>
      s.(stream := s.stream + [s.batch[s.loop.i].data], loop := Writing(s.loop.i + 1, false))
    case WriteFails(to) =>
      s.(stream := Attempted(s), flushed := to, broken := true, loop := Writing(s.loop.i + 1, true))
    case SkipRecord => s.(loop := Writing(s.loop.i + 1, true))
    case Spill(to) => s.(flushed := to)
    case SyncBatch =>
      s.(flushed := Size(s.Log()), synced := Size(s.Log()), loop := Answering(0, true))
    case FlushFails(to) => s.(flushed := to, broken := true, loop := Answering(0, false))
    case SyncFails => s.(flushed := Size(s.Log()), loop := Answering(0, false))
    case GiveUp => s.(loop := Answering(0, false))
    case AnswerNext =>
      var t := s.(answers := s.answers + [Answer(s.batch[s.loop.i].id, s.loop.ok)]);
      if s.loop.i + 1 == |s.batch| then t.(batch := [], loop := Waiting)
      else t.(loop := Answering(s.loop.i + 1, s.loop.ok))
    case Close => s.(closed := true)
    case Stop => s.(loop := Stopped)
    case FinalSync => s.(flushed := Size(s.Log()), synced := Size(s.Log()))
  }

  ghost function Exec(base: seq<Bytes>, steps: seq<Step>): Option<State> {
    if steps == [] then Some(Init(base))
    else
      var s, step := Exec(base, steps[..|steps| - 1]), steps[|steps| - 1];
      if s.Some? && Possible(s.value, step) then Some(Next(s.value, step)) else None
  }

  // ---- What every step keeps ----

  /** Requests numbered from n on, carrying the payloads queued under those numbers. */
  ghost predicate Numbered(reqs: seq<Req>, n: nat, queued: seq<Bytes>) {
    && n + |reqs| <= |queued|
    && forall i :: 0 <= i < |reqs| ==> reqs[i] == Req(n + i, queued[n + i])
  }

  /** How many requests of the current batch have been answered. */
  function Answered(s: State): nat {
    if s.loop.Answering? then s.loop.i else 0
  }

  /** How many requests of the current batch have been handed to a working writer. */
  function Handled(s: State): nat {
    if s.loop.Writing? then s.loop.i else if s.loop.Answering? then |s.batch| else 0
  }

  ghost predicate Queues(s: State) {
    && Answered(s) <= |s.answers|
    && (s.loop.Writing? || s.loop.Answering? ==> s.batch != [])
    && (s.loop.Waiting? || s.loop.Stopped? ==> s.batch == [])
    && (s.loop.Writing? ==> s.loop.i <= |s.batch|)
    && (s.loop.Answering? ==> s.loop.i < |s.batch|)
    && (var first := |s.answers| - Answered(s);
        && Numbered(s.batch, first, s.queued)
        && Numbered(s.pending, first + |s.batch|, s.queued)
        && first + |s.batch| + |s.pending| == |s.queued|)
  }

  /** How much of the queue has been handed to the writer. */
  ghost predicate Counted(s: State) {
    && (!s.broken ==> |s.stream| == |s.answers| - Answered(s) + Handled(s))
    && |s.stream| <= |s.answers| - Answered(s) + |s.batch|
    && (s.loop.Writing? && s.loop.failed ==> s.broken)
  }

  /** What has been handed to the writer is a prefix of the queue; the file holds part of it. */
  ghost predicate Streams(s: State) {
    && Counted(s)
    && s.stream <= s.queued
    && Size(s.base) <= s.synced <= s.flushed <= Size(s.Log())
    && Fits(s.base) && Fits(s.queued)
  }

  /** A positive answer is only given for a record that an fsync covers. */
  ghost predicate Durable(s: State, id: nat) {
    id < |s.stream| && Size(s.base + s.stream[..id + 1]) <= s.synced
  }

  ghost predicate Answers(s: State) {
    && (forall j :: 0 <= j < |s.answers| ==> s.answers[j].id == j)
    && (forall j :: 0 <= j < |s.answers| && s.answers[j].ok ==> Durable(s, j))
    && (s.loop.Answering? && s.loop.ok ==>
          forall i :: 0 <= i < |s.batch| ==> Durable(s, s.batch[i].id))
  }

  ghost predicate Inv(s: State) {
    Queues(s) && Streams(s) && Answers(s)
  }

  lemma {:induction false} SizeAppend(a: seq<Bytes>, b: seq<Bytes>)
    ensures Size(a + b) == Size(a) + Size(b)
  {
    if a == [] {
      assert a + b == b;
    } else {
      assert (a + b)[1..] == a[1..] + b;
      SizeAppend(a[1..], b);
    }
  }

  lemma {:induction false} SizeIsLength(crc: Checksum, records: seq<Bytes>)
    ensures |EncodeLog(crc, records)| == Size(records)
  {
    if records != [] { SizeIsLength(crc, records[1..]); }
  }

  /** Handing one more record to the writer changes nothing that is already durable. */
  lemma StreamGrows(s: State, t: State, data: Bytes)
    requires t.base == s.base && t.stream == s.stream + [data]
    ensures Size(t.Log()) >= Size(s.Log())
    ensures forall id :: Durable(s, id) && t.synced >= s.synced ==> Durable(t, id)
  {
    assert t.Log() == s.Log() + [data];
    SizeAppend(s.Log(), [data]);
    forall id | Durable(s, id) && t.synced >= s.synced ensures Durable(t, id) {
      assert t.stream[..id + 1] == s.stream[..id + 1];
    }
  }

  /** When everything written is synced, every record written is durable. */
  lemma AllDurable(s: State, id: nat)
    requires id < |s.stream| && s.synced == Size(s.Log())
    ensures Durable(s, id)
  {
    assert s.Log() == (s.base + s.stream[..id + 1]) + s.stream[id + 1..];
    SizeAppend(s.base + s.stream[..id + 1], s.stream[id + 1..]);
  }

  lemma AppendQueues(s: State, data: Bytes)
    requires Queues(s) && Possible(s, Append(data))
    ensures Queues(Next(s, Append(data)))
  {
  }

  lemma TakeQueues(s: State)
    requires Queues(s) && Possible(s, Take)
    ensures Queues(Next(s, Take))
  {
  }

  lemma AnswerQueues(s: State)
    requires Queues(s) && Possible(s, AnswerNext)
    ensures Queues(Next(s, AnswerNext))
  {
  }

  /** The other steps leave the queues alone. */
  predicate Quiet(step: Step) {
    !step.Append? && !step.Take? && !step.AnswerNext?
  }

  lemma QuietQueues(s: State, step: Step)
    requires Queues(s) && Possible(s, step) && Quiet(step)
    ensures Queues(Next(s, step))
    ensures var t := Next(s, step);
      t.queued == s.queued && t.pending == s.pending && t.batch == s.batch && t.answers == s.answers
  {
    var t := Next(s, step);
    assert Answered(t) == Answered(s) == 0 || t.loop == s.loop;
  }

  lemma StepQueues(s: State, step: Step)
    requires Queues(s) && Possible(s, step)
    ensures Queues(Next(s, step))
  {
    match step {
      case Append(data) => AppendQueues(s, data);
      case Take => TakeQueues(s);
      case AnswerNext => AnswerQueues(s);
      case _ => QuietQueues(s, step);
    }
  }

  /** A record enters the stream behind everything queued before it. */
  lemma WriteStreams(s: State, t: State)
    requires Queues(s) && Streams(s) && s.loop.Writing? && s.loop.i < |s.batch| && !s.broken
    requires !s.loop.failed && t.stream == s.stream + [s.batch[s.loop.i].data]
    requires t.base == s.base
    ensures t.stream <= s.queued && Size(s.Log()) <= Size(t.Log())
  {
    StreamGrows(s, t, s.batch[s.loop.i].data);
    assert t.stream[|s.stream|] == s.queued[|s.stream|];
  }

  lemma WriteRecordStreams(s: State, step: Step)
    requires Queues(s) && Streams(s) && Possible(s, step) && (step.WriteRecord? || step.WriteFails?)
    ensures Streams(Next(s, step))
  {
    if !s.broken { WriteStreams(s, Next(s, step)); }
  }

  lemma StepStreams(s: State, step: Step)
    requires Queues(s) && Streams(s) && Possible(s, step)
    ensures Streams(Next(s, step))
  {
    if step.WriteRecord? || step.WriteFails? {
      WriteRecordStreams(s, step);
    } else {
      OtherStreams(s, step);
    }
  }

  lemma OtherStreams(s: State, step: Step)
    requires Queues(s) && Streams(s) && Possible(s, step) && !step.WriteRecord? && !step.WriteFails?
    ensures Streams(Next(s, step))
  {
    OtherCounted(s, step);
    var t := Next(s, step);
    assert t.Log() == s.Log() && s.queued <= t.queued;
  }

  lemma OtherCounted(s: State, step: Step)
    requires Queues(s) && Counted(s) && Possible(s, step) && !step.WriteRecord? && !step.WriteFails?
    ensures Counted(Next(s, step))
  {
  }

  /** What is durable stays durable. */
  lemma DurableStays(s: State, step: Step, id: nat)
    requires Streams(s) && Possible(s, step) && Durable(s, id)
    ensures Durable(Next(s, step), id)
  {
    var t := Next(s, step);
    if t.stream != s.stream {
      StreamGrows(s, t, s.batch[s.loop.i].data);
    }
  }

  lemma StepAnswers(s: State, step: Step)
    requires Inv(s) && Possible(s, step)
    ensures Answers(Next(s, step))
  {
    var t := Next(s, step);
    forall id | Durable(s, id) ensures Durable(t, id) { DurableStays(s, step, id); }
    match step {
      case SyncBatch =>
        forall i | 0 <= i < |t.batch| ensures Durable(t, t.batch[i].id) {
          AllDurable(t, t.batch[i].id);
        }
      case AnswerNext =>
        assert s.batch[s.loop.i].id == |s.answers|;
      case _ =>
    }
  }

  lemma {:induction false} RunInvariant(base: seq<Bytes>, steps: seq<Step>)
    requires Fits(base) && Exec(base, steps).Some?
    ensures Inv(Exec(base, steps).value) && Exec(base, steps).value.base == base
  {
    if steps == [] {
      assert Init(base).Log() == base;
    } else {
      var s, step := Exec(base, steps[..|steps| - 1]).value, steps[|steps| - 1];
      RunInvariant(base, steps[..|steps| - 1]);
      StepQueues(s, step);
      StepStreams(s, step);
      StepAnswers(s, step);
    }
  }

  /**
   * In every interleaving of callers with the commit loop: requests are answered in queue order and
   * none twice, a positive answer means the record is synced, and what is written is a prefix of the
   * queue.
   */
  lemma GroupCommitSafe(base: seq<Bytes>, steps: seq<Step>)
    requires Fits(base) && Exec(base, steps).Some?
    ensures var s := Exec(base, steps).value;
      && s.stream <= s.queued
      && |s.answers| <= |s.queued|
      && (forall j :: 0 <= j < |s.answers| ==> s.answers[j].id == j)
      && (forall j :: 0 <= j < |s.answers| && s.answers[j].ok ==> Durable(s, j))
  {
    RunInvariant(base, steps);
  }

  /**
   * Crash safety: at any moment of any run, whatever part of the file beyond the synced length
   * survives, replay returns the log found at open followed by a prefix of the queue, without a
   * checksum error, and every record that was answered positively is among them.
   */
  lemma CrashKeepsAcknowledged(crc: Checksum, base: seq<Bytes>, steps: seq<Step>, cut: nat)
    requires Fits(base) && Exec(base, steps).Some?
    requires var s := Exec(base, steps).value; s.synced <= cut <= s.flushed
    ensures var s := Exec(base, steps).value;
      && cut <= |s.Image(crc)|
      && var n := Whole(s.Log(), cut);
         && |base| <= n <= |base| + |s.queued|
         && DecodeLog(crc, s.Image(crc)[..cut]) == Replayed(base + s.queued[..n - |base|], false)
         && forall j :: 0 <= j < |s.answers| && s.answers[j].ok ==> j < n - |base|
  {
    RunInvariant(base, steps);
    CrashState(crc, Exec(base, steps).value, cut);
  }

  lemma CrashState(crc: Checksum, s: State, cut: nat)
    requires Inv(s) && s.synced <= cut <= s.flushed
    ensures cut <= |s.Image(crc)|
    ensures var n := Whole(s.Log(), cut);
      && |s.base| <= n <= |s.base| + |s.queued|
      && DecodeLog(crc, s.Image(crc)[..cut]) == Replayed(s.base + s.queued[..n - |s.base|], false)
      && forall j :: 0 <= j < |s.answers| && s.answers[j].ok ==> j < n - |s.base|
  {
    CrashReplay(crc, s, cut);
    forall j | 0 <= j < |s.answers| && s.answers[j].ok ensures j < Whole(s.Log(), cut) - |s.base| {
      DurableSurvives(s, cut, j);
    }
  }

  lemma CrashReplay(crc: Checksum, s: State, cut: nat)
    requires Streams(s) && s.synced <= cut <= s.flushed
    ensures cut <= |s.Image(crc)|
    ensures var n := Whole(s.Log(), cut);
      && |s.base| <= n <= |s.base| + |s.queued|
      && DecodeLog(crc, s.Image(crc)[..cut]) == Replayed(s.base + s.queued[..n - |s.base|], false)
  {
    SizeIsLength(crc, s.Log());
    LogFits(s);
    TruncatedReplay(crc, s.Log(), cut);
    assert s.Log()[..|s.base|] == s.base;
    WholeCovers(s.Log(), cut, |s.base|);
    LogPrefix(s, Whole(s.Log(), cut));
  }

  lemma LogFits(s: State)
    requires Fits(s.base) && Fits(s.queued) && s.stream <= s.queued
    ensures Fits(s.Log())
  {
    forall i | 0 <= i < |s.stream| ensures |s.stream[i]| < TWO_32 { assert s.stream[i] == s.queued[i]; }
  }

  lemma LogPrefix(s: State, n: nat)
    requires s.stream <= s.queued && |s.base| <= n <= |s.Log()|
    ensures s.Log()[..n] == s.base + s.queued[..n - |s.base|]
  {
    assert s.stream[..n - |s.base|] == s.queued[..n - |s.base|];
  }

  lemma DurableSurvives(s: State, cut: nat, id: nat)
    requires Durable(s, id) && s.synced <= cut
    ensures |s.base| + id < Whole(s.Log(), cut)
  {
    assert s.Log()[..|s.base| + id + 1] == s.base + s.stream[..id + 1];
    WholeCovers(s.Log(), cut, |s.base| + id + 1);
  }

  /** A prefix that fits before the cut is among the whole records. */
  lemma {:induction false} WholeCovers(records: seq<Bytes>, cut: nat, m: nat)
    requires m <= |records| && Size(records[..m]) <= cut
    ensures m <= Whole(records, cut)
    decreases |records|
  {
    if m > 0 {
      assert records[..m][1..] == records[1..][..m - 1];
      WholeCovers(records[1..], cut - HEADER_SIZE - |records[0]|, m - 1);
    }
  }

  /** Requests still pending when the loop stops are never answered, however the run goes on. */
  lemma {:induction false} StoppedNeverAnswers(base: seq<Bytes>, steps: seq<Step>, more: seq<Step>)
    requires Exec(base, steps).Some? && Exec(base, steps + more).Some?
    requires Exec(base, steps).value.loop.Stopped?
    ensures var s, t := Exec(base, steps).value, Exec(base, steps + more).value;
      t.loop.Stopped? && t.answers == s.answers && s.pending <= t.pending
    decreases |more|
  {
    if more == [] {
      assert steps + more == steps;
    } else {
      var n := |more| - 1;
      assert (steps + more)[..|steps + more| - 1] == steps + more[..n];
      StoppedNeverAnswers(base, steps, more[..n]);
    }
  }

  ghost predicate HasAnswer(s: State, id: nat) {
    exists j :: 0 <= j < |s.answers| && s.answers[j].id == id
  }

  /** Once the loop has stopped, every request has its answer exactly when none is left in the queue. */
  lemma StoppedAnswersExact(base: seq<Bytes>, steps: seq<Step>)
    requires Fits(base) && Exec(base, steps).Some? && Exec(base, steps).value.loop.Stopped?
    ensures var s := Exec(base, steps).value;
      (forall id :: 0 <= id < |s.queued| ==> HasAnswer(s, id)) <==> s.pending == []
  {
    RunInvariant(base, steps);
    var s := Exec(base, steps).value;
    assert |s.answers| + |s.pending| == |s.queued|;
    forall id | 0 <= id < |s.answers| ensures HasAnswer(s, id) {
      assert s.answers[id].id == id;
    }
    assert !HasAnswer(s, |s.answers|);
  }

  /** After a close nothing enters the queue and nothing leaves it. */
  lemma {:induction false} ClosedQueueStays(base: seq<Bytes>, steps: seq<Step>, more: seq<Step>)
    requires Exec(base, steps).Some? && Exec(base, steps + more).Some? && Exec(base, steps).value.closed
    ensures var s, t := Exec(base, steps).value, Exec(base, steps + more).value;
      t.closed && t.pending == s.pending && t.queued == s.queued
    decreases |more|
  {
    if more == [] {
      assert steps + more == steps;
    } else {
      var n := |more| - 1;
      assert (steps + more)[..|steps + more| - 1] == steps + more[..n];
      ClosedQueueStays(base, steps, more[..n]);
      ClosedStep(Exec(base, steps + more[..n]).value, more[n]);
    }
  }

  lemma ClosedStep(s: State, step: Step)
    requires s.closed && Possible(s, step)
    ensures var t := Next(s, step); t.closed && t.pending == s.pending && t.queued == s.queued
  {
  }

  /**
   * The sync at the end of a close: after it no crash loses anything that was answered, and replay
   * returns the log found at open and every request answered since.
   */
  lemma CloseSyncsAll(crc: Checksum, base: seq<Bytes>, steps: seq<Step>)
    requires Fits(base) && Exec(base, steps + [FinalSync]).Some?
    ensures var s := Exec(base, steps + [FinalSync]).value;
      && s.synced == s.flushed == |s.Image(crc)| && |s.answers| <= |s.queued|
      && DecodeLog(crc, s.Image(crc)) == Replayed(base + s.queued[..|s.answers|], false)
  {
    var all := steps + [FinalSync];
    assert all[..|steps|] == steps;
    RunInvariant(base, all);
    var s := Exec(base, all).value;
    SizeIsLength(crc, s.Log());
    LogFits(s);
    DecodePrefix(crc, s.Log(), []);
    assert s.Image(crc) + [] == s.Image(crc) && DecodeLog(crc, []).records == [];
    assert s.Log() + [] == s.Log() && s.stream == s.queued[..|s.answers|];
  }

  predicate Fails(step: Step) {
    step.WriteFails? || step.FlushFails? || step.SyncFails?
  }

  /** Nothing has gone wrong so far. */
  ghost predicate Healthy(s: State) {
    && !s.broken && (s.loop.Writing? ==> !s.loop.failed) && (s.loop.Answering? ==> s.loop.ok)
    && forall j :: 0 <= j < |s.answers| ==> s.answers[j].ok
  }

  /** In a run in which no write, flush or sync fails every answer is positive. */
  lemma {:induction false} HealthyRun(base: seq<Bytes>, steps: seq<Step>)
    requires Exec(base, steps).Some? && forall i :: 0 <= i < |steps| ==> !Fails(steps[i])
    ensures Healthy(Exec(base, steps).value)
  {
    if steps != [] {
      var n := |steps| - 1;
      HealthyRun(base, steps[..n]);
      HealthyStep(Exec(base, steps[..n]).value, steps[n]);
    }
  }

  lemma HealthyStep(s: State, step: Step)
    requires Healthy(s) && Possible(s, step) && !Fails(step)
    ensures Healthy(Next(s, step))
  {
  }

  /** Once the loop has stopped, every request has its answer exactly when the queue was empty at the close. */
  lemma CloseAnswersExact(base: seq<Bytes>, steps: seq<Step>, more: seq<Step>)
    requires Fits(base) && Exec(base, steps).Some? && Exec(base, steps + [Close] + more).Some?
    requires Exec(base, steps + [Close] + more).value.loop.Stopped?
    ensures var s := Exec(base, steps + [Close] + more).value;
      (forall id :: 0 <= id < |s.queued| ==> HasAnswer(s, id)) <==> Exec(base, steps).value.pending == []
  {
    var all := steps + [Close];
    ExecPrefix(base, all, more);
    assert all[..|all| - 1] == steps;
    ClosedQueueStays(base, all, more);
    StoppedAnswersExact(base, all + more);
  }

  lemma {:induction false} ExecPrefix(base: seq<Bytes>, steps: seq<Step>, more: seq<Step>)
    requires Exec(base, steps + more).Some?
    ensures Exec(base, steps).Some?
    decreases |more|
  {
    if more == [] {
      assert steps + more == steps;
    } else {
      var n := |more| - 1;
      assert (steps + more)[..|steps + more| - 1] == steps + more[..n];
      ExecPrefix(base, steps, more[..n]);
    }
  }

  // ---- Appending to a closed log ----

  /** What an append comes to: it is queued, or it panics on the closed channel and takes the process down. */
  datatype Appended = Queued(state: State) | Panics

  function TryAppend(s: State, data: Bytes): Appended {
    if s.closed then Panics
    else Queued(s.(queued := s.queued + [data], pending := s.pending + [Req(|s.queued|, data)]))
  }

  /** In every run an append panics exactly when the log was closed before; otherwise it is the append step. */
  lemma AppendPanicsExact(base: seq<Bytes>, steps: seq<Step>, data: Bytes)
    requires Exec(base, steps).Some? && |data| < TWO_32
    ensures var s := Exec(base, steps).value;
      && (TryAppend(s, data).Panics? <==> Close in steps)
      && (Close !in steps ==> Possible(s, Append(data)) && TryAppend(s, data) == Queued(Next(s, Append(data))))
  {
    ClosedExact(base, steps);
  }

  lemma {:induction false} ClosedExact(base: seq<Bytes>, steps: seq<Step>)
    requires Exec(base, steps).Some?
    ensures Exec(base, steps).value.closed <==> Close in steps
  {
    if steps != [] {
      var n := |steps| - 1;
      ClosedExact(base, steps[..n]);
      assert steps == steps[..n] + [steps[n]];
    }
  }

  /** A record appended just before the log is closed: the loop stops with the request in its queue. */
  lemma CloseStrandsRequest(base: seq<Bytes>, data: Bytes)
    requires |data| < TWO_32
    ensures var s := Exec(base, [Append(data), Close, Stop]);
      s.Some? && s.value.loop.Stopped? && s.value.pending == [Req(0, data)] && s.value.answers == []
  {
    var steps := [Append(data), Close, Stop];
    assert steps[..2] == [Append(data), Close] && steps[..2][..1] == [Append(data)] && steps[..2][..1][..0] == [];
    assert Exec(base, []) == Some(Init(base));
    assert Exec(base, [Append(data)]).Some?;
    assert Exec(base, [Append(data), Close]).Some?;
  }

  lemma StepInv(s: State, step: Step)
    requires Inv(s) && Possible(s, step)
    ensures Inv(Next(s, step))
  {
    StepQueues(s, step);
    StepStreams(s, step);
    StepAnswers(s, step);
  }

  // ---- The log as the program runs it ----

  /** Every caller of the batch gets the same answer. */
  function Replies(batch: seq<Req>, ok: bool): (r: seq<Answer>)
    ensures |r| == |batch| && forall i :: 0 <= i < |r| ==> r[i] == Answer(batch[i].id, ok)
  {
    seq(|batch|, i requires 0 <= i < |batch| => Answer(batch[i].id, ok))
  }

  lemma RepliesGrow(before: seq<Answer>, batch: seq<Req>, i: nat, ok: bool)
    requires i < |batch|
    ensures before + Replies(batch[..i], ok) + [Answer(batch[i].id, ok)] ==
      before + Replies(batch[..i + 1], ok)
  {
    assert Replies(batch[..i + 1], ok) == Replies(batch[..i], ok) + [Answer(batch[i].id, ok)];
  }

  class Wal {
    var pending: seq<Req>
    var closed: bool
    var stream: seq<Bytes>      // records handed to the buffered writer
    var broken: bool            // the writer's sticky error
    var flushed: nat
    var synced: nat
    var answers: seq<Answer>    // what the result channels received, in order
    var queued: seq<Bytes>      // every payload ever queued, kept for the specification
    const base: seq<Bytes>      // the intact log found at open

    /** The protocol state, given where the commit loop stands. */
    ghost function At(batch: seq<Req>, loop: Loop): State
      reads this
    {
      State(base, queued, pending, batch, loop, stream, broken, flushed, synced, answers, closed)
    }

    constructor (base: seq<Bytes>)
      requires Fits(base)
      ensures At([], Waiting) == Init(base) && Inv(At([], Waiting))
    {
      this.base := base;
      pending, closed, stream, broken, answers, queued := [], false, [], false, [], [];
      flushed, synced := Size(base), Size(base);
      new;
      assert At([], Waiting).Log() == base;
    }

    /**
     * Queues one record and signals the loop; the caller then waits on its result channel. On a closed
     * log the signal panics.
     */
    method Enqueue(data: Bytes, ghost batch: seq<Req>, ghost loop: Loop) returns (panics: bool)
      requires Inv(At(batch, loop)) && |data| < TWO_32
      modifies this`pending, this`queued
      ensures panics <==> TryAppend(old(At(batch, loop)), data).Panics?
      ensures !panics ==> Inv(At(batch, loop)) && At(batch, loop) == Next(old(At(batch, loop)), Append(data))
    {
      if !closed { StepInv(At(batch, loop), Append(data)); }
      pending := pending + [Req(|queued|, data)];
      queued := queued + [data];
      panics := closed;
    }

    /** One round of the commit loop; `fits`, `flushes` and `syncs` say which of its writes work. */
    method CommitRound(fits: nat, flushes: bool, syncs: bool)
      requires Inv(At([], Waiting)) && !closed
      modifies this
      ensures Inv(At([], Waiting)) && pending == [] && queued == old(queued) && !closed
      ensures var ok := !old(broken) && |old(pending)| <= fits && flushes && syncs;
        && answers == old(answers) + Replies(old(pending), ok)
        && (ok && old(pending) != [] ==> synced == Size(base + stream) && |stream| == |queued|)
    {
      var batch := pending;
      if |batch| == 0 {
        return;
      }
      StepInv(At([], Waiting), Take);
      pending := [];
      var failed := WriteBatch(batch, fits);
      var ok := SyncWritten(batch, failed, flushes, syncs);
      AnswerBatch(batch, ok);
    }

    method WriteBatch(batch: seq<Req>, fits: nat) returns (failed: bool)
      requires Inv(At(batch, Writing(0, false)))
      modifies this`stream, this`broken
      ensures Inv(At(batch, Writing(|batch|, failed)))
      ensures failed == (old(broken) || fits < |batch|) && broken == failed
    {
      failed := false;
      for i := 0 to |batch|
        invariant Inv(At(batch, Writing(i, failed)))
        invariant failed == (0 < i && (old(broken) || fits < i))
        invariant broken == (old(broken) || failed)
      {
        if !failed {
          failed := WriteOne(batch, i, i < fits);
        } else {
          StepInv(At(batch, Writing(i, true)), SkipRecord);
        }
      }
    }

    method WriteOne(batch: seq<Req>, i: nat, fits: bool) returns (failed: bool)
      requires Inv(At(batch, Writing(i, false))) && i < |batch|
      modifies this`stream, this`broken
      ensures failed == (old(broken) || !fits) && broken == failed
      ensures Inv(At(batch, Writing(i + 1, failed)))
    {
      failed := broken || !fits;
      ghost var s := At(batch, Writing(i, false));
      ghost var step := if failed then WriteFails(flushed) else Step.WriteRecord;
      if !broken { WriteStreams(s, s.(stream := Attempted(s))); }
      ghost var t := Next(s, step);
      assert Inv(t) by { StepInv(s, step); }
      if !broken {
        stream := stream + [batch[i].data];
      }
      broken := failed;
      assert At(batch, Writing(i + 1, failed)) == t;
    }

    method SyncWritten(batch: seq<Req>, failed: bool, flushes: bool, syncs: bool) returns (ok: bool)
      requires Inv(At(batch, Writing(|batch|, failed))) && batch != [] && broken == failed
      modifies this`flushed, this`synced, this`broken
      ensures ok == (!failed && flushes && syncs)
      ensures Inv(At(batch, Answering(0, ok)))
      ensures ok ==> synced == Size(base + stream) && |stream| == |answers| + |batch|
    {
      ghost var s := At(batch, Writing(|batch|, failed));
      ok := !failed && flushes && syncs;
      if failed {
        StepInv(s, GiveUp);
      } else if !flushes {
        StepInv(s, FlushFails(flushed));
        broken := true;
      } else if !syncs {
        StepInv(s, SyncFails);
        flushed := WrittenSize();
      } else {
        StepInv(s, SyncBatch);
        flushed := WrittenSize();
        synced := flushed;
      }
    }

    function WrittenSize(): nat
      reads this
    {
      Size(base + stream)
    }

    method AnswerBatch(batch: seq<Req>, ok: bool)
      requires Inv(At(batch, Answering(0, ok)))
      modifies this`answers
      ensures answers == old(answers) + Replies(batch, ok)
      ensures Inv(At([], Waiting))
    {
      for i := 0 to |batch|
        invariant answers == old(answers) + Replies(batch[..i], ok)
        invariant i < |batch| ==> Inv(At(batch, Answering(i, ok)))
        invariant i == |batch| ==> Inv(At([], Waiting))
      {
        AnswerOne(batch, i, ok);
        RepliesGrow(old(answers), batch, i, ok);
      }
      assert batch[..|batch|] == batch;
    }

    method AnswerOne(batch: seq<Req>, i: nat, ok: bool)
      requires i < |batch| && Inv(At(batch, Answering(i, ok)))
      modifies this`answers
      ensures answers == old(answers) + [Answer(batch[i].id, ok)]
      ensures if i + 1 < |batch| then Inv(At(batch, Answering(i + 1, ok))) else Inv(At([], Waiting))
    {
      ghost var s := At(batch, Answering(i, ok));
      ghost var t := Next(s, AnswerNext);
      assert Inv(t) by { StepInv(s, AnswerNext); }
      answers := answers + [Answer(batch[i].id, ok)];
      if i + 1 < |batch| {
        assert At(batch, Answering(i + 1, ok)) == t;
      } else {
        assert At([], Waiting) == t;
      }
    }
  }
}
