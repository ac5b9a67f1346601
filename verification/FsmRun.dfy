/** The state machine's store and the watch hub as one system, over whole runs. */
module FsmRun {
  import opened Core
  import opened CompactionModel
  import opened EngineRun
  import opened Cluster
  import opened WatchHub

  function EventOf(op: Op): Event {
    if op.PutOp? then Event(false, op.key, op.value, op.version) else Event(true, op.key, [], op.version)
  }

  function EventsOf(ops: seq<Op>): (r: seq<Event>)
    ensures |r| == |ops| && forall i :: 0 <= i < |r| ==> r[i] == EventOf(ops[i])
  {
    seq(|ops|, i requires 0 <= i < |ops| => EventOf(ops[i]))
  }

  datatype Machine = Machine(store: State, applied: seq<Op>, events: seq<Event>, chans: map<nat, Chan>, next: nat)

  datatype Move =
    | ApplyEntry(entry: LogEntry, index: nat, logged: bool)
    | EngineStep(step: Step)     // a step of a flush or a compaction
    | Subscribe(prefix: Key)
    | Unsubscribe(id: nat)
    | Receive(id: nat)
    | RestoreTo(data: Layer)

  /** The hub and the list of writes after a write that the store has taken. */
  function Announced(s: Machine, op: Op): Machine {
    s.(applied := s.applied + [op], events := s.events + [EventOf(op)], chans := OfferEach(s.chans, EventOf(op)))
  }

  function CarryOut(s: Machine, op: Op): Machine {
    Announced(s.(store := s.store.(mem := MemWrite(s.store.mem, op))), op)
  }

  ghost predicate Can(s: Machine, step: Move) {
    match step
    case ApplyEntry(_, index, _) => s.store.Tabled() && index < TWO_63
    case EngineStep(e) => !e.Write? && Possible(s.store, e) && Unseen(s.store, e)
    case Receive(id) => id in s.chans && 0 < Buffered(s.chans[id])
    case _ => true
  }

  ghost function Moved(s: Machine, step: Move): Machine
    requires step.ApplyEntry? ==> step.index < TWO_63
    requires step.EngineStep? ==> Possible(s.store, step.step)
    requires step.Receive? ==> step.id in s.chans
  {
    match step
    case ApplyEntry(entry, index, logged) =>
      var op := OpAt(entry, index);
      if op.Some? && logged then CarryOut(s, op.value) else s
    case EngineStep(e) => s.(store := Next(s.store, e))
    case Subscribe(prefix) => s.(chans := s.chans[s.next := Opened(prefix, |s.events|)], next := s.next + 1)
    case Unsubscribe(id) =>
      if id in s.chans && !s.chans[id].closed then s.(chans := s.chans[id := s.chans[id].(closed := true)]) else s
    case Receive(id) => s.(chans := s.chans[id := Took(s.chans[id])])
    case RestoreTo(data) => s.(store := s.store.(mem := data))
  }

  ghost function Course(s: Machine, steps: seq<Move>): Option<Machine> {
    if steps == [] then Some(s)
    else
      var t, step := Course(s, steps[..|steps| - 1]), steps[|steps| - 1];
      if t.Some? && Can(t.value, step) then Some(Moved(t.value, step)) else None
  }

  predicate NoRestore(steps: seq<Move>) {
    forall i :: 0 <= i < |steps| ==> !steps[i].RestoreTo?
  }

  /** The events are those of the writes, the streams are good, and subscription numbers are fresh. */
  ghost predicate InStep(s: Machine) {
    && Formed(s.store) && s.events == EventsOf(s.applied) && AllGood(s.chans, s.events)
    && forall id :: id in s.chans ==> id < s.next
  }

  lemma CarryOutInStep(s: Machine, op: Op)
    requires InStep(s)
    ensures InStep(CarryOut(s, op))
  {
    StepKeepsForm(s.store, Write(op));
    AllOfferedGood(s.chans, OfferEach(s.chans, EventOf(op)), s.events, EventOf(op));
    assert EventsOf(s.applied + [op]) == EventsOf(s.applied) + [EventOf(op)];
  }

  lemma MoveInStep(s: Machine, step: Move)
    requires InStep(s) && Can(s, step)
    ensures InStep(Moved(s, step))
  {
    match step {
      case ApplyEntry(entry, index, logged) =>
        var op := OpAt(entry, index);
        if op.Some? && logged { CarryOutInStep(s, op.value); }
      case EngineStep(e) => UnseenKeepsForm(s.store, e);
      case Subscribe(prefix) => assert s.events[|s.events|..|s.events|] == [];
      case RestoreTo(data) => RestoredForm(s.store, data);
      case _ =>
    }
  }

  lemma RestoredForm(s: State, data: Layer)
    requires Formed(s)
    ensures Formed(s.(mem := data))
  {
    assert s.(mem := data).TableLayers() == s.TableLayers();
  }

  lemma {:induction false} CourseInStep(s: Machine, steps: seq<Move>)
    requires InStep(s) && Course(s, steps).Some?
    ensures InStep(Course(s, steps).value)
  {
    if steps != [] {
      CourseInStep(s, steps[..|steps| - 1]);
      MoveInStep(Course(s, steps[..|steps| - 1]).value, steps[|steps| - 1]);
    }
  }

  /** The write a step carries out, if any. */
  function OpIn(step: Move): Option<Op> {
    if step.ApplyEntry? && step.logged && step.index < TWO_63 then OpAt(step.entry, step.index) else None
  }

  lemma {:induction false} MoveView(s: Machine, step: Move, k: Key)
    requires InStep(s) && Can(s, step) && !step.RestoreTo?
    ensures var t, op := Moved(s, step), OpIn(step);
      && t.store.Tabled() && t.applied == s.applied + (if op.Some? then [op.value] else [])
      && t.store.View(k) ==
           if op.Some? && op.value.key == k then Shown(ApplyOp(map[], op.value), k) else s.store.View(k)
  {
    if OpIn(step).Some? {
      WriteView(s.store, OpIn(step).value, k);
    } else if step.EngineStep? {
      UnseenKeepsView(s.store, step.step, k);
    }
  }

  /**
   * In every run without a restore, the store shows the last-write-wins map of what it showed at the
   * start and the writes carried out since, and the hub has announced exactly those writes.
   */
  lemma {:induction false} StoreIsFold(s: Machine, steps: seq<Move>, before: seq<Op>, k: Key)
    requires InStep(s) && s.applied == [] && s.store.View(k) == Shown(Replay(before), k)
    requires Course(s, steps).Some? && NoRestore(steps)
    ensures var t := Course(s, steps).value;
      && t.store.Tabled() && t.store.View(k) == Shown(Replay(before + t.applied), k)
      && t.events == EventsOf(t.applied)
  {
    CourseInStep(s, steps);
    if steps == [] {
      assert before + [] == before;
    } else {
      var n := |steps| - 1;
      StoreIsFold(s, steps[..n], before, k);
      CourseInStep(s, steps[..n]);
      FoldMove(Course(s, steps[..n]).value, steps[n], before, k);
    }
  }

  lemma {:induction false} FoldMove(s: Machine, step: Move, before: seq<Op>, k: Key)
    requires InStep(s) && Can(s, step) && !step.RestoreTo? && s.store.View(k) == Shown(Replay(before + s.applied), k)
    ensures var t := Moved(s, step); t.store.Tabled() && t.store.View(k) == Shown(Replay(before + t.applied), k)
  {
    MoveView(s, step, k);
    if OpIn(step).Some? {
      ReplayOneMore(before, s.applied, OpIn(step).value);
    } else {
      assert s.applied + [] == s.applied;
    }
  }

  lemma {:induction false} ReplayOneMore(before: seq<Op>, ops: seq<Op>, op: Op)
    ensures Replay(before + (ops + [op])) == ApplyOp(Replay(before + ops), op)
  {
    var all := before + (ops + [op]);
    assert all[..|all| - 1] == before + ops && all[|all| - 1] == op;
  }

  // ---- Runs with growing indexes and safe swaps ----

  /** The step can happen: an entry is applied at an index above `top`, and swaps are safe. */
  ghost predicate CanSafely(s: Machine, step: Move, top: int) {
    match step
    case ApplyEntry(_, index, _) => s.store.Tabled() && top < index < TWO_63
    case EngineStep(e) => !e.Write? && Possible(s.store, e) && Benign(s.store, e)
    case _ => Can(s, step)
  }

  /** The last index applied, or `top`. */
  function TopAfter(steps: seq<Move>, top: int): int {
    if steps == [] then top
    else
      var last := steps[|steps| - 1];
      if last.ApplyEntry? then last.index else TopAfter(steps[..|steps| - 1], top)
  }

  ghost predicate SafeCourse(s: Machine, steps: seq<Move>, top: int) {
    steps == [] ||
    var n := |steps| - 1;
    && SafeCourse(s, steps[..n], top) && Course(s, steps[..n]).Some?
    && CanSafely(Course(s, steps[..n]).value, steps[n], TopAfter(steps[..n], top))
  }

  lemma OrderedAbove(s: State, low: int, high: int)
    requires s.Tabled() && Ordered(s, low) && low <= high
    ensures Ordered(s, high)
  {
  }

  lemma SafeMove(s: Machine, step: Move, top: int)
    requires InStep(s) && Ordered(s.store, top) && CanSafely(s, step, top) && !step.RestoreTo?
    ensures Can(s, step) && Moved(s, step).store.Tabled()
    ensures Ordered(Moved(s, step).store, if step.ApplyEntry? then step.index else top)
  {
    match step {
      case ApplyEntry(entry, index, logged) =>
        var op := OpAt(entry, index);
        if op.Some? && logged {
          StepKeepsOrder(s.store, Write(op.value), top);
        } else {
          OrderedAbove(s.store, top, index);
        }
      case EngineStep(e) =>
        SafeIsUnseen(s.store, e);
        StepKeepsOrder(s.store, e, top);
      case _ =>
    }
  }

  /**
   * Entries applied in the order of their indexes, with flushes and swaps that are safe when they
   * happen, make a run of the system: everything said of runs without a restore holds of them.
   */
  lemma {:induction false} SafeIsCourse(s: Machine, steps: seq<Move>, top: int)
    requires InStep(s) && Ordered(s.store, top) && SafeCourse(s, steps, top) && NoRestore(steps)
    ensures Course(s, steps).Some? && InStep(Course(s, steps).value)
    ensures Ordered(Course(s, steps).value.store, TopAfter(steps, top))
  {
    if steps != [] {
      var n := |steps| - 1;
      SafeIsCourse(s, steps[..n], top);
      SafeMove(Course(s, steps[..n]).value, steps[n], TopAfter(steps[..n], top));
      MoveInStep(Course(s, steps[..n]).value, steps[n]);
    }
  }

  // ---- What a watcher knows ----

  /** Replaying the stream of subscription `id` on the map m shows of k what the store shows. */
  ghost predicate Agrees(s: Machine, id: nat, m: map<Key, Cell>, k: Key)
    requires id in s.chans && s.store.Tabled()
  {
    Shown(Play(m, s.chans[id].sent), k) == s.store.View(k)
  }

  /** The subscription is open, has lost nothing, and covers k. */
  ghost predicate Follows(s: Machine, id: nat, k: Key) {
    id in s.chans && !s.chans[id].closed && !s.chans[id].dropped && s.chans[id].prefix <= k
  }

  /** A step that writes the key makes the watcher agree on it; any other step leaves that as it was. */
  lemma {:induction false} MoveAgrees(s: Machine, step: Move, id: nat, m: map<Key, Cell>, k: Key)
    requires InStep(s) && Can(s, step) && !step.RestoreTo?
    requires id in s.chans && Follows(Moved(s, step), id, k)
    ensures Follows(s, id, k) && Moved(s, step).store.Tabled()
    ensures Agrees(Moved(s, step), id, m, k) <==> (OpIn(step).Some? && OpIn(step).value.key == k) || Agrees(s, id, m, k)
  {
    MoveView(s, step, k);
    if OpIn(step).Some? {
      OfferedPlay(s.chans[id], OpIn(step).value, m, k);
    } else {
      assert Moved(s, step).chans[id].sent == s.chans[id].sent;
    }
  }

  /** Playing one more event that was sent, or one that does not concern the prefix. */
  lemma {:induction false} OfferedPlay(c: Chan, op: Op, m: map<Key, Cell>, k: Key)
    requires var d := Offer(c, EventOf(op)); !d.closed && !d.dropped && d.prefix <= k
    ensures !c.closed && !c.dropped && c.prefix <= k
    ensures Shown(Play(m, Offer(c, EventOf(op)).sent), k) ==
      if op.key == k then Shown(ApplyOp(map[], op), k) else Shown(Play(m, c.sent), k)
  {
    var e := EventOf(op);
    assert OpOf(e) == op;
    if Matches(e, c.prefix) {
      assert (c.sent + [e])[..|c.sent|] == c.sent;
    }
  }

  ghost predicate WritesKey(steps: seq<Move>, k: Key) {
    exists i :: 0 <= i < |steps| && OpIn(steps[i]).Some? && OpIn(steps[i]).value.key == k
  }

  /**
   * Over any run without a restore a watcher that follows ends up agreeing with the store on a key
   * exactly when it agreed at the start or the key was written since.
   */
  lemma {:induction false} FollowExact(s: Machine, steps: seq<Move>, id: nat, m: map<Key, Cell>, k: Key)
    requires InStep(s) && id in s.chans && Course(s, steps).Some? && NoRestore(steps)
    requires Follows(Course(s, steps).value, id, k)
    ensures Course(s, steps).value.store.Tabled() && Follows(s, id, k)
    ensures Agrees(Course(s, steps).value, id, m, k) <==> Agrees(s, id, m, k) || WritesKey(steps, k)
  {
    if steps != [] {
      var n := |steps| - 1;
      var t, step := Course(s, steps[..n]).value, steps[n];
      CourseInStep(s, steps[..n]);
      ChansStay(s, steps[..n], id);
      MoveAgrees(t, step, id, m, k);
      FollowExact(s, steps[..n], id, m, k);
      WritesKeyGrows(steps, k);
    }
  }

  /** The step makes the hub announce a wanted event while 64 others wait to be received. */
  ghost predicate LosesAt(s: Machine, step: Move, id: nat) {
    && id in s.chans && OpIn(step).Some? && Wants(s.chans[id], EventOf(OpIn(step).value))
    && 64 <= |s.chans[id].sent| - s.chans[id].taken
  }

  lemma MoveLoses(s: Machine, step: Move, id: nat)
    requires InStep(s) && Can(s, step) && id in s.chans
    ensures id in Moved(s, step).chans
    ensures Moved(s, step).chans[id].dropped <==> s.chans[id].dropped || LosesAt(s, step, id)
  {
  }

  ghost predicate LosesIn(s: Machine, steps: seq<Move>, id: nat, i: nat) {
    i < |steps| && Course(s, steps[..i]).Some? && LosesAt(Course(s, steps[..i]).value, steps[i], id)
  }

  ghost predicate LosesDuring(s: Machine, steps: seq<Move>, id: nat) {
    exists i: nat :: LosesIn(s, steps, id, i)
  }

  /**
   * Over any run a subscription loses an event exactly when a write under its prefix is carried out at a
   * moment when 64 of its events wait to be received.
   */
  lemma {:induction false} LossExact(s: Machine, steps: seq<Move>, id: nat)
    requires InStep(s) && id in s.chans && Course(s, steps).Some?
    ensures id in Course(s, steps).value.chans
    ensures Course(s, steps).value.chans[id].dropped <==> s.chans[id].dropped || LosesDuring(s, steps, id)
  {
    if steps != [] {
      var n := |steps| - 1;
      LossExact(s, steps[..n], id);
      CourseInStep(s, steps[..n]);
      MoveLoses(Course(s, steps[..n]).value, steps[n], id);
      LosesDuringGrows(s, steps, id);
    }
  }

  lemma {:induction false} LosesDuringGrows(s: Machine, steps: seq<Move>, id: nat)
    requires steps != [] && Course(s, steps).Some?
    ensures var n := |steps| - 1;
      LosesDuring(s, steps, id) <==>
      LosesDuring(s, steps[..n], id) || LosesAt(Course(s, steps[..n]).value, steps[n], id)
  {
    var n := |steps| - 1;
    forall i: nat | i < n ensures LosesIn(s, steps[..n], id, i) <==> LosesIn(s, steps, id, i) {
      assert steps[..n][..i] == steps[..i];
    }
    assert LosesIn(s, steps, id, n) <==> LosesAt(Course(s, steps[..n]).value, steps[n], id);
    if i: nat :| LosesIn(s, steps, id, i) {
      assert i < n ==> LosesIn(s, steps[..n], id, i);
    }
    if i: nat :| LosesIn(s, steps[..n], id, i) {
      assert LosesIn(s, steps, id, i);
    }
  }

  lemma WritesKeyGrows(steps: seq<Move>, k: Key)
    requires steps != []
    ensures var n := |steps| - 1;
      WritesKey(steps, k) <==> WritesKey(steps[..n], k) || (OpIn(steps[n]).Some? && OpIn(steps[n]).value.key == k)
  {
    var n := |steps| - 1;
    if WritesKey(steps[..n], k) {
      var i :| 0 <= i < n && OpIn(steps[..n][i]).Some? && OpIn(steps[..n][i]).value.key == k;
      assert steps[i] == steps[..n][i];
    }
    if WritesKey(steps, k) {
      var i :| 0 <= i < |steps| && OpIn(steps[i]).Some? && OpIn(steps[i]).value.key == k;
      if i < n { assert steps[..n][i] == steps[i]; }
    }
  }

  lemma {:induction false} ChansStay(s: Machine, steps: seq<Move>, id: nat)
    requires Course(s, steps).Some? && id in s.chans
    ensures id in Course(s, steps).value.chans
  {
    if steps != [] { ChansStay(s, steps[..|steps| - 1], id); }
  }

  /** A subscription keeps its prefix and its start. */
  lemma {:induction false} ChanFixed(s: Machine, steps: seq<Move>, id: nat)
    requires InStep(s) && Course(s, steps).Some? && id in s.chans
    ensures var t := Course(s, steps).value;
      id in t.chans && t.chans[id].prefix == s.chans[id].prefix && t.chans[id].since == s.chans[id].since
  {
    if steps != [] {
      var n := |steps| - 1;
      ChanFixed(s, steps[..n], id);
      CourseInStep(s, steps[..n]);
      MoveFixes(Course(s, steps[..n]).value, steps[n], id);
    }
  }

  lemma MoveFixes(s: Machine, step: Move, id: nat)
    requires InStep(s) && Can(s, step) && id in s.chans
    ensures var t := Moved(s, step);
      id in t.chans && t.chans[id].prefix == s.chans[id].prefix && t.chans[id].since == s.chans[id].since
  {
  }

  /** As long as no more than 64 matching events follow a subscription, all are in its stream, received or not. */
  lemma {:induction false} FirstEventsArrive(s: Machine, prefix: Key, steps: seq<Move>)
    requires InStep(s) && Course(Moved(s, Subscribe(prefix)), steps).Some?
    ensures var t := Course(Moved(s, Subscribe(prefix)), steps).value;
      && |s.events| <= |t.events| && s.next in t.chans
      && (var since := Matching(t.events[|s.events|..], prefix);
          !t.chans[s.next].closed && |since| <= 64 ==> t.chans[s.next].sent == since)
  {
    var t := Moved(s, Subscribe(prefix));
    MoveInStep(s, Subscribe(prefix));
    ChanFixed(t, steps, s.next);
    CourseInStep(t, steps);
    var u := Course(t, steps).value;
    assert GoodChan(u.chans[s.next], u.events);
    assert u.events[|s.events|..|u.events|] == u.events[|s.events|..];
  }

  /**
   * A watcher that subscribes, knowing what the store shows under its prefix, and then loses nothing
   * while no restore happens: replaying its stream gives what the store shows under the prefix.
   */
  lemma {:induction false} WatcherRebuildsStore(s: Machine, prefix: Key, steps: seq<Move>, m: map<Key, Cell>, k: Key)
    requires InStep(s) && prefix <= k && Shown(m, k) == s.store.View(k)
    requires var t := Moved(s, Subscribe(prefix));
      Course(t, steps).Some? && NoRestore(steps) && Follows(Course(t, steps).value, s.next, k)
    ensures var t := Course(Moved(s, Subscribe(prefix)), steps).value;
      t.store.Tabled() && Shown(Play(m, t.chans[s.next].sent), k) == t.store.View(k)
  {
    var t := Moved(s, Subscribe(prefix));
    MoveInStep(s, Subscribe(prefix));
    FollowExact(t, steps, s.next, m, k);
  }

  /**
   * A restore is not announced. A watcher that agreed on a key goes on agreeing exactly when the
   * snapshot, or the layers under it where it lacks the key, show what the store showed before; if
   * not, it agrees again exactly when the key is written afterwards.
   */
  lemma {:induction false} RestoreForWatchers(s: Machine, data: Layer, steps: seq<Move>, id: nat,
                                              m: map<Key, Cell>, k: Key)
    requires InStep(s) && id in s.chans && Agrees(s, id, m, k)
    requires var t := Moved(s, RestoreTo(data));
      Course(t, steps).Some? && NoRestore(steps) && Follows(Course(t, steps).value, id, k)
    ensures var t := Course(Moved(s, RestoreTo(data)), steps).value;
      var shown := if k in data then Visible(Some(data[k])) else Below(s.store, k);
      && t.store.Tabled()
      && (Agrees(t, id, m, k) <==> shown == s.store.View(k) || WritesKey(steps, k))
  {
    var t := Moved(s, RestoreTo(data));
    MoveInStep(s, RestoreTo(data));
    FollowExact(t, steps, id, m, k);
    assert t.store.TableLayers() == s.store.TableLayers();
    ViewIs(t.store, k);
  }

  lemma CourseOn(s: Machine, steps: seq<Move>, t: Machine, step: Move)
    requires Course(s, steps) == Some(t) && Can(t, step)
    ensures Course(s, steps + [step]) == Some(Moved(t, step))
  {
    assert (steps + [step])[..|steps|] == steps;
  }

  const FRESH: Machine := Machine(INIT, [], [], map[], 0)

  function UnheardRun(a: Key): seq<Move> {
    [Subscribe([])] + [ApplyEntry(PutCmd(a, []), 1, true)] + [RestoreTo(map[])]
  }

  lemma UnheardEnd(a: Key)
    ensures Course(FRESH, UnheardRun(a)) ==
      Some(CarryOut(FRESH.(chans := map[0 := Opened([], 0)], next := 1), PutOp(a, [], 1)).(store := INIT))
  {
    var put := ApplyEntry(PutCmd(a, []), 1, true);
    var s1 := FRESH.(chans := map[0 := Opened([], 0)], next := 1);
    assert [] + [Subscribe([])] == [Subscribe([])];
    CourseOn(FRESH, [], FRESH, Subscribe([]));
    assert Moved(FRESH, Subscribe([])) == s1;
    CourseOn(FRESH, [Subscribe([])], s1, put);
    CourseOn(FRESH, [Subscribe([])] + [put], CarryOut(s1, PutOp(a, [], 1)), RestoreTo(map[]));
  }

  /** A key is put under the eyes of a watcher and then lost to a restore that the watcher does not hear of. */
  lemma RestoreUnheard(a: Key)
    ensures var t := Course(FRESH, UnheardRun(a));
      && InStep(FRESH) && t.Some? && Follows(t.value, 0, a)
      && t.value.store.Tabled() && t.value.store.View(a) == None
      && Shown(Play(map[], t.value.chans[0].sent), a) == Some(Live([], 1))
  {
    UnheardEnd(a);
    OfferedPlay(Opened([], 0), PutOp(a, [], 1), map[], a);
    MemOnlyView(INIT, a);
    assert INIT.TableLayers() == [] && EventsOf([]) == [];
  }
}
