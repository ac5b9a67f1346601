/** The replicated state machine: committed entries go to the engine, then to the watch hub. */
module FsmModel {
  import opened Core
  import opened SkiplistModel
  import opened CompactionModel
  import opened EngineRun
  import opened EngineModel
  import opened Cluster
  import opened WatchHub
  import opened FsmRun

  class Fsm {
    const store: Engine
    const watcher: Hub
    ghost var applied: seq<Op>   // the writes carried out so far

    ghost predicate Valid()
      reads this, store, store.memtable, store.memtable.Repr, store.compact, watcher
      reads if store.immutable != null then {store.immutable} + store.immutable.Repr else {}
    {
      && store.Valid() && watcher.Valid()
      && this !in store.memtable.Repr && watcher !in store.memtable.Repr
      && (store.immutable != null ==> watcher !in store.immutable.Repr && this !in store.immutable.Repr)
    }

    /** The state of store and hub together. */
    ghost function St(): Machine
      reads this, store, store.memtable, store.compact, watcher
      reads if store.immutable != null then {store.immutable} else {}
    {
      Machine(store.St(), applied, watcher.events, watcher.chans, watcher.next)
    }

    constructor (store: Engine, watcher: Hub)
      ensures this.store == store && this.watcher == watcher && applied == []
    {
      this.store, this.watcher, applied := store, watcher, [];
    }

    /** Applies the entry at `index`; `logged` is the outcome of the engine's log append. */
    method Apply(entry: LogEntry, index: nat, logged: bool, lvl: Level) returns (r: Response)
      requires Valid() && index < TWO_63
      modifies store.memtable.Repr, watcher, this`applied
      ensures Valid() && St() == Moved(old(St()), ApplyEntry(entry, index, logged))
      ensures r == ResponseTo(entry, index, logged)
      ensures r == ApplyResult(index) <==> |applied| == |old(applied)| + 1
      ensures r == ApplyResult(index) ==>
        watcher.events == old(watcher.events) +
          [Event(entry.DeleteCmd?, entry.key, if entry.DeleteCmd? then [] else entry.value, index)]
      ensures r != ApplyResult(index) ==> St() == old(St()) && (r == NoResponse <==> entry == NotCommand)
    {
      match entry {
        case NotCommand => return NoResponse;
        case PutCmd(key, value) =>
          r := ApplyPut(key, value, index, logged, lvl);
        case DeleteCmd(key) =>
          r := ApplyDelete(key, index, logged, lvl);
        case _ => return ApplyError;
      }
    }

    method ApplyPut(key: Key, value: Value, version: Int64, logged: bool, lvl: Level) returns (r: Response)
      requires Valid()
      modifies store.memtable.Repr, watcher, this`applied
      ensures Valid() && r == if logged then ApplyResult(version) else ApplyError
      ensures St() == if logged then CarryOut(old(St()), PutOp(key, value, version)) else old(St())
    {
      var ok, needFlush := store.Put(key, value, version, logged, lvl);
      if !ok {
        return ApplyError;
      }
      Announce(PutOp(key, value, version));
      return ApplyResult(version);
    }

    method ApplyDelete(key: Key, version: Int64, logged: bool, lvl: Level) returns (r: Response)
      requires Valid()
      modifies store.memtable.Repr, watcher, this`applied
      ensures Valid() && r == if logged then ApplyResult(version) else ApplyError
      ensures St() == if logged then CarryOut(old(St()), DeleteOp(key, version)) else old(St())
    {
      var ok := store.Delete(key, version, logged, lvl);
      if !ok {
        return ApplyError;
      }
      Announce(DeleteOp(key, version));
      return ApplyResult(version);
    }

    /** Tells the hub of a write that the store has taken. */
    method Announce(op: Op)
      requires Valid()
      modifies watcher, this`applied
      ensures Valid() && St() == Announced(old(St()), op)
    {
      ghost var before := watcher.chans;
      watcher.Notify(EventOf(op));
      assert watcher.chans == OfferEach(before, EventOf(op));
      applied := applied + [op];
    }

    method Snapshot() returns (entries: seq<Entry>)
      requires Valid()
      ensures DistinctKeys(entries) && IsSnapshot(store.St(), ToMap(entries))
    {
      entries := store.Snapshot();
      forall k | k in ToMap(entries) ensures !ToMap(entries)[k].deleted {
        var i := ToMapFrom(entries, k);
      }
    }

    /** Resets the store to a snapshot; the hub hears nothing of it. */
    method Restore(entries: seq<Entry>, draw: nat -> Level)
      requires Valid()
      modifies store`memtable
      ensures Valid() && St() == Moved(old(St()), RestoreTo(RestoredMem(entries)))
    {
      store.Restore(entries, draw);
    }
  }
}
