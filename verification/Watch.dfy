/** The watch hub: events fan out to prefix subscriptions over bounded, never blocking channels. */
module WatchHub {
  import opened Core
  import opened EngineRun

  const CHANNEL_CAPACITY: nat := 64

  datatype Event = Event(isDelete: bool, key: Key, value: Value, version: Int64)

  predicate Matches(e: Event, prefix: Key) {
    prefix <= e.key
  }

  /**
   * One subscription's channel. `sent` is everything ever put on it and `taken` how much of that was
   * received; `since` and `upto` delimit the hub's events it has been offered.
   */
  datatype Chan = Chan(prefix: Key, since: nat, upto: nat, sent: seq<Event>, taken: nat, dropped: bool, closed: bool)

  function Buffered(c: Chan): int {
    |c.sent| - c.taken
  }

  /** What offering one event does to a channel. */
  function Offer(c: Chan, e: Event): Chan {
    if c.closed then c
    else if !Matches(e, c.prefix) then c.(upto := c.upto + 1)
    else if Buffered(c) < CHANNEL_CAPACITY then c.(sent := c.sent + [e], upto := c.upto + 1)
    else c.(dropped := true, upto := c.upto + 1)
  }

  /** An open channel whose prefix the event has. */
  predicate Wants(c: Chan, e: Event) {
    !c.closed && c.prefix <= e.key
  }

  /**
   * What a subscriber sees of one event: a wanted one is put behind the others if fewer than 64 wait to
   * be received and is lost otherwise; any other one leaves the channel alone.
   */
  ghost predicate Delivered(c: Chan, e: Event, d: Chan) {
    && d.prefix == c.prefix && d.taken == c.taken && d.closed == c.closed
    && if Wants(c, e) && |c.sent| - c.taken < 64 then d.sent == c.sent + [e] && d.dropped == c.dropped
       else if Wants(c, e) then d.sent == c.sent && d.dropped
       else d.sent == c.sent && d.dropped == c.dropped
  }

  function Matching(events: seq<Event>, prefix: Key): seq<Event> {
    if events == [] then []
    else
      var e := events[|events| - 1];
      Matching(events[..|events| - 1], prefix) + if Matches(e, prefix) then [e] else []
  }

  /** The matching events a channel has been offered. */
  ghost function Offered(c: Chan, events: seq<Event>): seq<Event>
    requires c.since <= c.upto <= |events|
  {
    Matching(events[c.since..c.upto], c.prefix)
  }

  /**
   * A stream is an in-order subsequence of what was offered, and all of it unless something was dropped,
   * which takes more than 64 matching events.
   */
  ghost predicate GoodChan(c: Chan, events: seq<Event>) {
    && c.since <= c.upto <= |events| && (!c.closed ==> c.upto == |events|)
    && c.taken <= |c.sent| <= c.taken + CHANNEL_CAPACITY
    && Subsequence(c.sent, Offered(c, events))
    && (!c.dropped ==> c.sent == Offered(c, events))
    && (c.dropped ==> 64 < |Offered(c, events)|)
  }

  ghost predicate AllGood(chans: map<nat, Chan>, events: seq<Event>) {
    forall id :: id in chans ==> GoodChan(chans[id], events)
  }

  /** The subscriptions are the open channels, and no number is handed out twice. */
  ghost predicate Enrolled(subs: map<nat, Key>, next: nat, chans: map<nat, Chan>) {
    && (forall id :: id in chans ==> id < next)
    && (forall id :: id in subs <==> id in chans && !chans[id].closed)
    && (forall id :: id in subs ==> subs[id] == chans[id].prefix)
  }

  function Opened(prefix: Key, now: nat): Chan {
    Chan(prefix, now, now, [], 0, false, false)
  }

  function Took(c: Chan): Chan {
    c.(taken := c.taken + 1)
  }

  class Hub {
    var subs: map<nat, Key>       // the prefix of every open subscription
    var next: nat
    var chans: map<nat, Chan>     // every channel ever handed out
    var events: seq<Event>        // every event notified so far, kept for the specification

    ghost predicate Valid()
      reads this
    {
      AllGood(chans, events) && Enrolled(subs, next, chans)
    }

    constructor ()
      ensures Valid() && chans == map[] && events == []
    {
      subs, next, chans, events := map[], 0, map[], [];
    }

    method Subscribe(prefix: Key) returns (id: nat)
      requires Valid()
      modifies this
      ensures Valid() && events == old(events) && id !in old(chans)
      ensures chans == old(chans)[id := Opened(prefix, |events|)] && id == old(next) && next == id + 1
    {
      id := next;
      next := next + 1;
      subs := subs[id := prefix];
      chans := chans[id := Opened(prefix, |events|)];
    }

    method Unsubscribe(id: nat)
      requires Valid()
      modifies this
      ensures Valid() && events == old(events) && next == old(next)
      ensures chans == old(if id in subs then chans[id := chans[id].(closed := true)] else chans)
    {
      if id in subs {
        chans := chans[id := chans[id].(closed := true)];
        subs := subs - {id};
      }
    }

    /** The subscriber takes the oldest buffered event. */
    method Receive(id: nat) returns (e: Event)
      requires Valid() && id in chans && 0 < Buffered(chans[id])
      modifies this
      ensures Valid() && events == old(events) && subs == old(subs) && next == old(next)
      ensures e == old(chans[id].sent[chans[id].taken])
      ensures chans == old(chans[id := Took(chans[id])])
      ensures chans[id].taken == old(chans[id].taken) + 1 && chans[id].sent == old(chans[id].sent)
    {
      var c := chans[id];
      e := c.sent[c.taken];
      chans := chans[id := Took(c)];
    }

    /** Offers an event to every open subscription, in any order, without blocking. */
    method Notify(e: Event)
      requires Valid()
      modifies this`chans, this`events
      ensures Valid() && events == old(events) + [e]
      ensures AllOffered(old(chans), chans, e)
      ensures AllDelivered(old(chans), e, chans)
    {
      var offered := OfferAll(chans, subs.Keys, e);
      AllOfferedEnrolled(subs, next, chans, offered, e);
      AllOfferedGood(chans, offered, events, e);
      AllOfferedDelivered(chans, offered, e);
      chans := offered;
      events := events + [e];
    }
  }

  /** The dispatch loop: a nonblocking send to every open subscription, in any order. */
  method OfferAll(chans: map<nat, Chan>, open: set<nat>, e: Event) returns (r: map<nat, Chan>)
    requires open <= chans.Keys && forall id :: id in open ==> !chans[id].closed
    ensures r.Keys == chans.Keys
    ensures forall id :: id in chans ==> r[id] == if id in open then Offer(chans[id], e) else chans[id]
  {
    r := chans;
    var rest := open;
    while rest != {}
      invariant rest <= open && r.Keys == chans.Keys
      invariant forall id :: id in chans ==>
        r[id] == if id in open && id !in rest then Offer(chans[id], e) else chans[id]
    {
      var id :| id in rest;
      var c := r[id];
      if !Matches(e, c.prefix) {
        c := c.(upto := c.upto + 1);
      } else if Buffered(c) < CHANNEL_CAPACITY {
        c := c.(sent := c.sent + [e], upto := c.upto + 1);
      } else {
        c := c.(dropped := true, upto := c.upto + 1);
      }
      r := r[id := c];
      rest := rest - {id};
    }
  }

  /** Every channel of r is the channel of chans after being offered e. */
  ghost predicate AllOffered(chans: map<nat, Chan>, r: map<nat, Chan>, e: Event) {
    r.Keys == chans.Keys && forall id :: id in chans ==> r[id] == Offer(chans[id], e)
  }

  function OfferEach(chans: map<nat, Chan>, e: Event): map<nat, Chan> {
    map id | id in chans :: Offer(chans[id], e)
  }

  lemma AllOfferedGood(chans: map<nat, Chan>, r: map<nat, Chan>, events: seq<Event>, e: Event)
    requires AllGood(chans, events) && AllOffered(chans, r, e)
    ensures AllGood(r, events + [e])
  {
    forall id | id in r ensures GoodChan(r[id], events + [e]) {
      assert GoodChan(chans[id], events);
      OfferKeepsGood(chans[id], events, e);
    }
  }

  ghost predicate AllDelivered(chans: map<nat, Chan>, e: Event, r: map<nat, Chan>) {
    r.Keys == chans.Keys && forall id :: id in chans ==> Delivered(chans[id], e, r[id])
  }

  lemma AllOfferedDelivered(chans: map<nat, Chan>, r: map<nat, Chan>, e: Event)
    requires AllOffered(chans, r, e)
    ensures AllDelivered(chans, e, r)
  {
  }

  lemma AllOfferedEnrolled(subs: map<nat, Key>, next: nat, chans: map<nat, Chan>, r: map<nat, Chan>, e: Event)
    requires Enrolled(subs, next, chans) && r.Keys == chans.Keys
    requires forall id :: id in chans ==> r[id] == if id in subs then Offer(chans[id], e) else chans[id]
    ensures AllOffered(chans, r, e) && Enrolled(subs, next, r)
  {
  }

  lemma OfferedGrows(c: Chan, events: seq<Event>, e: Event)
    requires c.since <= c.upto <= |events| && (!c.closed ==> c.upto == |events|)
    ensures Offered(Offer(c, e), events + [e]) ==
      Offered(c, events) + if !c.closed && Matches(e, c.prefix) then [e] else []
  {
    var all := events + [e];
    if c.closed {
      assert all[c.since..c.upto] == events[c.since..c.upto];
    } else {
      var past, now := events[c.since..c.upto], all[c.since..c.upto + 1];
      assert now == past + [e] && now[..|now| - 1] == past;
    }
  }

  lemma OfferKeepsGood(c: Chan, events: seq<Event>, e: Event)
    requires GoodChan(c, events)
    ensures GoodChan(Offer(c, e), events + [e])
  {
    OfferedGrows(c, events, e);
    SubsequenceAppend(c.sent, Offered(c, events), e);
    SubsequenceShorter(c.sent, Offered(c, events));
    assert Offered(c, events) + [] == Offered(c, events);
  }

  // ---- Replaying a stream ----

  function OpOf(e: Event): Op {
    if e.isDelete then DeleteOp(e.key, e.version) else PutOp(e.key, e.value, e.version)
  }

  function Play(m: map<Key, Cell>, events: seq<Event>): map<Key, Cell> {
    if events == [] then m
    else ApplyOp(Play(m, events[..|events| - 1]), OpOf(events[|events| - 1]))
  }

  function Restricted(m: map<Key, Cell>, prefix: Key): map<Key, Cell> {
    map k | k in m && prefix <= k :: m[k]
  }

  /** Only matching events matter to what lies under a prefix. */
  lemma {:induction false} PlayRestricted(m: map<Key, Cell>, events: seq<Event>, prefix: Key)
    ensures Restricted(Play(m, events), prefix) == Play(Restricted(m, prefix), Matching(events, prefix))
  {
    if events != [] {
      var n := |events| - 1;
      var e, seen := events[n], Matching(events[..n], prefix);
      PlayRestricted(m, events[..n], prefix);
      if Matches(e, prefix) {
        assert (seen + [e])[..|seen|] == seen;
      } else {
        assert seen + [] == seen;
      }
    }
  }

  lemma {:induction false} PlaySplit(m: map<Key, Cell>, a: seq<Event>, b: seq<Event>)
    ensures Play(m, a + b) == Play(Play(m, a), b)
    decreases |b|
  {
    if b == [] {
      assert a + b == a;
    } else {
      var n := |b| - 1;
      assert (a + b)[..|a + b| - 1] == a + b[..n];
      PlaySplit(m, a, b[..n]);
    }
  }

  /**
   * A subscriber that lost nothing and replays its stream on the store's contents under the prefix at
   * subscription has the store's contents under the prefix as of the last event it was offered.
   */
  lemma StreamRebuildsPrefix(c: Chan, events: seq<Event>, start: map<Key, Cell>)
    requires GoodChan(c, events) && !c.dropped
    ensures Play(Restricted(Play(start, events[..c.since]), c.prefix), c.sent) ==
      Restricted(Play(start, events[..c.upto]), c.prefix)
  {
    var before, during := events[..c.since], events[c.since..c.upto];
    assert events[..c.upto] == before + during;
    PlaySplit(start, before, during);
    PlayRestricted(Play(start, before), during, c.prefix);
  }
}
