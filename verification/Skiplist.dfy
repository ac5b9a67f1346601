/**
 * The memtable: a multi-level linked list whose nodes carry one forward pointer per level.
 *
 * The ghost sequence `nodes` lists the head and then every node in key order. All pointers are
 * determined by it: the level-i pointer of a node is the next node of `nodes` that reaches level i.
 */
module SkiplistModel {
  import opened Core

  const MAX_LEVEL: nat := 32

  /** The level drawn at random for a new node: any level is possible. */
  type Level = l: nat | l <= MAX_LEVEL

  class Node {
    var entry: Entry
    const forward: array<Node?>

    constructor (level: nat, e: Entry)
      ensures entry == e && fresh(forward) && forward.Length == level + 1
      ensures forall i :: 0 <= i <= level ==> forward[i] == null
    {
      entry := e;
      forward := new Node?[level + 1](_ => null);
    }
  }

  // ---- Which node a pointer leads to ----

  /** The first node after position j that reaches level i, or |nodes| if there is none. */
  ghost predicate IsNext(nodes: seq<Node>, j: nat, i: nat, k: nat) {
    && j < k <= |nodes|
    && (k < |nodes| ==> i < nodes[k].forward.Length)
    && (forall x :: j < x < k ==> nodes[x].forward.Length <= i)
  }

  lemma {:induction false} NextExists(nodes: seq<Node>, j: nat, i: nat)
    requires j < |nodes|
    ensures exists k :: IsNext(nodes, j, i, k)
    decreases |nodes| - j
  {
    if j + 1 == |nodes| || i < nodes[j + 1].forward.Length {
      assert IsNext(nodes, j, i, j + 1);
    } else {
      NextExists(nodes, j + 1, i);
      var k :| IsNext(nodes, j + 1, i, k);
      assert IsNext(nodes, j, i, k);
    }
  }

  ghost function NextAt(nodes: seq<Node>, j: nat, i: nat): (k: nat)
    requires j < |nodes|
    ensures IsNext(nodes, j, i, k)
  {
    NextExists(nodes, j, i);
    var k: nat :| IsNext(nodes, j, i, k);
    k
  }

  /** The last node before position p that reaches level i; the head reaches every level. */
  ghost predicate IsPrev(nodes: seq<Node>, p: nat, i: nat, j: nat) {
    && j < p <= |nodes|
    && i < nodes[j].forward.Length
    && (forall x :: j < x < p ==> nodes[x].forward.Length <= i)
  }

  lemma {:induction false} PrevExists(nodes: seq<Node>, p: nat, i: nat)
    requires 1 <= p <= |nodes| && i < nodes[0].forward.Length
    ensures exists j :: IsPrev(nodes, p, i, j)
  {
    if i < nodes[p - 1].forward.Length {
      assert IsPrev(nodes, p, i, p - 1);
    } else {
      PrevExists(nodes, p - 1, i);
      var j :| IsPrev(nodes, p - 1, i, j);
      assert IsPrev(nodes, p, i, j);
    }
  }

  ghost function PrevAt(nodes: seq<Node>, p: nat, i: nat): (j: nat)
    requires 1 <= p <= |nodes| && i < nodes[0].forward.Length
    ensures IsPrev(nodes, p, i, j)
  {
    PrevExists(nodes, p, i);
    var j: nat :| IsPrev(nodes, p, i, j);
    j
  }

  ghost function Target(nodes: seq<Node>, j: nat, i: nat): Node?
    requires j < |nodes|
  {
    var k := NextAt(nodes, j, i);
    if k < |nodes| then nodes[k] else null
  }

  ghost function Inserted(nodes: seq<Node>, p: nat, n: Node): seq<Node>
    requires p <= |nodes|
  {
    nodes[..p] + [n] + nodes[p..]
  }

  /** NextAt is the only position with its property. */
  lemma NextAtIs(nodes: seq<Node>, j: nat, i: nat, k: nat)
    requires IsNext(nodes, j, i, k)
    ensures NextAt(nodes, j, i) == k
  {
    var n := NextAt(nodes, j, i);
    assert n >= k && k >= n;
  }

  /** Inserting a node redirects one pointer per level it reaches, and no other pointer. */
  lemma InsertBefore(nodes: seq<Node>, p: nat, n: Node, j: nat, i: nat)
    requires 1 <= p <= |nodes| && j < p
    requires i < nodes[0].forward.Length && i < nodes[j].forward.Length
    ensures Target(Inserted(nodes, p, n), j, i) ==
            if i < n.forward.Length && j == PrevAt(nodes, p, i) then n else Target(nodes, j, i)
  {
    var after := Inserted(nodes, p, n);
    var k := NextAt(nodes, j, i);
    var q := PrevAt(nodes, p, i);
    if k < p {
      NextAtIs(after, j, i, k);
    } else {
      assert q == j;
      if i < n.forward.Length {
        NextAtIs(after, j, i, p);
      } else {
        forall x | j < x < k + 1 ensures after[x].forward.Length <= i {
          if x > p { assert after[x] == nodes[x - 1]; }
        }
        NextAtIs(after, j, i, k + 1);
      }
    }
  }

  lemma InsertAfter(nodes: seq<Node>, p: nat, n: Node, j: nat, i: nat)
    requires p <= j < |nodes|
    ensures Target(Inserted(nodes, p, n), j + 1, i) == Target(nodes, j, i)
  {
    var after := Inserted(nodes, p, n);
    var k := NextAt(nodes, j, i);
    forall x | j + 1 < x < k + 1 ensures after[x].forward.Length <= i {
      assert after[x] == nodes[x - 1];
    }
    NextAtIs(after, j + 1, i, k + 1);
  }

  lemma InsertAt(nodes: seq<Node>, p: nat, n: Node, i: nat)
    requires 1 <= p <= |nodes| && i < nodes[0].forward.Length
    ensures Target(Inserted(nodes, p, n), p, i) == Target(nodes, PrevAt(nodes, p, i), i)
  {
    var after := Inserted(nodes, p, n);
    var q := PrevAt(nodes, p, i);
    var k := NextAt(nodes, q, i);
    assert p <= k;
    forall x | p < x < k + 1 ensures after[x].forward.Length <= i {
      assert after[x] == nodes[x - 1];
    }
    NextAtIs(after, p, i, k + 1);
  }

  function Sum(s: seq<nat>): nat {
    if s == [] then 0 else s[0] + Sum(s[1..])
  }

  lemma {:induction false} SumInsert(s: seq<nat>, p: nat, x: nat)
    requires p <= |s|
    ensures Sum(s[..p] + [x] + s[p..]) == Sum(s) + x
    decreases |s|
  {
    if p == 0 {
      assert s[..0] + [x] + s[0..] == [x] + s;
    } else {
      var t := s[..p] + [x] + s[p..];
      assert t[1..] == s[1..][..p - 1] + [x] + s[1..][p - 1..];
      SumInsert(s[1..], p - 1, x);
    }
  }

  // ---- The invariant, part by part ----

  ghost predicate Distinct(ns: seq<Node>) {
    forall i, j :: 0 <= i < j < |ns| ==> ns[i] != ns[j] && ns[i].forward != ns[j].forward
  }

  ghost predicate Within(ns: seq<Node>, repr: set<object>) {
    forall j :: 0 <= j < |ns| ==> ns[j] in repr && ns[j].forward in repr
  }

  /** The head reaches every level; the others reach at least level 0 and at most `level`. */
  ghost predicate Shaped(ns: seq<Node>, level: nat) {
    && 1 <= |ns| && ns[0].forward.Length == MAX_LEVEL + 1
    && level <= MAX_LEVEL
    && (forall j :: 1 <= j < |ns| ==> 1 <= ns[j].forward.Length <= level + 1)
  }

  lemma NextBottom(ns: seq<Node>, level: nat, j: nat)
    requires Shaped(ns, level) && j < |ns|
    ensures NextAt(ns, j, 0) == j + 1
  {
    NextAtIs(ns, j, 0, j + 1);
  }

  ghost function Arrays(ns: seq<Node>): set<object> {
    set j | 0 <= j < |ns| :: ns[j].forward
  }

  /** Every pointer leads to the next node that reaches its level. */
  ghost predicate Linked(ns: seq<Node>)
    reads Arrays(ns)
  {
    forall j, i :: 0 <= j < |ns| && 0 <= i < ns[j].forward.Length ==>
      ns[j].forward[i] == Target(ns, j, i)
  }

  ghost predicate Holds(ns: seq<Node>, contents: seq<Entry>)
    reads ns
  {
    |ns| == |contents| + 1 && forall j :: 0 <= j < |contents| ==> contents[j] == ns[j + 1].entry
  }

  ghost predicate Charged(contents: seq<Entry>, firstLens: seq<nat>, charges: seq<nat>) {
    && |firstLens| == |charges| == |contents|
    && forall j :: 0 <= j < |contents| ==> charges[j] == |contents[j].key| + firstLens[j] + 24
  }

  /** Levels below m of node n are spliced in before position p, the rest is as it was. */
  ghost predicate Spliced(ns: seq<Node>, n: Node, p: nat, m: nat)
    reads Arrays(ns), n.forward
    requires 1 <= p <= |ns| && ns[0].forward.Length == MAX_LEVEL + 1
    requires m <= n.forward.Length <= MAX_LEVEL + 1
  {
    && (forall j, i :: 0 <= j < |ns| && 0 <= i < ns[j].forward.Length ==>
          ns[j].forward[i] == SplicedTarget(ns, n, p, m, j, i))
    && (forall i :: 0 <= i < m ==> n.forward[i] == Target(ns, PrevAt(ns, p, i), i))
  }

  ghost function SplicedTarget(ns: seq<Node>, n: Node, p: nat, m: nat, j: nat, i: nat): Node?
    requires j < |ns| && 1 <= p <= |ns| && ns[0].forward.Length == MAX_LEVEL + 1
    requires m <= MAX_LEVEL + 1
  {
    if i < m && j == PrevAt(ns, p, i) then n else Target(ns, j, i)
  }

  /** The spliced pointers are the ones the longer node list calls for. */
  lemma SplicedLinks(ns: seq<Node>, n: Node, p: nat, level: nat)
    requires Shaped(ns, level) && 1 <= p <= |ns| && 1 <= n.forward.Length <= MAX_LEVEL + 1
    requires Spliced(ns, n, p, n.forward.Length)
    ensures Linked(Inserted(ns, p, n))
  {
    var after := Inserted(ns, p, n);
    forall j, i | 0 <= j < |after| && 0 <= i < after[j].forward.Length
      ensures after[j].forward[i] == Target(after, j, i)
    {
      SplicedLink(ns, n, p, level, j, i);
    }
  }

  lemma SplicedLink(ns: seq<Node>, n: Node, p: nat, level: nat, j: nat, i: nat)
    requires Shaped(ns, level) && 1 <= p <= |ns| && 1 <= n.forward.Length <= MAX_LEVEL + 1
    requires Spliced(ns, n, p, n.forward.Length)
    requires j < |ns| + 1 && i < Inserted(ns, p, n)[j].forward.Length
    ensures Inserted(ns, p, n)[j].forward[i] == Target(Inserted(ns, p, n), j, i)
  {
    if j < p {
      InsertBefore(ns, p, n, j, i);
    } else if j == p {
      InsertAt(ns, p, n, i);
    } else {
      InsertAfter(ns, p, n, j - 1, i);
      assert ns[j - 1].forward[i] == SplicedTarget(ns, n, p, n.forward.Length, j - 1, i);
    }
  }

  lemma InsertedParts(ns: seq<Node>, p: nat, n: Node, level: nat, repr: set<object>)
    requires Distinct(ns) && Within(ns, repr) && Shaped(ns, level) && 1 <= p <= |ns|
    requires n !in repr && n.forward !in repr && 1 <= n.forward.Length <= level + 1
    ensures Distinct(Inserted(ns, p, n)) && Shaped(Inserted(ns, p, n), level)
    ensures Within(Inserted(ns, p, n), repr + {n, n.forward})
  {
    var after := Inserted(ns, p, n);
    forall j | 0 <= j < |after|
      ensures j < p ==> after[j] == ns[j]
      ensures j == p ==> after[j] == n
      ensures j > p ==> after[j] == ns[j - 1]
    {}
  }

  lemma InsertedHolds(ns: seq<Node>, p: nat, n: Node, contents: seq<Entry>)
    requires Holds(ns, contents) && 1 <= p <= |ns|
    ensures Holds(Inserted(ns, p, n), contents[..p - 1] + [n.entry] + contents[p - 1..])
  {
    var after, held := Inserted(ns, p, n), contents[..p - 1] + [n.entry] + contents[p - 1..];
    forall j | 0 <= j < |held| ensures held[j] == after[j + 1].entry {
      if j > p - 1 { assert held[j] == contents[j - 1] && after[j + 1] == ns[j]; }
    }
  }

  lemma InsertedCharges(contents: seq<Entry>, lens: seq<nat>, charges: seq<nat>, a: nat, e: Entry)
    requires Charged(contents, lens, charges) && a <= |contents|
    ensures Charged(contents[..a] + [e] + contents[a..], lens[..a] + [|e.value|] + lens[a..],
                    charges[..a] + [Charge(e)] + charges[a..])
    ensures Sum(charges[..a] + [Charge(e)] + charges[a..]) == Sum(charges) + Charge(e)
  {
    SumInsert(charges, a, Charge(e));
  }

  /** What inserting an entry adds to the memtable's size. */
  function Charge(e: Entry): nat {
    |e.key| + |e.value| + 24
  }

  /** The entries of a list that a scan of [start, end) asks for. */
  function InRange(s: seq<Entry>, start: Key, end: Key): seq<Entry> {
    if s == [] then []
    else if !Less(s[0].key, start) && (end == [] || Less(s[0].key, end))
    then [s[0]] + InRange(s[1..], start, end)
    else InRange(s[1..], start, end)
  }

  /** The key is at or above `start` and, unless `end` is empty, below `end`. */
  predicate Asked(key: Key, start: Key, end: Key) {
    (key == start || Less(start, key)) && (end == [] || Less(key, end))
  }

  /**
   * r holds entries of s with keys in the range only, in key order, at most `limit` of them if that is
   * positive; an entry in the range is left out only when there are `limit` others below it.
   */
  ghost predicate FirstAsked(r: seq<Entry>, s: seq<Entry>, start: Key, end: Key, limit: int) {
    && Sorted(r) && (forall e :: e in r ==> e in s && Asked(e.key, start, end))
    && (0 < limit ==> |r| <= limit)
    && forall e :: e in s && Asked(e.key, start, end) && e !in r ==>
         0 < limit == |r| && forall f :: f in r ==> Less(f.key, e.key)
  }

  lemma {:induction false} InRangeHas(s: seq<Entry>, start: Key, end: Key)
    requires Sorted(s)
    ensures Sorted(InRange(s, start, end))
    ensures forall e :: e in InRange(s, start, end) <==> e in s && Asked(e.key, start, end)
  {
    if s != [] {
      InRangeHas(s[1..], start, end);
      AskedIs(s[0].key, start, end);
      var t := InRange(s[1..], start, end);
      assert s == [s[0]] + s[1..];
      forall e | e in t ensures Less(s[0].key, e.key) {
        var j :| 0 <= j < |s[1..]| && s[1..][j] == e;
        assert s[j + 1] == e;
      }
    }
  }

  lemma AskedIs(key: Key, start: Key, end: Key)
    ensures Asked(key, start, end) <==> !Less(key, start) && (end == [] || Less(key, end))
  {
    LessTotal(key, start);
    LessIrreflexive(key);
    if Less(start, key) { LessAsymmetric(start, key); }
  }

  /** What a scan returns, without its recursion: the first entries of the range. */
  lemma ScanIsFirst(s: seq<Entry>, start: Key, end: Key, limit: int)
    requires Sorted(s)
    ensures FirstAsked(Cut(InRange(s, start, end), limit), s, start, end, limit)
  {
    InRangeHas(s, start, end);
    var t := InRange(s, start, end);
    var r := Cut(t, limit);
    assert forall j :: 0 <= j < |r| ==> t[j] == r[j] && t[j] in r;
    forall e | e in t && e !in r ensures 0 < limit == |r| && forall f :: f in r ==> Less(f.key, e.key) {
      var j :| 0 <= j < |t| && t[j] == e;
      assert |r| <= j;
    }
  }

  lemma {:induction false} InRangeIs(s: seq<Entry>, start: Key, end: Key, a: nat, b: nat)
    requires a <= b <= |s|
    requires forall j :: 0 <= j < a ==> Less(s[j].key, start)
    requires forall j :: a <= j < b ==> !Less(s[j].key, start) && (end == [] || Less(s[j].key, end))
    requires end == [] ==> b == |s|
    requires forall j :: b <= j < |s| ==> !Less(s[j].key, end)
    ensures InRange(s, start, end) == s[a..b]
    decreases |s|
  {
    if s != [] {
      if 0 < a {
        InRangeIs(s[1..], start, end, a - 1, b - 1);
      } else if 0 < b {
        InRangeIs(s[1..], start, end, 0, b - 1);
        assert s[0..b] == [s[0]] + s[1..][0..b - 1];
      } else {
        InRangeIs(s[1..], start, end, 0, 0);
      }
    }
  }

  /** A walk from position a that stops at c, for the limit, the end key or the end of the list. */
  lemma ScanIsCut(s: seq<Entry>, start: Key, end: Key, limit: int, a: nat, c: nat)
    requires Sorted(s) && SplitsAt(s, start, a) && a <= c <= |s|
    requires forall j :: a <= j < c ==> end == [] || Less(s[j].key, end)
    requires limit > 0 ==> c - a <= limit
    requires c == |s| || (end != [] && !Less(s[c].key, end)) || (limit > 0 && c - a == limit)
    ensures s[a..c] == Cut(InRange(s, start, end), limit)
  {
    var b := RangeEnd(s, end, c);
    InRangeIs(s, start, end, a, b);
    TakeOfSlice(s, a, c, b);
    if c != b {
      assert limit > 0 && c - a == limit;
    }
  }

  lemma TakeOfSlice<T>(s: seq<T>, a: nat, c: nat, b: nat)
    requires a <= c <= b <= |s|
    ensures s[a..b][..c - a] == s[a..c]
  {
    forall i | 0 <= i < c - a ensures s[a..b][..c - a][i] == s[a..c][i] {}
  }

  lemma {:induction false} RangeEnd(s: seq<Entry>, end: Key, c: nat) returns (b: nat)
    requires Sorted(s) && c <= |s|
    ensures c <= b <= |s|
    ensures forall j :: c <= j < b ==> end == [] || Less(s[j].key, end)
    ensures end == [] ==> b == |s|
    ensures forall j :: b <= j < |s| ==> !Less(s[j].key, end)
    ensures c < |s| && end != [] && !Less(s[c].key, end) ==> b == c
    decreases |s| - c
  {
    if c == |s| {
      b := c;
    } else if end != [] && !Less(s[c].key, end) {
      b := c;
      forall j | c <= j < |s| ensures !Less(s[j].key, end) {
        NotLessThenLess(end, s[c].key, s[j].key);
      }
    } else {
      b := RangeEnd(s, end, c + 1);
    }
  }

  class Skiplist {
    const head: Node
    var level: nat
    var length: nat
    var memSize: nat

    ghost var nodes: seq<Node>
    ghost var contents: seq<Entry>  // the entries in key order
    ghost var firstLens: seq<nat>   // length of the value each key was first inserted with
    ghost var charges: seq<nat>     // what each key adds to memSize
    ghost var Repr: set<object>

    ghost predicate Valid()
      reads this, Repr
      ensures Valid() ==> this in Repr
    {
      && this in Repr
      && Within(nodes, Repr) && Distinct(nodes)
      && Shaped(nodes, level) && nodes[0] == head && length == |contents|
      && Linked(nodes)
      && Holds(nodes, contents) && Sorted(contents)
      && Charged(contents, firstLens, charges) && memSize == Sum(charges)
    }

    constructor ()
      ensures Valid() && fresh(Repr)
      ensures contents == [] && memSize == 0 && head.forward.Length == 33
    {
      var h := new Node(MAX_LEVEL, Entry([], [], 0, false));
      head := h;
      level, length, memSize := 0, 0, 0;
      nodes, contents, firstLens, charges := [h], [], [], [];
      Repr := {this, h, h.forward};
    }

    lemma StopSplits(key: Key, c: nat)
      requires Sorted(contents) && c <= |contents|
      requires c == 0 || Less(contents[c - 1].key, key)
      requires c < |contents| ==> !Less(contents[c].key, key)
      ensures SplitsAt(contents, key, c)
    {
      forall j | c <= j < |contents| ensures !Less(contents[j].key, key) {
        NotLessThenLess(key, contents[c].key, contents[j].key);
      }
      forall j | 0 <= j < c ensures Less(contents[j].key, key) {
        if j < c - 1 { LessTransitive(contents[j].key, contents[c - 1].key, key); }
      }
    }

    /** Position q is where level l was left: its next node on that level is not below the key. */
    ghost predicate Passed(key: Key, q: nat, l: nat)
      reads this
      requires |contents| == |nodes| - 1
    {
      && q < |nodes| && l < nodes[q].forward.Length
      && (var k := NextAt(nodes, q, l); k < |nodes| ==> !Less(contents[k - 1].key, key))
    }

    lemma PassedIsPrev(key: Key, q: nat, l: nat, p: nat)
      requires |contents| == |nodes| - 1 && Shaped(nodes, level) && l <= MAX_LEVEL
      requires Passed(key, q, l) && q < p && SplitsAt(contents, key, p - 1)
      ensures q == PrevAt(nodes, p, l)
    {
      assert NextAt(nodes, q, l) >= p;
    }

    /** Every level above i was left at a position up to c. */
    ghost predicate LeftAt(key: Key, last: seq<nat>, i: int, c: nat)
      reads this
      requires |contents| == |nodes| - 1 && level <= MAX_LEVEL
    {
      && |last| == MAX_LEVEL + 1
      && forall l: nat :: i < l <= level ==> last[l] <= c && Passed(key, last[l], l)
    }

    lemma LeftAtBottom(key: Key, last: seq<nat>, c: nat)
      requires Shaped(nodes, level) && |contents| == |nodes| - 1 && Sorted(contents) && c <= |contents|
      requires c == 0 || Less(contents[c - 1].key, key)
      requires LeftAt(key, last, -1, c) && last[0] == c
      ensures SplitsAt(contents, key, c)
      ensures forall l: nat :: l <= level ==> last[l] == PrevAt(nodes, c + 1, l)
    {
      assert Passed(key, last[0], 0);
      NextBottom(nodes, level, c);
      StopSplits(key, c);
      forall l: nat | l <= level ensures last[l] == PrevAt(nodes, c + 1, l) {
        PassedIsPrev(key, last[l], l, c + 1);
      }
    }

    /**
     * The descent shared by Put, Delete, findNode, Get and Scan: from the top level down, advance
     * while the next key is below `key`, remembering the last node of every level.
     */
    method Descend(key: Key) returns (cur: Node, update: seq<Node?>, ghost p: nat)
      requires Valid()
      ensures |update| == MAX_LEVEL + 1
      ensures 1 <= p && SplitsAt(contents, key, p - 1) && cur == nodes[p - 1]
      ensures forall i :: 0 <= i <= level ==> update[i] == nodes[PrevAt(nodes, p, i)]
    {
      update := seq(MAX_LEVEL + 1, _ => null);
      cur := head;
      ghost var c: nat := 0;
      ghost var last: seq<nat> := seq(MAX_LEVEL + 1, _ => 0);
      var i := level;
      while 0 <= i
        invariant -1 <= i <= level
        invariant c < |nodes| && cur == nodes[c] && (0 <= i ==> i < cur.forward.Length)
        invariant c == 0 || Less(contents[c - 1].key, key)
        invariant LeftAt(key, last, i, c)
        invariant |update| == MAX_LEVEL + 1
        invariant forall l :: i < l <= level ==> update[l] == nodes[last[l]]
        invariant i < 0 ==> last[0] == c
      {
        while cur.forward[i] != null && Less(cur.forward[i].entry.key, key)
          invariant c < |nodes| && cur == nodes[c] && i < cur.forward.Length
          invariant c == 0 || Less(contents[c - 1].key, key)
          invariant LeftAt(key, last, i, c)
          decreases |nodes| - c
        {
          c := NextAt(nodes, c, i);
          cur := cur.forward[i];
        }
        update := update[i := cur];
        last := last[i := c];
        i := i - 1;
      }
      p := c + 1;
      LeftAtBottom(key, last, c);
    }

    /** Inserts or updates a key; `lvl` is the level drawn for a new node. */
    method Put(key: Key, value: Value, version: Int64, lvl: Level)
      requires Valid()
      modifies Repr
      ensures Valid() && fresh(Repr - old(Repr))
      ensures ToMap(contents) == old(ToMap(contents))[key := Entry(key, value, version, false)]
      ensures length == old(length) + if key in old(ToMap(contents)) then 0 else 1
      ensures memSize == old(memSize) +
              if key in old(ToMap(contents)) then 0 else |key| + |value| + 24
    {
      var e := Entry(key, value, version, false);
      var cur, update, p := Descend(key);
      assert cur.forward[0] == Target(nodes, p - 1, 0);
      NextBottom(nodes, level, p - 1);
      SplitFound(contents, key, p - 1);
      var next := cur.forward[0];
      if next != null && next.entry.key == key {
        Overwrite(next, e, p);
      } else {
        InsertNode(e, lvl, update, p);
      }
    }

    /** Rewrites the entry of an existing node in place. */
    method Overwrite(n: Node, e: Entry, ghost p: nat)
      requires Valid() && 1 <= p < |nodes| && nodes[p] == n && n.entry.key == e.key
      modifies n`entry, this`contents
      ensures Valid() && ToMap(contents) == old(ToMap(contents))[e.key := e]
    {
      ReplaceMap(contents, p - 1, e);
      n.entry := e;
      contents := contents[p - 1 := e];
    }

    /** Splices a new node in after the nodes remembered by the descent. */
    method InsertNode(e: Entry, lvl: Level, remembered: seq<Node?>, ghost p: nat)
      requires Valid() && |remembered| == MAX_LEVEL + 1
      requires 1 <= p && SplitsAt(contents, e.key, p - 1)
      requires !(p - 1 < |contents| && contents[p - 1].key == e.key)
      requires forall i :: 0 <= i <= level ==> remembered[i] == nodes[PrevAt(nodes, p, i)]
      modifies Repr
      ensures Valid() && fresh(Repr - old(Repr))
      ensures ToMap(contents) == old(ToMap(contents))[e.key := e]
      ensures length == old(length) + 1
      ensures memSize == old(memSize) + |e.key| + |e.value| + 24
    {
      var update := RaiseLevel(lvl, remembered, p);
      var n := new Node(lvl, e);
      Attach(n, update, p);
    }

    method Attach(n: Node, update: seq<Node?>, ghost p: nat)
      requires Valid() && 1 <= p && SplitsAt(contents, n.entry.key, p - 1)
      requires !(p - 1 < |contents| && contents[p - 1].key == n.entry.key)
      requires n !in Repr && n.forward !in Repr && 1 <= n.forward.Length <= level + 1
      requires |update| == MAX_LEVEL + 1
      requires forall i :: 0 <= i <= level ==> update[i] == nodes[PrevAt(nodes, p, i)]
      modifies this, Arrays(nodes), n.forward
      ensures Valid() && Repr == old(Repr) + {n, n.forward}
      ensures ToMap(contents) == old(ToMap(contents))[n.entry.key := n.entry]
      ensures length == old(length) + 1
      ensures memSize == old(memSize) + |n.entry.key| + |n.entry.value| + 24
    {
      Splice(nodes, n, update, p);
      Adopt(n, p);
      length := length + 1;
      memSize := memSize + |n.entry.key| + |n.entry.value| + 24;
    }

    /** New levels start at the head. */
    method RaiseLevel(lvl: Level, remembered: seq<Node?>, ghost p: nat) returns (update: seq<Node?>)
      requires Valid() && |remembered| == MAX_LEVEL + 1
      requires 1 <= p <= |nodes|
      requires forall i :: 0 <= i <= level ==> remembered[i] == nodes[PrevAt(nodes, p, i)]
      modifies this`level
      ensures Valid() && level == if lvl > old(level) then lvl else old(level)
      ensures |update| == MAX_LEVEL + 1
      ensures forall i :: 0 <= i <= level ==> update[i] == nodes[PrevAt(nodes, p, i)]
    {
      update := remembered;
      if lvl > level {
        for i := level + 1 to lvl + 1
          invariant |update| == MAX_LEVEL + 1
          invariant forall l :: 0 <= l < i ==> update[l] == nodes[PrevAt(nodes, p, l)]
        {
          update := update[i := head];
        }
        level := lvl;
      }
    }

    static method Splice(ghost ns: seq<Node>, n: Node, update: seq<Node?>, ghost p: nat)
      requires Distinct(ns) && 1 <= p <= |ns| && ns[0].forward.Length == MAX_LEVEL + 1 && Linked(ns)
      requires n.forward !in Arrays(ns) && n.forward.Length <= |update| <= MAX_LEVEL + 1
      requires forall i :: 0 <= i < n.forward.Length ==> update[i] == ns[PrevAt(ns, p, i)]
      modifies Arrays(ns), n.forward
      ensures Spliced(ns, n, p, n.forward.Length)
    {
      for i := 0 to n.forward.Length
        invariant Spliced(ns, n, p, i)
      {
        SpliceLevel(ns, n, update[i], i, p);
      }
    }

    static method SpliceLevel(ghost ns: seq<Node>, n: Node, prev: Node, i: nat, ghost p: nat)
      requires Distinct(ns) && 1 <= p <= |ns| && ns[0].forward.Length == MAX_LEVEL + 1
      requires n.forward !in Arrays(ns) && i < n.forward.Length <= MAX_LEVEL + 1
      requires Spliced(ns, n, p, i) && prev == ns[PrevAt(ns, p, i)]
      modifies Arrays(ns), n.forward
      ensures Spliced(ns, n, p, i + 1)
    {
      ghost var q := PrevAt(ns, p, i);
      assert prev.forward[i] == SplicedTarget(ns, n, p, i, q, i);
      n.forward[i] := prev.forward[i];
      prev.forward[i] := n;
      forall j, l | 0 <= j < |ns| && 0 <= l < ns[j].forward.Length
        ensures ns[j].forward[l] == SplicedTarget(ns, n, p, i + 1, j, l)
      {
        assert old(ns[j].forward[l]) == SplicedTarget(ns, n, p, i, j, l);
        assert ns[j].forward in Arrays(ns);
        assert j != q ==> ns[j].forward != prev.forward;
      }
    }

    /** Brings the ghost view in line with a spliced node. */
    ghost method Adopt(n: Node, p: nat)
      requires 1 <= p <= |nodes| && Within(nodes, Repr) && Distinct(nodes) && Shaped(nodes, level)
      requires SplitsAt(contents, n.entry.key, p - 1)
      requires !(p - 1 < |contents| && contents[p - 1].key == n.entry.key)
      requires Holds(nodes, contents) && Sorted(contents) && Charged(contents, firstLens, charges)
      requires n !in Repr && n.forward !in Repr && 1 <= n.forward.Length <= level + 1
      requires Spliced(nodes, n, p, n.forward.Length)
      modifies this`nodes, this`contents, this`firstLens, this`charges, this`Repr
      ensures Within(nodes, Repr) && Distinct(nodes) && Shaped(nodes, level) && Linked(nodes)
      ensures nodes[0] == old(nodes[0]) && Repr == old(Repr) + {n, n.forward}
      ensures Holds(nodes, contents) && Sorted(contents) && Charged(contents, firstLens, charges)
      ensures Sum(charges) == old(Sum(charges)) + |n.entry.key| + |n.entry.value| + 24
      ensures ToMap(contents) == old(ToMap(contents))[n.entry.key := n.entry]
      ensures |contents| == old(|contents|) + 1
    {
      InsertedHolds(nodes, p, n, contents);
      AdoptEntry(n.entry, p - 1);
      AdoptNode(n, p);
    }

    /** Takes a spliced node into the node list. */
    ghost method AdoptNode(n: Node, p: nat)
      requires 1 <= p <= |nodes| && Within(nodes, Repr) && Distinct(nodes) && Shaped(nodes, level)
      requires n !in Repr && n.forward !in Repr && 1 <= n.forward.Length <= level + 1
      requires Spliced(nodes, n, p, n.forward.Length)
      modifies this`nodes, this`Repr
      ensures nodes == Inserted(old(nodes), p, n) && Repr == old(Repr) + {n, n.forward}
      ensures Within(nodes, Repr) && Distinct(nodes) && Shaped(nodes, level) && Linked(nodes)
    {
      SplicedLinks(nodes, n, p, level);
      InsertedParts(nodes, p, n, level, Repr);
      nodes, Repr := Inserted(nodes, p, n), Repr + {n, n.forward};
    }

    /** Takes its entry into the contents and the accounts. */
    ghost method AdoptEntry(e: Entry, a: nat)
      requires Sorted(contents) && SplitsAt(contents, e.key, a)
      requires !(a < |contents| && contents[a].key == e.key)
      requires Charged(contents, firstLens, charges)
      modifies this`contents, this`firstLens, this`charges
      ensures contents == old(contents[..a] + [e] + contents[a..]) && Sorted(contents)
      ensures Charged(contents, firstLens, charges)
      ensures Sum(charges) == old(Sum(charges)) + Charge(e)
      ensures ToMap(contents) == old(ToMap(contents))[e.key := e]
    {
      InsertMap(contents, a, e);
      InsertedCharges(contents, firstLens, charges, a, e);
      contents, firstLens, charges := contents[..a] + [e] + contents[a..],
        firstLens[..a] + [|e.value|] + firstLens[a..], charges[..a] + [Charge(e)] + charges[a..];
    }

    /** Marks a key as deleted; a key that is not there gets a fresh tombstone. */
    method Delete(key: Key, version: Int64, lvl: Level)
      requires Valid()
      modifies Repr
      ensures Valid() && fresh(Repr - old(Repr))
      ensures var m := old(ToMap(contents));
        ToMap(contents) == m[key := Entry(key, if key in m then m[key].value else [], version, true)]
      ensures length == old(length) + if key in old(ToMap(contents)) then 0 else 1
      ensures memSize == old(memSize) + if key in old(ToMap(contents)) then 0 else |key| + 24
    {
      var n, p := FindNode(key);
      if n != null {
        Overwrite(n, n.entry.(deleted := true, version := version), p);
        return;
      }
      PutTombstone(key, version, lvl);
    }

    method PutTombstone(key: Key, version: Int64, lvl: Level)
      requires Valid() && key !in ToMap(contents)
      modifies Repr
      ensures Valid() && fresh(Repr - old(Repr))
      ensures ToMap(contents) == old(ToMap(contents))[key := Entry(key, [], version, true)]
      ensures length == old(length) + 1 && memSize == old(memSize) + |key| + 24
    {
      Put(key, [], version, lvl);
      MarkDeleted(key);
    }

    method MarkDeleted(key: Key)
      requires Valid() && key in ToMap(contents)
      modifies Repr
      ensures Valid() && Repr == old(Repr) && length == old(length) && memSize == old(memSize)
      ensures ToMap(contents) == old(ToMap(contents)[key := ToMap(contents)[key].(deleted := true)])
    {
      var n, p := FindNode(key);
      Overwrite(n, n.entry.(deleted := true), p);
    }

    method FindNode(key: Key) returns (n: Node?, ghost p: nat)
      requires Valid()
      ensures n == null <==> key !in ToMap(contents)
      ensures n != null ==> 1 <= p < |nodes| && n == nodes[p] && n.entry == ToMap(contents)[key]
      ensures n != null ==> n.entry.key == key
    {
      var cur, update;
      cur, update, p := Descend(key);
      assert cur.forward[0] == Target(nodes, p - 1, 0);
      NextBottom(nodes, level, p - 1);
      SplitFound(contents, key, p - 1);
      n := cur.forward[0];
      if n != null && n.entry.key != key {
        n := null;
      }
    }

    method Get(key: Key) returns (r: Option<Entry>)
      requires Valid()
      ensures r == if key in ToMap(contents) then Some(ToMap(contents)[key]) else None
    {
      var n, p := FindNode(key);
      r := if n != null then Some(n.entry) else None;
    }

    /** Entries with start <= key, and key < end unless end is empty, cut at a positive limit. */
    method Scan(start: Key, end: Key, limit: int) returns (results: seq<Entry>)
      requires Valid()
      ensures results == Cut(InRange(contents, start, end), limit)
      ensures FirstAsked(results, contents, start, end, limit)
    {
      var cur, update, p := Descend(start);
      assert cur.forward[0] == Target(nodes, p - 1, 0);
      NextBottom(nodes, level, p - 1);
      ghost var c;
      results, c := Walk(cur.forward[0], end, limit, p);
      ScanIsCut(contents, start, end, limit, p - 1, c - 1);
      ScanIsFirst(contents, start, end, limit);
    }

    /** Gathers entries along level 0 until the end key, the limit or the end of the list. */
    method Walk(from: Node?, end: Key, limit: int, ghost p: nat) returns (results: seq<Entry>, ghost c: nat)
      requires Valid() && 1 <= p <= |nodes| && from == (if p < |nodes| then nodes[p] else null)
      ensures p <= c <= |nodes| && results == contents[p - 1..c - 1]
      ensures forall j :: p - 1 <= j < c - 1 ==> end == [] || Less(contents[j].key, end)
      ensures limit > 0 ==> c - p <= limit
      ensures c == |nodes| || (end != [] && !Less(contents[c - 1].key, end)) || (limit > 0 && c - p == limit)
    {
      results := [];
      var n := from;
      c := p;
      while n != null
        invariant p <= c <= |nodes| && n == (if c < |nodes| then nodes[c] else null)
        invariant results == contents[p - 1..c - 1]
        invariant forall j :: p - 1 <= j < c - 1 ==> end == [] || Less(contents[j].key, end)
        invariant limit > 0 ==> |results| <= limit
        decreases |nodes| - c
      {
        if end != [] && !Less(n.entry.key, end) { break; }
        if limit > 0 && |results| >= limit { break; }
        results := results + [n.entry];
        assert n.forward[0] == Target(nodes, c, 0);
        NextBottom(nodes, level, c);
        n := n.forward[0];
        c := c + 1;
      }
    }

    /** Every entry in key order. */
    method All() returns (entries: seq<Entry>)
      requires Valid()
      ensures entries == contents
    {
      entries := [];
      assert head.forward[0] == Target(nodes, 0, 0);
      NextBottom(nodes, level, 0);
      var n := head.forward[0];
      ghost var c := 1;
      while n != null
        invariant 1 <= c <= |nodes| && n == (if c < |nodes| then nodes[c] else null)
        invariant entries == contents[..c - 1]
        decreases |nodes| - c
      {
        entries := entries + [n.entry];
        assert n.forward[0] == Target(nodes, c, 0);
        NextBottom(nodes, level, c);
        n := n.forward[0];
        c := c + 1;
      }
    }
  }

  // ---- The levels as linked lists ----

  /** The nodes of a list that reach level i. */
  ghost function Reaching(ns: seq<Node>, i: nat): seq<Node> {
    if ns == [] then []
    else (if i < ns[0].forward.Length then [ns[0]] else []) + Reaching(ns[1..], i)
  }

  /** Following level-i pointers from n visits exactly `path` and then stops. */
  ghost predicate Visits(n: Node, i: nat, path: seq<Node>)
    reads n.forward, Arrays(path)
    decreases |path|
  {
    && i < n.forward.Length
    && if path == [] then n.forward[i] == null
       else
         assert path[0].forward in Arrays(path);
         assert forall j :: 0 <= j < |path[1..]| ==> path[1..][j] == path[j + 1];
         n.forward[i] == path[0] && Visits(path[0], i, path[1..])
  }

  lemma {:induction false} VisitsFrom(ns: seq<Node>, j: nat, i: nat)
    requires Linked(ns) && j < |ns| && i < ns[j].forward.Length
    ensures Visits(ns[j], i, Reaching(ns[j + 1..], i))
    decreases |ns| - j
  {
    var k := NextAt(ns, j, i);
    assert ns[j].forward[i] == Target(ns, j, i);
    SkipUnreached(ns, j + 1, k, i);
    if k < |ns| {
      var path := Reaching(ns[k..], i);
      assert ns[k..][1..] == ns[k + 1..];
      VisitsFrom(ns, k, i);
      assert path == [ns[k]] + Reaching(ns[k + 1..], i);
      assert path[1..] == Reaching(ns[k + 1..], i);
    }
  }

  lemma {:induction false} SkipUnreached(ns: seq<Node>, a: nat, k: nat, i: nat)
    requires a <= k <= |ns|
    requires forall x :: a <= x < k ==> ns[x].forward.Length <= i
    ensures Reaching(ns[a..], i) == Reaching(ns[k..], i)
    decreases k - a
  {
    if a < k {
      assert ns[a..][1..] == ns[a + 1..];
      SkipUnreached(ns, a + 1, k, i);
    }
  }

  lemma {:induction false} ReachingSublist(ns: seq<Node>, i: nat)
    ensures Subsequence(Reaching(ns, i + 1), Reaching(ns, i))
    decreases |ns|
  {
    if ns != [] {
      ReachingSublist(ns[1..], i);
      var s, t := Reaching(ns[1..], i + 1), Reaching(ns[1..], i);
      SubsequenceCons(s, t, ns[0]);
      assert [] + s == s && [] + t == t;
    }
  }

  ghost predicate Ascending(ns: seq<Node>)
    reads ns
  {
    forall a, b :: 0 <= a < b < |ns| ==> Less(ns[a].entry.key, ns[b].entry.key)
  }

  lemma {:induction false} ReachingSorted(ns: seq<Node>, i: nat)
    requires Ascending(ns)
    ensures forall n :: n in Reaching(ns, i) ==> n in ns
    ensures Ascending(Reaching(ns, i))
    decreases |ns|
  {
    if ns != [] {
      ReachingSorted(ns[1..], i);
      var r := Reaching(ns[1..], i);
      forall n | n in r ensures n in ns[1..] && Less(ns[0].entry.key, n.entry.key) {
        var x :| 0 <= x < |ns[1..]| && ns[1..][x] == n;
        assert ns[x + 1] == n;
      }
      if i < ns[0].forward.Length {
        AscendingCons(ns[0], r);
      } else {
        assert Reaching(ns, i) == r;
      }
    }
  }

  lemma AscendingCons(n: Node, r: seq<Node>)
    requires Ascending(r) && forall x :: x in r ==> Less(n.entry.key, x.entry.key)
    ensures Ascending([n] + r)
  {
    var whole := [n] + r;
    forall a, b | 0 <= a < b < |whole| ensures Less(whole[a].entry.key, whole[b].entry.key) {
      assert whole[b] == r[b - 1] && r[b - 1] in r;
      assert 0 < a ==> whole[a] == r[a - 1];
    }
  }

  /**
   * In every valid skiplist the pointers of each level, followed from the head, form a finite
   * strictly sorted list that ends in nil, holding every node that reaches the level; the list one
   * level up is a sublist of it, and level 0 holds every node.
   */
  lemma LevelsNest(s: Skiplist, i: nat)
    requires s.Valid() && i <= MAX_LEVEL
    ensures Visits(s.head, i, Reaching(s.nodes[1..], i))
    ensures Ascending(Reaching(s.nodes[1..], i))
    ensures Subsequence(Reaching(s.nodes[1..], i + 1), Reaching(s.nodes[1..], i))
    ensures Reaching(s.nodes[1..], 0) == s.nodes[1..]
  {
    var ns := s.nodes[1..];
    forall a, b | 0 <= a < b < |ns| ensures Less(ns[a].entry.key, ns[b].entry.key) {
      assert ns[a].entry == s.contents[a] && ns[b].entry == s.contents[b];
    }
    VisitsFrom(s.nodes, 0, i);
    ReachingSorted(ns, i);
    ReachingSublist(ns, i);
    ReachingAll(ns);
  }

  lemma {:induction false} ReachingAll(ns: seq<Node>)
    requires forall j :: 0 <= j < |ns| ==> 0 < ns[j].forward.Length
    ensures Reaching(ns, 0) == ns
    decreases |ns|
  {
    if ns != [] { ReachingAll(ns[1..]); assert ns == [ns[0]] + ns[1..]; }
  }

  /** The length field counts the distinct keys. */
  lemma LengthCountsKeys(s: Skiplist)
    requires s.Valid()
    ensures s.length == |ToMap(s.contents)|
  {
    MapCount(s.contents);
  }

  lemma {:induction false} MapCount(s: seq<Entry>)
    requires Sorted(s)
    ensures |ToMap(s)| == |s|
    decreases |s|
  {
    if s != [] {
      TailMap(s);
      MapCount(s[1..]);
      assert ToMap(s).Keys == ToMap(s[1..]).Keys + {s[0].key};
      assert |ToMap(s).Keys| == |ToMap(s[1..]).Keys| + 1;
    }
  }
}
