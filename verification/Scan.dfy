/** Range scans over the layers, without and with a limit. */
module ScanModel {
  import opened Core
  import opened SkiplistModel
  import opened CompactionModel

  /** What a scan takes from one layer. */
  function Slice(list: seq<Entry>, prefix: Key, limit: int): seq<Entry> {
    Cut(InRange(list, prefix, []), limit)
  }

  function Slices(lists: seq<seq<Entry>>, prefix: Key, limit: int): (r: seq<Layer>)
    ensures |r| == |lists| && forall i :: 0 <= i < |r| ==> r[i] == ToMap(Slice(lists[i], prefix, limit))
  {
    seq(|lists|, i requires 0 <= i < |lists| => ToMap(Slice(lists[i], prefix, limit)))
  }

  lemma SliceDistinct(list: seq<Entry>, prefix: Key, limit: int)
    requires Sorted(list)
    ensures DistinctKeys(Slice(list, prefix, limit))
  {
    var a := SliceIs(list, prefix, limit);
    SortedKeysDistinct(list);
  }

  lemma PartsAreSlices(parts: seq<seq<Entry>>, lists: seq<seq<Entry>>, prefix: Key, limit: int)
    requires |parts| == |lists| && forall i :: 0 <= i < |lists| ==> Sorted(lists[i])
    requires forall i :: 0 <= i < |parts| ==> parts[i] == Slice(lists[i], prefix, limit)
    ensures Maps(parts) == Slices(lists, prefix, limit)
  {
  }

  lemma {:induction false} SlicesAll(lists: seq<seq<Entry>>, prefix: Key, k: Key)
    requires forall i :: 0 <= i < |lists| ==> Sorted(lists[i])
    ensures Lookup(Slices(lists, prefix, 0), k) ==
      if Less(k, prefix) then None else Lookup(Maps(lists), k)
  {
    if lists != [] {
      SliceHas(lists[0], prefix, 0, k);
      SlicesAll(lists[1..], prefix, k);
      assert Slices(lists, prefix, 0)[1..] == Slices(lists[1..], prefix, 0);
      assert Maps(lists)[1..] == Maps(lists[1..]);
    }
  }

  lemma {:induction false} LookupAppend(tables: seq<Layer>, last: Layer, k: Key)
    ensures Lookup(tables + [last], k) ==
      if Lookup(tables, k).Some? then Lookup(tables, k) else if k in last then Some(last[k]) else None
  {
    if tables == [] {
      assert tables + [last] == [last] && [last][1..] == [];
    } else {
      assert (tables + [last])[1..] == tables[1..] + [last];
      LookupAppend(tables[1..], last, k);
    }
  }

  /** The map a scan has gathered: for every key, the entry of the first slice holding it. */
  ghost predicate Gathered(seen: Layer, slices: seq<Layer>) {
    forall k :: if k in seen then Lookup(slices, k) == Some(seen[k]) else Lookup(slices, k).None?
  }

  ghost predicate KeyedBy(m: Layer) {
    forall k :: k in m ==> m[k].key == k
  }

  /** Adds the entries whose key has not been seen yet. */
  method AddEntries(seen: Layer, entries: seq<Entry>) returns (r: Layer)
    requires KeyedBy(seen)
    ensures r == ToMap(entries) + seen && KeyedBy(r)
  {
    r := seen;
    for i := 0 to |entries|
      invariant r == ToMap(entries[..i]) + seen && KeyedBy(r)
    {
      assert entries[..i + 1] == entries[..i] + [entries[i]];
      ConcatMap(entries[..i], [entries[i]]);
      assert ToMap([entries[i]]) == map[entries[i].key := entries[i]];
      if entries[i].key !in r {
        r := r[entries[i].key := entries[i]];
      }
    }
    assert entries[..|entries|] == entries;
  }

  /** A result list holds, once each, exactly the keys a read of the slices finds, with that entry. */
  ghost predicate Shows(results: seq<Entry>, slices: seq<Layer>) {
    && DistinctKeys(results)
    && forall k :: if k in ToMap(results)
                   then Lookup(slices, k) == Some(ToMap(results)[k]) && !ToMap(results)[k].deleted
                   else Visible(Lookup(slices, k)).None?
  }

  lemma ShowsIs(results: seq<Entry>, slices: seq<Layer>, k: Key)
    requires Shows(results, slices)
    ensures (if k in ToMap(results) then Visible(Some(ToMap(results)[k])) else None) == Visible(Lookup(slices, k))
  {
  }

  /** Gathers what the layers returned, first layer first, and drops tombstones. */
  method Gather(parts: seq<seq<Entry>>) returns (results: seq<Entry>)
    ensures Shows(results, Maps(parts))
  {
    var seen: Layer := map[];
    ghost var slices := Maps(parts);
    assert slices[..0] == [];
    for i := 0 to |parts|
      invariant Gathered(seen, slices[..i]) && KeyedBy(seen)
    {
      seen := AddEntries(seen, parts[i]);
      assert slices[..i + 1] == slices[..i] + [slices[i]];
      forall k
        ensures if k in seen then Lookup(slices[..i + 1], k) == Some(seen[k])
                else Lookup(slices[..i + 1], k).None?
      {
        LookupAppend(slices[..i], slices[i], k);
      }
    }
    assert slices[..|parts|] == slices;
    results := LiveValues(seen);
  }

  /** The entries of the map that are not tombstones, in any order. */
  method LiveValues(seen: Layer) returns (results: seq<Entry>)
    requires KeyedBy(seen)
    ensures DistinctKeys(results)
    ensures ToMap(results) == LiveMap(seen)
  {
    results := [];
    var rest := seen.Keys;
    while rest != {}
      invariant rest <= seen.Keys && DistinctKeys(results)
      invariant ToMap(results) == map k | k in seen && k !in rest && !seen[k].deleted :: seen[k]
    {
      var k :| k in rest;
      if !seen[k].deleted {
        AppendDistinct(results, seen[k]);
        AppendMap(results, seen[k]);
        results := results + [seen[k]];
      }
      rest := rest - {k};
    }
  }

  /**
   * An unlimited scan holds exactly the keys at or above the prefix that a read finds, each once and
   * with the entry the read returns.
   */
  lemma UnlimitedScanAgreesWithReads(lists: seq<seq<Entry>>, prefix: Key, results: seq<Entry>, k: Key)
    requires forall i :: 0 <= i < |lists| ==> Sorted(lists[i])
    requires Shows(results, Slices(lists, prefix, 0))
    ensures k in ToMap(results) <==> !Less(k, prefix) && Visible(Lookup(Maps(lists), k)).Some?
    ensures k in ToMap(results) ==> Lookup(Maps(lists), k) == Some(ToMap(results)[k])
  {
    SlicesAll(lists, prefix, k);
  }

  // ---- With a limit ----

  /** How many entries of a layer a scan meets before it comes to k. */
  function Ahead(list: seq<Entry>, prefix: Key, k: Key): nat {
    if list == [] then 0
    else
      var e := list[|list| - 1];
      Ahead(list[..|list| - 1], prefix, k) + if !Less(e.key, prefix) && Less(e.key, k) then 1 else 0
  }

  lemma {:induction false} AheadIs(list: seq<Entry>, prefix: Key, k: Key, a: nat, i: nat)
    requires a <= i <= |list| && forall j :: 0 <= j < a ==> Less(list[j].key, prefix)
    requires forall j :: a <= j < i ==> !Less(list[j].key, prefix) && Less(list[j].key, k)
    requires forall j :: i <= j < |list| ==> !Less(list[j].key, k)
    ensures Ahead(list, prefix, k) == i - a
  {
    if list != [] {
      var n := |list| - 1;
      AheadIs(list[..n], prefix, k, if a <= n then a else n, if i <= n then i else n);
    }
  }

  /** The layer holds k at or above the prefix, but behind the cut. */
  ghost predicate Clipped(list: seq<Entry>, prefix: Key, limit: int, k: Key) {
    k in ToMap(list) && !Less(k, prefix) && 0 < limit <= Ahead(list, prefix, k)
  }

  lemma SplitOf(s: seq<Entry>, key: Key) returns (a: nat)
    requires Sorted(s)
    ensures SplitsAt(s, key, a)
  {
    a := 0;
    while a < |s| && Less(s[a].key, key)
      invariant a <= |s| && forall j :: 0 <= j < a ==> Less(s[j].key, key)
    {
      a := a + 1;
    }
    SplitHere(s, key, a);
  }

  lemma SliceIs(list: seq<Entry>, prefix: Key, limit: int) returns (a: nat)
    requires Sorted(list)
    ensures SplitsAt(list, prefix, a) && Slice(list, prefix, limit) == Cut(list[a..], limit)
  {
    a := SplitOf(list, prefix);
    InRangeIs(list, prefix, [], a, |list|);
    assert list[a..|list|] == list[a..];
  }

  /** A slice holds exactly the keys at or above the prefix that are not clipped. */
  lemma SliceHas(list: seq<Entry>, prefix: Key, limit: int, k: Key)
    requires Sorted(list)
    ensures var m := ToMap(Slice(list, prefix, limit));
      && (k in m <==> k in ToMap(list) && !Less(k, prefix) && !Clipped(list, prefix, limit, k))
      && (k in m ==> m[k] == ToMap(list)[k])
  {
    var a := SliceIs(list, prefix, limit);
    var r := Cut(list[a..], limit);
    if k in ToMap(r) {
      var j := ToMapFrom(r, k);
      assert r[j] == list[a + j];
      ToMapAt(list, a + j);
      PlaceOf(list, prefix, k, a, a + j);
    }
    if k in ToMap(list) && !Less(k, prefix) {
      var i := ToMapFrom(list, k);
      assert a <= i;
      PlaceOf(list, prefix, k, a, i);
      if i - a < |r| {
        assert r[i - a] == list[i];
        ToMapHas(r, i - a);
      }
    }
  }

  lemma PlaceOf(list: seq<Entry>, prefix: Key, k: Key, a: nat, i: nat)
    requires Sorted(list) && SplitsAt(list, prefix, a) && a <= i < |list| && list[i].key == k
    ensures Ahead(list, prefix, k) == i - a
  {
    LessIrreflexive(k);
    forall j | i < j < |list| ensures !Less(list[j].key, k) { LessAsymmetric(k, list[j].key); }
    AheadIs(list, prefix, k, a, i);
  }

  /** Layer f is the first to hold k. */
  ghost predicate FirstHolder(lists: seq<seq<Entry>>, k: Key, f: nat) {
    f < |lists| && k in ToMap(lists[f]) && forall j :: 0 <= j < f ==> k !in ToMap(lists[j])
  }

  /** The first layer holding k has it before its cut, or the layers behind it show the same. */
  ghost predicate ScanAgrees(lists: seq<seq<Entry>>, prefix: Key, limit: int, k: Key) {
    forall f: nat :: FirstHolder(lists, k, f) ==>
      !Clipped(lists[f], prefix, limit, k) ||
      Visible(Lookup(Slices(lists[f + 1..], prefix, limit), k)) == Visible(Some(ToMap(lists[f])[k]))
  }

  /** What a scan and a read find of k, from the first layer holding it on. */
  lemma {:induction false} FromFirstHolder(lists: seq<seq<Entry>>, prefix: Key, limit: int, k: Key, f: nat)
    requires (forall i :: 0 <= i < |lists| ==> Sorted(lists[i])) && !Less(k, prefix) && FirstHolder(lists, k, f)
    ensures Lookup(Maps(lists), k) == Some(ToMap(lists[f])[k])
    ensures Lookup(Slices(lists, prefix, limit), k) ==
      if Clipped(lists[f], prefix, limit, k) then Lookup(Slices(lists[f + 1..], prefix, limit), k)
      else Some(ToMap(lists[f])[k])
    decreases |lists|
  {
    var rest := lists[1..];
    SliceHas(lists[0], prefix, limit, k);
    assert Slices(lists, prefix, limit)[1..] == Slices(rest, prefix, limit);
    assert Maps(lists)[1..] == Maps(rest);
    if f > 0 {
      assert lists[0] != lists[f] && k !in ToMap(lists[0]);
      assert forall j :: 0 <= j < |rest| ==> rest[j] == lists[j + 1];
      FromFirstHolder(rest, prefix, limit, k, f - 1);
      assert rest[f..] == lists[f + 1..];
    }
  }

  lemma {:induction false} NoHolder(lists: seq<seq<Entry>>, prefix: Key, limit: int, k: Key)
    requires forall i :: 0 <= i < |lists| ==> Sorted(lists[i]) && k !in ToMap(lists[i])
    ensures Lookup(Maps(lists), k).None? && Lookup(Slices(lists, prefix, limit), k).None?
    decreases |lists|
  {
    if lists != [] {
      SliceHas(lists[0], prefix, limit, k);
      NoHolder(lists[1..], prefix, limit, k);
      assert Slices(lists, prefix, limit)[1..] == Slices(lists[1..], prefix, limit);
      assert Maps(lists)[1..] == Maps(lists[1..]);
    }
  }

  /**
   * A scan with any limit shows of a key at or above its prefix what a read shows exactly when the
   * first layer holding the key has it before its own cut, or the layers behind show the same by chance.
   */
  lemma LimitedScanExact(lists: seq<seq<Entry>>, prefix: Key, limit: int, k: Key)
    requires (forall i :: 0 <= i < |lists| ==> Sorted(lists[i])) && !Less(k, prefix)
    ensures Visible(Lookup(Slices(lists, prefix, limit), k)) == Visible(Lookup(Maps(lists), k))
            <==> ScanAgrees(lists, prefix, limit, k)
  {
    if f: nat :| FirstHolder(lists, k, f) {
      FromFirstHolder(lists, prefix, limit, k, f);
      AgreesAt(lists, prefix, limit, k, f);
    } else {
      forall i | 0 <= i < |lists| ensures k !in ToMap(lists[i]) {
        if k in ToMap(lists[i]) { var f := FirstOf(lists, k, i); }
      }
      NoHolder(lists, prefix, limit, k);
    }
  }

  lemma AgreesAt(lists: seq<seq<Entry>>, prefix: Key, limit: int, k: Key, f: nat)
    requires FirstHolder(lists, k, f)
    ensures ScanAgrees(lists, prefix, limit, k) <==>
      !Clipped(lists[f], prefix, limit, k) ||
      Visible(Lookup(Slices(lists[f + 1..], prefix, limit), k)) == Visible(Some(ToMap(lists[f])[k]))
  {
    forall g: nat | FirstHolder(lists, k, g) ensures g == f {}
  }

  lemma {:induction false} FirstOf(lists: seq<seq<Entry>>, k: Key, i: nat) returns (f: nat)
    requires i < |lists| && k in ToMap(lists[i])
    ensures FirstHolder(lists, k, f)
  {
    if j :| 0 <= j < i && k in ToMap(lists[j]) {
      f := FirstOf(lists, k, j);
    } else {
      f := i;
    }
  }

  /** Nothing below the prefix is ever returned. */
  lemma {:induction false} BelowPrefix(lists: seq<seq<Entry>>, prefix: Key, limit: int, k: Key)
    requires (forall i :: 0 <= i < |lists| ==> Sorted(lists[i])) && Less(k, prefix)
    ensures Lookup(Slices(lists, prefix, limit), k).None?
    decreases |lists|
  {
    if lists != [] {
      SliceHas(lists[0], prefix, limit, k);
      BelowPrefix(lists[1..], prefix, limit, k);
      assert Slices(lists, prefix, limit)[1..] == Slices(lists[1..], prefix, limit);
    }
  }

  /** Each layer is strictly newer than those behind it. */
  ghost predicate StrictlyNewer(lists: seq<seq<Entry>>, k: Key) {
    forall i, j :: 0 <= i < j < |lists| && k in ToMap(lists[i]) && k in ToMap(lists[j]) ==>
      ToMap(lists[i])[k].version > ToMap(lists[j])[k].version
  }

  /** So a live key whose newest entry is clipped is never returned as a read returns it. */
  lemma ClippedLiveKeyIsWrong(lists: seq<seq<Entry>>, prefix: Key, limit: int, k: Key, f: nat)
    requires (forall i :: 0 <= i < |lists| ==> Sorted(lists[i])) && StrictlyNewer(lists, k)
    requires FirstHolder(lists, k, f) && Clipped(lists[f], prefix, limit, k) && !ToMap(lists[f])[k].deleted
    ensures Visible(Lookup(Slices(lists, prefix, limit), k)) != Visible(Lookup(Maps(lists), k))
  {
    FromFirstHolder(lists, prefix, limit, k, f);
    var rest := lists[f + 1..];
    var slices := Slices(rest, prefix, limit);
    if Lookup(slices, k).Some? {
      var j := LookupFrom(slices, k);
      SliceHas(rest[j], prefix, limit, k);
      assert rest[j] == lists[f + 1 + j];
    }
  }

  // ---- How many entries a limited scan returns ----

  /** The keys that some slice shows. */
  function ShownKeys(slices: seq<Layer>): set<Key> {
    set k | k in Keys(slices) && Visible(Lookup(slices, k)).Some?
  }

  lemma {:induction false} DistinctCount(s: seq<Entry>)
    requires DistinctKeys(s)
    ensures |ToMap(s).Keys| == |s|
  {
    if s != [] {
      var n := |s| - 1;
      DistinctCount(s[..n]);
      DistinctPrefix(s, n);
      assert s == s[..n] + [s[n]];
      AppendMap(s[..n], s[n]);
      assert ToMap(s).Keys == ToMap(s[..n]).Keys + {s[n].key};
    }
  }

  lemma {:induction false} KeysBound(slices: seq<Layer>, limit: nat)
    requires forall i :: 0 <= i < |slices| ==> |slices[i].Keys| <= limit
    ensures |Keys(slices)| <= limit * |slices|
  {
    if slices != [] {
      var n := |slices| - 1;
      KeysBound(slices[..n], limit);
      KeysGrow(slices);
      UnionSize(Keys(slices[..n]), slices[n].Keys);
      assert limit * |slices| == limit * n + limit;
    }
  }

  lemma KeysGrow(slices: seq<Layer>)
    requires slices != []
    ensures Keys(slices) == Keys(slices[..|slices| - 1]) + slices[|slices| - 1].Keys
  {
    var n := |slices| - 1;
    forall k | k in Keys(slices) ensures k in Keys(slices[..n]) + slices[n].Keys {
      var i :| 0 <= i < |slices| && k in slices[i];
      if i < n { assert k in slices[..n][i]; }
    }
    forall k | k in Keys(slices[..n]) ensures k in Keys(slices) {
      var i :| 0 <= i < n && k in slices[..n][i];
      assert k in slices[i];
    }
  }

  lemma UnionSize(a: set<Key>, b: set<Key>)
    ensures |a + b| <= |a| + |b|
  {
    assert a + b == a + (b - a) && b == (b - a) + (a * b);
  }

  /** A list is at most as long as the set of its keys. */
  lemma SubsetSize(a: set<Key>, b: set<Key>)
    requires a <= b
    ensures |a| <= |b|
  {
    assert b == a + (b - a);
  }

  lemma SliceSize(list: seq<Entry>, prefix: Key, limit: int)
    requires Sorted(list) && 0 < limit
    ensures |ToMap(Slice(list, prefix, limit)).Keys| <= limit
  {
    SliceDistinct(list, prefix, limit);
    DistinctCount(Slice(list, prefix, limit));
  }

  /**
   * A limited scan returns as many entries as there are keys shown by the cut layers together. So it
   * returns at most `limit` entries exactly when the cut layers show at most that many keys; every
   * layer may contribute up to `limit` of them, which bounds the result.
   */
  lemma LimitedScanSize(lists: seq<seq<Entry>>, prefix: Key, limit: int, results: seq<Entry>)
    requires forall i :: 0 <= i < |lists| ==> Sorted(lists[i])
    requires Shows(results, Slices(lists, prefix, limit))
    ensures |results| == |ShownKeys(Slices(lists, prefix, limit))|
    ensures 0 < limit ==> |results| <= limit * |lists|
  {
    var slices := Slices(lists, prefix, limit);
    DistinctCount(results);
    forall k ensures k in ToMap(results) <==> k in ShownKeys(slices) {
      if Lookup(slices, k).Some? { var i := LookupFrom(slices, k); assert k in Keys(slices); }
    }
    assert ToMap(results).Keys == ShownKeys(slices);
    if 0 < limit {
      forall i | 0 <= i < |slices| ensures |slices[i].Keys| <= limit { SliceSize(lists[i], prefix, limit); }
      KeysBound(slices, limit);
      SubsetSize(ShownKeys(slices), Keys(slices));
    }
  }

  /** With entries at or above the prefix in one layer only, the limit holds for the whole result. */
  lemma OneLayerKeepsLimit(lists: seq<seq<Entry>>, prefix: Key, limit: int, results: seq<Entry>, f: nat)
    requires (forall i :: 0 <= i < |lists| ==> Sorted(lists[i])) && 0 < limit && f < |lists|
    requires forall i, e :: 0 <= i < |lists| && i != f && e in lists[i] ==> Less(e.key, prefix)
    requires Shows(results, Slices(lists, prefix, limit))
    ensures |results| <= limit
  {
    var slices := Slices(lists, prefix, limit);
    LimitedScanSize(lists, prefix, limit, results);
    forall k | k in Keys(slices) ensures k in slices[f] {
      var i :| 0 <= i < |slices| && k in slices[i];
      SliceHas(lists[i], prefix, limit, k);
      var j := ToMapFrom(lists[i], k);
      assert lists[i][j] in lists[i];
    }
    SubsetSize(ShownKeys(slices), slices[f].Keys);
    SliceSize(lists[f], prefix, limit);
  }

  /** Two layers with one key each: a scan limited to one entry returns two. */
  lemma LimitedScanOverflows(a: Key, b: Key, results: seq<Entry>)
    requires Less(a, b)
    requires Shows(results, Slices([[Entry(a, [], 2, false)], [Entry(b, [], 1, false)]], [], 1))
    ensures |results| == 2
  {
    var one, two := [Entry(a, [], 2, false)], [Entry(b, [], 1, false)];
    LessIrreflexive(a);
    InRangeIs(one, [], [], 0, 1);
    InRangeIs(two, [], [], 0, 1);
    assert one[1..] == [] && two[1..] == [];
    var slices := Slices([one, two], [], 1);
    assert slices[0] == ToMap(one) && slices[1] == ToMap(two);
    assert ToMap(one) == map[a := one[0]] && ToMap(two) == map[b := two[0]];
    assert slices == [map[a := one[0]], map[b := two[0]]];
    LookupAppend([map[a := one[0]]], map[b := two[0]], a);
    LookupAppend([map[a := one[0]]], map[b := two[0]], b);
    assert slices == [map[a := one[0]]] + [map[b := two[0]]];
    forall k | k in Keys(slices) ensures k == a || k == b {}
    assert a in slices[0] && b in slices[1];
    assert ShownKeys(slices) == {a, b};
    LimitedScanSize([one, two], [], 1, results);
  }

  /**
   * A limit cuts each layer separately, so an entry hidden by the cut of a newer layer lets an older
   * one through: here key b is returned with version 1 although reads return version 2.
   */
  lemma LimitedScanIsStale(a: Key, b: Key)
    requires Less(a, b)
    ensures var newer, older := [Entry(a, [], 3, false), Entry(b, [], 2, false)], [Entry(b, [], 1, false)];
      && Sorted(newer) && Sorted(older)
      && Visible(Lookup(Maps([newer, older]), b)) == Some(Live([], 2))
      && Visible(Lookup(Slices([newer, older], [], 1), b)) == Some(Live([], 1))
  {
    var newer, older := [Entry(a, [], 3, false), Entry(b, [], 2, false)], [Entry(b, [], 1, false)];
    LessIrreflexive(a);
    ToMapAt(newer, 1);
    InRangeIs(newer, [], [], 0, 2);
    InRangeIs(older, [], [], 0, 1);
    assert Slice(newer, [], 1) == [newer[0]] && Slice(older, [], 1) == older;
    var slices := Slices([newer, older], [], 1);
    assert slices == [ToMap([newer[0]]), ToMap(older)];
    LookupAppend([ToMap([newer[0]])], ToMap(older), b);
    assert slices == [ToMap([newer[0]])] + [ToMap(older)];
    assert [newer[0]][1..] == [] && older[1..] == [];
  }
}
