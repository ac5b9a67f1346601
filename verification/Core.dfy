/** Keys, values and entries shared by every layer of the store. */
module Core {

  newtype byte = x: int | 0 <= x < 256

  /** Go strings and byte slices: a nil slice and an empty one are the same value here. */
  type Bytes = seq<byte>
  type Key = Bytes
  type Value = Bytes

  const TWO_32: int := 0x1_0000_0000
  const TWO_63: int := 0x8000_0000_0000_0000
  const TWO_64: int := 0x1_0000_0000_0000_0000

  type Int64 = x: int | -TWO_63 <= x < TWO_63

  datatype Option<+T> = None | Some(value: T)

  /** The record kept by the memtable, the tables and the engine alike. */
  datatype Entry = Entry(key: Key, value: Value, version: Int64, deleted: bool)

  /** What a reader can learn from an entry: the value kept under a tombstone is forgotten. */
  datatype Cell = Live(value: Value, version: Int64) | Tombstone(version: Int64)

  function CellOf(e: Entry): Cell {
    if e.deleted then Tombstone(e.version) else Live(e.value, e.version)
  }

  // ---- Sequences ----

  /** s without what lies behind a positive limit. */
  function Cut<T>(s: seq<T>, limit: int): seq<T> {
    if 0 < limit < |s| then s[..limit] else s
  }

  lemma TakeOne<T>(s: seq<T>, i: nat)
    requires i < |s|
    ensures s[..i + 1] == s[..i] + [s[i]]
  {
  }

  /** s is t with some elements left out. */
  ghost predicate Subsequence<T>(s: seq<T>, t: seq<T>)
    decreases |t|
  {
    || s == []
    || (t != [] && Subsequence(s, t[..|t| - 1]))
    || (t != [] && s[|s| - 1] == t[|t| - 1] && Subsequence(s[..|s| - 1], t[..|t| - 1]))
  }

  lemma SubsequenceAppend<T>(s: seq<T>, t: seq<T>, x: T)
    requires Subsequence(s, t)
    ensures Subsequence(s, t + [x]) && Subsequence(s + [x], t + [x])
  {
    assert (t + [x])[..|t|] == t && (s + [x])[..|s|] == s;
  }

  lemma {:induction false} SubsequenceShorter<T>(s: seq<T>, t: seq<T>)
    requires Subsequence(s, t)
    ensures |s| <= |t|
    decreases |t|
  {
    if s != [] {
      var n := |t| - 1;
      if Subsequence(s, t[..n]) {
        SubsequenceShorter(s, t[..n]);
      } else {
        SubsequenceShorter(s[..|s| - 1], t[..n]);
      }
    }
  }

  lemma {:induction false} SubsequenceCons<T>(s: seq<T>, t: seq<T>, x: T)
    requires Subsequence(s, t)
    ensures Subsequence(s, [x] + t) && Subsequence([x] + s, [x] + t)
    decreases |t|
  {
    if t == [] {
      assert Subsequence([x][..0], [x][..0]);
    } else {
      var n := |t| - 1;
      assert ([x] + t)[..n + 1] == [x] + t[..n];
      if Subsequence(s, t[..n]) {
        SubsequenceCons(s, t[..n], x);
      } else if s != [] {
        SubsequenceCons(s[..|s| - 1], t[..n], x);
        assert ([x] + s)[..|s|] == [x] + s[..|s| - 1];
      }
    }
  }

  // ---- Key order (Go compares strings byte by byte) ----

  predicate Less(a: Key, b: Key)
    decreases |a|
  {
    if b == [] then false
    else if a == [] then true
    else if a[0] != b[0] then a[0] < b[0]
    else Less(a[1..], b[1..])
  }

  /** a and b share their first n bytes; there a ends and b does not, or a's next byte is the smaller. */
  ghost predicate BelowAt(a: Key, b: Key, n: nat) {
    n < |b| && n <= |a| && a[..n] == b[..n] && (n == |a| || a[n] < b[n])
  }

  /** Keys are ordered by the first byte in which they differ, a proper prefix being the smaller key. */
  lemma {:induction false} LessExact(a: Key, b: Key)
    ensures Less(a, b) <==> exists n: nat :: BelowAt(a, b, n)
    decreases |a|
  {
    forall n: nat | 0 < n && BelowAt(a, b, n) ensures a[0] == b[0] {
      assert a[0] == a[..n][0] && b[0] == b[..n][0];
    }
    if b != [] && (a == [] || a[0] != b[0]) {
      assert BelowAt(a, b, 0) <==> Less(a, b);
    } else if b != [] {
      LessExact(a[1..], b[1..]);
      if Less(a, b) {
        var n: nat :| BelowAt(a[1..], b[1..], n);
        assert a[..n + 1] == [a[0]] + a[1..][..n] && b[..n + 1] == [b[0]] + b[1..][..n];
        assert BelowAt(a, b, n + 1);
      }
      if n: nat :| BelowAt(a, b, n) {
        assert n != 0 && a[1..][..n - 1] == a[..n][1..] && b[1..][..n - 1] == b[..n][1..];
        assert BelowAt(a[1..], b[1..], n - 1);
      }
    }
  }

  lemma {:induction false} LessIrreflexive(a: Key)
    ensures !Less(a, a)
    decreases |a|
  {
    if a != [] { LessIrreflexive(a[1..]); }
  }

  lemma {:induction false} LessTransitive(a: Key, b: Key, c: Key)
    requires Less(a, b) && Less(b, c)
    ensures Less(a, c)
    decreases |a|
  {
    if a != [] && a[0] == b[0] && b[0] == c[0] {
      LessTransitive(a[1..], b[1..], c[1..]);
    }
  }

  lemma {:induction false} LessTotal(a: Key, b: Key)
    ensures Less(a, b) || a == b || Less(b, a)
    decreases |a|
  {
    if a != [] && b != [] && a[0] == b[0] {
      LessTotal(a[1..], b[1..]);
      assert a == [a[0]] + a[1..] && b == [b[0]] + b[1..];
    }
  }

  lemma LessAsymmetric(a: Key, b: Key)
    requires Less(a, b)
    ensures !Less(b, a)
  {
    if Less(b, a) {
      LessTransitive(a, b, a);
      LessIrreflexive(a);
    }
  }

  /** If b is not below c and b is below d, then d is above c. */
  lemma NotLessThenLess(c: Key, b: Key, d: Key)
    requires !Less(b, c) && (b == d || Less(b, d))
    ensures !Less(d, c)
  {
    if b != d && Less(d, c) { LessTransitive(b, d, c); }
  }

  // ---- Strictly sorted entry lists and the maps they stand for ----

  ghost predicate Sorted(s: seq<Entry>) {
    forall i, j :: 0 <= i < j < |s| ==> Less(s[i].key, s[j].key)
  }

  lemma SortedDistinct(s: seq<Entry>, i: int, j: int)
    requires Sorted(s) && 0 <= i < |s| && 0 <= j < |s| && s[i].key == s[j].key
    ensures i == j
  {
    LessIrreflexive(s[i].key);
  }

  type Layer = map<Key, Entry>

  /** The map a list of entries stands for; the first entry of a key counts. */
  function ToMap(s: seq<Entry>): Layer {
    if s == [] then map[] else ToMap(s[1..])[s[0].key := s[0]]
  }

  lemma {:induction false} ToMapFrom(s: seq<Entry>, k: Key) returns (i: nat)
    requires k in ToMap(s)
    ensures i < |s| && s[i].key == k && ToMap(s)[k] == s[i]
    decreases |s|
  {
    if s[0].key == k {
      i := 0;
    } else {
      i := ToMapFrom(s[1..], k);
      i := i + 1;
    }
  }

  lemma {:induction false} ToMapHas(s: seq<Entry>, i: int)
    requires 0 <= i < |s|
    ensures s[i].key in ToMap(s)
    decreases |s|
  {
    if i != 0 { ToMapHas(s[1..], i - 1); }
  }

  lemma ToMapAt(s: seq<Entry>, i: int)
    requires Sorted(s) && 0 <= i < |s|
    ensures s[i].key in ToMap(s) && ToMap(s)[s[i].key] == s[i]
  {
    ToMapHas(s, i);
    var j := ToMapFrom(s, s[i].key);
    SortedDistinct(s, i, j);
  }

  /** The map of a list, read without recursion. */
  lemma ToMapIs(s: seq<Entry>, m: Layer)
    requires forall i :: 0 <= i < |s| ==> s[i].key in m && m[s[i].key] == s[i]
    requires forall k :: k in m ==> exists i :: 0 <= i < |s| && s[i].key == k
    ensures ToMap(s) == m
  {
    forall k | k in ToMap(s) ensures k in m && m[k] == ToMap(s)[k] {
      var i := ToMapFrom(s, k);
    }
    forall k | k in m ensures k in ToMap(s) {
      var i :| 0 <= i < |s| && s[i].key == k;
      ToMapHas(s, i);
    }
  }

  lemma TailMap(s: seq<Entry>)
    requires Sorted(s) && s != []
    ensures ToMap(s[1..]) == ToMap(s) - {s[0].key}
  {
    HeadNotInTail(s);
    DropAdded(ToMap(s[1..]), s[0].key, s[0]);
  }

  lemma HeadNotInTail(s: seq<Entry>)
    requires Sorted(s) && s != []
    ensures s[0].key !in ToMap(s[1..])
  {
    if s[0].key in ToMap(s[1..]) {
      var i := ToMapFrom(s[1..], s[0].key);
      SortedDistinct(s, 0, i + 1);
    }
  }

  lemma DropAdded(m: Layer, k: Key, e: Entry)
    requires k !in m
    ensures m[k := e] - {k} == m
  {
  }

  /** Position a separates the keys below `key` from the others. */
  ghost predicate SplitsAt(s: seq<Entry>, key: Key, a: nat) {
    && a <= |s|
    && (forall j :: 0 <= j < a ==> Less(s[j].key, key))
    && (forall j :: a <= j < |s| ==> !Less(s[j].key, key))
  }

  lemma SplitFound(s: seq<Entry>, key: Key, a: nat)
    requires Sorted(s) && SplitsAt(s, key, a)
    ensures key in ToMap(s) <==> a < |s| && s[a].key == key
    ensures key in ToMap(s) ==> ToMap(s)[key] == s[a]
  {
    if key in ToMap(s) {
      var i := ToMapFrom(s, key);
      LessIrreflexive(key);
      if a < i { LessAsymmetric(s[a].key, s[i].key); }
    }
    if a < |s| && s[a].key == key { ToMapAt(s, a); }
  }

  /** Replacing the entry of a key in place. */
  lemma ReplaceMap(s: seq<Entry>, a: nat, e: Entry)
    requires Sorted(s) && a < |s| && s[a].key == e.key
    ensures Sorted(s[a := e]) && ToMap(s[a := e]) == ToMap(s)[e.key := e]
  {
    var t := s[a := e];
    var m := ToMap(s)[e.key := e];
    assert forall i :: 0 <= i < |s| ==> t[i].key == s[i].key;
    forall i | 0 <= i < |t| ensures t[i].key in m && m[t[i].key] == t[i] {
      ToMapAt(s, i);
      if t[i].key == e.key { SortedDistinct(s, i, a); }
    }
    forall k | k in m ensures exists i :: 0 <= i < |t| && t[i].key == k {
      if k in ToMap(s) { var i := ToMapFrom(s, k); assert t[i].key == k; }
    }
    ToMapIs(t, m);
  }

  /** Inserting a new key at its place. */
  lemma InsertMap(s: seq<Entry>, a: nat, e: Entry)
    requires Sorted(s) && SplitsAt(s, e.key, a) && !(a < |s| && s[a].key == e.key)
    ensures Sorted(s[..a] + [e] + s[a..])
    ensures ToMap(s[..a] + [e] + s[a..]) == ToMap(s)[e.key := e]
  {
    InsertSorted(s, a, e);
    SplitFound(s, e.key, a);
    InsertMapNew(s, a, e);
  }

  lemma {:induction false} InsertMapNew(s: seq<Entry>, a: nat, e: Entry)
    requires a <= |s| && e.key !in ToMap(s)
    ensures ToMap(s[..a] + [e] + s[a..]) == ToMap(s)[e.key := e]
    decreases |s|
  {
    var t := s[..a] + [e] + s[a..];
    if a == 0 {
      assert t == [e] + s && t[1..] == s;
    } else {
      assert t[1..] == s[1..][..a - 1] + [e] + s[1..][a - 1..];
      InsertMapNew(s[1..], a - 1, e);
      assert t[0] == s[0];
    }
  }

  /** In a concatenation the first entry of a key counts. */
  lemma {:induction false} ConcatMap(s: seq<Entry>, t: seq<Entry>)
    ensures ToMap(s + t) == ToMap(t) + ToMap(s)
    decreases |s|
  {
    if s == [] {
      assert s + t == t;
    } else {
      assert (s + t)[1..] == s[1..] + t;
      ConcatMap(s[1..], t);
    }
  }

  lemma InsertSorted(s: seq<Entry>, a: nat, e: Entry)
    requires Sorted(s) && SplitsAt(s, e.key, a) && !(a < |s| && s[a].key == e.key)
    ensures Sorted(s[..a] + [e] + s[a..])
  {
    var t := s[..a] + [e] + s[a..];
    forall i | a <= i < |s| ensures Less(e.key, s[i].key) {
      LessTotal(e.key, s[i].key);
      if s[i].key == e.key && a < i { assert Less(s[a].key, s[i].key); }
    }
    forall i, j | 0 <= i < j < |t| ensures Less(t[i].key, t[j].key) {
      assert i < a ==> t[i] == s[i];
      assert i > a ==> t[i] == s[i - 1];
      assert j < a ==> t[j] == s[j];
      assert j > a ==> t[j] == s[j - 1];
    }
  }

  lemma AppendMap(s: seq<Entry>, e: Entry)
    requires e.key !in ToMap(s)
    ensures ToMap(s + [e]) == ToMap(s)[e.key := e]
  {
    assert s[..|s|] == s && s[..|s|] + [e] + s[|s|..] == s + [e];
    InsertMapNew(s, |s|, e);
  }
}
