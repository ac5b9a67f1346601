/** The FNV-1a double hash of the bloom filter; 64-bit products wrap. */
module FnvHash {
  import opened Core

  type Word64 = n: nat | n < TWO_64

  /** The two hashes of a key. */
  datatype Hasher = Hasher(h1: Bytes -> Word64, h2: Bytes -> Word64)

  const OFFSET: Word64 := 14695981039346656037
  const PRIME: nat := 1099511628211
  const MIX: nat := 0xff51_afd7_ed55_8ccd

  function Pow2(n: nat): nat {
    if n == 0 then 1 else 2 * Pow2(n - 1)
  }

  /** Exclusive or of the low n bits. */
  function XorBits(a: nat, b: nat, n: nat): (r: nat)
    ensures r < Pow2(n)
  {
    if n == 0 then 0 else 2 * XorBits(a / 2, b / 2, n - 1) + (a + b) % 2
  }

  lemma {:induction false} Pow2Add(a: nat, b: nat)
    ensures Pow2(a + b) == Pow2(a) * Pow2(b)
  {
    if a != 0 { Pow2Add(a - 1, b); }
  }

  lemma Width64()
    ensures Pow2(64) == TWO_64
  {
    assert Pow2(4) == 16;
    Pow2Add(4, 4);
    Pow2Add(8, 8);
    Pow2Add(16, 16);
    Pow2Add(32, 32);
  }

  function Xor(a: Word64, b: Word64): Word64 {
    Width64();
    XorBits(a, b, 64)
  }

  function Shift33(a: Word64): Word64 {
    a / 0x2_0000_0000
  }

  function Fnv(data: Bytes): Word64 {
    if data == [] then OFFSET
    else Mix(Fnv(data[..|data| - 1]), data[|data| - 1])
  }

  function Mixed(h: Word64): Word64 {
    var h2: Word64 := Xor(h, Shift33(h)) * MIX % TWO_64;
    Xor(h2, Shift33(h2))
  }

  /** The hashes are the ones that Hash computes. */
  ghost predicate IsFnv(h: Hasher) {
    forall data :: h.h1(data) == Fnv(data) && h.h2(data) == Mixed(Fnv(data))
  }

  const FNV: Hasher := Hasher(Fnv, data => Mixed(Fnv(data)))

  method Hash(data: Bytes) returns (h1: Word64, h2: Word64)
    ensures h1 == Fnv(data) && h2 == Mixed(Fnv(data))
  {
    h1 := OFFSET;
    for i := 0 to |data|
      invariant h1 == Fnv(data[..i])
    {
      assert data[..i + 1][..i] == data[..i];
      h1 := Xor(h1, data[i] as nat);
      h1 := h1 * PRIME % TWO_64;
    }
    assert data[..|data|] == data;
    h2 := Xor(h1, Shift33(h1));
    h2 := h2 * MIX % TWO_64;
    h2 := Xor(h2, Shift33(h2));
  }

  // ---- What the first hash keeps apart ----

  const PRIME_INVERSE: nat := 0xce96_5057_aff6_957b

  const MIX_INVERSE: nat := 0x4f74_430c_22a5_4005

  /** Multiplying by a number with an inverse loses nothing modulo 2^64. */
  lemma Invertible(m: nat, inverse: nat, c: nat, x: Word64, y: Word64)
    requires m * inverse == 1 + c * TWO_64 && x * m % TWO_64 == y * m % TWO_64
    ensures x == y
  {
    var q := x * m / TWO_64 - y * m / TWO_64;
    var d := x - y;
    assert d * m == q * TWO_64;
    assert d * (m * inverse) == (d * m) * inverse;
    assert d * (1 + c * TWO_64) == d + (d * c) * TWO_64;
    assert (q * TWO_64) * inverse == (q * inverse) * TWO_64;
    var r := q * inverse - d * c;
    assert d == r * TWO_64;
  }

  lemma PrimeInvertible(x: Word64, y: Word64)
    requires x * PRIME % TWO_64 == y * PRIME % TWO_64
    ensures x == y
  {
    Invertible(PRIME, PRIME_INVERSE, (PRIME * PRIME_INVERSE - 1) / TWO_64, x, y);
  }

  lemma {:induction false} XorSeparates(a: nat, b: nat, x: nat, y: nat, n: nat)
    requires a < Pow2(n) && b < Pow2(n) && x < Pow2(n) && y < Pow2(n)
    requires (a == b || x == y) && XorBits(a, x, n) == XorBits(b, y, n)
    ensures a == b && x == y
  {
    if n != 0 {
      var u, v := XorBits(a / 2, x / 2, n - 1), XorBits(b / 2, y / 2, n - 1);
      SameHalves(u, (a + x) % 2, v, (b + y) % 2);
      XorSeparates(a / 2, b / 2, x / 2, y / 2, n - 1);
      SameParity(a, b, x, y);
    }
  }

  lemma SameHalves(u: nat, i: nat, v: nat, j: nat)
    requires i < 2 && j < 2 && 2 * u + i == 2 * v + j
    ensures u == v && i == j
  {
  }

  lemma SameParity(a: nat, b: nat, x: nat, y: nat)
    requires a / 2 == b / 2 && x / 2 == y / 2 && (a + x) % 2 == (b + y) % 2 && (a == b || x == y)
    ensures a == b && x == y
  {
  }

  /** One round of the first hash. */
  function Mix(h: Word64, b: byte): Word64 {
    Xor(h, b as nat) * PRIME % TWO_64
  }

  /** Two states that differ, or two bytes that do, lead to different states. */
  lemma StepSeparates(g: Word64, h: Word64, b: byte, c: byte)
    requires g == h || b == c
    ensures Mix(g, b) == Mix(h, c) ==> g == h && b == c
  {
    if Mix(g, b) == Mix(h, c) {
      PrimeInvertible(Xor(g, b as nat), Xor(h, c as nat));
      Width64();
      XorSeparates(g, h, b as nat, c as nat, 64);
    }
  }

  lemma {:induction false} SuffixSeparates(p: Bytes, q: Bytes, s: Bytes)
    ensures Fnv(p) != Fnv(q) ==> Fnv(p + s) != Fnv(q + s)
    decreases |s|
  {
    if s == [] {
      assert p + s == p && q + s == q;
    } else {
      var n := |s| - 1;
      FnvLast(p, s);
      FnvLast(q, s);
      StepSeparates(Fnv(p + s[..n]), Fnv(q + s[..n]), s[n], s[n]);
      SuffixSeparates(p, q, s[..n]);
    }
  }

  lemma {:induction false} FnvLast(p: Bytes, s: Bytes)
    requires s != []
    ensures var n := |s| - 1; Fnv(p + s) == Mix(Fnv(p + s[..n]), s[n])
  {
    assert (p + s)[..|p + s| - 1] == p + s[..|s| - 1];
  }

  lemma {:induction false} XorZero(a: nat, n: nat)
    requires a < Pow2(n)
    ensures XorBits(a, 0, n) == a
  {
    if n != 0 { XorZero(a / 2, n - 1); }
  }

  /** a shifted down by m bits. */
  function Shr(a: nat, m: nat): nat {
    if m == 0 then a else Shr(a / 2, m - 1)
  }

  /** Shifting the exclusive or of two numbers is the exclusive or of the shifted ones. */
  lemma {:induction false} XorShift(a: nat, b: nat, n: nat, m: nat)
    requires m <= n
    ensures Shr(XorBits(a, b, n), m) == XorBits(Shr(a, m), Shr(b, m), n - m)
    decreases m
  {
    if m != 0 { XorShift(a / 2, b / 2, n - 1, m - 1); }
  }

  /** Bit by bit: the exclusive or has the bits in which the two numbers differ. */
  lemma {:induction false} XorBit(a: nat, b: nat, n: nat, i: nat)
    requires i < n
    ensures Shr(XorBits(a, b, n), i) % 2 == 1 <==> Shr(a, i) % 2 != Shr(b, i) % 2
  {
    XorShift(a, b, n, i);
  }

  /** FNV-1a over 64 bits: its starting value and its step. */
  lemma {:induction false} FnvSteps(p: Bytes, b: byte)
    ensures Fnv([]) == 0xcbf2_9ce4_8422_2325
    ensures Fnv(p + [b]) == Xor(Fnv(p), b as nat) * 0x100_0000_01b3 % 0x1_0000_0000_0000_0000
  {
    assert (p + [b])[..|p|] == p;
  }

  /** The second hash folds the word by 33 bits, multiplies and folds it again. */
  lemma {:induction false} MixedSteps(h: Word64)
    ensures var x := Xor(h, h / 0x2_0000_0000) * 0xff51_afd7_ed55_8ccd % 0x1_0000_0000_0000_0000;
      Mixed(h) == Xor(x, x / 0x2_0000_0000)
  {
  }

  lemma {:induction false} ShrBound(a: nat, n: nat, m: nat)
    requires a < Pow2(n)
    ensures Shr(a, m) <= a && Shr(a, m) < Pow2(if m <= n then n - m else 0)
    decreases m
  {
    if m != 0 {
      if n == 0 { ShrBound(a / 2, 0, m - 1); } else { ShrBound(a / 2, n - 1, m - 1); }
    }
  }

  /** The upper bits of a number combined with themselves shifted down are still its upper bits. */
  lemma UpperBits(a: nat, n: nat, m: nat)
    requires m <= n && n - m <= m && a < Pow2(n)
    ensures Shr(a, m) < Pow2(n) && Shr(XorBits(a, Shr(a, m), n), m) == Shr(a, m)
  {
    var u := Shr(a, m);
    ShrBound(a, n, m);
    ShrBound(u, n - m, m);
    XorShift(a, u, n, m);
    XorZero(u, n - m);
  }

  lemma ShiftSeparates(a: nat, b: nat, n: nat, m: nat)
    requires m <= n && n - m <= m && a < Pow2(n) && b < Pow2(n)
    requires XorBits(a, Shr(a, m), n) == XorBits(b, Shr(b, m), n)
    ensures a == b
  {
    UpperBits(a, n, m);
    UpperBits(b, n, m);
    XorSeparates(a, b, Shr(a, m), Shr(b, m), n);
  }

  lemma {:induction false} ShrTwice(a: nat, m: nat, n: nat)
    ensures Shr(Shr(a, m), n) == Shr(a, m + n)
    decreases m
  {
    if m != 0 { ShrTwice(a / 2, m - 1, n); }
  }

  lemma Shr16(a: nat)
    ensures Shr(a, 16) == a / 0x1_0000
  {
    Shr8(a);
    Shr8(a / 0x100);
    ShrTwice(a, 8, 8);
  }

  lemma Shr8(a: nat)
    ensures Shr(a, 8) == a / 0x100
  {
    Shr4(a);
    Shr4(a / 0x10);
    ShrTwice(a, 4, 4);
  }

  lemma Shr4(a: nat)
    ensures Shr(a, 4) == a / 0x10
  {
    ShrTwice(a, 2, 2);
    assert Shr(a, 2) == Shr(a / 2, 1) == Shr(a / 2 / 2, 0);
    assert Shr(a / 4, 2) == Shr(a / 4 / 2, 1) == Shr(a / 4 / 2 / 2, 0);
  }

  lemma Shift33Is(a: Word64)
    ensures Shr(a, 33) == Shift33(a)
  {
    Shr16(a);
    Shr16(a / 0x1_0000);
    ShrTwice(a, 16, 16);
    ShrTwice(a, 32, 1);
    assert Shr(a / 0x1_0000_0000, 1) == Shr(a / 0x1_0000_0000 / 2, 0);
  }

  lemma FoldSeparates(g: Word64, h: Word64)
    ensures Xor(g, Shift33(g)) == Xor(h, Shift33(h)) ==> g == h
  {
    Shift33Is(g);
    Shift33Is(h);
    Width64();
    if Xor(g, Shift33(g)) == Xor(h, Shift33(h)) { ShiftSeparates(g, h, 64, 33); }
  }

  /** The second hash is the first one, passed through a one-to-one function of 64-bit words. */
  lemma MixedSeparates(g: Word64, h: Word64)
    ensures Mixed(g) == Mixed(h) ==> g == h
  {
    if Mixed(g) == Mixed(h) {
      var x, y := Xor(g, Shift33(g)), Xor(h, Shift33(h));
      FoldSeparates(x * MIX % TWO_64, y * MIX % TWO_64);
      Invertible(MIX, MIX_INVERSE, (MIX * MIX_INVERSE - 1) / TWO_64, x, y);
      FoldSeparates(g, h);
    }
  }

  /** So the two hashes of two keys collide together or not at all. */
  lemma HashesCollideTogether(p: Bytes, q: Bytes)
    ensures Mixed(Fnv(p)) == Mixed(Fnv(q)) <==> Fnv(p) == Fnv(q)
  {
    MixedSeparates(Fnv(p), Fnv(q));
  }
  /** Keys of the same length that differ in one byte never share their first hash. */
  lemma OneByteSeparates(p: Bytes, b: byte, c: byte, s: Bytes)
    requires b != c
    ensures Fnv(p + [b] + s) != Fnv(p + [c] + s)
  {
    assert (p + [b])[..|p|] == p && (p + [c])[..|p|] == p;
    StepSeparates(Fnv(p), Fnv(p), b, c);
    SuffixSeparates(p + [b], p + [c], s);
  }
}

/** A bit array probed at k positions per key: a key that was added always tests positive. */
module BloomFilter {
  import opened Core
  import opened FnvHash

  /** The i-th probe: 64-bit arithmetic wraps before the reduction modulo the filter size. */
  function Position(h1: Word64, h2: Word64, i: nat, m: nat): (pos: nat)
    requires 0 < m
    ensures pos < m
  {
    (h1 + i * h2) % TWO_64 % m
  }

  function Probe(h: Hasher, key: Bytes, i: nat, m: nat): (pos: nat)
    requires 0 < m
    ensures pos < m
  {
    Position(h.h1(key), h.h2(key), i, m)
  }

  /** The i-th probe as a formula in the two hashes. */
  ghost function Spot(h1: nat, h2: nat, i: nat, m: nat): nat
    requires 0 < m
  {
    (h1 + i * h2) % 0x1_0000_0000_0000_0000 % m
  }

  lemma PositionIs(h1: Word64, h2: Word64, i: nat, m: nat)
    requires 0 < m
    ensures Position(h1, h2, i, m) == Spot(h1, h2, i, m)
  {
  }

  /** Probe i of one key falls where probe j of another one does. */
  ghost predicate SameSpot(key: Bytes, i: nat, other: Bytes, j: nat, m: nat)
    requires 0 < m
  {
    Spot(Fnv(key), Mixed(Fnv(key)), i, m) == Spot(Fnv(other), Mixed(Fnv(other)), j, m)
  }

  /** A 64-bit word as the set of its one bits: a bitwise or with 1 << b adds b. */
  type Word = set<nat>

  predicate BitOn(bits: seq<Word>, pos: nat) {
    pos / 64 < |bits| && pos % 64 in bits[pos / 64]
  }

  class Filter {
    const bits: array<Word>
    const k: nat
    const m: nat
    const hasher: Hasher
    ghost var added: set<Bytes>

    ghost predicate Valid()
      reads this, bits
    {
      Sound() && IsFnv(hasher)
    }

    /** The filter's guarantee, which does not depend on the hashes. */
    ghost predicate Sound()
      reads this, bits
    {
      && 0 < m && 0 < k && bits.Length == (m + 63) / 64
      && forall p: nat :: BitOn(bits[..], p) <==> Marked(added, p)
    }

    ghost predicate Covered(key: Bytes)
      reads this, bits
      requires 0 < m
    {
      forall i :: 0 <= i < k ==> BitOn(bits[..], Probe(hasher, key, i, m))
    }

    /** The first n probes of the key include position p. */
    ghost predicate Hits(key: Bytes, n: nat, p: nat)
      requires 0 < m
    {
      exists i :: 0 <= i < n && Probe(hasher, key, i, m) == p
    }

    /** Position p is probed by a key of the set. */
    ghost predicate Marked(keys: set<Bytes>, p: nat)
      requires 0 < m
    {
      exists key :: key in keys && Hits(key, k, p)
    }

    /** Probe i of the key falls on a probe of an added key. */
    ghost predicate Shared(key: Bytes, i: nat)
      reads this`added
      requires 0 < m
    {
      exists x, j: nat :: x in added && j < k && SameSpot(key, i, x, j, m)
    }

    lemma CoveredExact(key: Bytes)
      requires Valid()
      ensures Covered(key) <==> forall i: nat :: i < k ==> Shared(key, i)
    {
      forall i: nat | i < k ensures BitOn(bits[..], Probe(hasher, key, i, m)) <==> Shared(key, i) {
        forall x, j: nat
          ensures SameSpot(key, i, x, j, m) <==> Probe(hasher, key, i, m) == Probe(hasher, x, j, m)
        {
          ProbesMeet(key, i, x, j);
        }
      }
    }

    lemma ProbesMeet(key: Bytes, i: nat, x: Bytes, j: nat)
      requires 0 < m && IsFnv(hasher)
      ensures SameSpot(key, i, x, j, m) <==> Probe(hasher, key, i, m) == Probe(hasher, x, j, m)
    {
      PositionIs(hasher.h1(key), hasher.h2(key), i, m);
      PositionIs(hasher.h1(x), hasher.h2(x), j, m);
    }

    /** A filter of any positive size with any number of probes. */
    constructor (m: nat, k: nat)
      requires 0 < m && 0 < k
      ensures Valid() && fresh(bits) && added == {} && this.m == m && this.k == k
      ensures forall p: nat :: !BitOn(bits[..], p)
    {
      this.m, this.k, hasher := m, k, FNV;
      bits := new Word[(m + 63) / 64](_ => {});
      added := {};
    }

    method Add(key: Bytes)
      requires Valid()
      modifies bits, this`added
      ensures Valid() && added == old(added) + {key}
      ensures forall p: nat :: BitOn(bits[..], p) <==> old(BitOn(bits[..], p)) || Hits(key, k, p)
    {
      var h1, h2 := Hash(key);
      SetProbed(key, h1, h2);
    }

    method SetProbed(ghost key: Bytes, h1: Word64, h2: Word64)
      requires Sound() && h1 == hasher.h1(key) && h2 == hasher.h2(key)
      modifies bits, this`added
      ensures Sound() && added == old(added) + {key}
      ensures forall p: nat :: BitOn(bits[..], p) <==> old(BitOn(bits[..], p)) || Hits(key, k, p)
    {
      for i := 0 to k
        invariant added == old(added)
        invariant forall p: nat :: BitOn(bits[..], p) <==> old(BitOn(bits[..], p)) || Hits(key, i, p)
      {
        assert Position(h1, h2, i, m) == Probe(hasher, key, i, m);
        forall p: nat { NextProbe(key, i, p); }
        SetBit(Position(h1, h2, i, m));
      }
      added := added + {key};
    }

    lemma NextProbe(key: Bytes, i: nat, p: nat)
      requires 0 < m
      ensures Hits(key, i + 1, p) <==> Hits(key, i, p) || p == Probe(hasher, key, i, m)
    {
    }

    method SetBit(pos: nat)
      requires pos / 64 < bits.Length
      modifies bits
      ensures forall p: nat :: BitOn(bits[..], p) <==> BitOn(old(bits[..]), p) || p == pos
    {
      ghost var before := bits[..];
      bits[pos / 64] := bits[pos / 64] + {pos % 64};
      forall p: nat ensures BitOn(bits[..], p) <==> BitOn(before, p) || p == pos {
        assert p == p / 64 * 64 + p % 64 && pos == pos / 64 * 64 + pos % 64;
      }
    }

    method Contains(key: Bytes) returns (maybe: bool)
      requires Valid()
      ensures maybe <==> forall i: nat :: i < k ==> Shared(key, i)
      ensures key in added ==> maybe
      ensures added == {} ==> !maybe
    {
      var h1, h2 := Hash(key);
      maybe := AllProbed(key, h1, h2);
      CoveredExact(key);
      assert added == {} ==> !Shared(key, 0);
    }

    method AllProbed(ghost key: Bytes, h1: Word64, h2: Word64) returns (all: bool)
      requires Sound() && h1 == hasher.h1(key) && h2 == hasher.h2(key)
      ensures all <==> Covered(key)
    {
      for i := 0 to k
        invariant forall j :: 0 <= j < i ==> BitOn(bits[..], Probe(hasher, key, j, m))
      {
        var pos := Position(h1, h2, i, m);
        if pos % 64 !in bits[pos / 64] {
          assert !BitOn(bits[..], Probe(hasher, key, i, m));
          return false;
        }
      }
      return true;
    }
  }
}
