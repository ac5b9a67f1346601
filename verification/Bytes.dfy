/** Big-endian fixed-width integers, as both file formats use them. */
module BigEndian {
  import opened Core

  function Pow256(w: nat): nat {
    if w == 0 then 1 else 256 * Pow256(w - 1)
  }

  /** The low w bytes of n, most significant first. */
  function Encode(n: nat, w: nat): (b: Bytes)
    ensures |b| == w
  {
    if w == 0 then [] else Encode(n / 256, w - 1) + [(n % 256) as byte]
  }

  function Decode(b: Bytes): (n: nat)
    ensures n < Pow256(|b|)
  {
    if b == [] then 0 else Decode(b[..|b| - 1]) * 256 + b[|b| - 1] as nat
  }

  /** A number that fits its field is read back; the writer truncates silently when it does not. */
  lemma {:induction false} DecodeEncode(n: nat, w: nat)
    requires n < Pow256(w)
    ensures Decode(Encode(n, w)) == n
  {
    if w != 0 {
      var b := Encode(n, w);
      assert b[..w - 1] == Encode(n / 256, w - 1);
      DecodeEncode(n / 256, w - 1);
    }
  }

  /** Bytes are the encoding of the number they stand for. */
  lemma {:induction false} EncodeDecode(b: Bytes)
    ensures Encode(Decode(b), |b|) == b
  {
    if b != [] {
      var n := |b| - 1;
      EncodeDecode(b[..n]);
      assert Decode(b) / 256 == Decode(b[..n]) && Decode(b) % 256 == b[n] as nat;
      assert b == b[..n] + [b[n]];
    }
  }

  lemma Widths()
    ensures Pow256(4) == TWO_32 && Pow256(8) == TWO_64
  {
    assert Pow256(2) == 0x1_0000;
    assert Pow256(4) == 256 * (256 * Pow256(2));
    assert Pow256(6) == 256 * (256 * Pow256(4));
    assert Pow256(8) == 256 * (256 * Pow256(6));
  }

  function U32(n: nat): (b: Bytes)
    ensures |b| == 4
  {
    Encode(n, 4)
  }

  function U64(n: nat): (b: Bytes)
    ensures |b| == 8
  {
    Encode(n, 8)
  }

  function Get32(b: Bytes): (n: nat)
    requires |b| == 4
    ensures n < TWO_32
  {
    Widths();
    Decode(b)
  }

  function Get64(b: Bytes): (n: nat)
    requires |b| == 8
    ensures n < TWO_64
  {
    Widths();
    Decode(b)
  }

  lemma Read32(n: nat)
    requires n < TWO_32
    ensures Get32(U32(n)) == n
  {
    Widths();
    DecodeEncode(n, 4);
  }

  lemma Read64(n: nat)
    requires n < TWO_64
    ensures Get64(U64(n)) == n
  {
    Widths();
    DecodeEncode(n, 8);
  }

  // ---- Numbers as they stand in a file, byte by byte ----

  function Uint32At(b: Bytes, pos: nat): nat
    requires pos + 4 <= |b|
  {
    b[pos] as nat * 0x100_0000 + b[pos + 1] as nat * 0x1_0000 + b[pos + 2] as nat * 0x100 + b[pos + 3] as nat
  }

  function Uint64At(b: Bytes, pos: nat): nat
    requires pos + 8 <= |b|
  {
    Uint32At(b, pos) * 0x1_0000_0000 + Uint32At(b, pos + 4)
  }

  lemma {:induction false} DecodeBoth(a: Bytes, b: Bytes)
    ensures Decode(a + b) == Decode(a) * Pow256(|b|) + Decode(b)
    decreases |b|
  {
    if b == [] {
      assert a + b == a;
    } else {
      var n := |b| - 1;
      assert (a + b)[..|a + b| - 1] == a + b[..n];
      DecodeBoth(a, b[..n]);
      Shifted(Decode(a), Pow256(n), Decode(b[..n]), b[n] as nat);
    }
  }

  lemma Shifted(x: nat, p: nat, y: nat, d: nat)
    ensures (x * p + y) * 256 + d == x * (256 * p) + (y * 256 + d)
  {
  }

  lemma DecodePair(x: byte, y: byte)
    ensures Decode([x, y]) == x as nat * 256 + y as nat
  {
    assert [x, y][..1] == [x] && [x][..0] == [];
  }

  lemma Get32Is(b: Bytes, pos: nat)
    requires pos + 4 <= |b|
    ensures Get32(b[pos..pos + 4]) == Uint32At(b, pos)
  {
    var hi, lo := [b[pos], b[pos + 1]], [b[pos + 2], b[pos + 3]];
    assert b[pos..pos + 4] == hi + lo;
    DecodeBoth(hi, lo);
    DecodePair(b[pos], b[pos + 1]);
    DecodePair(b[pos + 2], b[pos + 3]);
    assert Pow256(2) == 0x1_0000;
  }

  lemma Get64Is(b: Bytes, pos: nat)
    requires pos + 8 <= |b|
    ensures Get64(b[pos..pos + 8]) == Uint64At(b, pos)
  {
    assert b[pos..pos + 8] == b[pos..pos + 4] + b[pos + 4..pos + 8];
    DecodeBoth(b[pos..pos + 4], b[pos + 4..pos + 8]);
    Get32Is(b, pos);
    Get32Is(b, pos + 4);
    Widths();
  }

  /** A field that was written stands in the file most significant byte first. */
  lemma Written32(n: nat, b: Bytes, pos: nat)
    requires n < TWO_32 && pos + 4 <= |b| && b[pos..pos + 4] == U32(n)
    ensures Uint32At(b, pos) == n
  {
    Get32Is(b, pos);
    Read32(n);
  }

  lemma Written64(n: nat, b: Bytes, pos: nat)
    requires n < TWO_64 && pos + 8 <= |b| && b[pos..pos + 8] == U64(n)
    ensures Uint64At(b, pos) == n
  {
    Get64Is(b, pos);
    Read64(n);
  }

  /** uint64(v): two's complement. */
  function ToUnsigned(v: Int64): nat {
    if v < 0 then v + TWO_64 else v
  }

  /** int64(u). */
  function ToSigned(u: nat): Int64
    requires u < TWO_64
  {
    if u < TWO_63 then u else u - TWO_64
  }

  lemma SignedRoundTrip(v: Int64)
    ensures ToUnsigned(v) < TWO_64 && ToSigned(ToUnsigned(v)) == v
    ensures ToUnsigned(v) == v % 0x1_0000_0000_0000_0000
    ensures ToSigned(Get64(U64(ToUnsigned(v)))) == v
  {
    Read64(ToUnsigned(v));
  }

  /** The bytes of a signed number are those of what they are read as. */
  lemma SignedBytes(b: Bytes)
    requires |b| == 8
    ensures U64(ToUnsigned(ToSigned(Get64(b)))) == b
  {
    EncodeDecode(b);
  }

  // ---- Filling a buffer at a moving position ----

  method CopyInto(a: array<byte>, pos: nat, data: Bytes)
    requires pos + |data| <= a.Length
    modifies a
    ensures a[..] == old(a[..pos]) + data + old(a[pos + |data|..])
  {
    for i := 0 to |data|
      invariant a[..] == old(a[..pos]) + data[..i] + old(a[pos + i..])
    {
      a[pos + i] := data[i];
    }
  }

  method PutUint32(a: array<byte>, pos: nat, n: nat)
    requires pos + 4 <= a.Length
    modifies a
    ensures a[..] == old(a[..pos]) + U32(n) + old(a[pos + 4..])
  {
    CopyInto(a, pos, U32(n));
  }

  method PutUint64(a: array<byte>, pos: nat, n: nat)
    requires pos + 8 <= a.Length
    modifies a
    ensures a[..] == old(a[..pos]) + U64(n) + old(a[pos + 8..])
  {
    CopyInto(a, pos, U64(n));
  }
}
