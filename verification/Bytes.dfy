/** Bytes, the fixed-width integers of the source, and the byte forms of integers and of field elements. */
module Bytes {
  import opened Results
  import opened Field

  type byte = x: int | 0 <= x < 0x100
  type u16 = x: int | 0 <= x < 0x1_0000
  type u32 = x: int | 0 <= x < 0x1_0000_0000
  type u64 = x: int | 0 <= x < 0x1_0000_0000_0000_0000

  const U32_MAX: u32 := 0xffff_ffff

  const CHUNK_SIZE: nat := 32
  const DATA_CHUNK_SIZE: nat := 31

  /** `[u8; 32]`: what one matrix cell holds. */
  type Chunk = b: seq<byte> | |b| == 32 witness ZeroBytes(32)

  /** `[u8; 31]`: the payload of one cell. */
  type DataChunk = b: seq<byte> | |b| == 31 witness ZeroBytes(31)

  function ZeroBytes(n: nat): (s: seq<byte>)
    ensures |s| == n
  {
    seq(n, _ => 0)
  }

  function Concat(parts: seq<seq<byte>>): seq<byte> {
    if parts == [] then [] else parts[0] + Concat(parts[1..])
  }

  lemma {:induction false} ConcatAppend(a: seq<seq<byte>>, b: seq<seq<byte>>)
    ensures Concat(a + b) == Concat(a) + Concat(b)
  {
    if a == [] {
      assert a + b == b;
    } else {
      assert (a + b)[1..] == a[1..] + b;
      ConcatAppend(a[1..], b);
    }
  }

  function FlatChunks(chunks: seq<Chunk>): (s: seq<byte>)
    ensures |s| == 32 * |chunks|
  {
    if chunks == [] then [] else chunks[0] + FlatChunks(chunks[1..])
  }

  lemma FlatChunksOfOne(c: Chunk)
    ensures FlatChunks([c]) == c
  {
    assert FlatChunks([c][1..]) == [];
  }

  lemma {:induction false} FlatChunksConcat(a: seq<Chunk>, b: seq<Chunk>)
    ensures FlatChunks(a + b) == FlatChunks(a) + FlatChunks(b)
  {
    if a == [] {
      assert a + b == b;
    } else {
      assert (a + b)[1..] == a[1..] + b;
      FlatChunksConcat(a[1..], b);
    }
  }

  lemma FlatChunksSlice(chunks: seq<Chunk>, s: nat, e: nat)
    requires s <= e <= |chunks|
    ensures FlatChunks(chunks)[32 * s..32 * e] == FlatChunks(chunks[s..e])
  {
    hide FlatChunks;
    var a, b, c := chunks[..s], chunks[s..e], chunks[e..];
    SplitInThree(chunks, s, e);
    FlatChunksConcat(a, b + c);
    FlatChunksConcat(b, c);
    MiddlePart(FlatChunks(a), FlatChunks(b), FlatChunks(c));
  }

  lemma SplitInThree<T>(s: seq<T>, i: nat, j: nat)
    requires i <= j <= |s|
    ensures s == s[..i] + (s[i..j] + s[j..])
  {}

  lemma MiddlePart(a: seq<byte>, b: seq<byte>, c: seq<byte>)
    ensures (a + (b + c))[|a|..|a| + |b|] == b
  {}

  function Pow256(n: nat): (r: nat)
    ensures r > 0
  {
    if n == 0 then 1 else 256 * Pow256(n - 1)
  }

  lemma Pow256Values()
    ensures Pow256(2) == 0x1_0000 && Pow256(4) == 0x1_0000_0000 && Pow256(8) == 0x1_0000_0000_0000_0000
    ensures Pow256(31) < P < Pow256(32)
  {
    assert Pow256(4) == 256 * 256 * Pow256(2);
    assert Pow256(8) == 0x1_0000_0000 * Pow256(4);
    assert Pow256(16) == 0x1_0000_0000_0000_0000 * Pow256(8) by { Pow256Add8(8); }
    assert Pow256(24) == 0x1_0000_0000_0000_0000 * Pow256(16) by { Pow256Add8(16); }
    assert Pow256(32) == 0x1_0000_0000_0000_0000 * Pow256(24) by { Pow256Add8(24); }
    assert Pow256(32) == 256 * Pow256(31);
  }

  lemma Pow256Add8(n: nat)
    ensures Pow256(n + 8) == 0x1_0000_0000_0000_0000 * Pow256(n)
  {
    assert Pow256(n + 4) == 256 * Pow256(n + 3) == 65536 * Pow256(n + 2);
    assert Pow256(n + 2) == 256 * Pow256(n + 1) == 65536 * Pow256(n);
    assert Pow256(n + 8) == 256 * Pow256(n + 7) == 65536 * Pow256(n + 6);
    assert Pow256(n + 6) == 256 * Pow256(n + 5) == 65536 * Pow256(n + 4);
  }

  /** `from_le_bytes`. */
  function FromLe(b: seq<byte>): (v: nat) {
    if b == [] then 0 else b[0] + 256 * FromLe(b[1..])
  }

  /** `to_le_bytes` at a width of n bytes. */
  function ToLe(v: nat, n: nat): (b: seq<byte>)
    ensures |b| == n
  {
    if n == 0 then [] else [v % 256] + ToLe(v / 256, n - 1)
  }

  lemma {:induction false} FromLeBound(b: seq<byte>)
    ensures FromLe(b) < Pow256(|b|)
  {
    if b != [] {
      FromLeBound(b[1..]);
    }
  }

  lemma FromLeWidth(b: seq<byte>)
    ensures |b| == 2 ==> FromLe(b) < 0x1_0000
    ensures |b| == 4 ==> FromLe(b) < 0x1_0000_0000
    ensures |b| == 8 ==> FromLe(b) < 0x1_0000_0000_0000_0000
    ensures |b| > 0 ==> FromLe(b) % 256 == b[0]
  {
    FromLeBound(b);
    Pow256Values();
  }

  lemma {:induction false} ToLeOfFromLe(b: seq<byte>)
    ensures ToLe(FromLe(b), |b|) == b
  {
    if b != [] {
      ToLeOfFromLe(b[1..]);
      assert FromLe(b) / 256 == FromLe(b[1..]) && FromLe(b) % 256 == b[0];
    }
  }

  lemma {:induction false} FromLeOfToLe(v: nat, n: nat)
    requires v < Pow256(n)
    ensures FromLe(ToLe(v, n)) == v
  {
    if n > 0 {
      FromLeOfToLe(v / 256, n - 1);
      assert ToLe(v, n)[1..] == ToLe(v / 256, n - 1);
    }
  }

  lemma ToLeWidth(v: nat, n: nat)
    requires (n == 2 && v < 0x1_0000) || (n == 4 && v < 0x1_0000_0000) || (n == 8 && v < 0x1_0000_0000_0000_0000)
    ensures FromLe(ToLe(v, n)) == v && ToLe(v, n)[0] == v % 256
  {
    Pow256Values();
    FromLeOfToLe(v, n);
  }

  lemma {:induction false} FromLeTopZeros(b: seq<byte>, n: nat)
    ensures FromLe(b + ZeroBytes(n)) == FromLe(b)
  {
    if b != [] {
      assert (b + ZeroBytes(n))[1..] == b[1..] + ZeroBytes(n);
      FromLeTopZeros(b[1..], n);
    } else if n > 0 {
      assert (b + ZeroBytes(n))[1..] == b + ZeroBytes(n - 1);
      FromLeTopZeros(b, n - 1);
    }
  }

  // ---------- Field elements ----------

  /** `ArkScalar::from_bytes`: little-endian, rejected when not below the modulus. */
  function ScalarFromBytes(b: Chunk): Option<Scalar> {
    if FromLe(b) < P then Some(FromLe(b)) else None
  }

  function ScalarToBytes(a: Scalar): Chunk {
    ToLe(a, 32)
  }

  lemma ScalarFromTo(a: Scalar)
    ensures ScalarFromBytes(ScalarToBytes(a)) == Some(a)
  {
    Pow256Values();
    FromLeOfToLe(a, 32);
  }

  lemma ScalarToFrom(b: Chunk)
    ensures ScalarFromBytes(b).Some? ==> ScalarToBytes(ScalarFromBytes(b).value) == b
  {
    ToLeOfFromLe(b);
  }

  /** A chunk whose top byte is zero always is a canonical field element. */
  lemma PaddedChunkIsScalar(b: Chunk)
    requires b[31] == 0
    ensures ScalarFromBytes(b).Some?
  {
    Pow256Values();
    assert b == b[..31] + ZeroBytes(1);
    FromLeTopZeros(b[..31], 1);
    FromLeBound(b[..31]);
  }
}
