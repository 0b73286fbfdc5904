/** The wire format of multiproof cells (kate/recovery/src/data.rs). */
module CellData {
  import opened Results
  import opened Bytes
  import opened Matrix

  const PROOF_BYTE_LEN: nat := 48
  const GCELL_BLOCK_SIZE: nat := 16
  const SCALAR_COUNT_LEN: nat := 4
  const SCALAR_BYTE_LEN: nat := 32
  const BYTES_PER_LIMB: nat := 8

  type Proof = b: seq<byte> | |b| == 48 witness ZeroBytes(48)

  /** `[u64; 4]`. */
  type Limbs = l: seq<u64> | |l| == 4 witness [0, 0, 0, 0]

  datatype GCellBlock = GCellBlock(startX: u32, startY: u32, endX: u32, endY: u32)

  datatype MultiProofCell = MultiProofCell(position: Position, scalars: seq<Limbs>, proof: Proof,
                                           gcellBlock: GCellBlock)

  datatype CellError = InputTooShort | BlockNotSixteenBytes | ScalarLengthMismatch

  // ---------- Integers ----------

  /** `from_be_bytes`. */
  function FromBe(b: seq<byte>): (v: nat) {
    if b == [] then 0 else 256 * FromBe(b[..|b| - 1]) + b[|b| - 1]
  }

  /** `to_be_bytes` at a width of n bytes. */
  function ToBe(v: nat, n: nat): (b: seq<byte>)
    ensures |b| == n
  {
    if n == 0 then [] else ToBe(v / 256, n - 1) + [v % 256]
  }

  lemma {:induction false} FromBeBound(b: seq<byte>)
    ensures FromBe(b) < Pow256(|b|)
  {
    if b != [] {
      FromBeBound(b[..|b| - 1]);
    }
  }

  lemma {:induction false} ToBeOfFromBe(b: seq<byte>)
    ensures ToBe(FromBe(b), |b|) == b
  {
    if b != [] {
      ToBeOfFromBe(b[..|b| - 1]);
    }
  }

  lemma {:induction false} FromBeOfToBe(v: nat, n: nat)
    requires v < Pow256(n)
    ensures FromBe(ToBe(v, n)) == v
  {
    if n > 0 {
      FromBeOfToBe(v / 256, n - 1);
      assert ToBe(v, n)[..n - 1] == ToBe(v / 256, n - 1);
    }
  }

  function LimbFrom(b: seq<byte>): u64
    requires |b| == 8
  {
    FromBeBound(b);
    Pow256Values();
    FromBe(b)
  }

  function U32From(b: seq<byte>): u32
    requires |b| == 4
  {
    FromLeWidth(b);
    FromLe(b)
  }

  // ---------- Slices ----------

  lemma SlicesOfFour(a: seq<byte>, b: seq<byte>, c: seq<byte>, d: seq<byte>)
    ensures var s, i, j, k := a + b + c + d, |a|, |a| + |b|, |a| + |b| + |c|;
      s[0..i] == a && s[i..j] == b && s[j..k] == c && s[k..|s|] == d
  {}

  lemma JoinOfFour(s: seq<byte>, i: nat, j: nat, k: nat)
    requires i <= j <= k <= |s|
    ensures s[0..i] + s[i..j] + s[j..k] + s[k..|s|] == s
  {}

  // ---------- The grid block ----------

  /** `GCellBlock::to_bytes`. */
  function BlockToBytes(g: GCellBlock): (b: seq<byte>)
    ensures |b| == GCELL_BLOCK_SIZE
  {
    ToLe(g.startX, 4) + ToLe(g.startY, 4) + ToLe(g.endX, 4) + ToLe(g.endY, 4)
  }

  /** `GCellBlock::from_bytes`. */
  function BlockFromBytes(b: seq<byte>): Result<GCellBlock, CellError> {
    if |b| != GCELL_BLOCK_SIZE then Err(BlockNotSixteenBytes)
    else Ok(GCellBlock(U32From(b[0..4]), U32From(b[4..8]), U32From(b[8..12]), U32From(b[12..16])))
  }

  lemma BlockRoundTrip(g: GCellBlock)
    ensures BlockFromBytes(BlockToBytes(g)) == Ok(g)
  {
    hide ToLe, FromLe;
    SlicesOfFour(ToLe(g.startX, 4), ToLe(g.startY, 4), ToLe(g.endX, 4), ToLe(g.endY, 4));
    ToLeWidth(g.startX, 4);
    ToLeWidth(g.startY, 4);
    ToLeWidth(g.endX, 4);
    ToLeWidth(g.endY, 4);
  }

  lemma BlockIsReproduced(b: seq<byte>)
    requires |b| == 16
    ensures BlockFromBytes(b).Ok?
    ensures BlockToBytes(BlockFromBytes(b).value) == b
  {
    hide ToLe, FromLe;
    ToLeOfFromLe(b[0..4]);
    ToLeOfFromLe(b[4..8]);
    ToLeOfFromLe(b[8..12]);
    ToLeOfFromLe(b[12..16]);
    JoinOfFour(b, 4, 8, 12);
  }

  lemma BlockNeedsSixteenBytes(b: seq<byte>)
    requires |b| != 16
    ensures BlockFromBytes(b) == Err(BlockNotSixteenBytes)
  {}

  // ---------- Scalars ----------

  function LimbsToBytes(l: Limbs): (b: seq<byte>)
    ensures |b| == SCALAR_BYTE_LEN
  {
    ToBe(l[0], 8) + ToBe(l[1], 8) + ToBe(l[2], 8) + ToBe(l[3], 8)
  }

  function LimbsFromBytes(b: Chunk): Limbs {
    [LimbFrom(b[0..8]), LimbFrom(b[8..16]), LimbFrom(b[16..24]), LimbFrom(b[24..32])]
  }

  lemma LimbSlice(l: Limbs, k: nat)
    requires k < 4
    ensures LimbsToBytes(l)[8 * k..8 * k + 8] == ToBe(l[k], 8)
  {
    hide ToBe;
    SlicesOfFour(ToBe(l[0], 8), ToBe(l[1], 8), ToBe(l[2], 8), ToBe(l[3], 8));
  }

  lemma LimbsRoundTrip(l: Limbs)
    ensures LimbsFromBytes(LimbsToBytes(l)) == l
  {
    forall k | 0 <= k < 4
      ensures LimbFrom(LimbsToBytes(l)[8 * k..8 * k + 8]) == l[k]
    {
      LimbSlice(l, k);
      LimbRoundTrip(l[k]);
    }
    hide LimbFrom, LimbsToBytes;
    var b := LimbsToBytes(l);
    assert LimbFrom(b[8 * 0..8 * 0 + 8]) == l[0] && LimbFrom(b[8 * 1..8 * 1 + 8]) == l[1];
    assert LimbFrom(b[8 * 2..8 * 2 + 8]) == l[2] && LimbFrom(b[8 * 3..8 * 3 + 8]) == l[3];
  }

  lemma LimbRoundTrip(v: u64)
    ensures LimbFrom(ToBe(v, 8)) == v
  {
    Pow256Values();
    FromBeOfToBe(v, 8);
  }

  lemma LimbsAreReproduced(b: Chunk)
    ensures LimbsToBytes(LimbsFromBytes(b)) == b
  {
    hide ToBe, FromBe;
    ToBeOfFromBe(b[0..8]);
    ToBeOfFromBe(b[8..16]);
    ToBeOfFromBe(b[16..24]);
    ToBeOfFromBe(b[24..32]);
    JoinOfFour(b, 8, 16, 24);
  }

  function ScalarsToBytes(scalars: seq<Limbs>): (b: seq<byte>)
    ensures |b| == SCALAR_BYTE_LEN * |scalars|
  {
    if scalars == [] then []
    else ScalarsToBytes(scalars[..|scalars| - 1]) + LimbsToBytes(scalars[|scalars| - 1])
  }

  function ScalarsFromBytes(b: seq<byte>): (scalars: seq<Limbs>)
    ensures |scalars| == |b| / SCALAR_BYTE_LEN
  {
    if |b| < SCALAR_BYTE_LEN then [] else [LimbsFromBytes(b[..32])] + ScalarsFromBytes(b[32..])
  }

  lemma {:induction false} ScalarsFromConcat(a: seq<byte>, b: Chunk)
    requires |a| % 32 == 0
    ensures ScalarsFromBytes(a + b) == ScalarsFromBytes(a) + [LimbsFromBytes(b)]
  {
    hide LimbsFromBytes;
    if a == [] {
      assert a + b == b && b[..32] == b;
    } else {
      assert (a + b)[..32] == a[..32] && (a + b)[32..] == a[32..] + b;
      ScalarsFromConcat(a[32..], b);
    }
  }

  lemma {:induction false} ScalarsRoundTrip(scalars: seq<Limbs>)
    ensures ScalarsFromBytes(ScalarsToBytes(scalars)) == scalars
  {
    hide LimbsToBytes, LimbsFromBytes, ScalarsFromBytes;
    if scalars == [] {
      assert ScalarsToBytes(scalars) == [];
    } else {
      var front, last := scalars[..|scalars| - 1], scalars[|scalars| - 1];
      ScalarsRoundTrip(front);
      ScalarsFromConcat(ScalarsToBytes(front), LimbsToBytes(last));
      LimbsRoundTrip(last);
    }
  }

  lemma {:induction false} ScalarsAreReproduced(b: seq<byte>)
    requires |b| % 32 == 0
    ensures ScalarsToBytes(ScalarsFromBytes(b)) == b
  {
    hide LimbsToBytes, LimbsFromBytes, ScalarsFromBytes;
    if b != [] {
      var front, last := b[..|b| - 32], b[|b| - 32..];
      ScalarsAreReproduced(front);
      assert b == front + last;
      ScalarsFromConcat(front, last);
      LimbsAreReproduced(last);
      var s := ScalarsFromBytes(b);
      assert s[..|s| - 1] == ScalarsFromBytes(front);
    }
  }

  // ---------- Cells ----------

  /** `MultiProofCell::to_bytes`; the count is cut to 32 bits. */
  function CellToBytes(cell: MultiProofCell): seq<byte> {
    cell.proof + BlockToBytes(cell.gcellBlock) + ToLe(|cell.scalars| % 0x1_0000_0000, 4) + ScalarsToBytes(cell.scalars)
  }

  /** `MultiProofCell::from_bytes`, with 64-bit `usize`, so that the expected length cannot overflow. */
  function CellFromBytes(position: Position, bytes: seq<byte>): Result<MultiProofCell, CellError> {
    if |bytes| < PROOF_BYTE_LEN + GCELL_BLOCK_SIZE + SCALAR_COUNT_LEN then Err(InputTooShort) else
    var block :- BlockFromBytes(bytes[48..64]);
    var count, data := U32From(bytes[64..68]), bytes[68..|bytes|];
    if |data| != count * SCALAR_BYTE_LEN then Err(ScalarLengthMismatch)
    else Ok(MultiProofCell(position, ScalarsFromBytes(data), bytes[0..48], block))
  }

  /** The inner loop of `from_bytes`: the limbs of one scalar, written into a fixed buffer. */
  method ReadLimbs(chunk: Chunk) returns (scalar: Limbs)
    ensures scalar == LimbsFromBytes(chunk)
  {
    var buf := new u64[4](_ => 0);
    for i := 0 to 4
      invariant forall k :: 0 <= k < i ==> buf[k] == LimbFrom(chunk[BYTES_PER_LIMB * k..BYTES_PER_LIMB * k + 8])
    {
      buf[i] := LimbFrom(chunk[BYTES_PER_LIMB * i..BYTES_PER_LIMB * i + 8]);
    }
    scalar := buf[..];
  }

  method FromBytes(position: Position, bytes: seq<byte>) returns (r: Result<MultiProofCell, CellError>)
    ensures r == CellFromBytes(position, bytes)
  {
    hide LimbsFromBytes, U32From, BlockFromBytes;
    if |bytes| < PROOF_BYTE_LEN + GCELL_BLOCK_SIZE + SCALAR_COUNT_LEN { return Err(InputTooShort); }
    var proof := bytes[0..48];
    var block := BlockFromBytes(bytes[48..64]);
    if block.Err? { return Err(block.error); }
    var count := U32From(bytes[64..68]);
    var rest := bytes[68..|bytes|];
    if |rest| != count * SCALAR_BYTE_LEN { return Err(ScalarLengthMismatch); }
    var scalars := ReadScalars(rest, count);
    r := Ok(MultiProofCell(position, scalars, proof, block.value));
  }

  /** The loop of `from_bytes` over `chunks_exact(32)`. */
  method ReadScalars(rest: seq<byte>, count: nat) returns (scalars: seq<Limbs>)
    requires |rest| == 32 * count
    ensures scalars == ScalarsFromBytes(rest)
  {
    hide LimbsFromBytes;
    scalars := [];
    for i := 0 to count
      invariant scalars + ScalarsFromBytes(rest[32 * i..]) == ScalarsFromBytes(rest)
    {
      assert rest[32 * i..][..32] == rest[32 * i..32 * i + 32] && rest[32 * i..][32..] == rest[32 * (i + 1)..];
      var scalar := ReadLimbs(rest[32 * i..32 * i + 32]);
      scalars := scalars + [scalar];
    }
  }

  /** `data`: the limbs of all scalars, big-endian, appended to a buffer. */
  method Data(scalars: seq<Limbs>) returns (bytes: seq<byte>)
    ensures bytes == ScalarsToBytes(scalars)
  {
    hide ToBe, LimbsToBytes;
    bytes := [];
    for i := 0 to |scalars|
      invariant bytes == ScalarsToBytes(scalars[..i])
    {
      ghost var before := bytes;
      for k := 0 to 4
        invariant bytes == before + LimbsToBytes(scalars[i])[..8 * k]
      {
        bytes := bytes + ToBe(scalars[i][k], 8);
        LimbSlice(scalars[i], k);
      }
      assert scalars[..i + 1][..i] == scalars[..i];
    }
    assert scalars[..|scalars|] == scalars;
  }

  method ToBytes(cell: MultiProofCell) returns (content: seq<byte>)
    ensures content == CellToBytes(cell)
  {
    content := cell.proof;
    content := content + BlockToBytes(cell.gcellBlock);
    content := content + ToLe(|cell.scalars| % 0x1_0000_0000, 4);
    var data := Data(cell.scalars);
    content := content + data;
  }

  /** Reading what was written gives the cell back exactly when its scalars can be counted in 32 bits; otherwise the
      length check refuses the bytes. */
  lemma CellRoundTrip(cell: MultiProofCell)
    ensures |cell.scalars| <= U32_MAX ==> CellFromBytes(cell.position, CellToBytes(cell)) == Ok(cell)
    ensures |cell.scalars| > U32_MAX ==> CellFromBytes(cell.position, CellToBytes(cell)) == Err(ScalarLengthMismatch)
  {
    var b, n := CellToBytes(cell), |cell.scalars| % 0x1_0000_0000;
    hide *;
    CountIsCut(|cell.scalars|);
    WrittenFields(cell, n);
    BlockRoundTrip(cell.gcellBlock);
    ToLeWidth(n, 4);
    ScalarsRoundTrip(cell.scalars);
    ReadFields(cell, b, n);
  }

  lemma CountIsCut(n: nat)
    ensures n % 0x1_0000_0000 < 0x1_0000_0000 && (n <= U32_MAX <==> n % 0x1_0000_0000 == n)
  {}

  lemma ReadFields(cell: MultiProofCell, b: seq<byte>, n: nat)
    requires |b| >= 68 && b[0..48] == cell.proof && BlockFromBytes(b[48..64]) == Ok(cell.gcellBlock)
    requires FromLe(b[64..68]) == n && |b[68..|b|]| == 32 * |cell.scalars|
    requires ScalarsFromBytes(b[68..|b|]) == cell.scalars
    ensures CellFromBytes(cell.position, b) == if n == |cell.scalars| then Ok(cell) else Err(ScalarLengthMismatch)
  {
    hide BlockFromBytes, FromLe, ScalarsFromBytes;
  }

  lemma WrittenFields(cell: MultiProofCell, n: nat)
    requires n == |cell.scalars| % 0x1_0000_0000
    ensures var b := CellToBytes(cell);
      && |b| >= 68 && b[0..48] == cell.proof && b[48..64] == BlockToBytes(cell.gcellBlock)
      && b[64..68] == ToLe(n, 4) && b[68..|b|] == ScalarsToBytes(cell.scalars)
      && |b[68..|b|]| == 32 * |cell.scalars|
  {
    hide BlockToBytes, ToLe, ScalarsToBytes;
    SlicesOfFour(cell.proof, BlockToBytes(cell.gcellBlock), ToLe(n, 4), ScalarsToBytes(cell.scalars));
  }

  lemma AcceptedFields(position: Position, bytes: seq<byte>, cell: MultiProofCell)
    requires CellFromBytes(position, bytes) == Ok(cell)
    ensures |bytes| >= 68 && cell.position == position && cell.proof == bytes[0..48]
    ensures BlockFromBytes(bytes[48..64]) == Ok(cell.gcellBlock)
    ensures ScalarsFromBytes(bytes[68..|bytes|]) == cell.scalars && |bytes[68..|bytes|]| % 32 == 0
    ensures |cell.scalars| == FromLe(bytes[64..68]) <= U32_MAX
  {
    hide BlockFromBytes, FromLe, ScalarsFromBytes;
  }

  /** Every accepted byte string is the form of the cell it is read as: no two byte strings give the same cell. */
  lemma CellIsReproduced(position: Position, bytes: seq<byte>)
    requires CellFromBytes(position, bytes).Ok?
    ensures CellToBytes(CellFromBytes(position, bytes).value) == bytes
    ensures CellFromBytes(position, bytes).value.position == position
  {
    hide CellFromBytes, BlockToBytes, BlockFromBytes, ToLe, FromLe, ScalarsToBytes, ScalarsFromBytes;
    AcceptedFields(position, bytes, CellFromBytes(position, bytes).value);
    BlockIsReproduced(bytes[48..64]);
    ToLeOfFromLe(bytes[64..68]);
    ScalarsAreReproduced(bytes[68..|bytes|]);
    JoinOfFour(bytes, 48, 64, 68);
  }

  // ---------- The layout of the bytes ----------

  function Reversed(b: seq<byte>): (r: seq<byte>)
    ensures |r| == |b| && forall i :: 0 <= i < |b| ==> r[i] == b[|b| - 1 - i]
  {
    if b == [] then [] else [b[|b| - 1]] + Reversed(b[..|b| - 1])
  }

  /** The most significant byte is first: the value is that of the reversed bytes, the least significant first. */
  lemma {:induction false} BigEndianIsReversed(b: seq<byte>)
    ensures FromBe(b) == FromLe(Reversed(b))
  {
    if b != [] {
      BigEndianIsReversed(b[..|b| - 1]);
      assert Reversed(b)[1..] == Reversed(b[..|b| - 1]);
    }
  }

  /** Limb k of scalar i is in the eight bytes from 32 i + 8 k on, the most significant first. */
  lemma {:induction false} LimbInBytes(scalars: seq<Limbs>, i: nat, k: nat)
    requires i < |scalars| && k < 4
    ensures FromLe(Reversed(ScalarsToBytes(scalars)[32 * i + 8 * k..32 * i + 8 * k + 8])) == scalars[i][k]
  {
    hide LimbsToBytes, FromLe, Reversed;
    var front, last := scalars[..|scalars| - 1], scalars[|scalars| - 1];
    var b, c := ScalarsToBytes(front), LimbsToBytes(last);
    assert ScalarsToBytes(scalars) == b + c;
    hide ScalarsToBytes;
    if i < |front| {
      LimbInBytes(front, i, k);
      assert (b + c)[32 * i + 8 * k..32 * i + 8 * k + 8] == b[32 * i + 8 * k..32 * i + 8 * k + 8];
    } else {
      assert (b + c)[32 * i + 8 * k..32 * i + 8 * k + 8] == c[8 * k..8 * k + 8];
      LimbSlice(last, k);
      BigEndianIsReversed(ToBe(last[k], 8));
      LimbRoundTrip(last[k]);
      hide ToBe, FromBe;
    }
  }

  /** Where each field of a written cell is: the proof, the four corners of the block and the count, the least
      significant byte first, then the limbs. */
  lemma CellLayout(cell: MultiProofCell)
    ensures var b, g, n := CellToBytes(cell), cell.gcellBlock, |cell.scalars|;
      && |b| == 68 + 32 * n && b[..48] == cell.proof
      && FromLe(b[48..52]) == g.startX && FromLe(b[52..56]) == g.startY
      && FromLe(b[56..60]) == g.endX && FromLe(b[60..64]) == g.endY
      && FromLe(b[64..68]) == n % 0x1_0000_0000
      && forall i, k :: 0 <= i < n && 0 <= k < 4 ==>
        FromLe(Reversed(b[68..][32 * i + 8 * k..32 * i + 8 * k + 8])) == cell.scalars[i][k]
  {
    var b, g, n := CellToBytes(cell), cell.gcellBlock, |cell.scalars|;
    WrittenFields(cell, n % 0x1_0000_0000);
    BlockLayout(g);
    hide BlockToBytes, ToLe, FromLe, ScalarsToBytes, CellToBytes, Reversed;
    var c := b[48..64];
    assert b[48..52] == c[0..4] && b[52..56] == c[4..8] && b[56..60] == c[8..12] && b[60..64] == c[12..16];
    assert b[..48] == b[0..48] && b[68..] == b[68..|b|];
    ToLeWidth(n % 0x1_0000_0000, 4);
    forall i, k | 0 <= i < n && 0 <= k < 4
      ensures FromLe(Reversed(b[68..][32 * i + 8 * k..32 * i + 8 * k + 8])) == cell.scalars[i][k]
    {
      LimbInBytes(cell.scalars, i, k);
    }
  }

  lemma BlockLayout(g: GCellBlock)
    ensures var c := BlockToBytes(g);
      && FromLe(c[0..4]) == g.startX && FromLe(c[4..8]) == g.startY
      && FromLe(c[8..12]) == g.endX && FromLe(c[12..16]) == g.endY
  {
    hide ToLe, FromLe;
    SlicesOfFour(ToLe(g.startX, 4), ToLe(g.startY, 4), ToLe(g.endX, 4), ToLe(g.endY, 4));
    ToLeWidth(g.startX, 4);
    ToLeWidth(g.startY, 4);
    ToLeWidth(g.endX, 4);
    ToLeWidth(g.endY, 4);
  }

  /** Which byte strings are read as a cell: those with the fixed fields and exactly the scalars they announce. */
  lemma CellAcceptsExactly(position: Position, bytes: seq<byte>)
    ensures var r := CellFromBytes(position, bytes);
      if |bytes| < 68 then r == Err(InputTooShort)
      else if |bytes| != 68 + 32 * FromLe(bytes[64..68]) then r == Err(ScalarLengthMismatch)
      else r.Ok?
  {
    hide FromLe, ScalarsFromBytes;
  }
}
