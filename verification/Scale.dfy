/** The SCALE encoding of a list of byte strings (`Vec<Vec<u8>>`), as in the Polkadot Protocol Specification,
    section A.2.2: compact lengths, lists as length and items. */
module Scale {
  import opened Results
  import opened Bytes

  /** The compact form of a number below 2^32: one, two or four bytes with a two-bit mode, or a marker and four
      bytes. */
  function CompactEncode(n: u32): (s: seq<byte>)
    ensures 1 <= |s| <= 5
  {
    if n < 0x40 then [4 * n]
    else if n < 0x4000 then ToLe(4 * n + 1, 2)
    else if n < 0x4000_0000 then ToLe(4 * n + 2, 4)
    else [3] + ToLe(n, 4)
  }

  /** Reads a compact number; a form longer than needed is rejected. */
  function CompactDecode(s: seq<byte>): (r: Option<(u32, seq<byte>)>)
    ensures r.Some? ==> |r.value.1| < |s|
  {
    if s == [] then None
    else if s[0] % 4 == 0 then Some((s[0] / 4, s[1..]))
    else if s[0] % 4 == 1 then
      if |s| < 2 then None else
      var v := FromLe(s[..2]) / 4;
      FromLeWidth(s[..2]);
      if v > 0x3f then Some((v, s[2..])) else None
    else if s[0] % 4 == 2 then
      if |s| < 4 then None else
      var v := FromLe(s[..4]) / 4;
      FromLeWidth(s[..4]);
      if v > 0x3fff then Some((v, s[4..])) else None
    else
      if s[0] != 3 || |s| < 5 then None else
      var v := FromLe(s[1..5]);
      FromLeWidth(s[1..5]);
      if v > 0x3fff_ffff then Some((v, s[5..])) else None
  }

  /** `Vec<u8>`; its length must fit the compact form. */
  function EncodeBytes(d: seq<byte>): seq<byte>
    requires |d| <= U32_MAX
  {
    CompactEncode(|d|) + d
  }

  function DecodeBytes(s: seq<byte>): (r: Option<(seq<byte>, seq<byte>)>)
    ensures r.Some? ==> |r.value.1| < |s|
  {
    var (n, rest) :- CompactDecode(s);
    if |rest| < n then None else Some((rest[..n], rest[n..]))
  }

  /** The codec panics on a list or an item longer than `u32::MAX`. */
  predicate Encodable(items: seq<seq<byte>>) {
    |items| <= U32_MAX && forall i :: 0 <= i < |items| ==> |items[i]| <= U32_MAX
  }

  function EncodeItems(items: seq<seq<byte>>): seq<byte>
    requires forall i :: 0 <= i < |items| ==> |items[i]| <= U32_MAX
  {
    if items == [] then [] else EncodeBytes(items[0]) + EncodeItems(items[1..])
  }

  function DecodeItems(n: nat, s: seq<byte>): (r: Option<(seq<seq<byte>>, seq<byte>)>) {
    if n == 0 then Some(([], s)) else
    var (d, rest) :- DecodeBytes(s);
    var (ds, left) :- DecodeItems(n - 1, rest);
    Some(([d] + ds, left))
  }

  function Encode(items: seq<seq<byte>>): (s: seq<byte>)
    requires Encodable(items)
    ensures |s| > 0
  {
    CompactEncode(|items|) + EncodeItems(items)
  }

  function Decode(s: seq<byte>): Option<(seq<seq<byte>>, seq<byte>)> {
    var (n, rest) :- CompactDecode(s);
    DecodeItems(n, rest)
  }

  // ---------- Round trips ----------

  lemma CompactRoundTrip(n: u32, rest: seq<byte>)
    ensures CompactDecode(CompactEncode(n) + rest) == Some((n, rest))
  {
    var e := CompactEncode(n);
    if n < 0x40 {
    } else if n < 0x4000 {
      CompactTwo(n, e, rest);
    } else if n < 0x4000_0000 {
      CompactFour(n, e, rest);
    } else {
      ToLeWidth(n, 4);
      hide FromLe, ToLe;
      SplitPrefix(e, rest, 5);
      assert (e + rest)[1..5] == e[1..5] == ToLe(n, 4);
    }
  }

  lemma CompactTwo(n: u32, e: seq<byte>, rest: seq<byte>)
    requires 0x40 <= n < 0x4000 && e == ToLe(4 * n + 1, 2)
    ensures CompactDecode(e + rest) == Some((n, rest))
  {
    ToLeWidth(4 * n + 1, 2);
    LowBits(n, 1);
    hide FromLe, ToLe, CompactDecode;
    SplitPrefix(e, rest, 2);
    DecodeTwo(e + rest, n);
  }

  lemma CompactFour(n: u32, e: seq<byte>, rest: seq<byte>)
    requires 0x4000 <= n < 0x4000_0000 && e == ToLe(4 * n + 2, 4)
    ensures CompactDecode(e + rest) == Some((n, rest))
  {
    ToLeWidth(4 * n + 2, 4);
    LowBits(n, 2);
    hide FromLe, ToLe, CompactDecode;
    SplitPrefix(e, rest, 4);
    DecodeFour(e + rest, n);
  }

  lemma LowBits(n: nat, mode: nat)
    requires mode < 4
    ensures (4 * n + mode) % 256 % 4 == mode
  {}

  lemma DecodeTwo(s: seq<byte>, n: nat)
    requires |s| >= 2 && s[0] % 4 == 1 && FromLe(s[..2]) == 4 * n + 1 && n > 0x3f
    ensures CompactDecode(s) == Some((n, s[2..]))
  {
    hide FromLe;
  }

  lemma DecodeFour(s: seq<byte>, n: nat)
    requires |s| >= 4 && s[0] % 4 == 2 && FromLe(s[..4]) == 4 * n + 2 && n > 0x3fff
    ensures CompactDecode(s) == Some((n, s[4..]))
  {
    hide FromLe;
  }

  lemma SplitPrefix(a: seq<byte>, b: seq<byte>, n: nat)
    requires |a| == n
    ensures (a + b)[..n] == a && (a + b)[n..] == b && (n > 0 ==> (a + b)[0] == a[0])
  {}

  lemma CompactIsCanonical(s: seq<byte>)
    requires CompactDecode(s).Some?
    ensures s == CompactEncode(CompactDecode(s).value.0) + CompactDecode(s).value.1
  {
    if s[0] % 4 == 1 {
      CanonicalTwo(s);
    } else if s[0] % 4 == 2 {
      CanonicalFour(s);
    } else if s[0] % 4 == 3 {
      ToLeOfFromLe(s[1..5]);
      hide FromLe, ToLe;
      assert s == [3] + s[1..5] + s[5..];
    }
  }

  lemma CanonicalTwo(s: seq<byte>)
    requires CompactDecode(s).Some? && s[0] % 4 == 1
    ensures s == CompactEncode(CompactDecode(s).value.0) + CompactDecode(s).value.1
  {
    var v := DecodedTwo(s);
    hide *;
    ToLeOfFromLe(s[..2]);
    EncodedTwo(v);
    assert s == s[..2] + s[2..];
  }

  lemma DecodedTwo(s: seq<byte>) returns (v: nat)
    requires CompactDecode(s).Some? && s[0] % 4 == 1
    ensures |s| >= 2 && v < 0x4000 && v > 0x3f
    ensures FromLe(s[..2]) == 4 * v + 1 && CompactDecode(s) == Some((v, s[2..]))
  {
    FromLeWidth(s[..2]);
    hide FromLe;
    v := FromLe(s[..2]) / 4;
    LowBitsOf(FromLe(s[..2]), s[0], 1);
  }

  /** The two low bits of a number are those of its low byte. */
  lemma LowBitsOf(v: nat, low: nat, mode: nat)
    requires v % 256 == low && low % 4 == mode
    ensures v == 4 * (v / 4) + mode
  {}

  lemma EncodedTwo(v: u32)
    requires 0x3f < v < 0x4000
    ensures CompactEncode(v) == ToLe(4 * v + 1, 2)
  {
    hide ToLe;
  }

  lemma CanonicalFour(s: seq<byte>)
    requires CompactDecode(s).Some? && s[0] % 4 == 2
    ensures s == CompactEncode(CompactDecode(s).value.0) + CompactDecode(s).value.1
  {
    var v := DecodedFour(s);
    hide *;
    ToLeOfFromLe(s[..4]);
    EncodedFour(v);
    assert s == s[..4] + s[4..];
  }

  lemma DecodedFour(s: seq<byte>) returns (v: nat)
    requires CompactDecode(s).Some? && s[0] % 4 == 2
    ensures |s| >= 4 && 0x3fff < v < 0x4000_0000
    ensures FromLe(s[..4]) == 4 * v + 2 && CompactDecode(s) == Some((v, s[4..]))
  {
    FromLeWidth(s[..4]);
    hide FromLe;
    v := FromLe(s[..4]) / 4;
    LowBitsOf(FromLe(s[..4]), s[0], 2);
  }

  lemma EncodedFour(v: u32)
    requires 0x3fff < v < 0x4000_0000
    ensures CompactEncode(v) == ToLe(4 * v + 2, 4)
  {
    hide ToLe;
  }

  lemma BytesRoundTrip(d: seq<byte>, rest: seq<byte>)
    requires |d| <= U32_MAX
    ensures DecodeBytes(EncodeBytes(d) + rest) == Some((d, rest))
  {
    hide CompactEncode, CompactDecode;
    CompactRoundTrip(|d|, d + rest);
    assert EncodeBytes(d) + rest == CompactEncode(|d|) + (d + rest);
  }

  lemma {:induction false} ItemsRoundTrip(items: seq<seq<byte>>, rest: seq<byte>)
    requires forall i :: 0 <= i < |items| ==> |items[i]| <= U32_MAX
    ensures DecodeItems(|items|, EncodeItems(items) + rest) == Some((items, rest))
  {
    if items == [] {
      assert EncodeItems(items) + rest == rest;
    } else {
      EncodeItemsStep(items, rest);
      hide EncodeItems, DecodeItems, EncodeBytes, DecodeBytes;
      var tail := EncodeItems(items[1..]) + rest;
      BytesRoundTrip(items[0], tail);
      ItemsRoundTrip(items[1..], rest);
      DecodeItemsStep(|items|, EncodeBytes(items[0]) + tail, items[0], tail, items[1..], rest);
      assert items == [items[0]] + items[1..];
    }
  }

  lemma EncodeItemsStep(items: seq<seq<byte>>, rest: seq<byte>)
    requires items != [] && forall i :: 0 <= i < |items| ==> |items[i]| <= U32_MAX
    ensures EncodeItems(items) + rest == EncodeBytes(items[0]) + (EncodeItems(items[1..]) + rest)
  {
    hide EncodeBytes;
  }

  lemma DecodeItemsStep(n: nat, s: seq<byte>, d: seq<byte>, tail: seq<byte>, ds: seq<seq<byte>>, left: seq<byte>)
    requires n > 0 && DecodeBytes(s) == Some((d, tail)) && DecodeItems(n - 1, tail) == Some((ds, left))
    ensures DecodeItems(n, s) == Some(([d] + ds, left))
  {
    hide DecodeBytes;
  }

  /** Decoding what was encoded gives the list back and leaves what follows it. */
  lemma RoundTrip(items: seq<seq<byte>>, rest: seq<byte>)
    requires Encodable(items)
    ensures Decode(Encode(items) + rest) == Some((items, rest))
  {
    hide CompactEncode, CompactDecode, EncodeItems, DecodeItems;
    var tail := EncodeItems(items) + rest;
    assert Encode(items) + rest == CompactEncode(|items|) + tail;
    CompactRoundTrip(|items|, tail);
    ItemsRoundTrip(items, rest);
  }

  lemma {:induction false} ItemsAreCanonical(n: nat, s: seq<byte>)
    requires DecodeItems(n, s).Some?
    ensures var (items, rest) := DecodeItems(n, s).value;
      && |items| == n && (forall i :: 0 <= i < n ==> |items[i]| <= U32_MAX)
      && s == EncodeItems(items) + rest
  {
    hide EncodeBytes, DecodeBytes;
    if n > 0 {
      var (d, tail) := DecodeBytes(s).value;
      BytesAreCanonical(s);
      ItemsAreCanonical(n - 1, tail);
      var more := DecodeItems(n - 1, tail).value.0;
      assert DecodeItems(n, s).value == ([d] + more, DecodeItems(n - 1, tail).value.1);
      assert ([d] + more)[1..] == more;
    }
  }

  lemma BytesAreCanonical(s: seq<byte>)
    requires DecodeBytes(s).Some?
    ensures |DecodeBytes(s).value.0| <= U32_MAX
    ensures s == EncodeBytes(DecodeBytes(s).value.0) + DecodeBytes(s).value.1
  {
    hide CompactEncode, CompactDecode;
    var (n, rest) := CompactDecode(s).value;
    CompactIsCanonical(s);
    assert rest == rest[..n] + rest[n..];
  }

  /** Every byte string that decodes is the encoding of what it decodes to, followed by what is left. */
  lemma DecodeIsCanonical(s: seq<byte>)
    requires Decode(s).Some?
    ensures var (items, rest) := Decode(s).value;
      Encodable(items) && s == Encode(items) + rest
  {
    hide CompactEncode, CompactDecode, EncodeItems, DecodeItems;
    var (n, tail) := CompactDecode(s).value;
    CompactIsCanonical(s);
    ItemsAreCanonical(n, tail);
  }

  // ---------- The published format ----------

  /** The worked examples of the format: each mode of the compact form, and a list of two byte strings. */
  lemma EncodingsAsPublished()
    ensures CompactEncode(0) == [0x00] && CompactEncode(1) == [0x04] && CompactEncode(42) == [0xa8]
    ensures CompactEncode(69) == [0x15, 0x01]
    ensures CompactEncode(65535) == [0xfe, 0xff, 0x03, 0x00]
    ensures CompactEncode(0x4000_0000) == [0x03, 0x00, 0x00, 0x00, 0x40]
    ensures Encode([[1, 2], [3]]) == [0x08, 0x08, 1, 2, 0x04, 3]
  {
    LeastFirst(277, 2, 21, 1);
    LeastFirst(1, 1, 1, 0);
    LeastFirst(0x3fffe, 4, 0xfe, 0x3ff);
    LeastFirst(0x3ff, 3, 0xff, 3);
    LeastFirst(3, 2, 3, 0);
    LeastFirst(0, 1, 0, 0);
    LeastFirst(0x4000_0000, 4, 0, 0x40_0000);
    LeastFirst(0x40_0000, 3, 0, 0x4000);
    LeastFirst(0x4000, 2, 0, 0x40);
    LeastFirst(0x40, 1, 0x40, 0);
    TwoItems([1, 2], [3]);
    hide ToLe;
  }

  lemma LeastFirst(v: nat, n: nat, low: byte, high: nat)
    requires n > 0 && v == 256 * high + low
    ensures ToLe(v, n) == [low] + ToLe(high, n - 1) && ToLe(high, 0) == []
  {}

  lemma TwoItems(a: seq<byte>, b: seq<byte>)
    requires |a| < 64 && |b| < 64
    ensures Encode([a, b]) == [8, 4 * |a|] + a + [4 * |b|] + b
  {
    var items := [a, b];
    assert items[1..] == [b] && [b][1..] == [];
    assert EncodeItems([b]) == EncodeBytes(b) + EncodeItems([]);
    assert EncodeItems(items) == EncodeBytes(a) + EncodeItems([b]);
  }
}
