/** A reader over a deque of byte slices, and decoding through it
    (kate/recovery/src/sparse_slice_read.rs, used by `unflatten_padded_data`). */
module SparseSliceRead {
  import opened Results
  import opened Bytes
  import Scale

  /** `before` with the bytes from `at` on replaced by `source`. */
  ghost function Overwritten(before: seq<byte>, at: nat, source: seq<byte>): (after: seq<byte>)
    requires at + |source| <= |before|
    ensures |after| == |before|
  {
    before[..at] + source + before[at + |source|..]
  }

  /** After some bytes of `all` were read into `before` at `from`: what the buffer holds now, and what is left. */
  ghost predicate ReadSoFar(before: seq<byte>, from: nat, all: seq<byte>, bytes: nat, now: seq<byte>, left: seq<byte>) {
    && bytes <= |all| && from + bytes <= |before|
    && now == Overwritten(before, from, all[..bytes]) && left == all[bytes..]
  }

  class SparseSliceRead {
    var parts: seq<seq<byte>>

    constructor (parts: seq<seq<byte>>)
      ensures this.parts == parts
    {
      this.parts := parts;
    }

    /** The bytes still to be read: the concatenation of the remaining parts. */
    ghost function Contents(): seq<byte>
      reads this
    {
      Concat(parts)
    }

    /** Fills `buf` from index `from` on with as many bytes as there are, skipping over part borders. */
    method Read(buf: array<byte>, from: nat) returns (bytes: nat)
      requires from <= buf.Length
      modifies this, buf
      ensures bytes == if buf.Length - from <= |old(Contents())| then buf.Length - from else |old(Contents())|
      ensures buf[..] == Overwritten(old(buf[..]), from, old(Contents())[..bytes])
      ensures Contents() == old(Contents())[bytes..]
    {
      ghost var all, before := Contents(), buf[..];
      bytes := 0;
      ReadNothing(before, from, all);
      ConcatNothing();
      hide Overwritten, Concat, ReadSoFar;
      while from + bytes < buf.Length && parts != []
        invariant from + bytes <= buf.Length
        invariant ReadSoFar(before, from, all, bytes, buf[..], Concat(parts))
        decreases |parts| + (buf.Length - from - bytes)
      {
        bytes := ReadPart(buf, from, bytes, before, all);
      }
      ReadSoFarUnfolds(before, from, all, bytes, buf[..], Concat(parts));
    }

    /** One turn of the loop of `read`, as progress through all the bytes. */
    method ReadPart(buf: array<byte>, from: nat, bytes: nat, ghost before: seq<byte>, ghost all: seq<byte>)
      returns (more: nat)
      requires parts != [] && from + bytes < buf.Length
      requires ReadSoFar(before, from, all, bytes, buf[..], Concat(parts))
      modifies this, buf
      ensures bytes <= more && from + more <= buf.Length && |parts| - more < |old(parts)| - bytes
      ensures ReadSoFar(before, from, all, more, buf[..], Concat(parts))
    {
      hide Overwritten, Concat, ReadSoFar;
      ghost var now, left := buf[..], Concat(parts);
      ReadSoFarUnfolds(before, from, all, bytes, now, left);
      var copied := CopyNext(buf, from + bytes);
      ReadStep(before, from, all, bytes, copied, now, left);
      more := bytes + copied;
    }

    /** One turn of the loop of `read`: takes the front part, copies what fits, and puts the rest of it back. */
    method CopyNext(buf: array<byte>, at: nat) returns (copied: nat)
      requires parts != [] && at < buf.Length
      modifies this, buf
      ensures copied <= |old(Concat(parts))| && at + copied <= buf.Length
      ensures Concat(parts) == old(Concat(parts))[copied..]
      ensures buf[..] == Overwritten(old(buf[..]), at, old(Concat(parts))[..copied])
      ensures |parts| - copied < |old(parts)|
    {
      hide Overwritten, Concat;
      var next := parts[0];
      ConcatCons(next, parts[1..]);
      assert parts == [next] + parts[1..];
      parts := parts[1..];
      copied := if |next| <= buf.Length - at then |next| else buf.Length - at;
      CopyInto(buf, at, next[..copied]);
      assert (next + Concat(parts))[..copied] == next[..copied];
      if copied < |next| {
        ConcatCons(next[copied..], parts);
        assert (next + Concat(parts))[copied..] == next[copied..] + Concat(parts);
        parts := [next[copied..]] + parts;
      }
    }

    static lemma ConcatNothing()
      ensures Concat([]) == []
    {}

    static lemma ConcatCons(p: seq<byte>, ps: seq<seq<byte>>)
      ensures Concat([p] + ps) == p + Concat(ps)
    {}

    static lemma OverwriteNothing(before: seq<byte>, from: nat)
      requires from <= |before|
      ensures Overwritten(before, from, []) == before
    {}

    static lemma ReadNothing(before: seq<byte>, from: nat, all: seq<byte>)
      requires from <= |before|
      ensures ReadSoFar(before, from, all, 0, before, all)
    {
      OverwriteNothing(before, from);
    }

    static lemma ReadSoFarUnfolds(before: seq<byte>, from: nat, all: seq<byte>, bytes: nat, now: seq<byte>,
                                  left: seq<byte>)
      requires ReadSoFar(before, from, all, bytes, now, left)
      ensures bytes <= |all| && from + bytes <= |before|
      ensures now == Overwritten(before, from, all[..bytes]) && left == all[bytes..]
    {
      hide Overwritten;
    }

    /** Writing the next bytes behind those already written, and taking them off what is left. */
    static lemma ReadStep(before: seq<byte>, from: nat, all: seq<byte>, bytes: nat, copied: nat, now: seq<byte>,
                          left: seq<byte>)
      requires ReadSoFar(before, from, all, bytes, now, left) && copied <= |left| && from + bytes + copied <= |before|
      ensures |now| == |before|
      ensures ReadSoFar(before, from, all, bytes + copied,
                        Overwritten(now, from + bytes, left[..copied]), left[copied..])
    {
      assert all[..bytes + copied] == all[..bytes] + left[..copied];
    }

    /** `copy_from_slice` into the buffer at an offset. */
    static method CopyInto(buf: array<byte>, at: nat, source: seq<byte>)
      requires at + |source| <= buf.Length
      modifies buf
      ensures buf[..] == Overwritten(old(buf[..]), at, source)
    {
      for i := 0 to |source|
        invariant forall k :: 0 <= k < buf.Length ==>
          buf[k] == if at <= k < at + i then source[k - at] else old(buf[k])
      {
        buf[at + i] := source[i];
      }
    }

    /** Any run of reads, into buffers of any lengths: what they yield, and then what is left, is what there was; a read
        falls short only when nothing is left. */
    method ReadRun(lengths: seq<nat>) returns (got: seq<seq<byte>>)
      modifies this
      ensures |got| == |lengths| && Concat(got) + Contents() == old(Contents())
      ensures forall i :: 0 <= i < |got| ==> |got[i]| <= lengths[i]
      ensures forall i :: 0 <= i < |got| && |got[i]| < lengths[i] ==> Contents() == []
    {
      got := [];
      hide Concat;
      ConcatNothing();
      for i := 0 to |lengths|
        invariant |got| == i && Concat(got) + Contents() == old(Contents())
        invariant forall k :: 0 <= k < i ==> |got[k]| <= lengths[k]
        invariant forall k :: 0 <= k < i && |got[k]| < lengths[k] ==> Contents() == []
      {
        ghost var left := Contents();
        var next := ReadOnce(lengths[i]);
        ConcatSnoc(got, next);
        RunStep(Concat(got), left, |next|);
        got := got + [next];
      }
    }

    /** One `read` into a fresh buffer of n bytes. */
    method ReadOnce(n: nat) returns (next: seq<byte>)
      modifies this
      ensures |next| == if n <= |old(Contents())| then n else |old(Contents())|
      ensures next == old(Contents())[..|next|] && Contents() == old(Contents())[|next|..]
    {
      var buf := new byte[n];
      ghost var all := Contents();
      var bytes := Read(buf, 0);
      assert buf[..bytes] == all[..bytes];
      next := buf[..bytes];
    }

    static lemma ConcatSnoc(a: seq<seq<byte>>, b: seq<byte>)
      ensures Concat(a + [b]) == Concat(a) + b
    {
      ConcatAppend(a, [b]);
      assert Concat([b]) == b + Concat([b][1..]);
    }

    static lemma RunStep(done: seq<byte>, left: seq<byte>, n: nat)
      requires n <= |left|
      ensures (done + left[..n]) + left[n..] == done + left
    {}

    /** `read_exact`: repeats `read` until the buffer is full, or fails when a call returns nothing. */
    method ReadExact(n: nat) returns (r: Option<seq<byte>>)
      modifies this
      ensures r == if n <= |old(Contents())| then Some(old(Contents())[..n]) else None
      ensures r.Some? ==> Contents() == old(Contents())[n..]
    {
      ghost var all := Contents();
      var buf := new byte[n];
      var filled := 0;
      while filled < n
        invariant filled <= n && filled <= |all|
        invariant buf[..filled] == all[..filled]
        invariant Contents() == all[filled..]
        invariant fresh(buf)
        decreases n - filled
      {
        var got := Read(buf, filled);
        if got == 0 {
          return None;
        }
        assert buf[..filled + got] == all[..filled] + all[filled..][..got];
        filled := filled + got;
      }
      assert buf[..] == buf[..n];
      r := Some(buf[..]);
    }

    /** `Compact<u32>::decode`: the mode in the first byte says how many more to read. */
    method DecodeCompact() returns (r: Option<u32>)
      modifies this
      ensures match Scale.CompactDecode(old(Contents()))
        case Some((n, rest)) => r == Some(n) && Contents() == rest
        case None => r == None
    {
      ghost var all := Contents();
      var first := ReadExact(1);
      if first == None { return None; }
      var prefix := first.value[0];
      if prefix % 4 == 0 {
        return Some(prefix / 4);
      }
      if prefix == 3 {
        var four := ReadExact(4);
        if four == None { return None; }
        FromLeWidth(four.value);
        assert four.value == all[1..5];
        return if FromLe(four.value) > 0x3fff_ffff then Some(FromLe(four.value)) else None;
      }
      if prefix % 4 == 3 { return None; }
      var width := if prefix % 4 == 1 then 2 else 4;
      var more := ReadExact(width - 1);
      if more == None { return None; }
      assert [prefix] + more.value == all[..width];
      FromLeWidth([prefix] + more.value);
      var v := FromLe([prefix] + more.value) / 4;
      r := if v > (if width == 2 then 0x3f else 0x3fff) then Some(v) else None;
    }

    /** `Vec<u8>::decode`. */
    method DecodeBytes() returns (r: Option<seq<byte>>)
      modifies this
      ensures match Scale.DecodeBytes(old(Contents()))
        case Some((data, rest)) => r == Some(data) && Contents() == rest
        case None => r == None
    {
      var length := DecodeCompact();
      if length == None { return None; }
      r := ReadExact(length.value);
    }

    /** `Vec<Vec<u8>>::decode` through the reader agrees with decoding the concatenation of its parts. */
    method DecodeAppData() returns (r: Option<seq<seq<byte>>>)
      modifies this
      ensures match Scale.Decode(old(Contents()))
        case Some((items, rest)) => r == Some(items) && Contents() == rest
        case None => r == None
    {
      hide Concat, Scale.CompactDecode, Scale.DecodeItems, Scale.DecodeBytes;
      var count := DecodeCompact();
      if count == None { return None; }
      ghost var whole := Scale.DecodeItems(count.value, Contents());
      var items := [];
      PrependNothing(whole);
      for i := 0 to count.value
        invariant whole == Prepend(items, Scale.DecodeItems(count.value - i, Contents()))
      {
        ghost var here := Contents();
        var data := DecodeBytes();
        ItemStep(count.value - i, here);
        if data == None { return None; }
        PrependStep(items, data.value, Scale.DecodeItems(count.value - i - 1, Contents()));
        items := items + [data.value];
      }
      ItemsDone(Contents());
      assert items + [] == items;
      r := Some(items);
    }
  }

  ghost function Prepend(items: seq<seq<byte>>, r: Option<(seq<seq<byte>>, seq<byte>)>)
    : Option<(seq<seq<byte>>, seq<byte>)>
  {
    if r == None then None else Some((items + r.value.0, r.value.1))
  }

  lemma PrependNothing(r: Option<(seq<seq<byte>>, seq<byte>)>)
    ensures Prepend([], r) == r
  {
    if r.Some? {
      assert [] + r.value.0 == r.value.0;
    }
  }

  lemma PrependStep(items: seq<seq<byte>>, d: seq<byte>, r: Option<(seq<seq<byte>>, seq<byte>)>)
    ensures Prepend(items, Prepend([d], r)) == Prepend(items + [d], r)
  {
    if r.Some? {
      assert items + ([d] + r.value.0) == items + [d] + r.value.0;
    }
  }

  lemma ItemsDone(s: seq<byte>)
    ensures Scale.DecodeItems(0, s) == Some(([], s))
  {}

  lemma ItemStep(n: nat, s: seq<byte>)
    requires n > 0
    ensures Scale.DecodeItems(n, s) == match Scale.DecodeBytes(s)
      case Some((d, rest)) => Prepend([d], Scale.DecodeItems(n - 1, rest))
      case None => None
  {}
}
