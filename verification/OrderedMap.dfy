/** A `BTreeMap` from 32-bit keys to lists, held as its entries in key order. */
module OrderedMap {
  import opened Bytes

  type Entries<T> = seq<(u32, seq<T>)>

  /** What the map holds for a key; nothing when the key does not occur. */
  function Lookup<T>(m: Entries<T>, key: u32): seq<T> {
    if m == [] then []
    else if m[0].0 == key then m[0].1
    else Lookup(m[1..], key)
  }

  /** `entry(key).or_default()`, extended at its end. */
  function Append<T>(m: Entries<T>, key: u32, more: seq<T>): Entries<T> {
    if m == [] || key < m[0].0 then [(key, more)] + m
    else if m[0].0 == key then [(key, m[0].1 + more)] + m[1..]
    else [m[0]] + Append(m[1..], key, more)
  }

  ghost predicate KeysAscend<T>(m: Entries<T>) {
    forall i, j :: 0 <= i < j < |m| ==> m[i].0 < m[j].0
  }

  ghost predicate HasKey<T>(m: Entries<T>, key: u32) {
    exists i :: 0 <= i < |m| && m[i].0 == key
  }

  lemma KeysOfTail<T>(m: Entries<T>, key: u32)
    requires m != []
    ensures HasKey(m, key) <==> m[0].0 == key || HasKey(m[1..], key)
    ensures KeysAscend(m) ==> KeysAscend(m[1..])
    ensures KeysAscend(m) && key <= m[0].0 ==> !HasKey(m[1..], key)
  {
    var t := m[1..];
    assert forall i :: 0 <= i < |t| ==> t[i] == m[i + 1];
    if HasKey(m, key) && m[0].0 != key {
      var i :| 0 <= i < |m| && m[i].0 == key;
      assert t[i - 1].0 == key;
    }
    if i :| 0 <= i < |t| && t[i].0 == key {
      assert m[i + 1].0 == key;
    }
  }

  lemma {:induction false} LookupMissing<T>(m: Entries<T>, key: u32)
    requires !HasKey(m, key)
    ensures Lookup(m, key) == []
  {
    if m != [] {
      KeysOfTail(m, key);
      LookupMissing(m[1..], key);
    }
  }

  lemma {:induction false} LookupAt<T>(m: Entries<T>, i: nat)
    requires KeysAscend(m) && i < |m|
    ensures Lookup(m, m[i].0) == m[i].1
  {
    if i > 0 {
      assert m[0].0 < m[i].0;
      KeysOfTail(m, m[i].0);
      LookupAt(m[1..], i - 1);
    }
  }

  lemma {:induction false} AppendKeys<T>(m: Entries<T>, key: u32, more: seq<T>)
    requires KeysAscend(m)
    ensures KeysAscend(Append(m, key, more)) && Append(m, key, more) != []
    ensures Append(m, key, more)[0].0 == if m == [] || key < m[0].0 then key else m[0].0
  {
    if m != [] && m[0].0 < key {
      KeysOfTail(m, key);
      AppendKeys(m[1..], key, more);
    }
  }

  /** Appending extends what one key holds and leaves the other keys alone. */
  lemma {:induction false} AppendAt<T>(m: Entries<T>, key: u32, more: seq<T>, k: u32)
    requires KeysAscend(m)
    ensures Lookup(Append(m, key, more), k) == Lookup(m, k) + if k == key then more else []
  {
    if m != [] {
      KeysOfTail(m, key);
      if key < m[0].0 {
        if k == key {
          LookupMissing(m, key);
        }
      } else if m[0].0 != key {
        AppendAt(m[1..], key, more, k);
      }
    }
  }

  lemma {:induction false} HeadIsBelow<T>(m: Entries<T>, key: u32)
    requires KeysAscend(m) && Lookup(m, key) != []
    ensures m != [] && m[0].0 <= key
  {
    if m[0].0 != key {
      KeysOfTail(m, key);
      HeadIsBelow(m[1..], key);
    }
  }

  ghost predicate NoneEmpty<T>(m: Entries<T>) {
    forall i :: 0 <= i < |m| ==> m[i].1 != []
  }

  /** A map without empty lists is determined by what it holds for each key. */
  lemma {:induction false} LookupDetermines<T>(m: Entries<T>, n: Entries<T>)
    requires KeysAscend(m) && NoneEmpty(m) && KeysAscend(n) && NoneEmpty(n)
    requires forall key: u32 :: Lookup(m, key) == Lookup(n, key)
    ensures m == n
  {
    if m != [] {
      assert Lookup(n, m[0].0) == m[0].1;
      HeadIsBelow(n, m[0].0);
    }
    if n != [] {
      assert Lookup(m, n[0].0) == n[0].1;
      HeadIsBelow(m, n[0].0);
      KeysOfTail(m, m[0].0);
      KeysOfTail(n, n[0].0);
      LookupMissing(m[1..], m[0].0);
      LookupMissing(n[1..], n[0].0);
      forall k: u32
        ensures Lookup(m[1..], k) == Lookup(n[1..], k)
      {
        assert Lookup(m, k) == Lookup(n, k);
      }
      LookupDetermines(m[1..], n[1..]);
      assert m == [m[0]] + m[1..] && n == [n[0]] + n[1..];
    }
  }
}
