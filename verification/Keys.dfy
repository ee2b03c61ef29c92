// The key space of keycodec/keys.go and the prefix arithmetic scans rely on.
module Keys {
  import opened Bytes
  import opened Values
  import opened KeyCodec

  const PREFIX_META: byte := 0x01
  const PREFIX_DATA: byte := 0x02
  const PREFIX_INDEX: byte := 0x03
  const META_TABLE: byte := 0x74
  const META_SEQ: byte := 0x73

  function BE32(n: uint32): (s: bytes)
    ensures |s| == 4
  {
    Pow256Of4();
    BE(4, n)
  }

  function MetaTableKey(name: bytes): bytes { MetaTablePrefix() + name }

  function MetaTablePrefix(): bytes { [PREFIX_META, META_TABLE] }

  function MetaSeqKey(): bytes { [PREFIX_META, META_SEQ] }

  function DataPrefix(table: uint32): bytes { [PREFIX_DATA] + BE32(table) }

  function RowKey(table: uint32, pk: Value): bytes { DataPrefix(table) + Enc(pk) }

  function IndexPrefix(table: uint32, index: uint32): bytes {
    [PREFIX_INDEX] + BE32(table) + BE32(index)
  }

  function IndexKey(table: uint32, index: uint32, val: Value, pk: Value): bytes {
    IndexPrefix(table, index) + EncAll([val, pk])
  }

  function RowKeyPK(key: bytes): Result<Value> {
    if |key| < 5 || key[0] != PREFIX_DATA then Err(Corrupt)
    else
      var (v, rest) :- Dec(key[5..]);
      if rest != [] then Err(Corrupt) else Ok(v)
  }

  function IndexEntry(key: bytes): Result<(Value, Value)> {
    if |key| < 9 || key[0] != PREFIX_INDEX then Err(Corrupt)
    else
      var (val, rest) :- Dec(key[9..]);
      var (pk, end) :- Dec(rest);
      if end != [] then Err(Corrupt) else Ok((val, pk))
  }

  // ------------------------------------------------------------------
  // Splitting a key undoes building it
  // ------------------------------------------------------------------

  lemma BE32Injective(a: uint32, b: uint32)
    requires BE32(a) == BE32(b)
    ensures a == b
  {
    Pow256Of4();
    BERoundTrip(4, a);
    BERoundTrip(4, b);
  }

  lemma RowKeyRoundTrip(table: uint32, pk: Value)
    ensures RowKeyPK(RowKey(table, pk)) == Ok(pk)
  {
    DecodeEncode(pk, []);
    assert RowKey(table, pk)[5..] == Enc(pk) + [];
  }

  lemma EncPair(val: Value, pk: Value)
    ensures EncAll([val, pk]) == Enc(val) + Enc(pk)
  {
    assert [val, pk] == [val] + [pk];
    EncAllSnoc([val], pk);
    EncAllSnoc([], val);
    assert [] + [val] == [val];
  }

  lemma IndexKeySplit(table: uint32, index: uint32, val: Value, pk: Value)
    ensures IndexKey(table, index, val, pk) == IndexPrefix(table, index) + Enc(val) + Enc(pk)
  {
    EncPair(val, pk);
    AppendAssoc(IndexPrefix(table, index), Enc(val), Enc(pk));
  }

  lemma IndexKeyRoundTrip(table: uint32, index: uint32, val: Value, pk: Value)
    ensures IndexEntry(IndexKey(table, index, val, pk)) == Ok((val, pk))
  {
    EncPair(val, pk);
    DecodeEncode(val, Enc(pk));
    DecodeEncode(pk, []);
    assert Enc(pk) + [] == Enc(pk);
    assert IndexKey(table, index, val, pk)[9..] == Enc(val) + Enc(pk);
  }

  lemma RowKeyInjective(t: uint32, p: Value, u: uint32, q: Value)
    requires RowKey(t, p) == RowKey(u, q)
    ensures t == u && p == q
  {
    RowKeyRoundTrip(t, p);
    RowKeyRoundTrip(u, q);
    assert BE32(t) == RowKey(t, p)[1..5] && BE32(u) == RowKey(u, q)[1..5];
    BE32Injective(t, u);
  }

  lemma IndexKeyInjective(t: uint32, i: uint32, v: Value, p: Value, u: uint32, j: uint32, w: Value, q: Value)
    requires IndexKey(t, i, v, p) == IndexKey(u, j, w, q)
    ensures t == u && i == j && v == w && p == q
  {
    IndexKeyRoundTrip(t, i, v, p);
    IndexKeyRoundTrip(u, j, w, q);
    assert BE32(t) == IndexKey(t, i, v, p)[1..5] && BE32(u) == IndexKey(u, j, w, q)[1..5];
    assert BE32(i) == IndexKey(t, i, v, p)[5..9] && BE32(j) == IndexKey(u, j, w, q)[5..9];
    BE32Injective(t, u);
    BE32Injective(i, j);
  }

  /** Row keys, index keys and catalog keys never collide. */
  lemma KeySpacesDisjoint(t: uint32, u: uint32, i: uint32, k: bytes)
    ensures !(DataPrefix(t) <= k && IndexPrefix(u, i) <= k)
    ensures DataPrefix(t) <= k ==> !([PREFIX_META] <= k)
    ensures IndexPrefix(u, i) <= k ==> !([PREFIX_META] <= k)
  {
    assert DataPrefix(t)[0] == PREFIX_DATA && IndexPrefix(u, i)[0] == PREFIX_INDEX;
  }

  lemma DataPrefixesDisjoint(t: uint32, u: uint32, k: bytes)
    requires DataPrefix(t) <= k && DataPrefix(u) <= k
    ensures t == u
  {
    assert BE32(t) == k[1..5] == BE32(u) by {
      assert DataPrefix(t)[1..5] == k[1..5] && DataPrefix(u)[1..5] == k[1..5];
    }
    BE32Injective(t, u);
  }

  lemma IndexPrefixesDisjoint(t: uint32, i: uint32, u: uint32, j: uint32, k: bytes)
    requires IndexPrefix(t, i) <= k && IndexPrefix(u, j) <= k
    ensures t == u && i == j
  {
    assert BE32(t) == IndexPrefix(t, i)[1..5] == k[1..5];
    assert BE32(u) == IndexPrefix(u, j)[1..5] == k[1..5];
    assert BE32(i) == IndexPrefix(t, i)[5..9] == k[5..9];
    assert BE32(j) == IndexPrefix(u, j)[5..9] == k[5..9];
    BE32Injective(t, u);
    BE32Injective(i, j);
  }

  // ------------------------------------------------------------------
  // PrefixEnd
  // ------------------------------------------------------------------

  /** The successor of every key that begins with p; None when there is none. */
  function PrefixEnd(p: bytes): Option<bytes> {
    if p == [] then None
    else
      match PrefixEnd(p[1..])
      case Some(e) => Some([p[0]] + e)
      case None => if p[0] == 0xFF then None else Some([p[0] + 1])
  }

  /** Below the upper bound: nil is unbounded. */
  predicate Below(k: bytes, end: Option<bytes>) { end.Some? ==> Before(k, end.value) }

  /** Not below the lower bound: nil is unbounded. */
  predicate NotBelow(k: bytes, start: Option<bytes>) { start.Some? ==> !Before(k, start.value) }

  /** [start, end), the interval a scan is given. */
  predicate InInterval(k: bytes, start: Option<bytes>, end: Option<bytes>) {
    NotBelow(k, start) && Below(k, end)
  }

  lemma PrefixCons(p: bytes, k: bytes)
    requires p != [] && k != []
    ensures p <= k <==> p[0] == k[0] && p[1..] <= k[1..]
  {
    assert p == [p[0]] + p[1..] && k == [k[0]] + k[1..];
  }

  /** Keys below PrefixEnd(p) are those below p and those that begin with p, and no others. */
  lemma {:induction false} BelowPrefixEnd(p: bytes, k: bytes)
    ensures Below(k, PrefixEnd(p)) <==> Before(k, p) || p <= k
  {
    if p != [] && k != [] {
      BelowPrefixEnd(p[1..], k[1..]);
      PrefixCons(p, k);
      if PrefixEnd(p[1..]).Some? {
        var e := PrefixEnd(p[1..]).value;
        assert ([p[0]] + e)[1..] == e;
      } else {
        assert p[0] != 0xFF ==> Cmp(k, [p[0] + 1]) < 0 <==> k[0] <= p[0];
      }
    }
  }

  lemma PrefixInterval(p: bytes, k: bytes)
    ensures InInterval(k, Some(p), PrefixEnd(p)) <==> p <= k
  {
    BelowPrefixEnd(p, k);
    CmpRange(k, p);
    if p <= k {
      CmpPrefix(p, k);
    }
  }

  lemma {:induction false} PrefixEndOfSome(p: bytes, q: bytes)
    requires PrefixEnd(q).Some?
    ensures PrefixEnd(p + q) == Some(p + PrefixEnd(q).value)
  {
    if p == [] {
      assert p + q == q && p + PrefixEnd(q).value == PrefixEnd(q).value;
    } else {
      PrefixEndOfSome(p[1..], q);
      assert (p + q)[1..] == p[1..] + q;
      assert [p[0]] + (p[1..] + PrefixEnd(q).value) == p + PrefixEnd(q).value;
    }
  }

  lemma {:induction false} PrefixEndAllHigh(p: bytes)
    requires forall i :: 0 <= i < |p| ==> p[i] == 0xFF
    ensures PrefixEnd(p) == None
  {
    if p != [] {
      PrefixEndAllHigh(p[1..]);
    }
  }

  /** The backward loop: bump the last byte below 0xFF and drop what follows it. */
  method ComputePrefixEnd(prefix: bytes) returns (r: Option<bytes>)
    ensures r == PrefixEnd(prefix)
    ensures forall k :: InInterval(k, Some(prefix), r) <==> prefix <= k
  {
    forall k ensures InInterval(k, Some(prefix), PrefixEnd(prefix)) <==> prefix <= k {
      PrefixInterval(prefix, k);
    }
    var end := prefix;
    var i := |end| - 1;
    while i >= 0
      invariant -1 <= i < |prefix|
      invariant end == prefix
      invariant forall j :: i < j < |prefix| ==> prefix[j] == 0xFF
    {
      if end[i] != 0xFF {
        end := end[i := end[i] + 1];
        PrefixEndAllHigh(prefix[i + 1..]);
        assert prefix[i..][1..] == prefix[i + 1..];
        assert PrefixEnd(prefix[i..]) == Some([prefix[i] + 1]);
        PrefixEndOfSome(prefix[..i], prefix[i..]);
        assert prefix == prefix[..i] + prefix[i..];
        assert end[..i + 1] == prefix[..i] + [prefix[i] + 1];
        return Some(end[..i + 1]);
      }
      i := i - 1;
    }
    PrefixEndAllHigh(prefix);
    r := None;
  }
}
