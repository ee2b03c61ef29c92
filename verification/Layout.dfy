// The bytes of keys and rows as keycodec documents them (value.go, keys.go, row.go).
module Layout {
  import opened Bytes
  import opened Values
  import opened KeyCodec
  import opened Keys
  import opened RowCodec

  lemma Numeral64(u: bits64)
    ensures FromBE(BE64(u)) == u
  {
    Pow256Of8();
    BERoundTrip(8, u);
  }

  lemma Numeral32(n: uint32)
    ensures FromBE(BE32(n)) == n
  {
    Pow256Of4();
    BERoundTrip(4, n);
  }

  /**
   * A tag byte, then for BOOL one byte, for INT eight big-endian bytes of the value plus 2^63, and for
   * FLOAT those of its bits, all of them flipped if the number has a sign and the first one if not.
   */
  lemma ValueLayout(b: bool, i: int64, f: bits64)
    ensures Enc(Null) == [0x00] && Enc(Bool(b)) == [0x10, if b then 0x01 else 0x00]
    ensures |Enc(Int(i))| == 9 && Enc(Int(i))[0] == 0x20 && FromBE(Enc(Int(i))[1..]) == i + 0x8000_0000_0000_0000
    ensures |Enc(Float(f))| == 9 && Enc(Float(f))[0] == 0x30
    ensures FromBE(Enc(Float(f))[1..]) ==
            if f >= 0x8000_0000_0000_0000 then 0xFFFF_FFFF_FFFF_FFFF - f else f + 0x8000_0000_0000_0000
  {
    Numeral64(FlipTop(ToUnsigned(i)));
    Numeral64(LiftFloat(f));
    assert Enc(Int(i))[1..] == BE64(FlipTop(ToUnsigned(i)));
    assert Enc(Float(f))[1..] == BE64(LiftFloat(f));
    hide FromBE;
  }

  lemma {:induction false} NoEscapes(s: bytes)
    requires 0x00 !in s
    ensures EscBody(s) == s
  {
    if s != [] {
      NoEscapes(s[1..]);
      assert s == [s[0]] + s[1..];
    }
  }

  lemma ZeroEscapes(more: bytes)
    ensures EscBody([0x00] + more) == [0x00, 0xFF] + EscBody(more)
  {
    assert ([0x00] + more)[1..] == more;
  }

  /** TEXT: the bytes as they are but 0x00, which becomes 0x00 0xFF, and 0x00 0x01 at the end. */
  lemma TextLayout(s: bytes, more: bytes)
    requires 0x00 !in s
    ensures Enc(Text(s)) == [0x40] + (s + [0x00, 0x01])
    ensures Enc(Text(s + ([0x00] + more))) == [0x40] + (s + [0x00, 0xFF] + Esc(more))
    ensures Enc(Text(more)) == [0x40] + Esc(more)
  {
    NoEscapes(s);
    EscBodyAppend(s, [0x00] + more);
    ZeroEscapes(more);
    hide EscBody;
    assert Esc(s + ([0x00] + more)) == s + ([0x00, 0xFF] + EscBody(more)) + [0x00, 0x01];
    assert Esc(s + ([0x00] + more)) == s + [0x00, 0xFF] + (EscBody(more) + [0x00, 0x01]);
  }

  /** The prefix byte, the identifiers in four big-endian bytes each, and the encoded values. */
  lemma KeyLayout(table: uint32, index: uint32, v: Value, pk: Value, name: bytes)
    ensures MetaTableKey(name) == [0x01, 0x74] + name && MetaSeqKey() == [0x01, 0x73]
    ensures |DataPrefix(table)| == 5 && DataPrefix(table)[0] == 0x02 && FromBE(DataPrefix(table)[1..]) == table
    ensures RowKey(table, pk) == DataPrefix(table) + Enc(pk)
    ensures |IndexPrefix(table, index)| == 9 && IndexPrefix(table, index)[0] == 0x03
    ensures FromBE(IndexPrefix(table, index)[1..5]) == table && FromBE(IndexPrefix(table, index)[5..]) == index
    ensures IndexKey(table, index, v, pk) == IndexPrefix(table, index) + Enc(v) + Enc(pk)
  {
    Numeral32(table);
    Numeral32(index);
    EncPair(v, pk);
    assert DataPrefix(table)[1..] == BE32(table);
    assert IndexPrefix(table, index)[1..5] == BE32(table) && IndexPrefix(table, index)[5..] == BE32(index);
    hide FromBE, Enc;
  }

  /** A format byte, then the columns in order. */
  lemma RowLayout(v: Value, row: Row)
    ensures EncodeRow([]) == [0x01] && EncodeRow([v] + row) == [0x01] + Enc(v) + EncodeRow(row)[1..]
  {
    assert ([v] + row)[1..] == row;
    hide Enc;
  }
}
