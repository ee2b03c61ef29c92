// Row writes and index maintenance (exec/dml.go).
module Dml {
  import opened Bytes
  import opened Values
  import opened KeyCodec
  import opened Keys
  import opened RowCodec
  import opened Storage
  import opened Schema

  // ------------------------------------------------------------------
  // What each operation writes
  // ------------------------------------------------------------------

  function IndexWrites(t: Table, xs: seq<Index>, row: Row, pk: Value, remove: bool): seq<Entry>
    requires forall x :: x in xs ==> x.pos < |row|
  {
    if xs == [] then []
    else
      [Entry(IndexKey(t.id, xs[0].id, row[xs[0].pos], pk), [], remove)] + IndexWrites(t, xs[1..], row, pk, remove)
  }

  function InsertWrites(t: Table, row: Row): seq<Entry>
    requires t.pk < |row| && forall x :: x in t.indexes ==> x.pos < |row|
  {
    [Entry(RowKey(t.id, row[t.pk]), EncodeRow(row), false)] + IndexWrites(t, t.indexes, row, row[t.pk], false)
  }

  function DeleteWrites(t: Table, row: Row): seq<Entry>
    requires t.pk < |row| && forall x :: x in t.indexes ==> x.pos < |row|
  {
    IndexWrites(t, t.indexes, row, row[t.pk], true) + [Entry(RowKey(t.id, row[t.pk]), [], true)]
  }

  /** The old row key goes only when types.Equal says the primary key moved. */
  function UpdateWrites(t: Table, was: Row, now: Row): seq<Entry>
    requires t.pk < |was| == |now| && forall x :: x in t.indexes ==> x.pos < |was|
  {
    (if Equal(was[t.pk], now[t.pk]) then [] else [Entry(RowKey(t.id, was[t.pk]), [], true)])
    + IndexWrites(t, t.indexes, was, was[t.pk], true)
    + InsertWrites(t, now)
  }

  // ------------------------------------------------------------------
  // The last write to a key is the one that counts
  // ------------------------------------------------------------------

  function LastWrite(ws: seq<Entry>, k: bytes): (r: Option<Entry>)
    ensures r.Some? ==> r.value in ws && r.value.key == k
    ensures r.None? ==> forall e :: e in ws ==> e.key != k
  {
    if ws == [] then None
    else if LastWrite(ws[1..], k).Some? then LastWrite(ws[1..], k)
    else if ws[0].key == k then Some(ws[0])
    else None
  }

  lemma {:induction false} LastWriteAppend(a: seq<Entry>, b: seq<Entry>, k: bytes)
    ensures LastWrite(a + b, k) == if LastWrite(b, k).Some? then LastWrite(b, k) else LastWrite(a, k)
  {
    if a == [] {
      assert a + b == b;
    } else {
      assert (a + b)[1..] == a[1..] + b;
      LastWriteAppend(a[1..], b, k);
    }
  }

  lemma {:induction false} ApplyAllLookup(m: Store, ws: seq<Entry>, k: bytes)
    ensures k in ApplyAll(m, ws) <==>
            if LastWrite(ws, k).Some? then !LastWrite(ws, k).value.deleted else k in m
    ensures k in ApplyAll(m, ws) ==>
              ApplyAll(m, ws)[k] == if LastWrite(ws, k).Some? then LastWrite(ws, k).value.value else m[k]
    decreases |ws|
  {
    if ws != [] {
      ApplyAllLookup(ApplyOne(m, ws[0]), ws[1..], k);
    }
  }

  /** Writes recorded in the buffer, newest per key. */
  function PutAll(em: Entries, ws: seq<Entry>): Entries
    decreases |ws|
  {
    if ws == [] then em else PutAll(em[ws[0].key := ws[0]], ws[1..])
  }

  lemma {:induction false} PutAllLookup(em: Entries, ws: seq<Entry>, k: bytes)
    ensures k in PutAll(em, ws) <==> LastWrite(ws, k).Some? || k in em
    ensures k in PutAll(em, ws) ==>
              PutAll(em, ws)[k] == if LastWrite(ws, k).Some? then LastWrite(ws, k).value else em[k]
    decreases |ws|
  {
    if ws != [] {
      PutAllLookup(em[ws[0].key := ws[0]], ws[1..], k);
    }
  }

  /** Buffering writes changes the overlay's view as performing them would. */
  lemma BufferedWritesShow(base: Store, em: Entries, ws: seq<Entry>)
    ensures Apply(base, PutAll(em, ws)) == ApplyAll(Apply(base, em), ws)
  {
    var l, r := Apply(base, PutAll(em, ws)), ApplyAll(Apply(base, em), ws);
    forall k ensures (k in l <==> k in r) && (k in l && k in r ==> l[k] == r[k]) {
      PutAllLookup(em, ws, k);
      ApplyAllLookup(Apply(base, em), ws, k);
    }
  }

  lemma {:induction false} PutAllAppend(em: Entries, a: seq<Entry>, b: seq<Entry>)
    ensures PutAll(em, a + b) == PutAll(PutAll(em, a), b)
    decreases |a|
  {
    if a == [] {
      assert a + b == b;
    } else {
      assert (a + b)[1..] == a[1..] + b;
      PutAllAppend(em[a[0].key := a[0]], a[1..], b);
    }
  }

  lemma {:induction false} PutAllKeyed(em: Entries, ws: seq<Entry>)
    requires Keyed(em)
    ensures Keyed(PutAll(em, ws))
    decreases |ws|
  {
    if ws != [] {
      PutAllKeyed(em[ws[0].key := ws[0]], ws[1..]);
    }
  }

  lemma {:induction false} IndexWritesAt(t: Table, xs: seq<Index>, row: Row, pk: Value, remove: bool, k: bytes)
    requires forall x :: x in xs ==> x.pos < |row|
    ensures LastWrite(IndexWrites(t, xs, row, pk, remove), k) ==
            if exists x :: x in xs && k == IndexKey(t.id, x.id, row[x.pos], pk) then Some(Entry(k, [], remove)) else None
  {
    if xs != [] {
      IndexWritesAt(t, xs[1..], row, pk, remove, k);
      assert xs == [xs[0]] + xs[1..];
    }
  }

  // ------------------------------------------------------------------
  // The writes keep rows and indexes in step
  // ------------------------------------------------------------------

  /** k is one of the entries the row calls for. */
  ghost predicate CalledFor(t: Table, row: Row, pk: Value, k: bytes)
    requires forall x :: x in t.indexes ==> x.pos < |row|
  {
    exists x :: x in t.indexes && k == IndexKey(t.id, x.id, row[x.pos], pk)
  }

  lemma InsertAt(t: Table, row: Row, k: bytes)
    requires t.pk < |row| && forall x :: x in t.indexes ==> x.pos < |row|
    ensures LastWrite(InsertWrites(t, row), k) ==
            if CalledFor(t, row, row[t.pk], k) then Some(Entry(k, [], false))
            else if k == RowKey(t.id, row[t.pk]) then Some(Entry(k, EncodeRow(row), false))
            else None
  {
    var first := [Entry(RowKey(t.id, row[t.pk]), EncodeRow(row), false)];
    IndexWritesAt(t, t.indexes, row, row[t.pk], false, k);
    LastWriteAppend(first, IndexWrites(t, t.indexes, row, row[t.pk], false), k);
    assert first[1..] == [];
  }

  lemma DeleteAt(t: Table, row: Row, k: bytes)
    requires t.pk < |row| && forall x :: x in t.indexes ==> x.pos < |row|
    ensures LastWrite(DeleteWrites(t, row), k) ==
            if k == RowKey(t.id, row[t.pk]) || CalledFor(t, row, row[t.pk], k) then Some(Entry(k, [], true)) else None
  {
    var last := [Entry(RowKey(t.id, row[t.pk]), [], true)];
    IndexWritesAt(t, t.indexes, row, row[t.pk], true, k);
    LastWriteAppend(IndexWrites(t, t.indexes, row, row[t.pk], true), last, k);
    assert last[1..] == [];
  }

  lemma UpdateAt(t: Table, was: Row, now: Row, k: bytes)
    requires t.pk < |was| == |now| && forall x :: x in t.indexes ==> x.pos < |was|
    ensures LastWrite(UpdateWrites(t, was, now), k) ==
            if LastWrite(InsertWrites(t, now), k).Some? then LastWrite(InsertWrites(t, now), k)
            else if CalledFor(t, was, was[t.pk], k) then Some(Entry(k, [], true))
            else if k == RowKey(t.id, was[t.pk]) && !Equal(was[t.pk], now[t.pk]) then Some(Entry(k, [], true))
            else None
  {
    var head := if Equal(was[t.pk], now[t.pk]) then [] else [Entry(RowKey(t.id, was[t.pk]), [], true)];
    var mid := IndexWrites(t, t.indexes, was, was[t.pk], true);
    IndexWritesAt(t, t.indexes, was, was[t.pk], true, k);
    LastWriteAppend(head, mid, k);
    LastWriteAppend(head + mid, InsertWrites(t, now), k);
    assert head != [] ==> head[1..] == [];
  }

  /** Where an index key of this table stands in the row's called-for entries. */
  lemma SameIndexById(t: Table, x: Index, y: Index)
    requires WellFormed(t) && x in t.indexes && y in t.indexes && x.id == y.id
    ensures x == y
  {
  }

  lemma CalledForIndex(t: Table, row: Row, pk: Value, x: Index, v: Value, p: Value)
    requires WellFormed(t) && x in t.indexes
    requires forall y :: y in t.indexes ==> y.pos < |row|
    ensures CalledFor(t, row, pk, IndexKey(t.id, x.id, v, p)) <==> p == pk && v == row[x.pos]
  {
    hide IndexKey, WellFormed;
    if CalledFor(t, row, pk, IndexKey(t.id, x.id, v, p)) {
      var y :| y in t.indexes && IndexKey(t.id, x.id, v, p) == IndexKey(t.id, y.id, row[y.pos], pk);
      IndexKeyInjective(t.id, x.id, v, p, t.id, y.id, row[y.pos], pk);
      SameIndexById(t, x, y);
    }
  }

  lemma CalledForRow(t: Table, row: Row, pk: Value, p: Value)
    requires forall y :: y in t.indexes ==> y.pos < |row|
    ensures !CalledFor(t, row, pk, RowKey(t.id, p))
  {
    forall y | y in t.indexes ensures RowKey(t.id, p) != IndexKey(t.id, y.id, row[y.pos], pk) {
      RowIndexApart(t.id, p, t.id, y.id, row[y.pos], pk);
    }
  }

  /** Writes that put or delete only well-formed keys keep the prefixes clean. */
  lemma PrefixesStayClean(m: Store, t: Table, rows: Rows, ws: seq<Entry>)
    requires Represents(m, t, rows)
    requires forall e :: e in ws ==> exists p :: KeyOf(t, p, e.key)
    ensures forall k :: k in ApplyAll(m, ws) && DataPrefix(t.id) <= k ==> exists p :: k == RowKey(t.id, p)
    ensures forall k, x :: k in ApplyAll(m, ws) && x in t.indexes && IndexPrefix(t.id, x.id) <= k ==>
                             exists v, p :: k == IndexKey(t.id, x.id, v, p)
  {
    forall k | k in ApplyAll(m, ws) && DataPrefix(t.id) <= k ensures exists p :: k == RowKey(t.id, p) {
      ApplyAllLookup(m, ws, k);
      if LastWrite(ws, k).Some? {
        var p :| KeyOf(t, p, k);
        if k != RowKey(t.id, p) {
          var x, v :| x in t.indexes && k == IndexKey(t.id, x.id, v, p);
          assert IndexPrefix(t.id, x.id) <= k;
          KeySpacesDisjoint(t.id, t.id, x.id, k);
        }
      }
    }
    forall k, x | k in ApplyAll(m, ws) && x in t.indexes && IndexPrefix(t.id, x.id) <= k
      ensures exists v, p :: k == IndexKey(t.id, x.id, v, p)
    {
      ApplyAllLookup(m, ws, k);
      assert HoldsIndex(m, t, x, rows);
      if LastWrite(ws, k).Some? {
        var p :| KeyOf(t, p, k);
        if k == RowKey(t.id, p) {
          KeySpacesDisjoint(t.id, t.id, x.id, k);
        } else {
          var y, v :| y in t.indexes && k == IndexKey(t.id, y.id, v, p);
          assert IndexPrefix(t.id, y.id) <= k;
          IndexPrefixesDisjoint(t.id, x.id, t.id, y.id, k);
        }
      }
    }
  }

  /** Every write concerns the row key or an index entry of one of the given primary keys. */
  ghost predicate WritesOnly(t: Table, pks: set<Value>, ws: seq<Entry>) {
    forall e :: e in ws ==> exists p :: p in pks && KeyOf(t, p, e.key)
  }

  lemma NotWritten(t: Table, pks: set<Value>, ws: seq<Entry>, k: bytes)
    requires WritesOnly(t, pks, ws) && !Owned(t, k)
    ensures LastWrite(ws, k) == None
  {
    hide Owned, KeyOf;
    if LastWrite(ws, k).Some? {
      var p :| p in pks && KeyOf(t, p, k);
      KeyOfOwned(t, p, k);
      assert false;
    }
  }

  /** Writes to a table's keys leave every other key of the view as it was. */
  lemma WritesConfined(base: Store, em: Entries, t: Table, pks: set<Value>, ws: seq<Entry>)
    requires WritesOnly(t, pks, ws)
    ensures Confined(Apply(base, em), Apply(base, PutAll(em, ws)), t)
  {
    hide Owned, WritesOnly;
    forall k | !Owned(t, k) ensures Same(Apply(base, em), Apply(base, PutAll(em, ws)), k) {
      NotWritten(t, pks, ws, k);
      PutAllLookup(em, ws, k);
    }
  }

  lemma {:induction false} IndexWritesKeys(t: Table, xs: seq<Index>, row: Row, pk: Value, remove: bool)
    requires forall x :: x in xs ==> x.pos < |row| && x in t.indexes
    ensures WritesOnly(t, {pk}, IndexWrites(t, xs, row, pk, remove))
  {
    if xs != [] {
      IndexWritesKeys(t, xs[1..], row, pk, remove);
      assert KeyOf(t, pk, IndexKey(t.id, xs[0].id, row[xs[0].pos], pk));
    }
  }

  lemma InsertWritesKeys(t: Table, row: Row)
    requires t.pk < |row| && forall x :: x in t.indexes ==> x.pos < |row|
    ensures WritesOnly(t, {row[t.pk]}, InsertWrites(t, row))
  {
    IndexWritesKeys(t, t.indexes, row, row[t.pk], false);
    assert KeyOf(t, row[t.pk], RowKey(t.id, row[t.pk]));
  }

  lemma DeleteWritesKeys(t: Table, row: Row)
    requires t.pk < |row| && forall x :: x in t.indexes ==> x.pos < |row|
    ensures WritesOnly(t, {row[t.pk]}, DeleteWrites(t, row))
  {
    IndexWritesKeys(t, t.indexes, row, row[t.pk], true);
    assert KeyOf(t, row[t.pk], RowKey(t.id, row[t.pk]));
  }

  lemma UpdateWritesKeys(t: Table, was: Row, now: Row)
    requires t.pk < |was| == |now| && forall x :: x in t.indexes ==> x.pos < |was|
    ensures WritesOnly(t, {was[t.pk], now[t.pk]}, UpdateWrites(t, was, now))
  {
    IndexWritesKeys(t, t.indexes, was, was[t.pk], true);
    InsertWritesKeys(t, now);
    assert KeyOf(t, was[t.pk], RowKey(t.id, was[t.pk]));
  }

  /** To represent new rows it is enough to get every row key and every index key right. */
  lemma RepresentsByKeys(m: Store, t: Table, rows: Rows, ws: seq<Entry>, pks: set<Value>, after: Rows)
    requires Represents(m, t, rows) && WritesOnly(t, pks, ws) && TypedRows(t, after)
    requires forall p :: RowRight(ApplyAll(m, ws), t, after, p)
    requires forall x, v, p :: x in t.indexes ==> IndexRight(ApplyAll(m, ws), t, after, x, v, p)
    ensures Represents(ApplyAll(m, ws), t, after)
  {
    var n := ApplyAll(m, ws);
    PrefixesStayClean(m, t, rows, ws);
    assert HoldsRows(n, t, after) by {
      forall p ensures RowKey(t.id, p) in n <==> p in after {
        assert RowRight(n, t, after, p);
      }
      forall p | p in after ensures n[RowKey(t.id, p)] == EncodeRow(after[p]) {
        assert RowRight(n, t, after, p);
      }
    }
    forall x | x in t.indexes ensures HoldsIndex(n, t, x, after) {
      forall v, p ensures IndexKey(t.id, x.id, v, p) in n <==> p in after && after[p][x.pos] == v {
        assert IndexRight(n, t, after, x, v, p);
      }
    }
  }

  ghost predicate RowRight(n: Store, t: Table, after: Rows, p: Value) {
    if p in after then RowKey(t.id, p) in n && n[RowKey(t.id, p)] == EncodeRow(after[p])
    else RowKey(t.id, p) !in n
  }

  ghost predicate IndexRight(n: Store, t: Table, after: Rows, x: Index, v: Value, p: Value) {
    IndexKey(t.id, x.id, v, p) in n <==> p in after && x.pos < |after[p]| && after[p][x.pos] == v
  }

  // Which write, if any, decides a row key or an index key.

  lemma InsertDecidesRow(t: Table, row: Row, p: Value)
    requires WellFormed(t) && |row| == |t.columns|
    ensures LastWrite(InsertWrites(t, row), RowKey(t.id, p)) ==
            if p == row[t.pk] then Some(Entry(RowKey(t.id, p), EncodeRow(row), false)) else None
  {
    InsertAt(t, row, RowKey(t.id, p));
    CalledForRow(t, row, row[t.pk], p);
    if RowKey(t.id, p) == RowKey(t.id, row[t.pk]) {
      RowKeyInjective(t.id, p, t.id, row[t.pk]);
    }
  }

  lemma InsertDecidesIndex(t: Table, row: Row, x: Index, v: Value, p: Value)
    requires WellFormed(t) && |row| == |t.columns| && x in t.indexes
    ensures LastWrite(InsertWrites(t, row), IndexKey(t.id, x.id, v, p)) ==
            if p == row[t.pk] && v == row[x.pos] then Some(Entry(IndexKey(t.id, x.id, v, p), [], false)) else None
  {
    InsertAt(t, row, IndexKey(t.id, x.id, v, p));
    CalledForIndex(t, row, row[t.pk], x, v, p);
    RowIndexApart(t.id, row[t.pk], t.id, x.id, v, p);
  }

  lemma DeleteDecidesRow(t: Table, row: Row, p: Value)
    requires WellFormed(t) && |row| == |t.columns|
    ensures LastWrite(DeleteWrites(t, row), RowKey(t.id, p)) ==
            if p == row[t.pk] then Some(Entry(RowKey(t.id, p), [], true)) else None
  {
    DeleteAt(t, row, RowKey(t.id, p));
    CalledForRow(t, row, row[t.pk], p);
    if RowKey(t.id, p) == RowKey(t.id, row[t.pk]) {
      RowKeyInjective(t.id, p, t.id, row[t.pk]);
    }
  }

  lemma DeleteDecidesIndex(t: Table, row: Row, x: Index, v: Value, p: Value)
    requires WellFormed(t) && |row| == |t.columns| && x in t.indexes
    ensures LastWrite(DeleteWrites(t, row), IndexKey(t.id, x.id, v, p)) ==
            if p == row[t.pk] && v == row[x.pos] then Some(Entry(IndexKey(t.id, x.id, v, p), [], true)) else None
  {
    DeleteAt(t, row, IndexKey(t.id, x.id, v, p));
    CalledForIndex(t, row, row[t.pk], x, v, p);
    RowIndexApart(t.id, row[t.pk], t.id, x.id, v, p);
  }

  lemma UpdateDecidesRow(t: Table, was: Row, now: Row, p: Value)
    requires WellFormed(t) && |was| == |now| == |t.columns|
    ensures LastWrite(UpdateWrites(t, was, now), RowKey(t.id, p)) ==
            if p == now[t.pk] then Some(Entry(RowKey(t.id, p), EncodeRow(now), false))
            else if p == was[t.pk] && !Equal(was[t.pk], now[t.pk]) then Some(Entry(RowKey(t.id, p), [], true))
            else None
  {
    UpdateAt(t, was, now, RowKey(t.id, p));
    InsertDecidesRow(t, now, p);
    CalledForRow(t, was, was[t.pk], p);
    if RowKey(t.id, p) == RowKey(t.id, was[t.pk]) {
      RowKeyInjective(t.id, p, t.id, was[t.pk]);
    }
  }

  lemma UpdateDecidesIndex(t: Table, was: Row, now: Row, x: Index, v: Value, p: Value)
    requires WellFormed(t) && |was| == |now| == |t.columns| && x in t.indexes
    ensures LastWrite(UpdateWrites(t, was, now), IndexKey(t.id, x.id, v, p)) ==
            if p == now[t.pk] && v == now[x.pos] then Some(Entry(IndexKey(t.id, x.id, v, p), [], false))
            else if p == was[t.pk] && v == was[x.pos] then Some(Entry(IndexKey(t.id, x.id, v, p), [], true))
            else None
  {
    UpdateAt(t, was, now, IndexKey(t.id, x.id, v, p));
    InsertDecidesIndex(t, now, x, v, p);
    CalledForIndex(t, was, was[t.pk], x, v, p);
    RowIndexApart(t.id, was[t.pk], t.id, x.id, v, p);
  }

  lemma InsertKeepsInStep(m: Store, t: Table, rows: Rows, row: Row)
    requires Represents(m, t, rows) && Typed(t, row) && row[t.pk] !in rows
    ensures Represents(ApplyAll(m, InsertWrites(t, row)), t, rows[row[t.pk] := row])
  {
    hide InsertWrites, ApplyAll, LastWrite, IndexKey, RowKey, WritesOnly;
    var ws, after := InsertWrites(t, row), rows[row[t.pk] := row];
    InsertWritesKeys(t, row);
    forall p ensures RowRight(ApplyAll(m, ws), t, after, p) {
      InsertDecidesRow(t, row, p);
      ApplyAllLookup(m, ws, RowKey(t.id, p));
    }
    forall x, v, p | x in t.indexes ensures IndexRight(ApplyAll(m, ws), t, after, x, v, p) {
      InsertDecidesIndex(t, row, x, v, p);
      ApplyAllLookup(m, ws, IndexKey(t.id, x.id, v, p));
      assert HoldsIndex(m, t, x, rows);
    }
    RepresentsByKeys(m, t, rows, ws, {row[t.pk]}, after);
  }

  lemma DeleteKeepsInStep(m: Store, t: Table, rows: Rows, row: Row)
    requires Represents(m, t, rows) && Typed(t, row) && row[t.pk] in rows && rows[row[t.pk]] == row
    ensures Represents(ApplyAll(m, DeleteWrites(t, row)), t, rows - {row[t.pk]})
  {
    hide DeleteWrites, ApplyAll, LastWrite, IndexKey, RowKey, WritesOnly;
    var ws, after := DeleteWrites(t, row), rows - {row[t.pk]};
    DeleteWritesKeys(t, row);
    forall p ensures RowRight(ApplyAll(m, ws), t, after, p) {
      DeleteDecidesRow(t, row, p);
      ApplyAllLookup(m, ws, RowKey(t.id, p));
    }
    forall x, v, p | x in t.indexes ensures IndexRight(ApplyAll(m, ws), t, after, x, v, p) {
      DeleteDecidesIndex(t, row, x, v, p);
      ApplyAllLookup(m, ws, IndexKey(t.id, x.id, v, p));
      assert HoldsIndex(m, t, x, rows);
    }
    RepresentsByKeys(m, t, rows, ws, {row[t.pk]}, after);
  }

  /** The update's outcome on rows: the old row out, the new one in. */
  function Replaced(t: Table, rows: Rows, was: Row, now: Row): Rows
    requires t.pk < |was| == |now|
  {
    (rows - {was[t.pk]})[now[t.pk] := now]
  }

  lemma ReplacedLookup(t: Table, cur: Rows, was: Row, image: Row, q: Value)
    requires t.pk < |was| == |image|
    ensures q in Replaced(t, cur, was, image) <==> q == image[t.pk] || (q in cur && q != was[t.pk])
    ensures q in Replaced(t, cur, was, image) ==>
              Replaced(t, cur, was, image)[q] == if q == image[t.pk] then image else cur[q]
  {
  }

  lemma RepresentsGivesRow(m: Store, t: Table, after: Rows, p: Value)
    requires Represents(m, t, after)
    ensures RowRight(m, t, after, p)
  {
  }

  lemma RepresentsGivesEntry(m: Store, t: Table, after: Rows, x: Index, v: Value, p: Value)
    requires Represents(m, t, after) && x in t.indexes
    ensures IndexRight(m, t, after, x, v, p)
  {
    assert HoldsIndex(m, t, x, after);
  }

  lemma ColumnsFit(t: Table, x: Index)
    requires WellFormed(t) && x in t.indexes
    ensures x.pos < |t.columns| && t.pk < |t.columns|
  {
  }

  lemma UpdateEntriesInStep(m: Store, t: Table, rows: Rows, was: Row, now: Row, x: Index, v: Value, p: Value)
    requires Represents(m, t, rows) && x in t.indexes
    requires Typed(t, was) && was[t.pk] in rows && rows[was[t.pk]] == was
    requires Typed(t, now) && (now[t.pk] == was[t.pk] || now[t.pk] !in rows)
    ensures IndexRight(ApplyAll(m, UpdateWrites(t, was, now)), t, Replaced(t, rows, was, now), x, v, p)
  {
    ColumnsFit(t, x);
    hide UpdateWrites, ApplyAll, LastWrite, Represents, IndexKey, Replaced, WellFormed;
    RepresentsGivesEntry(m, t, rows, x, v, p);
    ReplacedLookup(t, rows, was, now, p);
    UpdateDecidesIndex(t, was, now, x, v, p);
    ApplyAllLookup(m, UpdateWrites(t, was, now), IndexKey(t.id, x.id, v, p));
  }

  lemma UpdateInStep(m: Store, t: Table, rows: Rows, was: Row, now: Row)
    requires Represents(m, t, rows)
    requires Typed(t, was) && was[t.pk] in rows && rows[was[t.pk]] == was
    requires Typed(t, now) && (now[t.pk] == was[t.pk] || now[t.pk] !in rows)
    requires Equal(was[t.pk], now[t.pk]) ==> was[t.pk] == now[t.pk]
    ensures Represents(ApplyAll(m, UpdateWrites(t, was, now)), t, Replaced(t, rows, was, now))
  {
    hide UpdateWrites, ApplyAll, LastWrite, IndexKey, RowKey, WritesOnly;
    var ws, after := UpdateWrites(t, was, now), Replaced(t, rows, was, now);
    UpdateWritesKeys(t, was, now);
    assert TypedRows(t, after);
    forall p ensures RowRight(ApplyAll(m, ws), t, after, p) {
      OrderRange(was[t.pk], now[t.pk]);
      UpdateDecidesRow(t, was, now, p);
      ApplyAllLookup(m, ws, RowKey(t.id, p));
    }
    forall x, v, p | x in t.indexes ensures IndexRight(ApplyAll(m, ws), t, after, x, v, p) {
      UpdateEntriesInStep(m, t, rows, was, now, x, v, p);
    }
    RepresentsByKeys(m, t, rows, ws, {was[t.pk], now[t.pk]}, after);
  }

  lemma UpdateOutOfStep(m: Store, t: Table, rows: Rows, was: Row, now: Row)
    requires Represents(m, t, rows)
    requires Typed(t, was) && was[t.pk] in rows && rows[was[t.pk]] == was && Typed(t, now)
    requires Equal(was[t.pk], now[t.pk]) && was[t.pk] != now[t.pk]
    ensures !Represents(ApplyAll(m, UpdateWrites(t, was, now)), t, Replaced(t, rows, was, now))
  {
    var p, after := was[t.pk], Replaced(t, rows, was, now);
    UpdateDecidesRow(t, was, now, p);
    assert p !in after;
    hide WellFormed, Typed, LastWrite, UpdateWrites, Replaced, Equal;
    assert RowKey(t.id, p) in m;
    ApplyAllLookup(m, UpdateWrites(t, was, now), RowKey(t.id, p));
    assert RowKey(t.id, p) in ApplyAll(m, UpdateWrites(t, was, now));
  }

  /** With an index there are then no rows at all for the store to hold: the old row has lost its entry. */
  lemma EntryLost(m: Store, t: Table, rows: Rows, was: Row, now: Row, x: Index)
    requires Represents(m, t, rows) && x in t.indexes
    requires Typed(t, was) && was[t.pk] in rows && rows[was[t.pk]] == was && Typed(t, now)
    requires Equal(was[t.pk], now[t.pk]) && was[t.pk] != now[t.pk]
    ensures !Consistent(ApplyAll(m, UpdateWrites(t, was, now)), t)
  {
    var n, p := ApplyAll(m, UpdateWrites(t, was, now)), was[t.pk];
    ColumnsFit(t, x);
    RepresentsGivesRow(m, t, rows, p);
    UpdateDecidesRow(t, was, now, p);
    UpdateDecidesIndex(t, was, now, x, was[x.pos], p);
    ApplyAllLookup(m, UpdateWrites(t, was, now), RowKey(t.id, p));
    ApplyAllLookup(m, UpdateWrites(t, was, now), IndexKey(t.id, x.id, was[x.pos], p));
    hide UpdateWrites, ApplyAll, LastWrite, IndexKey, RowKey;
    forall o | Represents(n, t, o) ensures false {
      RowOfEncoding(n, t, o, was);
      RepresentsGivesEntry(n, t, o, x, was[x.pos], p);
    }
  }

  /** What a store holds under a row's key is that row. */
  lemma RowOfEncoding(n: Store, t: Table, o: Rows, row: Row)
    requires Represents(n, t, o) && Typed(t, row) && RowKey(t.id, row[t.pk]) in n && n[RowKey(t.id, row[t.pk])] == EncodeRow(row)
    ensures row[t.pk] in o && o[row[t.pk]] == row
  {
    RepresentsGivesRow(n, t, o, row[t.pk]);
    EncodeRowInjective(row, o[row[t.pk]]);
  }

  /** Without an index the old row just stays where it is, beside the new one. */
  lemma OldRowStays(m: Store, t: Table, rows: Rows, was: Row, now: Row)
    requires Represents(m, t, rows) && t.indexes == []
    requires Typed(t, was) && was[t.pk] in rows && rows[was[t.pk]] == was && Typed(t, now)
    requires Equal(was[t.pk], now[t.pk])
    ensures Represents(ApplyAll(m, UpdateWrites(t, was, now)), t, rows[now[t.pk] := now])
  {
    hide UpdateWrites, ApplyAll, LastWrite, IndexKey, RowKey, WritesOnly;
    var ws, after := UpdateWrites(t, was, now), rows[now[t.pk] := now];
    UpdateWritesKeys(t, was, now);
    assert TypedRows(t, after);
    forall p ensures RowRight(ApplyAll(m, ws), t, after, p) {
      UpdateDecidesRow(t, was, now, p);
      ApplyAllLookup(m, ws, RowKey(t.id, p));
    }
    RepresentsByKeys(m, t, rows, ws, {was[t.pk], now[t.pk]}, after);
  }

  /**
   * An UPDATE's writes leave the table with the old row out, the new row in and every index in
   * step, exactly when types.Equal does not take one primary key for a different one. When it does,
   * the old row stays, and if the table has an index, out of step with it. What the code accepts is
   * a key that is equal to the old one, though another row may have it, or free.
   */
  lemma UpdateKeepsInStep(m: Store, t: Table, rows: Rows, was: Row, now: Row)
    requires Represents(m, t, rows)
    requires Typed(t, was) && was[t.pk] in rows && rows[was[t.pk]] == was
    requires Typed(t, now) && (Equal(was[t.pk], now[t.pk]) || now[t.pk] !in rows)
    ensures Represents(ApplyAll(m, UpdateWrites(t, was, now)), t, Replaced(t, rows, was, now)) <==>
            (Equal(was[t.pk], now[t.pk]) ==> was[t.pk] == now[t.pk])
    ensures Consistent(ApplyAll(m, UpdateWrites(t, was, now)), t) <==>
            (Equal(was[t.pk], now[t.pk]) ==> was[t.pk] == now[t.pk]) || t.indexes == []
  {
    hide *;
    UpdateFits(m, t, rows, was, now);
    var n := ApplyAll(m, UpdateWrites(t, was, now));
    if Equal(was[t.pk], now[t.pk]) && was[t.pk] != now[t.pk] {
      UpdateOutOfStep(m, t, rows, was, now);
      if t.indexes == [] {
        OldRowStays(m, t, rows, was, now);
        HeldIsConsistent(n, t, rows[now[t.pk] := now]);
      } else {
        EntryLost(m, t, rows, was, now, t.indexes[0]);
      }
    } else {
      UpdateInStep(m, t, rows, was, now);
      HeldIsConsistent(n, t, Replaced(t, rows, was, now));
    }
  }

  lemma UpdateFits(m: Store, t: Table, rows: Rows, was: Row, now: Row)
    requires Represents(m, t, rows) && Typed(t, was) && Typed(t, now)
    ensures t.pk < |was| == |now| == |t.columns| && forall x :: x in t.indexes ==> x.pos < |was|
  {
  }

  // ------------------------------------------------------------------
  // What happens to the rows alone
  // ------------------------------------------------------------------

  /** The row under p gives way to another, except that a key types.Equal takes for p stays where it is. */
  function Moved(t: Table, rows: Rows, p: Value, now: Row): Rows
    requires t.pk < |now|
  {
    (if Equal(p, now[t.pk]) then rows else rows - {p})[now[t.pk] := now]
  }

  lemma MovedIsReplaced(t: Table, rows: Rows, was: Row, now: Row)
    requires t.pk < |was| == |now| && (Equal(was[t.pk], now[t.pk]) ==> was[t.pk] == now[t.pk])
    ensures Moved(t, rows, was[t.pk], now) == Replaced(t, rows, was, now)
  {
    OrderRange(was[t.pk], now[t.pk]);
  }

  lemma RowPrefixStaysClean(m: Store, t: Table, rows: Rows, ws: seq<Entry>, pks: set<Value>)
    requires HoldsRows(m, t, rows) && WritesOnly(t, pks, ws)
    ensures forall k :: k in ApplyAll(m, ws) && DataPrefix(t.id) <= k ==> exists p :: k == RowKey(t.id, p)
  {
    hide HoldsRows, KeyOf;
    forall k | k in ApplyAll(m, ws) && DataPrefix(t.id) <= k ensures exists p :: k == RowKey(t.id, p) {
      ApplyAllLookup(m, ws, k);
      if LastWrite(ws, k).Some? {
        var p :| p in pks && KeyOf(t, p, k);
        KeyUnderPrefix(t, p, k);
      } else {
        HeldKey(m, t, rows, k);
      }
    }
  }

  lemma KeyUnderPrefix(t: Table, p: Value, k: bytes)
    requires KeyOf(t, p, k) && DataPrefix(t.id) <= k
    ensures k == RowKey(t.id, p)
  {
    if k != RowKey(t.id, p) {
      var x, v :| x in t.indexes && k == IndexKey(t.id, x.id, v, p);
      assert IndexPrefix(t.id, x.id) <= k;
      KeySpacesDisjoint(t.id, t.id, x.id, k);
    }
  }

  lemma HeldKey(m: Store, t: Table, rows: Rows, k: bytes)
    requires HoldsRows(m, t, rows) && k in m && DataPrefix(t.id) <= k
    ensures exists p :: k == RowKey(t.id, p)
  {
  }

  lemma RowsHeldByKeys(n: Store, t: Table, after: Rows)
    requires WellFormed(t) && TypedRows(t, after) && forall p :: RowRight(n, t, after, p)
    requires forall k :: k in n && DataPrefix(t.id) <= k ==> exists p :: k == RowKey(t.id, p)
    ensures RowsHeld(n, t, after)
  {
    forall p ensures RowKey(t.id, p) in n <==> p in after {
      assert RowRight(n, t, after, p);
    }
    forall p | p in after ensures n[RowKey(t.id, p)] == EncodeRow(after[p]) {
      assert RowRight(n, t, after, p);
    }
  }

  lemma MovedTyped(t: Table, rows: Rows, p: Value, now: Row)
    requires TypedRows(t, rows) && Typed(t, now)
    ensures t.pk < |now| && TypedRows(t, Moved(t, rows, p, now))
  {
  }

  lemma HeldRowRight(m: Store, t: Table, rows: Rows, p: Value)
    requires RowsHeld(m, t, rows)
    ensures RowRight(m, t, rows, p)
  {
  }

  lemma MovedRow(m: Store, t: Table, rows: Rows, was: Row, now: Row, p: Value)
    requires RowsHeld(m, t, rows) && Typed(t, was) && Typed(t, now)
    ensures t.pk < |was| == |now| && (forall x :: x in t.indexes ==> x.pos < |was|)
    ensures RowRight(ApplyAll(m, UpdateWrites(t, was, now)), t, Moved(t, rows, was[t.pk], now), p)
  {
    HeldRowRight(m, t, rows, p);
    OrderRange(was[t.pk], now[t.pk]);
    hide UpdateWrites, ApplyAll, LastWrite, RowKey, EncodeRow, HoldsRows, Equal;
    UpdateDecidesRow(t, was, now, p);
    ApplyAllLookup(m, UpdateWrites(t, was, now), RowKey(t.id, p));
  }

  /** Whatever becomes of the indexes, the rows are then the moved ones. */
  lemma UpdateMovesRows(m: Store, t: Table, rows: Rows, was: Row, now: Row)
    requires RowsHeld(m, t, rows) && Typed(t, was) && Typed(t, now)
    ensures t.pk < |was| == |now| && (forall x :: x in t.indexes ==> x.pos < |was|)
    ensures RowsHeld(ApplyAll(m, UpdateWrites(t, was, now)), t, Moved(t, rows, was[t.pk], now))
  {
    assert t.pk < |was| == |now| == |t.columns| && forall x :: x in t.indexes ==> x.pos < |was|;
    hide UpdateWrites, ApplyAll, Typed, HoldsRows, Moved, RowRight;
    var n, after := ApplyAll(m, UpdateWrites(t, was, now)), Moved(t, rows, was[t.pk], now);
    MovedTyped(t, rows, was[t.pk], now);
    forall p ensures RowRight(n, t, after, p) {
      MovedRow(m, t, rows, was, now, p);
    }
    UpdateWritesKeys(t, was, now);
    RowPrefixStaysClean(m, t, rows, UpdateWrites(t, was, now), {was[t.pk], now[t.pk]});
    hide RowsHeld, WellFormed, TypedRows, WritesOnly;
    RowsHeldByKeys(n, t, after);
  }

  lemma NothingStored(t: Table)
    requires WellFormed(t)
    ensures Represents(map[], t, map[])
  {
  }
}
