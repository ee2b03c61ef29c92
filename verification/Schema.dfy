// Tables, well-typed rows, and what a store must hold to represent a table.
module Schema {
  import opened Bytes
  import opened Values
  import opened KeyCodec
  import opened Keys
  import opened RowCodec
  import opened Storage
  import Ast

  type Name = Ast.Name

  datatype Column = Column(name: Name, kind: Kind, notNull: bool, primaryKey: bool)

  datatype Index = Index(name: Name, id: uint32, column: Name, pos: nat)

  datatype Table = Table(
    name: Name,
    id: uint32,
    columns: seq<Column>,
    pk: nat,
    indexes: seq<Index>,
    nextIndexId: uint32)
  {
    /** The position of a named column, the first if the name repeats. */
    function ColumnIndex(n: Name): (r: Option<nat>)
      ensures r.Some? ==> r.value < |columns| && columns[r.value].name == n
      ensures r.None? ==> forall i :: 0 <= i < |columns| ==> columns[i].name != n
    {
      FindColumn(columns, n, 0)
    }
  }

  function FindColumn(cols: seq<Column>, n: Name, from: nat): (r: Option<nat>)
    requires from <= |cols|
    ensures r.Some? ==> from <= r.value < |cols| && cols[r.value].name == n
    ensures r.None? ==> forall i :: from <= i < |cols| ==> cols[i].name != n
    decreases |cols| - from
  {
    if from == |cols| then None
    else if cols[from].name == n then Some(from)
    else FindColumn(cols, n, from + 1)
  }

  /** What catalog.Define and AddIndex establish. */
  ghost predicate WellFormed(t: Table) {
    && t.pk < |t.columns|
    && t.columns[t.pk].notNull
    && (forall i :: 0 <= i < |t.columns| ==> (t.columns[i].primaryKey <==> i == t.pk))
    && (forall i, j :: 0 <= i < j < |t.columns| ==> t.columns[i].name != t.columns[j].name)
    && (forall x :: x in t.indexes ==> x.pos < |t.columns| && t.columns[x.pos].name == x.column)
    && (forall i, j :: 0 <= i < j < |t.indexes| ==> t.indexes[i].id != t.indexes[j].id)
  }

  /** A stored row: every column of its declared kind or, where allowed, NULL. */
  ghost predicate Typed(t: Table, row: Row) {
    && |row| == |t.columns|
    && forall i :: 0 <= i < |row| ==>
         if row[i].Null? then !t.columns[i].notNull else row[i].Kind() == t.columns[i].kind
  }

  type Rows = map<Value, Row>

  ghost predicate TypedRows(t: Table, rows: Rows) {
    t.pk < |t.columns| && forall p :: p in rows ==> Typed(t, rows[p]) && rows[p][t.pk] == p
  }

  /** Exactly the rows, one key each, and nothing else under the table's data prefix. */
  ghost predicate HoldsRows(m: Store, t: Table, rows: Rows) {
    && (forall p :: RowKey(t.id, p) in m <==> p in rows)
    && (forall p :: p in rows ==> m[RowKey(t.id, p)] == EncodeRow(rows[p]))
    && (forall k :: k in m && DataPrefix(t.id) <= k ==> exists p :: k == RowKey(t.id, p))
  }

  /** Exactly the entries the rows call for, and nothing else under the index's prefix. */
  ghost predicate HoldsIndex(m: Store, t: Table, x: Index, rows: Rows)
    requires TypedRows(t, rows) && x.pos < |t.columns|
  {
    && (forall v, p :: IndexKey(t.id, x.id, v, p) in m <==> p in rows && rows[p][x.pos] == v)
    && (forall k :: k in m && IndexPrefix(t.id, x.id) <= k ==> exists v, p :: k == IndexKey(t.id, x.id, v, p))
  }

  /** The store holds these rows of the table, with every index in step. */
  ghost predicate Represents(m: Store, t: Table, rows: Rows) {
    && WellFormed(t)
    && TypedRows(t, rows)
    && HoldsRows(m, t, rows)
    && (forall x :: x in t.indexes ==> HoldsIndex(m, t, x, rows))
  }

  /** The store holds some rows of the table, with every index in step. */
  ghost predicate Consistent(m: Store, t: Table) { exists rows :: Represents(m, t, rows) }

  lemma HeldIsConsistent(m: Store, t: Table, rows: Rows)
    requires Represents(m, t, rows)
    ensures Consistent(m, t)
  {
    hide Represents;
  }

  /** The store holds these rows of the table, whatever its indexes say. */
  ghost predicate RowsHeld(m: Store, t: Table, rows: Rows) { WellFormed(t) && TypedRows(t, rows) && HoldsRows(m, t, rows) }

  /** No two of the rows have primary keys that types.Equal takes for one another. */
  ghost predicate NoTwins(rows: Rows) { forall p, q :: p in rows && q in rows && Equal(p, q) ==> p == q }

  lemma RepresentsRowsHeld(m: Store, t: Table, rows: Rows)
    requires Represents(m, t, rows)
    ensures RowsHeld(m, t, rows)
  {
  }

  /** Whatever rows m holds as table t, n holds as table u. */
  ghost predicate RowsKept(m: Store, t: Table, n: Store, u: Table) {
    forall rows :: Represents(m, t, rows) ==> Represents(n, u, rows)
  }

  lemma KeptConsistent(m: Store, t: Table, n: Store, u: Table)
    requires RowsKept(m, t, n, u) && Consistent(m, t)
    ensures Consistent(n, u)
  {
    hide Represents;
  }

  lemma KeptTransitive(a: Store, t: Table, b: Store, u: Table, c: Store, v: Table)
    requires RowsKept(a, t, b, u) && RowsKept(b, u, c, v)
    ensures RowsKept(a, t, c, v)
  {
    hide Represents;
  }

  /** Keys that belong to a table: its rows and the entries of its indexes. */
  ghost predicate Owned(t: Table, k: bytes) {
    DataPrefix(t.id) <= k || exists x :: x in t.indexes && IndexPrefix(t.id, x.id) <= k
  }

  /** The key is the row key of p or an index entry that points at p. */
  ghost predicate KeyOf(t: Table, p: Value, k: bytes) {
    k == RowKey(t.id, p) || exists x, v :: x in t.indexes && k == IndexKey(t.id, x.id, v, p)
  }

  lemma KeyOfOwned(t: Table, p: Value, k: bytes)
    requires KeyOf(t, p, k)
    ensures Owned(t, k)
  {
    if k == RowKey(t.id, p) {
      assert DataPrefix(t.id) <= k;
    } else {
      var x, v :| x in t.indexes && k == IndexKey(t.id, x.id, v, p);
      assert IndexPrefix(t.id, x.id) <= k;
    }
  }

  lemma KeyOfUnique(t: Table, p: Value, q: Value, k: bytes)
    requires KeyOf(t, p, k) && KeyOf(t, q, k)
    ensures p == q
  {
    if k == RowKey(t.id, p) {
      if k == RowKey(t.id, q) {
        RowKeyInjective(t.id, p, t.id, q);
      } else {
        var x, v :| x in t.indexes && k == IndexKey(t.id, x.id, v, q);
        RowIndexApart(t.id, p, t.id, x.id, v, q);
      }
    } else {
      var x, v :| x in t.indexes && k == IndexKey(t.id, x.id, v, p);
      if k == RowKey(t.id, q) {
        RowIndexApart(t.id, q, t.id, x.id, v, p);
      } else {
        var y, w :| y in t.indexes && k == IndexKey(t.id, y.id, w, q);
        IndexKeyInjective(t.id, x.id, v, p, t.id, y.id, w, q);
      }
    }
  }

  lemma RowIndexApart(t: uint32, p: Value, u: uint32, i: uint32, v: Value, q: Value)
    ensures RowKey(t, p) != IndexKey(u, i, v, q)
  {
    assert RowKey(t, p)[0] == PREFIX_DATA && IndexKey(u, i, v, q)[0] == PREFIX_INDEX;
  }

  lemma OwnedByOne(t: Table, u: Table, k: bytes)
    requires Owned(t, k) && Owned(u, k)
    ensures t.id == u.id
  {
    if DataPrefix(t.id) <= k {
      if DataPrefix(u.id) <= k {
        DataPrefixesDisjoint(t.id, u.id, k);
      } else {
        var y :| y in u.indexes && IndexPrefix(u.id, y.id) <= k;
        KeySpacesDisjoint(t.id, u.id, y.id, k);
      }
    } else {
      var x :| x in t.indexes && IndexPrefix(t.id, x.id) <= k;
      if DataPrefix(u.id) <= k {
        KeySpacesDisjoint(u.id, t.id, x.id, k);
      } else {
        var y :| y in u.indexes && IndexPrefix(u.id, y.id) <= k;
        IndexPrefixesDisjoint(t.id, x.id, u.id, y.id, k);
      }
    }
  }

  ghost predicate Same(m: Store, n: Store, k: bytes) {
    (k in m <==> k in n) && (k in m && k in n ==> m[k] == n[k])
  }

  /** What a store represents depends on the table's own keys only. */
  lemma RepresentsFrame(m: Store, n: Store, t: Table, rows: Rows)
    requires Represents(m, t, rows)
    requires forall k :: Owned(t, k) ==> Same(m, n, k)
    ensures Represents(n, t, rows)
  {
    forall p ensures Same(m, n, RowKey(t.id, p)) {
      assert DataPrefix(t.id) <= RowKey(t.id, p);
      assert Owned(t, RowKey(t.id, p));
    }
    assert HoldsRows(n, t, rows) by {
      forall k | k in n && DataPrefix(t.id) <= k ensures exists p :: k == RowKey(t.id, p) {
        assert Owned(t, k);
        assert Same(m, n, k);
      }
    }
    forall x | x in t.indexes ensures HoldsIndex(n, t, x, rows) {
      assert HoldsIndex(m, t, x, rows);
      forall v, p ensures Same(m, n, IndexKey(t.id, x.id, v, p)) {
        assert IndexPrefix(t.id, x.id) <= IndexKey(t.id, x.id, v, p);
        assert Owned(t, IndexKey(t.id, x.id, v, p));
      }
      forall k | k in n && IndexPrefix(t.id, x.id) <= k ensures exists v, p :: k == IndexKey(t.id, x.id, v, p) {
        assert Owned(t, k);
        assert Same(m, n, k);
      }
    }
  }

  /** Nothing but the table's own keys differs. */
  ghost predicate Confined(m: Store, n: Store, t: Table) { forall k :: !Owned(t, k) ==> Same(m, n, k) }

  /** What an INSERT, UPDATE or DELETE does: one table's own keys change, to hold other rows in step. */
  ghost predicate RowsWritten(m: Store, n: Store, t: Table) { Consistent(n, t) && Confined(m, n, t) }

  lemma ConfinedSame(m: Store, t: Table)
    ensures Confined(m, m, t)
  {
  }

  lemma ConfinedTransitive(a: Store, b: Store, c: Store, t: Table)
    requires Confined(a, b, t) && Confined(b, c, t)
    ensures Confined(a, c, t)
  {
    hide Owned;
    forall k | !Owned(t, k) ensures Same(a, c, k) {
      assert Same(a, b, k) && Same(b, c, k);
    }
  }

  lemma RepresentsUnique(m: Store, t: Table, a: Rows, b: Rows)
    requires Represents(m, t, a) && Represents(m, t, b)
    ensures a == b
  {
    RowsHeldUnique(m, t, a, b);
  }

  lemma RowsHeldUnique(m: Store, t: Table, a: Rows, b: Rows)
    requires RowsHeld(m, t, a) && RowsHeld(m, t, b)
    ensures a == b
  {
    forall p | p in a ensures p in b && a[p] == b[p] {
      assert RowKey(t.id, p) in m;
      EncodeRowInjective(a[p], b[p]);
    }
    forall p | p in b ensures p in a {
      assert RowKey(t.id, p) in m;
    }
  }

  // ------------------------------------------------------------------
  // Tables for examples
  // ------------------------------------------------------------------

  /** `CREATE TABLE t (a INT PRIMARY KEY, k INT)` with an index on k. */
  function Example(): Table {
    Table([0x74], 1, [Column([0x61], KInt, true, true), Column([0x6B], KInt, false, false)], 0, [Index([0x69], 1, [0x6B], 1)], 2)
  }

  /** `CREATE TABLE z (f FLOAT PRIMARY KEY, k INT)` with an index on k. */
  function FloatExample(): Table {
    Table([0x7A], 1, [Column([0x66], KFloat, true, true), Column([0x6B], KInt, false, false)], 0, [Index([0x69], 1, [0x6B], 1)], 2)
  }
}
