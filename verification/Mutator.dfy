// The mutator of exec/dml.go: the only writer of row keys, over an overlay.
module Mutators {
  import opened Bytes
  import opened Values
  import opened KeyCodec
  import opened Keys
  import opened RowCodec
  import opened Storage
  import opened Schema
  import opened Dml

  // ------------------------------------------------------------------
  // Constraints
  // ------------------------------------------------------------------

  function ValidateFrom(h: Host, t: Table, row: Row, i: nat): Result<Row>
    requires |row| == |t.columns| && i <= |row|
    decreases |row| - i
  {
    if i == |row| then Ok(row)
    else
      var v :- Coerce(h, row[i], t.columns[i].kind);
      if v.Null? && t.columns[i].primaryKey then Err(NullKey)
      else if v.Null? && t.columns[i].notNull then Err(NotNullViolated)
      else ValidateFrom(h, t, row[i := v], i + 1)
  }

  /** Column constraints and implicit conversions, column by column. */
  function Validate(h: Host, t: Table, row: Row): Result<Row> {
    if |row| != |t.columns| then Err(WrongArity) else ValidateFrom(h, t, row, 0)
  }

  lemma {:induction false} ValidateFromTyped(h: Host, t: Table, row: Row, i: nat)
    requires |row| == |t.columns| && i <= |row|
    requires forall j :: 0 <= j < i ==>
               if row[j].Null? then !t.columns[j].notNull else row[j].Kind() == t.columns[j].kind
    requires ValidateFrom(h, t, row, i).Ok?
    ensures Typed(t, ValidateFrom(h, t, row, i).value)
    ensures forall j :: 0 <= j < i ==> ValidateFrom(h, t, row, i).value[j] == row[j]
    decreases |row| - i
  {
    if i < |row| {
      var v := Coerce(h, row[i], t.columns[i].kind).value;
      ValidateFromTyped(h, t, row[i := v], i + 1);
    }
  }

  /** A row that passes validation is one the table may hold. */
  lemma ValidateTyped(h: Host, t: Table, row: Row)
    requires Validate(h, t, row).Ok?
    ensures Typed(t, Validate(h, t, row).value)
  {
    ValidateFromTyped(h, t, row, 0);
  }

  lemma {:induction false} ValidateFromIdentity(h: Host, t: Table, row: Row, i: nat)
    requires WellFormed(t) && Typed(t, row) && i <= |row|
    ensures ValidateFrom(h, t, row, i) == Ok(row)
    decreases |row| - i
  {
    if i < |row| {
      assert row[i := row[i]] == row;
      ValidateFromIdentity(h, t, row, i + 1);
    }
  }

  /** Validation leaves a row that is already typed as it is. */
  lemma ValidateIdentity(h: Host, t: Table, row: Row)
    requires WellFormed(t) && Typed(t, row)
    ensures Validate(h, t, row) == Ok(row)
  {
    ValidateFromIdentity(h, t, row, 0);
  }

  /** The column takes v and stores w. */
  predicate ColumnTakes(h: Host, t: Table, c: nat, v: Value, w: Value)
    requires c < |t.columns|
  {
    StoredAs(h, v, t.columns[c].kind, w) && (w.Null? ==> !t.columns[c].notNull && !t.columns[c].primaryKey)
  }

  /** Why it does not: the kind is wrong, or NULL may not stand there. */
  predicate ColumnRefuses(t: Table, c: nat, v: Value, e: Error)
    requires c < |t.columns|
  {
    if v.Null? then (e == NullKey && t.columns[c].primaryKey) || (e == NotNullViolated && t.columns[c].notNull && !t.columns[c].primaryKey)
    else e == TypeMismatch && v.Kind() != t.columns[c].kind && !(v.Int? && t.columns[c].kind == KFloat)
  }

  ghost predicate RowTakes(h: Host, t: Table, row: Row, stored: Row) {
    |row| == |stored| == |t.columns| && forall c :: 0 <= c < |row| ==> ColumnTakes(h, t, c, row[c], stored[c])
  }

  ghost predicate TakesSome(h: Host, t: Table, c: nat, v: Value)
    requires c < |t.columns|
  {
    exists w :: ColumnTakes(h, t, c, v, w)
  }

  /** The first column that takes nothing gives the error. */
  ghost predicate RefusedAt(h: Host, t: Table, row: Row, c: nat, e: Error) {
    && c < |row| == |t.columns| && ColumnRefuses(t, c, row[c], e)
    && forall d :: 0 <= d < c ==> TakesSome(h, t, d, row[d])
  }

  ghost predicate RowRefused(h: Host, t: Table, row: Row, e: Error) {
    (|row| != |t.columns| && e == WrongArity) || exists c :: RefusedAt(h, t, row, c, e)
  }

  /** The row being validated, the columns before i already as stored. */
  lemma {:induction false} ValidateFromMeans(h: Host, t: Table, was: Row, row: Row, i: nat)
    requires |was| == |row| == |t.columns| && i <= |row|
    requires forall c :: 0 <= c < i ==> ColumnTakes(h, t, c, was[c], row[c])
    requires forall c :: i <= c < |row| ==> row[c] == was[c]
    ensures match ValidateFrom(h, t, row, i)
            case Ok(stored) => RowTakes(h, t, was, stored)
            case Err(e) => RowRefused(h, t, was, e)
    decreases |row| - i
  {
    if i < |row| {
      CoerceMeans(h, row[i], t.columns[i].kind);
      var v := Coerce(h, row[i], t.columns[i].kind);
      if v.Ok? && ColumnTakes(h, t, i, row[i], v.value) {
        ValidateFromMeans(h, t, was, row[i := v.value], i + 1);
      } else {
        var e := ValidateFrom(h, t, row, i).error;
        forall d | 0 <= d < i ensures TakesSome(h, t, d, was[d]) {
          assert ColumnTakes(h, t, d, was[d], row[d]);
        }
        assert RefusedAt(h, t, was, i, e);
      }
    }
  }

  /** Validation stores each column's value as the column takes it, or reports the first that takes nothing. */
  lemma ValidateMeans(h: Host, t: Table, row: Row)
    ensures match Validate(h, t, row)
            case Ok(stored) => RowTakes(h, t, row, stored)
            case Err(e) => RowRefused(h, t, row, e)
  {
    if |row| == |t.columns| {
      ValidateFromMeans(h, t, row, row, 0);
    }
  }

  method ValidateRow(h: Host, t: Table, row: Row) returns (r: Result<Row>)
    ensures r == Validate(h, t, row)
    ensures match r case Ok(stored) => RowTakes(h, t, row, stored) case Err(e) => RowRefused(h, t, row, e)
  {
    ValidateMeans(h, t, row);
    hide RowTakes, RowRefused;
    if |row| != |t.columns| {
      return Err(WrongArity);
    }
    var out := row;
    for i := 0 to |t.columns|
      invariant |out| == |t.columns|
      invariant ValidateFrom(h, t, row, 0) == ValidateFrom(h, t, out, i)
    {
      var v := Coerce(h, out[i], t.columns[i].kind);
      if v.Err? {
        return Err(v.error);
      }
      if v.value.Null? {
        if t.columns[i].primaryKey {
          return Err(NullKey);
        }
        if t.columns[i].notNull {
          return Err(NotNullViolated);
        }
      }
      out := out[i := v.value];
    }
    r := Ok(out);
  }

  // ------------------------------------------------------------------
  // What an operation decides to write, or why it refuses
  // ------------------------------------------------------------------

  function InsertOutcome(h: Host, m: Store, t: Table, row: Row): Result<seq<Entry>>
    requires t.pk < |t.columns| && forall x :: x in t.indexes ==> x.pos < |t.columns|
  {
    var v :- Validate(h, t, row);
    ValidateTyped(h, t, row);
    if RowKey(t.id, v[t.pk]) in m then Err(DuplicateKey) else Ok(InsertWrites(t, v))
  }

  function UpdateOutcome(h: Host, m: Store, t: Table, was: Row, now: Row): Result<seq<Entry>>
    requires t.pk < |t.columns| == |was| && forall x :: x in t.indexes ==> x.pos < |t.columns|
  {
    var v :- Validate(h, t, now);
    ValidateTyped(h, t, now);
    if !Equal(was[t.pk], v[t.pk]) && RowKey(t.id, v[t.pk]) in m then Err(DuplicateKey)
    else Ok(UpdateWrites(t, was, v))
  }

  /** Table whose key and index positions point at columns. */
  predicate Addressable(t: Table) {
    t.pk < |t.columns| && forall x :: x in t.indexes ==> x.pos < |t.columns|
  }

  class Mutator {
    const host: Host
    const rw: Overlay
    const table: Table

    constructor (host: Host, rw: Overlay, table: Table)
      ensures this.host == host && this.rw == rw && this.table == table
    {
      this.host, this.rw, this.table := host, rw, table;
    }

    method Insert(row: Row) returns (err: Option<Error>)
      requires rw.Valid() && Addressable(table)
      modifies rw.buf
      ensures rw.Valid() && rw.buf.sorted == old(rw.buf.sorted)
      ensures match InsertOutcome(host, old(rw.View()), table, row)
              case Ok(ws) => err.None? && rw.buf.m == PutAll(old(rw.buf.m), ws)
              case Err(e) => err == Some(e) && rw.buf.m == old(rw.buf.m)
    {
      var v := ValidateRow(host, table, row);
      if v.Err? {
        return Some(v.error);
      }
      ValidateTyped(host, table, row);
      var pk := v.value[table.pk];
      var key := RowKey(table.id, pk);
      var found := rw.Get(key);
      if found.Ok? {
        return Some(DuplicateKey);
      }
      WriteRowAndIndexes(v.value);
      err := None;
    }

    /** The tail Insert and Update share: the row key, then the row's index entries. */
    method WriteRowAndIndexes(row: Row)
      requires rw.Valid() && Addressable(table) && |row| == |table.columns|
      modifies rw.buf
      ensures rw.Valid() && rw.buf.sorted == old(rw.buf.sorted)
      ensures rw.buf.m == PutAll(old(rw.buf.m), InsertWrites(table, row))
    {
      var key := RowKey(table.id, row[table.pk]);
      ghost var first := [Entry(key, EncodeRow(row), false)];
      ghost var em := rw.buf.m;
      assert first[1..] == [];
      rw.Put(key, EncodeRow(row));
      assert rw.buf.m == PutAll(em, first);
      WriteIndexes(row, row[table.pk], false);
      PutAllAppend(em, first, IndexWrites(table, table.indexes, row, row[table.pk], false));
    }

    method Update(was: Row, now: Row) returns (err: Option<Error>)
      requires rw.Valid() && Addressable(table) && |was| == |table.columns|
      modifies rw.buf
      ensures rw.Valid() && rw.buf.sorted == old(rw.buf.sorted)
      ensures match UpdateOutcome(host, old(rw.View()), table, was, now)
              case Ok(ws) => err.None? && rw.buf.m == PutAll(old(rw.buf.m), ws)
              case Err(e) => err == Some(e) && rw.buf.m == old(rw.buf.m)
    {
      var v := ValidateRow(host, table, now);
      if v.Err? {
        return Some(v.error);
      }
      ValidateTyped(host, table, now);
      var oldPK, newPK := was[table.pk], v.value[table.pk];
      ghost var em := rw.buf.m;
      ghost var head: seq<Entry> := [];
      if !Equal(oldPK, newPK) {
        var found := rw.Get(RowKey(table.id, newPK));
        if found.Ok? {
          return Some(DuplicateKey);
        }
        rw.Delete(RowKey(table.id, oldPK));
        head := [Entry(RowKey(table.id, oldPK), [], true)];
        assert head[1..] == [];
      }
      assert rw.buf.m == PutAll(em, head);
      WriteIndexes(was, oldPK, true);
      ghost var gone := IndexWrites(table, table.indexes, was, oldPK, true);
      PutAllAppend(em, head, gone);
      WriteRowAndIndexes(v.value);
      PutAllAppend(em, head + gone, InsertWrites(table, v.value));
      err := None;
    }

    method Delete(row: Row)
      requires rw.Valid() && Addressable(table) && |row| == |table.columns|
      modifies rw.buf
      ensures rw.Valid() && rw.buf.sorted == old(rw.buf.sorted)
      ensures rw.buf.m == PutAll(old(rw.buf.m), DeleteWrites(table, row))
    {
      var pk := row[table.pk];
      ghost var em := rw.buf.m;
      ghost var last := [Entry(RowKey(table.id, pk), [], true)];
      assert last[1..] == [];
      WriteIndexes(row, pk, true);
      rw.Delete(RowKey(table.id, pk));
      PutAllAppend(em, IndexWrites(table, table.indexes, row, pk, true), last);
    }

    method WriteIndexes(row: Row, pk: Value, remove: bool)
      requires rw.Valid() && Addressable(table) && |row| == |table.columns|
      modifies rw.buf
      ensures rw.Valid() && rw.buf.sorted == old(rw.buf.sorted)
      ensures rw.buf.m == PutAll(old(rw.buf.m), IndexWrites(table, table.indexes, row, pk, remove))
    {
      ghost var em := rw.buf.m;
      var xs := table.indexes;
      for i := 0 to |xs|
        invariant rw.Valid() && rw.buf.sorted == old(rw.buf.sorted)
        invariant PutAll(rw.buf.m, IndexWrites(table, xs[i..], row, pk, remove)) ==
                  PutAll(em, IndexWrites(table, xs, row, pk, remove))
      {
        var key := IndexKey(table.id, xs[i].id, row[xs[i].pos], pk);
        ghost var rest := IndexWrites(table, xs[i..], row, pk, remove);
        assert xs[i..][1..] == xs[i + 1..];
        assert rest[1..] == IndexWrites(table, xs[i + 1..], row, pk, remove);
        if remove {
          rw.Delete(key);
        } else {
          rw.Put(key, []);
        }
      }
    }
  }

  // ------------------------------------------------------------------
  // Each operation keeps rows and indexes in step
  // ------------------------------------------------------------------

  /** A successful INSERT adds exactly the validated row, under a primary key that was free. */
  lemma InsertTakesEffect(h: Host, base: Store, em: Entries, t: Table, rows: Rows, row: Row)
    requires Represents(Apply(base, em), t, rows)
    requires InsertOutcome(h, Apply(base, em), t, row).Ok?
    ensures Validate(h, t, row).Ok?
    ensures var v := Validate(h, t, row).value;
            && |v| == |t.columns| && v[t.pk] !in rows
            && Represents(Apply(base, PutAll(em, InsertOutcome(h, Apply(base, em), t, row).value)), t, rows[v[t.pk] := v])
    ensures Confined(Apply(base, em), Apply(base, PutAll(em, InsertOutcome(h, Apply(base, em), t, row).value)), t)
  {
    ValidateTyped(h, t, row);
    var v := Validate(h, t, row).value;
    InsertKeepsInStep(Apply(base, em), t, rows, v);
    BufferedWritesShow(base, em, InsertWrites(t, v));
    InsertWritesKeys(t, v);
    WritesConfined(base, em, t, {v[t.pk]}, InsertWrites(t, v));
  }

  lemma UpdateTakesEffect(h: Host, base: Store, em: Entries, t: Table, rows: Rows, was: Row, now: Row)
    requires Represents(Apply(base, em), t, rows)
    requires Typed(t, was) && was[t.pk] in rows && rows[was[t.pk]] == was
    requires UpdateOutcome(h, Apply(base, em), t, was, now).Ok?
    requires Validate(h, t, now).Ok? && |Validate(h, t, now).value| == |t.columns|
    requires Equal(was[t.pk], Validate(h, t, now).value[t.pk]) ==> was[t.pk] == Validate(h, t, now).value[t.pk]
    ensures var v := Validate(h, t, now).value;
            && (v[t.pk] == was[t.pk] || v[t.pk] !in rows)
            && Represents(Apply(base, PutAll(em, UpdateWrites(t, was, v))), t, Replaced(t, rows, was, v))
            && Confined(Apply(base, em), Apply(base, PutAll(em, UpdateWrites(t, was, v))), t)
  {
    ValidateTyped(h, t, now);
    var v := Validate(h, t, now).value;
    OrderRange(was[t.pk], v[t.pk]);
    UpdateInStep(Apply(base, em), t, rows, was, v);
    BufferedWritesShow(base, em, UpdateWrites(t, was, v));
    UpdateWritesKeys(t, was, v);
    WritesConfined(base, em, t, {was[t.pk], v[t.pk]}, UpdateWrites(t, was, v));
  }

  lemma DeleteTakesEffect(base: Store, em: Entries, t: Table, rows: Rows, row: Row)
    requires Represents(Apply(base, em), t, rows)
    requires Typed(t, row) && row[t.pk] in rows && rows[row[t.pk]] == row
    ensures Represents(Apply(base, PutAll(em, DeleteWrites(t, row))), t, rows - {row[t.pk]})
    ensures Confined(Apply(base, em), Apply(base, PutAll(em, DeleteWrites(t, row))), t)
  {
    DeleteKeepsInStep(Apply(base, em), t, rows, row);
    BufferedWritesShow(base, em, DeleteWrites(t, row));
    DeleteWritesKeys(t, row);
    WritesConfined(base, em, t, {row[t.pk]}, DeleteWrites(t, row));
  }

  // ------------------------------------------------------------------
  // A primary key that moves from one zero to the other
  // ------------------------------------------------------------------

  const ROW_BELOW: Row := [Float(TWO_63), Int(1)]
  const ROW_ABOVE: Row := [Float(0), Int(2)]
  const ROW_MOVED: Row := [Float(0), Int(1)]

  lemma ZeroRows()
    ensures WellFormed(FloatExample()) && FloatExample().indexes[0] in FloatExample().indexes
    ensures Typed(FloatExample(), ROW_BELOW) && Typed(FloatExample(), ROW_ABOVE) && Typed(FloatExample(), ROW_MOVED)
    ensures Float(TWO_63) != Float(0) && Equal(Float(TWO_63), Float(0))
  {
  }

  /** The row -0.0 alone in the table, and then with the row 0.0. */
  function ZeroStore(both: bool): Store {
    var m := ApplyAll(map[], InsertWrites(FloatExample(), ROW_BELOW));
    if both then ApplyAll(m, InsertWrites(FloatExample(), ROW_ABOVE)) else m
  }

  lemma ZeroStores(both: bool)
    ensures Represents(ZeroStore(both), FloatExample(),
                       if both then map[Float(TWO_63) := ROW_BELOW, Float(0) := ROW_ABOVE] else map[Float(TWO_63) := ROW_BELOW])
  {
    var t := FloatExample();
    ZeroRows();
    hide Represents, InsertWrites, ApplyAll, WellFormed, Typed, Equal;
    NothingStored(t);
    InsertKeepsInStep(map[], t, map[], ROW_BELOW);
    assert map[][Float(TWO_63) := ROW_BELOW] == map[Float(TWO_63) := ROW_BELOW];
    if both {
      InsertKeepsInStep(ZeroStore(false), t, map[Float(TWO_63) := ROW_BELOW], ROW_ABOVE);
      assert map[Float(TWO_63) := ROW_BELOW][Float(0) := ROW_ABOVE] == map[Float(TWO_63) := ROW_BELOW, Float(0) := ROW_ABOVE];
    }
  }

  /**
   * `UPDATE z SET f = 0.0 WHERE k = 1` on the row -0.0: accepted without looking whether 0.0 is
   * taken, it leaves the old row in the store and overwrites the other if there is one. Either way
   * no set of rows is in step with the index any more.
   */
  lemma ZeroKeyMoves(h: Host, both: bool)
    ensures Consistent(ZeroStore(both), FloatExample())
    ensures UpdateOutcome(h, ZeroStore(both), FloatExample(), ROW_BELOW, ROW_MOVED) ==
            Ok(UpdateWrites(FloatExample(), ROW_BELOW, ROW_MOVED))
    ensures var after := ApplyAll(ZeroStore(both), UpdateWrites(FloatExample(), ROW_BELOW, ROW_MOVED));
            && !Consistent(after, FloatExample())
            && RowKey(1, Float(TWO_63)) in after && after[RowKey(1, Float(TWO_63))] == EncodeRow(ROW_BELOW)
            && RowKey(1, Float(0)) in after && after[RowKey(1, Float(0))] == EncodeRow(ROW_MOVED)
  {
    hide InsertWrites, UpdateWrites, ApplyAll, WellFormed, Typed, ZeroStore, LastWrite, RowKey, EncodeRow, Represents, Equal,
         UpdateOutcome, Validate, Consistent;
    var t := FloatExample();
    ZeroRows();
    ZeroStores(both);
    ZeroAccepted(h, ZeroStore(both));
    var rows := if both then map[Float(TWO_63) := ROW_BELOW, Float(0) := ROW_ABOVE] else map[Float(TWO_63) := ROW_BELOW];
    HeldIsConsistent(ZeroStore(both), t, rows);
    ZeroWrites(ZeroStore(both), rows);
    EntryLost(ZeroStore(both), t, rows, ROW_BELOW, ROW_MOVED, t.indexes[0]);
  }

  lemma ZeroAccepted(h: Host, m: Store)
    ensures UpdateOutcome(h, m, FloatExample(), ROW_BELOW, ROW_MOVED) == Ok(UpdateWrites(FloatExample(), ROW_BELOW, ROW_MOVED))
  {
    ZeroRows();
    ValidateIdentity(h, FloatExample(), ROW_MOVED);
    hide Validate, UpdateWrites, Typed, WellFormed;
  }

  lemma ZeroWrites(m: Store, rows: Rows)
    requires Represents(m, FloatExample(), rows) && Float(TWO_63) in rows && rows[Float(TWO_63)] == ROW_BELOW
    ensures var after := ApplyAll(m, UpdateWrites(FloatExample(), ROW_BELOW, ROW_MOVED));
            && RowKey(1, Float(TWO_63)) in after && after[RowKey(1, Float(TWO_63))] == EncodeRow(ROW_BELOW)
            && RowKey(1, Float(0)) in after && after[RowKey(1, Float(0))] == EncodeRow(ROW_MOVED)
  {
    var t := FloatExample();
    ZeroRows();
    hide UpdateWrites, ApplyAll, Typed, LastWrite, RowKey, EncodeRow;
    RepresentsGivesRow(m, t, rows, Float(TWO_63));
    UpdateDecidesRow(t, ROW_BELOW, ROW_MOVED, Float(TWO_63));
    UpdateDecidesRow(t, ROW_BELOW, ROW_MOVED, Float(0));
    ApplyAllLookup(m, UpdateWrites(t, ROW_BELOW, ROW_MOVED), RowKey(t.id, Float(TWO_63)));
    ApplyAllLookup(m, UpdateWrites(t, ROW_BELOW, ROW_MOVED), RowKey(t.id, Float(0)));
  }
}
