// INSERT (exec/dml.go) and the session around the row statements (conn.go): an explicit transaction
// or one of its own for each statement.
module Sessions {
  import opened Bytes
  import opened Values
  import opened Ast
  import opened Eval
  import opened Ranges
  import opened Storage
  import opened Schema
  import opened Dml
  import opened Mutators
  import opened Access
  import opened Statements
  import opened Transactions

  // ------------------------------------------------------------------
  // INSERT
  // ------------------------------------------------------------------

  function Nulls(n: nat): (r: Row)
    ensures |r| == n
  {
    seq(n, i => Null)
  }

  predicate ColsFit(cols: seq<nat>, n: nat) { forall i :: 0 <= i < |cols| ==> cols[i] < n }

  /** The listed columns from the VALUES entries, which see no row and no columns; the others NULL. */
  function RowFor(h: Host, n: nat, cols: seq<nat>, values: seq<Expr>): (r: Result<Row>)
    requires |cols| == |values| && ColsFit(cols, n)
    ensures r.Ok? ==> |r.value| == n
  {
    if values == [] then Ok(Nulls(n))
    else
      var last := |values| - 1;
      var row :- RowFor(h, n, cols[..last], values[..last]);
      var v :- EvalExpr(h, values[last], map[], []);
      Ok(row[cols[last] := v])
  }

  /** Entry k is the last that is listed for column c; a column is listed once at most. */
  predicate ListedFor(cols: seq<nat>, k: nat, c: nat) { k < |cols| && cols[k] == c && forall l :: k < l < |cols| ==> cols[l] != c }

  /** What column c is given: the value of its entry, or NULL. */
  ghost predicate ColumnGiven(h: Host, cols: seq<nat>, values: seq<Expr>, c: nat, v: Value)
    requires |cols| == |values|
  {
    && (c !in cols ==> v.Null?)
    && (forall k: nat :: ListedFor(cols, k, c) ==> EvalExpr(h, values[k], map[], []) == Ok(v))
  }

  ghost predicate FirstEntryFails(h: Host, values: seq<Expr>, k: nat, e: Error) {
    k < |values| && EvalExpr(h, values[k], map[], []) == Err(e) && forall l :: 0 <= l < k ==> EvalExpr(h, values[l], map[], []).Ok?
  }

  ghost predicate ValuesDone(h: Host, n: nat, cols: seq<nat>, values: seq<Expr>, r: Result<Row>)
    requires |cols| == |values|
  {
    && (r.Ok? ==> forall k :: 0 <= k < |values| ==> EvalExpr(h, values[k], map[], []).Ok?)
    && (r.Ok? ==> |r.value| == n && forall c :: 0 <= c < n ==> ColumnGiven(h, cols, values, c, r.value[c]))
    && (r.Err? ==> exists k :: FirstEntryFails(h, values, k, r.error))
  }

  lemma GivenSnoc(h: Host, cols: seq<nat>, values: seq<Expr>, c: nat, v: Value)
    requires |cols| == |values| > 0
    requires if cols[|cols| - 1] == c then EvalExpr(h, values[|cols| - 1], map[], []) == Ok(v)
             else ColumnGiven(h, cols[..|cols| - 1], values[..|cols| - 1], c, v)
    ensures ColumnGiven(h, cols, values, c, v)
  {
    hide EvalExpr;
    var n := |cols| - 1;
    assert cols == cols[..n] + [cols[n]];
    forall k: nat | ListedFor(cols, k, c) ensures EvalExpr(h, values[k], map[], []) == Ok(v) {
      if cols[n] == c {
        assert k == n;
      } else {
        assert ListedFor(cols[..n], k, c);
      }
    }
  }

  lemma {:induction false} RowForMeans(h: Host, n: nat, cols: seq<nat>, values: seq<Expr>)
    requires |cols| == |values| && ColsFit(cols, n)
    ensures ValuesDone(h, n, cols, values, RowFor(h, n, cols, values))
  {
    if values == [] {
      assert forall c: nat :: c < n ==> ColumnGiven(h, cols, values, c, Null);
    } else {
      hide EvalExpr, ColumnGiven;
      var last := |values| - 1;
      RowForMeans(h, n, cols[..last], values[..last]);
      var before, r := RowFor(h, n, cols[..last], values[..last]), RowFor(h, n, cols, values);
      if before.Err? {
        var k :| FirstEntryFails(h, values[..last], k, before.error);
        assert FirstEntryFails(h, values, k, r.error);
      } else if r.Err? {
        assert FirstEntryFails(h, values, last, r.error);
      } else {
        forall c | 0 <= c < n ensures ColumnGiven(h, cols, values, c, r.value[c]) {
          GivenSnoc(h, cols, values, c, r.value[c]);
        }
      }
    }
  }

  predicate ListFits(t: Table, cols: seq<nat>, list: seq<seq<Expr>>) {
    (ColsFit(cols, |t.columns|)) && forall values :: values in list ==> |values| == |cols|
  }

  /** What one VALUES row stores. */
  function Stored(h: Host, t: Table, cols: seq<nat>, values: seq<Expr>): Result<Row>
    requires |cols| == |values| && ColsFit(cols, |t.columns|)
  {
    var row :- RowFor(h, |t.columns|, cols, values);
    Validate(h, t, row)
  }

  ghost predicate EntryStored(h: Host, t: Table, cols: seq<nat>, values: seq<Expr>, c: nat, w: Value)
    requires |cols| == |values| && c < |t.columns|
  {
    exists v :: ColumnGiven(h, cols, values, c, v) && ColumnTakes(h, t, c, v, w)
  }

  /** A stored row, column by column: each listed column as it takes its own entry, each other one as it takes NULL. */
  ghost predicate AsListed(h: Host, t: Table, cols: seq<nat>, values: seq<Expr>, image: Row) {
    && |cols| == |values| && |image| == |t.columns|
    && forall c :: 0 <= c < |image| ==> EntryStored(h, t, cols, values, c, image[c])
  }

  /** Why a VALUES row is not stored: an entry fails, or the row is not valid. */
  ghost predicate NotStored(h: Host, t: Table, cols: seq<nat>, values: seq<Expr>, e: Error)
    requires |cols| == |values|
  {
    || (exists k :: FirstEntryFails(h, values, k, e))
    || (exists row :: ValuesDone(h, |t.columns|, cols, values, Ok(row)) && RowRefused(h, t, row, e))
  }

  lemma StoredMeans(h: Host, t: Table, cols: seq<nat>, values: seq<Expr>)
    requires |cols| == |values| && ColsFit(cols, |t.columns|)
    ensures match Stored(h, t, cols, values)
            case Ok(image) => AsListed(h, t, cols, values, image)
            case Err(e) => NotStored(h, t, cols, values, e)
  {
    hide EvalExpr, RowFor, Validate, ColumnGiven, ColumnTakes, RowRefused;
    RowForMeans(h, |t.columns|, cols, values);
    var row := RowFor(h, |t.columns|, cols, values);
    if row.Ok? {
      ValidateMeans(h, t, row.value);
      var image := Validate(h, t, row.value);
      if image.Ok? {
        forall c | 0 <= c < |image.value| ensures EntryStored(h, t, cols, values, c, image.value[c]) {
          assert ColumnGiven(h, cols, values, c, row.value[c]) && ColumnTakes(h, t, c, row.value[c], image.value[c]);
        }
      }
    }
  }

  method EvalValues(h: Host, n: nat, cols: seq<nat>, values: seq<Expr>) returns (r: Result<Row>)
    requires |cols| == |values| && ColsFit(cols, n)
    ensures r == RowFor(h, n, cols, values) && ValuesDone(h, n, cols, values, r)
  {
    RowForMeans(h, n, cols, values);
    hide ValuesDone;
    var row := Nulls(n);
    assert cols[..|values|] == cols && values[..|values|] == values;
    for i := 0 to |values|
      invariant |row| == n && RowFor(h, n, cols[..i], values[..i]) == Ok(row)
    {
      assert cols[..i + 1][..i] == cols[..i] && values[..i + 1][..i] == values[..i];
      var v := EvalExpr(h, values[i], map[], []);
      if v.Err? {
        RowForFails(h, n, cols, values, i + 1);
        return Err(v.error);
      }
      row := row[cols[i] := v.value];
    }
    r := Ok(row);
  }

  lemma {:induction false} RowForFails(h: Host, n: nat, cols: seq<nat>, values: seq<Expr>, i: nat)
    requires i <= |cols| == |values| && (ColsFit(cols, n)) && RowFor(h, n, cols[..i], values[..i]).Err?
    ensures RowFor(h, n, cols, values) == RowFor(h, n, cols[..i], values[..i])
    decreases |values|
  {
    if i == |values| {
      assert cols[..i] == cols && values[..i] == values;
    } else {
      var last := |values| - 1;
      assert cols[..last][..i] == cols[..i] && values[..last][..i] == values[..i];
      RowForFails(h, n, cols[..last], values[..last], i);
    }
  }

  ghost predicate NewFit(t: Table, images: seq<Row>) { forall i :: 0 <= i < |images| ==> t.pk < |images[i]| }

  /** The rows with new ones filed under their primary keys. */
  ghost function WithRows(t: Table, rows: Rows, images: seq<Row>): Rows
    requires NewFit(t, images)
  {
    if images == [] then rows
    else WithRows(t, rows, images[..|images| - 1])[images[|images| - 1][t.pk] := images[|images| - 1]]
  }

  ghost predicate HasNewKey(t: Table, images: seq<Row>, p: Value)
    requires NewFit(t, images)
  {
    exists i :: 0 <= i < |images| && images[i][t.pk] == p
  }

  /** The new rows' keys are free and distinct. */
  ghost predicate AllNew(t: Table, rows: Rows, images: seq<Row>) {
    && NewFit(t, images)
    && (forall i :: 0 <= i < |images| ==> images[i][t.pk] !in rows)
    && (forall i, j :: 0 <= i < j < |images| ==> images[i][t.pk] != images[j][t.pk])
  }

  ghost predicate ImagesFor(h: Host, t: Table, cols: seq<nat>, list: seq<seq<Expr>>, images: seq<Row>)
    requires ListFits(t, cols, list)
  {
    |images| <= |list| && forall i :: 0 <= i < |images| ==> Stored(h, t, cols, list[i]) == Ok(images[i])
  }

  /** Each new row is its VALUES row, column by column. */
  ghost predicate AllAsListed(h: Host, t: Table, cols: seq<nat>, list: seq<seq<Expr>>, images: seq<Row>) {
    |images| <= |list| && forall i :: 0 <= i < |images| ==> AsListed(h, t, cols, list[i], images[i])
  }

  lemma ImagesAsListed(h: Host, t: Table, cols: seq<nat>, list: seq<seq<Expr>>, images: seq<Row>)
    requires ListFits(t, cols, list) && ImagesFor(h, t, cols, list, images)
    ensures AllAsListed(h, t, cols, list, images)
  {
    hide Stored, AsListed;
    forall i | 0 <= i < |images| ensures AsListed(h, t, cols, list[i], images[i]) {
      StoredMeans(h, t, cols, list[i]);
    }
  }

  lemma HasNewKeySnoc(t: Table, images: seq<Row>, p: Value)
    requires NewFit(t, images) && images != []
    ensures HasNewKey(t, images, p) <==> HasNewKey(t, images[..|images| - 1], p) || images[|images| - 1][t.pk] == p
  {
    var n := |images| - 1;
    if i :| 0 <= i < n && images[..n][i][t.pk] == p {
      assert images[i][t.pk] == p;
    }
    if i :| 0 <= i < n && images[i][t.pk] == p {
      assert images[..n][i][t.pk] == p;
    }
  }

  lemma {:induction false} WithRowsKeys(t: Table, rows: Rows, images: seq<Row>, p: Value)
    requires NewFit(t, images)
    ensures p in WithRows(t, rows, images) <==> p in rows || HasNewKey(t, images, p)
  {
    if images != [] {
      WithRowsKeys(t, rows, images[..|images| - 1], p);
      HasNewKeySnoc(t, images, p);
      hide HasNewKey;
    }
  }

  /** New rows only add to the table. */
  lemma {:induction false} WithRowsCount(t: Table, rows: Rows, images: seq<Row>)
    requires AllNew(t, rows, images)
    ensures |WithRows(t, rows, images)| == |rows| + |images|
    ensures forall p :: p in rows ==> p in WithRows(t, rows, images) && WithRows(t, rows, images)[p] == rows[p]
  {
    if images != [] {
      var n := |images| - 1;
      WithRowsCount(t, rows, images[..n]);
      WithRowsKeys(t, rows, images[..n], images[n][t.pk]);
    }
  }

  lemma InsertedOneMore(h: Host, t: Table, cols: seq<nat>, list: seq<seq<Expr>>, rows: Rows, images: seq<Row>, image: Row)
    requires ListFits(t, cols, list) && ImagesFor(h, t, cols, list, images) && AllNew(t, rows, images)
    requires |images| < |list| && Stored(h, t, cols, list[|images|]) == Ok(image)
    requires t.pk < |image| && image[t.pk] !in WithRows(t, rows, images)
    ensures ImagesFor(h, t, cols, list, images + [image]) && AllNew(t, rows, images + [image])
    ensures WithRows(t, rows, images + [image]) == WithRows(t, rows, images)[image[t.pk] := image]
  {
    hide Stored;
    WithRowsKeys(t, rows, images, image[t.pk]);
    assert (images + [image])[..|images|] == images;
    assert forall i :: 0 <= i < |images| ==> images[i][t.pk] != image[t.pk];
  }

  /** Why an INSERT stops at a VALUES row: it cannot be stored, or its key is taken. */
  ghost predicate InsertStops(h: Host, t: Table, cols: seq<nat>, values: seq<Expr>, cur: Rows, e: Error)
    requires |cols| == |values| && ColsFit(cols, |t.columns|)
  {
    || Stored(h, t, cols, values) == Err(e)
    || (e == DuplicateKey && exists image :: Stored(h, t, cols, values) == Ok(image) && t.pk < |image| && image[t.pk] in cur)
  }

  lemma InsertRefused(h: Host, m: Store, t: Table, cols: seq<nat>, values: seq<Expr>, cur: Rows, row: Row)
    requires Represents(m, t, cur) && Addressable(t) && |cols| == |values| && ColsFit(cols, |t.columns|)
    requires RowFor(h, |t.columns|, cols, values) == Ok(row) && InsertOutcome(h, m, t, row).Err?
    ensures InsertStops(h, t, cols, values, cur, InsertOutcome(h, m, t, row).error)
  {
    hide Represents, RowsHeld, InsertWrites, Validate, RowFor;
    if Validate(h, t, row).Ok? {
      ValidateTyped(h, t, row);
      RepresentsRowsHeld(m, t, cur);
      KeyTaken(m, t, cur, Validate(h, t, row).value[t.pk]);
    }
  }

  /** Runs one VALUES row through the mutator. */
  method InsertOne(m: Mutator, cols: seq<nat>, values: seq<Expr>, ghost cur: Rows)
    returns (failed: Option<Error>, ghost image: Row)
    requires m.rw.Valid() && Represents(m.rw.View(), m.table, cur) && Addressable(m.table)
    requires |cols| == |values| && ColsFit(cols, |m.table.columns|)
    modifies m.rw.buf
    ensures m.rw.Valid()
    ensures failed.Some? ==>
              m.rw.View() == old(m.rw.View()) && InsertStops(m.host, m.table, cols, values, cur, failed.value)
    ensures failed.None? ==>
              && Stored(m.host, m.table, cols, values) == Ok(image) && |image| == |m.table.columns|
              && image[m.table.pk] !in cur && Represents(m.rw.View(), m.table, cur[image[m.table.pk] := image])
    ensures Confined(old(m.rw.View()), m.rw.View(), m.table)
  {
    image := [];
    ConfinedSame(m.rw.View(), m.table);
    var row := EvalValues(m.host, |m.table.columns|, cols, values);
    if row.Err? {
      return Some(row.error), image;
    }
    ghost var em := m.rw.buf.m;
    if InsertOutcome(m.host, m.rw.View(), m.table, row.value).Err? {
      InsertRefused(m.host, m.rw.View(), m.table, cols, values, cur, row.value);
    }
    hide InsertStops, Confined;
    failed := m.Insert(row.value);
    if failed.None? {
      InsertTakesEffect(m.host, m.rw.base, em, m.table, cur, row.value);
      image := Validate(m.host, m.table, row.value).value;
    }
  }

  /** INSERT adds one row per VALUES row, under keys that were free; after an error rows and indexes are still in step. */
  method RunInsert(h: Host, rw: Overlay, t: Table, cols: seq<nat>, list: seq<seq<Expr>>, ghost rows: Rows)
    returns (r: Result<nat>, ghost images: seq<Row>)
    requires rw.Valid() && Represents(rw.View(), t, rows) && ListFits(t, cols, list)
    modifies rw.buf
    ensures rw.Valid() && AllNew(t, rows, images) && ImagesFor(h, t, cols, list, images) && AllAsListed(h, t, cols, list, images)
    ensures Represents(rw.View(), t, WithRows(t, rows, images)) && Confined(old(rw.View()), rw.View(), t)
    ensures r.Ok? ==> r.value == |images| == |list|
    ensures r.Err? ==> |images| < |list| && InsertStops(h, t, cols, list[|images|], WithRows(t, rows, images), r.error)
  {
    RepresentsAddressable(rw.View(), t, rows);
    ConfinedSame(rw.View(), t);
    hide Represents, Stored, Addressable, ImagesFor, AllNew, WithRows, InsertStops, Confined, AllAsListed;
    var m := new Mutator(h, rw, t);
    var count := 0;
    images := [];
    NothingInserted(h, t, cols, list, rows);
    for i := 0 to |list|
      invariant rw.Valid() && |images| == i == count && AllNew(t, rows, images) && ImagesFor(h, t, cols, list, images)
      invariant NewFit(t, images) && Represents(rw.View(), t, WithRows(t, rows, images))
      invariant Confined(old(rw.View()), rw.View(), t)
    {
      assert list[i] in list;
      var failed;
      ghost var image;
      ghost var before := rw.View();
      failed, image := InsertOne(m, cols, list[i], WithRows(t, rows, images));
      ConfinedTransitive(old(rw.View()), before, rw.View(), t);
      if failed.Some? {
        ImagesAsListed(h, t, cols, list, images);
        return Err(failed.value), images;
      }
      InsertedOneMore(h, t, cols, list, rows, images, image);
      images := images + [image];
      NewFits(t, rows, images);
      count := count + 1;
    }
    ImagesAsListed(h, t, cols, list, images);
    r := Ok(count);
  }

  lemma NewFits(t: Table, rows: Rows, images: seq<Row>)
    requires AllNew(t, rows, images)
    ensures NewFit(t, images)
  {
  }

  lemma NothingInserted(h: Host, t: Table, cols: seq<nat>, list: seq<seq<Expr>>, rows: Rows)
    requires ListFits(t, cols, list)
    ensures AllNew(t, rows, []) && ImagesFor(h, t, cols, list, []) && WithRows(t, rows, []) == rows && NewFit(t, [])
  {
  }

  // ------------------------------------------------------------------
  // The session
  // ------------------------------------------------------------------

  class Session {
    const db: Memory
    var tx: Tx?

    constructor (db: Memory)
      ensures this.db == db && tx == null && Valid()
    {
      this.db, tx := db, null;
    }

    /** An open transaction is unfinished and belongs to this database. */
    ghost predicate Valid()
      reads this, tx, if tx == null then {} else {tx.rw.buf, tx.rw.buf.sorted}
    {
      tx != null ==> tx.db == db && !tx.done && tx.rw.Valid()
    }

    /** What the session reads: its transaction's view, or the database. */
    ghost function View(): Store
      reads this, db, tx, if tx == null then {} else {tx.rw.buf}
    {
      if tx == null then db.m else tx.rw.View()
    }

    method Begin() returns (err: Option<Error>)
      requires Valid()
      modifies this
      ensures Valid() && View() == old(View()) && db.m == old(db.m)
      ensures old(tx) != null ==> err == Some(TransactionOpen) && tx == old(tx)
      ensures old(tx) == null ==> err == None && tx != null && fresh(tx) && tx.rw.base == db.m && tx.rw.buf.m == map[]
    {
      if tx != null {
        return Some(TransactionOpen);
      }
      tx := new Tx(db);
      err := None;
    }

    method Commit() returns (err: Option<Error>)
      requires Valid()
      modifies this, db, tx, if tx == null then {} else {tx.rw.buf}
      ensures Valid() && tx == null
      ensures old(tx) == null ==> err == Some(NoTransaction) && db.m == old(db.m)
      ensures old(tx) != null ==> err == None && db.m == Apply(old(db.m), old(tx.rw.buf.m))
    {
      if tx == null {
        return Some(NoTransaction);
      }
      var t := tx;
      tx := null;
      ghost var passed;
      err, passed := t.Commit();
    }

    method Rollback() returns (err: Option<Error>)
      requires Valid()
      modifies this, tx, if tx == null then {} else {tx.rw.buf}
      ensures Valid() && tx == null && db.m == old(db.m)
      ensures err == if old(tx) == null then Some(NoTransaction) else None
    {
      if tx == null {
        return Some(NoTransaction);
      }
      var t := tx;
      tx := null;
      t.Rollback();
      err := None;
    }

    /** The transaction a statement runs in: the open one, or one of its own. */
    method StatementTx() returns (t: Tx, owned: bool)
      requires Valid()
      ensures owned == (tx == null)
      ensures t.db == db && !t.done && t.rw.Valid() && t.rw.View() == View()
      ensures owned ==> fresh(t) && fresh(t.rw) && fresh(t.rw.buf) && t.rw.base == db.m
      ensures !owned ==> t == tx
    {
      if tx != null {
        return tx, false;
      }
      t := new Tx(db);
      owned := true;
    }

    /** A statement's own transaction is committed if it succeeded and dropped if it did not. */
    method FinishStatement(t: Tx, owned: bool, failed: bool)
      requires owned == (tx == null) && (!owned ==> t == tx)
      requires t.db == db && !t.done && t.rw.Valid() && (owned ==> t.rw.base == db.m)
      modifies if owned then {t, db, t.rw.buf} else {}
      ensures owned ==> db.m == if failed then old(db.m) else old(t.rw.View())
      ensures !owned ==> t.rw.Valid()
    {
      if owned {
        if failed {
          t.Rollback();
        } else {
          var err, passed := t.Commit();
        }
      }
    }

    /**
     * UPDATE. On its own it either takes full effect in the database or, on any error, leaves the
     * database as it was; inside a transaction only the view changes. Full effect is every matching
     * row replaced by its image, exactly where types.Equal tells the old keys from the new.
     */
    method Update(h: Host, t: Table, x: Path, bounds: Range, pred: Option<Expr>, sets: seq<Assignment>, ghost rows: Rows)
      returns (r: Result<nat>, ghost images: Rows, ghost after: Rows)
      requires Valid() && Represents(View(), t, rows) && PathOk(t, x) && SetsFit(t, sets)
      modifies db, if tx == null then {} else {tx.rw.buf}
      ensures Valid() && (tx != null || r.Err? ==> db.m == old(db.m))
      ensures Confined(old(View()), View(), t)
      ensures r.Ok? || tx != null ==>
                UpdateLeft(h, t, sets, MatchingKeys(h, t, rows, x, bounds, pred), rows, View(), r.Ok?, images, after)
      ensures AllTold(h, t, rows, sets, MatchingKeys(h, t, rows, x, bounds, pred)) ==>
                && Wide(t, images) && Swapped(t, rows, images, after) && |after| == |rows|
                && (r.Ok? || tx != null ==> RowsWritten(old(View()), View(), t))
      ensures AllTold(h, t, rows, sets, MatchingKeys(h, t, rows, x, bounds, pred)) || NoTwins(rows) ==>
                UpdateMade(h, t, pred, sets, MatchingKeys(h, t, rows, x, bounds, pred), rows, r, images, after)
    {
      hide Represents, AllTold, MatchingKeys, UpdateMade, NoTwins, Swapped, Apply, Confined, Wide, RowsHeld;
      ghost var was := View();
      ConfinedSame(was, t);
      var txn, owned := StatementTx();
      r, images, after := RunUpdate(h, txn.rw, t, x, bounds, pred, sets, rows);
      FinishStatement(txn, owned, r.Err?);
    }

    method Delete(h: Host, t: Table, x: Path, bounds: Range, pred: Option<Expr>, ghost rows: Rows)
      returns (r: Result<nat>, ghost after: Rows)
      requires Valid() && Represents(View(), t, rows) && PathOk(t, x)
      modifies db, if tx == null then {} else {tx.rw.buf}
      ensures Valid() && (tx != null || r.Err? ==> db.m == old(db.m))
      ensures r.Ok? || tx != null ==> Represents(View(), t, after) && RowsWritten(old(View()), View(), t)
      ensures exists gone :: gone <= MatchingKeys(h, t, rows, x, bounds, pred) && after == rows - gone
      ensures r.Err? ==> pred.Some? && exists p :: p in rows && EvalPredicate(h, pred.value, TableEnv(t), rows[p]) == Err(r.error)
      ensures r.Ok? ==> after == rows - MatchingKeys(h, t, rows, x, bounds, pred)
      ensures r.Ok? ==> r.value == |MatchingKeys(h, t, rows, x, bounds, pred)|
    {
      hide Represents, MatchingKeys, Apply, Confined;
      var txn, owned := StatementTx();
      r, after := RunDelete(h, txn.rw, t, x, bounds, pred, rows);
      FinishStatement(txn, owned, r.Err?);
    }

    /** INSERT: all rows or, on its own, none. */
    method Insert(h: Host, t: Table, cols: seq<nat>, list: seq<seq<Expr>>, ghost rows: Rows)
      returns (r: Result<nat>, ghost images: seq<Row>)
      requires Valid() && Represents(View(), t, rows) && ListFits(t, cols, list)
      modifies db, if tx == null then {} else {tx.rw.buf}
      ensures Valid() && (tx != null || r.Err? ==> db.m == old(db.m))
      ensures AllNew(t, rows, images) && ImagesFor(h, t, cols, list, images) && AllAsListed(h, t, cols, list, images)
      ensures r.Ok? || tx != null ==> Represents(View(), t, WithRows(t, rows, images)) && RowsWritten(old(View()), View(), t)
      ensures r.Ok? ==> r.value == |images| == |list|
      ensures r.Err? ==> |images| < |list| && InsertStops(h, t, cols, list[|images|], WithRows(t, rows, images), r.error)
    {
      hide Represents, AllNew, ImagesFor, AllAsListed, WithRows, Apply, InsertStops, Confined;
      var txn, owned := StatementTx();
      r, images := RunInsert(h, txn.rw, t, cols, list, rows);
      FinishStatement(txn, owned, r.Err?);
    }
  }
}
