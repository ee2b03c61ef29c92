// A connection (conn.go): statements of every kind, dispatched to the catalog or to the transaction
// they run in. Whatever is called, in whatever order, what the connection sees is the end of a serial
// run of statements, and so is what the database holds.
module Connections {
  import opened Values
  import opened Keys
  import opened Ast
  import opened Eval
  import opened Storage
  import opened Schema
  import opened Access
  import opened Statements
  import opened Transactions
  import opened Planner
  import opened Select
  import opened Equivalence
  import opened Sessions
  import opened RowPlans
  import opened Catalog
  import opened Ddl
  import opened SchemaRuns

  // ------------------------------------------------------------------
  // The run behind a connection
  // ------------------------------------------------------------------

  /** The view is where the run has got to; the database is where it was when the open transaction began. */
  ghost predicate Tracks(json: Json, run: seq<Database>, sts: seq<SchemaRuns.Statement>, began: nat, view: Database, db: Database) {
    && IsSerialRun(json, run, sts) && run[|sts|] == view
    && began <= |sts| && run[began] == db
    && db.tables == view.tables && db.nextID == view.nextID
  }

  /** A statement in an open transaction moves the view only. */
  lemma ViewMoves(json: Json, run: seq<Database>, sts: seq<SchemaRuns.Statement>, began: nat, view: Database, db: Database,
                  st: SchemaRuns.Statement, after: Database)
    requires Tracks(json, run, sts, began, view, db) && Runs(json, view, st, after)
    requires after.tables == view.tables && after.nextID == view.nextID
    ensures Tracks(json, run + [after], sts + [st], began, after, db)
  {
    hide Runs, IsSerialRun;
    RunGoesOn(json, run, sts, st, after);
    RunLength(json, run, sts);
  }

  /** A statement outside one moves both. */
  lemma BothMove(json: Json, run: seq<Database>, sts: seq<SchemaRuns.Statement>, began: nat, view: Database, db: Database,
                 st: SchemaRuns.Statement, after: Database)
    requires Tracks(json, run, sts, began, view, db) && Runs(json, view, st, after)
    ensures Tracks(json, run + [after], sts + [st], |sts| + 1, after, after)
  {
    hide Runs, IsSerialRun;
    RunGoesOn(json, run, sts, st, after);
    RunLength(json, run, sts);
  }

  lemma RunLength(json: Json, run: seq<Database>, sts: seq<SchemaRuns.Statement>)
    requires IsSerialRun(json, run, sts)
    ensures |run| == |sts| + 1
  {
  }

  lemma Committed(json: Json, run: seq<Database>, sts: seq<SchemaRuns.Statement>, began: nat, view: Database, db: Database)
    requires Tracks(json, run, sts, began, view, db)
    ensures Tracks(json, run, sts, |sts|, view, view)
  {
    hide IsSerialRun;
  }

  lemma RolledBack(json: Json, run: seq<Database>, sts: seq<SchemaRuns.Statement>, began: nat, view: Database, db: Database)
    requires Tracks(json, run, sts, began, view, db)
    ensures Tracks(json, run[..began + 1], sts[..began], began, db, db)
  {
    RunLength(json, run, sts);
    hide Runs;
    RunStart(json, run, sts, began);
  }

  /** View and database have a catalog that reads back, every index in step and no orphaned key. */
  lemma TracksSound(json: Json, run: seq<Database>, sts: seq<SchemaRuns.Statement>, began: nat, view: Database, db: Database)
    requires Tracks(json, run, sts, began, view, db)
    ensures IsSound(json, view) && IsSound(json, db)
  {
    RunKeepsSound(json, run, sts, |sts|);
    RunKeepsSound(json, run, sts, began);
  }

  lemma InvIs(json: Json, s: Database)
    ensures IsSound(json, s) <==> Catalog.Inv(json, s.m, s.tables, s.nextID)
  {
  }

  lemma RowsOf(json: Json, s: Database, table: Name) returns (rows: Rows)
    requires IsSound(json, s) && table in s.tables
    ensures Represents(s.m, s.tables[table], rows)
  {
    rows := RowsOfTable(json, s.m, s.tables, s.nextID, table);
  }

  lemma RowsRun(json: Json, s: Database, table: Name, n: Store)
    requires table in s.tables && RowsWritten(s.m, n, s.tables[table])
    ensures Runs(json, s, RowsS(table), s.(m := n))
  {
  }

  lemma DoneFits(h: Host, m: Store, t: Table, where: Option<Expr>, sets: seq<Assignment>, r: Result<nat>, u: Updated)
    requires UpdateDone(h, m, t, where, sets, r, u)
    ensures TypedRows(t, u.rows) && PathOk(t, u.path.index) && SetsFit(t, sets)
  {
    hide Represents, TypedRows, UpdateMade, PathOk;
  }

  lemma CreateTableRuns(json: Json, s: Database, def: Table, after: Database)
    requires def.name !in s.tables && WellFormed(def) && def.indexes == []
    requires after.m == CreateStore(json, s.m, def, s.nextID) && after.nextID == Bump(s.nextID)
    requires after.tables == s.tables[def.name := Created(def, s.nextID)]
    ensures s.nextID < 0xFFFF_FFFF ==> Runs(json, s, CreateTableS(def), after)
  {
    hide WellFormed, CreateStore, Created;
  }

  lemma DropTableRuns(json: Json, s: Database, name: Name, after: Database)
    requires name in s.tables && after == Database(DropStore(s.m, s.tables[name]), s.tables - {name}, s.nextID)
    ensures Runs(json, s, DropTableS(name), after)
  {
  }

  lemma CreateIndexRuns(json: Json, s: Database, table: Name, name: Name, column: Name, x: Index, after: Database)
    requires IndexAdded(s.tables, after.tables, table, name, column, x) && after.nextID == s.nextID
    requires table in s.tables && IndexedStore(json, s.m, s.tables[table], x, table, after.m)
    ensures x.id == s.tables[table].nextIndexId
    ensures x.id < 0xFFFF_FFFF ==> Runs(json, s, CreateIndexS(table, x), after)
  {
    hide IndexedStore;
  }

  lemma DropIndexRuns(json: Json, s: Database, name: Name, n: Name, x: Index, after: Database)
    requires IndexDropped(s.tables, after.tables, name, n, x) && after.nextID == s.nextID
    requires after.m == DropIndexStore(json, s.m, s.tables[n], x)
    ensures Runs(json, s, DropIndexS(n, x), after)
  {
    hide DropIndexStore;
  }

  // ------------------------------------------------------------------
  // The connection
  // ------------------------------------------------------------------

  class Connection {
    const cat: SchemaCatalog
    const session: Session
    ghost var run: seq<Database>
    ghost var sts: seq<SchemaRuns.Statement>
    ghost var began: nat

    /** A connection to a database that a serial run has led to, such as a new one. */
    constructor (cat: SchemaCatalog, db: Memory, ghost run: seq<Database>, ghost sts: seq<SchemaRuns.Statement>)
      requires IsSerialRun(cat.json, run, sts) && run[|sts|] == Database(db.m, cat.tables, cat.nextID)
      ensures Valid() && this.cat == cat && session.db == db && session.tx == null && this.run == run && this.sts == sts
    {
      hide IsSerialRun;
      this.cat := cat;
      session := new Session(db);
      this.run, this.sts, began := run, sts, |sts|;
    }

    /** What the connection sees. */
    ghost function Seen(): Database
      reads cat, session, session.db, session.tx, if session.tx == null then {} else {session.tx.rw.buf}
    {
      Database(session.View(), cat.tables, cat.nextID)
    }

    /** What is there for others to see. */
    ghost function Stored(): Database
      reads cat, session.db
    {
      Database(session.db.m, cat.tables, cat.nextID)
    }

    ghost predicate Valid()
      reads this, cat, session, session.db, session.tx
      reads if session.tx == null then {} else {session.tx.rw.buf, session.tx.rw.buf.sorted}
    {
      && session.Valid()
      && (session.tx != null ==> session.tx.rw.base == session.db.m)
      && Tracks(cat.json, run, sts, began, Seen(), Stored())
    }

    lemma Parts()
      ensures Valid() <==> && session.Valid() && (session.tx != null ==> session.tx.rw.base == session.db.m)
                           && Tracks(cat.json, run, sts, began, Seen(), Stored())
      ensures Seen() == Database(session.View(), cat.tables, cat.nextID)
      ensures Stored() == Database(session.db.m, cat.tables, cat.nextID)
      ensures session.tx == null ==> Seen() == Stored()
    {
    }

    /** Whatever has been called, every index is in step and every key accounted for, seen or stored. */
    lemma Sound()
      requires Valid()
      ensures IsSound(cat.json, Seen()) && IsSound(cat.json, Stored())
    {
      TracksSound(cat.json, run, sts, began, Seen(), Stored());
    }

    method Begin() returns (err: Option<Error>)
      requires Valid()
      modifies session
      ensures Valid() && Seen() == old(Seen()) && Stored() == old(Stored())
      ensures err == if old(session.tx) != null then Some(TransactionOpen) else None
      ensures session.tx != null
    {
      hide Tracks;
      err := session.Begin();
    }

    method Commit() returns (err: Option<Error>)
      requires Valid()
      modifies this`began, session, session.db, session.tx, if session.tx == null then {} else {session.tx.rw.buf}
      ensures Valid() && Seen() == old(Seen()) && session.tx == null
      ensures err == if old(session.tx) == null then Some(NoTransaction) else None
    {
      hide Tracks;
      Committed(cat.json, run, sts, began, Seen(), Stored());
      err := session.Commit();
      began := |sts|;
    }

    /** The statements since BEGIN are taken back. */
    method Rollback() returns (err: Option<Error>)
      requires Valid()
      modifies this`run, this`sts, session, session.tx, if session.tx == null then {} else {session.tx.rw.buf}
      ensures Valid() && Seen() == Stored() == old(Stored()) && session.tx == null
      ensures err == if old(session.tx) == null then Some(NoTransaction) else None
    {
      RolledBack(cat.json, run, sts, began, Seen(), Stored());
      hide Tracks;
      err := session.Rollback();
      run, sts := run[..began + 1], sts[..began];
    }

    /** Takes down what a statement has done. */
    ghost method Record(st: SchemaRuns.Statement, view: Database, db: Database)
      requires session.Valid() && (session.tx != null ==> session.tx.rw.base == session.db.m)
      requires Tracks(cat.json, run, sts, began, view, db) && Runs(cat.json, view, st, Seen())
      requires session.tx != null ==> Stored() == db && cat.tables == view.tables && cat.nextID == view.nextID
      modifies this`run, this`sts, this`began
      ensures Valid() && run == old(run) + [Seen()] && sts == old(sts) + [st]
    {
      hide Tracks, Runs;
      if session.tx == null {
        BothMove(cat.json, run, sts, began, view, db, st, Seen());
        began := |sts| + 1;
      } else {
        ViewMoves(cat.json, run, sts, began, view, db, st, Seen());
      }
      run, sts := run + [Seen()], sts + [st];
    }

    // Schema statements: refused inside a transaction, and otherwise straight to the store.

    method CreateTable(name: Name, cols: seq<Schema.Column>, ifNotExists: bool)
      returns (err: Option<Error>, ghost made: Option<Table>)
      requires Valid()
      modifies this, cat, session.db
      ensures session.tx != null ==> err == Some(SchemaInTransaction)
      ensures made.None? <==> session.tx != null || !Definable(cols) || name in old(cat.tables)
      ensures made.None? ==> Valid() && Seen() == old(Seen()) && (err == None ==> ifNotExists && name in cat.tables)
      ensures made.Some? ==>
                && err == None && made.value.name == name && cat.nextID == Bump(old(cat.nextID))
                && cat.tables == old(cat.tables)[name := Created(made.value, old(cat.nextID))]
      ensures made.Some? && old(cat.nextID) < 0xFFFF_FFFF ==>
                Valid() && run == old(run) + [Seen()] && sts == old(sts) + [CreateTableS(made.value)]
    {
      hide *;
      Parts();
      if session.tx != null {
        return Some(SchemaInTransaction), None;
      }
      var def := Define(name, cols);
      if def.Err? {
        return Some(def.error), None;
      }
      ghost var view, db := Seen(), Stored();
      TracksSound(cat.json, run, sts, began, view, db);
      InvIs(cat.json, view);
      Ddl.SoundIs(cat, session.db);
      err := Ddl.CreateTable(cat, session.db, def.value, ifNotExists);
      Parts();
      made := if name in view.tables then None else Some(def.value);
      if made.Some? {
        CreateTableRuns(cat.json, view, def.value, Seen());
      }
      if made.Some? && view.nextID < 0xFFFF_FFFF {
        Record(CreateTableS(def.value), view, db);
      }
    }

    method DropTable(name: Name, ifExists: bool) returns (err: Option<Error>)
      requires Valid()
      modifies this, cat, session.db
      ensures Valid()
      ensures session.tx != null ==> err == Some(SchemaInTransaction)
      ensures session.tx != null || name !in old(cat.tables) ==> Seen() == old(Seen())
      ensures session.tx == null && name !in old(cat.tables) ==> err == if ifExists then None else Some(NotFound)
      ensures session.tx == null && name in old(cat.tables) ==>
                && err == None && cat.tables == old(cat.tables) - {name}
                && run == old(run) + [Seen()] && sts == old(sts) + [DropTableS(name)]
    {
      hide *;
      Parts();
      if session.tx != null {
        return Some(SchemaInTransaction);
      }
      ghost var view, db := Seen(), Stored();
      TracksSound(cat.json, run, sts, began, view, db);
      InvIs(cat.json, view);
      Ddl.SoundIs(cat, session.db);
      err := Ddl.DropTable(cat, session.db, name, ifExists);
      Parts();
      if name in view.tables {
        DropTableRuns(cat.json, view, name, Seen());
        Record(DropTableS(name), view, db);
      }
    }

    method CreateIndex(table: Name, name: Name, column: Name, ifNotExists: bool)
      returns (err: Option<Error>, ghost added: Option<Index>)
      requires Valid()
      modifies this, cat, session.db
      ensures session.tx != null ==> err == Some(SchemaInTransaction) && added == None
      ensures added.None? ==> Valid() && Seen() == old(Seen()) && (err == None ==> ifNotExists)
      ensures session.tx == null ==>
                (added.None? <==> table !in old(cat.tables) || old(cat.tables)[table].ColumnIndex(column).None? ||
                                  IndexNamed(old(cat.tables), name))
      ensures added.Some? ==> err == None && table in old(cat.tables)
      ensures added.Some? ==> IndexAdded(old(cat.tables), cat.tables, table, name, column, added.value)
      ensures added.Some? && old(cat.tables)[table].nextIndexId < 0xFFFF_FFFF ==>
                Valid() && run == old(run) + [Seen()] && sts == old(sts) + [CreateIndexS(table, added.value)]
    {
      hide *;
      Parts();
      if session.tx != null {
        return Some(SchemaInTransaction), None;
      }
      ghost var view, db := Seen(), Stored();
      TracksSound(cat.json, run, sts, began, view, db);
      InvIs(cat.json, view);
      Ddl.SoundIs(cat, session.db);
      err, added := Ddl.CreateIndex(cat, session.db, table, name, column, ifNotExists);
      Parts();
      if added.Some? {
        CreateIndexRuns(cat.json, view, table, name, column, added.value, Seen());
      }
      if added.Some? && view.tables[table].nextIndexId < 0xFFFF_FFFF {
        Record(CreateIndexS(table, added.value), view, db);
      }
    }

    method DropIndex(name: Name, ifExists: bool) returns (err: Option<Error>, ghost dropped: Option<(Name, Index)>)
      requires Valid()
      modifies this, cat, session.db
      ensures Valid()
      ensures session.tx != null ==> err == Some(SchemaInTransaction) && dropped == None
      ensures dropped.None? ==> Seen() == old(Seen())
      ensures session.tx == null && dropped.None? ==>
                err == (if ifExists then None else Some(NotFound)) && !IndexNamed(cat.tables, name)
      ensures dropped.Some? ==>
                err == None && run == old(run) + [Seen()] && sts == old(sts) + [DropIndexS(dropped.value.0, dropped.value.1)]
      ensures dropped.Some? ==> IndexDropped(old(cat.tables), cat.tables, name, dropped.value.0, dropped.value.1)
    {
      hide *;
      Parts();
      if session.tx != null {
        return Some(SchemaInTransaction), None;
      }
      ghost var view, db := Seen(), Stored();
      TracksSound(cat.json, run, sts, began, view, db);
      InvIs(cat.json, view);
      Ddl.SoundIs(cat, session.db);
      err, dropped := Ddl.DropIndex(cat, session.db, name, ifExists);
      Parts();
      if dropped.Some? {
        DropIndexRuns(cat.json, view, name, dropped.value.0, dropped.value.1, Seen());
        Record(DropIndexS(dropped.value.0, dropped.value.1), view, db);
      }
    }

    // Row statements: planned, then run in the open transaction or in one of their own.

    /** Takes down a row statement: it wrote rows, unless its own transaction was dropped. */
    ghost method RecordRows(table: Name, view: Database, db: Database, failed: bool)
      requires session.Valid() && (session.tx != null ==> session.tx.rw.base == session.db.m)
      requires Tracks(cat.json, run, sts, began, view, db) && table in view.tables
      requires cat.tables == view.tables && cat.nextID == view.nextID
      requires session.tx != null ==> Stored() == db
      requires !failed || session.tx != null ==> RowsWritten(view.m, session.View(), view.tables[table])
      requires failed && session.tx == null ==> Seen() == view
      modifies this`run, this`sts, this`began
      ensures Valid() && run == old(run) + [Seen()]
      ensures sts == old(sts) + [if failed && session.tx == null then FailedS else RowsS(table)]
    {
      hide Tracks, RowsWritten;
      if failed && session.tx == null {
        Record(FailedS, view, db);
      } else {
        RowsRun(cat.json, view, table, session.View());
        hide Runs;
        Record(RowsS(table), view, db);
      }
    }

    /**
     * UPDATE. The run goes on, unless types.Equal took the old key of a row for a different new one
     * and the writes were kept: then what the connection sees need no longer be a state of a run.
     */
    method Update(h: Host, table: Name, where: Option<Expr>, sets: seq<SetClause>)
      returns (r: Result<nat>, ghost u: Option<Updated>)
      requires Valid()
      modifies this`run, this`sts, this`began, session.db, if session.tx == null then {} else {session.tx.rw.buf}
      ensures u.Some? <==> table in cat.tables && WhereOk(cat.tables[table], where) && SetsResolve(cat.tables[table], sets)
      ensures u.None? ==> Valid() && r == Err(NotFound) && Seen() == old(Seen())
      ensures u.Some? ==> UpdateDone(h, old(Seen()).m, cat.tables[table], where, Resolved(cat.tables[table], sets), r, u.value)
      ensures u.Some? && (r.Ok? || session.tx != null) ==>
                UpdateStored(h, Seen().m, cat.tables[table], where, Resolved(cat.tables[table], sets), r, u.value)
      ensures u.Some? && (Told(h, cat.tables[table], where, Resolved(cat.tables[table], sets), u.value) ||
                          (r.Err? && session.tx == null)) ==>
                && Valid() && run == old(run) + [Seen()]
                && sts == old(sts) + [if r.Ok? || session.tx != null then RowsS(table) else FailedS]
      ensures u.Some? && Told(h, cat.tables[table], where, Resolved(cat.tables[table], sets), u.value) ==>
                r.Ok? || session.tx != null ==> Represents(Seen().m, cat.tables[table], u.value.after)
      ensures u.Some? ==> Confined(old(Seen()).m, Seen().m, cat.tables[table])
      ensures r.Err? && session.tx == null ==> Seen() == old(Seen())
      ensures session.tx != null ==> Stored() == old(Stored())
    {
      hide *;
      Parts();
      if table !in cat.tables {
        return Err(NotFound), None;
      }
      var t := cat.tables[table];
      if !WhereOk(t, where) {
        return Err(NotFound), None;
      }
      var resolved := ResolveSets(t, sets);
      if resolved.Err? {
        return Err(NotFound), None;
      }
      ghost var view, db := Seen(), Stored();
      TracksSound(cat.json, run, sts, began, view, db);
      ghost var rows := RowsOf(cat.json, view, table);
      RowsTyped(view.m, t, rows);
      ghost var done;
      r, done := UpdateWhere(session, h, t, where, resolved.value, rows);
      u := Some(done);
      Parts();
      DoneFits(h, view.m, t, where, resolved.value, r, done);
      if Told(h, t, where, resolved.value, done) || (r.Err? && session.tx == null) {
        RecordRows(table, view, db, r.Err?);
      }
    }

    method Delete(h: Host, table: Name, where: Option<Expr>) returns (r: Result<nat>, ghost d: Option<Deleted>)
      requires Valid()
      modifies this`run, this`sts, this`began, session.db, if session.tx == null then {} else {session.tx.rw.buf}
      ensures Valid()
      ensures d.Some? <==> table in cat.tables && WhereOk(cat.tables[table], where)
      ensures d.None? ==> r == Err(NotFound) && Seen() == old(Seen())
      ensures d.Some? ==> DeleteDone(h, old(Seen()).m, cat.tables[table], where, r, d.value)
      ensures d.Some? && (r.Ok? || session.tx != null) ==> Represents(Seen().m, cat.tables[table], d.value.after)
      ensures d.Some? ==> run == old(run) + [Seen()]
      ensures d.Some? ==> sts == old(sts) + [if r.Ok? || session.tx != null then RowsS(table) else FailedS]
      ensures r.Err? && session.tx == null ==> Seen() == old(Seen())
      ensures session.tx != null ==> Stored() == old(Stored())
    {
      hide *;
      Parts();
      if table !in cat.tables {
        return Err(NotFound), None;
      }
      var t := cat.tables[table];
      if !WhereOk(t, where) {
        return Err(NotFound), None;
      }
      ghost var view, db := Seen(), Stored();
      TracksSound(cat.json, run, sts, began, view, db);
      ghost var rows := RowsOf(cat.json, view, table);
      ghost var done;
      r, done := DeleteWhere(session, h, t, where, rows);
      d := Some(done);
      Parts();
      RecordRows(table, view, db, r.Err?);
    }

    method Insert(h: Host, table: Name, names: seq<Name>, list: seq<seq<Expr>>)
      returns (r: Result<nat>, ghost n: Option<Inserted>)
      requires Valid()
      modifies this`run, this`sts, this`began, session.db, if session.tx == null then {} else {session.tx.rw.buf}
      ensures Valid()
      ensures n.Some? <==> table in cat.tables && InsertFits(cat.tables[table], names, list)
      ensures n.None? ==> r.Err? && Seen() == old(Seen())
      ensures n.Some? ==>
                InsertDone(h, old(Seen()).m, cat.tables[table], InsertColumns(cat.tables[table], names), list, r, n.value)
      ensures n.Some? && (r.Ok? || session.tx != null) ==>
                Represents(Seen().m, cat.tables[table], n.value.after)
      ensures n.Some? ==> run == old(run) + [Seen()]
      ensures n.Some? ==> sts == old(sts) + [if r.Ok? || session.tx != null then RowsS(table) else FailedS]
      ensures r.Err? && session.tx == null ==> Seen() == old(Seen())
      ensures session.tx != null ==> Stored() == old(Stored())
    {
      hide *;
      Parts();
      if table !in cat.tables {
        return Err(NotFound), None;
      }
      var t := cat.tables[table];
      var cols := PlanInsert(t, names, list);
      if cols.Err? {
        return Err(cols.error), None;
      }
      ghost var view, db := Seen(), Stored();
      TracksSound(cat.json, run, sts, began, view, db);
      ghost var rows := RowsOf(cat.json, view, table);
      ghost var done;
      r, done := InsertRows(session, h, t, cols.value, list, rows);
      n := Some(done);
      Parts();
      RecordRows(table, view, db, r.Err?);
    }
  }

  lemma Recognised(json: Json, s: Database)
    requires IsSound(json, s)
    ensures Recorded(json, s.m, s.tables, s.nextID) && forall a :: a in s.tables ==> s.tables[a].pk < |s.tables[a].columns|
  {
    forall a | a in s.tables ensures s.tables[a].pk < |s.tables[a].columns| {
      assert Consistent(s.m, s.tables[a]);
    }
  }

  /** Open: a database that any run has led to comes back with the schema it was closed with. */
  method Open(json: Json, db: Memory, ghost run: seq<Database>, ghost sts: seq<SchemaRuns.Statement>)
    returns (c: Result<Connection>)
    requires Faithful(json) && IsSerialRun(json, run, sts) && run[|sts|].m == db.m
    ensures c.Ok? && fresh(c.value) && c.value.Valid() && c.value.session.tx == null
    ensures c.value.Seen() == run[|sts|] && c.value.run == run && c.value.sts == sts
  {
    ghost var s := run[|sts|];
    RunKeepsSound(json, run, sts, |sts|);
    Recognised(json, s);
    hide IsSerialRun, Recorded, Catalog.Inv, Faithful, Tracks;
    var cat := Load(json, db, s.tables, s.nextID);
    var conn := new Connection(cat.value, db, run, sts);
    c := Ok(conn);
  }
}
