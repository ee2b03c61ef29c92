// Serial runs of schema statements and row statements (conn.go): what they keep, and that no
// identifier is ever handed out twice.
module SchemaRuns {
  import opened Bytes
  import opened Values
  import opened Keys
  import opened Storage
  import opened Schema
  import opened Dml
  import opened Mutators
  import opened Transactions
  import opened Interleavings
  import opened Catalog
  import opened Ddl

  /** The store, and the catalog in memory. */
  datatype Database = Database(m: Store, tables: Tables, nextID: uint32)

  /**
   * A row statement is known by what it does to the store, which Connections shows UPDATE, DELETE and
   * INSERT to do; a failed statement is one that changes nothing.
   */
  datatype Statement =
    | CreateTableS(def: Table)
    | DropTableS(name: Name)
    | CreateIndexS(table: Name, x: Index)
    | DropIndexS(table: Name, x: Index)
    | RowsS(table: Name)
    | FailedS

  ghost predicate IsSound(json: Json, s: Database) { Catalog.Inv(json, s.m, s.tables, s.nextID) }

  /** What each statement does; the counters have room for one more. */
  ghost predicate Runs(json: Json, s: Database, st: Statement, n: Database) {
    match st
    case CreateTableS(def) =>
      && def.name !in s.tables && WellFormed(def) && def.indexes == [] && s.nextID < 0xFFFF_FFFF
      && n == Database(CreateStore(json, s.m, def, s.nextID), s.tables[def.name := Created(def, s.nextID)], Bump(s.nextID))
    case DropTableS(name) =>
      name in s.tables && n == Database(DropStore(s.m, s.tables[name]), s.tables - {name}, s.nextID)
    case CreateIndexS(table, x) =>
      && FreshIndex(s.tables, table, x) && x.id < 0xFFFF_FFFF
      && IndexedStore(json, s.m, s.tables[table], x, table, n.m)
      && n.tables == s.tables[table := Indexed(s.tables[table], x)] && n.nextID == s.nextID
    case DropIndexS(table, x) =>
      && table in s.tables && x in s.tables[table].indexes
      && n == Database(DropIndexStore(json, s.m, s.tables[table], x), s.tables[table := Unindexed(s.tables[table], x.name)], s.nextID)
    case RowsS(table) =>
      table in s.tables && RowsWritten(s.m, n.m, s.tables[table]) && n.tables == s.tables && n.nextID == s.nextID
    case FailedS => n == s
  }

  lemma StatementKeepsSound(json: Json, s: Database, st: Statement, n: Database)
    requires IsSound(json, s) && Runs(json, s, st, n)
    ensures IsSound(json, n)
  {
    hide Catalog.Inv, Represents, Built, WellFormed, RowsWritten, CreateStore, DropStore, DropIndexStore, Created, Indexed, Unindexed;
    match st
    case CreateTableS(def) => CreateKeepsInv(json, s.m, s.tables, s.nextID, def);
    case DropTableS(name) => DropKeepsInv(json, s.m, s.tables, s.nextID, name);
    case CreateIndexS(table, x) =>
      var rows :| Represents(s.m, s.tables[table], rows) &&
                  Built(s.m[MetaTableKey(table) := json.encode(Indexed(s.tables[table], x))], n.m, s.tables[table], x, rows);
      CreateIndexKeepsInv(json, s.m, n.m, s.tables, s.nextID, table, x, rows);
    case DropIndexS(table, x) => DropIndexKeepsInv(json, s.m, s.tables, s.nextID, table, x);
    case RowsS(table) => RowsKeepInv(json, s.m, n.m, s.tables, s.nextID, table);
    case FailedS =>
  }

  /** The statement drops the table or writes its rows. */
  predicate Concerns(st: Statement, n: Name) { (st.DropTableS? && st.name == n) || (st.RowsS? && st.table == n) }

  /** Every table a statement is not about keeps its rows, whatever becomes of its indexes. */
  lemma StatementKeepsRows(json: Json, s: Database, st: Statement, after: Database, n: Name)
    requires IsSound(json, s) && Runs(json, s, st, after) && n in s.tables && !Concerns(st, n)
    ensures n in after.tables && after.tables[n].columns == s.tables[n].columns && after.tables[n].id == s.tables[n].id
    ensures RowsKept(s.m, s.tables[n], after.m, after.tables[n])
  {
    hide Catalog.Inv, Represents, Built, WellFormed, RowsWritten, CreateStore, DropStore, DropIndexStore, Created, RowsKept;
    match st
    case CreateTableS(def) => CreateKeepsInv(json, s.m, s.tables, s.nextID, def);
    case DropTableS(name) => DropKeepsInv(json, s.m, s.tables, s.nextID, name);
    case CreateIndexS(table, x) =>
      var rows :| Represents(s.m, s.tables[table], rows) &&
                  Built(s.m[MetaTableKey(table) := json.encode(Indexed(s.tables[table], x))], after.m, s.tables[table], x, rows);
      CreateIndexKeepsInv(json, s.m, after.m, s.tables, s.nextID, table, x, rows);
      KeptRows(s.m, s.tables[table], after.m, Indexed(s.tables[table], x), rows);
    case DropIndexS(table, x) => DropIndexKeepsInv(json, s.m, s.tables, s.nextID, table, x);
    case RowsS(table) => RowsKeepInv(json, s.m, after.m, s.tables, s.nextID, table);
    case FailedS => KeptSame(s.m, s.tables[n]);
  }

  lemma KeptRows(m: Store, t: Table, n: Store, u: Table, rows: Rows)
    requires Represents(m, t, rows) && Represents(n, u, rows)
    ensures RowsKept(m, t, n, u)
  {
    hide Represents;
    forall others | Represents(m, t, others) ensures Represents(n, u, others) {
      RepresentsUnique(m, t, rows, others);
    }
  }

  lemma KeptSame(m: Store, t: Table)
    ensures RowsKept(m, t, m, t)
  {
  }

  /** u is t up to its indexes and its index counter. */
  predicate SameShape(t: Table, u: Table) { u.name == t.name && u.id == t.id && u.columns == t.columns && u.pk == t.pk }

  /** Which tables there are after a statement, and what of them has changed. */
  lemma StatementChangesSchema(json: Json, s: Database, st: Statement, after: Database)
    requires Runs(json, s, st, after)
    ensures match st
            case CreateTableS(def) =>
              && after.tables.Keys == s.tables.Keys + {def.name} && def.name !in s.tables
              && (forall n :: n in s.tables ==> after.tables[n] == s.tables[n])
              && SameShape(def.(id := s.nextID), after.tables[def.name]) && after.tables[def.name].indexes == []
            case DropTableS(name) =>
              after.tables.Keys == s.tables.Keys - {name} && forall n :: n in after.tables ==> after.tables[n] == s.tables[n]
            case CreateIndexS(table, x) =>
              && after.tables.Keys == s.tables.Keys && (forall n :: n in s.tables && n != table ==> after.tables[n] == s.tables[n])
              && SameShape(s.tables[table], after.tables[table]) && after.tables[table].indexes == s.tables[table].indexes + [x]
            case DropIndexS(table, x) =>
              && after.tables.Keys == s.tables.Keys && (forall n :: n in s.tables && n != table ==> after.tables[n] == s.tables[n])
              && SameShape(s.tables[table], after.tables[table])
              && forall y :: y in after.tables[table].indexes <==> y in s.tables[table].indexes && y.name != x.name
            case _ => after.tables == s.tables
  {
    hide WellFormed, RowsWritten, CreateStore, DropStore, DropIndexStore, Represents, Built;
  }

  ghost predicate IsSerialRun(json: Json, run: seq<Database>, sts: seq<Statement>) {
    && |run| == |sts| + 1
    && run[0] == Database(map[], map[], 1)
    && forall k :: 0 <= k < |sts| ==> Runs(json, run[k], sts[k], run[k + 1])
  }

  /** At every point of a run the catalog reads back as it is and no key belongs to anything dropped. */
  lemma {:induction false} RunKeepsSound(json: Json, run: seq<Database>, sts: seq<Statement>, k: nat)
    requires IsSerialRun(json, run, sts) && k < |run|
    ensures IsSound(json, run[k])
    ensures Recorded(json, run[k].m, run[k].tables, run[k].nextID)
    ensures NoOrphans(run[k].m, run[k].tables)
    ensures forall n :: n in run[k].tables ==> exists rows :: Represents(run[k].m, run[k].tables[n], rows)
    decreases k
  {
    hide Runs, Recorded, NoOrphans, Represents;
    if k == 0 {
      EmptyInv(json);
    } else {
      RunKeepsSound(json, run, sts, k - 1);
      StatementKeepsSound(json, run[k - 1], sts[k - 1], run[k]);
    }
    assert forall n :: n in run[k].tables ==> Consistent(run[k].m, run[k].tables[n]);
  }

  /** A run goes on with one more statement. */
  lemma RunGoesOn(json: Json, run: seq<Database>, sts: seq<Statement>, st: Statement, after: Database)
    requires IsSerialRun(json, run, sts) && Runs(json, run[|sts|], st, after)
    ensures IsSerialRun(json, run + [after], sts + [st])
  {
    hide Runs;
    var r, s := run + [after], sts + [st];
    forall k | 0 <= k < |s| ensures Runs(json, r[k], s[k], r[k + 1]) {
      if k < |sts| {
        assert Runs(json, run[k], sts[k], run[k + 1]);
      }
    }
  }

  /** The start of a run is a run. */
  lemma RunStart(json: Json, run: seq<Database>, sts: seq<Statement>, n: nat)
    requires IsSerialRun(json, run, sts) && n <= |sts|
    ensures IsSerialRun(json, run[..n + 1], sts[..n])
  {
    hide Runs;
    forall k | 0 <= k < n ensures Runs(json, run[..n + 1][k], sts[..n][k], run[..n + 1][k + 1]) {
      assert Runs(json, run[k], sts[k], run[k + 1]);
    }
  }

  lemma {:induction false} CounterGrows(json: Json, run: seq<Database>, sts: seq<Statement>, i: nat, j: nat)
    requires IsSerialRun(json, run, sts) && i <= j < |run|
    ensures run[i].nextID <= run[j].nextID
    decreases j
  {
    hide WellFormed, Represents, RowsWritten, IndexedStore, CreateStore, DropStore, DropIndexStore, FreshIndex, Unindexed, Indexed;
    if i < j {
      CounterGrows(json, run, sts, i, j - 1);
      assert Runs(json, run[j - 1], sts[j - 1], run[j]);
    }
  }

  /** No two CREATE TABLEs of a run ever get the same identifier, whatever is dropped in between. */
  lemma IdsNeverReused(json: Json, run: seq<Database>, sts: seq<Statement>, i: nat, j: nat)
    requires IsSerialRun(json, run, sts) && i < j < |sts| && sts[i].CreateTableS? && sts[j].CreateTableS?
    ensures sts[i].def.name in run[i + 1].tables && sts[j].def.name in run[j + 1].tables
    ensures run[i + 1].tables[sts[i].def.name].id < run[j + 1].tables[sts[j].def.name].id
  {
    assert Runs(json, run[i], sts[i], run[i + 1]) && Runs(json, run[j], sts[j], run[j + 1]);
    CounterGrows(json, run, sts, i + 1, j);
  }

  /** The table of identifier d has this name. */
  predicate Stands(s: Database, n: Name, d: uint32) { n in s.tables && s.tables[n].id == d }

  /** It has not, and the name is free or means a table made later. */
  predicate Gone(s: Database, n: Name, d: uint32) { n in s.tables ==> d < s.tables[n].id }

  lemma StandsOrGone(json: Json, s: Database, st: Statement, after: Database, n: Name, d: uint32)
    requires Runs(json, s, st, after) && d < s.nextID && (Stands(s, n, d) || Gone(s, n, d))
    ensures Stands(after, n, d) || Gone(after, n, d)
    ensures Gone(s, n, d) ==> Gone(after, n, d)
    ensures Stands(after, n, d) ==> s.tables[n].nextIndexId <= after.tables[n].nextIndexId
  {
    hide WellFormed, RowsWritten, IndexedStore, CreateStore, DropStore, DropIndexStore;
  }

  /** A table found under one name and identifier at two points was there, with a counter that only grew, in between. */
  lemma {:induction false} IndexCounterGrows(json: Json, run: seq<Database>, sts: seq<Statement>, n: Name, i: nat, j: nat)
    requires IsSerialRun(json, run, sts) && i <= j < |run|
    requires n in run[i].tables && run[i].tables[n].id < run[i].nextID
    ensures Stands(run[j], n, run[i].tables[n].id) || Gone(run[j], n, run[i].tables[n].id)
    ensures Stands(run[j], n, run[i].tables[n].id) ==>
              && run[i].tables[n].nextIndexId <= run[j].tables[n].nextIndexId
              && forall k :: i <= k <= j ==> Stands(run[k], n, run[i].tables[n].id)
    decreases j
  {
    hide Runs, Stands, Gone;
    if i == j {
      StandsNow(run[i], n);
    } else {
      IndexCounterGrows(json, run, sts, n, i, j - 1);
      CounterGrows(json, run, sts, i, j - 1);
      StandsOrGone(json, run[j - 1], sts[j - 1], run[j], n, run[i].tables[n].id);
      NotBoth(run[j], n, run[i].tables[n].id);
    }
  }

  lemma StandsNow(s: Database, n: Name)
    requires n in s.tables
    ensures Stands(s, n, s.tables[n].id)
  {
  }

  lemma NotBoth(s: Database, n: Name, d: uint32)
    ensures !(Stands(s, n, d) && Gone(s, n, d))
    ensures Stands(s, n, d) ==> n in s.tables
  {
  }

  /** Two CREATE INDEXes on one table, known by name and identifier, get different numbers, whatever is dropped in between. */
  lemma IndexIdsNeverReused(json: Json, run: seq<Database>, sts: seq<Statement>, n: Name, i: nat, j: nat)
    requires IsSerialRun(json, run, sts) && i < j < |sts|
    requires sts[i].CreateIndexS? && sts[j].CreateIndexS? && sts[i].table == sts[j].table == n
    requires n in run[i].tables && n in run[j].tables && run[i].tables[n].id == run[j].tables[n].id
    ensures sts[i].x in run[i + 1].tables[n].indexes && sts[j].x in run[j + 1].tables[n].indexes
    ensures sts[i].x.id < sts[j].x.id
  {
    assert Runs(json, run[i], sts[i], run[i + 1]) && Runs(json, run[j], sts[j], run[j + 1]);
    RunKeepsSound(json, run, sts, i + 1);
    hide IndexedStore, Recorded, NoOrphans, Represents, IsSerialRun;
    assert run[i + 1].tables[n].id == run[i].tables[n].id;
    IndexCounterGrows(json, run, sts, n, i + 1, j);
    assert Stands(run[j], n, run[i].tables[n].id);
  }

  // ------------------------------------------------------------------
  // Row statements
  // ------------------------------------------------------------------

  /** One row write over a view is such a change to it. */
  lemma MutationWritesRows(h: Host, base: Store, em: Entries, m: Mutation)
    requires Consistent(Apply(base, em), m.table) && Allowed(h, Apply(base, em), m)
    ensures RowsWritten(Apply(base, em), Apply(base, PutAll(em, Writes(h, Apply(base, em), m))), m.table)
  {
    hide Allowed, Writes, Pks, Owned, Represents, WritesOnly;
    var ws := Writes(h, Apply(base, em), m);
    WriteOwnTable(h, base, em, m);
    WritesConfined(base, em, m.table, Pks(h, Apply(base, em), m), ws);
  }
}
