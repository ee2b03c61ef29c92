// The catalog object (catalog/catalog.go), index building (exec/dml.go) and the schema statements
// (conn.go), which change memory and store together under the lock.
module Ddl {
  import opened Bytes
  import opened Values
  import opened KeyCodec
  import opened Keys
  import opened RowCodec
  import opened Storage
  import opened Schema
  import opened Catalog

  // ------------------------------------------------------------------
  // Defining a table
  // ------------------------------------------------------------------

  predicate NamesDistinct(cols: seq<Schema.Column>) {
    forall i, j :: 0 <= i < j < |cols| ==> cols[i].name != cols[j].name
  }

  /** Exactly one column is the primary key. */
  ghost predicate OnePrimaryKey(cols: seq<Schema.Column>) {
    exists p :: IsOnlyPK(cols, p)
  }

  predicate IsOnlyPK(cols: seq<Schema.Column>, p: int) {
    0 <= p < |cols| && forall i :: 0 <= i < |cols| ==> (cols[i].primaryKey <==> i == p)
  }

  lemma NotOneKey(cols: seq<Schema.Column>, i: int, j: int)
    requires 0 <= i < j < |cols| && cols[i].primaryKey && cols[j].primaryKey
    ensures !OnePrimaryKey(cols)
  {
    forall p ensures !IsOnlyPK(cols, p) {
    }
  }

  lemma NoKey(cols: seq<Schema.Column>)
    requires forall i :: 0 <= i < |cols| ==> !cols[i].primaryKey
    ensures !OnePrimaryKey(cols)
  {
    forall p ensures !IsOnlyPK(cols, p) {
      if 0 <= p < |cols| {
        assert !cols[p].primaryKey;
      }
    }
  }

  /** A column list that makes a table: distinct names and exactly one primary key. */
  ghost predicate Definable(cols: seq<Schema.Column>) { cols != [] && NamesDistinct(cols) && OnePrimaryKey(cols) }

  method Define(name: Name, cols: seq<Schema.Column>) returns (r: Result<Table>)
    ensures r.Ok? <==> Definable(cols)
    ensures r.Ok? ==> WellFormed(r.value) && r.value.name == name && r.value.indexes == [] && IsOnlyPK(cols, r.value.pk)
    ensures r.Ok? ==> r.value.columns == cols[r.value.pk := cols[r.value.pk].(notNull := true)]
  {
    if |cols| == 0 {
      return Err(WrongArity);
    }
    var seen: set<Name> := {};
    var pk := -1;
    for i := 0 to |cols|
      invariant forall n :: n in seen <==> exists j :: 0 <= j < i && cols[j].name == n
      invariant forall j, k :: 0 <= j < k < i ==> cols[j].name != cols[k].name
      invariant -1 <= pk < i && (forall j :: 0 <= j < i ==> (cols[j].primaryKey <==> j == pk))
    {
      if cols[i].name in seen {
        return Err(Exists);
      }
      seen := seen + {cols[i].name};
      if cols[i].primaryKey {
        if pk >= 0 {
          NotOneKey(cols, pk, i);
          return Err(NullKey);
        }
        pk := i;
      }
    }
    if pk < 0 {
      NoKey(cols);
      return Err(NullKey);
    }
    assert IsOnlyPK(cols, pk);
    r := Ok(Table(name, 0, cols[pk := cols[pk].(notNull := true)], pk, [], 0));
  }

  function FindNamed(xs: seq<Index>, name: Name): (r: Option<Index>)
    ensures r.Some? ==> r.value in xs && r.value.name == name
    ensures r.None? ==> forall x :: x in xs ==> x.name != name
  {
    if xs == [] then None
    else if xs[0].name == name then Some(xs[0])
    else FindNamed(xs[1..], name)
  }

  // ------------------------------------------------------------------
  // The catalog object
  // ------------------------------------------------------------------

  class SchemaCatalog {
    const json: Json
    var tables: Tables
    var nextID: uint32

    constructor (json: Json, tables: Tables, nextID: uint32)
      ensures this.json == json && this.tables == tables && this.nextID == nextID
    {
      this.json, this.tables, this.nextID := json, tables, nextID;
    }

    /** Memory and store agree, and everything stored belongs to what exists. */
    ghost predicate Sound(w: Memory)
      reads this, w
    {
      Inv(json, w.m, tables, nextID)
    }

    /** The table and index of that name, whichever table it is on. */
    method FindIndex(name: Name) returns (r: Option<(Name, Index)>)
      ensures r.Some? ==> r.value.0 in tables && r.value.1 in tables[r.value.0].indexes && r.value.1.name == name
      ensures r.None? ==> forall n, x :: n in tables && x in tables[n].indexes ==> x.name != name
    {
      var todo := tables.Keys;
      while todo != {}
        invariant todo <= tables.Keys
        invariant forall n, x :: n in tables && n !in todo && x in tables[n].indexes ==> x.name != name
        decreases |todo|
      {
        var n :| n in todo;
        var x := FindNamed(tables[n].indexes, name);
        if x.Some? {
          return Some((n, x.value));
        }
        todo := todo - {n};
      }
      r := None;
    }

    method Create(w: Memory, def: Table) returns (r: Result<Table>)
      modifies this, w
      ensures def.name in old(tables) ==> r == Err(Exists) && tables == old(tables) && nextID == old(nextID) && w.m == old(w.m)
      ensures def.name !in old(tables) ==>
                && r == Ok(Created(def, old(nextID))) && nextID == Bump(old(nextID))
                && tables == old(tables)[def.name := Created(def, old(nextID))]
                && w.m == CreateStore(json, old(w.m), def, old(nextID))
    {
      if def.name in tables {
        return Err(Exists);
      }
      var t := def.(id := nextID, nextIndexId := 1);
      BumpID(w);
      w.Put(MetaTableKey(t.name), json.encode(t));
      tables := tables[t.name := t];
      r := Ok(t);
    }

    /** The stored counter moves before the one in memory. */
    method BumpID(w: Memory)
      modifies this`nextID, w
      ensures nextID == Bump(old(nextID)) && w.m == old(w.m)[MetaSeqKey() := BE32(Bump(old(nextID)))]
    {
      w.Put(MetaSeqKey(), BE32(Bump(nextID)));
      nextID := Bump(nextID);
    }

    method Drop(w: Memory, name: Name) returns (err: Option<Error>)
      modifies this`tables, w
      ensures name !in old(tables) ==> err == Some(NotFound) && tables == old(tables) && w.m == old(w.m)
      ensures name in old(tables) ==> err == None && tables == old(tables) - {name} && w.m == old(w.m) - {MetaTableKey(name)}
    {
      if name !in tables {
        return Some(NotFound);
      }
      w.Delete(MetaTableKey(name));
      tables := tables - {name};
      err := None;
    }

    method AddIndex(w: Memory, table: Name, name: Name, column: Name) returns (r: Result<(Table, Index)>)
      requires table in tables ==> tables[table].name == table
      modifies this`tables, w
      ensures r.Err? ==> tables == old(tables) && w.m == old(w.m)
      ensures r.Ok? <==> table in old(tables) && old(tables)[table].ColumnIndex(column).Some? &&
                         (forall n, x :: n in old(tables) && x in old(tables)[n].indexes ==> x.name != name)
      ensures r.Ok? ==>
                && r.value.1 == Index(name, old(tables)[table].nextIndexId, column, old(tables)[table].ColumnIndex(column).value)
                && r.value.0 == Indexed(old(tables)[table], r.value.1)
                && tables == old(tables)[table := r.value.0]
                && w.m == old(w.m)[MetaTableKey(table) := json.encode(r.value.0)]
    {
      if table !in tables {
        return Err(NotFound);
      }
      var t := tables[table];
      var taken := FindIndex(name);
      if taken.Some? {
        return Err(Exists);
      }
      var pos := t.ColumnIndex(column);
      if pos.None? {
        return Err(NotFound);
      }
      var x := Index(name, t.nextIndexId, column, pos.value);
      var updated := Indexed(t, x);
      w.Put(MetaTableKey(updated.name), json.encode(updated));
      tables := tables[table := updated];
      r := Ok((updated, x));
    }

    method RemoveIndex(w: Memory, name: Name) returns (r: Result<(Table, Index)>)
      requires forall n :: n in tables ==> tables[n].name == n
      modifies this`tables, w
      ensures r.Err? ==> tables == old(tables) && w.m == old(w.m)
      ensures r.Err? <==> forall n, x :: n in old(tables) && x in old(tables)[n].indexes ==> x.name != name
      ensures r.Ok? ==>
                && r.value.0.name in old(tables) && r.value.1 in old(tables)[r.value.0.name].indexes && r.value.1.name == name
                && r.value.0 == Unindexed(old(tables)[r.value.0.name], name)
                && tables == old(tables)[r.value.0.name := r.value.0]
                && w.m == old(w.m)[MetaTableKey(r.value.0.name) := json.encode(r.value.0)]
    {
      var found := FindIndex(name);
      if found.None? {
        return Err(NotFound);
      }
      var t := tables[found.value.0];
      var keep: seq<Index> := [];
      for i := 0 to |t.indexes|
        invariant keep == WithoutNamed(t.indexes[..i], name)
      {
        assert t.indexes[..i + 1][..i] == t.indexes[..i];
        if t.indexes[i].name != name {
          keep := keep + [t.indexes[i]];
        }
      }
      assert t.indexes[..|t.indexes|] == t.indexes;
      var updated := t.(indexes := keep);
      w.Put(MetaTableKey(updated.name), json.encode(updated));
      tables := tables[updated.name := updated];
      r := Ok((updated, found.value.1));
    }
  }

  // ------------------------------------------------------------------
  // Reading the catalog back
  // ------------------------------------------------------------------

  /** The tables behind the first entries of a catalog scan. */
  ghost predicate LoadedSoFar(es: seq<Entry>, n: nat, all: Tables, tables: Tables)
    requires n <= |es|
  {
    && (forall a :: a in tables <==> a in all && exists j :: 0 <= j < n && es[j].key == MetaTableKey(a))
    && (forall a :: a in tables ==> tables[a] == all[a])
  }

  lemma CatalogEntry(json: Json, m: Store, all: Tables, nextID: uint32, e: Entry) returns (a: Name)
    requires Recorded(json, m, all, nextID)
    requires e in Listing(m, Some(MetaTablePrefix()), PrefixEnd(MetaTablePrefix()))
    ensures a in all && e.key == MetaTableKey(a) && e.value == json.encode(all[a]) && all[a].name == a
  {
    var em := Inside(Lift(m), Some(MetaTablePrefix()), PrefixEnd(MetaTablePrefix()));
    assert e.key in em && em[e.key] == e;
    PrefixInterval(MetaTablePrefix(), e.key);
    a :| a in all && e.key == MetaTableKey(a);
  }

  lemma LoadStep(es: seq<Entry>, n: nat, all: Tables, tables: Tables, a: Name)
    requires n < |es| && LoadedSoFar(es, n, all, tables) && a in all && es[n].key == MetaTableKey(a)
    ensures LoadedSoFar(es, n + 1, all, tables[a := all[a]])
  {
    forall b ensures b in tables[a := all[a]] <==> b in all && exists j :: 0 <= j < n + 1 && es[j].key == MetaTableKey(b) {
      TableKeysDiffer(a, b);
    }
  }

  lemma LoadAll(json: Json, m: Store, all: Tables, nextID: uint32, tables: Tables)
    requires Recorded(json, m, all, nextID)
    requires var es := Listing(m, Some(MetaTablePrefix()), PrefixEnd(MetaTablePrefix())); LoadedSoFar(es, |es|, all, tables)
    ensures tables == all
  {
    var es := Listing(m, Some(MetaTablePrefix()), PrefixEnd(MetaTablePrefix()));
    var em := Inside(Lift(m), Some(MetaTablePrefix()), PrefixEnd(MetaTablePrefix()));
    forall a | a in all ensures a in tables {
      TableKeysDiffer(a, a);
      PrefixInterval(MetaTablePrefix(), MetaTableKey(a));
      assert em[MetaTableKey(a)] in es;
      var j :| 0 <= j < |es| && es[j] == em[MetaTableKey(a)];
      assert es[j].key == MetaTableKey(a);
    }
  }

  lemma CounterReads(n: uint32)
    ensures |BE32(n)| == 4 && FromBE(BE32(n)) == n
  {
    Pow256Of4();
    BERoundTrip(4, n);
  }

  predicate EntryReads(json: Json, e: Entry) {
    json.decode(e.value).Ok? && json.decode(e.value).value.pk < |json.decode(e.value).value.columns|
  }

  /** Every schema entry decodes to a table with a primary key, and the counter, if there is one, has four bytes. */
  ghost predicate CatalogReads(json: Json, m: Store) {
    && (forall e :: e in Listing(m, Some(MetaTablePrefix()), PrefixEnd(MetaTablePrefix())) ==> EntryReads(json, e))
    && (MetaSeqKey() in m ==> |m[MetaSeqKey()]| == 4)
  }

  /** Reopening a database reads back exactly the catalog it was closed with; a catalog that does not read is corrupt. */
  method Load(json: Json, r: Memory, ghost all: Tables, ghost nextID: uint32) returns (c: Result<SchemaCatalog>)
    ensures if CatalogReads(json, r.m) then c.Ok? else c == Err(Corrupt)
    ensures Faithful(json) && Recorded(json, r.m, all, nextID) && (forall a :: a in all ==> all[a].pk < |all[a].columns|) ==>
              c.Ok? && fresh(c.value) && c.value.json == json && c.value.tables == all && c.value.nextID == nextID
  {
    hide Recorded, Listing, LoadedSoFar;
    var prefix := MetaTablePrefix();
    var it := r.Scan(Some(prefix), PrefixEnd(prefix));
    var tables: Tables := map[];
    ghost var good := Faithful(json) && Recorded(json, r.m, all, nextID) && forall a :: a in all ==> all[a].pk < |all[a].columns|;
    LoadStarts(it.entries, all);
    var ok := it.Next();
    while ok
      invariant 0 <= it.pos <= |it.entries| && ok == (it.pos < |it.entries|)
      invariant it.entries == Listing(r.m, Some(prefix), PrefixEnd(prefix))
      invariant good ==> LoadedSoFar(it.entries, it.pos, all, tables)
      invariant forall i :: 0 <= i < it.pos ==> EntryReads(json, it.entries[i])
      decreases |it.entries| - it.pos
    {
      ghost var a;
      if good {
        a := CatalogEntry(json, r.m, all, nextID, it.entries[it.pos]);
        LoadStep(it.entries, it.pos, all, tables, a);
      }
      var t := json.decode(it.entries[it.pos].value);
      if t.Err? || t.value.pk >= |t.value.columns| {
        assert it.entries[it.pos] in it.entries;
        return Err(Corrupt);
      }
      tables := tables[t.value.name := t.value];
      ok := it.Next();
    }
    if good {
      LoadAll(json, r.m, all, nextID, tables);
    }
    var next := ReadCounter(json, r, all, nextID);
    if next.Err? {
      return Err(next.error);
    }
    var cat := new SchemaCatalog(json, tables, next.value);
    c := Ok(cat);
  }

  lemma LoadStarts(es: seq<Entry>, all: Tables)
    ensures LoadedSoFar(es, 0, all, map[])
  {
  }

  method ReadCounter(json: Json, r: Memory, ghost all: Tables, ghost nextID: uint32) returns (n: Result<uint32>)
    ensures Recorded(json, r.m, all, nextID) ==> n == Ok(nextID)
    ensures if MetaSeqKey() in r.m && |r.m[MetaSeqKey()]| != 4 then n == Err(Corrupt) else n.Ok?
  {
    CounterReads(nextID);
    var counter := r.Get(MetaSeqKey());
    if counter.Err? {
      return Ok(1);
    }
    if |counter.value| != 4 {
      return Err(Corrupt);
    }
    Pow256Of4();
    n := Ok(FromBE(counter.value));
  }

  // ------------------------------------------------------------------
  // Building an index over existing rows
  // ------------------------------------------------------------------

  ghost function DataListing(m: Store, t: Table): seq<Entry> {
    Listing(m, Some(DataPrefix(t.id)), PrefixEnd(DataPrefix(t.id)))
  }

  lemma DataEntry(m: Store, t: Table, rows: Rows, e: Entry) returns (p: Value)
    requires HoldsRows(m, t, rows) && e in DataListing(m, t)
    ensures p in rows && e.key == RowKey(t.id, p) && e.value == EncodeRow(rows[p])
  {
    var em := Inside(Lift(m), Some(DataPrefix(t.id)), PrefixEnd(DataPrefix(t.id)));
    assert e.key in em && em[e.key] == e;
    PrefixInterval(DataPrefix(t.id), e.key);
    p :| e.key == RowKey(t.id, p);
  }

  lemma RowListed(m: Store, t: Table, rows: Rows, p: Value) returns (i: nat)
    requires HoldsRows(m, t, rows) && p in rows
    ensures i < |DataListing(m, t)| && DataListing(m, t)[i].key == RowKey(t.id, p)
  {
    var em := Inside(Lift(m), Some(DataPrefix(t.id)), PrefixEnd(DataPrefix(t.id)));
    assert DataPrefix(t.id) <= RowKey(t.id, p);
    PrefixInterval(DataPrefix(t.id), RowKey(t.id, p));
    assert em[RowKey(t.id, p)] in DataListing(m, t);
    i :| 0 <= i < |DataListing(m, t)| && DataListing(m, t)[i] == em[RowKey(t.id, p)];
  }

  /** The keys collected from the first n rows of the scan. */
  ghost predicate KeysFrom(t: Table, x: Index, rows: Rows, es: seq<Entry>, n: nat, keys: seq<bytes>)
    requires n <= |es|
  {
    |keys| == n && forall i :: 0 <= i < n ==> KeyFrom(t, x, rows, es[i].key, keys[i])
  }

  ghost predicate KeyFrom(t: Table, x: Index, rows: Rows, row: bytes, key: bytes) {
    exists p :: p in rows && row == RowKey(t.id, p) && x.pos < |rows[p]| && key == IndexKey(t.id, x.id, rows[p][x.pos], p)
  }

  /** Where the rows are and what they hold; the index and the key point at columns. */
  ghost predicate Readable(m: Store, t: Table, x: Index, rows: Rows) {
    HoldsRows(m, t, rows) && TypedRows(t, rows) && x.pos < |t.columns|
  }

  lemma DecodesRow(m: Store, t: Table, x: Index, rows: Rows, e: Entry)
    requires Readable(m, t, x, rows) && e in DataListing(m, t)
    ensures DecodeRow(e.value, |t.columns|).Ok? && t.pk < |DecodeRow(e.value, |t.columns|).value|
    ensures x.pos < |DecodeRow(e.value, |t.columns|).value|
    ensures var row := DecodeRow(e.value, |t.columns|).value;
            KeyFrom(t, x, rows, e.key, IndexKey(t.id, x.id, row[x.pos], row[t.pk]))
  {
    var p := DataEntry(m, t, rows, e);
    DecodeRowEncodeRow(rows[p]);
  }

  /** Reads every row of the table and collects the entries the index needs. */
  method PendingEntries(w: Memory, t: Table, x: Index, ghost rows: Rows) returns (r: Result<seq<bytes>>)
    requires x.pos < |t.columns| && t.pk < |t.columns|
    ensures Readable(w.m, t, x, rows) ==> r.Ok?
    ensures Readable(w.m, t, x, rows) ==> KeysFrom(t, x, rows, DataListing(w.m, t), |DataListing(w.m, t)|, r.value)
  {
    hide Readable, Listing, KeyFrom;
    ghost var good := Readable(w.m, t, x, rows);
    var prefix := DataPrefix(t.id);
    var it := w.Scan(Some(prefix), PrefixEnd(prefix));
    var keys: seq<bytes> := [];
    var ok := it.Next();
    while ok
      invariant 0 <= it.pos <= |it.entries| && ok == (it.pos < |it.entries|) && it.entries == DataListing(w.m, t)
      invariant good ==> KeysFrom(t, x, rows, it.entries, it.pos, keys)
      decreases |it.entries| - it.pos
    {
      if good {
        DecodesRow(w.m, t, x, rows, it.entries[it.pos]);
      }
      var row := DecodeRow(it.entries[it.pos].value, |t.columns|);
      if row.Err? {
        return Err(row.error);
      }
      keys := keys + [IndexKey(t.id, x.id, row.value[x.pos], row.value[t.pk])];
      ok := it.Next();
    }
    r := Ok(keys);
  }

  lemma PendingIsEntries(m: Store, t: Table, x: Index, rows: Rows, keys: seq<bytes>, k: bytes)
    requires Readable(m, t, x, rows)
    requires KeysFrom(t, x, rows, DataListing(m, t), |DataListing(m, t)|, keys)
    ensures k in keys <==> EntryOf(t, x, rows, k)
  {
    hide HoldsRows, DataListing;
    if EntryOf(t, x, rows, k) {
      var p :| p in rows && x.pos < |rows[p]| && k == IndexKey(t.id, x.id, rows[p][x.pos], p);
      var i := RowListed(m, t, rows, p);
      assert KeyFrom(t, x, rows, DataListing(m, t)[i].key, keys[i]);
      var q :| q in rows && DataListing(m, t)[i].key == RowKey(t.id, q) && keys[i] == IndexKey(t.id, x.id, rows[q][x.pos], q);
      RowKeyInjective(t.id, p, t.id, q);
    }
    if k in keys {
      var i :| 0 <= i < |keys| && keys[i] == k;
      assert KeyFrom(t, x, rows, DataListing(m, t)[i].key, keys[i]);
    }
  }

  /** Populates a new index; over rows in place it cannot fail. */
  method BuildIndex(w: Memory, t: Table, x: Index, ghost rows: Rows) returns (err: Option<Error>)
    requires x.pos < |t.columns| && t.pk < |t.columns|
    modifies w
    ensures Readable(old(w.m), t, x, rows) ==> err == None && Built(old(w.m), w.m, t, x, rows)
    ensures err.Some? ==> w.m == old(w.m)
  {
    hide Readable, KeysFrom, DataListing, EntryOf;
    var pending := PendingEntries(w, t, x, rows);
    if pending.Err? {
      return Some(pending.error);
    }
    var keys := pending.value;
    if Readable(w.m, t, x, rows) {
      forall k ensures k in keys <==> EntryOf(t, x, rows, k) {
        PendingIsEntries(w.m, t, x, rows, keys, k);
      }
    }
    for i := 0 to |keys|
      invariant forall k :: k in w.m <==> k in old(w.m) || k in keys[..i]
      invariant forall k :: k in old(w.m) && k !in keys[..i] && k in w.m ==> w.m[k] == old(w.m)[k]
    {
      assert keys[..i + 1] == keys[..i] + [keys[i]];
      w.Put(keys[i], []);
    }
    assert keys[..|keys|] == keys;
    err := None;
  }

  // ------------------------------------------------------------------
  // The schema statements
  // ------------------------------------------------------------------

  method CreateTable(cat: SchemaCatalog, w: Memory, def: Table, ifNotExists: bool) returns (err: Option<Error>)
    requires cat.Sound(w) && WellFormed(def) && def.indexes == []
    modifies cat, w
    ensures old(cat.nextID) < 0xFFFF_FFFF ==> cat.Sound(w)
    ensures def.name in old(cat.tables) ==>
              && err == (if ifNotExists then None else Some(Exists))
              && cat.tables == old(cat.tables) && cat.nextID == old(cat.nextID) && w.m == old(w.m)
    ensures def.name !in old(cat.tables) ==>
              && err == None && cat.tables == old(cat.tables)[def.name := Created(def, old(cat.nextID))]
              && cat.nextID == Bump(old(cat.nextID))
              && w.m == CreateStore(cat.json, old(w.m), def, old(cat.nextID))
  {
    hide Inv, WellFormed, CreateStore, Created;
    if def.name in cat.tables {
      return if ifNotExists then None else Some(Exists);
    }
    CreateKeepsInv(cat.json, w.m, cat.tables, cat.nextID, def);
    var created := cat.Create(w, def);
    err := None;
  }

  lemma DropStoreIs(m: Store, t: Table)
    ensures DropStore(m, t) == WithoutTable(m, t) - {MetaTableKey(t.name)}
  {
  }

  method DropTable(cat: SchemaCatalog, w: Memory, name: Name, ifExists: bool) returns (err: Option<Error>)
    requires cat.Sound(w)
    modifies cat, w
    ensures cat.Sound(w) && cat.nextID == old(cat.nextID)
    ensures name !in old(cat.tables) ==>
              && err == (if ifExists then None else Some(NotFound))
              && cat.tables == old(cat.tables) && w.m == old(w.m)
    ensures name in old(cat.tables) ==>
              && err == None && cat.tables == old(cat.tables) - {name}
              && w.m == DropStore(old(w.m), old(cat.tables)[name])
              && forall k :: k in w.m ==> !Owned(old(cat.tables)[name], k)
  {
    if name !in cat.tables {
      return if ifExists then None else Some(NotFound);
    }
    hide *;
    SoundIs(cat, w);
    NamesFit(cat.json, w.m, cat.tables, cat.nextID);
    var t := cat.tables[name];
    DropKeepsInv(cat.json, w.m, cat.tables, cat.nextID, name);
    DropStoreIs(w.m, t);
    Catalog.DropTableData(w, t);
    err := cat.Drop(w, name);
    SoundIs(cat, w);
  }

  /** The new schema entry, then the entries for the rows already there. */
  method AddAndBuild(cat: SchemaCatalog, w: Memory, table: Name, name: Name, column: Name)
    returns (err: Option<Error>, ghost x: Index)
    requires cat.Sound(w) && table in cat.tables && cat.tables[table].ColumnIndex(column).Some?
    requires forall n, x :: n in cat.tables && x in cat.tables[n].indexes ==> x.name != name
    modifies cat`tables, w
    ensures err == None
    ensures old(cat.tables)[table].nextIndexId < 0xFFFF_FFFF ==> cat.Sound(w)
    ensures IndexAdded(old(cat.tables), cat.tables, table, name, column, x)
    ensures IndexedStore(cat.json, old(w.m), old(cat.tables)[table], x, table, w.m)
  {
    hide *;
    SoundIs(cat, w);
    NamesFit(cat.json, w.m, cat.tables, cat.nextID);
    ghost var rows := RowsOfTable(cat.json, w.m, cat.tables, cat.nextID, table);
    PathsFit(w.m, cat.tables[table], rows);
    var added := cat.AddIndex(w, table, name, column);
    x := added.value.1;
    IndexedShape(old(cat.tables)[table], x);
    IsFresh(old(cat.tables), table, name, column, x);
    IndexReady(old(w.m), old(cat.tables)[table], x, rows, table, cat.json.encode(added.value.0));
    err := BuildIndex(w, added.value.0, added.value.1, rows);
    BuiltById(w.m, old(w.m), old(cat.tables)[table], x, rows, table, cat.json.encode(added.value.0));
    CreateIndexKeepsInv(cat.json, old(w.m), w.m, old(cat.tables), cat.nextID, table, x, rows);
    StoreIndexed(cat.json, old(w.m), old(cat.tables)[table], x, table, w.m, rows);
    SoundIs(cat, w);
  }

  lemma SoundIs(cat: SchemaCatalog, w: Memory)
    ensures cat.Sound(w) <==> Inv(cat.json, w.m, cat.tables, cat.nextID)
  {
  }

  lemma NamesFit(json: Json, m: Store, tables: Tables, nextID: uint32)
    requires Inv(json, m, tables, nextID)
    ensures forall a :: a in tables ==> tables[a].name == a
  {
  }

  lemma IndexedShape(t: Table, x: Index)
    ensures Indexed(t, x).columns == t.columns && Indexed(t, x).pk == t.pk && Indexed(t, x).id == t.id
  {
  }

  lemma RowsOfTable(json: Json, m: Store, tables: Tables, nextID: uint32, table: Name) returns (rows: Rows)
    requires Inv(json, m, tables, nextID) && table in tables
    ensures Represents(m, tables[table], rows)
  {
    hide Represents, Recorded, Assigned, NoOrphans;
    assert Consistent(m, tables[table]);
    rows :| Represents(m, tables[table], rows);
  }

  lemma PathsFit(m: Store, t: Table, rows: Rows)
    requires Represents(m, t, rows)
    ensures t.pk < |t.columns|
  {
  }

  lemma IsFresh(tables: Tables, table: Name, name: Name, column: Name, x: Index)
    requires table in tables && tables[table].ColumnIndex(column).Some?
    requires forall n, y :: n in tables && y in tables[n].indexes ==> y.name != name
    requires x == Index(name, tables[table].nextIndexId, column, tables[table].ColumnIndex(column).value)
    ensures FreshIndex(tables, table, x) && x.pos < |tables[table].columns|
    ensures IndexAdded(tables, tables[table := Indexed(tables[table], x)], table, name, column, x)
  {
  }

  ghost predicate IndexAdded(was: Tables, now: Tables, table: Name, name: Name, column: Name, x: Index) {
    && FreshIndex(was, table, x) && x.name == name && x.column == column
    && now == was[table := Indexed(was[table], x)]
  }

  /** The schema entry and an entry for every row the table holds. */
  ghost predicate IndexedStore(json: Json, m: Store, t: Table, x: Index, table: Name, n: Store) {
    exists rows :: Represents(m, t, rows) && Built(m[MetaTableKey(table) := json.encode(Indexed(t, x))], n, t, x, rows)
  }

  lemma StoreIndexed(json: Json, m: Store, t: Table, x: Index, table: Name, n: Store, rows: Rows)
    requires Represents(m, t, rows) && Built(m[MetaTableKey(table) := json.encode(Indexed(t, x))], n, t, x, rows)
    ensures IndexedStore(json, m, t, x, table, n)
  {
    hide Represents, Built;
  }

  ghost predicate IndexNamed(tables: Tables, name: Name) {
    exists n, x :: n in tables && x in tables[n].indexes && x.name == name
  }

  method CreateIndex(cat: SchemaCatalog, w: Memory, table: Name, name: Name, column: Name, ifNotExists: bool)
    returns (err: Option<Error>, ghost added: Option<Index>)
    requires cat.Sound(w)
    modifies cat`tables, w
    ensures added.Some? ==>
              && err == None && table in old(cat.tables)
              && IndexAdded(old(cat.tables), cat.tables, table, name, column, added.value)
              && IndexedStore(cat.json, old(w.m), old(cat.tables)[table], added.value, table, w.m)
    ensures added.Some? && old(cat.tables)[table].nextIndexId < 0xFFFF_FFFF ==> cat.Sound(w)
    ensures added.None? ==> cat.tables == old(cat.tables) && w.m == old(w.m)
    ensures added.None? <==> table !in old(cat.tables) || old(cat.tables)[table].ColumnIndex(column).None? ||
                             IndexNamed(old(cat.tables), name)
    ensures added.None? && err == None ==> ifNotExists
  {
    hide Inv, IndexAdded, IndexedStore;
    if table !in cat.tables {
      return if ifNotExists then None else Some(NotFound), None;
    }
    if cat.tables[table].ColumnIndex(column).None? {
      return Some(NotFound), None;
    }
    var taken := cat.FindIndex(name);
    if taken.Some? {
      return if ifNotExists then None else Some(Exists), None;
    }
    ghost var x;
    err, x := AddAndBuild(cat, w, table, name, column);
    added := Some(x);
  }

  /** Recording the index in the schema leaves the rows readable under the new schema. */
  lemma IndexReady(m: Store, t: Table, x: Index, rows: Rows, table: Name, blob: bytes)
    requires Represents(m, t, rows) && x.pos < |t.columns|
    ensures Readable(m[MetaTableKey(table) := blob], Indexed(t, x), x, rows)
  {
    ReservedTableKey(table);
    RepresentsReserved(m, t, rows, MetaTableKey(table), blob);
    RowsById(m[MetaTableKey(table) := blob], t, Indexed(t, x), rows);
    forall p | p in rows ensures Typed(Indexed(t, x), rows[p]) {
      assert Typed(t, rows[p]);
    }
  }

  lemma BuiltById(n: Store, m: Store, t: Table, x: Index, rows: Rows, table: Name, blob: bytes)
    requires Built(m[MetaTableKey(table) := blob], n, Indexed(t, x), x, rows)
    ensures Built(m[MetaTableKey(table) := blob], n, t, x, rows)
  {
    forall k ensures EntryOf(Indexed(t, x), x, rows, k) <==> EntryOf(t, x, rows, k) {
    }
    hide EntryOf;
  }

  ghost predicate IndexDropped(was: Tables, now: Tables, name: Name, n: Name, x: Index) {
    n in was && x in was[n].indexes && x.name == name && now == was[n := Unindexed(was[n], name)]
  }

  lemma NotNamed(tables: Tables, name: Name)
    ensures (forall n, x :: n in tables && x in tables[n].indexes ==> x.name != name) <==> !IndexNamed(tables, name)
  {
  }

  /** Entries first, then the schema entry. */
  method DropIndex(cat: SchemaCatalog, w: Memory, name: Name, ifExists: bool)
    returns (err: Option<Error>, ghost dropped: Option<(Name, Index)>)
    requires cat.Sound(w)
    modifies cat`tables, w
    ensures cat.Sound(w)
    ensures dropped.None? ==>
              && err == (if ifExists then None else Some(NotFound)) && cat.tables == old(cat.tables) && w.m == old(w.m)
              && !IndexNamed(cat.tables, name)
    ensures dropped.Some? ==>
              && err == None && IndexDropped(old(cat.tables), cat.tables, name, dropped.value.0, dropped.value.1)
              && w.m == DropIndexStore(cat.json, old(w.m), old(cat.tables)[dropped.value.0], dropped.value.1)
              && forall k :: k in w.m ==> !(IndexPrefix(old(cat.tables)[dropped.value.0].id, dropped.value.1.id) <= k)
  {
    hide *;
    SoundIs(cat, w);
    var found := cat.FindIndex(name);
    dropped := found;
    NotNamed(cat.tables, name);
    if found.None? {
      return if ifExists then None else Some(NotFound), found;
    }
    RemoveFits(cat.json, w.m, cat.tables, cat.nextID, found.value.0, found.value.1);
    DropIndexKeepsInv(cat.json, w.m, cat.tables, cat.nextID, found.value.0, found.value.1);
    EntriesGone(cat.json, w.m, cat.tables[found.value.0], found.value.1);
    Catalog.DeletePrefix(w, IndexPrefix(cat.tables[found.value.0].id, found.value.1.id));
    var removed := cat.RemoveIndex(w, name);
    DroppedShape(cat.json, old(w.m), old(cat.tables), name, found.value.0, found.value.1);
    SoundIs(cat, w);
    err := None;
  }

  lemma DroppedShape(json: Json, m: Store, tables: Tables, name: Name, n: Name, x: Index)
    requires n in tables && x in tables[n].indexes && x.name == name && tables[n].name == n
    ensures IndexDropped(tables, tables[n := Unindexed(tables[n], name)], name, n, x)
    ensures Unindexed(tables[n], name).name == n
    ensures DropIndexStore(json, m, tables[n], x) ==
            Unprefixed(m, IndexPrefix(tables[n].id, x.id))[MetaTableKey(n) := json.encode(Unindexed(tables[n], name))]
  {
  }

  lemma RemoveFits(json: Json, m: Store, tables: Tables, nextID: uint32, n: Name, x: Index)
    requires Inv(json, m, tables, nextID) && n in tables && x in tables[n].indexes
    ensures forall a :: a in tables ==> tables[a].name == a
    ensures forall a, y :: a in tables && y in tables[a].indexes && y.name == x.name ==> a == n && y == x
  {
    OneOfThatName(tables, nextID, n, x);
  }

  lemma OneOfThatName(tables: Tables, nextID: uint32, n: Name, x: Index)
    requires Assigned(tables, nextID) && n in tables && x in tables[n].indexes
    ensures forall a, y :: a in tables && y in tables[a].indexes && y.name == x.name ==> a == n && y == x
  {
  }

  lemma EntriesGone(json: Json, m: Store, t: Table, x: Index)
    ensures forall k :: k in DropIndexStore(json, m, t, x) ==> !(IndexPrefix(t.id, x.id) <= k)
  {
    assert MetaTableKey(t.name)[0] == PREFIX_META && IndexPrefix(t.id, x.id)[0] == PREFIX_INDEX;
  }
}
