// The schema and where it is kept (catalog/catalog.go), with the bulk maintenance of exec/dml.go and
// the schema statements of conn.go.
module Catalog {
  import opened Bytes
  import opened Values
  import opened KeyCodec
  import opened Keys
  import opened RowCodec
  import opened Storage
  import opened Schema
  import opened Dml
  import opened Transactions

  /** The stored form of a schema, taken as given: JSON that decodes to what was encoded. */
  datatype Json = Json(encode: Table -> bytes, decode: bytes -> Result<Table>)

  ghost predicate Faithful(json: Json) { forall t :: json.decode(json.encode(t)) == Ok(t) }

  type Tables = map<Name, Table>

  // ------------------------------------------------------------------
  // The invariant
  // ------------------------------------------------------------------

  /** The store's catalog entries and counter are exactly the schema in memory. */
  ghost predicate Recorded(json: Json, m: Store, tables: Tables, nextID: uint32) {
    && (forall n :: n in tables ==>
          tables[n].name == n && MetaTableKey(n) in m && m[MetaTableKey(n)] == json.encode(tables[n]))
    && (forall k :: k in m && MetaTablePrefix() <= k ==> exists n :: n in tables && k == MetaTableKey(n))
    && (if MetaSeqKey() in m then m[MetaSeqKey()] == BE32(nextID) else nextID == 1)
  }

  ghost predicate IdsBelow(tables: Tables, nextID: uint32) {
    && 0 < nextID
    && (forall n :: n in tables ==> 0 < tables[n].id < nextID)
    && (forall a, b :: a in tables && b in tables && tables[a].id == tables[b].id ==> a == b)
  }

  ghost predicate IndexIdsBelow(t: Table) {
    0 < t.nextIndexId && forall x :: x in t.indexes ==> 0 < x.id < t.nextIndexId
  }

  ghost predicate IndexNamesUnique(tables: Tables) {
    forall a, b, x, y :: a in tables && b in tables && x in tables[a].indexes && y in tables[b].indexes && x.name == y.name
      ==> a == b && x == y
  }

  /** Identifiers lie below the counters and are not shared; index names are unique in the database. */
  ghost predicate Assigned(tables: Tables, nextID: uint32) {
    IdsBelow(tables, nextID) && IndexNamesUnique(tables) && forall n :: n in tables ==> IndexIdsBelow(tables[n])
  }

  predicate Reserved(k: bytes) { k == MetaSeqKey() || MetaTablePrefix() <= k }

  /** Every key is the catalog's own or belongs to a table that exists. */
  ghost predicate NoOrphans(m: Store, tables: Tables) {
    forall k :: k in m && !Reserved(k) ==> exists n :: n in tables && Owned(tables[n], k)
  }

  ghost predicate Inv(json: Json, m: Store, tables: Tables, nextID: uint32) {
    && Recorded(json, m, tables, nextID)
    && Assigned(tables, nextID)
    && NoOrphans(m, tables)
    && forall n :: n in tables ==> Consistent(m, tables[n])
  }

  lemma EmptyInv(json: Json)
    ensures Inv(json, map[], map[], 1)
  {
  }

  // ------------------------------------------------------------------
  // Keys of the catalog and keys of tables
  // ------------------------------------------------------------------

  lemma ReservedNotOwned(t: Table, k: bytes)
    requires Reserved(k)
    ensures !Owned(t, k)
  {
    assert [PREFIX_META] <= k;
    KeySpacesDisjoint(t.id, t.id, 0, k);
    forall x | x in t.indexes ensures !(IndexPrefix(t.id, x.id) <= k) {
      KeySpacesDisjoint(t.id, t.id, x.id, k);
    }
  }

  lemma TableKeysDiffer(a: Name, b: Name)
    ensures MetaTableKey(a) == MetaTableKey(b) <==> a == b
    ensures MetaTablePrefix() <= MetaTableKey(a) && MetaTableKey(a) != MetaSeqKey()
    ensures !(MetaTablePrefix() <= MetaSeqKey())
  {
    assert MetaTableKey(a)[2..] == a && MetaTableKey(b)[2..] == b;
    assert MetaTableKey(a)[1] == META_TABLE && MetaSeqKey()[1] == META_SEQ;
  }

  /** A store changed only in keys the table does not own holds what it held. */
  lemma KeptFrame(m: Store, n: Store, t: Table)
    requires forall k :: Owned(t, k) ==> Same(m, n, k)
    ensures RowsKept(m, t, n, t)
  {
    hide Represents, Owned;
    forall rows | Represents(m, t, rows) ensures Represents(n, t, rows) {
      RepresentsFrame(m, n, t, rows);
    }
  }

  lemma PutReservedKeeps(m: Store, t: Table, k: bytes, v: bytes)
    requires Reserved(k)
    ensures RowsKept(m, t, m[k := v], t)
  {
    ReservedNotOwned(t, k);
    hide Owned;
    KeptFrame(m, m[k := v], t);
  }

  // ------------------------------------------------------------------
  // CREATE TABLE
  // ------------------------------------------------------------------

  /** The identifier counter is a 32-bit one. */
  function Bump(n: uint32): uint32 { (n + 1) % 0x1_0000_0000 }

  function Created(def: Table, id: uint32): Table { def.(id := id, nextIndexId := 1) }

  function CreateStore(json: Json, m: Store, def: Table, id: uint32): Store {
    m[MetaSeqKey() := BE32(Bump(id))][MetaTableKey(def.name) := json.encode(Created(def, id))]
  }

  lemma FreshTableHolds(m: Store, tables: Tables, t: Table)
    requires NoOrphans(m, tables) && WellFormed(t) && t.indexes == []
    requires forall n :: n in tables ==> tables[n].id != t.id
    ensures Represents(m, t, map[])
  {
    forall k | k in m && DataPrefix(t.id) <= k ensures false {
      assert Owned(t, k);
      if Reserved(k) {
        ReservedNotOwned(t, k);
      } else {
        var n :| n in tables && Owned(tables[n], k);
        OwnedByOne(t, tables[n], k);
      }
    }
    forall p ensures RowKey(t.id, p) !in m {
      assert DataPrefix(t.id) <= RowKey(t.id, p);
    }
  }

  lemma CreateRecorded(json: Json, m: Store, tables: Tables, nextID: uint32, def: Table)
    requires Recorded(json, m, tables, nextID) && def.name !in tables
    ensures Recorded(json, CreateStore(json, m, def, nextID), tables[def.name := Created(def, nextID)], Bump(nextID))
  {
    var after, now := CreateStore(json, m, def, nextID), tables[def.name := Created(def, nextID)];
    TableKeysDiffer(def.name, def.name);
    forall n | n in now ensures now[n].name == n && MetaTableKey(n) in after && after[MetaTableKey(n)] == json.encode(now[n]) {
      TableKeysDiffer(n, def.name);
    }
    forall k | k in after && MetaTablePrefix() <= k ensures exists n :: n in now && k == MetaTableKey(n) {
      if k == MetaTableKey(def.name) {
        assert def.name in now;
      } else {
        var n :| n in tables && k == MetaTableKey(n);
        assert n in now;
      }
    }
  }

  lemma CreateAssigned(tables: Tables, nextID: uint32, def: Table)
    requires Assigned(tables, nextID) && def.name !in tables && def.indexes == []
    ensures Assigned(tables[def.name := Created(def, nextID)], Bump(nextID)) <==> nextID < 0xFFFF_FFFF
  {
    var now := tables[def.name := Created(def, nextID)];
    assert def.name in now;
  }

  /** Every table already there keeps its rows; the new one is empty. */
  lemma CreateKeepsRows(json: Json, m: Store, t: Table, nextID: uint32, def: Table)
    ensures RowsKept(m, t, CreateStore(json, m, def, nextID), t)
  {
    var mid := m[MetaSeqKey() := BE32(Bump(nextID))];
    hide RowsKept;
    ReservedTableKey(def.name);
    PutReservedKeeps(m, t, MetaSeqKey(), BE32(Bump(nextID)));
    PutReservedKeeps(mid, t, MetaTableKey(def.name), json.encode(Created(def, nextID)));
    KeptTransitive(m, t, mid, t, CreateStore(json, m, def, nextID), t);
  }

  lemma CreatedEmpty(json: Json, m: Store, tables: Tables, nextID: uint32, def: Table)
    requires Assigned(tables, nextID) && NoOrphans(m, tables) && WellFormed(def) && def.indexes == []
    ensures Represents(CreateStore(json, m, def, nextID), Created(def, nextID), map[])
  {
    FreshTableHolds(m, tables, Created(def, nextID));
    CreateKeepsRows(json, m, Created(def, nextID), nextID, def);
  }

  /** A new table keeps the catalog sound exactly as long as the identifier counter does not run over. */
  lemma CreateKeepsInv(json: Json, m: Store, tables: Tables, nextID: uint32, def: Table)
    requires Inv(json, m, tables, nextID)
    requires def.name !in tables && WellFormed(def) && def.indexes == []
    ensures Inv(json, CreateStore(json, m, def, nextID), tables[def.name := Created(def, nextID)], Bump(nextID)) <==>
            nextID < 0xFFFF_FFFF
    ensures Represents(CreateStore(json, m, def, nextID), Created(def, nextID), map[])
    ensures forall a :: a in tables ==> RowsKept(m, tables[a], CreateStore(json, m, def, nextID), tables[a])
  {
    hide Recorded, Assigned, NoOrphans, CreateStore, Created, Bump, WellFormed, RowsKept, Represents;
    var after, now, t := CreateStore(json, m, def, nextID), tables[def.name := Created(def, nextID)], Created(def, nextID);
    CreatedEmpty(json, m, tables, nextID, def);
    CreateAssigned(tables, nextID, def);
    CreateRecorded(json, m, tables, nextID, def);
    CreateNoOrphans(json, m, tables, nextID, def);
    forall a | a in tables ensures RowsKept(m, tables[a], after, tables[a]) {
      CreateKeepsRows(json, m, tables[a], nextID, def);
    }
    AllConsistent(m, after, tables, def.name, t, map[], now);
  }

  lemma CreateNoOrphans(json: Json, m: Store, tables: Tables, nextID: uint32, def: Table)
    requires NoOrphans(m, tables) && def.name !in tables
    ensures NoOrphans(CreateStore(json, m, def, nextID), tables[def.name := Created(def, nextID)])
  {
    hide Owned;
    var after, now := CreateStore(json, m, def, nextID), tables[def.name := Created(def, nextID)];
    TableKeysDiffer(def.name, def.name);
    forall k | k in after && !Reserved(k) ensures exists n :: n in now && Owned(now[n], k) {
      var n :| n in tables && Owned(tables[n], k);
      assert n in now && now[n] == tables[n];
    }
  }

  // ------------------------------------------------------------------
  // Deleting a range
  // ------------------------------------------------------------------

  function Outside(m: Store, start: Option<bytes>, end: Option<bytes>): Store {
    map k | k in m && !InInterval(k, start, end) :: m[k]
  }

  method CollectKeys(w: Memory, start: Option<bytes>, end: Option<bytes>) returns (keys: seq<bytes>)
    ensures keys == KeysTo(Listing(w.m, start, end), |Listing(w.m, start, end)|)
  {
    hide Listing;
    var it := w.Scan(start, end);
    keys := [];
    var ok := it.Next();
    while ok
      invariant 0 <= it.pos <= |it.entries| && ok == (it.pos < |it.entries|)
      invariant keys == KeysTo(it.entries, it.pos)
      decreases |it.entries| - it.pos
    {
      keys := keys + [it.entries[it.pos].key];
      ok := it.Next();
    }
  }

  function Removed(m: Store, keys: seq<bytes>): Store { m - (set k | k in keys) }

  lemma RemovedSnoc(m: Store, keys: seq<bytes>, k: bytes)
    ensures Removed(m, keys + [k]) == Removed(m, keys) - {k}
  {
  }

  /** Collects the keys of a range first and deletes them afterwards. */
  method DeleteRange(w: Memory, start: Option<bytes>, end: Option<bytes>)
    modifies w
    ensures w.m == Outside(old(w.m), start, end)
  {
    hide Listing, KeysTo, Outside;
    var keys := CollectKeys(w, start, end);
    ListedKeys(w.m, start, end);
    for i := 0 to |keys|
      invariant w.m == Removed(old(w.m), keys[..i])
    {
      assert keys[..i + 1] == keys[..i] + [keys[i]];
      RemovedSnoc(old(w.m), keys[..i], keys[i]);
      w.Delete(keys[i]);
    }
    assert keys[..|keys|] == keys;
  }

  function KeysTo(es: seq<Entry>, n: nat): (r: seq<bytes>)
    requires n <= |es|
    ensures |r| == n && forall i :: 0 <= i < n ==> r[i] == es[i].key
  {
    if n == 0 then [] else KeysTo(es, n - 1) + [es[n - 1].key]
  }

  lemma ListedKeys(m: Store, start: Option<bytes>, end: Option<bytes>)
    ensures var es := Listing(m, start, end);
            Removed(m, KeysTo(es, |es|)) == Outside(m, start, end)
  {
    var es := Listing(m, start, end);
    var inside := Inside(Lift(m), start, end);
    var ks := KeysTo(es, |es|);
    forall k ensures k in ks <==> k in inside {
      if k in inside {
        assert inside[k] in es;
        var i :| 0 <= i < |es| && es[i] == inside[k];
        assert ks[i] == k;
      }
      if k in ks {
        var i :| 0 <= i < |ks| && ks[i] == k;
        assert es[i] in es;
      }
    }
  }

  /** The store without the keys under a prefix. */
  function Unprefixed(m: Store, p: bytes): Store { map k | k in m && !(p <= k) :: m[k] }

  method DeletePrefix(w: Memory, p: bytes)
    modifies w
    ensures w.m == Unprefixed(old(w.m), p)
  {
    forall k ensures InInterval(k, Some(p), PrefixEnd(p)) <==> p <= k {
      PrefixInterval(p, k);
    }
    DeleteRange(w, Some(p), PrefixEnd(p));
  }

  ghost function WithoutTable(m: Store, t: Table): Store { map k | k in m && !Owned(t, k) :: m[k] }

  /** Every row of the table and every entry of its indexes goes, and nothing else. */
  method DropTableData(w: Memory, t: Table)
    modifies w
    ensures w.m == WithoutTable(old(w.m), t)
  {
    DeletePrefix(w, DataPrefix(t.id));
    for i := 0 to |t.indexes|
      invariant forall k :: k in w.m <==> k in old(w.m) && !(DataPrefix(t.id) <= k) &&
                                          forall j :: 0 <= j < i ==> !(IndexPrefix(t.id, t.indexes[j].id) <= k)
      invariant forall k :: k in w.m ==> w.m[k] == old(w.m)[k]
    {
      DeletePrefix(w, IndexPrefix(t.id, t.indexes[i].id));
    }
    assert forall k :: Owned(t, k) <==> DataPrefix(t.id) <= k ||
                                         exists j :: 0 <= j < |t.indexes| && IndexPrefix(t.id, t.indexes[j].id) <= k;
  }

  // ------------------------------------------------------------------
  // DROP TABLE
  // ------------------------------------------------------------------

  lemma SameTableById(tables: Tables, nextID: uint32, a: Name, b: Name, k: bytes)
    requires Assigned(tables, nextID) && a in tables && b in tables && Owned(tables[a], k) && Owned(tables[b], k)
    ensures a == b
  {
    OwnedByOne(tables[a], tables[b], k);
  }

  ghost function DropStore(m: Store, t: Table): Store { WithoutTable(m, t) - {MetaTableKey(t.name)} }

  lemma DropRecorded(json: Json, m: Store, tables: Tables, nextID: uint32, name: Name)
    requires Recorded(json, m, tables, nextID) && name in tables
    ensures Recorded(json, DropStore(m, tables[name]), tables - {name}, nextID)
  {
    hide Owned;
    var after, now, t := DropStore(m, tables[name]), tables - {name}, tables[name];
    ReservedNotOwned(t, MetaSeqKey());
    TableKeysDiffer(name, name);
    forall n | n in now ensures now[n].name == n && MetaTableKey(n) in after && after[MetaTableKey(n)] == json.encode(now[n]) {
      TableKeysDiffer(n, name);
      ReservedNotOwned(t, MetaTableKey(n));
    }
    forall k | k in after && MetaTablePrefix() <= k ensures exists n :: n in now && k == MetaTableKey(n) {
      var n :| n in tables && k == MetaTableKey(n);
      TableKeysDiffer(n, name);
      assert n in now;
    }
  }

  lemma DropKeepsRows(m: Store, tables: Tables, nextID: uint32, name: Name, n: Name)
    requires Assigned(tables, nextID) && name in tables && n in tables && n != name
    ensures RowsKept(m, tables[n], DropStore(m, tables[name]), tables[n])
  {
    forall k | Owned(tables[n], k) ensures Same(m, DropStore(m, tables[name]), k) {
      if Owned(tables[name], k) {
        SameTableById(tables, nextID, n, name, k);
      }
      if Reserved(k) {
        ReservedNotOwned(tables[n], k);
      }
    }
    hide Owned;
    KeptFrame(m, DropStore(m, tables[name]), tables[n]);
  }

  lemma DropNoOrphans(m: Store, tables: Tables, name: Name)
    requires NoOrphans(m, tables) && name in tables
    ensures NoOrphans(DropStore(m, tables[name]), tables - {name})
    ensures forall k :: k in DropStore(m, tables[name]) ==> !Owned(tables[name], k)
  {
    hide Owned;
    var after, now := DropStore(m, tables[name]), tables - {name};
    forall k | k in after && !Reserved(k) ensures exists n :: n in now && Owned(now[n], k) {
      var n :| n in tables && Owned(tables[n], k);
      assert n in now;
    }
  }

  lemma DropAssigned(tables: Tables, nextID: uint32, name: Name)
    requires Assigned(tables, nextID)
    ensures Assigned(tables - {name}, nextID)
  {
    assert forall n :: n in tables - {name} ==> n in tables && (tables - {name})[n] == tables[n];
  }

  /** Dropping a table leaves none of its keys behind and every other table as it was. */
  lemma DropKeepsInv(json: Json, m: Store, tables: Tables, nextID: uint32, name: Name)
    requires Inv(json, m, tables, nextID) && name in tables
    ensures Inv(json, DropStore(m, tables[name]), tables - {name}, nextID)
    ensures forall k :: k in DropStore(m, tables[name]) ==> !Owned(tables[name], k)
    ensures forall n :: n in tables && n != name ==> RowsKept(m, tables[n], DropStore(m, tables[name]), tables[n])
  {
    DropRecorded(json, m, tables, nextID, name);
    DropNoOrphans(m, tables, name);
    DropAssigned(tables, nextID, name);
    hide Owned, Recorded, Assigned, Consistent, NoOrphans, DropStore, RowsKept;
    var after := DropStore(m, tables[name]);
    forall n | n in tables && n != name ensures RowsKept(m, tables[n], after, tables[n]) && Consistent(after, tables[n]) {
      DropKeepsRows(m, tables, nextID, name, n);
      KeptConsistent(m, tables[n], after, tables[n]);
    }
    assert forall n :: n in tables - {name} ==> (tables - {name})[n] == tables[n];
  }

  // ------------------------------------------------------------------
  // CREATE INDEX
  // ------------------------------------------------------------------

  function Indexed(t: Table, x: Index): Table { t.(indexes := t.indexes + [x], nextIndexId := Bump(t.nextIndexId)) }

  /** The index entries the rows call for. */
  ghost predicate EntryOf(t: Table, x: Index, rows: Rows, k: bytes) {
    exists p :: p in rows && x.pos < |rows[p]| && k == IndexKey(t.id, x.id, rows[p][x.pos], p)
  }

  /** n is m with those entries added. */
  ghost predicate Built(m: Store, n: Store, t: Table, x: Index, rows: Rows) {
    forall k :: (k in n <==> k in m || EntryOf(t, x, rows, k)) && (k in m && !EntryOf(t, x, rows, k) && k in n ==> n[k] == m[k])
  }

  lemma NoEntriesYet(m: Store, tables: Tables, nextID: uint32, name: Name, x: Index, k: bytes)
    requires Assigned(tables, nextID) && NoOrphans(m, tables) && name in tables
    requires x.id == tables[name].nextIndexId && k in m
    ensures !(IndexPrefix(tables[name].id, x.id) <= k)
  {
    var t := tables[name];
    if IndexPrefix(t.id, x.id) <= k {
      var t' := t.(indexes := [x]);
      assert Owned(t', k);
      if Reserved(k) {
        ReservedNotOwned(t', k);
      } else {
        var n :| n in tables && Owned(tables[n], k);
        OwnedByOne(t', tables[n], k);
        if DataPrefix(tables[n].id) <= k {
          KeySpacesDisjoint(tables[n].id, t.id, x.id, k);
        } else {
          var y :| y in tables[n].indexes && IndexPrefix(tables[n].id, y.id) <= k;
          IndexPrefixesDisjoint(t.id, x.id, tables[n].id, y.id, k);
        }
      }
    }
  }

  lemma EntryPrefix(t: Table, x: Index, rows: Rows, k: bytes)
    requires EntryOf(t, x, rows, k)
    ensures IndexPrefix(t.id, x.id) <= k
    ensures !(DataPrefix(t.id) <= k)
    ensures forall y :: y in t.indexes && IndexPrefix(t.id, y.id) <= k ==> y.id == x.id
  {
    var p :| p in rows && x.pos < |rows[p]| && k == IndexKey(t.id, x.id, rows[p][x.pos], p);
    assert IndexPrefix(t.id, x.id) <= k;
    KeySpacesDisjoint(t.id, t.id, x.id, k);
    forall y | y in t.indexes && IndexPrefix(t.id, y.id) <= k ensures y.id == x.id {
      IndexPrefixesDisjoint(t.id, x.id, t.id, y.id, k);
    }
  }

  lemma RowsFrame(m: Store, n: Store, t: Table, rows: Rows)
    requires HoldsRows(m, t, rows) && forall k :: DataPrefix(t.id) <= k ==> Same(m, n, k)
    ensures HoldsRows(n, t, rows)
  {
    forall p ensures Same(m, n, RowKey(t.id, p)) {
      assert DataPrefix(t.id) <= RowKey(t.id, p);
    }
    forall k | k in n && DataPrefix(t.id) <= k ensures exists p :: k == RowKey(t.id, p) {
      assert Same(m, n, k);
    }
  }

  lemma IndexFrame(m: Store, n: Store, t: Table, y: Index, rows: Rows)
    requires TypedRows(t, rows) && y.pos < |t.columns| && HoldsIndex(m, t, y, rows)
    requires forall k :: IndexPrefix(t.id, y.id) <= k ==> Same(m, n, k)
    ensures HoldsIndex(n, t, y, rows)
  {
    forall v, p ensures Same(m, n, IndexKey(t.id, y.id, v, p)) {
      assert IndexPrefix(t.id, y.id) <= IndexKey(t.id, y.id, v, p);
    }
    forall k | k in n && IndexPrefix(t.id, y.id) <= k ensures exists v, p :: k == IndexKey(t.id, y.id, v, p) {
      assert Same(m, n, k);
    }
  }

  lemma BuiltRows(m: Store, n: Store, t: Table, x: Index, rows: Rows)
    requires HoldsRows(m, t, rows) && Built(m, n, t, x, rows)
    ensures HoldsRows(n, t, rows)
  {
    hide EntryOf, HoldsRows;
    forall k | DataPrefix(t.id) <= k ensures Same(m, n, k) {
      if EntryOf(t, x, rows, k) {
        EntryPrefix(t, x, rows, k);
      }
    }
    RowsFrame(m, n, t, rows);
  }

  lemma BuiltOther(m: Store, n: Store, t: Table, x: Index, rows: Rows, y: Index)
    requires TypedRows(t, rows) && y in t.indexes && y.pos < |t.columns| && y.id != x.id
    requires HoldsIndex(m, t, y, rows) && Built(m, n, t, x, rows)
    ensures HoldsIndex(n, t, y, rows)
  {
    hide EntryOf, HoldsIndex;
    forall k | IndexPrefix(t.id, y.id) <= k ensures Same(m, n, k) {
      if EntryOf(t, x, rows, k) {
        EntryPrefix(t, x, rows, k);
      }
    }
    IndexFrame(m, n, t, y, rows);
  }

  lemma BuiltNew(m: Store, n: Store, t: Table, x: Index, rows: Rows)
    requires TypedRows(t, rows) && x.pos < |t.columns| && Built(m, n, t, x, rows)
    requires forall k :: k in m ==> !(IndexPrefix(t.id, x.id) <= k)
    ensures HoldsIndex(n, t, x, rows)
  {
    forall v, p ensures IndexKey(t.id, x.id, v, p) in n <==> p in rows && rows[p][x.pos] == v {
      assert IndexPrefix(t.id, x.id) <= IndexKey(t.id, x.id, v, p);
      if EntryOf(t, x, rows, IndexKey(t.id, x.id, v, p)) {
        var q :| q in rows && x.pos < |rows[q]| && IndexKey(t.id, x.id, v, p) == IndexKey(t.id, x.id, rows[q][x.pos], q);
        IndexKeyInjective(t.id, x.id, v, p, t.id, x.id, rows[q][x.pos], q);
      }
    }
    forall k | k in n && IndexPrefix(t.id, x.id) <= k ensures exists v, p :: k == IndexKey(t.id, x.id, v, p) {
      assert EntryOf(t, x, rows, k);
      var q :| q in rows && x.pos < |rows[q]| && k == IndexKey(t.id, x.id, rows[q][x.pos], q);
    }
  }

  /** A new index built from the rows is in step with them. */
  lemma BuiltHolds(m: Store, n: Store, t: Table, x: Index, rows: Rows)
    requires Represents(m, t, rows) && Built(m, n, t, x, rows)
    requires x.pos < |t.columns| && t.columns[x.pos].name == x.column && forall y :: y in t.indexes ==> y.id != x.id
    requires forall k :: k in m ==> !(IndexPrefix(t.id, x.id) <= k)
    ensures Represents(n, Indexed(t, x), rows)
  {
    hide Built, HoldsRows, HoldsIndex;
    var u := Indexed(t, x);
    BuiltRows(m, n, t, x, rows);
    RowsById(n, t, u, rows);
    assert TypedRows(u, rows) && WellFormed(u);
    forall y | y in u.indexes ensures HoldsIndex(n, u, y, rows) {
      if y == x {
        BuiltNew(m, n, t, x, rows);
      } else {
        assert y in t.indexes;
        BuiltOther(m, n, t, x, rows, y);
      }
      IndexById(n, t, u, y, rows);
    }
  }

  lemma RowsById(m: Store, t: Table, u: Table, rows: Rows)
    requires t.id == u.id
    ensures HoldsRows(m, t, rows) <==> HoldsRows(m, u, rows)
  {
  }

  lemma IndexById(m: Store, t: Table, u: Table, x: Index, rows: Rows)
    requires t.id == u.id && t.columns == u.columns && t.pk == u.pk && TypedRows(t, rows) && TypedRows(u, rows) && x.pos < |t.columns|
    ensures HoldsIndex(m, t, x, rows) <==> HoldsIndex(m, u, x, rows)
  {
  }

  /** What AddIndex is asked to record: a fresh number and name, and a column that exists. */
  ghost predicate FreshIndex(tables: Tables, table: Name, x: Index) {
    && table in tables && x.id == tables[table].nextIndexId && x.pos < |tables[table].columns|
    && tables[table].columns[x.pos].name == x.column
    && forall n, y :: n in tables && y in tables[n].indexes ==> y.name != x.name
  }

  lemma IndexIdsAfter(t: Table, x: Index)
    requires IndexIdsBelow(t) && x.id == t.nextIndexId
    ensures IndexIdsBelow(Indexed(t, x)) <==> x.id < 0xFFFF_FFFF
  {
    assert x in Indexed(t, x).indexes;
  }

  lemma IndexNamesAfter(tables: Tables, table: Name, x: Index)
    requires IndexNamesUnique(tables) && FreshIndex(tables, table, x)
    ensures IndexNamesUnique(tables[table := Indexed(tables[table], x)])
  {
    var now := tables[table := Indexed(tables[table], x)];
    forall a, b, y, z | a in now && b in now && y in now[a].indexes && z in now[b].indexes && y.name == z.name
      ensures a == b && y == z
    {
      assert y in tables[a].indexes || (a == table && y == x);
      assert z in tables[b].indexes || (b == table && z == x);
    }
  }

  lemma IndexAssigned(tables: Tables, nextID: uint32, table: Name, x: Index)
    requires Assigned(tables, nextID) && FreshIndex(tables, table, x)
    ensures Assigned(tables[table := Indexed(tables[table], x)], nextID) <==> x.id < 0xFFFF_FFFF
  {
    hide IndexNamesUnique, IndexIdsBelow;
    var now := tables[table := Indexed(tables[table], x)];
    IndexIdsAfter(tables[table], x);
    IndexNamesAfter(tables, table, x);
    assert IdsBelow(now, nextID);
    assert table in now;
  }

  lemma IndexRecorded(json: Json, m: Store, tables: Tables, nextID: uint32, table: Name, u: Table)
    requires Recorded(json, m, tables, nextID) && table in tables && u.name == table
    ensures Recorded(json, m[MetaTableKey(table) := json.encode(u)], tables[table := u], nextID)
  {
    var after, now := m[MetaTableKey(table) := json.encode(u)], tables[table := u];
    TableKeysDiffer(table, table);
    forall n | n in now ensures now[n].name == n && MetaTableKey(n) in after && after[MetaTableKey(n)] == json.encode(now[n]) {
      TableKeysDiffer(n, table);
    }
    forall k | k in after && MetaTablePrefix() <= k ensures exists n :: n in now && k == MetaTableKey(n) {
      if k != MetaTableKey(table) {
        var n :| n in tables && k == MetaTableKey(n);
        assert n in now;
      }
    }
  }

  /** The catalog's part of the store is all that Recorded looks at. */
  lemma RecordedFrame(json: Json, m: Store, n: Store, tables: Tables, nextID: uint32)
    requires Recorded(json, m, tables, nextID) && forall k :: Reserved(k) ==> Same(m, n, k)
    ensures Recorded(json, n, tables, nextID)
  {
    forall a ensures Reserved(MetaTableKey(a)) {
      TableKeysDiffer(a, a);
    }
    forall a | a in tables ensures MetaTableKey(a) in n && n[MetaTableKey(a)] == json.encode(tables[a]) {
      assert Same(m, n, MetaTableKey(a));
    }
    forall k | k in n && MetaTablePrefix() <= k ensures exists a :: a in tables && k == MetaTableKey(a) {
      assert Same(m, n, k);
    }
    assert Same(m, n, MetaSeqKey());
  }

  lemma EntryNotReserved(t: Table, x: Index, rows: Rows, k: bytes)
    requires EntryOf(t, x, rows, k)
    ensures !Reserved(k) && Owned(Indexed(t, x), k)
  {
    EntryPrefix(t, x, rows, k);
    assert x in Indexed(t, x).indexes;
    assert Owned(Indexed(t, x), k);
    if Reserved(k) {
      ReservedNotOwned(Indexed(t, x), k);
    }
  }

  lemma BuiltReserved(json: Json, m: Store, n: Store, tables: Tables, nextID: uint32, t: Table, x: Index, rows: Rows)
    requires Recorded(json, m, tables, nextID) && Built(m, n, t, x, rows)
    ensures Recorded(json, n, tables, nextID)
  {
    hide EntryOf, Recorded;
    forall k | Reserved(k) ensures Same(m, n, k) {
      if EntryOf(t, x, rows, k) {
        EntryNotReserved(t, x, rows, k);
      }
    }
    hide Reserved;
    RecordedFrame(json, m, n, tables, nextID);
  }

  lemma OwnedWidens(t: Table, x: Index, k: bytes)
    requires Owned(t, k)
    ensures Owned(Indexed(t, x), k)
  {
    if !(DataPrefix(t.id) <= k) {
      var y :| y in t.indexes && IndexPrefix(t.id, y.id) <= k;
      assert y in Indexed(t, x).indexes;
    }
  }

  lemma BuiltNoOrphans(m: Store, n: Store, tables: Tables, table: Name, x: Index, rows: Rows)
    requires NoOrphans(m, tables) && table in tables && Built(m, n, tables[table], x, rows)
    ensures NoOrphans(n, tables[table := Indexed(tables[table], x)])
  {
    hide EntryOf, Owned;
    var now := tables[table := Indexed(tables[table], x)];
    forall k | k in n && !Reserved(k) ensures exists a :: a in now && Owned(now[a], k) {
      if EntryOf(tables[table], x, rows, k) {
        EntryNotReserved(tables[table], x, rows, k);
        assert table in now;
      } else {
        var a :| a in tables && Owned(tables[a], k);
        OwnedWidens(tables[a], x, k);
        assert a in now;
      }
    }
  }

  lemma BuiltElsewhere(m: Store, n: Store, tables: Tables, nextID: uint32, table: Name, x: Index, rows: Rows, a: Name)
    requires Assigned(tables, nextID) && table in tables && Built(m, n, tables[table], x, rows)
    requires a in tables && a != table
    ensures RowsKept(m, tables[a], n, tables[a])
  {
    hide EntryOf;
    forall k | Owned(tables[a], k) ensures Same(m, n, k) {
      if EntryOf(tables[table], x, rows, k) {
        EntryNotReserved(tables[table], x, rows, k);
        OwnedByOne(tables[a], Indexed(tables[table], x), k);
      }
    }
    hide Owned;
    KeptFrame(m, n, tables[a]);
  }

  /**
   * CREATE INDEX, schema entry and entries for the existing rows together, keeps everything in step
   * exactly as long as the table's index counter does not run over.
   */
  lemma CreateIndexKeepsInv(json: Json, m: Store, n: Store, tables: Tables, nextID: uint32, table: Name, x: Index, rows: Rows)
    requires Inv(json, m, tables, nextID) && FreshIndex(tables, table, x)
    requires Represents(m, tables[table], rows)
    requires Built(m[MetaTableKey(table) := json.encode(Indexed(tables[table], x))], n, tables[table], x, rows)
    ensures Inv(json, n, tables[table := Indexed(tables[table], x)], nextID) <==> x.id < 0xFFFF_FFFF
    ensures Represents(n, Indexed(tables[table], x), rows)
    ensures forall a :: a in tables && a != table ==> RowsKept(m, tables[a], n, tables[a])
  {
    var u := Indexed(tables[table], x);
    var now := tables[table := u];
    hide Represents, Recorded, NoOrphans, Built, Assigned, Indexed, Owned, Reserved, FreshIndex, RowsKept;
    IndexAssigned(tables, nextID, table, x);
    NewIndexKeeps(json, m, n, tables, nextID, table, x, rows);
    NewIndexHolds(json, m, n, tables, nextID, table, x, rows);
    OthersKept(json, m, n, tables, nextID, table, x, rows);
    AllConsistent(m, n, tables, table, u, rows, now);
  }

  lemma AllConsistent(m: Store, n: Store, tables: Tables, table: Name, u: Table, rows: Rows, now: Tables)
    requires now == tables[table := u] && (forall a :: a in tables ==> Consistent(m, tables[a])) && Represents(n, u, rows)
    requires forall a :: a in tables && a != table ==> RowsKept(m, tables[a], n, tables[a])
    ensures forall a :: a in now ==> Consistent(n, now[a])
  {
    hide Represents, RowsKept;
    forall a | a in tables && a != table ensures Consistent(n, tables[a]) {
      KeptConsistent(m, tables[a], n, tables[a]);
    }
  }

  /** The catalog's own keys record the new index, and its entries have an owner. */
  lemma NewIndexKeeps(json: Json, m: Store, n: Store, tables: Tables, nextID: uint32, table: Name, x: Index, rows: Rows)
    requires Inv(json, m, tables, nextID) && FreshIndex(tables, table, x)
    requires Built(m[MetaTableKey(table) := json.encode(Indexed(tables[table], x))], n, tables[table], x, rows)
    ensures Recorded(json, n, tables[table := Indexed(tables[table], x)], nextID)
    ensures NoOrphans(n, tables[table := Indexed(tables[table], x)])
  {
    var t, u := tables[table], Indexed(tables[table], x);
    var mid := m[MetaTableKey(table) := json.encode(u)];
    RecordedName(json, m, tables, nextID, table);
    assert u.name == table;
    hide Represents, Recorded, NoOrphans, Built, Assigned, Indexed, Owned, Reserved, Consistent;
    IndexRecorded(json, m, tables, nextID, table, u);
    BuiltReserved(json, mid, n, tables[table := u], nextID, t, x, rows);
    PutReservedOrphans(m, tables, table, json.encode(u));
    BuiltNoOrphans(mid, n, tables, table, x, rows);
  }

  /** The indexed table is held with its new index. */
  lemma NewIndexHolds(json: Json, m: Store, n: Store, tables: Tables, nextID: uint32, table: Name, x: Index, rows: Rows)
    requires Inv(json, m, tables, nextID) && FreshIndex(tables, table, x) && Represents(m, tables[table], rows)
    requires Built(m[MetaTableKey(table) := json.encode(Indexed(tables[table], x))], n, tables[table], x, rows)
    ensures Represents(n, Indexed(tables[table], x), rows)
  {
    var t, u := tables[table], Indexed(tables[table], x);
    var mid := m[MetaTableKey(table) := json.encode(u)];
    NewIndexFits(tables, nextID, table, x);
    hide Represents, Recorded, NoOrphans, Built, Assigned, Indexed, Owned, Reserved, FreshIndex;
    PutReservedOrphans(m, tables, table, json.encode(u));
    forall k | k in mid ensures !(IndexPrefix(t.id, x.id) <= k) {
      NoEntriesYet(mid, tables, nextID, table, x, k);
    }
    RepresentsReserved(m, t, rows, MetaTableKey(table), json.encode(u));
    BuiltHolds(mid, n, t, x, rows);
  }

  lemma NewIndexFits(tables: Tables, nextID: uint32, table: Name, x: Index)
    requires Assigned(tables, nextID) && FreshIndex(tables, table, x)
    ensures x.id == tables[table].nextIndexId && x.pos < |tables[table].columns|
    ensures tables[table].columns[x.pos].name == x.column && forall y :: y in tables[table].indexes ==> y.id != x.id
  {
    var t := tables[table];
    forall y | y in t.indexes ensures y.id != x.id {
    }
  }

  /** The build leaves every other table as it was. */
  lemma OthersKept(json: Json, m: Store, n: Store, tables: Tables, nextID: uint32, table: Name, x: Index, rows: Rows)
    requires Assigned(tables, nextID) && table in tables
    requires Built(m[MetaTableKey(table) := json.encode(Indexed(tables[table], x))], n, tables[table], x, rows)
    ensures forall a :: a in tables && a != table ==> RowsKept(m, tables[a], n, tables[a])
  {
    var u := Indexed(tables[table], x);
    var mid := m[MetaTableKey(table) := json.encode(u)];
    hide Built, Assigned, Indexed, Reserved, RowsKept;
    forall a | a in tables && a != table ensures RowsKept(m, tables[a], n, tables[a]) {
      ReservedTableKey(table);
      PutReservedKeeps(m, tables[a], MetaTableKey(table), json.encode(u));
      BuiltElsewhere(mid, n, tables, nextID, table, x, rows, a);
      KeptTransitive(m, tables[a], mid, tables[a], n, tables[a]);
    }
  }

  lemma PutReservedOrphans(m: Store, tables: Tables, table: Name, blob: bytes)
    requires NoOrphans(m, tables)
    ensures NoOrphans(m[MetaTableKey(table) := blob], tables) && Reserved(MetaTableKey(table))
  {
    hide Owned;
    TableKeysDiffer(table, table);
  }

  lemma RepresentsReserved(m: Store, t: Table, rows: Rows, k: bytes, v: bytes)
    requires Represents(m, t, rows) && Reserved(k)
    ensures Represents(m[k := v], t, rows)
  {
    hide Represents;
    forall o | Owned(t, o) ensures Same(m, m[k := v], o) {
      if o == k {
        ReservedNotOwned(t, k);
      }
    }
    hide Owned;
    RepresentsFrame(m, m[k := v], t, rows);
  }

  // ------------------------------------------------------------------
  // DROP INDEX
  // ------------------------------------------------------------------

  function WithoutNamed(xs: seq<Index>, name: Name): (r: seq<Index>)
    ensures forall x :: x in r <==> x in xs && x.name != name
  {
    if xs == [] then []
    else
      var front := WithoutNamed(xs[..|xs| - 1], name);
      assert xs == xs[..|xs| - 1] + [xs[|xs| - 1]];
      if xs[|xs| - 1].name != name then front + [xs[|xs| - 1]] else front
  }

  predicate DistinctIndexIds(xs: seq<Index>) { forall i, j :: 0 <= i < j < |xs| ==> xs[i].id != xs[j].id }

  lemma WithoutNamedLast(xs: seq<Index>, name: Name)
    requires xs != []
    ensures var n := |xs| - 1;
            WithoutNamed(xs, name) == WithoutNamed(xs[..n], name) + if xs[n].name != name then [xs[n]] else []
  {
  }

  lemma OthersDistinct(xs: seq<Index>, name: Name)
    requires DistinctIndexIds(xs) && xs != []
    ensures forall x :: x in WithoutNamed(xs[..|xs| - 1], name) ==> x.id != xs[|xs| - 1].id
  {
    var n := |xs| - 1;
    forall x | x in WithoutNamed(xs[..n], name) ensures x.id != xs[n].id {
      assert x in xs[..n];
      var j :| 0 <= j < n && xs[..n][j] == x;
      assert xs[j].id == x.id;
    }
  }

  lemma {:induction false} WithoutNamedDistinct(xs: seq<Index>, name: Name)
    requires DistinctIndexIds(xs)
    ensures DistinctIndexIds(WithoutNamed(xs, name))
  {
    if xs != [] {
      var n := |xs| - 1;
      WithoutNamedDistinct(xs[..n], name);
      OthersDistinct(xs, name);
      WithoutNamedLast(xs, name);
      hide WithoutNamed;
      var front := WithoutNamed(xs[..n], name);
      assert forall i :: 0 <= i < |front| ==> front[i] in front;
    }
  }

  function Unindexed(t: Table, name: Name): Table { t.(indexes := WithoutNamed(t.indexes, name)) }

  function DropIndexStore(json: Json, m: Store, t: Table, x: Index): Store {
    Unprefixed(m, IndexPrefix(t.id, x.id))[MetaTableKey(t.name) := json.encode(Unindexed(t, x.name))]
  }

  lemma UnindexedShape(t: Table, name: Name, rows: Rows)
    requires WellFormed(t) && TypedRows(t, rows)
    ensures WellFormed(Unindexed(t, name)) && TypedRows(Unindexed(t, name), rows)
  {
    WithoutNamedDistinct(t.indexes, name);
    forall p | p in rows ensures Typed(Unindexed(t, name), rows[p]) {
      assert Typed(t, rows[p]);
    }
  }

  lemma UnprefixedSame(m: Store, p: bytes, k: bytes)
    requires !(p <= k)
    ensures Same(m, Unprefixed(m, p), k)
  {
  }

  /** A table survives the loss of one index's keys if that index is gone from its schema. */
  lemma UnindexedHolds(m: Store, t: Table, x: Index, rows: Rows)
    requires Represents(m, t, rows) && x in t.indexes
    requires forall y :: y in t.indexes && y.name == x.name ==> y == x
    ensures Represents(Unprefixed(m, IndexPrefix(t.id, x.id)), Unindexed(t, x.name), rows)
  {
    var p, n, u := IndexPrefix(t.id, x.id), Unprefixed(m, IndexPrefix(t.id, x.id)), Unindexed(t, x.name);
    UnindexedShape(t, x.name, rows);
    hide Unprefixed, HoldsRows, HoldsIndex;
    forall k | DataPrefix(t.id) <= k ensures Same(m, n, k) {
      KeySpacesDisjoint(t.id, t.id, x.id, k);
      UnprefixedSame(m, p, k);
    }
    RowsFrame(m, n, t, rows);
    RowsById(n, t, u, rows);
    forall y | y in u.indexes ensures HoldsIndex(n, u, y, rows) {
      assert y in t.indexes && y != x && y.id != x.id;
      forall k | IndexPrefix(t.id, y.id) <= k ensures Same(m, n, k) {
        if p <= k {
          IndexPrefixesDisjoint(t.id, x.id, t.id, y.id, k);
        } else {
          UnprefixedSame(m, p, k);
        }
      }
      IndexFrame(m, n, t, y, rows);
      IndexById(n, t, u, y, rows);
    }
  }

  lemma UnindexedAssigned(tables: Tables, nextID: uint32, table: Name, name: Name)
    requires Assigned(tables, nextID) && table in tables
    ensures Assigned(tables[table := Unindexed(tables[table], name)], nextID)
  {
    var now := tables[table := Unindexed(tables[table], name)];
    forall a, y | a in now && y in now[a].indexes ensures a in tables && y in tables[a].indexes {
    }
  }

  lemma UnprefixedElsewhere(m: Store, tables: Tables, nextID: uint32, table: Name, x: Index, a: Name)
    requires Assigned(tables, nextID) && table in tables && x in tables[table].indexes
    requires a in tables && a != table
    ensures RowsKept(m, tables[a], Unprefixed(m, IndexPrefix(tables[table].id, x.id)), tables[a])
  {
    var p := IndexPrefix(tables[table].id, x.id);
    forall k | Owned(tables[a], k) ensures Same(m, Unprefixed(m, p), k) {
      if p <= k {
        assert Owned(tables[table], k);
        SameTableById(tables, nextID, a, table, k);
      }
    }
    hide Owned;
    KeptFrame(m, Unprefixed(m, p), tables[a]);
  }

  lemma StillOwned(t: Table, x: Index, k: bytes)
    requires Owned(t, k) && !(IndexPrefix(t.id, x.id) <= k) && forall y :: y in t.indexes && y.name == x.name ==> y == x
    ensures Owned(Unindexed(t, x.name), k)
  {
    if !(DataPrefix(t.id) <= k) {
      var y :| y in t.indexes && IndexPrefix(t.id, y.id) <= k;
      assert y in Unindexed(t, x.name).indexes;
    }
  }

  lemma UnprefixedOrphans(m: Store, tables: Tables, table: Name, x: Index)
    requires NoOrphans(m, tables) && table in tables
    requires forall y :: y in tables[table].indexes && y.name == x.name ==> y == x
    ensures NoOrphans(Unprefixed(m, IndexPrefix(tables[table].id, x.id)), tables[table := Unindexed(tables[table], x.name)])
  {
    hide Owned, Unindexed;
    var t, now := tables[table], tables[table := Unindexed(tables[table], x.name)];
    forall k | k in Unprefixed(m, IndexPrefix(t.id, x.id)) && !Reserved(k) ensures exists a :: a in now && Owned(now[a], k) {
      var a :| a in tables && Owned(tables[a], k);
      if a == table {
        StillOwned(t, x, k);
      }
      assert a in now && Owned(now[a], k);
    }
  }

  lemma UnprefixedRecorded(json: Json, m: Store, tables: Tables, nextID: uint32, t: Table, x: Index)
    requires Recorded(json, m, tables, nextID)
    ensures Recorded(json, Unprefixed(m, IndexPrefix(t.id, x.id)), tables, nextID)
  {
    hide Recorded;
    forall k | Reserved(k) ensures Same(m, Unprefixed(m, IndexPrefix(t.id, x.id)), k) {
      assert [PREFIX_META] <= k;
      KeySpacesDisjoint(t.id, t.id, x.id, k);
    }
    hide Reserved;
    RecordedFrame(json, m, Unprefixed(m, IndexPrefix(t.id, x.id)), tables, nextID);
  }

  lemma NamesakeIsSame(tables: Tables, nextID: uint32, table: Name, x: Index)
    requires Assigned(tables, nextID) && table in tables && x in tables[table].indexes
    ensures forall y :: y in tables[table].indexes && y.name == x.name ==> y == x
  {
  }

  lemma UnindexedTableKept(m: Store, t: Table, x: Index)
    requires x in t.indexes && forall y :: y in t.indexes && y.name == x.name ==> y == x
    ensures RowsKept(m, t, Unprefixed(m, IndexPrefix(t.id, x.id)), Unindexed(t, x.name))
  {
    hide Represents;
    forall rows | Represents(m, t, rows) ensures Represents(Unprefixed(m, IndexPrefix(t.id, x.id)), Unindexed(t, x.name), rows) {
      UnindexedHolds(m, t, x, rows);
    }
  }

  lemma RecordedName(json: Json, m: Store, tables: Tables, nextID: uint32, table: Name)
    requires Recorded(json, m, tables, nextID) && table in tables
    ensures tables[table].name == table
  {
  }

  lemma DropIndexKeepsRows(json: Json, m: Store, tables: Tables, nextID: uint32, table: Name, x: Index, a: Name)
    requires Assigned(tables, nextID) && table in tables && x in tables[table].indexes && tables[table].name == table
    requires a in tables
    requires forall y :: y in tables[table].indexes && y.name == x.name ==> y == x
    ensures RowsKept(m, tables[a], DropIndexStore(json, m, tables[table], x), tables[table := Unindexed(tables[table], x.name)][a])
  {
    hide Assigned, Unindexed, Reserved, Unprefixed, RowsKept;
    var mid := Unprefixed(m, IndexPrefix(tables[table].id, x.id));
    var u := Unindexed(tables[table], x.name);
    var now := tables[table := u][a];
    if a != table {
      UnprefixedElsewhere(m, tables, nextID, table, x, a);
    } else {
      UnindexedTableKept(m, tables[table], x);
    }
    ReservedTableKey(table);
    PutReservedKeeps(mid, now, MetaTableKey(table), json.encode(u));
    UnindexedName(tables[table], x.name);
    KeptTransitive(m, tables[a], mid, now, DropIndexStore(json, m, tables[table], x), now);
  }

  lemma UnindexedName(t: Table, name: Name)
    ensures Unindexed(t, name).name == t.name
  {
  }

  lemma ReservedTableKey(n: Name)
    ensures Reserved(MetaTableKey(n))
  {
    TableKeysDiffer(n, n);
  }

  /** DROP INDEX removes exactly that index's entries and leaves everything else in step. */
  lemma DropIndexKeepsInv(json: Json, m: Store, tables: Tables, nextID: uint32, table: Name, x: Index)
    requires Inv(json, m, tables, nextID) && table in tables && x in tables[table].indexes
    ensures Inv(json, DropIndexStore(json, m, tables[table], x), tables[table := Unindexed(tables[table], x.name)], nextID)
    ensures forall a :: a in tables ==>
              RowsKept(m, tables[a], DropIndexStore(json, m, tables[table], x), tables[table := Unindexed(tables[table], x.name)][a])
  {
    hide Recorded, NoOrphans, Assigned, Reserved, Owned, Unprefixed, Consistent, RowsKept;
    var t, u := tables[table], Unindexed(tables[table], x.name);
    RecordedName(json, m, tables, nextID, table);
    var mid, after := Unprefixed(m, IndexPrefix(t.id, x.id)), DropIndexStore(json, m, t, x);
    NamesakeIsSame(tables, nextID, table, x);
    UnprefixedRecorded(json, m, tables, nextID, t, x);
    IndexRecorded(json, mid, tables, nextID, table, u);
    UnprefixedOrphans(m, tables, table, x);
    PutReservedOrphans(mid, tables[table := u], table, json.encode(u));
    UnindexedAssigned(tables, nextID, table, x.name);
    var now := tables[table := u];
    hide DropIndexStore;
    forall a | a in tables ensures RowsKept(m, tables[a], after, now[a]) && Consistent(after, now[a]) {
      DropIndexKeepsRows(json, m, tables, nextID, table, x, a);
      KeptConsistent(m, tables[a], after, now[a]);
    }
  }

  // ------------------------------------------------------------------
  // Row writes between schema statements
  // ------------------------------------------------------------------

  lemma WritesKeepRecorded(json: Json, m: Store, n: Store, tables: Tables, nextID: uint32, name: Name)
    requires Recorded(json, m, tables, nextID) && name in tables && RowsWritten(m, n, tables[name])
    ensures Recorded(json, n, tables, nextID)
  {
    hide Recorded, Consistent;
    forall k | Reserved(k) ensures Same(m, n, k) {
      ReservedNotOwned(tables[name], k);
    }
    hide Reserved;
    RecordedFrame(json, m, n, tables, nextID);
  }

  lemma WritesKeepOthers(m: Store, n: Store, tables: Tables, nextID: uint32, name: Name)
    requires Assigned(tables, nextID) && name in tables && Confined(m, n, tables[name])
    ensures forall a :: a in tables && a != name ==> RowsKept(m, tables[a], n, tables[a])
  {
    hide Owned, RowsKept, Assigned;
    forall a | a in tables && a != name ensures RowsKept(m, tables[a], n, tables[a]) {
      forall k | Owned(tables[a], k) ensures Same(m, n, k) {
        if Owned(tables[name], k) {
          SameTableById(tables, nextID, a, name, k);
        }
      }
      KeptFrame(m, n, tables[a]);
    }
  }

  lemma WritesNoOrphans(m: Store, n: Store, tables: Tables, name: Name)
    requires NoOrphans(m, tables) && name in tables && Confined(m, n, tables[name])
    ensures NoOrphans(n, tables)
  {
    hide Owned, Reserved;
    forall k | k in n && !Reserved(k) ensures exists a :: a in tables && Owned(tables[a], k) {
      if !Owned(tables[name], k) {
        assert Same(m, n, k);
      }
    }
  }

  lemma RowsKeepInv(json: Json, m: Store, n: Store, tables: Tables, nextID: uint32, name: Name)
    requires Inv(json, m, tables, nextID) && name in tables && RowsWritten(m, n, tables[name])
    ensures Inv(json, n, tables, nextID)
    ensures forall a :: a in tables && a != name ==> RowsKept(m, tables[a], n, tables[a])
  {
    hide Recorded, Consistent, Owned, RowsKept, Confined, NoOrphans, Assigned;
    WritesKeepRecorded(json, m, n, tables, nextID, name);
    WritesKeepOthers(m, n, tables, nextID, name);
    WritesNoOrphans(m, n, tables, name);
    forall a | a in tables && a != name ensures Consistent(n, tables[a]) {
      KeptConsistent(m, tables[a], n, tables[a]);
    }
  }

  // ------------------------------------------------------------------
  // Counters that run over
  // ------------------------------------------------------------------

  const LAST_ID: uint32 := 0xFFFF_FFFF

  /** The definition behind Example, before it has an index. */
  function ExampleDef(): Table { Example().(indexes := [], nextIndexId := 1) }

  lemma ExampleDefined()
    ensures WellFormed(ExampleDef()) && ExampleDef().indexes == []
  {
  }

  /** The last identifier is handed out, and the counter starts again at 0. */
  lemma CounterRunsOver(json: Json)
    ensures var m := map[MetaSeqKey() := BE32(LAST_ID)];
            && Inv(json, m, map[], LAST_ID)
            && Bump(LAST_ID) == 0
            && !Inv(json, CreateStore(json, m, ExampleDef(), LAST_ID), map[ExampleDef().name := Created(ExampleDef(), LAST_ID)],
                    Bump(LAST_ID))
  {
    var m := map[MetaSeqKey() := BE32(LAST_ID)];
    TableKeysDiffer(ExampleDef().name, ExampleDef().name);
    ExampleDefined();
    hide WellFormed, CreateStore, Created, ExampleDef, BE32, MetaSeqKey;
    assert Inv(json, m, map[], LAST_ID);
    CreateKeepsInv(json, m, map[], LAST_ID, ExampleDef());
    assert map[][ExampleDef().name := Created(ExampleDef(), LAST_ID)] == map[ExampleDef().name := Created(ExampleDef(), LAST_ID)];
  }

  /** A table with its last index number to give. */
  function WornTable(): Table { Created(ExampleDef(), 1).(nextIndexId := LAST_ID) }

  function WornStore(json: Json): Store {
    CreateStore(json, map[], ExampleDef(), 1)[MetaTableKey(ExampleDef().name) := json.encode(WornTable())]
  }

  function LastIndex(): Index { Example().indexes[0].(id := LAST_ID) }

  lemma WornInv(json: Json)
    ensures Inv(json, WornStore(json), map[ExampleDef().name := WornTable()], 2)
    ensures Represents(WornStore(json), WornTable(), map[])
  {
    hide Represents, Recorded, NoOrphans, CreateStore, WellFormed, Consistent, WornStore;
    var def, t := ExampleDef(), Created(ExampleDef(), 1);
    var m := CreateStore(json, map[], def, 1);
    NewTableInv(json);
    IndexRecorded(json, m, map[def.name := t], 2, def.name, WornTable());
    WornOrphans(json, m, map[def.name := t], def.name, WornTable());
    WornHolds(json, m, t, def.name);
    WornAssigned();
    WornIs(json);
    hide WornTable;
    assert map[def.name := t][def.name := WornTable()] == map[def.name := WornTable()];
    HeldIsConsistent(WornStore(json), WornTable(), map[]);
  }

  lemma WornIs(json: Json)
    ensures WornStore(json) ==
            CreateStore(json, map[], ExampleDef(), 1)[MetaTableKey(ExampleDef().name) := json.encode(WornTable())]
  {
  }

  lemma WornAssigned()
    ensures Assigned(map[ExampleDef().name := WornTable()], 2)
  {
  }

  lemma NewTableInv(json: Json)
    ensures Inv(json, CreateStore(json, map[], ExampleDef(), 1), map[ExampleDef().name := Created(ExampleDef(), 1)], 2)
    ensures Represents(CreateStore(json, map[], ExampleDef(), 1), Created(ExampleDef(), 1), map[])
  {
    ExampleDefined();
    EmptyInv(json);
    hide Inv, Represents, CreateStore, Created, WellFormed, ExampleDef;
    CreateKeepsInv(json, map[], map[], 1, ExampleDef());
    assert map[][ExampleDef().name := Created(ExampleDef(), 1)] == map[ExampleDef().name := Created(ExampleDef(), 1)];
  }

  /** Rewriting a table's schema entry leaves no key without an owner. */
  lemma WornOrphans(json: Json, m: Store, tables: Tables, name: Name, u: Table)
    requires NoOrphans(m, tables) && name in tables && u.id == tables[name].id && u.indexes == tables[name].indexes
    ensures NoOrphans(m[MetaTableKey(name) := json.encode(u)], tables[name := u])
  {
    hide Owned;
    ReservedTableKey(name);
    var after, now := m[MetaTableKey(name) := json.encode(u)], tables[name := u];
    forall k | k in after && !Reserved(k) ensures exists a :: a in now && Owned(now[a], k) {
      var a :| a in tables && Owned(tables[a], k);
      SameOwner(tables[name], u, k);
      assert a in now;
    }
  }

  lemma SameOwner(t: Table, u: Table, k: bytes)
    requires t.id == u.id && t.indexes == u.indexes
    ensures Owned(t, k) <==> Owned(u, k)
  {
  }

  lemma WornHolds(json: Json, m: Store, t: Table, name: Name)
    requires Represents(m, t, map[]) && t.indexes == []
    ensures var u := t.(nextIndexId := LAST_ID); Represents(m[MetaTableKey(name) := json.encode(u)], u, map[])
  {
    var u := t.(nextIndexId := LAST_ID);
    ReservedTableKey(name);
    PutReservedKeeps(m, t, MetaTableKey(name), json.encode(u));
    assert Represents(m[MetaTableKey(name) := json.encode(u)], t, map[]);
  }

  /** The last index number is handed out: the next index of the table would get one that is taken or 0. */
  lemma IndexCounterRunsOver(json: Json)
    ensures var t, x := WornTable(), LastIndex();
            var after := WornStore(json)[MetaTableKey(t.name) := json.encode(Indexed(t, x))];
            && Inv(json, WornStore(json), map[t.name := t], 2)
            && !Inv(json, after, map[t.name := Indexed(t, x)], 2)
  {
    hide WornStore, Represents, Recorded, NoOrphans, WornTable, LastIndex, Inv, FreshIndex, Indexed;
    var t, x := WornTable(), LastIndex();
    var tables := map[t.name := t];
    WornInv(json);
    LastIsFresh();
    assert tables[t.name := Indexed(t, x)] == map[t.name := Indexed(t, x)];
    var after := WornStore(json)[MetaTableKey(t.name) := json.encode(Indexed(t, x))];
    NothingBuilt(after, t, x);
    CreateIndexKeepsInv(json, WornStore(json), after, tables, 2, t.name, x, map[]);
  }

  lemma LastIsFresh()
    ensures WornTable().name == ExampleDef().name && LastIndex().id == LAST_ID
    ensures FreshIndex(map[WornTable().name := WornTable()], WornTable().name, LastIndex())
  {
  }

  lemma NothingBuilt(m: Store, t: Table, x: Index)
    ensures Built(m, m, t, x, map[])
  {
  }
}
