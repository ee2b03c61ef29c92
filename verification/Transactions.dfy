// Transactions over one ordered store (keelsql.go): snapshots, write buffers, and commits that
// reach the store one key at a time under a lock.
module Transactions {
  import opened Bytes
  import opened Values
  import opened Keys
  import opened RowCodec
  import opened Storage
  import opened Schema
  import opened Dml

  // ------------------------------------------------------------------
  // One transaction
  // ------------------------------------------------------------------

  lemma ApplyAllHead(m: Store, es: seq<Entry>)
    requires es != []
    ensures ApplyAll(m, es) == ApplyAll(ApplyOne(m, es[0]), es[1..])
  {
  }

  lemma ApplyAllEnd(m: Store, es: seq<Entry>)
    requires es == []
    ensures ApplyAll(m, es) == m
  {
  }

  /** The stores that writing entries one after the other passes through. */
  ghost predicate Passes(start: Store, es: seq<Entry>, passed: seq<Store>) {
    && |passed| == |es| + 1 && passed[0] == start
    && forall i :: 0 <= i < |es| ==> passed[i + 1] == ApplyOne(passed[i], es[i])
  }

  lemma PassesNothing(start: Store, es: seq<Entry>)
    ensures Passes(start, es[..0], [start])
    ensures es == [] ==> Passes(start, es, [start])
  {
  }

  lemma PassesOneMore(start: Store, es: seq<Entry>, passed: seq<Store>, e: Entry, next: Store)
    requires Passes(start, es, passed) && next == ApplyOne(passed[|passed| - 1], e)
    ensures Passes(start, es + [e], passed + [next])
  {
    hide ApplyOne;
  }

  lemma OneApplied(m: Store, e: Entry, n: Store)
    requires n == if e.deleted then m - {e.key} else m[e.key := e.value]
    ensures n == ApplyOne(m, e)
  {
  }

  class Tx {
    const db: Memory
    const rw: Overlay
    var done: bool

    /** begin: the snapshot is the store as it is now. */
    constructor (db: Memory)
      ensures this.db == db && !done && rw.base == db.m && fresh(rw) && fresh(rw.buf)
      ensures rw.Valid() && rw.buf.m == map[] && rw.View() == db.m
    {
      var buf := new Buffer();
      this.db := db;
      rw := new Overlay(db.m, buf);
      done := false;
      new;
      assert Apply(db.m, map[]) == db.m;
    }

    /**
     * Applies the write set key by key; a finished transaction refuses. passed lists the states the
     * store goes through.
     */
    method Commit() returns (err: Option<Error>, ghost passed: seq<Store>)
      requires rw.Valid()
      modifies this`done, db, rw.buf
      ensures done && rw.Valid() && rw.buf.m == old(rw.buf.m)
      ensures old(done) ==> err == Some(Finished) && db.m == old(db.m)
      ensures !old(done) ==> err == None && db.m == Apply(old(db.m), old(rw.buf.m))
      ensures !old(done) ==> Passes(old(db.m), Sorted(old(rw.buf.m)), passed) && passed[|passed| - 1] == db.m
    {
      hide Apply, ApplyAll, ApplyOne, Sorted, Keyed, Passes;
      passed := [db.m];
      if done {
        return Some(Finished), passed;
      }
      done := true;
      ghost var start, em := db.m, rw.buf.m;
      CommitInstallsView(start, em);
      var entries := rw.buf.Entries();
      PassesNothing(start, entries[..]);
      if entries.Length == 0 {
        ApplyAllEnd(start, entries[..]);
        return None, passed;
      }
      for i := 0 to entries.Length
        invariant done && entries == rw.buf.sorted && rw.Valid() && rw.buf.m == em && entries[..] == Sorted(em)
        invariant |passed| == i + 1 && passed[i] == db.m && Passes(start, entries[..i], passed)
        invariant ApplyAll(db.m, entries[i..]) == Apply(start, em)
      {
        ApplyAllHead(db.m, entries[i..]);
        assert entries[i..][1..] == entries[i + 1..];
        ghost var was := db.m;
        if entries[i].deleted {
          db.Delete(entries[i].key);
        } else {
          db.Put(entries[i].key, entries[i].value);
        }
        OneApplied(was, entries[i], db.m);
        PassesOneMore(start, entries[..i], passed, entries[i], db.m);
        assert entries[..i + 1] == entries[..i] + [entries[i]];
        passed := passed + [db.m];
      }
      ApplyAllEnd(db.m, entries[entries.Length..]);
      assert entries[..entries.Length] == entries[..];
      err := None;
    }

    method Rollback()
      requires rw.Valid()
      modifies this`done, rw.buf
      ensures done && rw.Valid()
      ensures rw.buf.m == if old(done) then old(rw.buf.m) else map[]
    {
      if done {
        return;
      }
      done := true;
      rw.buf.Reset();
    }
  }

  // ------------------------------------------------------------------
  // What one commit does to a table
  // ------------------------------------------------------------------

  /** Every buffered key of the table concerns one of the given primary keys. */
  ghost predicate Touches(em: Entries, t: Table, pks: set<Value>) {
    forall k :: k in em && Owned(t, k) ==> exists p :: p in pks && KeyOf(t, p, k)
  }

  ghost predicate SameFor(m: Store, n: Store, t: Table, p: Value) {
    forall k :: KeyOf(t, p, k) ==> Same(m, n, k)
  }

  /** Rows after a commit: the transaction's for the keys it touched, the store's for the rest. */
  function Merged(mine: Rows, theirs: Rows, pks: set<Value>): Rows {
    map p | p in mine.Keys + theirs.Keys && (if p in pks then p in mine else p in theirs) ::
      if p in pks then mine[p] else theirs[p]
  }

  lemma ApplySame(m: Store, n: Store, em: Entries, k: bytes)
    requires k in em || Same(m, n, k)
    ensures Same(Apply(m, em), Apply(n, em), k)
  {
  }

  lemma ApplyUntouched(m: Store, em: Entries, k: bytes)
    requires k !in em
    ensures Same(Apply(m, em), m, k)
  {
  }

  lemma UntouchedKey(em: Entries, t: Table, pks: set<Value>, p: Value, k: bytes)
    requires Touches(em, t, pks) && KeyOf(t, p, k) && p !in pks
    ensures k !in em
  {
    KeyOfOwned(t, p, k);
    if k in em {
      var q :| q in pks && KeyOf(t, q, k);
      KeyOfUnique(t, p, q, k);
    }
  }

  /** On each key the committed store follows either the transaction's view or the old store. */
  lemma CommitKey(store: Store, base: Store, em: Entries, t: Table, pks: set<Value>, p: Value, k: bytes)
    requires Touches(em, t, pks) && KeyOf(t, p, k)
    requires p in pks ==> SameFor(store, base, t, p)
    ensures Same(Apply(store, em), if p in pks then Apply(base, em) else store, k)
  {
    if p in pks {
      ApplySame(store, base, em, k);
    } else {
      UntouchedKey(em, t, pks, p, k);
      ApplyUntouched(store, em, k);
    }
  }

  lemma RowKeyOf(t: Table, p: Value)
    ensures KeyOf(t, p, RowKey(t.id, p)) && Owned(t, RowKey(t.id, p))
  {
    KeyOfOwned(t, p, RowKey(t.id, p));
  }

  lemma IndexKeyOf(t: Table, x: Index, v: Value, p: Value)
    requires x in t.indexes
    ensures KeyOf(t, p, IndexKey(t.id, x.id, v, p)) && Owned(t, IndexKey(t.id, x.id, v, p))
  {
    KeyOfOwned(t, p, IndexKey(t.id, x.id, v, p));
  }

  /** A buffered key under the data prefix is a row key. */
  lemma BufferedRowKey(em: Entries, t: Table, pks: set<Value>, k: bytes)
    requires Touches(em, t, pks) && k in em && DataPrefix(t.id) <= k
    ensures exists p :: k == RowKey(t.id, p)
  {
    assert Owned(t, k);
    var p :| p in pks && KeyOf(t, p, k);
    if k != RowKey(t.id, p) {
      var x, v :| x in t.indexes && k == IndexKey(t.id, x.id, v, p);
      assert IndexPrefix(t.id, x.id) <= k;
      KeySpacesDisjoint(t.id, t.id, x.id, k);
    }
  }

  /** A buffered key under an index's prefix is an entry of that index. */
  lemma BufferedIndexKey(em: Entries, t: Table, x: Index, pks: set<Value>, k: bytes)
    requires Touches(em, t, pks) && k in em && x in t.indexes && IndexPrefix(t.id, x.id) <= k
    ensures exists v, p :: k == IndexKey(t.id, x.id, v, p)
  {
    assert Owned(t, k);
    var p :| p in pks && KeyOf(t, p, k);
    if k == RowKey(t.id, p) {
      assert DataPrefix(t.id) <= k;
      KeySpacesDisjoint(t.id, t.id, x.id, k);
    } else {
      var y, v :| y in t.indexes && k == IndexKey(t.id, y.id, v, p);
      assert IndexPrefix(t.id, y.id) <= k;
      IndexPrefixesDisjoint(t.id, x.id, t.id, y.id, k);
    }
  }

  lemma RowCommitted(store: Store, base: Store, em: Entries, t: Table, pks: set<Value>, mine: Rows, theirs: Rows, p: Value)
    requires HoldsRows(store, t, theirs) && HoldsRows(Apply(base, em), t, mine)
    requires Touches(em, t, pks) && (p in pks ==> SameFor(store, base, t, p))
    ensures RowRight(Apply(store, em), t, Merged(mine, theirs, pks), p)
  {
    hide KeyOf, Owned, Touches, SameFor, Apply;
    CommitRow(store, base, em, t, pks, p);
  }

  lemma CommitRow(store: Store, base: Store, em: Entries, t: Table, pks: set<Value>, p: Value)
    requires Touches(em, t, pks) && (p in pks ==> SameFor(store, base, t, p))
    ensures Same(Apply(store, em), if p in pks then Apply(base, em) else store, RowKey(t.id, p))
  {
    hide KeyOf, Owned, Touches, SameFor, Apply;
    RowKeyOf(t, p);
    CommitKey(store, base, em, t, pks, p, RowKey(t.id, p));
  }

  lemma HoldsRowsFrom(n: Store, t: Table, after: Rows)
    requires forall p :: RowRight(n, t, after, p)
    requires forall k :: k in n && DataPrefix(t.id) <= k ==> exists p :: k == RowKey(t.id, p)
    ensures HoldsRows(n, t, after)
  {
    forall p ensures RowKey(t.id, p) in n <==> p in after {
      assert RowRight(n, t, after, p);
    }
    forall p | p in after ensures n[RowKey(t.id, p)] == EncodeRow(after[p]) {
      assert RowRight(n, t, after, p);
    }
  }

  lemma CommitHoldsRows(store: Store, base: Store, em: Entries, t: Table, pks: set<Value>, mine: Rows, theirs: Rows)
    requires HoldsRows(store, t, theirs) && HoldsRows(Apply(base, em), t, mine)
    requires Touches(em, t, pks) && forall p :: p in pks ==> SameFor(store, base, t, p)
    ensures HoldsRows(Apply(store, em), t, Merged(mine, theirs, pks))
  {
    hide HoldsRows, Touches, SameFor, Apply, Merged, RowRight;
    forall p ensures RowRight(Apply(store, em), t, Merged(mine, theirs, pks), p) {
      RowCommitted(store, base, em, t, pks, mine, theirs, p);
    }
    CommitRowKeys(store, em, t, pks, theirs);
    HoldsRowsFrom(Apply(store, em), t, Merged(mine, theirs, pks));
  }

  lemma CommitRowKeys(store: Store, em: Entries, t: Table, pks: set<Value>, theirs: Rows)
    requires HoldsRows(store, t, theirs) && Touches(em, t, pks)
    ensures forall k :: k in Apply(store, em) && DataPrefix(t.id) <= k ==> exists p :: k == RowKey(t.id, p)
  {
    forall k | k in Apply(store, em) && DataPrefix(t.id) <= k ensures exists p :: k == RowKey(t.id, p) {
      if k in em {
        BufferedRowKey(em, t, pks, k);
      } else {
        ApplyUntouched(store, em, k);
      }
    }
  }

  lemma CommitIndexEntry(store: Store, base: Store, em: Entries, t: Table, pks: set<Value>, mine: Rows, theirs: Rows,
                         x: Index, v: Value, p: Value)
    requires TypedRows(t, mine) && TypedRows(t, theirs) && x in t.indexes && x.pos < |t.columns|
    requires HoldsIndex(store, t, x, theirs) && HoldsIndex(Apply(base, em), t, x, mine)
    requires Touches(em, t, pks) && forall p :: p in pks ==> SameFor(store, base, t, p)
    ensures TypedRows(t, Merged(mine, theirs, pks))
    ensures IndexKey(t.id, x.id, v, p) in Apply(store, em) <==>
            p in Merged(mine, theirs, pks) && Merged(mine, theirs, pks)[p][x.pos] == v
  {
    hide KeyOf, Owned, Touches, SameFor, Apply;
    IndexKeyOf(t, x, v, p);
    CommitKey(store, base, em, t, pks, p, IndexKey(t.id, x.id, v, p));
  }

  lemma MergedTyped(t: Table, mine: Rows, theirs: Rows, pks: set<Value>)
    requires TypedRows(t, mine) && TypedRows(t, theirs)
    ensures TypedRows(t, Merged(mine, theirs, pks))
  {
  }

  lemma CommitHoldsIndex(store: Store, base: Store, em: Entries, t: Table, pks: set<Value>, mine: Rows, theirs: Rows, x: Index)
    requires TypedRows(t, mine) && TypedRows(t, theirs) && x in t.indexes && x.pos < |t.columns|
    requires HoldsIndex(store, t, x, theirs) && HoldsIndex(Apply(base, em), t, x, mine)
    requires Touches(em, t, pks) && forall p :: p in pks ==> SameFor(store, base, t, p)
    ensures TypedRows(t, Merged(mine, theirs, pks))
    ensures HoldsIndex(Apply(store, em), t, x, Merged(mine, theirs, pks))
  {
    hide KeyOf, Owned, Touches, SameFor, Merged;
    var n, after := Apply(store, em), Merged(mine, theirs, pks);
    MergedTyped(t, mine, theirs, pks);
    forall v, p
      ensures IndexKey(t.id, x.id, v, p) in n <==> p in after && after[p][x.pos] == v
    {
      CommitIndexEntry(store, base, em, t, pks, mine, theirs, x, v, p);
    }
    forall k | k in n && IndexPrefix(t.id, x.id) <= k ensures exists v, p :: k == IndexKey(t.id, x.id, v, p) {
      if k in em {
        BufferedIndexKey(em, t, x, pks, k);
      } else {
        ApplyUntouched(store, em, k);
      }
    }
  }

  /** A commit over a store that agrees with the snapshot on the touched keys merges the rows. */
  lemma CommitMerges(store: Store, base: Store, em: Entries, t: Table, pks: set<Value>, mine: Rows, theirs: Rows)
    requires Represents(store, t, theirs) && Represents(Apply(base, em), t, mine)
    requires Touches(em, t, pks) && forall p :: p in pks ==> SameFor(store, base, t, p)
    ensures Represents(Apply(store, em), t, Merged(mine, theirs, pks))
  {
    hide Touches, SameFor, HoldsRows, HoldsIndex, Merged, TypedRows, Apply;
    CommitHoldsRows(store, base, em, t, pks, mine, theirs);
    MergedTyped(t, mine, theirs, pks);
    forall x | x in t.indexes ensures HoldsIndex(Apply(store, em), t, x, Merged(mine, theirs, pks)) {
      assert HoldsIndex(store, t, x, theirs) && HoldsIndex(Apply(base, em), t, x, mine);
      CommitHoldsIndex(store, base, em, t, pks, mine, theirs, x);
    }
  }

  // ------------------------------------------------------------------
  // When a commit is harmless, exactly
  // ------------------------------------------------------------------

  /**
   * No index entry of a touched row that the transaction did not itself write has come or gone
   * since its snapshot.
   */
  ghost predicate EntriesCurrent(store: Store, base: Store, em: Entries, t: Table, pks: set<Value>) {
    forall p, x, v :: p in pks && x in t.indexes && IndexKey(t.id, x.id, v, p) !in em ==>
                        (IndexKey(t.id, x.id, v, p) in store <==> IndexKey(t.id, x.id, v, p) in base)
  }

  lemma CurrentRow(store: Store, base: Store, em: Entries, t: Table, pks: set<Value>, mine: Rows, theirs: Rows, p: Value)
    requires HoldsRows(store, t, theirs) && HoldsRows(Apply(base, em), t, mine) && Touches(em, t, pks)
    requires forall q :: q in pks ==> RowKey(t.id, q) in em
    ensures RowRight(Apply(store, em), t, Merged(mine, theirs, pks), p)
  {
    RowKeyOf(t, p);
    if p in pks {
      hide KeyOf, Owned, Touches;
      assert Same(Apply(store, em), Apply(base, em), RowKey(t.id, p));
    } else {
      UntouchedKey(em, t, pks, p, RowKey(t.id, p));
      ApplyUntouched(store, em, RowKey(t.id, p));
    }
  }

  lemma HoldsEntry(m: Store, t: Table, x: Index, rows: Rows, v: Value, p: Value)
    requires TypedRows(t, rows) && x.pos < |t.columns| && HoldsIndex(m, t, x, rows)
    ensures IndexRight(m, t, rows, x, v, p)
    ensures p in rows ==> |rows[p]| == |t.columns|
  {
  }

  /** Where the merged rows and the committed store agree about one index entry. */
  lemma CurrentEntry(store: Store, base: Store, em: Entries, t: Table, pks: set<Value>, mine: Rows, theirs: Rows,
                     x: Index, v: Value, p: Value)
    requires TypedRows(t, mine) && TypedRows(t, theirs) && x in t.indexes && x.pos < |t.columns|
    requires HoldsIndex(store, t, x, theirs) && HoldsIndex(Apply(base, em), t, x, mine) && Touches(em, t, pks)
    ensures TypedRows(t, Merged(mine, theirs, pks))
    ensures IndexRight(Apply(store, em), t, Merged(mine, theirs, pks), x, v, p) <==>
            (p in pks && IndexKey(t.id, x.id, v, p) !in em ==>
               (IndexKey(t.id, x.id, v, p) in store <==> IndexKey(t.id, x.id, v, p) in base))
  {
    hide HoldsIndex, TypedRows, Touches, KeyOf, Owned, IndexKey;
    var k := IndexKey(t.id, x.id, v, p);
    MergedTyped(t, mine, theirs, pks);
    HoldsEntry(store, t, x, theirs, v, p);
    HoldsEntry(Apply(base, em), t, x, mine, v, p);
    IndexKeyOf(t, x, v, p);
    if p !in pks {
      UntouchedKey(em, t, pks, p, k);
    }
  }

  /** Right at every key, and nothing strange under the prefixes, is all it takes. */
  lemma RepresentsFromKeys(store: Store, em: Entries, t: Table, theirs: Rows, pks: set<Value>, after: Rows)
    requires Represents(store, t, theirs) && Touches(em, t, pks) && TypedRows(t, after)
    requires forall p :: RowRight(Apply(store, em), t, after, p)
    requires forall x, v, p :: x in t.indexes ==> IndexRight(Apply(store, em), t, after, x, v, p)
    ensures Represents(Apply(store, em), t, after)
  {
    hide KeyOf, Owned, Touches, Apply;
    var n := Apply(store, em);
    assert HoldsRows(n, t, after) by {
      forall p ensures RowKey(t.id, p) in n <==> p in after {
        assert RowRight(n, t, after, p);
      }
      forall p | p in after ensures n[RowKey(t.id, p)] == EncodeRow(after[p]) {
        assert RowRight(n, t, after, p);
      }
      forall k | k in n && DataPrefix(t.id) <= k ensures exists p :: k == RowKey(t.id, p) {
        if k in em { BufferedRowKey(em, t, pks, k); } else { ApplyUntouched(store, em, k); }
      }
    }
    forall x | x in t.indexes ensures HoldsIndex(n, t, x, after) {
      assert HoldsIndex(store, t, x, theirs);
      forall v, p ensures IndexKey(t.id, x.id, v, p) in n <==> p in after && after[p][x.pos] == v {
        assert IndexRight(n, t, after, x, v, p);
      }
      forall k | k in n && IndexPrefix(t.id, x.id) <= k ensures exists v, p :: k == IndexKey(t.id, x.id, v, p) {
        if k in em { BufferedIndexKey(em, t, x, pks, k); } else { ApplyUntouched(store, em, k); }
      }
    }
  }

  /** The row keys alone pin down which rows a store can represent. */
  lemma RowsPinned(m: Store, t: Table, a: Rows, b: Rows)
    requires Represents(m, t, a) && TypedRows(t, b) && forall p :: RowRight(m, t, b, p)
    ensures a == b
  {
    forall p ensures (p in a <==> p in b) && (p in a && p in b ==> a[p] == b[p]) {
      RepresentsGivesRow(m, t, a, p);
      assert RowRight(m, t, b, p);
      if p in a {
        EncodeRowInjective(a[p], b[p]);
      }
    }
  }

  /**
   * Last writer wins, so a commit may land on rows others have changed since the snapshot. It leaves
   * the table consistent exactly when the index entries of the rows it touched are current.
   */
  lemma CommitConsistentExactly(store: Store, base: Store, em: Entries, t: Table, pks: set<Value>, mine: Rows, theirs: Rows)
    requires Represents(store, t, theirs) && Represents(Apply(base, em), t, mine) && Touches(em, t, pks)
    requires forall p :: p in pks ==> RowKey(t.id, p) in em
    ensures (exists after :: Represents(Apply(store, em), t, after)) <==> EntriesCurrent(store, base, em, t, pks)
    ensures EntriesCurrent(store, base, em, t, pks) ==> Represents(Apply(store, em), t, Merged(mine, theirs, pks))
  {
    hide Touches, HoldsRows, HoldsIndex, Merged, Apply;
    var n, after := Apply(store, em), Merged(mine, theirs, pks);
    MergedTyped(t, mine, theirs, pks);
    forall p ensures RowRight(n, t, after, p) {
      CurrentRow(store, base, em, t, pks, mine, theirs, p);
    }
    forall x, v, p | x in t.indexes
      ensures IndexRight(n, t, after, x, v, p) <==>
              (p in pks && IndexKey(t.id, x.id, v, p) !in em ==>
                 (IndexKey(t.id, x.id, v, p) in store <==> IndexKey(t.id, x.id, v, p) in base))
    {
      assert HoldsIndex(store, t, x, theirs) && HoldsIndex(Apply(base, em), t, x, mine);
      CurrentEntry(store, base, em, t, pks, mine, theirs, x, v, p);
    }
    hide RowRight, IndexRight, Represents, TypedRows;
    if EntriesCurrent(store, base, em, t, pks) {
      RepresentsFromKeys(store, em, t, theirs, pks, after);
    }
    if other :| Represents(n, t, other) {
      RowsPinned(n, t, other, after);
      forall p, x, v | p in pks && x in t.indexes && IndexKey(t.id, x.id, v, p) !in em
        ensures IndexKey(t.id, x.id, v, p) in store <==> IndexKey(t.id, x.id, v, p) in base
      {
        RepresentsGivesEntry(n, t, after, x, v, p);
      }
    }
  }

  /** Which index keys of a row an UPDATE that keeps the primary key writes. */
  lemma UpdateBuffers(t: Table, was: Row, now: Row, x: Index, v: Value)
    requires WellFormed(t) && |was| == |now| == |t.columns| && x in t.indexes && was[t.pk] == now[t.pk]
    ensures IndexKey(t.id, x.id, v, was[t.pk]) in PutAll(map[], UpdateWrites(t, was, now)) <==>
            v == was[x.pos] || v == now[x.pos]
    ensures RowKey(t.id, was[t.pk]) in PutAll(map[], UpdateWrites(t, was, now))
  {
    UpdateDecidesIndex(t, was, now, x, v, was[t.pk]);
    PutAllLookup(map[], UpdateWrites(t, was, now), IndexKey(t.id, x.id, v, was[t.pk]));
    UpdateDecidesRow(t, was, now, was[t.pk]);
    PutAllLookup(map[], UpdateWrites(t, was, now), RowKey(t.id, was[t.pk]));
  }

  lemma UpdateTouches(t: Table, was: Row, now: Row)
    requires t.pk < |was| == |now| && forall x :: x in t.indexes ==> x.pos < |was|
    requires now[t.pk] == was[t.pk]
    ensures Touches(PutAll(map[], UpdateWrites(t, was, now)), t, {was[t.pk]})
  {
    hide UpdateWrites, KeyOf, Owned;
    var ws := UpdateWrites(t, was, now);
    UpdateWritesKeys(t, was, now);
    forall k | k in PutAll(map[], ws) ensures KeyOf(t, was[t.pk], k) {
      PutAllLookup(map[], ws, k);
    }
  }

  lemma ApplyNothing(m: Store)
    ensures Apply(m, map[]) == m
  {
  }

  /** An UPDATE of one row, primary key kept, as the only write of a transaction. */
  lemma LoneUpdate(base: Store, t: Table, rows: Rows, was: Row, now: Row)
    requires Represents(base, t, rows) && Typed(t, was) && Typed(t, now)
    requires was[t.pk] in rows && rows[was[t.pk]] == was && now[t.pk] == was[t.pk]
    ensures Represents(Apply(base, PutAll(map[], UpdateWrites(t, was, now))), t, rows[was[t.pk] := now])
  {
    hide Apply, ApplyAll, PutAll, UpdateWrites, HoldsRows, HoldsIndex, TypedRows;
    var ws := UpdateWrites(t, was, now);
    UpdateInStep(base, t, rows, was, now);
    BufferedWritesShow(base, map[], ws);
    ApplyNothing(base);
    assert Replaced(t, rows, was, now) == rows[was[t.pk] := now];
  }

  lemma OverlapAtEntry(base: Store, t: Table, rows: Rows, was: Row, first: Row, second: Row, x: Index, v: Value)
    requires Represents(base, t, rows) && Typed(t, was) && Typed(t, first) && Typed(t, second) && x in t.indexes
    requires was[t.pk] in rows && rows[was[t.pk]] == was && first[t.pk] == second[t.pk] == was[t.pk]
    ensures var em1, em2 := PutAll(map[], UpdateWrites(t, was, first)), PutAll(map[], UpdateWrites(t, was, second));
            var k := IndexKey(t.id, x.id, v, was[t.pk]);
            (k !in em2 && !(k in Apply(base, em1) <==> k in base)) <==>
            (v == first[x.pos] && v != was[x.pos] && v != second[x.pos])
  {
    var em1, em2 := PutAll(map[], UpdateWrites(t, was, first)), PutAll(map[], UpdateWrites(t, was, second));
    LoneUpdate(base, t, rows, was, first);
    UpdateBuffers(t, was, second, x, v);
    hide Apply, PutAll, Represents, UpdateWrites;
    RepresentsGivesEntry(base, t, rows, x, v, was[t.pk]);
    RepresentsGivesEntry(Apply(base, em1), t, rows[was[t.pk] := first], x, v, was[t.pk]);
  }

  lemma OverlapCurrent(base: Store, t: Table, rows: Rows, was: Row, first: Row, second: Row)
    requires Represents(base, t, rows) && Typed(t, was) && Typed(t, first) && Typed(t, second)
    requires was[t.pk] in rows && rows[was[t.pk]] == was && first[t.pk] == second[t.pk] == was[t.pk]
    ensures var em1, em2 := PutAll(map[], UpdateWrites(t, was, first)), PutAll(map[], UpdateWrites(t, was, second));
            EntriesCurrent(Apply(base, em1), base, em2, t, {was[t.pk]}) <==>
            (forall x :: x in t.indexes ==> first[x.pos] == was[x.pos] || first[x.pos] == second[x.pos])
  {
    hide Apply, PutAll, UpdateWrites, HoldsRows, HoldsIndex, TypedRows;
    var em1, em2 := PutAll(map[], UpdateWrites(t, was, first)), PutAll(map[], UpdateWrites(t, was, second));
    var pk, store := was[t.pk], Apply(base, em1);
    forall x, v | x in t.indexes
      ensures var k := IndexKey(t.id, x.id, v, pk);
              (k !in em2 && !(k in store <==> k in base)) <==> (v == first[x.pos] && v != was[x.pos] && v != second[x.pos])
    {
      OverlapAtEntry(base, t, rows, was, first, second, x, v);
    }
    if EntriesCurrent(store, base, em2, t, {pk}) {
      forall x | x in t.indexes ensures first[x.pos] == was[x.pos] || first[x.pos] == second[x.pos] {
        var k := IndexKey(t.id, x.id, first[x.pos], pk);
        assert k in em2 || (k in store <==> k in base);
      }
    }
  }

  /**
   * Two transactions start from one snapshot, update the same row and commit one after the other.
   * The indexes survive exactly when the first writer left every indexed column alone or agreed
   * with the second about it; otherwise its entry stays behind with no row to match.
   */
  lemma OverlappingUpdates(base: Store, t: Table, rows: Rows, was: Row, first: Row, second: Row)
    requires Represents(base, t, rows) && Typed(t, was) && Typed(t, first) && Typed(t, second)
    requires was[t.pk] in rows && rows[was[t.pk]] == was && first[t.pk] == second[t.pk] == was[t.pk]
    ensures var em1, em2 := PutAll(map[], UpdateWrites(t, was, first)), PutAll(map[], UpdateWrites(t, was, second));
            (exists after :: Represents(Apply(Apply(base, em1), em2), t, after)) <==>
            (forall x :: x in t.indexes ==> first[x.pos] == was[x.pos] || first[x.pos] == second[x.pos])
  {
    hide Apply, PutAll, UpdateWrites, HoldsRows, HoldsIndex, TypedRows, Touches, EntriesCurrent, Lookup;
    var em1, em2 := PutAll(map[], UpdateWrites(t, was, first)), PutAll(map[], UpdateWrites(t, was, second));
    var pk := was[t.pk];
    LoneUpdate(base, t, rows, was, first);
    LoneUpdate(base, t, rows, was, second);
    UpdateTouches(t, was, second);
    UpdateDecidesRow(t, was, second, pk);
    PutAllLookup(map[], UpdateWrites(t, was, second), RowKey(t.id, pk));
    hide Represents;
    CommitConsistentExactly(Apply(base, em1), base, em2, t, {pk}, rows[pk := second], rows[pk := first]);
    OverlapCurrent(base, t, rows, was, first, second);
  }

  // ------------------------------------------------------------------
  // Two writers of one row
  // ------------------------------------------------------------------

  const ROW_WAS: Row := [Int(1), Int(5)]
  const ROW_FIRST: Row := [Int(1), Int(6)]
  const ROW_SECOND: Row := [Int(1), Int(7)]

  /** What each of two transactions buffers that both saw k = 5 under key 1. */
  function SetTo(now: Row): Entries
    requires |now| == 2
  {
    PutAll(map[], UpdateWrites(Example(), ROW_WAS, now))
  }

  function ExampleStore(): Store { ApplyAll(map[], InsertWrites(Example(), ROW_WAS)) }

  lemma ExampleRows()
    ensures WellFormed(Example()) && Example().indexes[0] in Example().indexes
    ensures Typed(Example(), ROW_WAS) && Typed(Example(), ROW_FIRST) && Typed(Example(), ROW_SECOND)
  {
  }

  lemma ExampleStored()
    ensures Represents(ExampleStore(), Example(), map[Int(1) := ROW_WAS])
  {
    ExampleRows();
    hide Represents, InsertWrites, ApplyAll, WellFormed, Typed;
    NothingStored(Example());
    InsertKeepsInStep(map[], Example(), map[], ROW_WAS);
    assert map[][Int(1) := ROW_WAS] == map[Int(1) := ROW_WAS];
  }

  lemma WritersClash()
    ensures !Consistent(Apply(Apply(ExampleStore(), SetTo(ROW_FIRST)), SetTo(ROW_SECOND)), Example())
  {
    hide Represents, WellFormed, Typed, ApplyAll, PutAll, UpdateWrites, Apply, ExampleStore, IndexKey, RowKey, EncodeRow;
    ExampleRows();
    ExampleStored();
    Clash(ExampleStore(), Example(), map[Int(1) := ROW_WAS], ROW_WAS, ROW_FIRST, ROW_SECOND, Example().indexes[0]);
  }

  /** An indexed column on which the first of two overlapping writers differs from what was there and from the second. */
  lemma Clash(base: Store, t: Table, rows: Rows, was: Row, first: Row, second: Row, x: Index)
    requires Represents(base, t, rows) && Typed(t, was) && Typed(t, first) && Typed(t, second)
    requires was[t.pk] in rows && rows[was[t.pk]] == was && first[t.pk] == second[t.pk] == was[t.pk]
    requires x in t.indexes && first[x.pos] != was[x.pos] && first[x.pos] != second[x.pos]
    ensures !Consistent(Apply(Apply(base, PutAll(map[], UpdateWrites(t, was, first))), PutAll(map[], UpdateWrites(t, was, second))), t)
  {
    hide Represents, WellFormed, Typed, ApplyAll, PutAll, UpdateWrites, Apply;
    OverlappingUpdates(base, t, rows, was, first, second);
  }

  lemma FirstLands()
    ensures IndexKey(1, 1, Int(6), Int(1)) in Apply(ExampleStore(), SetTo(ROW_FIRST))
  {
    hide Represents, WellFormed, Typed, ApplyAll, PutAll, UpdateWrites, Apply, ExampleStore, IndexKey;
    var t, rows := Example(), map[Int(1) := ROW_WAS];
    ExampleRows();
    ExampleStored();
    LoneUpdate(ExampleStore(), t, rows, ROW_WAS, ROW_FIRST);
    RepresentsGivesEntry(Apply(ExampleStore(), SetTo(ROW_FIRST)), t, rows[Int(1) := ROW_FIRST], t.indexes[0], Int(6), Int(1));
  }

  /**
   * One sets k to 6 and commits, the other to 7 and commits: the entry of 6 is still there, the row
   * says 7, and no set of rows is in step with the index.
   */
  lemma SecondWriterStrays()
    ensures Consistent(ExampleStore(), Example())
    ensures var after := Apply(Apply(ExampleStore(), SetTo(ROW_FIRST)), SetTo(ROW_SECOND));
            && !Consistent(after, Example())
            && IndexKey(1, 1, Int(6), Int(1)) in after
            && RowKey(1, Int(1)) in after && after[RowKey(1, Int(1))] == EncodeRow(ROW_SECOND)
  {
    hide Consistent, Represents, Apply, ApplyAll, PutAll, UpdateWrites, IndexKey, RowKey, EncodeRow, SetTo, ExampleStore, Example;
    ExampleStored();
    HeldIsConsistent(ExampleStore(), Example(), map[Int(1) := ROW_WAS]);
    WritersClash();
    FirstLands();
    SecondBuffers();
    BufferDecides(Apply(ExampleStore(), SetTo(ROW_FIRST)), SetTo(ROW_SECOND), IndexKey(1, 1, Int(6), Int(1)));
    BufferDecides(Apply(ExampleStore(), SetTo(ROW_FIRST)), SetTo(ROW_SECOND), RowKey(1, Int(1)));
  }

  lemma SecondBuffers()
    ensures IndexKey(1, 1, Int(6), Int(1)) !in SetTo(ROW_SECOND)
    ensures RowKey(1, Int(1)) in SetTo(ROW_SECOND)
    ensures SetTo(ROW_SECOND)[RowKey(1, Int(1))] == Entry(RowKey(1, Int(1)), EncodeRow(ROW_SECOND), false)
  {
    var t := Example();
    ExampleRows();
    hide WellFormed, Typed, PutAll, UpdateWrites, IndexKey, RowKey, EncodeRow, LastWrite;
    UpdateBuffers(t, ROW_WAS, ROW_SECOND, t.indexes[0], Int(6));
    UpdateDecidesRow(t, ROW_WAS, ROW_SECOND, Int(1));
    PutAllLookup(map[], UpdateWrites(t, ROW_WAS, ROW_SECOND), RowKey(1, Int(1)));
  }

  lemma BufferDecides(m: Store, em: Entries, k: bytes)
    ensures k !in em ==> (k in Apply(m, em) <==> k in m)
    ensures k in em && !em[k].deleted ==> k in Apply(m, em) && Apply(m, em)[k] == em[k].value
  {
  }
}
