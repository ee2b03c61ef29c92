// Every interleaving of transactions (keelsql.go): begin, row writes, a commit key by key under
// the lock, rollback. Overlapping transactions write disjoint primary keys and the schema stands still.
module Interleavings {
  import opened Bytes
  import opened Values
  import opened Keys
  import opened RowCodec
  import opened Storage
  import opened Schema
  import opened Dml
  import opened Mutators
  import opened Transactions

  datatype Phase = Open | Committing(rest: seq<Entry>) | Done

  /** A primary key of a table. */
  type Spot = (uint32, Value)

  /**
   * began counts the commits before the snapshot; touched holds the keys written so far and foreign
   * those that others have committed meanwhile.
   */
  datatype Txn = Txn(base: Store, began: nat, buf: Entries, phase: Phase, touched: set<Spot>, foreign: set<Spot>)

  /** log lists the write sets of the finished commits, oldest first. */
  datatype Db = Db(initial: Store, store: Store, log: seq<Entries>, txs: map<nat, Txn>)

  datatype Mutation =
    | MInsert(table: Table, row: Row)
    | MUpdate(table: Table, was: Row, now: Row)
    | MDelete(table: Table, row: Row)

  datatype Step =
    | Begin(id: nat)
    | Write(id: nat, m: Mutation)
    | StartCommit(id: nat)
    | CommitWrite(id: nat)
    | EndCommit(id: nat)
    | CommitNothing(id: nat)
    | Rollback(id: nat)

  // ------------------------------------------------------------------
  // The machine
  // ------------------------------------------------------------------

  /** The store after a whole number of commits. */
  function After(initial: Store, log: seq<Entries>): Store {
    if log == [] then initial else Apply(After(initial, log[..|log| - 1]), log[|log| - 1])
  }

  function Settled(s: Db): Store { After(s.initial, s.log) }

  function View(x: Txn): Store { Apply(x.base, x.buf) }

  predicate Live(s: Db, i: nat) { i in s.txs && !s.txs[i].phase.Done? }

  predicate Writing(s: Db, i: nat) { i in s.txs && s.txs[i].phase.Committing? }

  predicate LockFree(s: Db) { forall i :: i in s.txs ==> !Writing(s, i) }

  /** The rows an UPDATE or DELETE is given are ones its scan just read. */
  ghost predicate Read(v: Store, t: Table, row: Row) {
    t.pk < |row| && Typed(t, row) && RowKey(t.id, row[t.pk]) in v && v[RowKey(t.id, row[t.pk])] == EncodeRow(row)
  }

  ghost predicate Allowed(h: Host, v: Store, m: Mutation) {
    Addressable(m.table) &&
    match m
    case MInsert(t, row) => InsertOutcome(h, v, t, row).Ok?
    case MUpdate(t, was, now) =>
      && Read(v, t, was) && UpdateOutcome(h, v, t, was, now).Ok?
      && |Validate(h, t, now).value| == |t.columns|
      && (Equal(was[t.pk], Validate(h, t, now).value[t.pk]) ==> was[t.pk] == Validate(h, t, now).value[t.pk])
    case MDelete(t, row) => Read(v, t, row)
  }

  ghost function Writes(h: Host, v: Store, m: Mutation): seq<Entry>
    requires Allowed(h, v, m)
  {
    match m
    case MInsert(t, row) => InsertOutcome(h, v, t, row).value
    case MUpdate(t, was, now) => UpdateOutcome(h, v, t, was, now).value
    case MDelete(t, row) => DeleteWrites(t, row)
  }

  /** The primary keys the mutation concerns. */
  ghost function Pks(h: Host, v: Store, m: Mutation): set<Value>
    requires Allowed(h, v, m)
  {
    match m
    case MInsert(t, row) => ValidateTyped(h, t, row); {Validate(h, t, row).value[t.pk]}
    case MUpdate(t, was, now) => {was[t.pk], Validate(h, t, now).value[t.pk]}
    case MDelete(t, row) => {row[t.pk]}
  }

  ghost function Spots(t: Table, pks: set<Value>): set<Spot> { set p | p in pks :: (t.id, p) }

  /** No transaction alive now, and none that committed during this one's life, has written these keys. */
  ghost predicate Uncontended(s: Db, i: nat, spots: set<Spot>)
    requires i in s.txs
  {
    && spots !! s.txs[i].foreign
    && forall j :: Live(s, j) && j != i ==> spots !! s.txs[j].touched
  }

  ghost predicate Enabled(h: Host, schema: set<Table>, s: Db, step: Step) {
    match step
    case Begin(i) => i !in s.txs && LockFree(s)
    case Write(i, m) =>
      && i in s.txs && s.txs[i].phase.Open? && m.table in schema
      && Allowed(h, View(s.txs[i]), m)
      && Uncontended(s, i, Spots(m.table, Pks(h, View(s.txs[i]), m)))
    case StartCommit(i) => i in s.txs && s.txs[i].phase.Open? && s.txs[i].buf != map[] && LockFree(s) && Keyed(s.txs[i].buf)
    case CommitWrite(i) => Writing(s, i) && s.txs[i].phase.rest != []
    case EndCommit(i) => Writing(s, i) && s.txs[i].phase.rest == []
    case CommitNothing(i) => i in s.txs && s.txs[i].phase.Open? && s.txs[i].buf == map[]
    case Rollback(i) => i in s.txs && s.txs[i].phase.Open?
  }

  /** Once i has committed, the others can no longer write what it wrote. */
  ghost function Told(s: Db, i: nat, x: Txn): Txn
    requires i in s.txs
  {
    x.(foreign := x.foreign + s.txs[i].touched)
  }

  ghost function Next(h: Host, schema: set<Table>, s: Db, step: Step): Db
    requires Enabled(h, schema, s, step)
  {
    match step
    case Begin(i) => s.(txs := s.txs[i := Txn(s.store, |s.log|, map[], Open, {}, {})])
    case Write(i, m) =>
      var x := s.txs[i];
      s.(txs := s.txs[i := x.(buf := PutAll(x.buf, Writes(h, View(x), m)),
                              touched := x.touched + Spots(m.table, Pks(h, View(x), m)))])
    case StartCommit(i) => s.(txs := s.txs[i := s.txs[i].(phase := Committing(Sorted(s.txs[i].buf)))])
    case CommitWrite(i) =>
      var rest := s.txs[i].phase.rest;
      s.(store := ApplyOne(s.store, rest[0]), txs := s.txs[i := s.txs[i].(phase := Committing(rest[1..]))])
    case EndCommit(i) =>
      s.(log := s.log + [s.txs[i].buf],
         txs := map j | j in s.txs :: if j == i then s.txs[i].(phase := Done) else Told(s, i, s.txs[j]))
    case CommitNothing(i) => s.(txs := s.txs[i := s.txs[i].(phase := Done)])
    case Rollback(i) => s.(txs := s.txs[i := s.txs[i].(phase := Done, buf := map[])])
  }

  // ------------------------------------------------------------------
  // The invariant
  // ------------------------------------------------------------------

  ghost function PksOf(spots: set<Spot>, id: uint32): set<Value> { set s | s in spots && s.0 == id :: s.1 }

  /** The row keys of the touched primary keys are written, be it with a row or a tombstone. */
  ghost predicate RowsBuffered(em: Entries, t: Table, pks: set<Value>) { forall p :: p in pks ==> RowKey(t.id, p) in em }

  /** What one live transaction and one table have to do with each other. */
  ghost predicate Sound(settled: Store, x: Txn, t: Table) {
    && Consistent(View(x), t)
    && Touches(x.buf, t, PksOf(x.touched, t.id))
    && RowsBuffered(x.buf, t, PksOf(x.touched, t.id))
    && forall p :: (t.id, p) !in x.foreign ==> SameFor(settled, x.base, t, p)
  }

  ghost predicate SoundTxn(schema: set<Table>, initial: Store, log: seq<Entries>, x: Txn) {
    && Keyed(x.buf)
    && x.began <= |log| && x.base == After(initial, log[..x.began])
    && x.touched !! x.foreign
    && forall t :: t in schema ==> Sound(After(initial, log), x, t)
  }

  /** At most one commit is under way, and it is that far through its write set; one of nothing takes no lock. */
  ghost predicate Locked(s: Db) {
    && (forall i, j :: Writing(s, i) && Writing(s, j) ==> i == j)
    && (LockFree(s) ==> s.store == Settled(s))
    && (forall i :: Writing(s, i) ==> ApplyAll(s.store, s.txs[i].phase.rest) == Apply(Settled(s), s.txs[i].buf))
  }

  ghost predicate DistinctIds(schema: set<Table>) {
    forall t, u :: t in schema && u in schema && t.id == u.id ==> t == u
  }

  ghost predicate Inv(schema: set<Table>, s: Db) {
    && DistinctIds(schema)
    && (forall t :: t in schema ==> Consistent(Settled(s), t))
    && Locked(s)
    && (forall i :: Live(s, i) ==> SoundTxn(schema, s.initial, s.log, s.txs[i]))
    && (forall i, j :: Live(s, i) && Live(s, j) && i != j ==> s.txs[i].touched !! s.txs[j].touched)
  }

  ghost predicate Init(schema: set<Table>, s: Db) {
    && DistinctIds(schema)
    && (forall t :: t in schema ==> Consistent(s.store, t))
    && s.initial == s.store && s.log == [] && s.txs == map[]
  }

  lemma InitInv(schema: set<Table>, s: Db)
    requires Init(schema, s)
    ensures Inv(schema, s)
  {
  }

  // ------------------------------------------------------------------
  // One lemma per step
  // ------------------------------------------------------------------

  lemma BeginInv(h: Host, schema: set<Table>, s: Db, i: nat)
    requires Inv(schema, s) && Enabled(h, schema, s, Begin(i))
    ensures Inv(schema, Next(h, schema, s, Begin(i)))
  {
    hide Consistent, Touches, After, Apply, SoundTxn;
    var n := Next(h, schema, s, Begin(i));
    FreshTxn(schema, s.initial, s.log, s.store);
    assert n.txs.Keys == s.txs.Keys + {i};
    assert forall j :: j in s.txs ==> n.txs[j] == s.txs[j];
  }

  /** A snapshot taken between commits is a whole-commit state, and nothing is buffered over it. */
  lemma FreshTxn(schema: set<Table>, initial: Store, log: seq<Entries>, store: Store)
    requires store == After(initial, log) && forall t :: t in schema ==> Consistent(store, t)
    ensures SoundTxn(schema, initial, log, Txn(store, |log|, map[], Open, {}, {}))
  {
    assert log[..|log|] == log;
    ApplyNothing(store);
  }

  lemma StartCommitInv(h: Host, schema: set<Table>, s: Db, i: nat)
    requires Inv(schema, s) && Enabled(h, schema, s, StartCommit(i))
    ensures Inv(schema, Next(h, schema, s, StartCommit(i)))
  {
    hide Consistent, Touches, After, Apply, ApplyAll, Sorted;
    CommitInstallsView(s.store, s.txs[i].buf);
  }

  lemma CommitWriteInv(h: Host, schema: set<Table>, s: Db, i: nat)
    requires Inv(schema, s) && Enabled(h, schema, s, CommitWrite(i))
    ensures Inv(schema, Next(h, schema, s, CommitWrite(i)))
  {
    hide Consistent, Touches, After, Apply, ApplyOne, Sound;
    var n := Next(h, schema, s, CommitWrite(i));
    assert n.txs.Keys == s.txs.Keys;
    assert Writing(n, i);
    assert forall j :: Writing(n, j) <==> Writing(s, j);
    var rest := s.txs[i].phase.rest;
    assert ApplyAll(s.store, rest) == ApplyAll(ApplyOne(s.store, rest[0]), rest[1..]);
    assert Locked(n);
    PhaseIsNoMatter(schema, s.initial, s.log, s.txs[i], n.txs[i].phase);
  }

  lemma PhaseIsNoMatter(schema: set<Table>, initial: Store, log: seq<Entries>, x: Txn, phase: Phase)
    requires SoundTxn(schema, initial, log, x)
    ensures SoundTxn(schema, initial, log, x.(phase := phase))
  {
    hide Consistent, Touches, After, Apply;
    forall t | t in schema ensures Sound(After(initial, log), x.(phase := phase), t) {
      assert Sound(After(initial, log), x, t);
    }
  }

  lemma RollbackInv(h: Host, schema: set<Table>, s: Db, i: nat)
    requires Inv(schema, s) && Enabled(h, schema, s, Rollback(i))
    ensures Inv(schema, Next(h, schema, s, Rollback(i)))
  {
    hide Consistent, SoundTxn, After, Apply, ApplyAll;
    LeaveInv(schema, s, i, s.txs[i].(phase := Done, buf := map[]));
  }

  lemma CommitNothingInv(h: Host, schema: set<Table>, s: Db, i: nat)
    requires Inv(schema, s) && Enabled(h, schema, s, CommitNothing(i))
    ensures Inv(schema, Next(h, schema, s, CommitNothing(i)))
  {
    hide Consistent, SoundTxn, After, Apply, ApplyAll;
    LeaveInv(schema, s, i, s.txs[i].(phase := Done));
  }

  /** An open transaction that ends without a write leaves the others and the store alone. */
  lemma LeaveInv(schema: set<Table>, s: Db, i: nat, gone: Txn)
    requires Inv(schema, s) && i in s.txs && s.txs[i].phase.Open? && gone.phase.Done?
    ensures Inv(schema, s.(txs := s.txs[i := gone]))
  {
    hide Consistent, Touches, After, Apply, ApplyAll, SoundTxn;
    var n := s.(txs := s.txs[i := gone]);
    assert n.txs.Keys == s.txs.Keys;
    assert forall j :: Writing(n, j) <==> Writing(s, j);
    if LockFree(n) {
      assert LockFree(s);
    }
  }

  // ------------------------------------------------------------------
  // A row write
  // ------------------------------------------------------------------

  lemma ReadRow(v: Store, t: Table, rows: Rows, row: Row)
    requires Represents(v, t, rows) && Read(v, t, row)
    ensures row[t.pk] in rows && rows[row[t.pk]] == row
  {
    EncodeRowInjective(row, rows[row[t.pk]]);
  }

  /** The mutated table stays consistent in the writer's view, and only the named keys are written. */
  lemma WriteOwnTable(h: Host, base: Store, em: Entries, m: Mutation)
    requires Consistent(Apply(base, em), m.table) && Allowed(h, Apply(base, em), m)
    ensures Consistent(Apply(base, PutAll(em, Writes(h, Apply(base, em), m))), m.table)
    ensures WritesOnly(m.table, Pks(h, Apply(base, em), m), Writes(h, Apply(base, em), m))
  {
    hide Represents, Apply, PutAll, WritesOnly;
    var v := Apply(base, em);
    var rows :| Represents(v, m.table, rows);
    match m
    case MInsert(t, row) =>
      InsertTakesEffect(h, base, em, t, rows, row);
      InsertWritesKeys(t, Validate(h, t, row).value);
    case MUpdate(t, was, now) =>
      ReadRow(v, t, rows, was);
      UpdateTakesEffect(h, base, em, t, rows, was, now);
      UpdateWritesKeys(t, was, Validate(h, t, now).value);
    case MDelete(t, row) =>
      ReadRow(v, t, rows, row);
      DeleteTakesEffect(base, em, t, rows, row);
      DeleteWritesKeys(t, row);
  }

  /** What is confined to one table leaves the keys of another alone. */
  lemma ForeignSame(a: Store, b: Store, t: Table, u: Table)
    requires Confined(a, b, t) && t.id != u.id
    ensures forall k :: Owned(u, k) ==> Same(a, b, k)
  {
    hide Owned;
    forall k | Owned(u, k) ensures Same(a, b, k) {
      if Owned(t, k) {
        OwnedByOne(t, u, k);
      }
    }
  }

  lemma WriteOtherTable(base: Store, em: Entries, t: Table, u: Table, pks: set<Value>, ws: seq<Entry>)
    requires Consistent(Apply(base, em), u) && WritesOnly(t, pks, ws) && t.id != u.id
    ensures Consistent(Apply(base, PutAll(em, ws)), u)
  {
    hide Owned, WritesOnly, Represents, Confined, Apply, PutAll, Same;
    var rows :| Represents(Apply(base, em), u, rows);
    WritesConfined(base, em, t, pks, ws);
    ForeignSame(Apply(base, em), Apply(base, PutAll(em, ws)), t, u);
    RepresentsFrame(Apply(base, em), Apply(base, PutAll(em, ws)), u, rows);
  }

  lemma WriteTouches(em: Entries, t: Table, u: Table, pks: set<Value>, ws: seq<Entry>, touched: set<Spot>)
    requires WritesOnly(t, pks, ws) && (t.id == u.id ==> t == u)
    requires Touches(em, u, PksOf(touched, u.id))
    ensures Touches(PutAll(em, ws), u, PksOf(touched + Spots(t, pks), u.id))
  {
    hide Owned, KeyOf;
    var all := PksOf(touched + Spots(t, pks), u.id);
    forall k | k in PutAll(em, ws) && Owned(u, k) ensures exists p :: p in all && KeyOf(u, p, k) {
      PutAllLookup(em, ws, k);
      if LastWrite(ws, k).Some? {
        var p :| p in pks && KeyOf(t, p, k);
        KeyOfOwned(t, p, k);
        OwnedByOne(t, u, k);
        assert (t.id, p) in Spots(t, pks);
        assert p in all;
      } else {
        var p :| p in PksOf(touched, u.id) && KeyOf(u, p, k);
        assert p in all;
      }
    }
  }

  /** Every row write writes the row keys of the primary keys it concerns. */
  lemma WritesCover(h: Host, v: Store, m: Mutation, rows: Rows, p: Value)
    requires Represents(v, m.table, rows) && Allowed(h, v, m) && p in Pks(h, v, m)
    ensures LastWrite(Writes(h, v, m), RowKey(m.table.id, p)).Some?
  {
    hide LastWrite, InsertWrites, UpdateWrites, DeleteWrites, Validate, RowKey, Equal, HoldsRows, HoldsIndex, TypedRows;
    match m
    case MInsert(t, row) =>
      ValidateTyped(h, t, row);
      InsertDecidesRow(t, Validate(h, t, row).value, p);
    case MUpdate(t, was, now) =>
      UpdateDecidesRow(t, was, Validate(h, t, now).value, p);
    case MDelete(t, row) =>
      DeleteDecidesRow(t, row, p);
  }

  lemma WriteBuffers(em: Entries, t: Table, u: Table, pks: set<Value>, ws: seq<Entry>, touched: set<Spot>)
    requires (t.id == u.id ==> t == u) && forall p :: p in pks ==> LastWrite(ws, RowKey(t.id, p)).Some?
    requires RowsBuffered(em, u, PksOf(touched, u.id))
    ensures RowsBuffered(PutAll(em, ws), u, PksOf(touched + Spots(t, pks), u.id))
  {
    hide RowKey, LastWrite, PutAll;
    forall p | p in PksOf(touched + Spots(t, pks), u.id) ensures RowKey(u.id, p) in PutAll(em, ws) {
      PutAllLookup(em, ws, RowKey(u.id, p));
      if (u.id, p) in touched {
        assert p in PksOf(touched, u.id);
      }
    }
  }

  lemma WriteCovered(h: Host, x: Txn, m: Mutation, u: Table)
    requires Consistent(View(x), m.table) && Allowed(h, View(x), m) && (m.table.id == u.id ==> m.table == u)
    requires RowsBuffered(x.buf, u, PksOf(x.touched, u.id))
    ensures RowsBuffered(PutAll(x.buf, Writes(h, View(x), m)), u, PksOf(x.touched + Spots(m.table, Pks(h, View(x), m)), u.id))
  {
    hide Represents, Allowed, Writes, Pks, LastWrite, PutAll, RowKey, RowsBuffered, View;
    var rows :| Represents(View(x), m.table, rows);
    forall p | p in Pks(h, View(x), m) ensures LastWrite(Writes(h, View(x), m), RowKey(m.table.id, p)).Some? {
      WritesCover(h, View(x), m, rows, p);
    }
    WriteBuffers(x.buf, m.table, u, Pks(h, View(x), m), Writes(h, View(x), m), x.touched);
  }

  lemma WriteSound(h: Host, settled: Store, x: Txn, m: Mutation, u: Table)
    requires Sound(settled, x, m.table) && Sound(settled, x, u) && (m.table.id == u.id ==> m.table == u)
    requires Allowed(h, View(x), m)
    ensures Sound(settled, x.(buf := PutAll(x.buf, Writes(h, View(x), m)),
                              touched := x.touched + Spots(m.table, Pks(h, View(x), m))), u)
  {
    hide Consistent, Allowed, Writes, Pks, Apply, PutAll, WritesOnly, Touches, SameFor, RowsBuffered;
    WriteCovered(h, x, m, u);
    WriteOwnTable(h, x.base, x.buf, m);
    if m.table != u {
      WriteOtherTable(x.base, x.buf, m.table, u, Pks(h, View(x), m), Writes(h, View(x), m));
    }
    WriteTouches(x.buf, m.table, u, Pks(h, View(x), m), Writes(h, View(x), m), x.touched);
  }

  lemma WriteInv(h: Host, schema: set<Table>, s: Db, i: nat, m: Mutation)
    requires Inv(schema, s) && Enabled(h, schema, s, Write(i, m))
    ensures Inv(schema, Next(h, schema, s, Write(i, m)))
  {
    hide Consistent, Allowed, Writes, Pks, Apply, ApplyAll, PutAll, After, Sound;
    var n := Next(h, schema, s, Write(i, m));
    var x, y := s.txs[i], n.txs[i];
    assert n.txs.Keys == s.txs.Keys;
    assert forall j :: Writing(n, j) <==> Writing(s, j);
    assert Locked(n);
    PutAllKeyed(x.buf, Writes(h, View(x), m));
    forall u | u in schema ensures Sound(Settled(n), y, u) {
      WriteSound(h, Settled(s), x, m, u);
    }
  }

  // ------------------------------------------------------------------
  // The end of a commit
  // ------------------------------------------------------------------

  lemma AfterSnoc(initial: Store, log: seq<Entries>, em: Entries)
    ensures After(initial, log + [em]) == Apply(After(initial, log), em)
  {
    assert (log + [em])[..|log|] == log;
  }

  /** The committer's touched keys were untouched by others since its snapshot, so its rows merge in. */
  lemma SettleTable(settled: Store, x: Txn, t: Table)
    requires Sound(settled, x, t) && x.touched !! x.foreign && Consistent(settled, t)
    ensures Consistent(Apply(settled, x.buf), t)
  {
    hide Represents, Touches, SameFor, Apply;
    var mine :| Represents(View(x), t, mine);
    var theirs :| Represents(settled, t, theirs);
    var pks := PksOf(x.touched, t.id);
    forall p | p in pks ensures SameFor(settled, x.base, t, p) {
      assert (t.id, p) in x.touched;
    }
    CommitMerges(settled, x.base, x.buf, t, pks, mine, theirs);
  }

  /** Another live transaction only has to learn which keys have changed under it. */
  lemma SettleOther(settled: Store, x: Txn, y: Txn, t: Table)
    requires Sound(settled, x, t) && Sound(settled, y, t)
    ensures Sound(Apply(settled, x.buf), y.(foreign := y.foreign + x.touched), t)
  {
    hide Consistent, Owned, KeyOf, Apply;
    var pks := PksOf(x.touched, t.id);
    forall p | (t.id, p) !in y.foreign + x.touched ensures SameFor(Apply(settled, x.buf), y.base, t, p) {
      assert p !in pks;
      assert SameFor(settled, y.base, t, p);
      forall k | KeyOf(t, p, k) ensures Same(Apply(settled, x.buf), y.base, k) {
        UntouchedKey(x.buf, t, pks, p, k);
        ApplyUntouched(settled, x.buf, k);
      }
    }
  }

  lemma EndCommitTxn(schema: set<Table>, initial: Store, log: seq<Entries>, x: Txn, y: Txn)
    requires SoundTxn(schema, initial, log, x) && SoundTxn(schema, initial, log, y) && x.touched !! y.touched
    ensures SoundTxn(schema, initial, log + [x.buf], y.(foreign := y.foreign + x.touched))
  {
    hide Sound, Apply, After;
    AfterSnoc(initial, log, x.buf);
    assert (log + [x.buf])[..y.began] == log[..y.began];
    forall t | t in schema ensures Sound(After(initial, log + [x.buf]), y.(foreign := y.foreign + x.touched), t) {
      SettleOther(After(initial, log), x, y, t);
    }
  }

  lemma EndCommitInv(h: Host, schema: set<Table>, s: Db, i: nat)
    requires Inv(schema, s) && Enabled(h, schema, s, EndCommit(i))
    ensures Inv(schema, Next(h, schema, s, EndCommit(i)))
  {
    var n, x := Next(h, schema, s, EndCommit(i)), s.txs[i];
    assert Live(s, i);
    assert ApplyAll(s.store, []) == s.store;
    hide Consistent, Sound, Apply, ApplyAll, After;
    assert SoundTxn(schema, s.initial, s.log, x);
    AfterSnoc(s.initial, s.log, x.buf);
    forall t | t in schema ensures Consistent(Settled(n), t) {
      SettleTable(Settled(s), x, t);
    }
    assert forall j :: Writing(n, j) ==> Writing(s, j) && j != i;
    assert LockFree(n) by {
      forall j | j in n.txs ensures !Writing(n, j) {
      }
    }
    assert Locked(n);
    hide SoundTxn;
    forall j | Live(n, j) ensures SoundTxn(schema, n.initial, n.log, n.txs[j]) {
      assert Live(s, j) && j != i;
      EndCommitTxn(schema, s.initial, s.log, x, s.txs[j]);
    }
  }

  // ------------------------------------------------------------------
  // All runs
  // ------------------------------------------------------------------

  lemma StepInv(h: Host, schema: set<Table>, s: Db, step: Step)
    requires Inv(schema, s) && Enabled(h, schema, s, step)
    ensures Inv(schema, Next(h, schema, s, step))
  {
    hide *;
    match step
    case Begin(i) => BeginInv(h, schema, s, i);
    case Write(i, m) => WriteInv(h, schema, s, i, m);
    case StartCommit(i) => StartCommitInv(h, schema, s, i);
    case CommitWrite(i) => CommitWriteInv(h, schema, s, i);
    case EndCommit(i) => EndCommitInv(h, schema, s, i);
    case CommitNothing(i) => CommitNothingInv(h, schema, s, i);
    case Rollback(i) => RollbackInv(h, schema, s, i);
  }

  ghost predicate IsRun(h: Host, schema: set<Table>, run: seq<Db>, steps: seq<Step>) {
    && |run| == |steps| + 1
    && Init(schema, run[0])
    && forall k :: 0 <= k < |steps| ==> Enabled(h, schema, run[k], steps[k]) && run[k + 1] == Next(h, schema, run[k], steps[k])
  }

  lemma {:induction false} RunInv(h: Host, schema: set<Table>, run: seq<Db>, steps: seq<Step>, k: nat)
    requires IsRun(h, schema, run, steps) && k < |run|
    ensures Inv(schema, run[k])
  {
    hide Inv, Init, Enabled, Next;
    if k == 0 {
      InitInv(schema, run[0]);
    } else {
      RunInv(h, schema, run, steps, k - 1);
      StepInv(h, schema, run[k - 1], steps[k - 1]);
    }
  }

  /** Between commits the store is a whole-commit state, with every index in step with its rows. */
  lemma StoreInStep(h: Host, schema: set<Table>, run: seq<Db>, steps: seq<Step>, k: nat, t: Table)
    requires IsRun(h, schema, run, steps) && k < |run| && t in schema && LockFree(run[k])
    ensures run[k].store == After(run[k].initial, run[k].log)
    ensures exists rows :: Represents(run[k].store, t, rows)
  {
    RunInv(h, schema, run, steps, k);
    assert Consistent(Settled(run[k]), t);
  }

  /** So does the view of every transaction, at every moment of its life. */
  lemma ViewInStep(h: Host, schema: set<Table>, run: seq<Db>, steps: seq<Step>, k: nat, i: nat, t: Table)
    requires IsRun(h, schema, run, steps) && k < |run| && t in schema && Live(run[k], i)
    ensures exists rows :: Represents(View(run[k].txs[i]), t, rows)
  {
    RunInv(h, schema, run, steps, k);
    assert Sound(Settled(run[k]), run[k].txs[i], t);
    assert Consistent(View(run[k].txs[i]), t);
  }

  /** Every snapshot is the store after a whole number of commits. */
  lemma SnapshotIsWhole(h: Host, schema: set<Table>, run: seq<Db>, steps: seq<Step>, k: nat, i: nat)
    requires IsRun(h, schema, run, steps) && k < |run| && Live(run[k], i)
    ensures run[k].txs[i].began <= |run[k].log|
    ensures run[k].txs[i].base == After(run[k].initial, run[k].log[..run[k].txs[i].began])
  {
    RunInv(h, schema, run, steps, k);
  }

  predicate Acts(step: Step, i: nat) { step.id == i }

  /** Nothing another session does changes what a transaction reads. */
  lemma {:induction false} ViewIsStable(h: Host, schema: set<Table>, run: seq<Db>, steps: seq<Step>, i: nat, k: nat, l: nat)
    requires IsRun(h, schema, run, steps) && k <= l < |run| && i in run[k].txs
    requires forall j :: k <= j < l ==> !Acts(steps[j], i)
    ensures i in run[l].txs && View(run[l].txs[i]) == View(run[k].txs[i])
    ensures run[l].txs[i].base == run[k].txs[i].base && run[l].txs[i].buf == run[k].txs[i].buf
    decreases l - k
  {
    hide Apply, Init, PutAll, Writes, Pks, Allowed, ApplyOne, Sorted;
    if k < l {
      ViewIsStable(h, schema, run, steps, i, k, l - 1);
      assert !Acts(steps[l - 1], i);
      assert run[l] == Next(h, schema, run[l - 1], steps[l - 1]);
    }
  }

  // ------------------------------------------------------------------
  // Any commit over any store
  // ------------------------------------------------------------------

  /**
   * Take any transaction at any moment of any run, and any consistent store, whatever other writers
   * have made of it since the snapshot: its commit leaves the table consistent if and only if the
   * index entries of the rows it touched, other than those it wrote, are as in the snapshot.
   */
  lemma LiveCommitExact(h: Host, schema: set<Table>, run: seq<Db>, steps: seq<Step>, k: nat, i: nat, t: Table, store: Store)
    requires IsRun(h, schema, run, steps) && k < |run| && t in schema && Live(run[k], i) && Consistent(store, t)
    ensures var x := run[k].txs[i];
            Consistent(Apply(store, x.buf), t) <==> EntriesCurrent(store, x.base, x.buf, t, PksOf(x.touched, t.id))
  {
    RunInv(h, schema, run, steps, k);
    var x := run[k].txs[i];
    LiveSound(schema, run[k], i, t);
    hide Represents, Touches, Apply, EntriesCurrent, Inv, IsRun, SameFor;
    var theirs :| Represents(store, t, theirs);
    var mine :| Represents(View(x), t, mine);
    CommitConsistentExactly(store, x.base, x.buf, t, PksOf(x.touched, t.id), mine, theirs);
  }

  lemma LiveSound(schema: set<Table>, s: Db, i: nat, t: Table)
    requires Inv(schema, s) && t in schema && Live(s, i)
    ensures Sound(Settled(s), s.txs[i], t)
  {
    hide Sound, Consistent, Locked;
  }

  // ------------------------------------------------------------------
  // A commit, step by step
  // ------------------------------------------------------------------

  /** The CommitWrite steps of a commit pass through the stores that writing its entries passes through. */
  lemma {:induction false} CommitWrites(h: Host, schema: set<Table>, s: Db, i: nat, passed: seq<Store>) returns (run: seq<Db>)
    requires Writing(s, i) && Passes(s.store, s.txs[i].phase.rest, passed)
    ensures |run| == |passed| && run[0] == s
    ensures forall k :: 0 <= k < |run| ==> run[k].store == passed[k] && Writing(run[k], i)
    ensures Writing(run[|run| - 1], i) && run[|run| - 1].txs[i].phase.rest == []
    ensures forall k :: 0 <= k < |run| - 1 ==>
              Enabled(h, schema, run[k], CommitWrite(i)) && run[k + 1] == Next(h, schema, run[k], CommitWrite(i))
    decreases |passed|
  {
    hide ApplyOne;
    var rest := s.txs[i].phase.rest;
    if rest == [] {
      run := [s];
    } else {
      var n := Next(h, schema, s, CommitWrite(i));
      PassesTail(s.store, rest, passed);
      var more := CommitWrites(h, schema, n, i, passed[1..]);
      run := [s] + more;
    }
  }

  lemma PassesTail(start: Store, es: seq<Entry>, passed: seq<Store>)
    requires Passes(start, es, passed) && es != []
    ensures Passes(ApplyOne(start, es[0]), es[1..], passed[1..])
  {
    hide ApplyOne;
  }

  /** What a commit does from the lock being taken to its release. */
  function CommitSteps(i: nat, writes: nat): (r: seq<Step>)
    ensures |r| == writes + 2
  {
    [StartCommit(i)] + seq(writes, _ => CommitWrite(i)) + [EndCommit(i)]
  }

  ghost predicate IsStretch(h: Host, schema: set<Table>, run: seq<Db>, steps: seq<Step>) {
    && |run| == |steps| + 1
    && forall k :: 0 <= k < |steps| ==> Enabled(h, schema, run[k], steps[k]) && run[k + 1] == Next(h, schema, run[k], steps[k])
  }

  /**
   * Tx.Commit, whose loop goes through the stores passed, is a stretch of the machine: the lock is
   * taken, one step a key, the lock is released, and the store is at each step where the loop had it.
   */
  lemma CommitIsSteps(h: Host, schema: set<Table>, s: Db, i: nat, passed: seq<Store>) returns (run: seq<Db>)
    requires Enabled(h, schema, s, StartCommit(i)) && Passes(s.store, Sorted(s.txs[i].buf), passed)
    ensures IsStretch(h, schema, run, CommitSteps(i, |passed| - 1)) && run[0] == s
    ensures forall k :: 0 <= k < |passed| ==> run[k + 1].store == passed[k]
    ensures run[|run| - 1].store == passed[|passed| - 1] && run[|run| - 1].txs[i].phase.Done?
  {
    hide ApplyOne, Sorted, LockFree, Told;
    var started := Next(h, schema, s, StartCommit(i));
    var writing := CommitWrites(h, schema, started, i, passed);
    var last := writing[|writing| - 1];
    run := [s] + writing + [Next(h, schema, last, EndCommit(i))];
    StretchOf(h, schema, s, i, writing, run);
  }

  lemma StretchOf(h: Host, schema: set<Table>, s: Db, i: nat, writing: seq<Db>, run: seq<Db>)
    requires Enabled(h, schema, s, StartCommit(i)) && writing != [] && writing[0] == Next(h, schema, s, StartCommit(i))
    requires forall k :: 0 <= k < |writing| - 1 ==>
               Enabled(h, schema, writing[k], CommitWrite(i)) && writing[k + 1] == Next(h, schema, writing[k], CommitWrite(i))
    requires Enabled(h, schema, writing[|writing| - 1], EndCommit(i))
    requires run == [s] + writing + [Next(h, schema, writing[|writing| - 1], EndCommit(i))]
    ensures IsStretch(h, schema, run, CommitSteps(i, |writing| - 1))
  {
    hide Enabled, Next;
    var steps := CommitSteps(i, |writing| - 1);
    forall k | 0 <= k < |steps| ensures Enabled(h, schema, run[k], steps[k]) && run[k + 1] == Next(h, schema, run[k], steps[k]) {
      if 0 < k < |steps| - 1 {
        assert run[k] == writing[k - 1] && run[k + 1] == writing[k] && steps[k] == CommitWrite(i);
      }
    }
  }
}
