// Reading a table through its primary key or one of its indexes: what the scanned
// keys mean, and in which order they come.
module Access {
  import opened Bytes
  import opened Values
  import opened KeyCodec
  import opened Keys
  import opened RowCodec
  import opened Ranges
  import opened Storage
  import opened Schema

  /** None reads the rows themselves, Some(x) walks index x. */
  type Path = Option<Index>

  predicate PathOk(t: Table, x: Path) {
    t.pk < |t.columns| && (x.Some? ==> x.value in t.indexes && x.value.pos < |t.columns|)
  }

  function PathPrefix(t: Table, x: Path): bytes {
    match x
    case None => DataPrefix(t.id)
    case Some(i) => IndexPrefix(t.id, i.id)
  }

  /** The column a path is sorted by. */
  function PathColumn(t: Table, x: Path): nat {
    match x
    case None => t.pk
    case Some(i) => i.pos
  }

  /** The key under which a path finds a row. */
  function PathKey(t: Table, x: Path, row: Row): bytes
    requires PathOk(t, x) && |row| == |t.columns|
  {
    match x
    case None => RowKey(t.id, row[t.pk])
    case Some(i) => IndexKey(t.id, i.id, row[i.pos], row[t.pk])
  }

  /** The primary key a scanned key points at. */
  function KeyPK(x: Path, key: bytes): Result<Value> {
    match x
    case None => RowKeyPK(key)
    case Some(_) =>
      var (v, pk) :- IndexEntry(key);
      Ok(pk)
  }

  /** What a scan makes of one entry: the stored row, or the row the index entry points at. */
  function FetchRow(m: Store, t: Table, x: Path, key: bytes, value: bytes, mask: seq<bool>): Result<Row> {
    match x
    case None => DecodeMasked(value, mask)
    case Some(_) =>
      var pk :- KeyPK(x, key);
      if RowKey(t.id, pk) in m then DecodeMasked(m[RowKey(t.id, pk)], mask) else Err(MissingRow)
  }

  ghost function ScanEntries(m: Store, t: Table, x: Path, bounds: Range): seq<Entry> {
    Listing(m, KeyBytes(bounds, PathPrefix(t, x)).0, KeyBytes(bounds, PathPrefix(t, x)).1)
  }

  lemma KeyPKOfPathKey(t: Table, x: Path, row: Row)
    requires PathOk(t, x) && |row| == |t.columns|
    ensures KeyPK(x, PathKey(t, x, row)) == Ok(row[t.pk])
  {
    match x
    case None => RowKeyRoundTrip(t.id, row[t.pk]);
    case Some(i) => IndexKeyRoundTrip(t.id, i.id, row[i.pos], row[t.pk]);
  }

  lemma PathKeyInterval(t: Table, x: Path, bounds: Range, row: Row)
    requires PathOk(t, x) && |row| == |t.columns|
    ensures InInterval(PathKey(t, x, row), KeyBytes(bounds, PathPrefix(t, x)).0, KeyBytes(bounds, PathPrefix(t, x)).1)
            <==> ByteWithin(bounds, row[PathColumn(t, x)])
  {
    match x
    case None =>
      KeyBytesExact(bounds, DataPrefix(t.id), row[t.pk], []);
      assert DataPrefix(t.id) + Enc(row[t.pk]) + [] == RowKey(t.id, row[t.pk]);
    case Some(i) =>
      KeyBytesExact(bounds, IndexPrefix(t.id, i.id), row[i.pos], Enc(row[t.pk]));
      IndexKeySplit(t.id, i.id, row[i.pos], row[t.pk]);
  }

  /** A key of the store under the path's prefix is some row's key. */
  lemma PathKeyMeans(m: Store, t: Table, rows: Rows, x: Path, k: bytes) returns (p: Value)
    requires Represents(m, t, rows) && PathOk(t, x)
    requires k in m && PathPrefix(t, x) <= k
    ensures p in rows && k == PathKey(t, x, rows[p])
  {
    match x
    case None =>
      p :| k == RowKey(t.id, p);
    case Some(i) =>
      assert HoldsIndex(m, t, i, rows);
      var v, q :| k == IndexKey(t.id, i.id, v, q);
      p := q;
  }

  lemma PathKeyStored(m: Store, t: Table, rows: Rows, x: Path, p: Value)
    requires Represents(m, t, rows) && PathOk(t, x) && p in rows
    ensures PathKey(t, x, rows[p]) in m
    ensures x.None? ==> m[PathKey(t, x, rows[p])] == EncodeRow(rows[p])
  {
    if x.Some? {
      assert HoldsIndex(m, t, x.value, rows);
      assert IndexKey(t.id, x.value.id, rows[p][x.value.pos], p) in m;
    }
  }

  /** An entry of a scan stands for one row of the table, inside the bounds. */
  ghost predicate StandsFor(t: Table, rows: Rows, x: Path, bounds: Range, e: Entry, p: Value)
    requires TypedRows(t, rows) && PathOk(t, x)
  {
    && p in rows
    && e.key == PathKey(t, x, rows[p])
    && ByteWithin(bounds, rows[p][PathColumn(t, x)])
    && (x.None? ==> e.value == EncodeRow(rows[p]))
  }

  lemma EntryStandsFor(m: Store, t: Table, rows: Rows, x: Path, bounds: Range, e: Entry) returns (p: Value)
    requires Represents(m, t, rows) && PathOk(t, x)
    requires e in ScanEntries(m, t, x, bounds)
    ensures StandsFor(t, rows, x, bounds, e, p)
    ensures KeyPK(x, e.key) == Ok(p)
  {
    var inside := Inside(Lift(m), KeyBytes(bounds, PathPrefix(t, x)).0, KeyBytes(bounds, PathPrefix(t, x)).1);
    assert e.key in inside && inside[e.key] == e;
    KeyBytesStaysInside(bounds, PathPrefix(t, x), e.key);
    p := PathKeyMeans(m, t, rows, x, e.key);
    PathKeyInterval(t, x, bounds, rows[p]);
    PathKeyStored(m, t, rows, x, p);
    KeyPKOfPathKey(t, x, rows[p]);
  }

  lemma RowIsScanned(m: Store, t: Table, rows: Rows, x: Path, bounds: Range, p: Value) returns (e: Entry)
    requires Represents(m, t, rows) && PathOk(t, x)
    requires p in rows && ByteWithin(bounds, rows[p][PathColumn(t, x)])
    ensures e in ScanEntries(m, t, x, bounds) && KeyPK(x, e.key) == Ok(p)
  {
    var k := PathKey(t, x, rows[p]);
    PathKeyStored(m, t, rows, x, p);
    PathKeyInterval(t, x, bounds, rows[p]);
    KeyPKOfPathKey(t, x, rows[p]);
    var inside := Inside(Lift(m), KeyBytes(bounds, PathPrefix(t, x)).0, KeyBytes(bounds, PathPrefix(t, x)).1);
    assert k in inside;
    e := inside[k];
    assert e in Sorted(inside);
  }

  /** Whatever an entry stands for is what a scan fetches, as long as that row is still in place. */
  lemma FetchesRow(m: Store, t: Table, rows: Rows, x: Path, bounds: Range, e: Entry, p: Value, mask: seq<bool>)
    requires TypedRows(t, rows) && PathOk(t, x) && |mask| == |t.columns|
    requires StandsFor(t, rows, x, bounds, e, p)
    requires x.Some? ==> RowKey(t.id, p) in m && m[RowKey(t.id, p)] == EncodeRow(rows[p])
    ensures FetchRow(m, t, x, e.key, e.value, mask) == Ok(Masked(rows[p], mask))
  {
    KeyPKOfPathKey(t, x, rows[p]);
    DecodeMaskedEncodeRow(rows[p], mask);
  }

  /** Two entries of one scan stand for different rows. */
  lemma ScanVisitsOnce(m: Store, t: Table, rows: Rows, x: Path, bounds: Range, i: nat, j: nat)
    requires Represents(m, t, rows) && PathOk(t, x)
    requires i < j < |ScanEntries(m, t, x, bounds)|
    ensures KeyPK(x, ScanEntries(m, t, x, bounds)[i].key) != KeyPK(x, ScanEntries(m, t, x, bounds)[j].key)
  {
    var es := ScanEntries(m, t, x, bounds);
    var p := EntryStandsFor(m, t, rows, x, bounds, es[i]);
    var q := EntryStandsFor(m, t, rows, x, bounds, es[j]);
    assert Before(es[i].key, es[j].key);
    CmpRange(es[i].key, es[j].key);
  }

  /** The order a path returns rows in: by its column, then by primary key. */
  function PathOrder(t: Table, x: Path, a: Row, b: Row): int
    requires PathOk(t, x) && |a| == |b| == |t.columns|
  {
    if ByteOrder(a[PathColumn(t, x)], b[PathColumn(t, x)]) != 0
    then ByteOrder(a[PathColumn(t, x)], b[PathColumn(t, x)])
    else ByteOrder(a[t.pk], b[t.pk])
  }

  lemma PathKeyOrder(t: Table, x: Path, a: Row, b: Row)
    requires PathOk(t, x) && |a| == |b| == |t.columns|
    ensures Cmp(PathKey(t, x, a), PathKey(t, x, b)) == PathOrder(t, x, a, b)
  {
    EncodeOrder(a[PathColumn(t, x)], b[PathColumn(t, x)]);
    EncodeOrder(a[t.pk], b[t.pk]);
    match x
    case None =>
      CmpCancel(DataPrefix(t.id), Enc(a[t.pk]), Enc(b[t.pk]));
    case Some(i) =>
      EncPair(a[i.pos], a[t.pk]);
      EncPair(b[i.pos], b[t.pk]);
      CmpCancel(IndexPrefix(t.id, i.id), Enc(a[i.pos]) + Enc(a[t.pk]), Enc(b[i.pos]) + Enc(b[t.pk]));
      if a[i.pos] == b[i.pos] {
        ByteOrderSelf(a[i.pos], b[i.pos]);
        CmpCancel(Enc(a[i.pos]), Enc(a[t.pk]), Enc(b[t.pk]));
      } else {
        CmpDiverge(Enc(a[i.pos]), Enc(b[i.pos]), Enc(a[t.pk]), Enc(b[t.pk]));
      }
  }
}
