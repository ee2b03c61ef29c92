// UPDATE and DELETE run while their own scan is open (exec/dml.go, exec/operators.go).
module Statements {
  import opened Bytes
  import opened Values
  import opened Ast
  import opened Eval
  import opened Keys
  import opened RowCodec
  import opened Ranges
  import opened Storage
  import opened Schema
  import opened Dml
  import opened Mutators
  import opened Access

  function EnvFrom(cols: seq<Schema.Column>): (env: Env)
    ensures forall n :: n in env ==> env[n] < |cols| && cols[env[n]].name == n
    ensures forall i :: 0 <= i < |cols| ==> cols[i].name in env
  {
    if cols == [] then map[] else EnvFrom(cols[..|cols| - 1])[cols[|cols| - 1].name := |cols| - 1]
  }

  /** Every column of the table at its position. */
  function TableEnv(t: Table): Env { EnvFrom(t.columns) }

  function FullMask(t: Table): seq<bool> { seq(|t.columns|, i => true) }

  // ------------------------------------------------------------------
  // Table and index scans over the overlay
  // ------------------------------------------------------------------

  /** How one entry of a scan becomes a row. */
  lemma FetchRowIs(m: Store, t: Table, x: Path, key: bytes, value: bytes, mask: seq<bool>)
    ensures x.None? ==> FetchRow(m, t, x, key, value, mask) == DecodeMasked(value, mask)
    ensures x.Some? && KeyPK(x, key).Err? ==> FetchRow(m, t, x, key, value, mask) == Err(KeyPK(x, key).error)
    ensures x.Some? && KeyPK(x, key).Ok? ==>
              var k := RowKey(t.id, KeyPK(x, key).value);
              FetchRow(m, t, x, key, value, mask) == if k in m then DecodeMasked(m[k], mask) else Err(MissingRow)
  {
    hide KeyPK, DecodeMasked, RowKey;
  }

  lemma LookupIs(m: Store, k: bytes)
    ensures Lookup(m, k) == if k in m then Ok(m[k]) else Err(NotFound)
  {
  }

  class Scan {
    const rw: Overlay
    const table: Table
    const path: Path
    const mask: seq<bool>
    const it: OverlayIter
    var done: bool

    constructor (rw: Overlay, table: Table, path: Path, mask: seq<bool>, it: OverlayIter)
      ensures this.rw == rw && this.table == table && this.path == path && this.mask == mask && this.it == it
      ensures !done
    {
      this.rw, this.table, this.path, this.mask, this.it := rw, table, path, mask, it;
      done := false;
    }

    /** The next row of the scan's frozen key list; an index scan fetches it from the current view. */
    method Next() returns (r: Result<Option<Row>>)
      requires it.Valid() && rw.Valid()
      modifies `done, it, it.base
      ensures it.Valid()
      ensures old(done) || old(it.Rest()) == [] ==> r == Ok(None) && done && (!old(done) ==> it.Rest() == [])
      ensures !old(done) && old(it.Rest()) != [] ==> !done && it.Rest() == old(it.Rest())[1..]
      ensures !old(done) && old(it.Rest()) != [] ==>
                match FetchRow(rw.View(), table, path, old(it.Rest())[0].key, old(it.Rest())[0].value, mask)
                case Ok(row) => r == Ok(Some(row))
                case Err(e) => r == Err(e)
    {
      hide *;
      if it.Rest() != [] {
        FetchRowIs(rw.View(), table, path, it.Rest()[0].key, it.Rest()[0].value, mask);
      }
      if done {
        return Ok(None);
      }
      var ok := it.Next();
      if !ok {
        done := true;
        return Ok(None);
      }
      var blob := it.value;
      if path.Some? {
        var pk := KeyPK(path, it.key);
        if pk.Err? {
          return Err(pk.error);
        }
        var found := rw.Get(RowKey(table.id, pk.value));
        LookupIs(rw.View(), RowKey(table.id, pk.value));
        if found.Err? {
          return Err(MissingRow);
        }
        blob := found.value;
      }
      var row := DecodeRowMasked(blob, mask);
      match row
      case Err(e) => r := Err(e);
      case Ok(w) => r := Ok(Some(w));
    }
  }

  method OpenScan(rw: Overlay, t: Table, x: Path, bounds: Range, mask: seq<bool>) returns (s: Scan)
    requires rw.Valid()
    modifies rw.buf
    ensures rw.Valid() && rw.buf.m == old(rw.buf.m)
    ensures fresh(s) && fresh(s.it) && fresh(s.it.base) && s.it.Valid() && !s.done
    ensures s.rw == rw && s.table == t && s.path == x && s.mask == mask
    ensures s.it.Rest() == ScanEntries(rw.View(), t, x, bounds)
  {
    var it := rw.Scan(KeyBytes(bounds, PathPrefix(t, x)).0, KeyBytes(bounds, PathPrefix(t, x)).1);
    s := new Scan(rw, t, x, mask, it);
  }

  // ------------------------------------------------------------------
  // What a statement is to do
  // ------------------------------------------------------------------

  datatype Assignment = Assignment(column: nat, value: Expr)

  /** The right-hand sides all read the row as it was. */
  function ApplySets(h: Host, env: Env, sets: seq<Assignment>, was: Row): (r: Result<Row>)
    requires forall a :: a in sets ==> a.column < |was|
    ensures r.Ok? ==> |r.value| == |was|
  {
    if sets == [] then Ok(was)
    else
      var last := sets[|sets| - 1];
      var row :- ApplySets(h, env, sets[..|sets| - 1], was);
      var v :- EvalExpr(h, last.value, env, was);
      Ok(row[last.column := v])
  }

  /** Assignment k is the last to column c. */
  predicate LastFor(sets: seq<Assignment>, k: nat, c: nat) {
    k < |sets| && sets[k].column == c && forall l :: k < l < |sets| ==> sets[l].column != c
  }

  /** What stands in column c afterwards: what its last right-hand side was on the old row, or what it held. */
  ghost predicate SetColumn(h: Host, env: Env, sets: seq<Assignment>, was: Row, c: nat, v: Value)
    requires c < |was|
  {
    && ((forall k :: 0 <= k < |sets| ==> sets[k].column != c) ==> v == was[c])
    && (forall k: nat :: LastFor(sets, k, c) ==> EvalExpr(h, sets[k].value, env, was) == Ok(v))
  }

  /** Right-hand side k fails on the old row, and none before it does. */
  ghost predicate FirstFailure(h: Host, env: Env, sets: seq<Assignment>, was: Row, k: nat, e: Error) {
    && k < |sets| && EvalExpr(h, sets[k].value, env, was) == Err(e)
    && forall l :: 0 <= l < k ==> EvalExpr(h, sets[l].value, env, was).Ok?
  }

  ghost predicate SetsDone(h: Host, env: Env, sets: seq<Assignment>, was: Row, r: Result<Row>) {
    && (r.Ok? ==> forall k :: 0 <= k < |sets| ==> EvalExpr(h, sets[k].value, env, was).Ok?)
    && (r.Ok? ==> |r.value| == |was| && forall c :: 0 <= c < |was| ==> SetColumn(h, env, sets, was, c, r.value[c]))
    && (r.Err? ==> exists k :: FirstFailure(h, env, sets, was, k, r.error))
  }

  lemma SetColumnSnoc(h: Host, env: Env, sets: seq<Assignment>, was: Row, c: nat, v: Value)
    requires sets != [] && c < |was|
    requires if sets[|sets| - 1].column == c then EvalExpr(h, sets[|sets| - 1].value, env, was) == Ok(v)
             else SetColumn(h, env, sets[..|sets| - 1], was, c, v)
    ensures SetColumn(h, env, sets, was, c, v)
  {
    hide EvalExpr;
    var n := |sets| - 1;
    var init := sets[..n];
    assert forall k :: 0 <= k < n ==> init[k] == sets[k];
    forall k: nat | LastFor(sets, k, c) ensures EvalExpr(h, sets[k].value, env, was) == Ok(v) {
      if sets[n].column == c {
        assert k == n;
      } else {
        assert LastFor(init, k, c);
      }
    }
  }

  /** Columns without an assignment keep their value, the others get their last right-hand side, all read from the old row. */
  lemma {:induction false} SetsMean(h: Host, env: Env, sets: seq<Assignment>, was: Row)
    requires forall a :: a in sets ==> a.column < |was|
    ensures SetsDone(h, env, sets, was, ApplySets(h, env, sets, was))
  {
    if sets != [] {
      hide EvalExpr, SetColumn;
      var n := |sets| - 1;
      var init := sets[..n];
      assert forall k :: 0 <= k < n ==> init[k] == sets[k];
      SetsMean(h, env, init, was);
      var before, r := ApplySets(h, env, init, was), ApplySets(h, env, sets, was);
      if before.Err? {
        var k :| FirstFailure(h, env, init, was, k, before.error);
        assert FirstFailure(h, env, sets, was, k, r.error);
      } else if r.Err? {
        assert FirstFailure(h, env, sets, was, n, r.error);
      } else {
        forall c | 0 <= c < |was| ensures SetColumn(h, env, sets, was, c, r.value[c]) {
          SetColumnSnoc(h, env, sets, was, c, r.value[c]);
        }
      }
    } else {
      NothingSet(h, env, was);
    }
  }

  lemma NothingSet(h: Host, env: Env, was: Row)
    ensures SetsDone(h, env, [], was, Ok(was))
  {
    assert forall c: nat :: c < |was| ==> SetColumn(h, env, [], was, c, was[c]);
  }

  /** The stored image of a row: assignments from the old row, then validation. */
  function Image(h: Host, t: Table, sets: seq<Assignment>, was: Row): Result<Row>
    requires forall a :: a in sets ==> a.column < |was|
  {
    var now :- ApplySets(h, TableEnv(t), sets, was);
    Validate(h, t, now)
  }

  /** Column c stores, as its kind has it, what was last assigned to it or what it held. */
  ghost predicate ColumnDescribed(h: Host, t: Table, sets: seq<Assignment>, was: Row, c: nat, w: Value)
    requires c < |was| == |t.columns|
  {
    exists v :: SetColumn(h, TableEnv(t), sets, was, c, v) && ColumnTakes(h, t, c, v, w)
  }

  /** A stored image, column by column from the old row. */
  ghost predicate Described(h: Host, t: Table, sets: seq<Assignment>, was: Row, image: Row) {
    |was| == |image| == |t.columns| && forall c :: 0 <= c < |was| ==> ColumnDescribed(h, t, sets, was, c, image[c])
  }

  /** Why there is no image: a right-hand side fails on the old row, or the new row is not valid. */
  ghost predicate Undescribed(h: Host, t: Table, sets: seq<Assignment>, was: Row, e: Error) {
    || (exists k :: FirstFailure(h, TableEnv(t), sets, was, k, e))
    || (exists now :: SetsDone(h, TableEnv(t), sets, was, Ok(now)) && RowRefused(h, t, now, e))
  }

  lemma ImageMeans(h: Host, t: Table, sets: seq<Assignment>, was: Row)
    requires forall a :: a in sets ==> a.column < |was|
    ensures match Image(h, t, sets, was)
            case Ok(image) => Described(h, t, sets, was, image)
            case Err(e) => Undescribed(h, t, sets, was, e)
  {
    hide EvalExpr, ApplySets, Validate, SetColumn, ColumnTakes, RowRefused;
    SetsMean(h, TableEnv(t), sets, was);
    var now := ApplySets(h, TableEnv(t), sets, was);
    if now.Ok? {
      ValidateMeans(h, t, now.value);
      if Validate(h, t, now.value).Ok? {
        DescribedFrom(h, t, sets, was, now.value, Validate(h, t, now.value).value);
      }
    }
  }

  lemma DescribedFrom(h: Host, t: Table, sets: seq<Assignment>, was: Row, now: Row, image: Row)
    requires SetsDone(h, TableEnv(t), sets, was, Ok(now)) && RowTakes(h, t, now, image)
    ensures Described(h, t, sets, was, image)
  {
    hide EvalExpr, SetColumn, ColumnTakes;
    forall c | 0 <= c < |was| ensures ColumnDescribed(h, t, sets, was, c, image[c]) {
      assert SetColumn(h, TableEnv(t), sets, was, c, now[c]) && ColumnTakes(h, t, c, now[c], image[c]);
    }
  }

  /** The rows a statement is about: inside the scanned bounds and TRUE under the filter. */
  predicate Matches(h: Host, t: Table, x: Path, bounds: Range, pred: Option<Expr>, row: Row)
    requires PathOk(t, x) && |row| == |t.columns|
  {
    && ByteWithin(bounds, row[PathColumn(t, x)])
    && (pred.Some? ==> EvalPredicate(h, pred.value, TableEnv(t), row) == Ok(True))
  }

  ghost function MatchingKeys(h: Host, t: Table, rows: Rows, x: Path, bounds: Range, pred: Option<Expr>): set<Value>
    requires TypedRows(t, rows) && PathOk(t, x)
  {
    set p | p in rows && Matches(h, t, x, bounds, pred, rows[p])
  }

  predicate SetsFit(t: Table, sets: seq<Assignment>) { forall a :: a in sets ==> a.column < |t.columns| }

  /** types.Equal tells an old primary key from a new one whenever they differ. */
  ghost predicate KeysTellApart(h: Host, t: Table, rows: Rows, sets: seq<Assignment>)
    requires TypedRows(t, rows) && SetsFit(t, sets)
  {
    forall p, image :: p in rows && Image(h, t, sets, rows[p]) == Ok(image) && t.pk < |image| && Equal(p, image[t.pk])
      ==> p == image[t.pk]
  }

  /** The same of one row and its image. */
  ghost predicate RowTold(h: Host, t: Table, sets: seq<Assignment>, was: Row) {
    && t.pk < |was| == |t.columns| && SetsFit(t, sets)
    && forall image :: Image(h, t, sets, was) == Ok(image) && t.pk < |image| && Equal(was[t.pk], image[t.pk])
         ==> was[t.pk] == image[t.pk]
  }

  /** And of the rows under some keys: what an UPDATE asks of the rows it finds. */
  ghost predicate AllTold(h: Host, t: Table, rows: Rows, sets: seq<Assignment>, keys: set<Value>) {
    forall p :: p in keys && p in rows ==> RowTold(h, t, sets, rows[p])
  }

  lemma {:induction false} ValidateKeeps(h: Host, t: Table, row: Row, i: nat, c: nat)
    requires |row| == |t.columns| && i <= |row| && c < |row| && ValidateFrom(h, t, row, i).Ok?
    requires row[c].Null? || row[c].Kind() == t.columns[c].kind
    ensures c < |ValidateFrom(h, t, row, i).value| && ValidateFrom(h, t, row, i).value[c] == row[c]
    decreases |row| - i
  {
    if i < |row| {
      ValidateKeeps(h, t, row[i := Coerce(h, row[i], t.columns[i].kind).value], i + 1, c);
    }
  }

  lemma {:induction false} SetsKeep(h: Host, env: Env, sets: seq<Assignment>, was: Row, c: nat)
    requires c < |was| && (forall a :: a in sets ==> a.column < |was|) && ApplySets(h, env, sets, was).Ok?
    requires forall a :: a in sets ==> a.column != c
    ensures ApplySets(h, env, sets, was).value[c] == was[c]
  {
    if sets != [] {
      SetsKeep(h, env, sets[..|sets| - 1], was, c);
    }
  }

  /** The primary key is no FLOAT, or no assignment is to it. */
  predicate KeySafe(t: Table, sets: seq<Assignment>) {
    t.pk < |t.columns| && (t.columns[t.pk].kind != KFloat || forall a :: a in sets ==> a.column != t.pk)
  }

  lemma SafeImage(h: Host, t: Table, sets: seq<Assignment>, was: Row, image: Row)
    requires SetsFit(t, sets) && KeySafe(t, sets) && Typed(t, was) && Image(h, t, sets, was) == Ok(image)
    ensures t.pk < |image| && (Equal(was[t.pk], image[t.pk]) ==> was[t.pk] == image[t.pk])
  {
    var now := ApplySets(h, TableEnv(t), sets, was).value;
    ValidateTyped(h, t, now);
    if t.columns[t.pk].kind != KFloat {
      PlainEqual(was[t.pk], image[t.pk]);
    } else {
      SetsKeep(h, TableEnv(t), sets, was, t.pk);
      ValidateKeeps(h, t, now, 0, t.pk);
    }
  }

  /** On such a table, or with such assignments, types.Equal never takes one primary key for another. */
  lemma SafeKeysTold(h: Host, t: Table, rows: Rows, sets: seq<Assignment>)
    requires TypedRows(t, rows) && SetsFit(t, sets) && KeySafe(t, sets)
    ensures KeysTellApart(h, t, rows, sets)
  {
    hide Image;
    forall p, image | p in rows && Image(h, t, sets, rows[p]) == Ok(image)
      ensures t.pk < |image| && (Equal(p, image[t.pk]) ==> p == image[t.pk])
    {
      SafeImage(h, t, sets, rows[p], image);
    }
  }

  /** New rows, filed under the primary keys of the rows they replace. */
  ghost predicate ImagesOf(h: Host, t: Table, rows: Rows, sets: seq<Assignment>, images: Rows)
    requires TypedRows(t, rows) && SetsFit(t, sets)
  {
    images.Keys <= rows.Keys && forall p :: p in images ==> Image(h, t, sets, rows[p]) == Ok(images[p])
  }

  /** Each image is described from the row it replaces. */
  ghost predicate AllDescribed(h: Host, t: Table, rows: Rows, sets: seq<Assignment>, images: Rows) {
    images.Keys <= rows.Keys && forall p :: p in images ==> Described(h, t, sets, rows[p], images[p])
  }

  lemma ImagesDescribed(h: Host, t: Table, rows: Rows, sets: seq<Assignment>, images: Rows)
    requires TypedRows(t, rows) && SetsFit(t, sets) && ImagesOf(h, t, rows, sets, images)
    ensures AllDescribed(h, t, rows, sets, images)
  {
    hide Image, Described;
    forall p | p in images ensures Described(h, t, sets, rows[p], images[p]) {
      TypedWide(t, rows[p]);
      ImageMeans(h, t, sets, rows[p]);
    }
  }

  ghost predicate Wide(t: Table, images: Rows) {
    t.pk < |t.columns| && forall p :: p in images ==> |images[p]| == |t.columns|
  }

  // The parts of Swapped, below.

  ghost predicate Kept(rows: Rows, images: Rows, after: Rows) {
    forall p :: p in rows && p !in images ==> p in after && after[p] == rows[p]
  }

  ghost predicate Installed(t: Table, images: Rows, after: Rows)
    requires Wide(t, images)
  {
    forall p :: p in images ==> images[p][t.pk] in after && after[images[p][t.pk]] == images[p]
  }

  ghost predicate IsImageKey(t: Table, images: Rows, q: Value)
    requires Wide(t, images)
  {
    exists p :: p in images && images[p][t.pk] == q
  }

  ghost predicate NothingElse(t: Table, rows: Rows, images: Rows, after: Rows)
    requires Wide(t, images)
  {
    forall q :: q in after ==> (q in rows && q !in images) || IsImageKey(t, images, q)
  }

  ghost predicate Apart(t: Table, rows: Rows, images: Rows)
    requires Wide(t, images)
  {
    && (forall p :: p in images ==> images[p][t.pk] !in rows || images[p][t.pk] in images)
    && (forall p, q :: p in images && q in images && images[p][t.pk] == images[q][t.pk] ==> p == q)
  }

  /**
   * The rows filed in images have given way to their images, every other row is untouched,
   * and no two of the resulting rows share a key.
   */
  ghost predicate Swapped(t: Table, rows: Rows, images: Rows, after: Rows)
    requires Wide(t, images)
  {
    && images.Keys <= rows.Keys
    && Kept(rows, images, after)
    && Installed(t, images, after)
    && NothingElse(t, rows, images, after)
    && Apart(t, rows, images)
  }

  /** The image's key is free, and the other images' keys avoid it and the row it replaces. */
  lemma FreshImage(t: Table, rows: Rows, images: Rows, cur: Rows, p: Value, image: Row)
    requires Wide(t, images) && |image| == |t.columns| && Swapped(t, rows, images, cur)
    requires p in rows && p !in images && (image[t.pk] == p || image[t.pk] !in cur)
    ensures forall q :: q in images ==> images[q][t.pk] != p && images[q][t.pk] != image[t.pk]
    ensures image[t.pk] != p ==> image[t.pk] !in rows || image[t.pk] in images
  {
  }

  lemma SwapOneMore(t: Table, rows: Rows, images: Rows, cur: Rows, p: Value, image: Row)
    requires TypedRows(t, rows) && Wide(t, images) && |image| == |t.columns|
    requires Swapped(t, rows, images, cur)
    requires p in rows && p !in images
    requires image[t.pk] == p || image[t.pk] !in cur
    ensures Wide(t, images[p := image])
    ensures Swapped(t, rows, images[p := image], Replaced(t, cur, rows[p], image))
  {
    FreshImage(t, rows, images, cur, p, image);
    assert Swapping(t, rows, images, cur, p, image);
    SwapKeeps(t, rows, images, cur, p, image);
    SwapInstalls(t, rows, images, cur, p, image);
    SwapAddsNothing(t, rows, images, cur, p, image);
    SwapApart(t, rows, images, cur, p, image);
    hide Kept, Installed, NothingElse, Apart, Replaced;
  }

  lemma SwapApart(t: Table, rows: Rows, images: Rows, cur: Rows, p: Value, image: Row)
    requires Swapping(t, rows, images, cur, p, image) && Wide(t, images[p := image])
    requires image[t.pk] != p ==> image[t.pk] !in rows || image[t.pk] in images
    ensures Apart(t, rows, images[p := image])
  {
  }

  /** The situation SwapOneMore is in, with what FreshImage adds. */
  ghost predicate Swapping(t: Table, rows: Rows, images: Rows, cur: Rows, p: Value, image: Row) {
    && Wide(t, images) && |image| == |t.columns| && Swapped(t, rows, images, cur)
    && p in rows && p !in images && |rows[p]| == |t.columns| && rows[p][t.pk] == p
    && (image[t.pk] == p || image[t.pk] !in cur)
    && (forall q :: q in images ==> images[q][t.pk] != p && images[q][t.pk] != image[t.pk])
  }

  lemma SwapKeeps(t: Table, rows: Rows, images: Rows, cur: Rows, p: Value, image: Row)
    requires Swapping(t, rows, images, cur, p, image)
    ensures Kept(rows, images[p := image], Replaced(t, cur, rows[p], image))
  {
    forall q | q in rows && q !in images[p := image]
      ensures q in Replaced(t, cur, rows[p], image) && Replaced(t, cur, rows[p], image)[q] == rows[q]
    {
      ReplacedLookup(t, cur, rows[p], image, q);
    }
  }

  lemma SwapInstalls(t: Table, rows: Rows, images: Rows, cur: Rows, p: Value, image: Row)
    requires Swapping(t, rows, images, cur, p, image) && Wide(t, images[p := image])
    ensures Installed(t, images[p := image], Replaced(t, cur, rows[p], image))
  {
    var more := images[p := image];
    forall q | q in more
      ensures more[q][t.pk] in Replaced(t, cur, rows[p], image)
      ensures Replaced(t, cur, rows[p], image)[more[q][t.pk]] == more[q]
    {
      ReplacedLookup(t, cur, rows[p], image, more[q][t.pk]);
    }
  }

  lemma SwapAddsNothing(t: Table, rows: Rows, images: Rows, cur: Rows, p: Value, image: Row)
    requires Swapping(t, rows, images, cur, p, image) && Wide(t, images[p := image])
    ensures NothingElse(t, rows, images[p := image], Replaced(t, cur, rows[p], image))
  {
    var more := images[p := image];
    forall q | q in Replaced(t, cur, rows[p], image)
      ensures (q in rows && q !in more) || IsImageKey(t, more, q)
    {
      ReplacedLookup(t, cur, rows[p], image, q);
      if q == image[t.pk] {
        assert more[p][t.pk] == q;
      } else if IsImageKey(t, images, q) {
        var o :| o in images && images[o][t.pk] == q;
        assert more[o][t.pk] == q;
      }
    }
  }

  ghost function ImageKeys(t: Table, images: Rows): set<Value>
    requires Wide(t, images)
  {
    set p | p in images :: images[p][t.pk]
  }

  lemma ImageKeysLess(t: Table, images: Rows, p: Value)
    requires Wide(t, images) && p in images
    requires forall p, q :: p in images && q in images && images[p][t.pk] == images[q][t.pk] ==> p == q
    ensures images[p][t.pk] !in ImageKeys(t, images - {p})
    ensures ImageKeys(t, images) == ImageKeys(t, images - {p}) + {images[p][t.pk]}
  {
    var less := images - {p};
    forall k ensures k in ImageKeys(t, images) <==> k in ImageKeys(t, less) || k == images[p][t.pk] {
      if k in ImageKeys(t, images) && k != images[p][t.pk] {
        var q :| q in images && images[q][t.pk] == k;
        assert q in less && less[q][t.pk] == k;
      }
    }
  }

  lemma {:induction false} ImagesCount(t: Table, images: Rows)
    requires Wide(t, images)
    requires forall p, q :: p in images && q in images && images[p][t.pk] == images[q][t.pk] ==> p == q
    ensures |ImageKeys(t, images)| == |images|
    decreases |images|
  {
    if images != map[] {
      var p :| p in images;
      var less := images - {p};
      ImagesCount(t, less);
      ImageKeysLess(t, images, p);
      hide ImageKeys, Wide;
      assert |images| == |less| + 1;
    }
  }

  lemma SwappedKeys(t: Table, rows: Rows, images: Rows, after: Rows)
    requires Wide(t, images) && Swapped(t, rows, images, after)
    ensures after.Keys == (rows.Keys - images.Keys) + ImageKeys(t, images)
    ensures (rows.Keys - images.Keys) !! ImageKeys(t, images)
  {
    forall q | q in after.Keys ensures q in (rows.Keys - images.Keys) + ImageKeys(t, images) {
      if !(q in rows && q !in images) {
        assert IsImageKey(t, images, q);
      }
    }
  }

  lemma SplitCount(all: set<Value>, part: set<Value>)
    requires part <= all
    ensures |all - part| + |part| == |all|
  {
    assert all == (all - part) + part;
  }

  /** Swapping neither loses nor adds a row. */
  lemma SwapKeepsCount(t: Table, rows: Rows, images: Rows, after: Rows)
    requires Wide(t, images) && Swapped(t, rows, images, after)
    ensures |after| == |rows|
  {
    ImagesCount(t, images);
    SwappedKeys(t, rows, images, after);
    SplitCount(rows.Keys, images.Keys);
    assert |after.Keys| == |rows.Keys - images.Keys| + |ImageKeys(t, images)|;
    assert |images.Keys| == |images| && |rows.Keys| == |rows| && |after.Keys| == |after|;
  }

  lemma NothingSwapped(t: Table, rows: Rows)
    requires t.pk < |t.columns|
    ensures Wide(t, map[]) && Swapped(t, rows, map[], rows)
  {
  }

  // ------------------------------------------------------------------
  // Progress of an open scan
  // ------------------------------------------------------------------

  /** ps names, entry by entry, the distinct rows a scan of rows visits. */
  ghost predicate Visits(t: Table, rows: Rows, x: Path, bounds: Range, es: seq<Entry>, ps: seq<Value>) {
    && TypedRows(t, rows) && PathOk(t, x) && |ps| == |es|
    && (forall i :: 0 <= i < |es| ==> StandsFor(t, rows, x, bounds, es[i], ps[i]))
    && (forall i, j :: 0 <= i < j < |ps| ==> ps[i] != ps[j])
    && (forall p :: p in rows && ByteWithin(bounds, rows[p][PathColumn(t, x)]) ==> p in ps)
  }

  /** ps names the rows behind the first entries of a scan. */
  ghost predicate Names(t: Table, rows: Rows, x: Path, bounds: Range, es: seq<Entry>, ps: seq<Value>)
    requires TypedRows(t, rows) && PathOk(t, x)
  {
    |ps| <= |es| && forall i :: 0 <= i < |ps| ==> StandsFor(t, rows, x, bounds, es[i], ps[i]) && KeyPK(x, es[i].key) == Ok(ps[i])
  }

  function EntryPK(x: Path, e: Entry): Value { if KeyPK(x, e.key).Ok? then KeyPK(x, e.key).value else Null }

  function EntryPKs(x: Path, es: seq<Entry>): (ps: seq<Value>)
    ensures |ps| == |es|
  {
    seq(|es|, i requires 0 <= i < |es| => EntryPK(x, es[i]))
  }

  lemma EntriesNamed(m: Store, t: Table, rows: Rows, x: Path, bounds: Range)
    requires Represents(m, t, rows) && PathOk(t, x)
    ensures Names(t, rows, x, bounds, ScanEntries(m, t, x, bounds), EntryPKs(x, ScanEntries(m, t, x, bounds)))
  {
    var es := ScanEntries(m, t, x, bounds);
    forall i | 0 <= i < |es|
      ensures StandsFor(t, rows, x, bounds, es[i], EntryPKs(x, es)[i]) && KeyPK(x, es[i].key) == Ok(EntryPKs(x, es)[i])
    {
      var p := EntryStandsFor(m, t, rows, x, bounds, es[i]);
    }
  }

  lemma NamesDistinct(m: Store, t: Table, rows: Rows, x: Path, bounds: Range, ps: seq<Value>, i: nat, j: nat)
    requires Represents(m, t, rows) && PathOk(t, x) && Names(t, rows, x, bounds, ScanEntries(m, t, x, bounds), ps)
    requires i < j < |ps|
    ensures ps[i] != ps[j]
  {
    hide Represents, StandsFor, ScanEntries, KeyPK;
    ScanVisitsOnce(m, t, rows, x, bounds, i, j);
  }

  lemma NamesComplete(m: Store, t: Table, rows: Rows, x: Path, bounds: Range, ps: seq<Value>, p: Value)
    requires Represents(m, t, rows) && PathOk(t, x) && Names(t, rows, x, bounds, ScanEntries(m, t, x, bounds), ps)
    requires |ps| == |ScanEntries(m, t, x, bounds)|
    requires p in rows && ByteWithin(bounds, rows[p][PathColumn(t, x)])
    ensures p in ps
  {
    hide Represents, StandsFor, ScanEntries, KeyPK, ByteWithin;
    var e := RowIsScanned(m, t, rows, x, bounds, p);
    var i :| 0 <= i < |ps| && ScanEntries(m, t, x, bounds)[i] == e;
    assert ps[i] == p;
  }

  lemma RowsAreTyped(m: Store, t: Table, rows: Rows)
    requires Represents(m, t, rows)
    ensures TypedRows(t, rows)
  {
  }

  lemma ColumnsThere(t: Table, rows: Rows, x: Path)
    requires TypedRows(t, rows) && PathOk(t, x)
    ensures forall p :: p in rows ==> PathColumn(t, x) < |rows[p]|
  {
  }

  /** A scan opened on a store that represents rows visits each row in its bounds exactly once. */
  lemma ScanVisits(m: Store, t: Table, rows: Rows, x: Path, bounds: Range) returns (ps: seq<Value>)
    requires Represents(m, t, rows) && PathOk(t, x)
    ensures Visits(t, rows, x, bounds, ScanEntries(m, t, x, bounds), ps)
  {
    hide Represents, StandsFor, KeyPK, ByteWithin, ScanEntries, TypedRows, PathOk, PathColumn, EntryPKs;
    RowsAreTyped(m, t, rows);
    ColumnsThere(t, rows, x);
    ps := EntryPKs(x, ScanEntries(m, t, x, bounds));
    EntriesNamed(m, t, rows, x, bounds);
    forall i, j | 0 <= i < j < |ps| ensures ps[i] != ps[j] {
      NamesDistinct(m, t, rows, x, bounds, ps, i, j);
    }
    forall p | p in rows && ByteWithin(bounds, rows[p][PathColumn(t, x)]) ensures p in ps {
      NamesComplete(m, t, rows, x, bounds, ps, p);
    }
  }

  /** The target keys among the first i visited. */
  ghost function Dealt(ps: seq<Value>, i: nat, target: set<Value>): set<Value>
    requires i <= |ps|
  {
    set p | p in ps[..i] && p in target
  }

  lemma DealtStep(ps: seq<Value>, i: nat, target: set<Value>)
    requires i < |ps| && forall i, j :: 0 <= i < j < |ps| ==> ps[i] != ps[j]
    ensures ps[i] !in Dealt(ps, i, target)
    ensures Dealt(ps, i + 1, target) == if ps[i] in target then Dealt(ps, i, target) + {ps[i]} else Dealt(ps, i, target)
  {
    assert ps[..i + 1] == ps[..i] + [ps[i]];
  }

  lemma DealtAreTargets(ps: seq<Value>, i: nat, target: set<Value>)
    requires i <= |ps|
    ensures Dealt(ps, i, target) <= target
  {
  }

  lemma DealtAll(t: Table, rows: Rows, x: Path, bounds: Range, es: seq<Entry>, ps: seq<Value>, target: set<Value>)
    requires Visits(t, rows, x, bounds, es, ps)
    requires forall p :: p in target ==> p in rows && ByteWithin(bounds, rows[p][PathColumn(t, x)])
    ensures Dealt(ps, |ps|, target) == target
  {
    assert ps[..|ps|] == ps;
  }

  ghost predicate Untouched(rows: Rows, done: set<Value>, cur: Rows) {
    forall q :: q in rows && q !in done ==> q in cur && cur[q] == rows[q]
  }

  /** What is left of an open scan is es[i..]; nothing in it lies in the buffer the statement writes to. */
  ghost predicate Ahead(input: Scan, es: seq<Entry>, i: nat)
    reads input, input.it, input.it.base, input.it.buf
  {
    && input.it.Valid() && !input.done && input.mask == FullMask(input.table)
    && i <= |es| && input.it.Rest() == es[i..]
  }

  /** What a scan finds under p while the statement writes: the row that is there, or that was at the start. */
  ghost predicate Fetched(t: Table, rows: Rows, cur: Rows, p: Value, w: Row) {
    && p in rows && p in cur && (w == rows[p] || w == cur[p])
    && Typed(t, w) && t.pk < |w| == |t.columns| && w[t.pk] == p
  }

  /** A table scan returns the row as it was at the start, an index scan as it is now. */
  lemma FetchUnvisited(m: Store, t: Table, rows: Rows, cur: Rows, x: Path, bounds: Range, e: Entry, p: Value)
    requires TypedRows(t, rows) && PathOk(t, x) && RowsHeld(m, t, cur)
    requires StandsFor(t, rows, x, bounds, e, p) && p in cur
    ensures Fetched(t, rows, cur, p, if x.None? then rows[p] else cur[p])
    ensures FetchRow(m, t, x, e.key, e.value, FullMask(t)) == Ok(if x.None? then rows[p] else cur[p])
  {
    var w := if x.None? then rows[p] else cur[p];
    KeyPKOfPathKey(t, x, rows[p]);
    DecodeMaskedEncodeRow(w, FullMask(t));
    assert Masked(w, FullMask(t)) == w;
  }

  lemma VisitsCount(t: Table, rows: Rows, x: Path, bounds: Range, es: seq<Entry>, ps: seq<Value>)
    requires Visits(t, rows, x, bounds, es, ps)
    ensures |ps| == |es| && forall i :: 0 <= i < |ps| ==> ps[i] in rows
  {
    assert forall i :: 0 <= i < |es| ==> StandsFor(t, rows, x, bounds, es[i], ps[i]);
  }

  lemma SuffixStep(es: seq<Entry>, i: nat)
    requires i <= |es|
    ensures i == |es| ==> es[i..] == []
    ensures i < |es| ==> es[i..] != [] && es[i..][0] == es[i] && es[i..][1..] == es[i + 1..]
  {
  }

  lemma FetchAtVisit(m: Store, t: Table, rows: Rows, cur: Rows, x: Path, bounds: Range, es: seq<Entry>, ps: seq<Value>, i: nat)
    requires Visits(t, rows, x, bounds, es, ps) && i < |ps| && RowsHeld(m, t, cur) && ps[i] in rows && ps[i] in cur
    ensures var w := if x.None? then rows[ps[i]] else cur[ps[i]];
            && i < |es| && FetchRow(m, t, x, es[i].key, es[i].value, FullMask(t)) == Ok(w)
            && Fetched(t, rows, cur, ps[i], w)
  {
    hide RowsHeld, FetchRow, FullMask, StandsFor, Fetched;
    FetchUnvisited(m, t, rows, cur, x, bounds, es[i], ps[i]);
  }

  /**
   * One step of a scan that the statement writes under: there is still a row under the next key, so
   * the missing-row error of an index scan is unreachable. While the row is as it was at the start,
   * that is what is found.
   */
  method FetchNext(input: Scan, ghost bounds: Range, ghost rows: Rows, ghost es: seq<Entry>, ghost ps: seq<Value>,
                   ghost i: nat, ghost cur: Rows)
    returns (next: Option<Row>)
    requires Ahead(input, es, i) && Visits(input.table, rows, input.path, bounds, es, ps)
    requires input.rw.Valid() && RowsHeld(input.rw.View(), input.table, cur)
    requires i < |ps| ==> ps[i] in cur
    modifies input`done, input.it, input.it.base
    ensures i == |es| ==> next == None
    ensures i < |es| ==> i < |ps| && next.Some? && Ahead(input, es, i + 1) && Fetched(input.table, rows, cur, ps[i], next.value)
  {
    hide RowsHeld, FetchRow, Visits, Merge, Apply, FullMask, Fetched;
    VisitsCount(input.table, rows, input.path, bounds, es, ps);
    SuffixStep(es, i);
    if i < |es| {
      FetchAtVisit(input.rw.View(), input.table, rows, cur, input.path, bounds, es, ps, i);
    }
    var got := input.Next();
    next := got.value;
  }

  lemma FetchedAsWas(t: Table, rows: Rows, cur: Rows, p: Value, w: Row)
    requires Fetched(t, rows, cur, p, w)
    ensures Typed(t, w) && t.pk < |w| == |t.columns| && w[t.pk] == p && p in rows && p in cur
    ensures cur[p] == rows[p] ==> w == rows[p] && w == cur[p]
  {
  }

  method EvalSets(h: Host, t: Table, sets: seq<Assignment>, was: Row) returns (r: Result<Row>)
    requires SetsFit(t, sets) && |was| == |t.columns|
    ensures r == ApplySets(h, TableEnv(t), sets, was) && SetsDone(h, TableEnv(t), sets, was, r)
  {
    SetsMean(h, TableEnv(t), sets, was);
    hide SetsDone;
    var now := was;
    assert sets[..|sets|] == sets;
    for i := 0 to |sets|
      invariant ApplySets(h, TableEnv(t), sets[..i], was) == Ok(now)
    {
      assert sets[..i + 1][..i] == sets[..i];
      var v := EvalExpr(h, sets[i].value, TableEnv(t), was);
      if v.Err? {
        ApplySetsFails(h, TableEnv(t), sets, was, i + 1);
        return Err(v.error);
      }
      now := now[sets[i].column := v.value];
    }
    r := Ok(now);
  }

  lemma {:induction false} ApplySetsFails(h: Host, env: Env, sets: seq<Assignment>, was: Row, i: nat)
    requires forall a :: a in sets ==> a.column < |was|
    requires i <= |sets| && ApplySets(h, env, sets[..i], was).Err?
    ensures ApplySets(h, env, sets, was) == ApplySets(h, env, sets[..i], was)
    decreases |sets|
  {
    if i == |sets| {
      assert sets[..i] == sets;
    } else {
      assert sets[..|sets| - 1][..i] == sets[..i];
      ApplySetsFails(h, env, sets[..|sets| - 1], was, i);
    }
  }

  method Keeps(h: Host, t: Table, pred: Option<Expr>, row: Row) returns (r: Result<bool>)
    ensures r.Ok? ==> (r.value <==> (pred.Some? ==> EvalPredicate(h, pred.value, TableEnv(t), row) == Ok(True)))
    ensures r.Err? ==> pred.Some? && EvalPredicate(h, pred.value, TableEnv(t), row) == Err(r.error)
  {
    if pred.None? {
      return Ok(true);
    }
    var keep := EvalPredicate(h, pred.value, TableEnv(t), row);
    match keep
    case Err(e) => r := Err(e);
    case Ok(b) => r := Ok(b.True?);
  }

  /** Why an UPDATE stops at a row: its filter or its image fails, or the image's new key is taken. */
  ghost predicate UpdateStops(h: Host, t: Table, pred: Option<Expr>, sets: seq<Assignment>, was: Row, cur: Rows, e: Error)
    requires SetsFit(t, sets) && |was| == |t.columns|
  {
    || (pred.Some? && EvalPredicate(h, pred.value, TableEnv(t), was) == Err(e))
    || ((pred.Some? ==> EvalPredicate(h, pred.value, TableEnv(t), was) == Ok(True)) && ImageStops(h, t, sets, was, cur, e))
  }

  ghost predicate ImageStops(h: Host, t: Table, sets: seq<Assignment>, was: Row, cur: Rows, e: Error)
    requires SetsFit(t, sets) && |was| == |t.columns|
  {
    || Image(h, t, sets, was) == Err(e)
    || (e == DuplicateKey && t.pk < |was| && exists image :: Image(h, t, sets, was) == Ok(image) && t.pk < |image|
                                                             && !Equal(was[t.pk], image[t.pk]) && image[t.pk] in cur)
  }

  /** An UPDATE stops at one of the rows it set out with. */
  ghost predicate StopsAt(h: Host, t: Table, pred: Option<Expr>, sets: seq<Assignment>, rows: Rows, p: Value, cur: Rows, e: Error) {
    SetsFit(t, sets) && p in rows && |rows[p]| == |t.columns| && UpdateStops(h, t, pred, sets, rows[p], cur, e)
  }

  lemma StopsThere(h: Host, t: Table, pred: Option<Expr>, sets: seq<Assignment>, rows: Rows, p: Value, cur: Rows, e: Error)
    requires SetsFit(t, sets) && p in rows && |rows[p]| == |t.columns| && UpdateStops(h, t, pred, sets, rows[p], cur, e)
    ensures StopsAt(h, t, pred, sets, rows, p, cur, e)
  {
  }

  lemma StopsIf(h: Host, t: Table, pred: Option<Expr>, sets: seq<Assignment>, was: Row, cur: Rows, e: Error)
    requires SetsFit(t, sets) && |was| == |t.columns|
    requires (pred.Some? && EvalPredicate(h, pred.value, TableEnv(t), was) == Err(e)) ||
             ((pred.Some? ==> EvalPredicate(h, pred.value, TableEnv(t), was) == Ok(True)) && ImageStops(h, t, sets, was, cur, e))
    ensures UpdateStops(h, t, pred, sets, was, cur, e)
  {
  }

  lemma KeyTaken(m: Store, t: Table, cur: Rows, p: Value)
    requires RowsHeld(m, t, cur)
    ensures RowKey(t.id, p) in m <==> p in cur
  {
  }

  lemma SetsStop(h: Host, t: Table, sets: seq<Assignment>, was: Row, cur: Rows)
    requires SetsFit(t, sets) && |was| == |t.columns| && ApplySets(h, TableEnv(t), sets, was).Err?
    ensures ImageStops(h, t, sets, was, cur, ApplySets(h, TableEnv(t), sets, was).error)
  {
  }

  lemma ImageIs(h: Host, t: Table, sets: seq<Assignment>, was: Row, now: Row)
    requires SetsFit(t, sets) && |was| == |t.columns| && ApplySets(h, TableEnv(t), sets, was) == Ok(now)
    ensures Image(h, t, sets, was) == Validate(h, t, now)
    ensures Validate(h, t, now).Ok? ==> |Validate(h, t, now).value| == |t.columns|
  {
    if Validate(h, t, now).Ok? {
      ValidateTyped(h, t, now);
    }
  }

  /** A verdict of the mutator against the row, seen from the statement. */
  lemma UpdateRefused(h: Host, m: Store, t: Table, cur: Rows, sets: seq<Assignment>, was: Row, now: Row)
    requires RowsHeld(m, t, cur) && Addressable(t) && |was| == |t.columns| && SetsFit(t, sets)
    requires ApplySets(h, TableEnv(t), sets, was) == Ok(now) && UpdateOutcome(h, m, t, was, now).Err?
    ensures ImageStops(h, t, sets, was, cur, UpdateOutcome(h, m, t, was, now).error)
  {
    hide ApplySets, Image, RowsHeld, UpdateWrites, Validate;
    ImageIs(h, t, sets, was, now);
    if Validate(h, t, now).Ok? {
      KeyTaken(m, t, cur, Validate(h, t, now).value[t.pk]);
    }
  }

  /** The rows the store holds, with the indexes in step as long as told. */
  ghost predicate Held(m: Store, t: Table, rows: Rows, told: bool) { RowsHeld(m, t, rows) && (told ==> Represents(m, t, rows)) }

  lemma HeldGives(m: Store, t: Table, rows: Rows, told: bool)
    requires Held(m, t, rows, told)
    ensures RowsHeld(m, t, rows) && Held(m, t, rows, false) && Addressable(t) && (told ==> Represents(m, t, rows))
  {
    hide Represents, HoldsRows;
  }

  lemma HeldFrom(m: Store, t: Table, rows: Rows)
    requires Represents(m, t, rows)
    ensures Held(m, t, rows, true)
  {
    hide Represents, RowsHeld;
    RepresentsRowsHeld(m, t, rows);
  }

  /** A verdict for it: the image goes where the row was or under a free key, if types.Equal can tell. */
  lemma UpdateLands(h: Host, base: Store, em: Entries, t: Table, cur: Rows, sets: seq<Assignment>, was: Row, now: Row)
    requires Represents(Apply(base, em), t, cur) && Addressable(t) && RowTold(h, t, sets, was)
    requires Typed(t, was) && was[t.pk] in cur && cur[was[t.pk]] == was
    requires ApplySets(h, TableEnv(t), sets, was) == Ok(now) && UpdateOutcome(h, Apply(base, em), t, was, now).Ok?
    ensures Image(h, t, sets, was).Ok? && |Image(h, t, sets, was).value| == |t.columns|
    ensures Represents(Apply(base, PutAll(em, UpdateOutcome(h, Apply(base, em), t, was, now).value)), t,
                       Moved(t, cur, was[t.pk], Image(h, t, sets, was).value))
  {
    hide ApplySets, Image, Represents, UpdateWrites, Validate, PutAll, Apply, Replaced, Confined, Moved;
    ImageIs(h, t, sets, was, now);
    UpdateTakesEffect(h, base, em, t, cur, was, now);
    MovedIsReplaced(t, cur, was, Image(h, t, sets, was).value);
  }

  /** The rows alone, whether it can tell or not. */
  lemma UpdateLandsRows(h: Host, base: Store, em: Entries, t: Table, cur: Rows, sets: seq<Assignment>, was: Row, now: Row)
    requires RowsHeld(Apply(base, em), t, cur) && Addressable(t) && SetsFit(t, sets) && Typed(t, was) && |was| == |t.columns|
    requires ApplySets(h, TableEnv(t), sets, was) == Ok(now) && UpdateOutcome(h, Apply(base, em), t, was, now).Ok?
    ensures Image(h, t, sets, was).Ok? && |Image(h, t, sets, was).value| == |t.columns|
    ensures var after := Apply(base, PutAll(em, UpdateOutcome(h, Apply(base, em), t, was, now).value));
            && RowsHeld(after, t, Moved(t, cur, was[t.pk], Image(h, t, sets, was).value)) && Confined(Apply(base, em), after, t)
  {
    hide ApplySets, Image, RowsHeld, UpdateWrites, Validate, PutAll, Apply, ApplyAll, Confined, Moved, WritesOnly;
    ImageIs(h, t, sets, was, now);
    var v := Validate(h, t, now).value;
    ValidateTyped(h, t, now);
    UpdateMovesRows(Apply(base, em), t, cur, was, v);
    BufferedWritesShow(base, em, UpdateWrites(t, was, v));
    UpdateWritesKeys(t, was, v);
    WritesConfined(base, em, t, {was[t.pk], v[t.pk]}, UpdateWrites(t, was, v));
  }

  /** The image of a row goes under a key that types.Equal takes for the row's own, or under a free one. */
  ghost predicate Moves(h: Host, t: Table, sets: seq<Assignment>, was: Row, cur: Rows, image: Row) {
    && SetsFit(t, sets) && t.pk < |was| == |t.columns| == |image| && Image(h, t, sets, was) == Ok(image) && Typed(t, image)
    && (Equal(was[t.pk], image[t.pk]) || image[t.pk] !in cur)
  }

  lemma MovesGives(h: Host, t: Table, sets: seq<Assignment>, was: Row, cur: Rows, image: Row)
    requires Moves(h, t, sets, was, cur, image)
    ensures SetsFit(t, sets) && t.pk < |was| == |t.columns| == |image| && Image(h, t, sets, was) == Ok(image) && Typed(t, image)
    ensures Equal(was[t.pk], image[t.pk]) || image[t.pk] !in cur
  {
  }

  lemma UpdateMoves(h: Host, m: Store, t: Table, cur: Rows, sets: seq<Assignment>, was: Row, now: Row)
    requires RowsHeld(m, t, cur) && Addressable(t) && SetsFit(t, sets) && |was| == |t.columns|
    requires ApplySets(h, TableEnv(t), sets, was) == Ok(now) && UpdateOutcome(h, m, t, was, now).Ok?
    ensures Image(h, t, sets, was).Ok? && Moves(h, t, sets, was, cur, Image(h, t, sets, was).value)
  {
    hide ApplySets, Image, RowsHeld, UpdateWrites, Validate;
    ImageIs(h, t, sets, was, now);
    ValidateTyped(h, t, now);
    KeyTaken(m, t, cur, Validate(h, t, now).value[t.pk]);
  }

  /** What the mutator's verdict means for the row: a reason to stop, or an image that lands. */
  lemma UpdateVerdict(h: Host, base: Store, em: Entries, t: Table, cur: Rows, sets: seq<Assignment>, was: Row, now: Row, told: bool)
    returns (image: Row)
    requires Held(Apply(base, em), t, cur, told) && Addressable(t) && SetsFit(t, sets)
    requires Typed(t, was) && |was| == |t.columns| && was[t.pk] in cur
    requires told ==> cur[was[t.pk]] == was && RowTold(h, t, sets, was)
    requires ApplySets(h, TableEnv(t), sets, was) == Ok(now)
    ensures UpdateOutcome(h, Apply(base, em), t, was, now).Err? ==>
              ImageStops(h, t, sets, was, cur, UpdateOutcome(h, Apply(base, em), t, was, now).error)
    ensures UpdateOutcome(h, Apply(base, em), t, was, now).Ok? ==>
              var after := Apply(base, PutAll(em, UpdateOutcome(h, Apply(base, em), t, was, now).value));
              && Moves(h, t, sets, was, cur, image) && t.pk < |image|
              && Held(after, t, Moved(t, cur, was[t.pk], image), told) && Confined(Apply(base, em), after, t)
  {
    hide Represents, ApplySets, Image, ImageStops, PutAll, Apply, Moved, Confined, RowTold, Typed, Validate, UpdateWrites, RowsHeld,
         UpdateOutcome, Moves;
    image := was;
    if UpdateOutcome(h, Apply(base, em), t, was, now).Ok? {
      UpdateMoves(h, Apply(base, em), t, cur, sets, was, now);
      image := Image(h, t, sets, was).value;
      UpdateLandsRows(h, base, em, t, cur, sets, was, now);
      if told {
        UpdateLands(h, base, em, t, cur, sets, was, now);
      }
    } else {
      UpdateRefused(h, Apply(base, em), t, cur, sets, was, now);
    }
  }

  lemma TypedWide(t: Table, row: Row)
    requires Typed(t, row)
    ensures |row| == |t.columns|
  {
  }

  /** Hands the new row to the mutator. */
  method InstallImage(m: Mutator, ghost sets: seq<Assignment>, was: Row, now: Row, ghost cur: Rows, ghost told: bool)
    returns (failed: Option<Error>, ghost image: Row)
    requires m.rw.Valid() && Held(m.rw.View(), m.table, cur, told) && Addressable(m.table) && SetsFit(m.table, sets)
    requires Typed(m.table, was) && |was| == |m.table.columns| && was[m.table.pk] in cur
    requires told ==> cur[was[m.table.pk]] == was && RowTold(m.host, m.table, sets, was)
    requires ApplySets(m.host, TableEnv(m.table), sets, was) == Ok(now)
    modifies m.rw.buf
    ensures m.rw.Valid() && m.rw.buf.sorted == old(m.rw.buf.sorted)
    ensures failed.Some? ==> m.rw.View() == old(m.rw.View()) && ImageStops(m.host, m.table, sets, was, cur, failed.value)
    ensures failed.None? ==> Moves(m.host, m.table, sets, was, cur, image) && m.table.pk < |image|
    ensures failed.None? ==> Held(m.rw.View(), m.table, Moved(m.table, cur, was[m.table.pk], image), told)
    ensures failed.None? ==> Confined(old(m.rw.View()), m.rw.View(), m.table)
  {
    hide *;
    ghost var em := m.rw.buf.m;
    ViewIs(m.rw);
    image := UpdateVerdict(m.host, m.rw.base, em, m.table, cur, sets, was, now, told);
    failed := m.Update(was, now);
    ViewIs(m.rw);
  }

  /** Computes one row's image from the row as it was and has the mutator install it. */
  method UpdateRow(m: Mutator, sets: seq<Assignment>, was: Row, ghost cur: Rows, ghost told: bool)
    returns (failed: Option<Error>, ghost image: Row)
    requires m.rw.Valid() && Held(m.rw.View(), m.table, cur, told) && SetsFit(m.table, sets)
    requires Typed(m.table, was) && m.table.pk < |was| == |m.table.columns| && was[m.table.pk] in cur
    requires told ==> cur[was[m.table.pk]] == was && RowTold(m.host, m.table, sets, was)
    modifies m.rw.buf
    ensures m.rw.Valid() && m.rw.buf.sorted == old(m.rw.buf.sorted)
    ensures failed.Some? ==> m.rw.View() == old(m.rw.View()) && ImageStops(m.host, m.table, sets, was, cur, failed.value)
    ensures failed.None? ==>
              && Moves(m.host, m.table, sets, was, cur, image) && m.table.pk < |image|
              && Held(m.rw.View(), m.table, Moved(m.table, cur, was[m.table.pk], image), told)
    ensures Confined(old(m.rw.View()), m.rw.View(), m.table)
  {
    hide *;
    HeldGives(m.rw.View(), m.table, cur, told);
    ConfinedSame(m.rw.View(), m.table);
    image := was;
    var now := EvalSets(m.host, m.table, sets, was);
    if now.Err? {
      SetsStop(m.host, m.table, sets, was, cur);
      return Some(now.error), image;
    }
    failed, image := InstallImage(m, sets, was, now.value, cur, told);
  }

  lemma ViewIs(rw: Overlay)
    ensures rw.View() == Apply(rw.base, rw.buf.m)
  {
  }

  datatype Step = AtEnd | Skipped | Changed | Failed(error: Error)

  /** What the UPDATE loop does with one fetched row. */
  method UpdateOne(m: Mutator, pred: Option<Expr>, sets: seq<Assignment>, was: Row, ghost cur: Rows, ghost told: bool)
    returns (step: Step, ghost image: Row)
    requires SetsFit(m.table, sets) && m.rw.Valid() && Held(m.rw.View(), m.table, cur, told)
    requires Typed(m.table, was) && m.table.pk < |was| == |m.table.columns| && was[m.table.pk] in cur
    requires told && (pred.Some? ==> EvalPredicate(m.host, pred.value, TableEnv(m.table), was) == Ok(True)) ==>
               cur[was[m.table.pk]] == was && RowTold(m.host, m.table, sets, was)
    modifies m.rw.buf
    ensures m.rw.Valid() && m.rw.buf.sorted == old(m.rw.buf.sorted) && !step.AtEnd?
    ensures !step.Changed? ==> m.rw.View() == old(m.rw.View())
    ensures step.Failed? ==> UpdateStops(m.host, m.table, pred, sets, was, cur, step.error)
    ensures step.Skipped? ==> pred.Some? && EvalPredicate(m.host, pred.value, TableEnv(m.table), was) != Ok(True)
    ensures step.Changed? ==>
              && (pred.Some? ==> EvalPredicate(m.host, pred.value, TableEnv(m.table), was) == Ok(True))
              && Moves(m.host, m.table, sets, was, cur, image) && m.table.pk < |image|
              && Held(m.rw.View(), m.table, Moved(m.table, cur, was[m.table.pk], image), told)
    ensures Confined(old(m.rw.View()), m.rw.View(), m.table)
  {
    hide *;
    ConfinedSame(m.rw.View(), m.table);
    image := [];
    var keep := Keeps(m.host, m.table, pred, was);
    if keep.Err? {
      StopsIf(m.host, m.table, pred, sets, was, cur, keep.error);
      return Failed(keep.error), image;
    }
    if !keep.value {
      return Skipped, image;
    }
    var failed;
    failed, image := UpdateRow(m, sets, was, cur, told);
    if failed.Some? {
      StopsIf(m.host, m.table, pred, sets, was, cur, failed.value);
      return Failed(failed.value), image;
    }
    step := Changed;
  }

  // ------------------------------------------------------------------
  // Where the UPDATE loop stands after the first i visits
  // ------------------------------------------------------------------

  /** The images are those of the matching rows seen, as the rows were, and the rows to come are as they were. */
  ghost predicate Steady(h: Host, t: Table, rows: Rows, sets: seq<Assignment>, target: set<Value>,
                         ps: seq<Value>, i: nat, images: Rows, cur: Rows)
    requires i <= |ps| && TypedRows(t, rows) && SetsFit(t, sets)
  {
    && images.Keys == Dealt(ps, i, target)
    && ImagesOf(h, t, rows, sets, images)
    && Wide(t, images)
    && Untouched(rows, images.Keys, cur)
  }

  /** A row that was to move is still there, under a key no image has. */
  ghost predicate Stuck(t: Table, rows: Rows, images: Rows, cur: Rows)
    requires Wide(t, images)
  {
    exists p :: StuckAt(t, rows, images, cur, p)
  }

  ghost predicate StuckAt(t: Table, rows: Rows, images: Rows, cur: Rows, p: Value)
    requires Wide(t, images)
  {
    p in rows && p in images && p in cur && !IsImageKey(t, images, p)
  }

  /**
   * told says that types.Equal has told old and new keys apart so far. While it has, the images have
   * been swapped in; once it has not, a row is stuck, if no two rows had keys equal to it.
   */
  ghost predicate Midway(h: Host, t: Table, rows: Rows, sets: seq<Assignment>, target: set<Value>,
                         ps: seq<Value>, i: nat, images: Rows, cur: Rows, told: bool)
    requires i <= |ps| && TypedRows(t, rows) && SetsFit(t, sets)
  {
    && (forall j :: i <= j < |ps| ==> ps[j] in cur)
    && (told <==> AllTold(h, t, rows, sets, Dealt(ps, i, target)))
    && (told || NoTwins(rows) ==> Steady(h, t, rows, sets, target, ps, i, images, cur))
    && (told ==> Wide(t, images) && Swapped(t, rows, images, cur))
    && (!told && NoTwins(rows) ==> Wide(t, images) && Stuck(t, rows, images, cur))
  }

  lemma MidwayParts(h: Host, t: Table, rows: Rows, sets: seq<Assignment>, target: set<Value>,
                    ps: seq<Value>, i: nat, images: Rows, cur: Rows, told: bool)
    requires i <= |ps| && TypedRows(t, rows) && SetsFit(t, sets)
    requires Midway(h, t, rows, sets, target, ps, i, images, cur, told)
    ensures i < |ps| ==> ps[i] in cur
    ensures told <==> AllTold(h, t, rows, sets, Dealt(ps, i, target))
    ensures told || NoTwins(rows) ==>
              && Wide(t, images) && images.Keys == Dealt(ps, i, target) && ImagesOf(h, t, rows, sets, images)
              && Untouched(rows, images.Keys, cur)
    ensures told ==> Swapped(t, rows, images, cur)
    ensures !told && NoTwins(rows) ==> Stuck(t, rows, images, cur)
  {
  }

  lemma SteadyFrom(h: Host, t: Table, rows: Rows, sets: seq<Assignment>, target: set<Value>,
                   ps: seq<Value>, i: nat, images: Rows, cur: Rows)
    requires i <= |ps| && TypedRows(t, rows) && SetsFit(t, sets)
    requires images.Keys == Dealt(ps, i, target) && ImagesOf(h, t, rows, sets, images) && Wide(t, images)
    requires Untouched(rows, images.Keys, cur)
    ensures Steady(h, t, rows, sets, target, ps, i, images, cur)
  {
  }

  lemma MidwayFrom(h: Host, t: Table, rows: Rows, sets: seq<Assignment>, target: set<Value>,
                   ps: seq<Value>, i: nat, images: Rows, cur: Rows, told: bool)
    requires i <= |ps| && TypedRows(t, rows) && SetsFit(t, sets)
    requires forall j :: i <= j < |ps| ==> ps[j] in cur
    requires told <==> AllTold(h, t, rows, sets, Dealt(ps, i, target))
    requires told || NoTwins(rows) ==> Steady(h, t, rows, sets, target, ps, i, images, cur)
    requires told ==> Wide(t, images) && Swapped(t, rows, images, cur)
    requires !told && NoTwins(rows) ==> Wide(t, images) && Stuck(t, rows, images, cur)
    ensures Midway(h, t, rows, sets, target, ps, i, images, cur, told)
  {
  }

  lemma MovedLookup(t: Table, cur: Rows, p: Value, image: Row, q: Value)
    requires t.pk < |image|
    ensures q in Moved(t, cur, p, image) <==> q == image[t.pk] || (q in cur && (q != p || Equal(p, image[t.pk])))
    ensures q in Moved(t, cur, p, image) ==> Moved(t, cur, p, image)[q] == if q == image[t.pk] then image else cur[q]
  {
  }

  /** A free key, or one that is equal to p in a table without twins, is not the key of a row yet to come. */
  lemma UntouchedAfter(t: Table, rows: Rows, done: set<Value>, cur: Rows, p: Value, image: Row)
    requires Untouched(rows, done, cur) && p in rows && t.pk < |image|
    requires image[t.pk] == p || image[t.pk] !in cur || (NoTwins(rows) && Equal(p, image[t.pk]))
    ensures Untouched(rows, done + {p}, Moved(t, cur, p, image))
  {
    hide Moved, Equal;
    forall q | q in rows && q !in done + {p} ensures q in Moved(t, cur, p, image) && Moved(t, cur, p, image)[q] == rows[q] {
      MovedLookup(t, cur, p, image, q);
    }
  }

  lemma ToldStep(h: Host, t: Table, rows: Rows, sets: seq<Assignment>, target: set<Value>, ps: seq<Value>, i: nat)
    requires i < |ps| && ps[i] in rows && forall i, j :: 0 <= i < j < |ps| ==> ps[i] != ps[j]
    ensures AllTold(h, t, rows, sets, Dealt(ps, i + 1, target)) <==>
            AllTold(h, t, rows, sets, Dealt(ps, i, target)) && (ps[i] in target ==> RowTold(h, t, sets, rows[ps[i]]))
  {
    DealtStep(ps, i, target);
    hide RowTold, Dealt;
  }

  lemma LaterStay(t: Table, ps: seq<Value>, i: nat, cur: Rows, image: Row)
    requires i < |ps| && (forall j :: i <= j < |ps| ==> ps[j] in cur) && t.pk < |image|
    requires forall i, j :: 0 <= i < j < |ps| ==> ps[i] != ps[j]
    ensures forall j :: i + 1 <= j < |ps| ==> ps[j] in Moved(t, cur, ps[i], image)
  {
    hide Moved;
    forall j | i + 1 <= j < |ps| ensures ps[j] in Moved(t, cur, ps[i], image) {
      MovedLookup(t, cur, ps[i], image, ps[j]);
    }
  }

  /** One more image, in a table where the rows to come stay as they were. */
  lemma SteadyOneMore(h: Host, t: Table, rows: Rows, sets: seq<Assignment>, target: set<Value>,
                      ps: seq<Value>, i: nat, images: Rows, cur: Rows, image: Row)
    requires i < |ps| && TypedRows(t, rows) && SetsFit(t, sets) && ps[i] in rows && ps[i] in target
    requires forall i, j :: 0 <= i < j < |ps| ==> ps[i] != ps[j]
    requires Steady(h, t, rows, sets, target, ps, i, images, cur)
    requires Image(h, t, sets, rows[ps[i]]) == Ok(image) && t.pk < |image| == |t.columns|
    requires image[t.pk] == ps[i] || image[t.pk] !in cur || (NoTwins(rows) && Equal(ps[i], image[t.pk]))
    ensures Steady(h, t, rows, sets, target, ps, i + 1, images[ps[i] := image], Moved(t, cur, ps[i], image))
    ensures Wide(t, images[ps[i] := image]) && ps[i] !in images && |images[ps[i] := image]| == |images| + 1
  {
    hide Untouched, Dealt, Image, Moved;
    DealtStep(ps, i, target);
    UntouchedAfter(t, rows, images.Keys, cur, ps[i], image);
    assert images[ps[i] := image].Keys == images.Keys + {ps[i]};
  }

  lemma SteadySkip(h: Host, t: Table, rows: Rows, sets: seq<Assignment>, target: set<Value>,
                   ps: seq<Value>, i: nat, images: Rows, cur: Rows)
    requires i < |ps| && TypedRows(t, rows) && SetsFit(t, sets) && ps[i] !in target
    requires forall i, j :: 0 <= i < j < |ps| ==> ps[i] != ps[j]
    requires Steady(h, t, rows, sets, target, ps, i, images, cur)
    ensures Steady(h, t, rows, sets, target, ps, i + 1, images, cur)
  {
    DealtStep(ps, i, target);
  }

  /** The first image whose key types.Equal takes for the row's own, though it is another: the row stays. */
  lemma StuckFirst(t: Table, rows: Rows, images: Rows, cur: Rows, p: Value, image: Row)
    requires Wide(t, images) && |image| == |t.columns| && Swapped(t, rows, images, cur)
    requires p in rows && p !in images && p in cur && Equal(p, image[t.pk]) && image[t.pk] != p
    ensures Wide(t, images[p := image]) && Stuck(t, rows, images[p := image], Moved(t, cur, p, image))
  {
    var more := images[p := image];
    MovedLookup(t, cur, p, image, p);
    hide Moved, Equal;
    assert !IsImageKey(t, more, p) by {
      forall q | q in more ensures more[q][t.pk] != p {
        if q != p {
          assert images[q][t.pk] in rows ==> images[q][t.pk] in images;
        }
      }
    }
    assert StuckAt(t, rows, more, Moved(t, cur, p, image), p);
  }

  /** It stays for good: only its own visit could have taken it away, and in its key nothing else fits. */
  lemma StuckStays(t: Table, rows: Rows, images: Rows, cur: Rows, p: Value, image: Row)
    requires NoTwins(rows) && Wide(t, images) && |image| == |t.columns| && Stuck(t, rows, images, cur)
    requires p in rows && p !in images && (Equal(p, image[t.pk]) || image[t.pk] !in cur)
    ensures Wide(t, images[p := image]) && Stuck(t, rows, images[p := image], Moved(t, cur, p, image))
  {
    var more := images[p := image];
    var s :| StuckAt(t, rows, images, cur, s);
    MovedLookup(t, cur, p, image, s);
    hide Moved, Equal;
    assert !IsImageKey(t, more, s) by {
      forall q | q in more ensures more[q][t.pk] != s {
        if q != p {
          assert images[q][t.pk] != s;
        }
      }
    }
    assert StuckAt(t, rows, more, Moved(t, cur, p, image), s);
  }

  /** What the next visit finds, and that its outcome decides membership in the target. */
  lemma NextVisit(h: Host, t: Table, rows: Rows, x: Path, bounds: Range, pred: Option<Expr>,
                  es: seq<Entry>, ps: seq<Value>, i: nat)
    requires Visits(t, rows, x, bounds, es, ps) && i < |ps|
    ensures ps[i] in rows && ps[i] !in Dealt(ps, i, MatchingKeys(h, t, rows, x, bounds, pred))
    ensures Typed(t, rows[ps[i]]) && t.pk < |rows[ps[i]]| == |t.columns| && rows[ps[i]][t.pk] == ps[i]
    ensures ps[i] in MatchingKeys(h, t, rows, x, bounds, pred) <==>
            (pred.Some? ==> EvalPredicate(h, pred.value, TableEnv(t), rows[ps[i]]) == Ok(True))
  {
    DealtStep(ps, i, MatchingKeys(h, t, rows, x, bounds, pred));
    assert StandsFor(t, rows, x, bounds, es[i], ps[i]);
  }

  /** In a steady loop the row fetched is the row as it was. */
  lemma SteadyFetch(t: Table, rows: Rows, images: Rows, cur: Rows, p: Value, was: Row)
    requires Fetched(t, rows, cur, p, was) && Untouched(rows, images.Keys, cur) && p in rows && p !in images
    ensures was == rows[p] && p in cur && cur[p] == was
  {
    FetchedAsWas(t, rows, cur, p, was);
  }

  lemma RowTells(h: Host, t: Table, sets: seq<Assignment>, was: Row, image: Row)
    requires t.pk < |was| == |t.columns| == |image| && SetsFit(t, sets) && Image(h, t, sets, was) == Ok(image)
    ensures RowTold(h, t, sets, was) <==> (Equal(was[t.pk], image[t.pk]) ==> was[t.pk] == image[t.pk])
  {
    hide Image, Equal;
  }

  /** A row that changes, while types.Equal tells keys apart. */
  lemma ChangedTold(h: Host, t: Table, rows: Rows, sets: seq<Assignment>, target: set<Value>, ps: seq<Value>, i: nat,
                    images: Rows, cur: Rows, image: Row)
    requires i < |ps| && TypedRows(t, rows) && SetsFit(t, sets) && ps[i] in rows && ps[i] in target
    requires forall i, j :: 0 <= i < j < |ps| ==> ps[i] != ps[j]
    requires Steady(h, t, rows, sets, target, ps, i, images, cur) && Wide(t, images) && Swapped(t, rows, images, cur)
    requires Moves(h, t, sets, rows[ps[i]], cur, image) && t.pk < |image| && RowTold(h, t, sets, rows[ps[i]])
    ensures Steady(h, t, rows, sets, target, ps, i + 1, images[ps[i] := image], Moved(t, cur, ps[i], image))
    ensures Wide(t, images[ps[i] := image]) && Swapped(t, rows, images[ps[i] := image], Moved(t, cur, ps[i], image))
    ensures |images[ps[i] := image]| == |images| + 1
  {
    var was := rows[ps[i]];
    assert was[t.pk] == ps[i] && |was| == |t.columns|;
    MovesGives(h, t, sets, was, cur, image);
    RowTells(h, t, sets, was, image);
    hide *;
    SteadyOneMore(h, t, rows, sets, target, ps, i, images, cur, image);
    SwapOneMore(t, rows, images, cur, ps[i], image);
    MovedIsReplaced(t, cur, was, image);
  }

  /** And when it does not, or did not before, in a table without twins. */
  lemma ChangedUntold(h: Host, t: Table, rows: Rows, sets: seq<Assignment>, target: set<Value>, ps: seq<Value>, i: nat,
                      images: Rows, cur: Rows, image: Row, told: bool)
    requires i < |ps| && TypedRows(t, rows) && SetsFit(t, sets) && ps[i] in rows && ps[i] in target && ps[i] in cur
    requires forall i, j :: 0 <= i < j < |ps| ==> ps[i] != ps[j]
    requires NoTwins(rows) && Steady(h, t, rows, sets, target, ps, i, images, cur) && Wide(t, images)
    requires told ==> Swapped(t, rows, images, cur) && !RowTold(h, t, sets, rows[ps[i]])
    requires !told ==> Stuck(t, rows, images, cur)
    requires Moves(h, t, sets, rows[ps[i]], cur, image) && t.pk < |image|
    ensures Steady(h, t, rows, sets, target, ps, i + 1, images[ps[i] := image], Moved(t, cur, ps[i], image))
    ensures Wide(t, images[ps[i] := image]) && Stuck(t, rows, images[ps[i] := image], Moved(t, cur, ps[i], image))
    ensures |images[ps[i] := image]| == |images| + 1
  {
    var was := rows[ps[i]];
    assert was[t.pk] == ps[i] && |was| == |t.columns|;
    MovesGives(h, t, sets, was, cur, image);
    RowTells(h, t, sets, was, image);
    hide *;
    SteadyOneMore(h, t, rows, sets, target, ps, i, images, cur, image);
    if told {
      StuckFirst(t, rows, images, cur, ps[i], image);
    } else {
      StuckStays(t, rows, images, cur, ps[i], image);
    }
  }

  /** The ghost side of one turn: what a changed row does to the state of the loop. */
  lemma TurnChanged(h: Host, t: Table, rows: Rows, x: Path, bounds: Range, pred: Option<Expr>, sets: seq<Assignment>,
                    es: seq<Entry>, ps: seq<Value>, i: nat, images: Rows, cur: Rows, was: Row, image: Row, told: bool)
    requires Visits(t, rows, x, bounds, es, ps) && SetsFit(t, sets) && i < |ps|
    requires Midway(h, t, rows, sets, MatchingKeys(h, t, rows, x, bounds, pred), ps, i, images, cur, told)
    requires Fetched(t, rows, cur, ps[i], was) && Moves(h, t, sets, was, cur, image) && t.pk < |image|
    requires pred.Some? ==> EvalPredicate(h, pred.value, TableEnv(t), was) == Ok(True)
    ensures Midway(h, t, rows, sets, MatchingKeys(h, t, rows, x, bounds, pred), ps, i + 1, images[ps[i] := image],
                   Moved(t, cur, ps[i], image), AllTold(h, t, rows, sets, Dealt(ps, i + 1, MatchingKeys(h, t, rows, x, bounds, pred))))
    ensures told || NoTwins(rows) ==> |images[ps[i] := image]| == |images| + 1
  {
    hide *;
    VisitsDistinct(t, rows, x, bounds, es, ps);
    var target := MatchingKeys(h, t, rows, x, bounds, pred);
    MidwayParts(h, t, rows, sets, target, ps, i, images, cur, told);
    MidwayLater(h, t, rows, sets, target, ps, i, images, cur, told);
    NextVisit(h, t, rows, x, bounds, pred, es, ps, i);
    ToldStep(h, t, rows, sets, target, ps, i);
    LaterStay(t, ps, i, cur, image);
    var still := AllTold(h, t, rows, sets, Dealt(ps, i + 1, target));
    var more, after := images[ps[i] := image], Moved(t, cur, ps[i], image);
    if told || NoTwins(rows) {
      SteadyFetch(t, rows, images, cur, ps[i], was);
      SteadyFrom(h, t, rows, sets, target, ps, i, images, cur);
      if still {
        ChangedTold(h, t, rows, sets, target, ps, i, images, cur, image);
      } else if NoTwins(rows) {
        ChangedUntold(h, t, rows, sets, target, ps, i, images, cur, image, told);
      }
    }
    MidwayFrom(h, t, rows, sets, target, ps, i + 1, more, after, still);
  }

  lemma MidwayLater(h: Host, t: Table, rows: Rows, sets: seq<Assignment>, target: set<Value>,
                    ps: seq<Value>, i: nat, images: Rows, cur: Rows, told: bool)
    requires i <= |ps| && TypedRows(t, rows) && SetsFit(t, sets)
    requires Midway(h, t, rows, sets, target, ps, i, images, cur, told)
    ensures forall j :: i <= j < |ps| ==> ps[j] in cur
  {
  }

  lemma TurnSkipped(h: Host, t: Table, rows: Rows, x: Path, bounds: Range, pred: Option<Expr>, sets: seq<Assignment>,
                    es: seq<Entry>, ps: seq<Value>, i: nat, images: Rows, cur: Rows, was: Row, told: bool)
    requires Visits(t, rows, x, bounds, es, ps) && SetsFit(t, sets) && i < |ps|
    requires Midway(h, t, rows, sets, MatchingKeys(h, t, rows, x, bounds, pred), ps, i, images, cur, told)
    requires Fetched(t, rows, cur, ps[i], was)
    requires pred.Some? && EvalPredicate(h, pred.value, TableEnv(t), was) != Ok(True)
    ensures Midway(h, t, rows, sets, MatchingKeys(h, t, rows, x, bounds, pred), ps, i + 1, images, cur,
                   AllTold(h, t, rows, sets, Dealt(ps, i + 1, MatchingKeys(h, t, rows, x, bounds, pred))))
  {
    hide *;
    VisitsDistinct(t, rows, x, bounds, es, ps);
    var target := MatchingKeys(h, t, rows, x, bounds, pred);
    MidwayParts(h, t, rows, sets, target, ps, i, images, cur, told);
    MidwayLater(h, t, rows, sets, target, ps, i, images, cur, told);
    NextVisit(h, t, rows, x, bounds, pred, es, ps, i);
    ToldStep(h, t, rows, sets, target, ps, i);
    var still := AllTold(h, t, rows, sets, Dealt(ps, i + 1, target));
    if told || NoTwins(rows) {
      SteadyFetch(t, rows, images, cur, ps[i], was);
      SteadyFrom(h, t, rows, sets, target, ps, i, images, cur);
      SteadySkip(h, t, rows, sets, target, ps, i, images, cur);
    }
    MidwayFrom(h, t, rows, sets, target, ps, i + 1, images, cur, still);
  }

  /** One turn of the UPDATE loop; told stands for the loop after it. */
  method UpdateTurn(input: Scan, m: Mutator, pred: Option<Expr>, sets: seq<Assignment>, ghost bounds: Range, ghost rows: Rows,
                    ghost es: seq<Entry>, ghost ps: seq<Value>, ghost i: nat, ghost images: Rows, ghost cur: Rows, ghost told: bool)
    returns (step: Step, ghost was: Row, ghost image: Row)
    requires m.rw == input.rw && m.table == input.table && SetsFit(m.table, sets)
    requires Visits(m.table, rows, input.path, bounds, es, ps)
    requires i <= |ps| == |es| && Ahead(input, es, i) && m.rw.Valid() && Held(m.rw.View(), m.table, cur, told)
    requires i < |ps| ==> ps[i] in cur
    requires told && i < |ps| ==> ps[i] in rows && cur[ps[i]] == rows[ps[i]]
    requires told && i < |ps| && ps[i] in MatchingKeys(m.host, m.table, rows, input.path, bounds, pred) ==>
               RowTold(m.host, m.table, sets, rows[ps[i]])
    modifies input`done, input.it, input.it.base, m.rw.buf
    ensures m.rw.Valid() && (step.AtEnd? <==> i == |ps|)
    ensures !step.Changed? ==> m.rw.View() == old(m.rw.View())
    ensures i < |ps| ==> Ahead(input, es, i + 1) && Fetched(m.table, rows, cur, ps[i], was)
    ensures i < |ps| ==> |was| == |m.table.columns|
    ensures step.Failed? ==> UpdateStops(m.host, m.table, pred, sets, was, cur, step.error)
    ensures step.Skipped? ==> pred.Some? && EvalPredicate(m.host, pred.value, TableEnv(m.table), was) != Ok(True)
    ensures step.Changed? ==>
              && (pred.Some? ==> EvalPredicate(m.host, pred.value, TableEnv(m.table), was) == Ok(True))
              && Moves(m.host, m.table, sets, was, cur, image) && m.table.pk < |image|
              && Held(m.rw.View(), m.table, Moved(m.table, cur, ps[i], image), told)
    ensures Confined(old(m.rw.View()), m.rw.View(), m.table)
  {
    hide *;
    ConfinedSame(m.rw.View(), m.table);
    was, image := [], [];
    HeldGives(m.rw.View(), m.table, cur, told);
    var next := FetchNext(input, bounds, rows, es, ps, i, cur);
    if next.None? {
      return AtEnd, was, image;
    }
    was := next.value;
    FetchedAsWas(m.table, rows, cur, ps[i], was);
    NextVisit(m.host, m.table, rows, input.path, bounds, pred, es, ps, i);
    step, image := UpdateOne(m, pred, sets, next.value, cur, told);
  }

  method OpenFullScan(rw: Overlay, t: Table, x: Path, bounds: Range) returns (s: Scan)
    requires rw.Valid()
    modifies rw.buf
    ensures rw.Valid() && rw.buf.m == old(rw.buf.m) && rw.View() == old(rw.View())
    ensures fresh(s) && fresh(s.it) && fresh(s.it.base) && s.rw == rw && s.table == t && s.path == x
    ensures Ahead(s, ScanEntries(rw.View(), t, x, bounds), 0)
  {
    s := OpenScan(rw, t, x, bounds, FullMask(t));
  }

  lemma UpdateBegins(m: Store, h: Host, t: Table, rows: Rows, x: Path, bounds: Range, pred: Option<Expr>, sets: seq<Assignment>)
    returns (ps: seq<Value>)
    requires Represents(m, t, rows) && PathOk(t, x) && SetsFit(t, sets)
    ensures Visits(t, rows, x, bounds, ScanEntries(m, t, x, bounds), ps) && |ps| == |ScanEntries(m, t, x, bounds)|
    ensures TypedRows(t, rows)
    ensures Midway(h, t, rows, sets, MatchingKeys(h, t, rows, x, bounds, pred), ps, 0, map[], rows, true)
    ensures AllTold(h, t, rows, sets, Dealt(ps, 0, MatchingKeys(h, t, rows, x, bounds, pred)))
    ensures Dealt(ps, |ps|, MatchingKeys(h, t, rows, x, bounds, pred)) == MatchingKeys(h, t, rows, x, bounds, pred)
  {
    hide *;
    RowsAreTyped(m, t, rows);
    ps := ScanVisits(m, t, rows, x, bounds);
    var target := MatchingKeys(h, t, rows, x, bounds, pred);
    VisitsCount(t, rows, x, bounds, ScanEntries(m, t, x, bounds), ps);
    NothingDone(h, t, rows, sets, target, ps);
    TargetsInBounds(h, t, rows, x, bounds, pred);
    DealtAll(t, rows, x, bounds, ScanEntries(m, t, x, bounds), ps, target);
  }

  lemma NothingDone(h: Host, t: Table, rows: Rows, sets: seq<Assignment>, target: set<Value>, ps: seq<Value>)
    requires TypedRows(t, rows) && SetsFit(t, sets) && forall i :: 0 <= i < |ps| ==> ps[i] in rows
    ensures AllTold(h, t, rows, sets, Dealt(ps, 0, target)) && Midway(h, t, rows, sets, target, ps, 0, map[], rows, true)
  {
    NothingSwapped(t, rows);
    hide Swapped, Image;
  }

  /** Once a row is stuck, the store holds no rows that the images have been swapped into. */
  lemma StuckNotSwapped(m: Store, t: Table, rows: Rows, images: Rows, cur: Rows)
    requires RowsHeld(m, t, cur) && Wide(t, images) && Stuck(t, rows, images, cur)
    ensures forall a :: Swapped(t, rows, images, a) ==> !Represents(m, t, a)
  {
    hide RowsHeld, Represents, Kept, Installed, Apart;
    var p :| StuckAt(t, rows, images, cur, p);
    forall a | Swapped(t, rows, images, a) && Represents(m, t, a) ensures false {
      RepresentsRowsHeld(m, t, a);
      RowsHeldUnique(m, t, a, cur);
    }
  }

  lemma ToldSoFar(h: Host, t: Table, rows: Rows, sets: seq<Assignment>, target: set<Value>, some: set<Value>)
    requires AllTold(h, t, rows, sets, target) && some <= target
    ensures AllTold(h, t, rows, sets, some)
  {
    hide RowTold;
  }

  /**
   * What an UPDATE has done to rows, m being the store it left. If types.Equal tells the old keys of
   * the rows found from the new ones, the images have been swapped in, rows and indexes in step. If
   * it does not, and no two rows had keys it takes for one another, success has left no such state.
   */
  ghost predicate UpdateLeft(h: Host, t: Table, sets: seq<Assignment>, target: set<Value>, rows: Rows,
                             m: Store, ok: bool, images: Rows, after: Rows)
  {
    && (AllTold(h, t, rows, sets, target) ==>
          Wide(t, images) && Swapped(t, rows, images, after) && |after| == |rows| && Represents(m, t, after))
    && (NoTwins(rows) && ok && !AllTold(h, t, rows, sets, target) ==>
          Wide(t, images) && forall a :: Swapped(t, rows, images, a) ==> !Represents(m, t, a))
  }

  /** The images are those of matching rows, of all of them on success; an error is that of a row that stops it. */
  ghost predicate UpdateMade(h: Host, t: Table, pred: Option<Expr>, sets: seq<Assignment>, target: set<Value>, rows: Rows,
                             r: Result<nat>, images: Rows, after: Rows)
    requires TypedRows(t, rows) && SetsFit(t, sets)
  {
    && images.Keys <= target && ImagesOf(h, t, rows, sets, images) && AllDescribed(h, t, rows, sets, images) && Wide(t, images)
    && (r.Ok? ==> images.Keys == target && r.value == |images|)
    && (r.Err? ==> exists p :: StopsAt(h, t, pred, sets, rows, p, after, r.error))
  }

  lemma UpdateEnds(h: Host, t: Table, rows: Rows, sets: seq<Assignment>, target: set<Value>, ps: seq<Value>, i: nat,
                   images: Rows, cur: Rows, told: bool, m: Store, ok: bool)
    requires i <= |ps| && TypedRows(t, rows) && SetsFit(t, sets) && Held(m, t, cur, told)
    requires Midway(h, t, rows, sets, target, ps, i, images, cur, told)
    requires ok ==> i == |ps| && Dealt(ps, |ps|, target) == target
    ensures UpdateLeft(h, t, sets, target, rows, m, ok, images, cur)
    ensures AllTold(h, t, rows, sets, target) ==> told
  {
    hide Swapped, Represents, RowsHeld, AllTold, Stuck, Dealt, ImagesOf, Wide, Untouched, NoTwins, Midway;
    MidwayParts(h, t, rows, sets, target, ps, i, images, cur, told);
    DealtAreTargets(ps, i, target);
    if AllTold(h, t, rows, sets, target) {
      ToldSoFar(h, t, rows, sets, target, Dealt(ps, i, target));
      SwapKeepsCount(t, rows, images, cur);
    } else if NoTwins(rows) && ok {
      StuckNotSwapped(m, t, rows, images, cur);
    }
  }

  lemma UpdateMadeAt(h: Host, t: Table, rows: Rows, pred: Option<Expr>, sets: seq<Assignment>, target: set<Value>, ps: seq<Value>,
                     i: nat, images: Rows, cur: Rows, told: bool, was: Row, r: Result<nat>)
    requires i <= |ps| && TypedRows(t, rows) && SetsFit(t, sets) && (told || NoTwins(rows))
    requires Midway(h, t, rows, sets, target, ps, i, images, cur, told)
    requires r.Ok? ==> i == |ps| && Dealt(ps, |ps|, target) == target && r.value == |images|
    requires r.Err? ==> i < |ps| && ps[i] in rows && ps[i] !in Dealt(ps, i, target) && Fetched(t, rows, cur, ps[i], was)
    requires r.Err? ==> |was| == |t.columns| && UpdateStops(h, t, pred, sets, was, cur, r.error)
    ensures UpdateMade(h, t, pred, sets, target, rows, r, images, cur)
  {
    hide Swapped, AllTold, Stuck, Dealt, ImagesOf, Wide, Untouched, NoTwins, Midway, UpdateStops, Fetched, StopsAt, AllDescribed;
    MidwayParts(h, t, rows, sets, target, ps, i, images, cur, told);
    DealtAreTargets(ps, i, target);
    ImagesDescribed(h, t, rows, sets, images);
    if r.Err? {
      SteadyFetch(t, rows, images, cur, ps[i], was);
      StopsThere(h, t, pred, sets, rows, ps[i], cur, r.error);
    }
  }

  /** What a turn needs to know of the loop. */
  lemma TurnBegins(h: Host, t: Table, rows: Rows, x: Path, bounds: Range, pred: Option<Expr>, sets: seq<Assignment>,
                   es: seq<Entry>, ps: seq<Value>, i: nat, images: Rows, cur: Rows, told: bool)
    requires Visits(t, rows, x, bounds, es, ps) && SetsFit(t, sets) && i < |ps|
    requires Midway(h, t, rows, sets, MatchingKeys(h, t, rows, x, bounds, pred), ps, i, images, cur, told)
    ensures ps[i] in cur && ps[i] in rows && ps[i] !in Dealt(ps, i, MatchingKeys(h, t, rows, x, bounds, pred))
    ensures AllTold(h, t, rows, sets, Dealt(ps, i + 1, MatchingKeys(h, t, rows, x, bounds, pred))) ==>
              && told && cur[ps[i]] == rows[ps[i]]
              && (ps[i] in MatchingKeys(h, t, rows, x, bounds, pred) ==> RowTold(h, t, sets, rows[ps[i]]))
  {
    hide *;
    VisitsDistinct(t, rows, x, bounds, es, ps);
    var target := MatchingKeys(h, t, rows, x, bounds, pred);
    MidwayParts(h, t, rows, sets, target, ps, i, images, cur, told);
    NextVisit(h, t, rows, x, bounds, pred, es, ps, i);
    ToldStep(h, t, rows, sets, target, ps, i);
    if told {
      UntouchedRow(rows, images.Keys, cur, ps[i]);
    }
  }

  lemma UntouchedRow(rows: Rows, done: set<Value>, cur: Rows, p: Value)
    requires Untouched(rows, done, cur) && p in rows && p !in done
    ensures p in cur && cur[p] == rows[p]
  {
  }

  lemma HeldLess(m: Store, t: Table, rows: Rows, told: bool, less: bool)
    requires Held(m, t, rows, told) && (less ==> told)
    ensures Held(m, t, rows, less)
  {
    hide Represents, RowsHeld;
  }

  /**
   * UPDATE through a table or index scan. Every matching row is replaced once by the image of what it
   * was when the statement began, rows and indexes in step, if types.Equal tells the old primary keys
   * of the rows it finds from the new ones; and if no two rows of the table have keys it takes for one
   * another, only then. Nothing outside the table is written in any case.
   */
  method RunUpdate(h: Host, rw: Overlay, t: Table, x: Path, bounds: Range, pred: Option<Expr>,
                   sets: seq<Assignment>, ghost rows: Rows)
    returns (r: Result<nat>, ghost images: Rows, ghost after: Rows)
    requires rw.Valid() && Represents(rw.View(), t, rows) && PathOk(t, x) && SetsFit(t, sets)
    modifies rw.buf
    ensures rw.Valid() && Confined(old(rw.View()), rw.View(), t) && RowsHeld(rw.View(), t, after)
    ensures UpdateLeft(h, t, sets, MatchingKeys(h, t, rows, x, bounds, pred), rows, rw.View(), r.Ok?, images, after)
    ensures AllTold(h, t, rows, sets, MatchingKeys(h, t, rows, x, bounds, pred)) || NoTwins(rows) ==>
              UpdateMade(h, t, pred, sets, MatchingKeys(h, t, rows, x, bounds, pred), rows, r, images, after)
  {
    hide *;
    RowsAreTyped(rw.View(), t, rows);
    HeldFrom(rw.View(), t, rows);
    var input := OpenFullScan(rw, t, x, bounds);
    var m := new Mutator(h, rw, t);
    ghost var es, i := ScanEntries(rw.View(), t, x, bounds), 0;
    ghost var ps := UpdateBegins(rw.View(), h, t, rows, x, bounds, pred, sets);
    ghost var target, told := MatchingKeys(h, t, rows, x, bounds, pred), true;
    images, after := map[], rows;
    var count := 0;
    ConfinedSame(rw.View(), t);
    while true
      invariant i <= |ps| && Ahead(input, es, i) && rw.Valid() && Held(rw.View(), t, after, told)
      invariant Confined(old(rw.View()), rw.View(), t)
      invariant Midway(h, t, rows, sets, target, ps, i, images, after, told)
      invariant told || NoTwins(rows) ==> count == |images|
      decreases |ps| - i
    {
      ghost var before, still := rw.View(), told;
      HeldGives(rw.View(), t, after, told);
      UpdateEnds(h, t, rows, sets, target, ps, i, images, after, told, rw.View(), i == |ps|);
      UpdateEnds(h, t, rows, sets, target, ps, i, images, after, told, rw.View(), false);
      if i < |ps| {
        TurnBegins(h, t, rows, x, bounds, pred, sets, es, ps, i, images, after, told);
        still := AllTold(h, t, rows, sets, Dealt(ps, i + 1, target));
        HeldLess(rw.View(), t, after, told, still);
      }
      var step;
      ghost var was, image;
      step, was, image := UpdateTurn(input, m, pred, sets, bounds, rows, es, ps, i, images, after, still);
      ConfinedTransitive(old(rw.View()), before, rw.View(), t);
      match step
      case AtEnd =>
        if told || NoTwins(rows) {
          UpdateMadeAt(h, t, rows, pred, sets, target, ps, i, images, after, told, was, Ok(count));
        }
        return Ok(count), images, after;
      case Failed(e) =>
        if told || NoTwins(rows) {
          UpdateMadeAt(h, t, rows, pred, sets, target, ps, i, images, after, told, was, Err(e));
        }
        return Err(e), images, after;
      case Skipped =>
        TurnSkipped(h, t, rows, x, bounds, pred, sets, es, ps, i, images, after, was, told);
        told, i := still, i + 1;
      case Changed =>
        TurnChanged(h, t, rows, x, bounds, pred, sets, es, ps, i, images, after, was, image, told);
        images, after := images[ps[i] := image], Moved(t, after, ps[i], image);
        told, i, count := still, i + 1, count + 1;
    }
  }

  lemma VisitsDistinct(t: Table, rows: Rows, x: Path, bounds: Range, es: seq<Entry>, ps: seq<Value>)
    requires Visits(t, rows, x, bounds, es, ps)
    ensures TypedRows(t, rows) && PathOk(t, x)
    ensures forall i, j :: 0 <= i < j < |ps| ==> ps[i] != ps[j]
  {
  }

  lemma AllKeysTold(h: Host, t: Table, rows: Rows, sets: seq<Assignment>, keys: set<Value>)
    requires TypedRows(t, rows) && SetsFit(t, sets) && KeysTellApart(h, t, rows, sets)
    ensures AllTold(h, t, rows, sets, keys)
  {
    hide Image;
    forall p | p in keys && p in rows ensures RowTold(h, t, sets, rows[p]) {
      assert rows[p][t.pk] == p;
    }
  }

  lemma DeletedSoFar(h: Host, t: Table, rows: Rows, x: Path, bounds: Range, pred: Option<Expr>,
                     es: seq<Entry>, ps: seq<Value>, i: nat)
    requires Visits(t, rows, x, bounds, es, ps) && i < |ps|
    ensures TypedRows(t, rows) && PathOk(t, x) && ps[i] in rows
    ensures var target := MatchingKeys(h, t, rows, x, bounds, pred);
            var cur := rows - Dealt(ps, i, target);
            && ps[i] in cur && cur[ps[i]] == rows[ps[i]]
            && Typed(t, rows[ps[i]]) && t.pk < |rows[ps[i]]| == |t.columns| && rows[ps[i]][t.pk] == ps[i]
            && (ps[i] in target <==> (pred.Some? ==> EvalPredicate(h, pred.value, TableEnv(t), rows[ps[i]]) == Ok(True)))
            && ps[i] !in Dealt(ps, i, target)
            && Dealt(ps, i + 1, target) == (if ps[i] in target then Dealt(ps, i, target) + {ps[i]} else Dealt(ps, i, target))
            && rows - Dealt(ps, i + 1, target) == if ps[i] in target then cur - {ps[i]} else cur
  {
    hide MatchingKeys, EvalPredicate, StandsFor, Typed, Dealt, ByteWithin, PathOk;
    VisitsDistinct(t, rows, x, bounds, es, ps);
    DealtStep(ps, i, MatchingKeys(h, t, rows, x, bounds, pred));
    NextVisit(h, t, rows, x, bounds, pred, es, ps, i);
  }

  lemma DealtNone(ps: seq<Value>, target: set<Value>)
    ensures Dealt(ps, 0, target) == {}
  {
  }

  lemma TargetsInBounds(h: Host, t: Table, rows: Rows, x: Path, bounds: Range, pred: Option<Expr>)
    requires TypedRows(t, rows) && PathOk(t, x)
    ensures forall p :: p in MatchingKeys(h, t, rows, x, bounds, pred) ==> p in rows && PathColumn(t, x) < |rows[p]|
    ensures forall p :: p in MatchingKeys(h, t, rows, x, bounds, pred) ==> ByteWithin(bounds, rows[p][PathColumn(t, x)])
  {
    hide ByteWithin, EvalPredicate;
  }

  lemma DeleteBegins(m: Store, h: Host, t: Table, rows: Rows, x: Path, bounds: Range, pred: Option<Expr>)
    returns (ps: seq<Value>)
    requires Represents(m, t, rows) && PathOk(t, x)
    ensures Visits(t, rows, x, bounds, ScanEntries(m, t, x, bounds), ps) && |ps| == |ScanEntries(m, t, x, bounds)|
    ensures TypedRows(t, rows)
    ensures Dealt(ps, 0, MatchingKeys(h, t, rows, x, bounds, pred)) == {}
    ensures rows - Dealt(ps, 0, MatchingKeys(h, t, rows, x, bounds, pred)) == rows
    ensures Dealt(ps, |ps|, MatchingKeys(h, t, rows, x, bounds, pred)) == MatchingKeys(h, t, rows, x, bounds, pred)
  {
    hide *;
    RowsAreTyped(m, t, rows);
    ps := ScanVisits(m, t, rows, x, bounds);
    VisitsCount(t, rows, x, bounds, ScanEntries(m, t, x, bounds), ps);
    DealtNone(ps, MatchingKeys(h, t, rows, x, bounds, pred));
    TargetsInBounds(h, t, rows, x, bounds, pred);
    DealtAll(t, rows, x, bounds, ScanEntries(m, t, x, bounds), ps, MatchingKeys(h, t, rows, x, bounds, pred));
  }

  method DeleteOne(m: Mutator, pred: Option<Expr>, row: Row, ghost cur: Rows) returns (step: Step)
    requires Addressable(m.table) && m.rw.Valid() && Represents(m.rw.View(), m.table, cur)
    requires Typed(m.table, row) && |row| == |m.table.columns| && row[m.table.pk] in cur && cur[row[m.table.pk]] == row
    modifies m.rw.buf
    ensures m.rw.Valid() && m.rw.buf.sorted == old(m.rw.buf.sorted) && !step.AtEnd?
    ensures !step.Changed? ==> Represents(m.rw.View(), m.table, cur)
    ensures step.Failed? ==> pred.Some? && EvalPredicate(m.host, pred.value, TableEnv(m.table), row) == Err(step.error)
    ensures step.Skipped? ==> pred.Some? && EvalPredicate(m.host, pred.value, TableEnv(m.table), row) != Ok(True)
    ensures step.Changed? ==>
              && (pred.Some? ==> EvalPredicate(m.host, pred.value, TableEnv(m.table), row) == Ok(True))
              && Represents(m.rw.View(), m.table, cur - {row[m.table.pk]})
    ensures Confined(old(m.rw.View()), m.rw.View(), m.table)
  {
    hide *;
    ViewIs(m.rw);
    ConfinedSame(m.rw.View(), m.table);
    var keep := Keeps(m.host, m.table, pred, row);
    if keep.Err? {
      return Failed(keep.error);
    }
    if !keep.value {
      return Skipped;
    }
    ghost var em := m.rw.buf.m;
    m.Delete(row);
    ViewIs(m.rw);
    DeleteTakesEffect(m.rw.base, em, m.table, cur, row);
    step := Changed;
  }

  lemma RepresentsAddressable(m: Store, t: Table, rows: Rows)
    requires Represents(m, t, rows)
    ensures Addressable(t)
  {
  }

  /** DELETE through a table or index scan removes exactly the matching rows and their entries. */
  method RunDelete(h: Host, rw: Overlay, t: Table, x: Path, bounds: Range, pred: Option<Expr>, ghost rows: Rows)
    returns (r: Result<nat>, ghost after: Rows)
    requires rw.Valid() && Represents(rw.View(), t, rows) && PathOk(t, x)
    modifies rw.buf
    ensures rw.Valid() && Represents(rw.View(), t, after) && Confined(old(rw.View()), rw.View(), t)
    ensures exists gone :: gone <= MatchingKeys(h, t, rows, x, bounds, pred) && after == rows - gone
    ensures r.Err? ==> pred.Some? && exists p :: p in rows && EvalPredicate(h, pred.value, TableEnv(t), rows[p]) == Err(r.error)
    ensures r.Ok? ==> after == rows - MatchingKeys(h, t, rows, x, bounds, pred)
    ensures r.Ok? ==> r.value == |MatchingKeys(h, t, rows, x, bounds, pred)|
  {
    hide *;
    var input := OpenFullScan(rw, t, x, bounds);
    var m := new Mutator(h, rw, t);
    RepresentsAddressable(rw.View(), t, rows);
    ghost var es, i := ScanEntries(rw.View(), t, x, bounds), 0;
    ghost var ps := DeleteBegins(rw.View(), h, t, rows, x, bounds, pred);
    ghost var target := MatchingKeys(h, t, rows, x, bounds, pred);
    var count := 0;
    ConfinedSame(rw.View(), t);
    while true
      invariant i <= |ps| && Ahead(input, es, i) && rw.Valid() && Confined(old(rw.View()), rw.View(), t)
      invariant Represents(rw.View(), t, rows - Dealt(ps, i, target))
      invariant count == |Dealt(ps, i, target)|
      decreases |ps| - i
    {
      if i < |ps| {
        DeletedSoFar(h, t, rows, x, bounds, pred, es, ps, i);
      }
      DealtAreTargets(ps, i, target);
      RepresentsRowsHeld(rw.View(), t, rows - Dealt(ps, i, target));
      var next := FetchNext(input, bounds, rows, es, ps, i, rows - Dealt(ps, i, target));
      if next.None? {
        return Ok(count), rows - target;
      }
      FetchedAsWas(t, rows, rows - Dealt(ps, i, target), ps[i], next.value);
      ghost var before := rw.View();
      var step := DeleteOne(m, pred, next.value, rows - Dealt(ps, i, target));
      ConfinedTransitive(old(rw.View()), before, rw.View(), t);
      if step.Failed? {
        return Err(step.error), rows - Dealt(ps, i, target);
      }
      if step.Changed? {
        count := count + 1;
      }
      i := i + 1;
    }
  }
}
