// The plan plainSelect builds delivers exactly what the naive plan delivers.
module Equivalence {
  import opened Bytes
  import opened Values
  import opened Ast
  import opened Eval
  import opened KeyCodec
  import opened RowCodec
  import opened Ranges
  import opened Storage
  import opened Schema
  import opened Access
  import opened Statements
  import opened Sorting
  import opened Streams
  import opened Planner
  import opened Rewriting
  import opened Masks
  import opened Select
  import opened Parser

  // ------------------------------------------------------------------
  // Bounds that a parsed clause can give rise to
  // ------------------------------------------------------------------

  lemma {:induction false} ConjunctsProducible(e: Expr)
    requires Producible(e)
    ensures forall c :: c in SplitConjuncts(e) ==> Producible(c)
  {
    if e.Binary? && e.op.AndOp? {
      ConjunctsProducible(e.left);
      ConjunctsProducible(e.right);
    }
  }

  lemma SargNumbers(h: Host, t: Table, e: Expr)
    requires Producible(e) && Sargable(h, t, e).Some?
    ensures BoundsAreNumbers(Sargable(h, t, e).value.range)
  {
  }

  lemma IntersectNumbers(r: Range, o: Range)
    requires BoundsAreNumbers(r) && BoundsAreNumbers(o)
    ensures BoundsAreNumbers(r.Intersect(o))
  {
  }

  lemma {:induction false} RangeOnNumbers(h: Host, t: Table, list: seq<Expr>, column: Name)
    requires (forall c :: c in list ==> Producible(c)) && RangeOn(h, t, list, column).Some?
    ensures BoundsAreNumbers(RangeOn(h, t, list, column).value)
  {
    hide Sargable, BoundsAreNumbers, Producible;
    if list != [] {
      var n := |list| - 1;
      if OnColumn(h, t, list[n], column) {
        SargNumbers(h, t, list[n]);
      }
      if RangeOn(h, t, list[..n], column).Some? {
        RangeOnNumbers(h, t, list[..n], column);
        if OnColumn(h, t, list[n], column) {
          IntersectNumbers(RangeOn(h, t, list[..n], column).value, Sargable(h, t, list[n]).value.range);
        }
      }
    }
  }

  /** No path chosen for a clause that was parsed has a NaN for a bound. */
  lemma ParsedBounds(h: Host, t: Table, q: Query, a: AccessPath)
    requires WellFormed(t) && IsCandidate(h, t, Conjuncts(q), a) && (q.where.Some? ==> Producible(q.where.value))
    ensures BoundsAreNumbers(a.bounds)
  {
    CandidateColumn(h, t, Conjuncts(q), a);
    hide IsCandidate, RangeOn, Producible;
    if q.where.Some? {
      ConjunctsProducible(q.where.value);
    }
    if a != FullScan(t) {
      RangeOnNumbers(h, t, Conjuncts(q), a.ordersBy);
    }
  }

  // ------------------------------------------------------------------
  // Sort elimination
  // ------------------------------------------------------------------

  lemma {:induction false} FilterSubset(h: Host, list: seq<Expr>, env: Env, s: Stream)
    ensures forall r :: r in FilterC(h, list, env, s).rows ==> r in s.rows
    decreases |s.rows|
  {
    if s.rows != [] {
      FilterSubset(h, list, env, Tail(s));
    }
  }

  /** Filtering keeps rows in the order they came in. */
  lemma {:induction false} FilterAscends(h: Host, t: Table, x: Path, list: seq<Expr>, env: Env, s: Stream)
    requires Ascends(t, x, s.rows)
    ensures Ascends(t, x, FilterC(h, list, env, s).rows)
    decreases |s.rows|
  {
    if s.rows != [] {
      assert Ascends(t, x, s.rows[1..]);
      FilterAscends(h, t, x, list, env, Tail(s));
      FilterSubset(h, list, env, Tail(s));
      hide EvalFrom, PathOrder;
      if EvalFrom(h, True, list, env, s.rows[0]) == Ok(True) {
        AscendsCons(t, x, s.rows, FilterC(h, list, env, Tail(s)).rows);
      }
    }
  }

  lemma AscendsCons(t: Table, x: Path, rows: seq<Row>, some: seq<Row>)
    requires rows != [] && Ascends(t, x, rows) && Ascends(t, x, some) && forall r :: r in some ==> r in rows[1..]
    ensures Ascends(t, x, [rows[0]] + some)
  {
    forall j | 0 <= j < |some| ensures PathOrder(t, x, rows[0], some[j]) < 0 {
      assert some[j] in rows[1..];
      var i :| 0 <= i < |rows[1..]| && rows[1..][i] == some[j];
      assert rows[i + 1] == some[j];
    }
  }

  ghost predicate TableWide(t: Table, rows: seq<Row>) { forall r :: r in rows ==> |r| == |t.columns| }

  /** The items a sort on the path's own column makes of rows. */
  function OwnItems(t: Table, x: Path, rows: seq<Row>, num: nat): (r: seq<Item>)
    requires PathOk(t, x) && TableWide(t, rows)
    ensures |r| == |rows|
    ensures forall i :: 0 <= i < |rows| ==> r[i] == Sorting.Item(rows[i], [PathValue(t, x, rows[i])], num + i)
  {
    if rows == [] then []
    else [Sorting.Item(rows[0], [PathValue(t, x, rows[0])], num)] + OwnItems(t, x, rows[1..], num + 1)
  }

  lemma OwnKey(h: Host, t: Table, x: Path, key: SortKey, row: Row)
    requires WellFormed(t) && PathOk(t, x) && |row| == |t.columns|
    requires key.expr.Column? && t.ColumnIndex(key.expr.name) == Some(PathColumn(t, x))
    ensures EvalAll(h, KeyExprs([key]), TableEnv(t), row) == Ok([PathValue(t, x, row)])
  {
    ColumnValue(h, t, key.expr.table, key.expr.name, row);
    assert KeyExprs([key]) == [key.expr];
    hide TableEnv, EvalExpr, WellFormed;
    assert KeyExprs([key])[..0] == [];
    assert [] + [PathValue(t, x, row)] == [PathValue(t, x, row)];
    assert EvalAll(h, KeyExprs([key])[..0], TableEnv(t), row) == Ok([]);
  }

  lemma OwnItemsStep(h: Host, t: Table, x: Path, key: SortKey, rows: seq<Row>, num: nat)
    requires WellFormed(t) && PathOk(t, x) && TableWide(t, rows) && rows != []
    requires key.expr.Column? && t.ColumnIndex(key.expr.name) == Some(PathColumn(t, x))
    ensures TableWide(t, rows[1..]) && |rows[0]| == |t.columns|
    ensures ItemsOf(h, [key], TableEnv(t), Stream(rows, None), num) ==
            Onto([Sorting.Item(rows[0], [PathValue(t, x, rows[0])], num)],
                 ItemsOf(h, [key], TableEnv(t), Stream(rows[1..], None), num + 1))
  {
    OwnKey(h, t, x, key, rows[0]);
    ItemsStep(h, [key], TableEnv(t), Stream(rows, None), num);
    hide *;
    assert Stream(rows, None).rows == rows;
    TailIs(rows);
  }

  lemma TailIs(rows: seq<Row>)
    requires rows != []
    ensures Tail(Stream(rows, None)) == Stream(rows[1..], None)
  {
  }

  lemma {:induction false} OwnItemsOf(h: Host, t: Table, x: Path, key: SortKey, rows: seq<Row>, num: nat)
    requires WellFormed(t) && PathOk(t, x) && TableWide(t, rows)
    requires key.expr.Column? && t.ColumnIndex(key.expr.name) == Some(PathColumn(t, x))
    ensures ItemsOf(h, [key], TableEnv(t), Stream(rows, None), num) == Ok(OwnItems(t, x, rows, num))
  {
    hide WellFormed, PathOk, TableWide, TableEnv;
    if rows != [] {
      hide ItemsOf;
      OwnItemsStep(h, t, x, key, rows, num);
      OwnItemsOf(h, t, x, key, rows[1..], num + 1);
    }
  }

  predicate IsNumber(v: Value) { v.Float? && !IsNaN(v.bits) }

  /** No NaN with a sign bit among numbers: as bytes it comes before them, in the sort order after them. */
  ghost predicate NaNsApart(t: Table, x: Path, rows: seq<Row>)
    requires PathOk(t, x) && TableWide(t, rows)
  {
    forall r, s :: r in rows && s in rows && IsNegativeNaN(PathValue(t, x, r)) ==> !IsNumber(PathValue(t, x, s))
  }

  lemma OwnOrder(t: Table, x: Path, a: Item, b: Item)
    requires PathOk(t, x) && |a.row| == |b.row| == |t.columns|
    requires a.keys == [PathValue(t, x, a.row)] && b.keys == [PathValue(t, x, b.row)] && a.num < b.num
    requires PathOrder(t, x, a.row, b.row) < 0
    ensures Less([false], a, b) <==> !(IsNegativeNaN(PathValue(t, x, a.row)) && IsNumber(PathValue(t, x, b.row)))
    ensures !(IsNegativeNaN(PathValue(t, x, b.row)) && IsNumber(PathValue(t, x, a.row)))
  {
    OneKey(PathValue(t, x, a.row), PathValue(t, x, b.row));
    NaNsOutOfPlace(PathValue(t, x, a.row), PathValue(t, x, b.row));
    hide IsNegativeNaN, IsNumber, Order, CmpKeys;
    ByteOrderSelf(PathValue(t, x, a.row), PathValue(t, x, b.row));
  }

  lemma OneKey(a: Value, b: Value)
    ensures CmpKeys([false], [a], [b]) == Order(a, b)
  {
    assert [false][1..] == [] && [a][1..] == [] && [b][1..] == [];
  }

  /** Of values in byte order only a NaN with a sign bit before a number is not in sort order. */
  lemma NaNsOutOfPlace(a: Value, b: Value)
    requires ByteOrder(a, b) <= 0
    ensures Order(a, b) <= 0 <==> !(IsNegativeNaN(a) && IsNumber(b))
    ensures !(IsNegativeNaN(b) && IsNumber(a))
  {
  }

  lemma OwnItemsFit(t: Table, x: Path, rows: seq<Row>)
    requires PathOk(t, x) && TableWide(t, rows)
    ensures Fits([false], OwnItems(t, x, rows, 0)) && Numbered(OwnItems(t, x, rows, 0))
    ensures RowsOf(OwnItems(t, x, rows, 0)) == rows && |OwnItems(t, x, rows, 0)| == |rows|
  {
    hide PathOk, PathValue;
  }

  lemma OwnAt(t: Table, x: Path, rows: seq<Row>, i: nat)
    requires PathOk(t, x) && TableWide(t, rows) && i < |rows|
    ensures |rows[i]| == |t.columns| && rows[i] in rows
    ensures OwnItems(t, x, rows, 0)[i] == Sorting.Item(rows[i], [PathValue(t, x, rows[i])], i)
    ensures Fits([false], OwnItems(t, x, rows, 0))
  {
    hide PathOk;
    assert rows[i] in rows;
  }

  lemma AscendsAt(t: Table, x: Path, rows: seq<Row>, i: nat, j: nat)
    requires Ascends(t, x, rows) && i < j < |rows|
    ensures PathOk(t, x) && |rows[i]| == |rows[j]| == |t.columns| && PathOrder(t, x, rows[i], rows[j]) < 0
  {
    hide PathOrder;
    assert rows[i] in rows && rows[j] in rows;
  }

  lemma OwnPair(t: Table, x: Path, rows: seq<Row>, i: nat, j: nat)
    requires Ascends(t, x, rows) && PathOk(t, x) && TableWide(t, rows) && i < j < |rows|
    ensures Fits([false], OwnItems(t, x, rows, 0)) && |rows[i]| == |rows[j]| == |t.columns|
    ensures Less([false], OwnItems(t, x, rows, 0)[i], OwnItems(t, x, rows, 0)[j]) <==>
            !(IsNegativeNaN(PathValue(t, x, rows[i])) && IsNumber(PathValue(t, x, rows[j])))
    ensures !(IsNegativeNaN(PathValue(t, x, rows[j])) && IsNumber(PathValue(t, x, rows[i])))
  {
    hide *;
    OwnAt(t, x, rows, i);
    OwnAt(t, x, rows, j);
    AscendsAt(t, x, rows, i, j);
    OwnOrder(t, x, OwnItems(t, x, rows, 0)[i], OwnItems(t, x, rows, 0)[j]);
  }

  lemma InOrderAt(desc: seq<bool>, items: seq<Item>, i: nat, j: nat)
    requires Fits(desc, items) && InOrder(desc, items) && i < j < |items|
    ensures |items[i].keys| == |items[j].keys| == |desc| && Less(desc, items[i], items[j])
  {
    hide Less;
  }

  lemma InOrderFrom(desc: seq<bool>, items: seq<Item>)
    requires Fits(desc, items) && forall i, j :: 0 <= i < j < |items| ==> Less(desc, items[i], items[j])
    ensures InOrder(desc, items)
  {
    hide Less;
  }

  lemma OrderedPair(t: Table, x: Path, rows: seq<Row>, i: nat, j: nat)
    requires Ascends(t, x, rows) && PathOk(t, x) && TableWide(t, rows) && i < |rows| && j < |rows|
    requires Fits([false], OwnItems(t, x, rows, 0)) && InOrder([false], OwnItems(t, x, rows, 0))
    ensures |rows[i]| == |rows[j]| == |t.columns|
    ensures !(IsNegativeNaN(PathValue(t, x, rows[i])) && IsNumber(PathValue(t, x, rows[j])))
  {
    hide *;
    OwnAt(t, x, rows, i);
    OwnItemsFit(t, x, rows);
    if i < j {
      InOrderAt([false], OwnItems(t, x, rows, 0), i, j);
      OwnPair(t, x, rows, i, j);
    } else if j < i {
      OwnPair(t, x, rows, j, i);
    } else {
      NotBoth(PathValue(t, x, rows[i]));
    }
  }

  lemma ApartPair(t: Table, x: Path, rows: seq<Row>, i: nat, j: nat)
    requires PathOk(t, x) && TableWide(t, rows) && NaNsApart(t, x, rows) && i < |rows| && j < |rows|
    ensures |rows[i]| == |rows[j]| == |t.columns|
    ensures !(IsNegativeNaN(PathValue(t, x, rows[i])) && IsNumber(PathValue(t, x, rows[j])))
  {
    hide PathOk, PathValue, IsNegativeNaN, IsNumber;
    assert rows[i] in rows && rows[j] in rows;
  }

  lemma ApartFrom(t: Table, x: Path, rows: seq<Row>)
    requires PathOk(t, x) && TableWide(t, rows)
    requires forall i, j :: 0 <= i < |rows| && 0 <= j < |rows| ==> |rows[i]| == |rows[j]| == |t.columns|
    requires forall i, j :: 0 <= i < |rows| && 0 <= j < |rows| ==>
               !(IsNegativeNaN(PathValue(t, x, rows[i])) && IsNumber(PathValue(t, x, rows[j])))
    ensures NaNsApart(t, x, rows)
  {
    hide PathOk, PathValue, IsNegativeNaN, IsNumber;
  }

  /** Rows in path order are in sort order as well exactly if no NaN with a sign bit is among numbers. */
  lemma OwnItemsInOrder(t: Table, x: Path, rows: seq<Row>)
    requires Ascends(t, x, rows) && PathOk(t, x) && TableWide(t, rows)
    ensures Fits([false], OwnItems(t, x, rows, 0)) && (InOrder([false], OwnItems(t, x, rows, 0)) <==> NaNsApart(t, x, rows))
  {
    hide *;
    OwnItemsFit(t, x, rows);
    if InOrder([false], OwnItems(t, x, rows, 0)) {
      forall i, j | 0 <= i < |rows| && 0 <= j < |rows|
        ensures |rows[i]| == |rows[j]| == |t.columns|
        ensures !(IsNegativeNaN(PathValue(t, x, rows[i])) && IsNumber(PathValue(t, x, rows[j])))
      {
        OrderedPair(t, x, rows, i, j);
      }
      ApartFrom(t, x, rows);
    } else if NaNsApart(t, x, rows) {
      forall i, j | 0 <= i < j < |rows| ensures Less([false], OwnItems(t, x, rows, 0)[i], OwnItems(t, x, rows, 0)[j]) {
        ApartPair(t, x, rows, i, j);
        OwnPair(t, x, rows, i, j);
      }
      InOrderFrom([false], OwnItems(t, x, rows, 0));
    }
  }

  lemma NotBoth(v: Value)
    ensures !(IsNegativeNaN(v) && IsNumber(v))
  {
  }

  /** The rows are all different, so a sort that leaves them where they are leaves their items there. */
  lemma SortLeftAlone(t: Table, x: Path, rows: seq<Row>)
    requires Ascends(t, x, rows) && PathOk(t, x) && TableWide(t, rows) && Fits([false], OwnItems(t, x, rows, 0))
    requires RowsOf(Sort([false], OwnItems(t, x, rows, 0))) == rows
    ensures Sort([false], OwnItems(t, x, rows, 0)) == OwnItems(t, x, rows, 0)
  {
    hide PathOk, Ascends, PathOrder, Sort, PathValue, TableWide, Fits;
    var items := OwnItems(t, x, rows, 0);
    var sorted := Sort([false], items);
    SortMultiset([false], items);
    forall k | 0 <= k < |rows| ensures sorted[k] == items[k] {
      assert sorted[k] in multiset(items);
      var l :| 0 <= l < |items| && items[l] == sorted[k];
      assert RowsOf(sorted)[k] == sorted[k].row == rows[l];
      if l < k {
        AscendsDistinct(t, x, rows, l, k);
      } else if k < l {
        AscendsDistinct(t, x, rows, k, l);
      }
    }
  }

  lemma SortOfItems(h: Host, keys: seq<SortKey>, env: Env, s: Stream, items: seq<Item>)
    requires Fits(Directions(keys), items) && ItemsOf(h, keys, env, s, 0) == Ok(items)
    ensures SortS(h, keys, -1, env, s) == Stream(RowsOf(Sort(Directions(keys), items)), None)
  {
  }

  lemma Ascending(key: SortKey)
    requires !key.desc
    ensures Directions([key]) == [false]
  {
  }

  /** Rows in path order are a fixed point of the sort on the path's column, ties included, if and only if NaNsApart. */
  lemma SortProvided(h: Host, t: Table, x: Path, key: SortKey, rows: seq<Row>)
    requires WellFormed(t) && Ascends(t, x, rows) && PathOk(t, x) && TableWide(t, rows)
    requires key.expr.Column? && t.ColumnIndex(key.expr.name) == Some(PathColumn(t, x)) && !key.desc
    ensures SortS(h, [key], -1, TableEnv(t), Stream(rows, None)) == Stream(rows, None) <==> NaNsApart(t, x, rows)
  {
    hide *;
    Ascending(key);
    OwnItemsOf(h, t, x, key, rows, 0);
    OwnItemsInOrder(t, x, rows);
    OwnItemsFit(t, x, rows);
    var items := OwnItems(t, x, rows, 0);
    SortOfItems(h, [key], TableEnv(t), Stream(rows, None), items);
    if NaNsApart(t, x, rows) {
      SortOfSorted([false], items);
    } else if RowsOf(Sort([false], items)) == rows {
      SortLeftAlone(t, x, rows);
      SortInOrder([false], items);
    }
  }

  /** Of these two rows of the FLOAT table the key order puts the NaN first, and ORDER BY puts it last. */
  function NaNRows(): seq<Row> { [[NEGATIVE_NAN, Int(1)], [POSITIVE_ZERO, Int(1)]] }

  lemma NaNRowsAscend()
    ensures WellFormed(FloatExample()) && PathOk(FloatExample(), None) && TableWide(FloatExample(), NaNRows())
    ensures Typed(FloatExample(), NaNRows()[0]) && Typed(FloatExample(), NaNRows()[1])
    ensures Ascends(FloatExample(), None, NaNRows()) && !NaNsApart(FloatExample(), None, NaNRows())
  {
    var rows := NaNRows();
    assert rows[0] in rows && rows[1] in rows;
    assert IsNegativeNaN(PathValue(FloatExample(), None, rows[0])) && IsNumber(PathValue(FloatExample(), None, rows[1]));
  }

  lemma NaNOutOfOrder(h: Host)
    ensures Ascends(FloatExample(), None, NaNRows())
    ensures var key := SortKey(Expr.Column([], [0x66]), false);
            SortS(h, [key], -1, TableEnv(FloatExample()), Stream(NaNRows(), None)) != Stream(NaNRows(), None)
  {
    hide SortS, Ascends, NaNsApart, TableEnv, WellFormed, NaNRows, TableWide;
    NaNRowsAscend();
    assert FloatExample().ColumnIndex([0x66]) == Some(0);
    SortProvided(h, FloatExample(), None, SortKey(Expr.Column([], [0x66]), false), NaNRows());
  }

  // ------------------------------------------------------------------
  // The plans, operator by operator
  // ------------------------------------------------------------------

  /** The rows of the table the WHERE clause keeps, in path order. */
  ghost function Kept(h: Host, m: Store, t: Table, rows: Rows, q: Query, x: Path): Stream {
    FilterC(h, Conjuncts(q), TableEnv(t), Stream(ScanRows(m, t, rows, x, EVERYTHING), None))
  }

  /** The rows the chosen range and the residual filter return. */
  ghost function Narrowed(h: Host, m: Store, t: Table, rows: Rows, q: Query, a: AccessPath): Stream {
    FilterC(h, Residual(Conjuncts(q), a.consumed), TableEnv(t), Stream(ScanRows(m, t, rows, a.index, a.bounds), None))
  }

  /** No row of the table that the scan misjudges does harm. */
  ghost predicate NoHarm(h: Host, t: Table, rows: Rows, q: Query, a: AccessPath)
    requires PathOk(t, a.index)
  {
    forall p :: p in rows && |rows[p]| == |t.columns| ==> Harmless(h, t, Conjuncts(q), a, rows[p])
  }

  /** Plain floats where the path looks. */
  ghost predicate Tame(t: Table, rows: Rows, a: AccessPath)
    requires PathOk(t, a.index)
  {
    PlainRange(a.bounds) && forall p :: p in rows && |rows[p]| == |t.columns| ==> Plain(PathValue(t, a.index, rows[p]))
  }

  /** No row with a NULL under an open-below index range passes the residual filter. */
  ghost predicate NoStrays(h: Host, t: Table, rows: Rows, q: Query, a: AccessPath)
    requires PathOk(t, a.index)
  {
    forall p :: p in rows && |rows[p]| == |t.columns| && Stray(t, a, rows[p]) ==>
                  !IsKept(h, t, Residual(Conjuncts(q), a.consumed), rows[p])
  }

  lemma NarrowScan(m: Store, t: Table, rows: Rows, x: Path, bounds: Range)
    requires Represents(m, t, rows) && PathOk(t, x)
    ensures forall r :: r in ScanRows(m, t, rows, x, EVERYTHING) ==> |r| == |t.columns|
    ensures ScanRows(m, t, rows, x, bounds) == KeepIn(t, x, bounds, ScanRows(m, t, rows, x, EVERYTHING))
  {
    hide Represents, ScanEntries, Resolved, FilterInside, KeyBytes;
    ScanResolved(m, t, rows, x, EVERYTHING);
    ScanNarrows(m, t, x, bounds);
    RowsNarrow(t, rows, x, bounds, ScanEntries(m, t, x, EVERYTHING));
  }

  /** The rows a full scan returns are the table's. */
  lemma ScannedRows(m: Store, t: Table, rows: Rows, x: Path)
    requires Represents(m, t, rows) && PathOk(t, x)
    ensures AllTyped(t, ScanRows(m, t, rows, x, EVERYTHING))
    ensures forall r :: r in ScanRows(m, t, rows, x, EVERYTHING) ==> t.pk < |r| && r[t.pk] in rows && rows[r[t.pk]] == r
    ensures forall p :: p in rows ==> rows[p] in ScanRows(m, t, rows, x, EVERYTHING) && |rows[p]| == |t.columns|
  {
    FullScanIsTable(m, t, rows, x);
    RepresentsTyped(m, t, rows);
    hide Represents, ScanRows, Ascends;
    forall r | r in ScanRows(m, t, rows, x, EVERYTHING) ensures Typed(t, r) && |r| == |t.columns| {
      assert rows[r[t.pk]] == r;
    }
    forall p | p in rows ensures rows[p] in ScanRows(m, t, rows, x, EVERYTHING) && |rows[p]| == |t.columns| {
      assert rows[p][t.pk] == p;
    }
  }

  lemma HarmlessRows(h: Host, m: Store, t: Table, rows: Rows, q: Query, a: AccessPath)
    requires Represents(m, t, rows) && PathOk(t, a.index)
    ensures AllTyped(t, ScanRows(m, t, rows, a.index, EVERYTHING))
    ensures NoHarm(h, t, rows, q, a) <==> AllHarmless(h, t, Conjuncts(q), a, ScanRows(m, t, rows, a.index, EVERYTHING))
  {
    hide Represents, ScanRows, Harmless, Conjuncts, PathOk, Typed;
    ScannedRows(m, t, rows, a.index);
  }

  /**
   * The chosen range and the residual filter return, in path order and each once, exactly the rows
   * the whole WHERE clause keeps, if and only if no misjudged row does harm; this unless the clause
   * raises an error. An error the range and the residual raise, the clause raises as well.
   */
  lemma AccessPathExact(h: Host, m: Store, t: Table, rows: Rows, q: Query, a: AccessPath)
    requires Represents(m, t, rows) && IsCandidate(h, t, Conjuncts(q), a) && PathOk(t, a.index)
    ensures Kept(h, m, t, rows, q, a.index).end == None ==>
              (Narrowed(h, m, t, rows, q, a) == Kept(h, m, t, rows, q, a.index) <==> NoHarm(h, t, rows, q, a))
    ensures NoHarm(h, t, rows, q, a) && Narrowed(h, m, t, rows, q, a).end != None ==>
              Kept(h, m, t, rows, q, a.index).end != None
  {
    RepresentsTyped(m, t, rows);
    NarrowScan(m, t, rows, a.index, a.bounds);
    HarmlessRows(h, m, t, rows, q, a);
    hide IsCandidate, Residual, Conjuncts, FilterC, ScanRows, KeepIn, PathOk, WellFormed, TypedRows, AllHarmless, NoHarm, Represents;
    FilterNarrowed(h, t, Conjuncts(q), a, ScanRows(m, t, rows, a.index, EVERYTHING));
  }

  /** The clause raises no error exactly if it raises none on any row of the table. */
  lemma ErrorFree(h: Host, m: Store, t: Table, rows: Rows, q: Query, x: Path)
    requires Represents(m, t, rows) && PathOk(t, x)
    ensures Kept(h, m, t, rows, q, x).end == None <==>
            forall p :: p in rows ==> EvalFrom(h, True, Conjuncts(q), TableEnv(t), rows[p]).Ok?
  {
    ScannedRows(m, t, rows, x);
    FilterMembers(h, Conjuncts(q), TableEnv(t), ScanRows(m, t, rows, x, EVERYTHING));
    hide Represents, EvalFrom, Conjuncts, ScanRows, FilterC, Typed;
  }

  /** With plain floats on the path only the NULLs matter. */
  lemma TameHarmless(h: Host, m: Store, t: Table, rows: Rows, q: Query, a: AccessPath)
    requires Represents(m, t, rows) && IsCandidate(h, t, Conjuncts(q), a) && PathOk(t, a.index)
    requires Tame(t, rows, a) && Kept(h, m, t, rows, q, a.index).end == None
    ensures NoHarm(h, t, rows, q, a) <==> NoStrays(h, t, rows, q, a)
  {
    RepresentsTyped(m, t, rows);
    ScannedRows(m, t, rows, a.index);
    FilterMembers(h, Conjuncts(q), TableEnv(t), ScanRows(m, t, rows, a.index, EVERYTHING));
    hide IsCandidate, Residual, Conjuncts, FilterC, ScanRows, PathOk, WellFormed, Represents, IsKept, PathValue, Plain, PlainRange,
         EvalFrom, Typed, Harmless, Stray, Misjudged;
    forall p | p in rows
      ensures Harmless(h, t, Conjuncts(q), a, rows[p]) <==>
              (Stray(t, a, rows[p]) ==> !IsKept(h, t, Residual(Conjuncts(q), a.consumed), rows[p]))
    {
      TameRow(h, t, Conjuncts(q), a, rows[p]);
    }
  }

  lemma TameRow(h: Host, t: Table, list: seq<Expr>, a: AccessPath, row: Row)
    requires WellFormed(t) && Typed(t, row) && IsCandidate(h, t, list, a) && PathOk(t, a.index)
    requires PlainRange(a.bounds) && Plain(PathValue(t, a.index, row)) && EvalFrom(h, True, list, TableEnv(t), row).Ok?
    ensures Harmless(h, t, list, a, row) <==> (Stray(t, a, row) ==> !IsKept(h, t, Residual(list, a.consumed), row))
  {
    hide IsCandidate, Residual, PathOk, WellFormed, IsKept, PathValue, Plain, PlainRange, EvalFrom, Stray, Misjudged;
    PlainMisjudged(h, t, list, a, row);
    if Stray(t, a, row) && !IsKept(h, t, Residual(list, a.consumed), row) {
      StrayHarmless(h, t, list, a, row);
    }
  }

  lemma ScanRuns(h: Host, m: Store, t: Table, rows: Rows, x: Path, bounds: Range, mask: seq<bool>)
    requires Represents(m, t, rows) && PathOk(t, x) && |mask| == |t.columns|
    ensures Masks.Wide(mask, ScanRows(m, t, rows, x, bounds))
    ensures Run(h, m, t, ScanNode(x, bounds, mask)) == MaskS(mask, Stream(ScanRows(m, t, rows, x, bounds), None))
  {
    hide Represents, ScanEntries, Resolved;
    ScanResolved(m, t, rows, x, bounds);
    FetchesAll(m, t, rows, x, ScanEntries(m, t, x, bounds), mask);
  }

  lemma {:induction false} MaskFull(t: Table, rows: seq<Row>)
    requires forall r :: r in rows ==> |r| == |t.columns|
    ensures MaskAll(FullMask(t), rows) == rows
  {
    if rows != [] {
      MaskFull(t, rows[1..]);
      assert Masked(rows[0], FullMask(t)) == rows[0];
    }
  }

  lemma FilterRuns(h: Host, m: Store, t: Table, p: Plan, list: seq<Expr>)
    ensures Run(h, m, t, WithFilter(p, list)) == FilterC(h, list, TableEnv(t), Run(h, m, t, p))
  {
    if list == [] {
      FilterNothing(h, TableEnv(t), Run(h, m, t, p));
    } else {
      FilterJoin(h, list, TableEnv(t), Run(h, m, t, p));
    }
  }

  /** The naive plan up to its Sort. */
  function NaiveFilter(t: Table, q: Query, x: Path): Plan {
    var scan := ScanNode(x, EVERYTHING, FullMask(t));
    if q.where.Some? then FilterNode(scan, q.where.value) else scan
  }

  lemma NaiveKeeps(h: Host, m: Store, t: Table, rows: Rows, q: Query, x: Path)
    requires Represents(m, t, rows) && PathOk(t, x)
    ensures Run(h, m, t, NaiveFilter(t, q, x)) == Kept(h, m, t, rows, q, x)
  {
    hide Represents, ScanRows, FetchAll;
    var all := Stream(ScanRows(m, t, rows, x, EVERYTHING), None);
    ScanRuns(h, m, t, rows, x, EVERYTHING, FullMask(t));
    MaskFull(t, ScanRows(m, t, rows, x, EVERYTHING));
    if q.where.Some? {
      FilterSplit(h, q.where.value, TableEnv(t), all);
    } else {
      FilterNothing(h, TableEnv(t), all);
    }
  }

  lemma MaskCovers(t: Table, exprs: seq<Expr>)
    ensures Covers(t, MaskOf(t, exprs), exprs)
  {
  }

  lemma ReadByParts(t: Table, q: Query, a: AccessPath)
    ensures forall e :: e in Residual(Conjuncts(q), a.consumed) || e in Expanded(t, q.items) || e in KeyExprs(KeptKeys(q, a)) ==>
                          e in ReadBy(t, q, a)
  {
  }

  /** The optimised plan up to its Sort: the kept rows, with what nothing reads left undecoded. */
  lemma NarrowedRuns(h: Host, m: Store, t: Table, rows: Rows, q: Query, a: AccessPath, mask: seq<bool>)
    requires Represents(m, t, rows) && IsCandidate(h, t, Conjuncts(q), a) && PathOk(t, a.index)
    requires Kept(h, m, t, rows, q, a.index).end == None && NoHarm(h, t, rows, q, a)
    requires Covers(t, mask, ReadBy(t, q, a))
    ensures Masks.Wide(mask, Kept(h, m, t, rows, q, a.index).rows)
    ensures Run(h, m, t, WithFilter(ScanNode(a.index, a.bounds, mask), Residual(Conjuncts(q), a.consumed))) ==
            MaskS(mask, Kept(h, m, t, rows, q, a.index))
  {
    AccessPathExact(h, m, t, rows, q, a);
    RepresentsTyped(m, t, rows);
    ScanRuns(h, m, t, rows, a.index, a.bounds, mask);
    ReadByParts(t, q, a);
    hide Represents, ScanRows, IsCandidate, NoHarm, Covers, Conjuncts, Residual, Run, ReadBy;
    FilterRuns(h, m, t, ScanNode(a.index, a.bounds, mask), Residual(Conjuncts(q), a.consumed));
    FilterMasked(h, t, mask, ReadBy(t, q, a), Residual(Conjuncts(q), a.consumed),
                 Stream(ScanRows(m, t, rows, a.index, a.bounds), None));
  }

  /** Sorting, eliminated or not, limited or not, as the optimised plan has it. */
  function SortedAs(h: Host, q: Query, a: AccessPath, env: Env, kept: Stream): Stream {
    if q.keys == [] then kept
    else SortS(h, q.keys, if KeptKeys(q, a) == [] then -1 else SortLimit(q), env, kept)
  }

  lemma SortNodeRuns(h: Host, m: Store, t: Table, p: Plan, keys: seq<SortKey>, limit: int64)
    ensures Run(h, m, t, WithSort(p, keys, limit)) ==
            if keys == [] then Run(h, m, t, p) else SortS(h, keys, limit, TableEnv(t), Run(h, m, t, p))
  {
  }

  lemma SortRuns(h: Host, m: Store, t: Table, rows: Rows, q: Query, a: AccessPath, mask: seq<bool>, p: Plan)
    requires Represents(m, t, rows) && IsCandidate(h, t, Conjuncts(q), a) && PathOk(t, a.index)
    requires Kept(h, m, t, rows, q, a.index).end == None && SortSpared(h, m, t, rows, q, a)
    requires Covers(t, mask, ReadBy(t, q, a)) && Masks.Wide(mask, Kept(h, m, t, rows, q, a.index).rows)
    requires Run(h, m, t, p) == MaskS(mask, Kept(h, m, t, rows, q, a.index))
    ensures var sorted := SortedAs(h, q, a, TableEnv(t), Kept(h, m, t, rows, q, a.index));
            Masks.Wide(mask, sorted.rows) && Run(h, m, t, WithSort(p, KeptKeys(q, a), SortLimit(q))) == MaskS(mask, sorted)
  {
    RepresentsTyped(m, t, rows);
    ReadByParts(t, q, a);
    hide Represents, IsCandidate, Covers, Kept, MaskS, ReadBy, SortS, Run, WithSort, SortLimit, Conjuncts, Residual, Expanded,
         TableEnv, WellFormed, TypedRows;
    var kept := Kept(h, m, t, rows, q, a.index);
    SortNodeRuns(h, m, t, p, KeptKeys(q, a), SortLimit(q));
    if KeptKeys(q, a) == [] {
      if q.keys != [] {
        assert q.keys == [q.keys[0]];
        KeptIsSorted(h, m, t, rows, q, a, q.keys[0]);
      }
    } else {
      SortStreamMasked(h, t, mask, ReadBy(t, q, a), q.keys, SortLimit(q), kept);
    }
  }

  /**
   * A Sort the planner drops would have left the filtered scan as it was if and only if no NaN with
   * a sign bit is among numbers.
   */
  lemma KeptIsSorted(h: Host, m: Store, t: Table, rows: Rows, q: Query, a: AccessPath, key: SortKey)
    requires Represents(m, t, rows) && IsCandidate(h, t, Conjuncts(q), a) && PathOk(t, a.index)
    requires Kept(h, m, t, rows, q, a.index).end == None
    requires Provides(a, key.expr) && !key.desc
    ensures TableWide(t, Kept(h, m, t, rows, q, a.index).rows)
    ensures SortS(h, [key], -1, TableEnv(t), Kept(h, m, t, rows, q, a.index)) == Kept(h, m, t, rows, q, a.index) <==>
            NaNsApart(t, a.index, Kept(h, m, t, rows, q, a.index).rows)
  {
    RepresentsTyped(m, t, rows);
    CandidateColumn(h, t, Conjuncts(q), a);
    KeptAscends(h, m, t, rows, q, a.index);
    hide Represents, IsCandidate, SortS, Conjuncts, Kept, PathOk, NaNsApart, Ascends, TableWide;
    var kept := Kept(h, m, t, rows, q, a.index);
    assert kept == Stream(kept.rows, None);
    SortProvided(h, t, a.index, key, kept.rows);
  }

  lemma KeptAscends(h: Host, m: Store, t: Table, rows: Rows, q: Query, x: Path)
    requires Represents(m, t, rows) && PathOk(t, x)
    ensures Ascends(t, x, Kept(h, m, t, rows, q, x).rows) && TableWide(t, Kept(h, m, t, rows, q, x).rows)
  {
    ScanAscends(m, t, rows, x, EVERYTHING);
    hide Represents, ScanRows, Conjuncts, FilterC, PathOrder;
    FilterAscends(h, t, x, Conjuncts(q), TableEnv(t), Stream(ScanRows(m, t, rows, x, EVERYTHING), None));
  }

  /** If the planner drops the Sort, the rows to sort have no NaN with a sign bit among numbers. */
  ghost predicate SortSpared(h: Host, m: Store, t: Table, rows: Rows, q: Query, a: AccessPath)
    requires PathOk(t, a.index)
  {
    var kept := Kept(h, m, t, rows, q, a.index).rows;
    KeptKeys(q, a) != q.keys && TableWide(t, kept) ==> NaNsApart(t, a.index, kept)
  }

  /** DISTINCT and LIMIT on top of a projection. */
  function TopS(q: Query, s: Stream): Stream {
    var d := if q.distinct then DistinctS({}, s) else s;
    if q.count >= 0 || q.offset > 0 then LimitS(q.count, q.offset, d) else d
  }

  lemma TopRuns(h: Host, m: Store, t: Table, q: Query, p: Plan)
    ensures Run(h, m, t, WithTop(p, q)) == TopS(q, Run(h, m, t, p))
  {
    hide DistinctS, LimitS, ProjectS, SortS, FilterS, FetchAll;
  }

  /** The limit pushed into a sort, if any, loses none of the rows there are. */
  predicate PushdownSafe(q: Query, a: AccessPath, rows: nat) {
    || KeptKeys(q, a) == [] || q.count < 0 || q.distinct
    || q.offset >= 0 || q.count + q.offset < 0 || rows <= q.count + q.offset
  }

  lemma PushdownUnderProject(h: Host, keys: seq<SortKey>, exprs: seq<Expr>, count: int64, offset: int64, env: Env, s: Stream)
    requires count >= 0 && (offset >= 0 || count + offset < 0 || |s.rows| <= count + offset)
    ensures LimitS(count, offset, ProjectS(h, exprs, env, SortS(h, keys, Wrap(count + offset), env, s))) ==
            LimitS(count, offset, ProjectS(h, exprs, env, SortS(h, keys, -1, env, s)))
  {
    hide SortS, LimitS, Wrap, ItemsOf, ProjectS;
    var n := Wrap(count + offset);
    WrapSum(count, offset);
    if ItemsOf(h, keys, env, s, 0).Err? || n < 0 {
      SortIgnoresLimitOnError(h, keys, n, env, s);
    } else {
      SortCut(h, keys, n, env, s);
      if offset >= 0 {
        LimitProjectReadsPrefix(h, exprs, env, count, offset, n, SortS(h, keys, -1, env, s));
      }
    }
  }

  /** The sort with its limit and the sort without, seen from the top of the plan. */
  lemma TopIgnoresPushdown(h: Host, t: Table, q: Query, a: AccessPath, kept: Stream)
    requires PushdownSafe(q, a, |kept.rows|) && KeptKeys(q, a) != []
    ensures TopS(q, ProjectS(h, Expanded(t, q.items), TableEnv(t), SortS(h, q.keys, SortLimit(q), TableEnv(t), kept))) ==
            TopS(q, ProjectS(h, Expanded(t, q.items), TableEnv(t), SortS(h, q.keys, -1, TableEnv(t), kept)))
  {
    hide SortS, LimitS, ProjectS, DistinctS, Wrap;
    if q.count >= 0 && !q.distinct {
      PushdownUnderProject(h, q.keys, Expanded(t, q.items), q.count, q.offset, TableEnv(t), kept);
    }
  }

  lemma TopOverMask(h: Host, m: Store, t: Table, q: Query, a: AccessPath, mask: seq<bool>, sorting: Plan, sorted: Stream)
    requires WellFormed(t) && Covers(t, mask, ReadBy(t, q, a)) && Masks.Wide(mask, sorted.rows)
    requires Run(h, m, t, sorting) == MaskS(mask, sorted)
    ensures Run(h, m, t, WithTop(ProjectNode(sorting, Expanded(t, q.items)), q)) ==
            TopS(q, ProjectS(h, Expanded(t, q.items), TableEnv(t), sorted))
  {
    ReadByParts(t, q, a);
    hide ReadBy, Expanded, TopS, WithTop, Covers, MaskS, ProjectS;
    ProjectMasked(h, t, mask, ReadBy(t, q, a), Expanded(t, q.items), sorted);
    TopRuns(h, m, t, q, ProjectNode(sorting, Expanded(t, q.items)));
  }

  /** The optimised plan up to its Sort. */
  ghost function OptimisedSort(t: Table, q: Query, a: AccessPath): Plan {
    WithSort(WithFilter(ScanNode(a.index, a.bounds, MaskOf(t, ReadBy(t, q, a))), Residual(Conjuncts(q), a.consumed)),
             KeptKeys(q, a), SortLimit(q))
  }

  lemma OptimisedShape(t: Table, q: Query, a: AccessPath)
    ensures Optimised(t, q, a) == WithTop(ProjectNode(OptimisedSort(t, q, a), Expanded(t, q.items)), q)
  {
    hide WithTop, WithSort, WithFilter, KeptKeys, SortLimit, Conjuncts, Residual, MaskOf, Expanded, ReadBy;
  }

  /**
   * What the rewriting asks of query and data: the WHERE clause raises no error, no misjudged row
   * does harm, and a Sort is dropped only where it can be spared.
   */
  ghost predicate Rewritable(h: Host, m: Store, t: Table, rows: Rows, q: Query, a: AccessPath) {
    && IsSafePath(h, t, q, a)
    && Kept(h, m, t, rows, q, a.index).end == None && NoHarm(h, t, rows, q, a) && SortSpared(h, m, t, rows, q, a)
  }

  ghost predicate IsSafePath(h: Host, t: Table, q: Query, a: AccessPath) {
    PathOk(t, a.index) && IsCandidate(h, t, Conjuncts(q), a)
  }

  lemma OptimisedRuns(h: Host, m: Store, t: Table, rows: Rows, q: Query, a: AccessPath)
    requires Represents(m, t, rows) && Rewritable(h, m, t, rows, q, a)
    ensures Run(h, m, t, Optimised(t, q, a)) ==
            TopS(q, ProjectS(h, Expanded(t, q.items), TableEnv(t), SortedAs(h, q, a, TableEnv(t), Kept(h, m, t, rows, q, a.index))))
  {
    hide Represents, IsCandidate, NoHarm, SortSpared, Kept, SortedAs, ProjectS, MaskS, KeptKeys, SortLimit, Conjuncts, Covers, WithSort,
         WithFilter, WithTop, TopS, TableEnv, Optimised, Run, ReadBy, MaskOf, Residual, Expanded;
    var mask, kept := MaskOf(t, ReadBy(t, q, a)), Kept(h, m, t, rows, q, a.index);
    var filtered := WithFilter(ScanNode(a.index, a.bounds, mask), Residual(Conjuncts(q), a.consumed));
    MaskCovers(t, ReadBy(t, q, a));
    RepresentsTyped(m, t, rows);
    NarrowedRuns(h, m, t, rows, q, a, mask);
    SortRuns(h, m, t, rows, q, a, mask, filtered);
    hide WellFormed, TypedRows, Masks.Wide;
    OptimisedShape(t, q, a);
    TopOverMask(h, m, t, q, a, mask, OptimisedSort(t, q, a), SortedAs(h, q, a, TableEnv(t), kept));
  }

  lemma NaiveRuns(h: Host, m: Store, t: Table, rows: Rows, q: Query, x: Path)
    requires Represents(m, t, rows) && PathOk(t, x)
    ensures var kept := Kept(h, m, t, rows, q, x);
            var sorted := if q.keys == [] then kept else SortS(h, q.keys, -1, TableEnv(t), kept);
            Run(h, m, t, Naive(t, q, x)) == TopS(q, ProjectS(h, Expanded(t, q.items), TableEnv(t), sorted))
  {
    hide Represents, Kept, Naive, NaiveFilter, WithSort, WithTop, TopS, Expanded, SortS, TableEnv, PathOk;
    NaiveShape(t, q, x);
    NaiveKeeps(h, m, t, rows, q, x);
    SortNodeRuns(h, m, t, NaiveFilter(t, q, x), q.keys, -1);
    TopRuns(h, m, t, q, ProjectNode(WithSort(NaiveFilter(t, q, x), q.keys, -1), Expanded(t, q.items)));
  }

  lemma NaiveShape(t: Table, q: Query, x: Path)
    ensures Naive(t, q, x) == WithTop(ProjectNode(WithSort(NaiveFilter(t, q, x), q.keys, -1), Expanded(t, q.items)), q)
  {
    hide WithTop, WithSort, Expanded;
  }

  /**
   * For every store, table and query: the plan plainSelect builds delivers the same list of rows,
   * and the same error if there is one, as scanning everything in path order, filtering by the
   * whole clause, sorting in full, projecting, removing duplicates and cutting off. The planner
   * taken alone, whatever the offset.
   */
  lemma PlanMeansNaiveAtAnyOffset(h: Host, m: Store, t: Table, rows: Rows, q: Query, a: AccessPath)
    requires Represents(m, t, rows) && Rewritable(h, m, t, rows, q, a)
    requires PushdownSafe(q, a, |Kept(h, m, t, rows, q, a.index).rows|)
    ensures Run(h, m, t, Optimised(t, q, a)) == Run(h, m, t, Naive(t, q, a.index))
  {
    OptimisedRuns(h, m, t, rows, q, a);
    NaiveRuns(h, m, t, rows, q, a.index);
    hide Represents, IsCandidate, NoHarm, SortSpared, Kept, SortS, ProjectS, Conjuncts, TopS, Run, Optimised, Naive, SortLimit,
         Expanded, TableEnv;
    if KeptKeys(q, a) != [] {
      TopIgnoresPushdown(h, t, q, a, Kept(h, m, t, rows, q, a.index));
    }
  }

  /** The limits are some that the parser lets through. */
  predicate LimitsAllowed(q: Query) { Limits(q.count, q.offset).Allowed() }

  /** The same of any LIMIT and OFFSET there can be in a query that has been parsed. */
  lemma PlanMeansNaive(h: Host, m: Store, t: Table, rows: Rows, q: Query, a: AccessPath)
    requires LimitsAllowed(q)
    requires Represents(m, t, rows) && Rewritable(h, m, t, rows, q, a)
    ensures Run(h, m, t, Optimised(t, q, a)) == Run(h, m, t, Naive(t, q, a.index))
  {
    hide *;
    AllowedIsSafe(h, m, t, rows, q, a);
    PlanMeansNaiveAtAnyOffset(h, m, t, rows, q, a);
  }

  lemma AllowedIsSafe(h: Host, m: Store, t: Table, rows: Rows, q: Query, a: AccessPath)
    requires LimitsAllowed(q)
    ensures PushdownSafe(q, a, |Kept(h, m, t, rows, q, a.index).rows|)
  {
    hide Kept;
  }

  /** On plain floats, a clause that raises no error and lets no stray NULL through is all it takes. */
  lemma TameRewritable(h: Host, m: Store, t: Table, rows: Rows, q: Query, a: AccessPath)
    requires Represents(m, t, rows) && IsSafePath(h, t, q, a) && Tame(t, rows, a)
    requires Kept(h, m, t, rows, q, a.index).end == None
    ensures Rewritable(h, m, t, rows, q, a) <==> NoStrays(h, t, rows, q, a)
  {
    TameHarmless(h, m, t, rows, q, a);
    ScannedRows(m, t, rows, a.index);
    FilterSubset(h, Conjuncts(q), TableEnv(t), Stream(ScanRows(m, t, rows, a.index, EVERYTHING), None));
    hide Represents, NoHarm, NoStrays, IsSafePath, Conjuncts, FilterC, ScanRows, PathOk, PathValue, Typed;
    assert SortSpared(h, m, t, rows, q, a);
  }

  /** The filter an UPDATE or DELETE puts over its scan. */
  function ResidualFilter(list: seq<Expr>, a: AccessPath): Option<Expr> {
    if Residual(list, a.consumed) == [] then None else Some(JoinConjuncts(Residual(list, a.consumed)))
  }

  /** No row that the scan misjudges is one the residual filter keeps. */
  ghost predicate NoneMisjudged(h: Host, t: Table, rows: Rows, list: seq<Expr>, a: AccessPath)
    requires PathOk(t, a.index)
  {
    forall p :: p in rows && |rows[p]| == |t.columns| && Misjudged(t, a, rows[p]) ==> !IsKept(h, t, Residual(list, a.consumed), rows[p])
  }

  /**
   * UPDATE and DELETE through the chosen path concern exactly the rows their WHERE clause keeps, if
   * and only if the residual filter keeps no misjudged row.
   */
  lemma StatementTargets(h: Host, t: Table, rows: Rows, q: Query, a: AccessPath)
    requires WellFormed(t) && TypedRows(t, rows) && IsCandidate(h, t, Conjuncts(q), a) && PathOk(t, a.index)
    ensures MatchingKeys(h, t, rows, a.index, a.bounds, ResidualFilter(Conjuncts(q), a)) ==
            (set p | p in rows && IsKept(h, t, Conjuncts(q), rows[p])) <==>
            NoneMisjudged(h, t, rows, Conjuncts(q), a)
  {
    hide Conjuncts, EvalFrom, Residual, IsCandidate, ByteWithin, Misjudged, Matches, PathOk, WellFormed, IsKept, ResidualFilter, Typed;
    forall p | p in rows
      ensures |rows[p]| == |t.columns|
      ensures (Matches(h, t, a.index, a.bounds, ResidualFilter(Conjuncts(q), a), rows[p]) <==> IsKept(h, t, Conjuncts(q), rows[p]))
              <==> (Misjudged(t, a, rows[p]) ==> !IsKept(h, t, Residual(Conjuncts(q), a.consumed), rows[p]))
    {
      TypedWide(t, rows[p]);
      RowTargeted(h, t, Conjuncts(q), a, rows[p]);
    }
    var matching := MatchingKeys(h, t, rows, a.index, a.bounds, ResidualFilter(Conjuncts(q), a));
    if matching == set p | p in rows && IsKept(h, t, Conjuncts(q), rows[p]) {
      forall p | p in rows ensures Misjudged(t, a, rows[p]) ==> !IsKept(h, t, Residual(Conjuncts(q), a.consumed), rows[p]) {
        assert p in matching <==> Matches(h, t, a.index, a.bounds, ResidualFilter(Conjuncts(q), a), rows[p]);
      }
    }
  }

  lemma RowTargeted(h: Host, t: Table, list: seq<Expr>, a: AccessPath, row: Row)
    requires WellFormed(t) && Typed(t, row) && IsCandidate(h, t, list, a) && PathOk(t, a.index)
    ensures (Matches(h, t, a.index, a.bounds, ResidualFilter(list, a), row) <==> IsKept(h, t, list, row)) <==>
            (Misjudged(t, a, row) ==> !IsKept(h, t, Residual(list, a.consumed), row))
  {
    hide EvalFrom, Residual, IsCandidate, ByteWithin, Misjudged, PathOk, WellFormed, ResidualFilter, EvalPredicate, Typed;
    RowRewritten(h, t, list, a, row);
    ResidualFilterMeans(h, t, list, a, row);
  }

  lemma ResidualFilterMeans(h: Host, t: Table, list: seq<Expr>, a: AccessPath, row: Row)
    ensures (ResidualFilter(list, a).Some? ==> EvalPredicate(h, ResidualFilter(list, a).value, TableEnv(t), row) == Ok(True)) <==>
            IsKept(h, t, Residual(list, a.consumed), row)
  {
    hide Residual;
    if Residual(list, a.consumed) != [] {
      JoinConjunctsMeans(h, Residual(list, a.consumed), TableEnv(t), row);
    }
  }
}
