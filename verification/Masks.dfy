// Projection pruning (plan/build.go, keycodec/row.go): what no expression reads need not be decoded.
module Masks {
  import opened Bytes
  import opened Values
  import opened Ast
  import opened Eval
  import opened RowCodec
  import opened Schema
  import opened Statements
  import opened Sorting
  import opened Streams
  import opened Planner
  import opened Rewriting

  /** Every column of the table that some expression mentions is decoded. */
  ghost predicate Covers(t: Table, mask: seq<bool>, exprs: seq<Expr>) {
    |mask| == |t.columns| &&
    forall e, n :: e in exprs && n in Columns(e) && t.ColumnIndex(n).Some? ==> mask[t.ColumnIndex(n).value]
  }

  ghost predicate Wide(mask: seq<bool>, rows: seq<Row>) { forall r :: r in rows ==> |r| == |mask| }

  ghost function MaskS(mask: seq<bool>, s: Stream): Stream
    requires Wide(mask, s.rows)
  {
    Stream(MaskAll(mask, s.rows), s.end)
  }

  lemma MaskedAgrees(t: Table, mask: seq<bool>, exprs: seq<Expr>, e: Expr, row: Row)
    requires WellFormed(t) && Covers(t, mask, exprs) && e in exprs && |row| == |mask|
    ensures AgreeOn(Masked(row, mask), row, TableEnv(t), Columns(e))
  {
    forall n | n in Columns(e) && n in TableEnv(t) && TableEnv(t)[n] < |row|
      ensures Masked(row, mask)[TableEnv(t)[n]] == row[TableEnv(t)[n]]
    {
      EnvColumn(t, n);
    }
  }

  lemma MaskedEval(h: Host, t: Table, mask: seq<bool>, exprs: seq<Expr>, e: Expr, row: Row)
    requires WellFormed(t) && Covers(t, mask, exprs) && e in exprs && |row| == |mask|
    ensures EvalExpr(h, e, TableEnv(t), Masked(row, mask)) == EvalExpr(h, e, TableEnv(t), row)
    ensures EvalPredicate(h, e, TableEnv(t), Masked(row, mask)) == EvalPredicate(h, e, TableEnv(t), row)
  {
    MaskedAgrees(t, mask, exprs, e, row);
    EvalReads(h, e, TableEnv(t), Masked(row, mask), row);
    PredicateReads(h, e, TableEnv(t), Masked(row, mask), row);
  }

  lemma {:induction false} MaskedEvalAll(h: Host, t: Table, mask: seq<bool>, all: seq<Expr>, exprs: seq<Expr>, row: Row)
    requires WellFormed(t) && Covers(t, mask, all) && (forall e :: e in exprs ==> e in all) && |row| == |mask|
    ensures EvalAll(h, exprs, TableEnv(t), Masked(row, mask)) == EvalAll(h, exprs, TableEnv(t), row)
  {
    if exprs != [] {
      var n := |exprs| - 1;
      MaskedEvalAll(h, t, mask, all, exprs[..n], row);
      assert exprs[n] in exprs;
      MaskedEval(h, t, mask, all, exprs[n], row);
    }
  }

  lemma {:induction false} MaskedEvalFrom(h: Host, t: Table, mask: seq<bool>, all: seq<Expr>, acc: Bool3, list: seq<Expr>, row: Row)
    requires WellFormed(t) && Covers(t, mask, all) && (forall e :: e in list ==> e in all) && |row| == |mask|
    ensures EvalFrom(h, acc, list, TableEnv(t), Masked(row, mask)) == EvalFrom(h, acc, list, TableEnv(t), row)
    decreases |list|
  {
    if list != [] {
      MaskedEval(h, t, mask, all, list[0], row);
      if EvalPredicate(h, list[0], TableEnv(t), row).Ok? {
        MaskedEvalFrom(h, t, mask, all, acc.And(EvalPredicate(h, list[0], TableEnv(t), row).value), list[1..], row);
      }
    }
  }

  // ------------------------------------------------------------------
  // Streams of masked rows
  // ------------------------------------------------------------------

  lemma MaskTail(mask: seq<bool>, s: Stream)
    requires Wide(mask, s.rows) && s.rows != []
    ensures Wide(mask, Tail(s).rows) && |s.rows[0]| == |mask|
    ensures MaskS(mask, s).rows != [] && MaskS(mask, s).rows[0] == Masked(s.rows[0], mask)
    ensures Tail(MaskS(mask, s)) == MaskS(mask, Tail(s))
  {
  }

  lemma MaskCons(mask: seq<bool>, row: Row, s: Stream)
    requires Wide(mask, s.rows) && |row| == |mask|
    ensures Wide(mask, Cons(row, s).rows)
    ensures MaskS(mask, Cons(row, s)) == Cons(Masked(row, mask), MaskS(mask, s))
  {
  }

  lemma {:induction false} FilterMasked(h: Host, t: Table, mask: seq<bool>, all: seq<Expr>, list: seq<Expr>, s: Stream)
    requires WellFormed(t) && Covers(t, mask, all) && (forall e :: e in list ==> e in all) && Wide(mask, s.rows)
    ensures Wide(mask, FilterC(h, list, TableEnv(t), s).rows)
    ensures FilterC(h, list, TableEnv(t), MaskS(mask, s)) == MaskS(mask, FilterC(h, list, TableEnv(t), s))
    decreases |s.rows|
  {
    if s.rows != [] {
      MaskTail(mask, s);
      MaskedEvalFrom(h, t, mask, all, True, list, s.rows[0]);
      FilterMasked(h, t, mask, all, list, Tail(s));
      MaskCons(mask, s.rows[0], FilterC(h, list, TableEnv(t), Tail(s)));
      hide EvalFrom, MaskAll, Covers;
    }
  }

  lemma {:induction false} ProjectMasked(h: Host, t: Table, mask: seq<bool>, all: seq<Expr>, exprs: seq<Expr>, s: Stream)
    requires WellFormed(t) && Covers(t, mask, all) && (forall e :: e in exprs ==> e in all) && Wide(mask, s.rows)
    ensures ProjectS(h, exprs, TableEnv(t), MaskS(mask, s)) == ProjectS(h, exprs, TableEnv(t), s)
    decreases |s.rows|
  {
    if s.rows != [] {
      MaskTail(mask, s);
      MaskedEvalAll(h, t, mask, all, exprs, s.rows[0]);
      ProjectMasked(h, t, mask, all, exprs, Tail(s));
    }
  }

  // ------------------------------------------------------------------
  // Sorting masked rows
  // ------------------------------------------------------------------

  ghost predicate WideItems(mask: seq<bool>, items: seq<Item>) { forall x :: x in items ==> |x.row| == |mask| }

  function MaskItem(mask: seq<bool>, x: Item): Item
    requires |x.row| == |mask|
  {
    Item(Masked(x.row, mask), x.keys, x.num)
  }

  ghost function MaskItems(mask: seq<bool>, items: seq<Item>): (r: seq<Item>)
    requires WideItems(mask, items)
    ensures |r| == |items| && forall i :: 0 <= i < |items| ==> r[i] == MaskItem(mask, items[i])
  {
    seq(|items|, i requires 0 <= i < |items| => MaskItem(mask, items[i]))
  }

  lemma MaskItemsFit(desc: seq<bool>, mask: seq<bool>, items: seq<Item>)
    requires WideItems(mask, items) && Fits(desc, items)
    ensures Fits(desc, MaskItems(mask, items))
  {
  }

  lemma {:induction false} PlaceMasked(desc: seq<bool>, mask: seq<bool>, x: Item, sorted: seq<Item>)
    requires Fits(desc, sorted) && |x.keys| == |desc| && WideItems(mask, sorted) && |x.row| == |mask|
    requires Fits(desc, MaskItems(mask, sorted))
    ensures WideItems(mask, Sorting.Place(desc, x, sorted))
    ensures Sorting.Place(desc, MaskItem(mask, x), MaskItems(mask, sorted)) == MaskItems(mask, Sorting.Place(desc, x, sorted))
  {
    if sorted != [] && !Less(desc, x, sorted[0]) {
      MaskItemsFit(desc, mask, sorted[1..]);
      PlaceMasked(desc, mask, x, sorted[1..]);
      assert MaskItems(mask, sorted)[1..] == MaskItems(mask, sorted[1..]);
    }
  }

  lemma SortLast(desc: seq<bool>, items: seq<Item>)
    requires Fits(desc, items) && items != []
    ensures Fits(desc, items[..|items| - 1])
    ensures Sort(desc, items) == Sorting.Place(desc, items[|items| - 1], Sort(desc, items[..|items| - 1]))
  {
  }

  lemma {:induction false} SortMasked(desc: seq<bool>, mask: seq<bool>, items: seq<Item>)
    requires Fits(desc, items) && WideItems(mask, items) && Fits(desc, MaskItems(mask, items))
    ensures WideItems(mask, Sort(desc, items))
    ensures Sort(desc, MaskItems(mask, items)) == MaskItems(mask, Sort(desc, items))
  {
    if items != [] {
      var n := |items| - 1;
      MaskItemsFit(desc, mask, items[..n]);
      SortMasked(desc, mask, items[..n]);
      MaskItemsFit(desc, mask, Sort(desc, items[..n]));
      SortLast(desc, items);
      SortLast(desc, MaskItems(mask, items));
      assert MaskItems(mask, items)[..n] == MaskItems(mask, items[..n]);
      hide Sort, Sorting.Place, MaskItems;
      PlaceMasked(desc, mask, items[n], Sort(desc, items[..n]));
    }
  }

  lemma TopNMasked(desc: seq<bool>, limit: int, mask: seq<bool>, items: seq<Item>)
    requires Fits(desc, items) && WideItems(mask, items) && Fits(desc, MaskItems(mask, items))
    ensures WideItems(mask, TopN(desc, limit, items))
    ensures TopN(desc, limit, MaskItems(mask, items)) == MaskItems(mask, TopN(desc, limit, items))
  {
    SortMasked(desc, mask, items);
  }

  lemma OntoMasked(mask: seq<bool>, x: Item, more: seq<Item>)
    requires |x.row| == |mask| && WideItems(mask, more)
    ensures WideItems(mask, [x] + more)
    ensures MaskItems(mask, [x] + more) == [MaskItem(mask, x)] + MaskItems(mask, more)
  {
  }

  /** The mask leaves the sort keys, and so the errors, alone. */
  ghost predicate ItemsAgree(mask: seq<bool>, a: Result<seq<Item>>, b: Result<seq<Item>>) {
    match a
    case Err(e) => b == Err(e)
    case Ok(items) => WideItems(mask, items) && b == Ok(MaskItems(mask, items))
  }

  lemma {:induction false} ItemsMasked(h: Host, t: Table, mask: seq<bool>, all: seq<Expr>, keys: seq<SortKey>, s: Stream, num: nat)
    requires WellFormed(t) && Covers(t, mask, all) && (forall e :: e in KeyExprs(keys) ==> e in all) && Wide(mask, s.rows)
    ensures ItemsAgree(mask, ItemsOf(h, keys, TableEnv(t), s, num), ItemsOf(h, keys, TableEnv(t), MaskS(mask, s), num))
    decreases |s.rows|
  {
    if s.rows != [] {
      MaskTail(mask, s);
      MaskedEvalAll(h, t, mask, all, KeyExprs(keys), s.rows[0]);
      ItemsMasked(h, t, mask, all, keys, Tail(s), num + 1);
      ItemsStep(h, keys, TableEnv(t), s, num);
      ItemsStep(h, keys, TableEnv(t), MaskS(mask, s), num);
      hide ItemsOf, EvalAll, Covers, MaskS, MaskItems;
      var ks, more := EvalAll(h, KeyExprs(keys), TableEnv(t), s.rows[0]), ItemsOf(h, keys, TableEnv(t), Tail(s), num + 1);
      if ks.Ok? && more.Ok? {
        OntoMasked(mask, Item(s.rows[0], ks.value, num), more.value);
      }
    }
  }

  lemma RowsMasked(mask: seq<bool>, items: seq<Item>)
    requires WideItems(mask, items)
    ensures Wide(mask, RowsOf(items)) && RowsOf(MaskItems(mask, items)) == MaskAll(mask, RowsOf(items))
  {
  }

  lemma SortStreamMasked(h: Host, t: Table, mask: seq<bool>, all: seq<Expr>, keys: seq<SortKey>, limit: int, s: Stream)
    requires WellFormed(t) && Covers(t, mask, all) && (forall e :: e in KeyExprs(keys) ==> e in all) && Wide(mask, s.rows)
    ensures Wide(mask, SortS(h, keys, limit, TableEnv(t), s).rows)
    ensures SortS(h, keys, limit, TableEnv(t), MaskS(mask, s)) == MaskS(mask, SortS(h, keys, limit, TableEnv(t), s))
  {
    ItemsMasked(h, t, mask, all, keys, s, 0);
    hide ItemsOf, Covers, TopN;
    if ItemsOf(h, keys, TableEnv(t), s, 0).Ok? {
      var items := ItemsOf(h, keys, TableEnv(t), s, 0).value;
      MaskItemsFit(Directions(keys), mask, items);
      TopNMasked(Directions(keys), limit, mask, items);
      RowsMasked(mask, TopN(Directions(keys), limit, items));
    }
  }
}
