// plainSelect (plan/build.go): the plan for a SELECT without aggregation, and what it is worth.
module Select {
  import opened Bytes
  import opened Values
  import opened Ast
  import opened Eval
  import opened KeyCodec
  import opened RowCodec
  import opened Ranges
  import opened Storage
  import opened Schema
  import opened Access
  import opened Statements
  import opened Sorting
  import opened Streams
  import opened Planner
  import opened Rewriting
  import opened Masks

  // ------------------------------------------------------------------
  // Queries and plans
  // ------------------------------------------------------------------

  datatype SelectItem = AllColumns | Item(expr: Expr)

  /** count is -1 without a LIMIT, offset 0 without an OFFSET. */
  datatype Query = Query(
    where: Option<Expr>,
    items: seq<SelectItem>,
    distinct: bool,
    keys: seq<SortKey>,
    count: int64,
    offset: int64)

  /** A ScanNode without an index and without bounds is a SeqScan, with bounds a RangeScan. */
  datatype Plan =
    | ScanNode(path: Path, bounds: Range, mask: seq<bool>)
    | FilterNode(input: Plan, pred: Expr)
    | SortNode(input: Plan, keys: seq<SortKey>, limit: int64)
    | ProjectNode(input: Plan, exprs: seq<Expr>)
    | DistinctNode(input: Plan)
    | LimitNode(input: Plan, count: int64, offset: int64)

  /** What the operator tree built for a plan delivers over a store. */
  ghost function Run(h: Host, m: Store, t: Table, p: Plan): Stream {
    match p
    case ScanNode(x, bounds, mask) => FetchAll(m, t, x, ScanEntries(m, t, x, bounds), mask)
    case FilterNode(input, pred) => FilterS(h, pred, TableEnv(t), Run(h, m, t, input))
    case SortNode(input, keys, limit) => SortS(h, keys, limit, TableEnv(t), Run(h, m, t, input))
    case ProjectNode(input, exprs) => ProjectS(h, exprs, TableEnv(t), Run(h, m, t, input))
    case DistinctNode(input) => DistinctS({}, Run(h, m, t, input))
    case LimitNode(input, count, offset) => LimitS(count, offset, Run(h, m, t, input))
  }

  function Conjuncts(q: Query): seq<Expr> { if q.where.None? then [] else SplitConjuncts(q.where.value) }

  function ColumnRefs(cols: seq<Schema.Column>): (r: seq<Expr>)
    ensures |r| == |cols| && forall i :: 0 <= i < |cols| ==> r[i] == Expr.Column([], cols[i].name)
  {
    if cols == [] then [] else ColumnRefs(cols[..|cols| - 1]) + [Expr.Column([], cols[|cols| - 1].name)]
  }

  /** The SELECT list with each star written out. */
  function Expanded(t: Table, items: seq<SelectItem>): seq<Expr> {
    if items == [] then []
    else
      var last := items[|items| - 1];
      Expanded(t, items[..|items| - 1]) + if last.AllColumns? then ColumnRefs(t.columns) else [last.expr]
  }

  predicate Provides(a: AccessPath, e: Expr) { e.Column? && e.name == a.ordersBy }

  /** Sort elimination: one ascending key that the path already provides. */
  function KeptKeys(q: Query, a: AccessPath): seq<SortKey> {
    if |q.keys| == 1 && !q.keys[0].desc && Provides(a, q.keys[0].expr) then [] else q.keys
  }

  /** Limit pushdown, blocked by DISTINCT; the sum is a 64-bit one. */
  function SortLimit(q: Query): int64 { if q.count >= 0 && !q.distinct then Wrap(q.count + q.offset) else -1 }

  predicate Mentioned(t: Table, exprs: seq<Expr>, i: nat) {
    exists e, n :: e in exprs && n in Columns(e) && t.ColumnIndex(n) == Some(i)
  }

  ghost function MaskOf(t: Table, exprs: seq<Expr>): seq<bool> {
    seq(|t.columns|, i requires 0 <= i < |t.columns| => Mentioned(t, exprs, i))
  }

  /** Everything the plan evaluates on scanned rows. */
  function ReadBy(t: Table, q: Query, a: AccessPath): seq<Expr> {
    Residual(Conjuncts(q), a.consumed) + Expanded(t, q.items) + KeyExprs(KeptKeys(q, a))
  }

  function WithFilter(p: Plan, list: seq<Expr>): Plan { if list == [] then p else FilterNode(p, JoinConjuncts(list)) }

  function WithSort(p: Plan, keys: seq<SortKey>, limit: int64): Plan {
    if keys == [] then p else SortNode(p, keys, limit)
  }

  function WithTop(p: Plan, q: Query): Plan {
    var d := if q.distinct then DistinctNode(p) else p;
    if q.count >= 0 || q.offset > 0 then LimitNode(d, q.count, q.offset) else d
  }

  /** The plan for a query, given the access path. */
  ghost function Optimised(t: Table, q: Query, a: AccessPath): Plan {
    var scan := ScanNode(a.index, a.bounds, MaskOf(t, ReadBy(t, q, a)));
    var sorted := WithSort(WithFilter(scan, Residual(Conjuncts(q), a.consumed)), KeptKeys(q, a), SortLimit(q));
    WithTop(ProjectNode(sorted, Expanded(t, q.items)), q)
  }

  /** Every row in path order, the whole clause, a full sort, and so on up. */
  function Naive(t: Table, q: Query, x: Path): Plan {
    var scan := ScanNode(x, EVERYTHING, FullMask(t));
    var kept := if q.where.Some? then FilterNode(scan, q.where.value) else scan;
    WithTop(ProjectNode(WithSort(kept, q.keys, -1), Expanded(t, q.items)), q)
  }

  // ------------------------------------------------------------------
  // The planner
  // ------------------------------------------------------------------

  /** Every column reference names a column of this table. */
  predicate RefsOk(t: Table, e: Expr) {
    match e
    case Literal(_) => true
    case Column(table, name) => (table == [] || table == t.name) && t.ColumnIndex(name).Some?
    case Star => true
    case Unary(_, x) => RefsOk(t, x)
    case Binary(_, l, r) => RefsOk(t, l) && RefsOk(t, r)
    case IsNull(x, _) => RefsOk(t, x)
    case Between(x, lo, hi, _) => RefsOk(t, x) && RefsOk(t, lo) && RefsOk(t, hi)
    case In(x, list, _) => RefsOk(t, x) && forall y :: y in list ==> RefsOk(t, y)
    case Like(x, p, _) => RefsOk(t, x) && RefsOk(t, p)
    case StarCall(_) => true
    case Call(_, x) => RefsOk(t, x)
  }

  predicate Plannable(t: Table, q: Query) {
    && (q.where.Some? ==> RefsOk(t, q.where.value))
    && (forall i :: i in q.items && i.Item? ==> RefsOk(t, i.expr))
    && (forall k :: k in q.keys ==> RefsOk(t, k.expr) && !HasAggregate(k.expr))
  }

  method MarkColumns(mask: seq<bool>, t: Table, exprs: seq<Expr>) returns (out: seq<bool>)
    requires |mask| == |t.columns|
    ensures |out| == |mask| && forall i :: 0 <= i < |mask| ==> out[i] == (mask[i] || Mentioned(t, exprs, i))
  {
    out := mask;
    for j := 0 to |exprs|
      invariant |out| == |mask| && forall i :: 0 <= i < |mask| ==> out[i] == (mask[i] || Mentioned(t, exprs[..j], i))
    {
      ghost var was := out;
      var names := Columns(exprs[j]);
      while names != {}
        invariant names <= Columns(exprs[j]) && |out| == |mask|
        invariant forall i :: 0 <= i < |mask| ==>
                    out[i] == (was[i] || exists n :: n in Columns(exprs[j]) - names && t.ColumnIndex(n) == Some(i))
        decreases |names|
      {
        var n :| n in names;
        var pos := t.ColumnIndex(n);
        if pos.Some? {
          out := out[pos.value := true];
        }
        names := names - {n};
      }
      MentionedSnoc(t, exprs, j);
    }
    assert exprs[..|exprs|] == exprs;
  }

  lemma MentionedSnoc(t: Table, exprs: seq<Expr>, j: nat)
    requires j < |exprs|
    ensures forall i: nat :: Mentioned(t, exprs[..j + 1], i) <==>
                               Mentioned(t, exprs[..j], i) || exists n :: n in Columns(exprs[j]) && t.ColumnIndex(n) == Some(i)
  {
    assert exprs[..j + 1] == exprs[..j] + [exprs[j]];
    forall i: nat | exists n :: n in Columns(exprs[j]) && t.ColumnIndex(n) == Some(i) ensures Mentioned(t, exprs[..j + 1], i) {
      assert exprs[j] in exprs[..j + 1];
    }
  }

  method ColumnNames(t: Table) returns (out: seq<Expr>)
    ensures out == ColumnRefs(t.columns)
  {
    out := [];
    for i := 0 to |t.columns|
      invariant out == ColumnRefs(t.columns[..i])
    {
      assert t.columns[..i + 1][..i] == t.columns[..i];
      out := out + [Expr.Column([], t.columns[i].name)];
    }
    assert t.columns[..|t.columns|] == t.columns;
  }

  /** Expands the SELECT list, or reports a reference that does not resolve. */
  method ExpandItems(t: Table, items: seq<SelectItem>) returns (r: Result<seq<Expr>>)
    ensures r.Ok? <==> forall i :: i in items && i.Item? ==> RefsOk(t, i.expr)
    ensures r.Ok? ==> r.value == Expanded(t, items)
  {
    var out: seq<Expr> := [];
    for i := 0 to |items|
      invariant out == Expanded(t, items[..i])
      invariant forall j :: 0 <= j < i && items[j].Item? ==> RefsOk(t, items[j].expr)
    {
      assert items[..i + 1][..i] == items[..i];
      match items[i]
      case AllColumns =>
        var names := ColumnNames(t);
        out := out + names;
      case Item(e) =>
        if !RefsOk(t, e) {
          assert items[i] in items;
          return Err(NotFound);
        }
        out := out + [e];
    }
    assert items[..|items|] == items;
    r := Ok(out);
  }

  lemma MaskSplit(t: Table, a: seq<Expr>, b: seq<Expr>, i: nat)
    ensures Mentioned(t, a + b, i) <==> Mentioned(t, a, i) || Mentioned(t, b, i)
  {
  }

  /** Projection pruning: the columns the residual filter, the SELECT list and the sort keys read. */
  method PrunedMask(t: Table, residual: seq<Expr>, exprs: seq<Expr>, keys: seq<Expr>) returns (mask: seq<bool>)
    ensures mask == MaskOf(t, residual + exprs + keys)
  {
    mask := seq(|t.columns|, i => false);
    mask := MarkColumns(mask, t, residual);
    mask := MarkColumns(mask, t, exprs);
    mask := MarkColumns(mask, t, keys);
    forall i | 0 <= i < |mask| ensures mask[i] == Mentioned(t, residual + exprs + keys, i) {
      MaskSplit(t, residual, exprs, i);
      MaskSplit(t, residual + exprs, keys, i);
    }
  }

  /** scan, Filter, Sort, Project, Distinct, Limit, each only where it is needed. */
  method PlainSelect(h: Host, t: Table, q: Query) returns (r: Result<Plan>, ghost a: AccessPath)
    requires t.pk < |t.columns|
    ensures r.Ok? <==> Plannable(t, q)
    ensures r.Ok? ==> IsCandidate(h, t, Conjuncts(q), a) && Cheapest(h, t, Conjuncts(q), a) && FirstOfItsCost(h, t, Conjuncts(q), a)
    ensures r.Ok? ==> r.value == Optimised(t, q, a)
  {
    hide RefsOk, HasAggregate, IsCandidate, Cheapest, FirstOfItsCost, MaskOf, Expanded, Wrap, Mentioned;
    a := FullScan(t);
    if q.where.Some? && !RefsOk(t, q.where.value) {
      return Err(NotFound), a;
    }
    var conjuncts := Conjuncts(q);
    var exprs := ExpandItems(t, q.items);
    if exprs.Err? {
      return Err(exprs.error), a;
    }
    for i := 0 to |q.keys|
      invariant forall j :: 0 <= j < i ==> RefsOk(t, q.keys[j].expr) && !HasAggregate(q.keys[j].expr)
    {
      assert q.keys[i] in q.keys;
      if HasAggregate(q.keys[i].expr) {
        return Err(TypeMismatch), a;
      }
      if !RefsOk(t, q.keys[i].expr) {
        return Err(NotFound), a;
      }
    }
    var path := ChoosePath(h, t, conjuncts);
    a := path;
    var residual := ComputeResidual(conjuncts, path.consumed);
    var keys := q.keys;
    if |keys| == 1 && !keys[0].desc && Provides(path, keys[0].expr) {
      keys := [];
    }
    var mask := PrunedMask(t, residual, exprs.value, KeyExprs(keys));

    var node := ScanNode(path.index, path.bounds, mask);
    if |residual| > 0 {
      node := FilterNode(node, JoinConjuncts(residual));
    }
    if |keys| > 0 {
      var limit := -1;
      if q.count >= 0 && !q.distinct {
        limit := Wrap(q.count + q.offset);
      }
      node := SortNode(node, keys, limit);
    }
    node := ProjectNode(node, exprs.value);
    if q.distinct {
      node := DistinctNode(node);
    }
    if q.count >= 0 || q.offset > 0 {
      node := LimitNode(node, q.count, q.offset);
    }
    r := Ok(node);
  }
}
