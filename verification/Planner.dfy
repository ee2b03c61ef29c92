// Access path selection (plan/build.go): which conjuncts become a scan range, and at what price.
module Planner {
  import opened Bytes
  import opened Values
  import opened Ast
  import opened Eval
  import opened Ranges
  import opened Schema
  import opened Access
  import opened Statements

  // ------------------------------------------------------------------
  // Search arguments
  // ------------------------------------------------------------------

  /** A literal as a bound on a column: never NULL, and of the column's own kind. */
  function BoundValue(h: Host, t: Table, column: Name, v: Value): Option<Value> {
    match t.ColumnIndex(column)
    case None => None
    case Some(pos) =>
      if v.Null? then None
      else
        var w := if v.Int? && t.columns[pos].kind == KFloat then Float(h.ofInt(v.i)) else v;
        if w.Kind() != t.columns[pos].kind then None else Some(w)
  }

  /** The comparison as written, if it can become a range; `==` is not among them. */
  function Direct(op: BinOp): Option<CmpKind> {
    match op
    case EqOp => Some(CEq)
    case LtOp => Some(CLt)
    case LeOp => Some(CLe)
    case GtOp => Some(CGt)
    case GeOp => Some(CGe)
    case _ => None
  }

  /** The comparison seen from its right-hand side. */
  function Flip(op: BinOp): Option<CmpKind> {
    match op
    case EqOp => Some(CEq)
    case EqEqOp => Some(CEq)
    case LtOp => Some(CGt)
    case LeOp => Some(CGe)
    case GtOp => Some(CLt)
    case GeOp => Some(CLe)
    case _ => None
  }

  function RangeFor(op: CmpKind, v: Value): Range {
    match op
    case CEq => Range.Range(At(v, true), At(v, true))
    case CLt => Range.Range(Unset, At(v, false))
    case CLe => Range.Range(Unset, At(v, true))
    case CGt => Range.Range(At(v, false), Unset)
    case CGe => Range.Range(At(v, true), Unset)
    case CNe => EVERYTHING
  }

  datatype Sarg = Sarg(column: Name, range: Range)

  function SargFor(h: Host, t: Table, column: Name, op: Option<CmpKind>, v: Value): Option<Sarg> {
    match op
    case None => None
    case Some(k) =>
      match BoundValue(h, t, column, v)
      case None => None
      case Some(w) => Some(Sarg(column, RangeFor(k, w)))
  }

  function Sargable(h: Host, t: Table, e: Expr): Option<Sarg> {
    match e
    case Binary(op, l, r) =>
      if l.Column? && r.Literal? then SargFor(h, t, l.name, Direct(op), r.value)
      else if r.Column? && l.Literal? then SargFor(h, t, r.name, Flip(op), l.value)
      else None
    case Between(x, lo, hi, not) =>
      if not || !x.Column? || !lo.Literal? || !hi.Literal? then None
      else
        var a, b := BoundValue(h, t, x.name, lo.value), BoundValue(h, t, x.name, hi.value);
        if a.None? || b.None? then None
        else Some(Sarg(x.name, Range.Range(At(a.value, true), At(b.value, true))))
    case _ => None
  }

  lemma EnvColumn(t: Table, n: Name)
    requires WellFormed(t)
    ensures t.ColumnIndex(n).Some? <==> n in TableEnv(t)
    ensures t.ColumnIndex(n).Some? ==> TableEnv(t)[n] == t.ColumnIndex(n).value
  {
  }

  lemma ColumnValue(h: Host, t: Table, table: Name, n: Name, row: Row)
    requires WellFormed(t) && |row| == |t.columns| && t.ColumnIndex(n).Some?
    ensures EvalExpr(h, Expr.Column(table, n), TableEnv(t), row) == Ok(row[t.ColumnIndex(n).value])
  {
    EnvColumn(t, n);
  }

  /** On a column's own kind, SQL comparison with a bound is the sort order. */
  lemma CompareIsOrder(h: Host, t: Table, column: Name, lit: Value, v: Value)
    requires BoundValue(h, t, column, lit).Some?
    requires v.Kind() == t.columns[t.ColumnIndex(column).value].kind
    ensures var b := BoundValue(h, t, column, lit).value;
            Compare(h, v, lit) == Ok(Order(v, b)) && Compare(h, lit, v) == Ok(-Order(v, b)) && !b.Null?
  {
    var b := BoundValue(h, t, column, lit).value;
    OrderRange(v, b);
    if v.Text? && lit.Text? {
      CmpRange(v.s, lit.s);
    }
  }

  /** What a predicate that became a range says about a row: the range, or UNKNOWN on NULL. */
  function SargAnswer(r: Range, v: Value): Bool3 { if v.Null? then Unknown else B3(Within(r, v)) }

  lemma BinarySargMeans(h: Host, t: Table, op: BinOp, k: CmpKind, column: Name, lit: Value, v: Value, flipped: bool)
    requires BoundValue(h, t, column, lit).Some?
    requires v.Null? || v.Kind() == t.columns[t.ColumnIndex(column).value].kind
    requires (if flipped then Flip(op) else Direct(op)) == Some(k)
    ensures Comparison(op).Some?
    ensures (if flipped then CompareOp(h, Comparison(op).value, lit, v) else CompareOp(h, Comparison(op).value, v, lit)) ==
            Ok(SargAnswer(RangeFor(k, BoundValue(h, t, column, lit).value), v))
  {
    if !v.Null? {
      CompareIsOrder(h, t, column, lit, v);
      OrderRange(v, BoundValue(h, t, column, lit).value);
    }
  }

  lemma BetweenSargMeans(h: Host, t: Table, column: Name, lo: Value, hi: Value, v: Value)
    requires BoundValue(h, t, column, lo).Some? && BoundValue(h, t, column, hi).Some?
    requires v.Null? || v.Kind() == t.columns[t.ColumnIndex(column).value].kind
    ensures var a, b := BoundValue(h, t, column, lo).value, BoundValue(h, t, column, hi).value;
            && CompareOp(h, CGe, v, lo).Ok? && CompareOp(h, CLe, v, hi).Ok?
            && CompareOp(h, CGe, v, lo).value.And(CompareOp(h, CLe, v, hi).value) ==
               SargAnswer(Range.Range(At(a, true), At(b, true)), v)
  {
    if !v.Null? {
      CompareIsOrder(h, t, column, lo, v);
      CompareIsOrder(h, t, column, hi, v);
      OrderRange(v, BoundValue(h, t, column, lo).value);
      OrderRange(v, BoundValue(h, t, column, hi).value);
    }
  }

  /** No bound is NULL. */
  predicate NoNull(r: Range) { (r.lo.At? ==> !r.lo.value.Null?) && (r.hi.At? ==> !r.hi.value.Null?) }

  lemma SargColumn(h: Host, t: Table, e: Expr)
    requires Sargable(h, t, e).Some?
    ensures t.ColumnIndex(Sargable(h, t, e).value.column).Some?
    ensures var r := Sargable(h, t, e).value.range; r.Bounded() && NoNull(r)
  {
  }

  /** A literal that can bound a column: there, and of the column's kind, or an INT for a FLOAT column. */
  predicate Bounding(t: Table, column: Name, e: Expr) {
    e.Literal? && !e.value.Null? && t.ColumnIndex(column).Some? &&
    var kind := t.columns[t.ColumnIndex(column).value].kind;
    e.value.Kind() == kind || (e.value.Int? && kind == KFloat)
  }

  /** Which conjuncts become ranges: comparisons of a column with such a literal, and BETWEEN two of them. */
  lemma SargsAre(h: Host, t: Table, e: Expr)
    ensures Sargable(h, t, e).Some? <==>
            match e
            case Binary(op, l, r) =>
              || (l.Column? && op in {EqOp, LtOp, LeOp, GtOp, GeOp} && Bounding(t, l.name, r))
              || (r.Column? && op in {EqOp, EqEqOp, LtOp, LeOp, GtOp, GeOp} && Bounding(t, r.name, l))
            case Between(x, lo, hi, not) => !not && x.Column? && Bounding(t, x.name, lo) && Bounding(t, x.name, hi)
            case _ => false
  {
  }

  /** A search argument never fails, and is TRUE exactly on the non-NULL values in its range. */
  lemma SargMeans(h: Host, t: Table, e: Expr, row: Row)
    requires WellFormed(t) && Typed(t, row) && Sargable(h, t, e).Some?
    ensures t.ColumnIndex(Sargable(h, t, e).value.column).Some?
    ensures var s := Sargable(h, t, e).value;
            EvalPredicate(h, e, TableEnv(t), row) == Ok(SargAnswer(s.range, row[t.ColumnIndex(s.column).value]))
  {
    var s := Sargable(h, t, e).value;
    SargColumn(h, t, e);
    var v := row[t.ColumnIndex(s.column).value];
    match e
    case Binary(op, l, r) =>
      if l.Column? && r.Literal? {
        ColumnValue(h, t, l.table, l.name, row);
        BinarySargMeans(h, t, op, Direct(op).value, l.name, r.value, v, false);
      } else {
        ColumnValue(h, t, r.table, r.name, row);
        BinarySargMeans(h, t, op, Flip(op).value, r.name, l.value, v, true);
      }
    case Between(x, lo, hi, _) =>
      ColumnValue(h, t, x.table, x.name, row);
      BetweenSargMeans(h, t, x.name, lo.value, hi.value, v);
  }

  // ------------------------------------------------------------------
  // Ranges per column
  // ------------------------------------------------------------------

  predicate OnColumn(h: Host, t: Table, e: Expr, column: Name) {
    Sargable(h, t, e).Some? && Sargable(h, t, e).value.column == column
  }

  /** Everything the conjuncts say about one column, as one range. */
  function RangeOn(h: Host, t: Table, list: seq<Expr>, column: Name): Option<Range> {
    if list == [] then None
    else
      var before, e := RangeOn(h, t, list[..|list| - 1], column), list[|list| - 1];
      if !OnColumn(h, t, e, column) then before
      else if before.Some? then Some(before.value.Intersect(Sargable(h, t, e).value.range))
      else Some(Sargable(h, t, e).value.range)
  }

  /** The conjuncts that range accounts for. */
  function OwnersOn(h: Host, t: Table, list: seq<Expr>, column: Name): (r: set<nat>)
    ensures forall i :: i in r <==> 0 <= i < |list| && OnColumn(h, t, list[i], column)
  {
    set i: nat | i < |list| && OnColumn(h, t, list[i], column)
  }

  lemma IntersectBounded(r: Range, o: Range)
    requires o.Bounded()
    ensures r.Intersect(o).Bounded()
    ensures NoNull(r) && NoNull(o) ==> NoNull(r.Intersect(o))
  {
  }

  lemma {:induction false} RangeOnShape(h: Host, t: Table, list: seq<Expr>, column: Name)
    ensures RangeOn(h, t, list, column).Some? <==> OwnersOn(h, t, list, column) != {}
    ensures RangeOn(h, t, list, column).Some? ==>
              var r := RangeOn(h, t, list, column).value; r.Bounded() && NoNull(r)
  {
    if list != [] {
      var n := |list| - 1;
      RangeOnShape(h, t, list[..n], column);
      assert forall i: nat :: i < n ==> list[..n][i] == list[i];
      assert forall i :: i in OwnersOn(h, t, list[..n], column) ==> i in OwnersOn(h, t, list, column);
      assert forall i :: i in OwnersOn(h, t, list, column) && i < n ==> i in OwnersOn(h, t, list[..n], column);
      if OnColumn(h, t, list[n], column) {
        assert n in OwnersOn(h, t, list, column);
        SargColumn(h, t, list[n]);
        if RangeOn(h, t, list[..n], column).Some? {
          IntersectBounded(RangeOn(h, t, list[..n], column).value, Sargable(h, t, list[n]).value.range);
        }
      }
    }
  }

  ghost predicate AllTrue(h: Host, list: seq<Expr>, which: set<nat>, env: Env, row: Row) {
    forall i :: i in which && i < |list| ==> EvalPredicate(h, list[i], env, row) == Ok(True)
  }

  /** A row lies in the collected range exactly when every conjunct behind it is TRUE. */
  lemma {:induction false} RangeOnMeans(h: Host, t: Table, list: seq<Expr>, column: Name, row: Row)
    requires WellFormed(t) && Typed(t, row) && t.ColumnIndex(column).Some?
    requires RangeOn(h, t, list, column).Some?
    ensures AllTrue(h, list, OwnersOn(h, t, list, column), TableEnv(t), row) <==>
            SargAnswer(RangeOn(h, t, list, column).value, row[t.ColumnIndex(column).value]) == True
  {
    var n := |list| - 1;
    var front, v := list[..n], row[t.ColumnIndex(column).value];
    RangeOnShape(h, t, front, column);
    AllTrueSplit(h, t, list, column, row);
    if OnColumn(h, t, list[n], column) {
      SargMeans(h, t, list[n], row);
    }
    if RangeOn(h, t, front, column).Some? {
      RangeOnMeans(h, t, front, column, row);
      if OnColumn(h, t, list[n], column) {
        IntersectIsConjunction(RangeOn(h, t, front, column).value, Sargable(h, t, list[n]).value.range, v);
      }
    }
  }

  lemma AllTrueSplit(h: Host, t: Table, list: seq<Expr>, column: Name, row: Row)
    requires list != []
    ensures AllTrue(h, list, OwnersOn(h, t, list, column), TableEnv(t), row) <==>
            AllTrue(h, list[..|list| - 1], OwnersOn(h, t, list[..|list| - 1], column), TableEnv(t), row) &&
            (OnColumn(h, t, list[|list| - 1], column) ==>
               EvalPredicate(h, list[|list| - 1], TableEnv(t), row) == Ok(True))
  {
    hide EvalPredicate, Sargable;
    var n := |list| - 1;
    assert forall i: nat :: i < n ==> list[..n][i] == list[i];
    if OnColumn(h, t, list[n], column) {
      assert n in OwnersOn(h, t, list, column);
    }
    forall i | i in OwnersOn(h, t, list[..n], column) ensures i in OwnersOn(h, t, list, column) && i < n {
    }
    forall i | i in OwnersOn(h, t, list, column) && i < n ensures i in OwnersOn(h, t, list[..n], column) {
    }
  }

  // ------------------------------------------------------------------
  // The choice
  // ------------------------------------------------------------------

  datatype AccessPath = AccessPath(index: Path, bounds: Range, cost: real, consumed: set<nat>, ordersBy: Name)

  const ESTIMATED_ROWS: real := 1000.0
  const COST_ROW_READ: real := 1.0
  const COST_INDEX_READ: real := 1.0
  const COST_ROW_FETCH: real := 1.0
  const COST_STARTUP: real := 1.0

  function PKName(t: Table): Name
    requires t.pk < |t.columns|
  {
    t.columns[t.pk].name
  }

  function FullScan(t: Table): AccessPath
    requires t.pk < |t.columns|
  {
    AccessPath(None, EVERYTHING, ESTIMATED_ROWS * COST_ROW_READ + COST_STARTUP, {}, PKName(t))
  }

  function RangeCost(r: Range): real { ESTIMATED_ROWS * r.Selectivity() * COST_ROW_READ + COST_STARTUP }

  function IndexCost(r: Range): real {
    ESTIMATED_ROWS * r.Selectivity() * (COST_INDEX_READ + COST_ROW_FETCH) + 2.0 * COST_STARTUP
  }

  /** A scan of one path's column over everything the conjuncts say about it. */
  function Candidate(h: Host, t: Table, list: seq<Expr>, x: Path): Option<AccessPath>
    requires t.pk < |t.columns|
  {
    var column := if x.Some? then x.value.column else PKName(t);
    match RangeOn(h, t, list, column)
    case None => None
    case Some(r) =>
      Some(AccessPath(x, r, if x.Some? then IndexCost(r) else RangeCost(r), OwnersOn(h, t, list, column), column))
  }

  ghost predicate IsCandidate(h: Host, t: Table, list: seq<Expr>, a: AccessPath)
    requires t.pk < |t.columns|
  {
    a == FullScan(t) || ((a.index.None? || a.index.value in t.indexes) && Candidate(h, t, list, a.index) == Some(a))
  }

  /** Nothing the planner considers is cheaper. */
  ghost predicate Cheapest(h: Host, t: Table, list: seq<Expr>, a: AccessPath)
    requires t.pk < |t.columns|
  {
    forall b :: IsCandidate(h, t, list, b) ==> a.cost <= b.cost
  }

  /** Ties go to what was considered first: the full scan, the primary key, the indexes as listed. */
  ghost predicate FirstOfItsCost(h: Host, t: Table, list: seq<Expr>, a: AccessPath)
    requires t.pk < |t.columns|
  {
    && (a != FullScan(t) ==> a.cost < FullScan(t).cost)
    && (a.index.Some? && Candidate(h, t, list, None).Some? ==> a.cost < Candidate(h, t, list, None).value.cost)
    && (a.index.Some? ==> exists i :: FirstIndex(h, t, list, a, i))
  }

  ghost predicate FirstIndex(h: Host, t: Table, list: seq<Expr>, a: AccessPath, i: int)
    requires t.pk < |t.columns|
  {
    0 <= i < |t.indexes| && a.index == Some(t.indexes[i]) &&
    forall j :: 0 <= j < i && Candidate(h, t, list, Some(t.indexes[j])).Some? ==>
                  a.cost < Candidate(h, t, list, Some(t.indexes[j])).value.cost
  }

  /** What each kind of scan is thought to cost, for a point, an interval, a half-line and the whole table. */
  lemma CostsAre(h: Host, t: Table, list: seq<Expr>, x: Path)
    requires t.pk < |t.columns|
    ensures FullScan(t).cost == 1001.0
    ensures Candidate(h, t, list, x).Some? ==>
              var a := Candidate(h, t, list, x).value;
              var both := a.bounds.lo.At? && a.bounds.hi.At?;
              var point := both && a.bounds.lo.inclusive && a.bounds.hi.inclusive && Order(a.bounds.lo.value, a.bounds.hi.value) == 0;
              (a.bounds.lo.At? || a.bounds.hi.At?)
              && a.cost == if x.Some? then (if point then 4.0 else if both then 102.0 else 602.0)
                           else if point then 2.0 else if both then 51.0 else 301.0
  {
    var column := if x.Some? then x.value.column else PKName(t);
    RangeOnShape(h, t, list, column);
    hide RangeOn, OwnersOn, Order;
  }

  /** The maps the planner has built agree with what the conjuncts say, column by column. */
  ghost predicate Collected(h: Host, t: Table, list: seq<Expr>, ranges: map<Name, Range>, owners: map<Name, set<nat>>) {
    forall c: Name ::
      && (c in ranges <==> RangeOn(h, t, list, c).Some?)
      && (c in ranges ==> ranges[c] == RangeOn(h, t, list, c).value)
      && (c in owners <==> c in ranges)
      && (c in owners ==> owners[c] == OwnersOn(h, t, list, c))
  }

  lemma OwnersSnoc(h: Host, t: Table, list: seq<Expr>, i: nat, column: Name)
    requires i < |list|
    ensures OwnersOn(h, t, list[..i + 1], column) ==
            OwnersOn(h, t, list[..i], column) + if OnColumn(h, t, list[i], column) then {i} else {}
  {
    hide Sargable;
    assert forall j: nat :: j < i ==> list[..i + 1][j] == list[..i][j];
    assert list[..i + 1][i] == list[i];
  }

  lemma CollectedSnoc(h: Host, t: Table, list: seq<Expr>, i: nat, ranges: map<Name, Range>, owners: map<Name, set<nat>>,
                      ranges': map<Name, Range>, owners': map<Name, set<nat>>)
    requires i < |list| && Collected(h, t, list[..i], ranges, owners)
    requires match Sargable(h, t, list[i])
             case None => ranges' == ranges && owners' == owners
             case Some(s) =>
               && ranges' == ranges[s.column := if s.column in ranges then ranges[s.column].Intersect(s.range) else s.range]
               && owners' == owners[s.column := (if s.column in owners then owners[s.column] else {}) + {i}]
    ensures Collected(h, t, list[..i + 1], ranges', owners')
  {
    hide Sargable, OwnersOn;
    assert list[..i + 1][..i] == list[..i];
    forall c: Name
      ensures c in ranges' <==> RangeOn(h, t, list[..i + 1], c).Some?
      ensures c in ranges' ==> ranges'[c] == RangeOn(h, t, list[..i + 1], c).value
      ensures c in owners' <==> c in ranges'
      ensures c in owners' ==> owners'[c] == OwnersOn(h, t, list[..i + 1], c)
    {
      OwnersSnoc(h, t, list, i, c);
      RangeOnShape(h, t, list[..i], c);
      assert c in ranges <==> RangeOn(h, t, list[..i], c).Some?;
    }
  }

  method CollectRanges(h: Host, t: Table, list: seq<Expr>) returns (ranges: map<Name, Range>, owners: map<Name, set<nat>>)
    ensures Collected(h, t, list, ranges, owners)
  {
    ranges, owners := map[], map[];
    for i := 0 to |list|
      invariant Collected(h, t, list[..i], ranges, owners)
    {
      ghost var was, had := ranges, owners;
      var sarg := Sargable(h, t, list[i]);
      if sarg.Some? {
        var col, r := sarg.value.column, sarg.value.range;
        ranges := ranges[col := if col in ranges then ranges[col].Intersect(r) else r];
        owners := owners[col := (if col in owners then owners[col] else {}) + {i}];
      }
      CollectedSnoc(h, t, list, i, was, had, ranges, owners);
    }
    assert list[..|list|] == list;
  }

  /** The cheapest way of reading the table, and the conjuncts it takes care of. */
  method ChoosePath(h: Host, t: Table, list: seq<Expr>) returns (best: AccessPath)
    requires t.pk < |t.columns|
    ensures IsCandidate(h, t, list, best) && Cheapest(h, t, list, best) && FirstOfItsCost(h, t, list, best)
  {
    hide RangeOn, OwnersOn, PKName, IndexCost, RangeCost;
    var ranges, owners := CollectRanges(h, t, list);
    best := FullScan(t);
    if PKName(t) in ranges && ranges[PKName(t)].Bounded() {
      var r := ranges[PKName(t)];
      if RangeCost(r) < best.cost {
        best := AccessPath(None, r, RangeCost(r), owners[PKName(t)], PKName(t));
      }
    }
    RangeOnShape(h, t, list, PKName(t));
    for i := 0 to |t.indexes|
      invariant IsCandidate(h, t, list, best) && best.cost <= FullScan(t).cost && FirstOfItsCost(h, t, list, best)
      invariant Candidate(h, t, list, None).Some? ==> best.cost <= Candidate(h, t, list, None).value.cost
      invariant forall j :: 0 <= j < i && Candidate(h, t, list, Some(t.indexes[j])).Some? ==>
                  best.cost <= Candidate(h, t, list, Some(t.indexes[j])).value.cost
    {
      var x := t.indexes[i];
      RangeOnShape(h, t, list, x.column);
      if x.column in ranges && ranges[x.column].Bounded() {
        var r := ranges[x.column];
        if IndexCost(r) < best.cost {
          best := AccessPath(Some(x), r, IndexCost(r), owners[x.column], x.column);
          assert FirstIndex(h, t, list, best, i);
        }
      }
    }
  }

  // ------------------------------------------------------------------
  // What is left to filter
  // ------------------------------------------------------------------

  function Residual(list: seq<Expr>, consumed: set<nat>): seq<Expr> {
    if list == [] then []
    else
      var n := |list| - 1;
      Residual(list[..n], consumed) + if n in consumed then [] else [list[n]]
  }

  method ComputeResidual(list: seq<Expr>, consumed: set<nat>) returns (out: seq<Expr>)
    ensures out == Residual(list, consumed)
  {
    out := [];
    for i := 0 to |list|
      invariant out == Residual(list[..i], consumed)
    {
      assert list[..i + 1][..i] == list[..i];
      if i !in consumed {
        out := out + [list[i]];
      }
    }
    assert list[..|list|] == list;
  }

  /** One conjunct after an outcome so far. */
  function AndThen(h: Host, sofar: Result<Bool3>, e: Expr, env: Env, row: Row): Result<Bool3> {
    var acc :- sofar;
    if acc.False? then Ok(acc)
    else
      var t :- EvalPredicate(h, e, env, row);
      Ok(acc.And(t))
  }

  lemma EvalFromSnoc(h: Host, list: seq<Expr>, env: Env, row: Row)
    requires list != []
    ensures EvalFrom(h, True, list, env, row) ==
            AndThen(h, EvalFrom(h, True, list[..|list| - 1], env, row), list[|list| - 1], env, row)
  {
    var n := |list| - 1;
    assert list == list[..n] + [list[n]];
    EvalFromAppend(h, True, list[..n], [list[n]], env, row);
    assert [list[n]][1..] == [];
  }

  /** Where the consumed conjuncts are TRUE, dropping them changes neither answer nor errors. */
  lemma {:induction false} ResidualMeans(h: Host, list: seq<Expr>, consumed: set<nat>, env: Env, row: Row)
    requires AllTrue(h, list, consumed, env, row)
    ensures EvalFrom(h, True, Residual(list, consumed), env, row) == EvalFrom(h, True, list, env, row)
  {
    if list != [] {
      var n := |list| - 1;
      assert forall i: nat :: i < n ==> list[..n][i] == list[i];
      ResidualMeans(h, list[..n], consumed, env, row);
      EvalFromSnoc(h, list, env, row);
      if n in consumed {
        assert Residual(list, consumed) == Residual(list[..n], consumed);
      } else {
        EvalFromSnoc(h, Residual(list, consumed), env, row);
        assert Residual(list, consumed)[..|Residual(list, consumed)| - 1] == Residual(list[..n], consumed);
      }
    }
  }

  ghost predicate EveryTrue(h: Host, list: seq<Expr>, env: Env, row: Row) {
    forall i :: 0 <= i < |list| ==> EvalPredicate(h, list[i], env, row) == Ok(True)
  }

  lemma EveryTrueSnoc(h: Host, list: seq<Expr>, env: Env, row: Row)
    requires list != []
    ensures EveryTrue(h, list, env, row) <==>
            EveryTrue(h, list[..|list| - 1], env, row) && EvalPredicate(h, list[|list| - 1], env, row) == Ok(True)
  {
    hide EvalPredicate;
    assert forall i :: 0 <= i < |list| - 1 ==> list[..|list| - 1][i] == list[i];
  }

  lemma KeepsWithout(h: Host, list: seq<Expr>, env: Env, row: Row)
    requires list == []
    ensures EvalFrom(h, True, list, env, row) == Ok(True) && EveryTrue(h, list, env, row)
  {
  }

  /** A WHERE clause keeps a row exactly when each of its conjuncts is TRUE. */
  lemma {:induction false} KeepsWhenAllTrue(h: Host, list: seq<Expr>, env: Env, row: Row)
    ensures EvalFrom(h, True, list, env, row) == Ok(True) <==> EveryTrue(h, list, env, row)
  {
    hide EveryTrue, EvalFrom, EvalPredicate;
    if list == [] {
      KeepsWithout(h, list, env, row);
    } else {
      KeepsWhenAllTrue(h, list[..|list| - 1], env, row);
      EvalFromSnoc(h, list, env, row);
      EveryTrueSnoc(h, list, env, row);
    }
  }
}
