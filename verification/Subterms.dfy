// Where the planner looks for references and aggregates (plan/build.go), by the parts of an expression.
module Subterms {
  import opened Bytes
  import opened Values
  import opened Ast
  import opened Schema
  import opened Select

  /** What stands directly below an expression. */
  function Parts(e: Expr): seq<Expr> {
    match e
    case Unary(_, x) => [x]
    case Binary(_, l, r) => [l, r]
    case IsNull(x, _) => [x]
    case Between(x, lo, hi, _) => [x, lo, hi]
    case In(x, list, _) => [x] + list
    case Like(x, p, _) => [x, p]
    case Call(_, x) => [x]
    case _ => []
  }

  lemma PartsSmaller(e: Expr)
    ensures forall x :: x in Parts(e) ==> x < e
  {
  }

  /** x is e or a part of it at any depth. */
  ghost predicate Inside(x: Expr, e: Expr)
    decreases e
  {
    PartsSmaller(e);
    x == e || exists y :: y in Parts(e) && Inside(x, y)
  }

  ghost predicate AggregateInside(e: Expr) { exists x :: Inside(x, e) && (x.Call? || x.StarCall?) }

  lemma AggregateBelow(e: Expr)
    ensures AggregateInside(e) <==> e.Call? || e.StarCall? || exists y :: y in Parts(e) && AggregateInside(y)
  {
    if AggregateInside(e) {
      var x :| Inside(x, e) && (x.Call? || x.StarCall?);
      if x != e {
        var y :| y in Parts(e) && Inside(x, y);
        assert AggregateInside(y);
      }
    }
    forall y | y in Parts(e) && AggregateInside(y) ensures AggregateInside(e) {
      var x :| Inside(x, y) && (x.Call? || x.StarCall?);
      assert Inside(x, e);
    }
    assert Inside(e, e);
  }

  /** An expression has an aggregate exactly if a call stands in it somewhere. */
  lemma {:induction false} HasAggregateMeans(e: Expr)
    ensures HasAggregate(e) <==> AggregateInside(e)
    decreases e, 1
  {
    hide AggregateInside, Inside;
    AggregateBelow(e);
    PartsSmaller(e);
    forall y | y in Parts(e) ensures HasAggregate(y) <==> AggregateInside(y) {
      HasAggregateMeans(y);
    }
    match e
    case Unary(_, x) => assert x in Parts(e);
    case Binary(_, l, r) => assert l in Parts(e) && r in Parts(e);
    case IsNull(x, _) => assert x in Parts(e);
    case Between(x, lo, hi, _) => assert x in Parts(e) && lo in Parts(e) && hi in Parts(e);
    case In(x, list, _) =>
      AnyAggregateMeans(list);
      assert x in Parts(e) && forall y :: y in list ==> y in Parts(e);
    case Like(x, p, _) => assert x in Parts(e) && p in Parts(e);
    case _ =>
  }

  lemma {:induction false} AnyAggregateMeans(es: seq<Expr>)
    ensures AnyAggregate(es) <==> exists y :: y in es && HasAggregate(y)
    decreases es, 0
  {
    if es != [] {
      AnyAggregateMeans(es[1..]);
      hide HasAggregate;
      assert es[0] in es;
      assert forall y :: y in es <==> y == es[0] || y in es[1..];
    }
  }

  /** A reference to a column of this table, under its own name or none. */
  predicate Refers(t: Table, x: Expr) {
    x.Column? ==> (x.table == [] || x.table == t.name) && exists i :: 0 <= i < |t.columns| && t.columns[i].name == x.name
  }

  ghost predicate AllRefer(t: Table, e: Expr) { forall x :: Inside(x, e) ==> Refers(t, x) }

  lemma ReferBelow(t: Table, e: Expr)
    ensures AllRefer(t, e) <==> Refers(t, e) && forall y :: y in Parts(e) ==> AllRefer(t, y)
  {
    hide Refers;
    if AllRefer(t, e) {
      assert Inside(e, e);
      forall y | y in Parts(e) ensures AllRefer(t, y) {
        forall x | Inside(x, y) ensures Refers(t, x) {
          assert Inside(x, e);
        }
      }
    }
  }

  lemma ColumnIndexMeans(t: Table, name: Name)
    ensures t.ColumnIndex(name).Some? <==> exists i :: 0 <= i < |t.columns| && t.columns[i].name == name
  {
  }

  /** References resolve exactly if each one, at any depth, names a column of the table. */
  lemma {:induction false} RefsOkMeans(t: Table, e: Expr)
    ensures RefsOk(t, e) <==> AllRefer(t, e)
  {
    hide AllRefer;
    ReferBelow(t, e);
    PartsSmaller(e);
    forall y | y in Parts(e) ensures RefsOk(t, y) <==> AllRefer(t, y) {
      RefsOkMeans(t, y);
    }
    match e
    case Column(_, name) => ColumnIndexMeans(t, name);
    case Unary(_, x) => assert x in Parts(e);
    case Binary(_, l, r) => assert l in Parts(e) && r in Parts(e);
    case IsNull(x, _) => assert x in Parts(e);
    case Between(x, lo, hi, _) => assert x in Parts(e) && lo in Parts(e) && hi in Parts(e);
    case In(x, list, _) => assert x in Parts(e) && forall y :: y in list ==> y in Parts(e);
    case Like(x, p, _) => assert x in Parts(e) && p in Parts(e);
    case Call(_, x) => assert x in Parts(e);
    case _ =>
  }

  ghost predicate ColumnInside(e: Expr, name: Name) { exists x :: Inside(x, e) && x.Column? && x.name == name }

  lemma ColumnBelow(e: Expr, name: Name)
    ensures ColumnInside(e, name) <==> (e.Column? && e.name == name) || exists y :: y in Parts(e) && ColumnInside(y, name)
  {
    if ColumnInside(e, name) {
      var x :| Inside(x, e) && x.Column? && x.name == name;
      if x != e {
        var y :| y in Parts(e) && Inside(x, y);
        assert ColumnInside(y, name);
      }
    }
    forall y | y in Parts(e) && ColumnInside(y, name) ensures ColumnInside(e, name) {
      var x :| Inside(x, y) && x.Column? && x.name == name;
      assert Inside(x, e);
    }
    assert Inside(e, e);
  }

  /** The columns an expression mentions are those that stand in it at any depth. */
  lemma {:induction false} ColumnsMean(e: Expr, name: Name)
    ensures name in Columns(e) <==> ColumnInside(e, name)
    decreases e, 1
  {
    hide ColumnInside;
    ColumnBelow(e, name);
    PartsSmaller(e);
    forall y | y in Parts(e) ensures name in Columns(y) <==> ColumnInside(y, name) {
      ColumnsMean(y, name);
    }
    match e
    case Unary(_, x) => assert x in Parts(e);
    case Binary(_, l, r) => assert l in Parts(e) && r in Parts(e);
    case IsNull(x, _) => assert x in Parts(e);
    case Between(x, lo, hi, _) => assert x in Parts(e) && lo in Parts(e) && hi in Parts(e);
    case In(x, list, _) =>
      ColumnsOfMean(list, name);
      assert x in Parts(e) && forall y :: y in list ==> y in Parts(e);
    case Like(x, p, _) => assert x in Parts(e) && p in Parts(e);
    case Call(_, x) => assert x in Parts(e);
    case _ =>
  }

  lemma {:induction false} ColumnsOfMean(es: seq<Expr>, name: Name)
    ensures name in ColumnsOf(es) <==> exists y :: y in es && name in Columns(y)
    decreases es, 0
  {
    if es != [] {
      ColumnsOfMean(es[1..], name);
      hide Columns;
      assert es[0] in es;
      assert forall y :: y in es <==> y == es[0] || y in es[1..];
    }
  }
}
