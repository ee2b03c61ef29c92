// Which error an expression raises (exec/eval.go, types/ops.go): one that a part of it causes by itself.
module Faults {
  import opened Bytes
  import opened Values
  import opened Ast
  import opened Eval
  import opened Semantics
  import opened Conditions
  import opened Subterms

  /** What an operator raises that has operands but no result. */
  predicate ArithFault(h: Host, op: ArithOp, a: Value, b: Value, e: Error) {
    !Computable(h, op, a, b) &&
    e == if a.IsNumeric() && b.IsNumeric() && (op.Mod? ==> a.Int? && b.Int?) then DivideByZero else TypeMismatch
  }

  /** A value where there should be a truth value. */
  ghost predicate NoTruth(h: Host, x: Expr, env: Env, row: Row, e: Error) {
    HasValue(h, x, env, row) && !IsTruth(Denotes(h, x, env, row)) && e == TypeMismatch
  }

  ghost predicate Incomparable(h: Host, x: Expr, y: Expr, env: Env, row: Row, e: Error) {
    && HasValue(h, x, env, row) && HasValue(h, y, env, row)
    && !Comparable(Denotes(h, x, env, row), Denotes(h, y, env, row)) && e == TypeMismatch
  }

  /** The operands of x have values, but x has none. */
  ghost predicate Causes(h: Host, x: Expr, env: Env, row: Row, e: Error) {
    match x
    case Literal(_) => false
    case Column(_, name) => !InScope(env, row, name) && e == OutOfScope
    case Star => e == OutOfScope
    case StarCall(_) => e == OutOfScope
    case Call(_, _) => e == OutOfScope
    case Unary(op, y) =>
      if op.NotOp? then NoTruth(h, y, env, row, e)
      else
        op.MinusOp? && HasValue(h, y, env, row) && e == TypeMismatch
        && !Denotes(h, y, env, row).Null? && !Denotes(h, y, env, row).IsNumeric()
    case Binary(op, l, r) =>
      if op.AndOp? || op.OrOp? then NoTruth(h, l, env, row, e) || NoTruth(h, r, env, row, e)
      else if IsPredicate(x) then Incomparable(h, l, r, env, row, e)
      else
        && HasValue(h, l, env, row) && HasValue(h, r, env, row)
        && ArithFault(h, Arithmetic(op).value, Denotes(h, l, env, row), Denotes(h, r, env, row), e)
    case IsNull(_, _) => false
    case Between(y, lo, hi, _) => Incomparable(h, y, lo, env, row, e) || Incomparable(h, y, hi, env, row, e)
    case In(y, list, _) => exists i :: 0 <= i < |list| && Incomparable(h, y, list[i], env, row, e)
    case Like(y, p, _) =>
      && HasValue(h, y, env, row) && HasValue(h, p, env, row) && e == TypeMismatch
      && !Texts(Denotes(h, y, env, row), Denotes(h, p, env, row))
  }

  ghost predicate Raised(h: Host, e: Expr, env: Env, row: Row, err: Error) {
    exists x :: Inside(x, e) && Causes(h, x, env, row, err)
  }

  lemma RaisedHere(h: Host, e: Expr, env: Env, row: Row, err: Error)
    ensures Causes(h, e, env, row, err) ==> Raised(h, e, env, row, err)
  {
    hide Causes;
    assert Inside(e, e);
  }

  lemma RaisedBelow(h: Host, y: Expr, e: Expr, env: Env, row: Row, err: Error)
    requires y in Parts(e) && Raised(h, y, env, row, err)
    ensures Raised(h, e, env, row, err)
  {
    hide Causes;
    var x :| Inside(x, y) && Causes(h, x, env, row, err);
    assert Inside(x, e);
  }

  lemma ArithErrors(h: Host, op: ArithOp, a: Value, b: Value)
    ensures Arith(h, op, a, b).Err? ==> ArithFault(h, op, a, b, Arith(h, op, a, b).error)
  {
    ArithMeans(h, op, a, b);
    if a.IsNumeric() && b.IsNumeric() {
      ZeroMeans(AsFloat(h, b));
    }
    hide IsZero, Computable, Wrap, Quo, Rem;
  }

  lemma CompareErrors(h: Host, op: BinOp, a: Value, b: Value)
    requires Comparison(op).Some?
    ensures CompareOp(h, Comparison(op).value, a, b).Err? ==>
              CompareOp(h, Comparison(op).value, a, b).error == TypeMismatch && !Comparable(a, b)
  {
    CompareOpMeans(h, op, a, b);
    hide Comparable, CmpFloat, Cmp;
  }

  lemma NoTruthMeans(h: Host, x: Expr, env: Env, row: Row)
    requires EvalExpr(h, x, env, row).Ok? && Truth(EvalExpr(h, x, env, row).value).Err?
    ensures NoTruth(h, x, env, row, Truth(EvalExpr(h, x, env, row).value).error)
  {
    ExprMeans(h, x, env, row);
    TruthMeans(Denotes(h, x, env, row));
    hide EvalExpr, HasValue, Denotes;
  }

  /** An expression that fails does so because of a part whose own operands have values. */
  lemma {:induction false} ExprRaises(h: Host, e: Expr, env: Env, row: Row)
    ensures EvalExpr(h, e, env, row).Err? ==> Raised(h, e, env, row, EvalExpr(h, e, env, row).error)
    decreases e, 4
  {
    if EvalExpr(h, e, env, row).Err? {
      var err := EvalExpr(h, e, env, row).error;
      RaisedHere(h, e, env, row, err);
      if IsPredicate(e) {
        PredicateRaises(h, e, env, row);
      } else if e.Unary? {
        hide Raised, Denotes, HasValue, EvalExpr, EvalPredicate, Causes;
        UnaryRaises(h, e, env, row);
      } else if e.Binary? {
        hide Raised, Denotes, HasValue, EvalExpr, EvalPredicate, Causes;
        ArithRaises(h, e, env, row);
      }
    }
  }

  /** The same of a condition, which moreover may not be a truth value as a whole. */
  lemma {:induction false} ConditionRaises(h: Host, e: Expr, env: Env, row: Row)
    ensures EvalPredicate(h, e, env, row).Err? ==>
              var err := EvalPredicate(h, e, env, row).error;
              Raised(h, e, env, row, err) || NoTruth(h, e, env, row, err)
    decreases e, 5
  {
    if EvalPredicate(h, e, env, row).Err? {
      hide Raised, Denotes, HasValue, EvalExpr, NoTruth, Causes;
      if IsPredicate(e) {
        PredicateRaises(h, e, env, row);
      } else if e.Unary? && e.unop.NotOp? {
        ConditionRaises(h, e.operand, env, row);
        NotRaises(h, e, env, row, EvalPredicate(h, e, env, row).error);
      } else {
        ExprRaises(h, e, env, row);
        if EvalExpr(h, e, env, row).Ok? {
          NoTruthMeans(h, e, env, row);
        }
      }
    }
  }

  lemma NotRaises(h: Host, e: Expr, env: Env, row: Row, err: Error)
    requires e.Unary? && e.unop.NotOp? && (Raised(h, e.operand, env, row, err) || NoTruth(h, e.operand, env, row, err))
    ensures Raised(h, e, env, row, err)
  {
    RaisedHere(h, e, env, row, err);
    assert e.operand in Parts(e);
    if Raised(h, e.operand, env, row, err) {
      RaisedBelow(h, e.operand, e, env, row, err);
    }
  }

  lemma {:induction false} UnaryRaises(h: Host, e: Expr, env: Env, row: Row)
    requires e.Unary? && EvalExpr(h, e, env, row).Err?
    ensures Raised(h, e, env, row, EvalExpr(h, e, env, row).error)
    decreases e, 3
  {
    var err := EvalExpr(h, e, env, row).error;
    ExprRaises(h, e.operand, env, row);
    RaisedHere(h, e, env, row, err);
    assert e.operand in Parts(e);
    if EvalExpr(h, e.operand, env, row).Err? {
      RaisedBelow(h, e.operand, e, env, row, err);
    } else if e.unop.NotOp? {
      NoTruthMeans(h, e.operand, env, row);
    } else {
      ExprMeans(h, e.operand, env, row);
      NegMeans(Denotes(h, e.operand, env, row));
    }
  }

  lemma {:induction false} ArithRaises(h: Host, e: Expr, env: Env, row: Row)
    requires e.Binary? && !IsPredicate(e) && EvalExpr(h, e, env, row).Err?
    ensures Raised(h, e, env, row, EvalExpr(h, e, env, row).error)
    decreases e, 3
  {
    var err := EvalExpr(h, e, env, row).error;
    TwoRaise(h, e.left, e.right, e, env, row);
    RaisedHere(h, e, env, row, err);
    ExprMeans(h, e.left, env, row);
    ExprMeans(h, e.right, env, row);
    var x, y := EvalExpr(h, e.left, env, row), EvalExpr(h, e.right, env, row);
    if x.Ok? && y.Ok? {
      ArithErrors(h, Arithmetic(e.op).value, x.value, y.value);
    }
    hide Denotes, HasValue, Arith, ArithFault, Raised;
  }

  /** Two operands, the first before the second. */
  lemma {:induction false} TwoRaise(h: Host, a: Expr, b: Expr, e: Expr, env: Env, row: Row)
    requires a in Parts(e) && b in Parts(e) && a < e && b < e
    ensures EvalExpr(h, a, env, row).Err? ==> Raised(h, e, env, row, EvalExpr(h, a, env, row).error)
    ensures EvalExpr(h, b, env, row).Err? ==> Raised(h, e, env, row, EvalExpr(h, b, env, row).error)
    decreases e, 0
  {
    hide EvalExpr, Raised, Parts;
    ExprRaises(h, a, env, row);
    ExprRaises(h, b, env, row);
    if EvalExpr(h, a, env, row).Err? {
      RaisedBelow(h, a, e, env, row, EvalExpr(h, a, env, row).error);
    }
    if EvalExpr(h, b, env, row).Err? {
      RaisedBelow(h, b, e, env, row, EvalExpr(h, b, env, row).error);
    }
  }

  lemma {:induction false} PredicateRaises(h: Host, e: Expr, env: Env, row: Row)
    requires IsPredicate(e) && EvalPredicate(h, e, env, row).Err?
    ensures Raised(h, e, env, row, EvalPredicate(h, e, env, row).error)
    decreases e, 3
  {
    hide Raised, Causes;
    match e
    case Binary(op, l, r) =>
      if op.AndOp? || op.OrOp? {
        LogicRaises(h, e, env, row);
      } else {
        ComparisonRaises(h, e, env, row);
      }
    case IsNull(x, _) => TwoRaise(h, x, x, e, env, row);
    case Between(_, _, _, _) => BetweenRaises(h, e, env, row);
    case In(_, _, _) => InRaises(h, e, env, row);
    case Like(_, _, _) => LikeRaises(h, e, env, row);
    case _ =>
  }

  lemma {:induction false} LogicRaises(h: Host, e: Expr, env: Env, row: Row)
    requires e.Binary? && (e.op.AndOp? || e.op.OrOp?) && EvalPredicate(h, e, env, row).Err?
    ensures Raised(h, e, env, row, EvalPredicate(h, e, env, row).error)
    decreases e, 2
  {
    var err := EvalPredicate(h, e, env, row).error;
    ConditionRaises(h, e.left, env, row);
    ConditionRaises(h, e.right, env, row);
    RaisedHere(h, e, env, row, err);
    assert e.left in Parts(e) && e.right in Parts(e);
    hide Raised, NoTruth;
    if Raised(h, e.left, env, row, err) {
      RaisedBelow(h, e.left, e, env, row, err);
    }
    if Raised(h, e.right, env, row, err) {
      RaisedBelow(h, e.right, e, env, row, err);
    }
  }

  /** A comparison of two expressions that have values. */
  lemma NotComparable(h: Host, op: BinOp, x: Expr, y: Expr, env: Env, row: Row)
    requires Comparison(op).Some? && EvalExpr(h, x, env, row).Ok? && EvalExpr(h, y, env, row).Ok?
    requires CompareOp(h, Comparison(op).value, EvalExpr(h, x, env, row).value, EvalExpr(h, y, env, row).value).Err?
    ensures Incomparable(h, x, y, env, row,
                         CompareOp(h, Comparison(op).value, EvalExpr(h, x, env, row).value, EvalExpr(h, y, env, row).value).error)
  {
    hide EvalExpr, CompareOp, Denotes, HasValue, Comparable;
    ExprMeans(h, x, env, row);
    ExprMeans(h, y, env, row);
    CompareErrors(h, op, EvalExpr(h, x, env, row).value, EvalExpr(h, y, env, row).value);
  }

  lemma {:induction false} ComparisonRaises(h: Host, e: Expr, env: Env, row: Row)
    requires e.Binary? && Comparison(e.op).Some? && EvalPredicate(h, e, env, row).Err?
    ensures Raised(h, e, env, row, EvalPredicate(h, e, env, row).error)
    decreases e, 2
  {
    RaisedHere(h, e, env, row, EvalPredicate(h, e, env, row).error);
    TwoRaise(h, e.left, e.right, e, env, row);
    hide Raised, Incomparable, CompareOp;
    if EvalExpr(h, e.left, env, row).Ok? && EvalExpr(h, e.right, env, row).Ok? {
      NotComparable(h, e.op, e.left, e.right, env, row);
    }
  }

  lemma {:induction false} BetweenRaises(h: Host, e: Expr, env: Env, row: Row)
    requires e.Between? && EvalPredicate(h, e, env, row).Err?
    ensures Raised(h, e, env, row, EvalPredicate(h, e, env, row).error)
    decreases e, 2
  {
    RaisedHere(h, e, env, row, EvalPredicate(h, e, env, row).error);
    TwoRaise(h, e.expr, e.lo, e, env, row);
    TwoRaise(h, e.hi, e.hi, e, env, row);
    hide Raised, Incomparable, CompareOp;
    if EvalExpr(h, e.expr, env, row).Ok? && EvalExpr(h, e.lo, env, row).Ok? && EvalExpr(h, e.hi, env, row).Ok? {
      if CompareOp(h, CGe, EvalExpr(h, e.expr, env, row).value, EvalExpr(h, e.lo, env, row).value).Err? {
        NotComparable(h, GeOp, e.expr, e.lo, env, row);
      } else {
        NotComparable(h, LeOp, e.expr, e.hi, env, row);
      }
    }
  }

  lemma {:induction false} LikeRaises(h: Host, e: Expr, env: Env, row: Row)
    requires e.Like? && EvalPredicate(h, e, env, row).Err?
    ensures Raised(h, e, env, row, EvalPredicate(h, e, env, row).error)
    decreases e, 2
  {
    RaisedHere(h, e, env, row, EvalPredicate(h, e, env, row).error);
    TwoRaise(h, e.expr, e.pattern, e, env, row);
    ExprMeans(h, e.expr, env, row);
    ExprMeans(h, e.pattern, env, row);
    hide Raised, Denotes, HasValue, EvalExpr;
  }

  lemma {:induction false} InRaises(h: Host, e: Expr, env: Env, row: Row)
    requires e.In? && EvalPredicate(h, e, env, row).Err?
    ensures Raised(h, e, env, row, EvalPredicate(h, e, env, row).error)
    decreases e, 2
  {
    TwoRaise(h, e.expr, e.expr, e, env, row);
    hide Raised;
    var v := EvalExpr(h, e.expr, env, row);
    if v.Ok? {
      ItemsRaise(h, e, v.value, 0, False, env, row);
      assert e.list[0..] == e.list;
    }
  }

  lemma ItemCauses(h: Host, e: Expr, i: nat, env: Env, row: Row, err: Error)
    requires e.In? && i < |e.list| && Incomparable(h, e.expr, e.list[i], env, row, err)
    ensures Raised(h, e, env, row, err)
  {
    hide Incomparable, Raised;
    RaisedHere(h, e, env, row, err);
  }

  lemma {:induction false} ItemsRaise(h: Host, e: Expr, v: Value, from: nat, out: Bool3, env: Env, row: Row)
    requires e.In? && EvalExpr(h, e.expr, env, row) == Ok(v) && from <= |e.list|
    ensures var r := EvalIn(h, v, e.list[from..], out, env, row); r.Err? ==> Raised(h, e, env, row, r.error)
    decreases e, 1, |e.list| - from
  {
    var rest := e.list[from..];
    var r := EvalIn(h, v, rest, out, env, row);
    if r.Err? {
      hide Raised, CompareOp, EvalExpr;
      var item := e.list[from];
      assert rest[0] == item && rest[1..] == e.list[from + 1..] && item in e.list;
      TwoRaise(h, item, item, e, env, row);
      var w := EvalExpr(h, item, env, row);
      if w.Ok? {
        var eq := CompareOp(h, CEq, v, w.value);
        if eq.Err? {
          NotComparable(h, EqOp, e.expr, item, env, row);
          ItemCauses(h, e, from, env, row, eq.error);
        } else if !out.Or(eq.value).True? {
          ItemsRaise(h, e, v, from + 1, out.Or(eq.value), env, row);
        }
      }
    }
  }
}
