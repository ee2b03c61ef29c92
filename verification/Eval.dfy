// Scalar and predicate evaluation (exec/eval.go) below any aggregation.
module Eval {
  import opened Bytes
  import opened Values
  import opened Ast
  import LikeMatch

  /** Column name to position in the row; aggregate bindings are not modelled. */
  type Env = map<Name, nat>

  function At(row: Row, pos: nat): Result<Value> {
    if pos < |row| then Ok(row[pos]) else Err(OutOfScope)
  }

  function LikeValue(h: Host, s: Value, pattern: Value): Result<Bool3> {
    if s.Null? || pattern.Null? then Ok(Unknown)
    else if !s.Text? || !pattern.Text? then Err(TypeMismatch)
    else Ok(B3(LikeMatch.CodeLike(h.runes(s.s), h.runes(pattern.s))))
  }

  function Negated(t: Bool3, not: bool): Bool3 { if not then t.Not() else t }

  /** Expressions whose value is the predicate's answer turned back into a value. */
  predicate IsPredicate(e: Expr) {
    match e
    case Binary(op, _, _) => op.AndOp? || op.OrOp? || Comparison(op).Some?
    case IsNull(_, _) => true
    case Between(_, _, _, _) => true
    case In(_, _, _) => true
    case Like(_, _, _) => true
    case _ => false
  }

  function EvalExpr(h: Host, e: Expr, env: Env, row: Row): Result<Value>
    decreases e, if IsPredicate(e) then 1 else 0
  {
    match e
    case Literal(v) => Ok(v)
    case Column(_, name) => if name in env then At(row, env[name]) else Err(OutOfScope)
    case Star => Err(OutOfScope)
    case StarCall(_) => Err(OutOfScope)
    case Call(_, _) => Err(OutOfScope)
    case Unary(op, x) =>
      var v :- EvalExpr(h, x, env, row);
      (match op
       case NotOp => var t :- Truth(v); Ok(t.Not().ToValue())
       case MinusOp => Neg(v)
       case PlusOp => Ok(v))
    case Binary(op, l, r) =>
      if IsPredicate(e) then
        var t :- EvalPredicate(h, e, env, row);
        Ok(t.ToValue())
      else
        var x :- EvalExpr(h, l, env, row);
        var y :- EvalExpr(h, r, env, row);
        Arith(h, Arithmetic(op).value, x, y)
    case IsNull(_, _) => var t :- EvalPredicate(h, e, env, row); Ok(t.ToValue())
    case Between(_, _, _, _) => var t :- EvalPredicate(h, e, env, row); Ok(t.ToValue())
    case In(_, _, _) => var t :- EvalPredicate(h, e, env, row); Ok(t.ToValue())
    case Like(_, _, _) => var t :- EvalPredicate(h, e, env, row); Ok(t.ToValue())
  }

  /** A condition under three-valued logic; FALSE AND and TRUE OR look no further. */
  function EvalPredicate(h: Host, e: Expr, env: Env, row: Row): Result<Bool3>
    decreases e, if IsPredicate(e) then 0 else 1
  {
    match e
    case Binary(op, l, r) =>
      if op.AndOp? then
        var x :- EvalPredicate(h, l, env, row);
        if x.False? then Ok(False)
        else
          var y :- EvalPredicate(h, r, env, row);
          Ok(x.And(y))
      else if op.OrOp? then
        var x :- EvalPredicate(h, l, env, row);
        if x.True? then Ok(True)
        else
          var y :- EvalPredicate(h, r, env, row);
          Ok(x.Or(y))
      else if Comparison(op).Some? then
        var x :- EvalExpr(h, l, env, row);
        var y :- EvalExpr(h, r, env, row);
        CompareOp(h, Comparison(op).value, x, y)
      else
        var v :- EvalExpr(h, e, env, row);
        Truth(v)
    case Unary(op, x) =>
      if op.NotOp? then
        var t :- EvalPredicate(h, x, env, row);
        Ok(t.Not())
      else
        var v :- EvalExpr(h, e, env, row);
        Truth(v)
    case IsNull(x, not) =>
      var v :- EvalExpr(h, x, env, row);
      Ok(B3(v.Null? != not))
    case Between(x, lo, hi, not) =>
      var v :- EvalExpr(h, x, env, row);
      var a :- EvalExpr(h, lo, env, row);
      var b :- EvalExpr(h, hi, env, row);
      var ge :- CompareOp(h, CGe, v, a);
      var le :- CompareOp(h, CLe, v, b);
      Ok(Negated(ge.And(le), not))
    case In(x, list, not) =>
      var v :- EvalExpr(h, x, env, row);
      var t :- EvalIn(h, v, list, False, env, row);
      Ok(Negated(t, not))
    case Like(x, p, not) =>
      var v :- EvalExpr(h, x, env, row);
      var w :- EvalExpr(h, p, env, row);
      var t :- LikeValue(h, v, w);
      Ok(Negated(t, not))
    case _ =>
      var v :- EvalExpr(h, e, env, row);
      Truth(v)
  }

  /** The IN list, folded with OR and left as soon as it is TRUE. */
  function EvalIn(h: Host, v: Value, list: seq<Expr>, out: Bool3, env: Env, row: Row): Result<Bool3>
    decreases list, 0
  {
    if list == [] then Ok(out)
    else
      var w :- EvalExpr(h, list[0], env, row);
      var eq :- CompareOp(h, CEq, v, w);
      if out.Or(eq).True? then Ok(True) else EvalIn(h, v, list[1..], out.Or(eq), env, row)
  }

  // ------------------------------------------------------------------
  // Only the columns an expression mentions matter
  // ------------------------------------------------------------------

  ghost predicate AgreeOn(a: Row, b: Row, env: Env, names: set<Name>) {
    |a| == |b| && forall n :: n in names && n in env && env[n] < |a| ==> a[env[n]] == b[env[n]]
  }

  lemma {:induction false} EvalReads(h: Host, e: Expr, env: Env, a: Row, b: Row)
    requires AgreeOn(a, b, env, Columns(e))
    ensures EvalExpr(h, e, env, a) == EvalExpr(h, e, env, b)
    decreases e, if IsPredicate(e) then 1 else 0
  {
    match e
    case Literal(_) =>
    case Column(_, _) =>
    case Star =>
    case StarCall(_) =>
    case Call(_, _) =>
    case Unary(_, x) => EvalReads(h, x, env, a, b);
    case Binary(_, l, r) =>
      if IsPredicate(e) {
        PredicateReads(h, e, env, a, b);
      } else {
        EvalReads(h, l, env, a, b);
        EvalReads(h, r, env, a, b);
      }
    case IsNull(_, _) => PredicateReads(h, e, env, a, b);
    case Between(_, _, _, _) => PredicateReads(h, e, env, a, b);
    case In(_, _, _) => PredicateReads(h, e, env, a, b);
    case Like(_, _, _) => PredicateReads(h, e, env, a, b);
  }

  lemma {:induction false} PredicateReads(h: Host, e: Expr, env: Env, a: Row, b: Row)
    requires AgreeOn(a, b, env, Columns(e))
    ensures EvalPredicate(h, e, env, a) == EvalPredicate(h, e, env, b)
    decreases e, if IsPredicate(e) then 0 else 1
  {
    hide EvalExpr;
    match e
    case Binary(op, l, r) =>
      if op.AndOp? || op.OrOp? {
        PredicateReads(h, l, env, a, b);
        PredicateReads(h, r, env, a, b);
      } else if Comparison(op).Some? {
        EvalReads(h, l, env, a, b);
        EvalReads(h, r, env, a, b);
      } else {
        EvalReads(h, e, env, a, b);
      }
    case Unary(op, x) =>
      if op.NotOp? {
        PredicateReads(h, x, env, a, b);
      } else {
        EvalReads(h, e, env, a, b);
      }
    case IsNull(x, _) => EvalReads(h, x, env, a, b);
    case Between(x, lo, hi, _) =>
      EvalReads(h, x, env, a, b);
      EvalReads(h, lo, env, a, b);
      EvalReads(h, hi, env, a, b);
    case In(x, list, _) =>
      EvalReads(h, x, env, a, b);
      if EvalExpr(h, x, env, a).Ok? {
        InReads(h, EvalExpr(h, x, env, a).value, list, False, env, a, b);
      }
    case Like(x, p, _) =>
      EvalReads(h, x, env, a, b);
      EvalReads(h, p, env, a, b);
    case _ => EvalReads(h, e, env, a, b);
  }

  lemma {:induction false} InReads(h: Host, v: Value, list: seq<Expr>, out: Bool3, env: Env, a: Row, b: Row)
    requires AgreeOn(a, b, env, ColumnsOf(list))
    ensures EvalIn(h, v, list, out, env, a) == EvalIn(h, v, list, out, env, b)
    decreases list, 0
  {
    if list != [] {
      EvalReads(h, list[0], env, a, b);
      if EvalExpr(h, list[0], env, a).Ok? && CompareOp(h, CEq, v, EvalExpr(h, list[0], env, a).value).Ok? {
        InReads(h, v, list[1..], out.Or(CompareOp(h, CEq, v, EvalExpr(h, list[0], env, a).value).value), env, a, b);
      }
    }
  }

  // ------------------------------------------------------------------
  // Conjunct lists
  // ------------------------------------------------------------------

  /** a AND b AND c flattened, however it is bracketed. */
  function SplitConjuncts(e: Expr): (r: seq<Expr>)
    ensures r != []
  {
    if e.Binary? && e.op.AndOp? then SplitConjuncts(e.left) + SplitConjuncts(e.right) else [e]
  }

  function JoinFrom(first: Expr, rest: seq<Expr>): Expr
    decreases |rest|
  {
    if rest == [] then first else JoinFrom(Binary(AndOp, first, rest[0]), rest[1..])
  }

  /** The inverse: one left-leaning conjunction. */
  function JoinConjuncts(list: seq<Expr>): Expr
    requires list != []
  {
    JoinFrom(list[0], list[1..])
  }

  /** Conjuncts in order, starting from what is known so far, stopping at FALSE or an error. */
  function EvalFrom(h: Host, acc: Bool3, list: seq<Expr>, env: Env, row: Row): Result<Bool3>
    decreases |list|
  {
    if acc.False? || list == [] then Ok(acc)
    else
      var t :- EvalPredicate(h, list[0], env, row);
      EvalFrom(h, acc.And(t), list[1..], env, row)
  }

  lemma {:induction false} EvalFromAppend(h: Host, acc: Bool3, a: seq<Expr>, b: seq<Expr>, env: Env, row: Row)
    ensures EvalFrom(h, acc, a + b, env, row) ==
            match EvalFrom(h, acc, a, env, row)
            case Ok(t) => EvalFrom(h, t, b, env, row)
            case Err(x) => Err(x)
    decreases |a|
  {
    if acc.False? {
    } else if a == [] {
      assert a + b == b;
    } else {
      assert (a + b)[1..] == a[1..] + b;
      if EvalPredicate(h, a[0], env, row).Ok? {
        EvalFromAppend(h, acc.And(EvalPredicate(h, a[0], env, row).value), a[1..], b, env, row);
      }
    }
  }

  /** A start of lower standing only lowers the outcome. */
  lemma {:induction false} EvalFromAnd(h: Host, acc: Bool3, list: seq<Expr>, env: Env, row: Row)
    requires !acc.False?
    ensures EvalFrom(h, True, list, env, row).Ok? <==> EvalFrom(h, acc, list, env, row).Ok?
    ensures EvalFrom(h, True, list, env, row).Ok? ==>
              EvalFrom(h, acc, list, env, row).value == acc.And(EvalFrom(h, True, list, env, row).value)
    ensures EvalFrom(h, True, list, env, row).Err? ==>
              EvalFrom(h, acc, list, env, row) == EvalFrom(h, True, list, env, row)
    decreases |list|
  {
    if list != [] && EvalPredicate(h, list[0], env, row).Ok? {
      var t := EvalPredicate(h, list[0], env, row).value;
      if !t.False? {
        EvalFromAnd(h, t, list[1..], env, row);
        EvalFromAnd(h, acc.And(t), list[1..], env, row);
      }
    }
  }

  /** Splitting a WHERE clause changes neither its answer nor its errors. */
  lemma {:induction false} SplitMeans(h: Host, e: Expr, env: Env, row: Row)
    ensures EvalPredicate(h, e, env, row) == EvalFrom(h, True, SplitConjuncts(e), env, row)
    decreases e
  {
    if e.Binary? && e.op.AndOp? {
      var l, r := SplitConjuncts(e.left), SplitConjuncts(e.right);
      SplitMeans(h, e.left, env, row);
      SplitMeans(h, e.right, env, row);
      EvalFromAppend(h, True, l, r, env, row);
      if EvalPredicate(h, e.left, env, row).Ok? && !EvalPredicate(h, e.left, env, row).value.False? {
        EvalFromAnd(h, EvalPredicate(h, e.left, env, row).value, r, env, row);
      }
    } else {
      assert [e][1..] == [];
      if EvalPredicate(h, e, env, row).Ok? {
        var t := EvalPredicate(h, e, env, row).value;
        assert EvalFrom(h, True.And(t), [], env, row) == Ok(t);
      }
    }
  }

  lemma {:induction false} JoinMeans(h: Host, first: Expr, rest: seq<Expr>, env: Env, row: Row)
    ensures EvalPredicate(h, JoinFrom(first, rest), env, row) ==
            match EvalPredicate(h, first, env, row)
            case Ok(t) => EvalFrom(h, t, rest, env, row)
            case Err(x) => Err(x)
    decreases |rest|
  {
    if rest != [] {
      JoinMeans(h, Binary(AndOp, first, rest[0]), rest[1..], env, row);
    }
  }

  /** Rebuilding a conjunction from a list keeps the list's answer and errors. */
  lemma JoinConjunctsMeans(h: Host, list: seq<Expr>, env: Env, row: Row)
    requires list != []
    ensures EvalPredicate(h, JoinConjuncts(list), env, row) == EvalFrom(h, True, list, env, row)
  {
    JoinMeans(h, list[0], list[1..], env, row);
    if EvalPredicate(h, list[0], env, row).Ok? {
      assert True.And(EvalPredicate(h, list[0], env, row).value) == EvalPredicate(h, list[0], env, row).value;
    }
  }
}
