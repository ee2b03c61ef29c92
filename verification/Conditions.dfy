// The meaning of expressions and conditions in two-valued terms: what satisfies a condition, what
// refutes it, and when there is an answer at all. The evaluator of exec/eval.go is measured against it.
module Conditions {
  import opened Bytes
  import opened Values
  import opened Ast
  import opened Eval
  import opened Semantics
  import LikeMatch

  // ------------------------------------------------------------------
  // Satisfied, refuted, and the value of an expression
  // ------------------------------------------------------------------

  function Settled(r: Result<Value>): Value { if r.Ok? then r.value else Null }

  /** A condition read as a value. */
  function AsValue(sat: bool, ref: bool): Value { if sat then Bool(true) else if ref then Bool(false) else Null }

  predicate InScope(env: Env, row: Row, name: Name) { name in env && env[name] < |row| }

  /** SQL's LIKE where the text has no `%`, and what the code makes of the others. */
  predicate Matches(text: LikeMatch.Runes, pattern: LikeMatch.Runes) {
    if LikeMatch.PERCENT !in text then LikeMatch.SqlLike(text, pattern) else LikeMatch.CodeLike(text, pattern)
  }

  /** Both are there and the text matches, or does not. */
  ghost predicate Likes(h: Host, v: Value, w: Value, yes: bool) {
    v.Text? && w.Text? && (Matches(h.runes(v.s), h.runes(w.s)) <==> yes)
  }

  /** The value of an expression that has one. */
  ghost function Denotes(h: Host, e: Expr, env: Env, row: Row): Value
    decreases e, if IsPredicate(e) then 1 else 0
  {
    match e
    case Literal(v) => v
    case Column(_, name) => if InScope(env, row, name) then row[env[name]] else Null
    case Unary(op, x) =>
      (match op
       case NotOp => AsValue(Refuted(h, x, env, row), Satisfied(h, x, env, row))
       case MinusOp => Settled(Neg(Denotes(h, x, env, row)))
       case PlusOp => Denotes(h, x, env, row))
    case Binary(op, l, r) =>
      (match op
       case AddOp => Settled(Arith(h, ArithOp.Add, Denotes(h, l, env, row), Denotes(h, r, env, row)))
       case SubOp => Settled(Arith(h, ArithOp.Sub, Denotes(h, l, env, row), Denotes(h, r, env, row)))
       case MulOp => Settled(Arith(h, ArithOp.Mul, Denotes(h, l, env, row), Denotes(h, r, env, row)))
       case DivOp => Settled(Arith(h, ArithOp.Div, Denotes(h, l, env, row), Denotes(h, r, env, row)))
       case ModOp => Settled(Arith(h, ArithOp.Mod, Denotes(h, l, env, row), Denotes(h, r, env, row)))
       case _ => AsValue(Satisfied(h, e, env, row), Refuted(h, e, env, row)))
    case IsNull(_, _) => AsValue(Satisfied(h, e, env, row), Refuted(h, e, env, row))
    case Between(_, _, _, _) => AsValue(Satisfied(h, e, env, row), Refuted(h, e, env, row))
    case In(_, _, _) => AsValue(Satisfied(h, e, env, row), Refuted(h, e, env, row))
    case Like(_, _, _) => AsValue(Satisfied(h, e, env, row), Refuted(h, e, env, row))
    case _ => Null
  }

  ghost predicate Satisfied(h: Host, e: Expr, env: Env, row: Row)
    decreases e, if IsPredicate(e) then 0 else 1
  {
    match e
    case Binary(op, l, r) =>
      if op.AndOp? then Satisfied(h, l, env, row) && Satisfied(h, r, env, row)
      else if op.OrOp? then Satisfied(h, l, env, row) || Satisfied(h, r, env, row)
      else if IsPredicate(e) then Compares(h, op, Denotes(h, l, env, row), Denotes(h, r, env, row))
      else Denotes(h, e, env, row) == Bool(true)
    case Unary(op, x) => if op.NotOp? then Refuted(h, x, env, row) else Denotes(h, e, env, row) == Bool(true)
    case IsNull(x, not) => if not then !Denotes(h, x, env, row).Null? else Denotes(h, x, env, row).Null?
    case Between(x, lo, hi, not) =>
      var v, a, b := Denotes(h, x, env, row), Denotes(h, lo, env, row), Denotes(h, hi, env, row);
      if not then Compares(h, LtOp, v, a) || Compares(h, GtOp, v, b) else Compares(h, GeOp, v, a) && Compares(h, LeOp, v, b)
    case In(x, list, not) =>
      if not then NoneEqual(h, Denotes(h, x, env, row), list, env, row) else SomeEqual(h, Denotes(h, x, env, row), list, env, row)
    case Like(x, p, not) => Likes(h, Denotes(h, x, env, row), Denotes(h, p, env, row), !not)
    case _ => Denotes(h, e, env, row) == Bool(true)
  }

  ghost predicate Refuted(h: Host, e: Expr, env: Env, row: Row)
    decreases e, if IsPredicate(e) then 0 else 1
  {
    match e
    case Binary(op, l, r) =>
      if op.AndOp? then Refuted(h, l, env, row) || Refuted(h, r, env, row)
      else if op.OrOp? then Refuted(h, l, env, row) && Refuted(h, r, env, row)
      else if IsPredicate(e) then Contradicts(h, op, Denotes(h, l, env, row), Denotes(h, r, env, row))
      else Denotes(h, e, env, row) == Bool(false)
    case Unary(op, x) => if op.NotOp? then Satisfied(h, x, env, row) else Denotes(h, e, env, row) == Bool(false)
    case IsNull(x, not) => if not then Denotes(h, x, env, row).Null? else !Denotes(h, x, env, row).Null?
    case Between(x, lo, hi, not) =>
      var v, a, b := Denotes(h, x, env, row), Denotes(h, lo, env, row), Denotes(h, hi, env, row);
      if not then Compares(h, GeOp, v, a) && Compares(h, LeOp, v, b) else Compares(h, LtOp, v, a) || Compares(h, GtOp, v, b)
    case In(x, list, not) =>
      if not then SomeEqual(h, Denotes(h, x, env, row), list, env, row) else NoneEqual(h, Denotes(h, x, env, row), list, env, row)
    case Like(x, p, not) => Likes(h, Denotes(h, x, env, row), Denotes(h, p, env, row), not)
    case _ => Denotes(h, e, env, row) == Bool(false)
  }

  /** Some item is equal to v. */
  ghost predicate SomeEqual(h: Host, v: Value, list: seq<Expr>, env: Env, row: Row)
    decreases list, 0
  {
    exists i :: 0 <= i < |list| && Compares(h, EqOp, v, Denotes(h, list[i], env, row))
  }

  /** Every item is known to differ from v. */
  ghost predicate NoneEqual(h: Host, v: Value, list: seq<Expr>, env: Env, row: Row)
    decreases list, 0
  {
    forall i :: 0 <= i < |list| ==> Compares(h, NeOp, v, Denotes(h, list[i], env, row))
  }

  // ------------------------------------------------------------------
  // When there is a value, when there is an answer
  // ------------------------------------------------------------------

  ghost predicate HasValue(h: Host, e: Expr, env: Env, row: Row)
    decreases e, if IsPredicate(e) then 1 else 0
  {
    match e
    case Literal(_) => true
    case Column(_, name) => InScope(env, row, name)
    case Unary(op, x) =>
      (match op
       case NotOp => HasAnswer(h, x, env, row)
       case MinusOp => HasValue(h, x, env, row) && (Denotes(h, x, env, row).Null? || Denotes(h, x, env, row).IsNumeric())
       case PlusOp => HasValue(h, x, env, row))
    case Binary(op, l, r) =>
      (match op
       case AddOp =>
         && HasValue(h, l, env, row) && HasValue(h, r, env, row)
         && Computable(h, ArithOp.Add, Denotes(h, l, env, row), Denotes(h, r, env, row))
       case SubOp =>
         && HasValue(h, l, env, row) && HasValue(h, r, env, row)
         && Computable(h, ArithOp.Sub, Denotes(h, l, env, row), Denotes(h, r, env, row))
       case MulOp =>
         && HasValue(h, l, env, row) && HasValue(h, r, env, row)
         && Computable(h, ArithOp.Mul, Denotes(h, l, env, row), Denotes(h, r, env, row))
       case DivOp =>
         && HasValue(h, l, env, row) && HasValue(h, r, env, row)
         && Computable(h, ArithOp.Div, Denotes(h, l, env, row), Denotes(h, r, env, row))
       case ModOp =>
         && HasValue(h, l, env, row) && HasValue(h, r, env, row)
         && Computable(h, ArithOp.Mod, Denotes(h, l, env, row), Denotes(h, r, env, row))
       case _ => HasAnswer(h, e, env, row))
    case IsNull(_, _) => HasAnswer(h, e, env, row)
    case Between(_, _, _, _) => HasAnswer(h, e, env, row)
    case In(_, _, _) => HasAnswer(h, e, env, row)
    case Like(_, _, _) => HasAnswer(h, e, env, row)
    case _ => false
  }

  predicate Texts(v: Value, w: Value) { v.Null? || w.Null? || (v.Text? && w.Text?) }

  predicate IsTruth(v: Value) { v.Null? || v.Bool? }

  /** FALSE AND and TRUE OR need no right operand, and IN no items after one that is equal. */
  ghost predicate HasAnswer(h: Host, e: Expr, env: Env, row: Row)
    decreases e, if IsPredicate(e) then 0 else 1
  {
    match e
    case Binary(op, l, r) =>
      if op.AndOp? then HasAnswer(h, l, env, row) && (Refuted(h, l, env, row) || HasAnswer(h, r, env, row))
      else if op.OrOp? then HasAnswer(h, l, env, row) && (Satisfied(h, l, env, row) || HasAnswer(h, r, env, row))
      else if IsPredicate(e) then
        HasValue(h, l, env, row) && HasValue(h, r, env, row) && Comparable(Denotes(h, l, env, row), Denotes(h, r, env, row))
      else HasValue(h, e, env, row) && IsTruth(Denotes(h, e, env, row))
    case Unary(op, x) =>
      if op.NotOp? then HasAnswer(h, x, env, row) else HasValue(h, e, env, row) && IsTruth(Denotes(h, e, env, row))
    case IsNull(x, _) => HasValue(h, x, env, row)
    case Between(x, lo, hi, _) =>
      && HasValue(h, x, env, row) && HasValue(h, lo, env, row) && HasValue(h, hi, env, row)
      && Comparable(Denotes(h, x, env, row), Denotes(h, lo, env, row))
      && Comparable(Denotes(h, x, env, row), Denotes(h, hi, env, row))
    case In(x, list, _) => HasValue(h, x, env, row) && ListAnswers(h, Denotes(h, x, env, row), list, env, row)
    case Like(x, p, _) =>
      && HasValue(h, x, env, row) && HasValue(h, p, env, row)
      && Texts(Denotes(h, x, env, row), Denotes(h, p, env, row))
    case _ => HasValue(h, e, env, row) && IsTruth(Denotes(h, e, env, row))
  }

  ghost predicate ListAnswers(h: Host, v: Value, list: seq<Expr>, env: Env, row: Row)
    decreases list, 0
  {
    list == [] ||
    (&& HasValue(h, list[0], env, row) && Comparable(v, Denotes(h, list[0], env, row))
     && (Compares(h, EqOp, v, Denotes(h, list[0], env, row)) || ListAnswers(h, v, list[1..], env, row)))
  }

  // ------------------------------------------------------------------
  // The evaluator
  // ------------------------------------------------------------------

  /** The evaluator's answer, if any, is what sat and ref say. */
  ghost predicate AnswerIs(r: Result<Bool3>, has: bool, sat: bool, ref: bool) {
    && (r.Ok? <==> has)
    && (r.Ok? ==> !(sat && ref) && (r.value.True? <==> sat) && (r.value.False? <==> ref))
  }

  ghost predicate ValueIs(r: Result<Value>, has: bool, v: Value) { (r.Ok? <==> has) && (r.Ok? ==> r.value == v) }

  lemma ComparisonMeans(h: Host, op: BinOp, a: Value, b: Value)
    requires Comparison(op).Some?
    ensures AnswerIs(CompareOp(h, Comparison(op).value, a, b), Comparable(a, b), Compares(h, op, a, b), Contradicts(h, op, a, b))
  {
    hide CompareOp, Comparable;
    CompareOpMeans(h, op, a, b);
  }

  lemma TruthMeans(v: Value)
    ensures AnswerIs(Truth(v), IsTruth(v), v == Bool(true), v == Bool(false))
  {
  }

  lemma MatchesIsCode(t: LikeMatch.Runes, p: LikeMatch.Runes)
    ensures Matches(t, p) <==> LikeMatch.CodeLike(t, p)
  {
    LikeMatch.LikeExact(t);
  }

  lemma LikeMeans(h: Host, v: Value, w: Value, not: bool)
    ensures var t := LikeValue(h, v, w);
            AnswerIs(if t.Ok? then Ok(Negated(t.value, not)) else t, Texts(v, w), Likes(h, v, w, !not), Likes(h, v, w, not))
  {
    hide Matches;
    if v.Text? && w.Text? {
      MatchesIsCode(h.runes(v.s), h.runes(w.s));
    }
  }

  lemma Otherwise(h: Host, v: Value, w: Value)
    ensures Compares(h, LtOp, v, w) <==> Contradicts(h, GeOp, v, w)
    ensures Compares(h, GtOp, v, w) <==> Contradicts(h, LeOp, v, w)
  {
  }

  lemma RangeMeans(h: Host, v: Value, a: Value, b: Value, not: bool)
    ensures var ge, le := CompareOp(h, CGe, v, a), CompareOp(h, CLe, v, b);
            var inside := Compares(h, GeOp, v, a) && Compares(h, LeOp, v, b);
            var outside := Compares(h, LtOp, v, a) || Compares(h, GtOp, v, b);
            && (ge.Ok? <==> Comparable(v, a)) && (le.Ok? <==> Comparable(v, b))
            && (ge.Ok? && le.Ok? ==>
                  AnswerIs(Ok(Negated(ge.value.And(le.value), not)), true, if not then outside else inside,
                           if not then inside else outside))
  {
    ComparisonMeans(h, GeOp, v, a);
    ComparisonMeans(h, LeOp, v, b);
    Otherwise(h, v, a);
    Otherwise(h, v, b);
    hide CompareOp, Comparable, Compares, Contradicts;
  }

  /** The IN loop, with what the items before have made of the answer. */
  lemma {:induction false} InMeans(h: Host, v: Value, list: seq<Expr>, out: Bool3, env: Env, row: Row)
    requires !out.True?
    ensures AnswerIs(EvalIn(h, v, list, out, env, row), ListAnswers(h, v, list, env, row),
                     SomeEqual(h, v, list, env, row), out.False? && NoneEqual(h, v, list, env, row))
    decreases list, 0
  {
    hide Denotes, HasValue, CompareOp, Comparable, SomeEqual, NoneEqual, EvalExpr, Compares, Contradicts;
    if list == [] {
      NoItems(h, v, env, row);
    } else {
      ExprMeans(h, list[0], env, row);
      InStep(h, v, list, env, row);
      var w := Denotes(h, list[0], env, row);
      ComparisonMeans(h, EqOp, v, w);
      EqualOrNot(h, v, w);
      if HasValue(h, list[0], env, row) && Comparable(v, w) && !Compares(h, EqOp, v, w) {
        InMeans(h, v, list[1..], out.Or(CompareOp(h, CEq, v, w).value), env, row);
      }
    }
  }

  lemma NoItems(h: Host, v: Value, env: Env, row: Row)
    ensures !SomeEqual(h, v, [], env, row) && NoneEqual(h, v, [], env, row)
  {
  }

  lemma EqualOrNot(h: Host, v: Value, w: Value)
    ensures Compares(h, NeOp, v, w) <==> Contradicts(h, EqOp, v, w)
  {
  }

  lemma InStep(h: Host, v: Value, list: seq<Expr>, env: Env, row: Row)
    requires list != []
    ensures SomeEqual(h, v, list, env, row) <==>
            Compares(h, EqOp, v, Denotes(h, list[0], env, row)) || SomeEqual(h, v, list[1..], env, row)
    ensures NoneEqual(h, v, list, env, row) <==>
            Compares(h, NeOp, v, Denotes(h, list[0], env, row)) && NoneEqual(h, v, list[1..], env, row)
  {
    hide Compares, Denotes;
    var rest := list[1..];
    assert forall i :: 0 <= i < |rest| ==> rest[i] == list[i + 1];
    if SomeEqual(h, v, rest, env, row) {
      var i :| 0 <= i < |rest| && Compares(h, EqOp, v, Denotes(h, rest[i], env, row));
      assert Compares(h, EqOp, v, Denotes(h, list[i + 1], env, row));
    }
    if NoneEqual(h, v, list, env, row) {
      forall i | 0 <= i < |rest| ensures Compares(h, NeOp, v, Denotes(h, rest[i], env, row)) {
        assert Compares(h, NeOp, v, Denotes(h, list[i + 1], env, row));
      }
    }
  }

  /** Evaluating an expression gives its value, whenever it has one. */
  lemma {:induction false} ExprMeans(h: Host, e: Expr, env: Env, row: Row)
    ensures ValueIs(EvalExpr(h, e, env, row), HasValue(h, e, env, row), Denotes(h, e, env, row))
    decreases e, if IsPredicate(e) then 1 else 0
  {
    hide Arith, Computable, Neg, Satisfied, Refuted, HasAnswer, EvalPredicate;
    match e
    case Literal(_) =>
    case Column(_, _) =>
    case Star =>
    case StarCall(_) =>
    case Call(_, _) =>
    case Unary(op, x) =>
      ExprMeans(h, x, env, row);
      NegMeans(Denotes(h, x, env, row));
      if op.NotOp? {
        ConditionMeans(h, x, env, row);
        NotMeans(h, x, env, row);
      }
    case Binary(op, l, r) =>
      if IsPredicate(e) {
        ConditionMeans(h, e, env, row);
      } else {
        ExprMeans(h, l, env, row);
        ExprMeans(h, r, env, row);
        ArithMeans(h, Arithmetic(op).value, Denotes(h, l, env, row), Denotes(h, r, env, row));
      }
    case _ => ConditionMeans(h, e, env, row);
  }

  /** NOT over a value is NOT over the condition. */
  lemma NotMeans(h: Host, x: Expr, env: Env, row: Row)
    requires ValueIs(EvalExpr(h, x, env, row), HasValue(h, x, env, row), Denotes(h, x, env, row))
    requires AnswerIs(EvalPredicate(h, x, env, row), HasAnswer(h, x, env, row), Satisfied(h, x, env, row),
                      Refuted(h, x, env, row))
    ensures HasAnswer(h, x, env, row) <==> HasValue(h, x, env, row) && IsTruth(Denotes(h, x, env, row))
    ensures HasAnswer(h, x, env, row) ==> Denotes(h, x, env, row) == AsValue(Satisfied(h, x, env, row), Refuted(h, x, env, row))
  {
  }

  /**
   * Evaluating a condition: TRUE if and only if it is satisfied, FALSE if and only if it is refuted,
   * UNKNOWN otherwise; and there is an answer, rather than an error, exactly when HasAnswer says so.
   */
  lemma {:induction false} ConditionMeans(h: Host, e: Expr, env: Env, row: Row)
    ensures AnswerIs(EvalPredicate(h, e, env, row), HasAnswer(h, e, env, row), Satisfied(h, e, env, row), Refuted(h, e, env, row))
    decreases e, if IsPredicate(e) then 0 else 1
  {
    hide Compares, Contradicts, Comparable, CompareOp, LikeValue, Likes, Texts, Truth, IsTruth, SomeEqual, NoneEqual, ListAnswers,
         Denotes, HasValue, EvalExpr;
    match e
    case Binary(op, l, r) =>
      if op.AndOp? || op.OrOp? {
        ConditionMeans(h, l, env, row);
        ConditionMeans(h, r, env, row);
      } else if Comparison(op).Some? {
        ExprMeans(h, l, env, row);
        ExprMeans(h, r, env, row);
        ComparisonMeans(h, op, Denotes(h, l, env, row), Denotes(h, r, env, row));
      } else {
        ExprMeans(h, e, env, row);
        TruthMeans(Denotes(h, e, env, row));
      }
    case Unary(op, x) =>
      if op.NotOp? {
        ConditionMeans(h, x, env, row);
      } else {
        ExprMeans(h, e, env, row);
        TruthMeans(Denotes(h, e, env, row));
      }
    case IsNull(x, _) => ExprMeans(h, x, env, row);
    case Between(x, lo, hi, not) =>
      ExprMeans(h, x, env, row);
      ExprMeans(h, lo, env, row);
      ExprMeans(h, hi, env, row);
      RangeMeans(h, Denotes(h, x, env, row), Denotes(h, lo, env, row), Denotes(h, hi, env, row), not);
    case In(x, list, not) =>
      ExprMeans(h, x, env, row);
      InMeans(h, Denotes(h, x, env, row), list, False, env, row);
    case Like(x, p, not) =>
      ExprMeans(h, x, env, row);
      ExprMeans(h, p, env, row);
      LikeMeans(h, Denotes(h, x, env, row), Denotes(h, p, env, row), not);
    case _ =>
      ExprMeans(h, e, env, row);
      TruthMeans(Denotes(h, e, env, row));
  }
}
