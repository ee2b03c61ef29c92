// Printing and parsing are inverse, exactly on the canonical trees (ast/print.go, parser/parser.go).
module Roundtrip {
  import opened Bytes
  import opened Values
  import opened Ast
  import opened Grammar
  import opened Parser

  predicate IsInfix(e: Expr) { e.Binary? || e.IsNull? || e.Between? || e.In? || e.Like? }

  function Left(e: Expr): (l: Expr)
    requires IsInfix(e)
    ensures l < e
  {
    match e
    case Binary(_, l, _) => l
    case IsNull(x, _) => x
    case Between(x, _, _, _) => x
    case In(x, _, _) => x
    case Like(x, _, _) => x
  }

  // ------------------------------------------------------------------
  // What printing and parsing make of a tree
  // ------------------------------------------------------------------

  /**
   * The tree as the parser will read its printed form. It differs only where a LIKE pattern is itself
   * a comparison, which prints without parentheses: the LIKE then takes the comparison's leftmost
   * operand for its pattern and becomes an operand of the comparison.
   */
  function Normal(e: Expr): Expr
    decreases e, 1
  {
    match e
    case Unary(op, x) => Unary(op, Normal(x))
    case Call(f, x) => Call(f, Normal(x))
    case Binary(_, l, _) => Rebuild(e, Normal(l))
    case IsNull(x, _) => Rebuild(e, Normal(x))
    case Between(x, _, _, _) => Rebuild(e, Normal(x))
    case In(x, _, _) => Rebuild(e, Normal(x))
    case Like(x, _, _) => Rebuild(e, Normal(x))
    case _ => e
  }

  /** The operator of e over a new left operand. */
  function Rebuild(e: Expr, x: Expr): Expr
    requires IsInfix(e)
    decreases e, 0
  {
    match e
    case Binary(op, _, r) => Binary(op, x, Normal(r))
    case IsNull(_, not) => IsNull(x, not)
    case Between(_, lo, hi, not) => Between(x, Normal(lo), Normal(hi), not)
    case In(_, list, not) => In(x, NormalList(list), not)
    case Like(_, p, not) => Graft(x, p, not)
  }

  function Graft(x: Expr, p: Expr, not: bool): Expr
    decreases p, 2
  {
    if Precedence(p) != PREC_COMPARE then Like(x, Normal(p), not) else Rebuild(p, Graft(x, Left(p), not))
  }

  function NormalList(es: seq<Expr>): (r: seq<Expr>)
    ensures |r| == |es|
    decreases es, 0
  {
    if es == [] then [] else [Normal(es[0])] + NormalList(es[1..])
  }

  lemma CompareIsInfix(p: Expr)
    ensures Precedence(p) == PREC_COMPARE ==> IsInfix(p)
    ensures IsInfix(p) ==> Precedence(p) <= PREC_MUL
  {
  }

  lemma {:induction false} RebuildShape(e: Expr, x: Expr)
    requires IsInfix(e)
    ensures IsInfix(Rebuild(e, x)) && Precedence(Rebuild(e, x)) == Precedence(e)
    decreases e, 0
  {
    if e.Like? {
      GraftShape(x, e.pattern, e.not);
    }
  }

  lemma {:induction false} GraftShape(x: Expr, p: Expr, not: bool)
    ensures IsInfix(Graft(x, p, not)) && Precedence(Graft(x, p, not)) == PREC_COMPARE
    decreases p, 1
  {
    if Precedence(p) == PREC_COMPARE {
      RebuildShape(p, Graft(x, Left(p), not));
    }
  }

  lemma NormalShape(e: Expr)
    ensures Precedence(Normal(e)) == Precedence(e)
    ensures Normal(e).Literal? <==> e.Literal?
    ensures e.Literal? ==> Normal(e) == e
  {
    if IsInfix(e) {
      RebuildShape(e, Normal(Left(e)));
    }
  }

  lemma {:induction false} NormalAggregates(e: Expr)
    ensures HasAggregate(Normal(e)) == HasAggregate(e)
    decreases e, 1
  {
    match e
    case Unary(_, x) => NormalAggregates(x);
    case Call(_, x) =>
    case Literal(_) =>
    case Column(_, _) =>
    case Star =>
    case StarCall(_) =>
    case _ =>
      NormalAggregates(Left(e));
      RebuildAggregates(e, Normal(Left(e)));
  }

  /** The aggregates of a rebuilt tree are those of the new operand and of the other operands. */
  lemma {:induction false} RebuildAggregates(e: Expr, x: Expr)
    requires IsInfix(e)
    ensures HasAggregate(x) == HasAggregate(Left(e)) ==> HasAggregate(Rebuild(e, x)) == HasAggregate(e)
    ensures HasAggregate(x) ==> HasAggregate(Rebuild(e, x))
    ensures HasAggregate(e) && !HasAggregate(Left(e)) ==> HasAggregate(Rebuild(e, x))
    ensures !HasAggregate(e) && !HasAggregate(x) ==> !HasAggregate(Rebuild(e, x))
    decreases e, 0
  {
    match e
    case Binary(_, _, r) => NormalAggregates(r);
    case IsNull(_, _) =>
    case Between(_, lo, hi, _) => NormalAggregates(lo); NormalAggregates(hi);
    case In(_, list, _) => ListAggregates(list);
    case Like(_, p, not) => GraftAggregates(x, p, not);
  }

  lemma {:induction false} GraftAggregates(x: Expr, p: Expr, not: bool)
    ensures HasAggregate(Graft(x, p, not)) == (HasAggregate(x) || HasAggregate(p))
    decreases p, 2
  {
    if Precedence(p) != PREC_COMPARE {
      NormalAggregates(p);
    } else {
      GraftAggregates(x, Left(p), not);
      RebuildAggregates(p, Graft(x, Left(p), not));
    }
  }

  lemma {:induction false} ListAggregates(es: seq<Expr>)
    ensures AnyAggregate(NormalList(es)) == AnyAggregate(es)
    decreases es, 0
  {
    if es != [] {
      NormalAggregates(es[0]);
      ListAggregates(es[1..]);
    }
  }

  // ------------------------------------------------------------------
  // Printing with a continuation
  // ------------------------------------------------------------------

  /** The printed form followed by more tokens. */
  function PrintTo(e: Expr, rest: seq<Token>): seq<Token>
    decreases e, 1
  {
    match e
    case Literal(v) => PrintValue(v) + rest
    case Column(table, name) => (if table == [] then [Word(name)] else [Word(table), Mark(Dot), Word(name)]) + rest
    case Star => [Infix(MulOp)] + rest
    case Unary(op, x) => [PrefixToken(op)] + SubTo(x, if op.NotOp? then PREC_NOT else PREC_UNARY, rest)
    case StarCall(f) => [Word(f), Mark(LParen), Infix(MulOp), Mark(RParen)] + rest
    case Call(f, x) => [Word(f), Mark(LParen)] + PrintTo(x, [Mark(RParen)] + rest)
    case Binary(_, l, _) => SubTo(l, Precedence(e), TailTo(e, rest))
    case IsNull(x, _) => SubTo(x, PREC_COMPARE, TailTo(e, rest))
    case Between(x, _, _, _) => SubTo(x, PREC_COMPARE, TailTo(e, rest))
    case In(x, _, _) => SubTo(x, PREC_COMPARE, TailTo(e, rest))
    case Like(x, _, _) => SubTo(x, PREC_COMPARE, TailTo(e, rest))
  }

  function SubTo(e: Expr, parent: nat, rest: seq<Token>): seq<Token>
    decreases e, 2
  {
    if Precedence(e) < parent then [Mark(LParen)] + PrintTo(e, [Mark(RParen)] + rest) else PrintTo(e, rest)
  }

  /** What comes after the left operand. */
  function TailTo(e: Expr, rest: seq<Token>): seq<Token>
    requires IsInfix(e)
    decreases e, 0
  {
    match e
    case Binary(op, _, r) => [Infix(op)] + SubTo(r, BinaryPrecedence(op) + 1, rest)
    case IsNull(_, not) => [Kw(IsKw)] + (PrintNot(not) + ([Kw(NullKw)] + rest))
    case Between(_, lo, hi, not) =>
      PrintNot(not) + ([Kw(BetweenKw)] + SubTo(lo, PREC_ADD, [Infix(AndOp)] + SubTo(hi, PREC_ADD, rest)))
    case In(_, list, not) =>
      PrintNot(not) + ([Kw(InKw)] + ([Mark(LParen)] + ListTo(list, [Mark(RParen)] + rest)))
    case Like(_, p, not) => PrintNot(not) + ([Kw(LikeKw)] + SubTo(p, PREC_COMPARE, rest))
  }

  function ListTo(es: seq<Expr>, rest: seq<Token>): seq<Token>
    decreases es, 0
  {
    if es == [] then rest
    else if |es| == 1 then PrintTo(es[0], rest)
    else PrintTo(es[0], [Mark(Comma)] + ListTo(es[1..], rest))
  }

  lemma {:induction false} PrintToIs(e: Expr, rest: seq<Token>)
    ensures PrintTo(e, rest) == Print(e) + rest
    decreases e, 1
  {
    match e
    case Unary(op, x) =>
      SubToIs(x, if op.NotOp? then PREC_NOT else PREC_UNARY, rest);
    case Call(_, x) =>
      PrintToIs(x, [Mark(RParen)] + rest);
    case Literal(_) =>
    case Column(_, _) =>
    case Star =>
    case StarCall(_) =>
    case _ =>
      SubToIs(Left(e), Precedence(e), TailTo(e, rest));
      TailToIs(e, rest);
  }

  lemma {:induction false} SubToIs(e: Expr, parent: nat, rest: seq<Token>)
    ensures SubTo(e, parent, rest) == PrintSub(e, parent) + rest
    decreases e, 2
  {
    PrintToIs(e, [Mark(RParen)] + rest);
    PrintToIs(e, rest);
  }

  lemma Join6(a: seq<Token>, b: seq<Token>, c: seq<Token>, d: seq<Token>, e: seq<Token>, f: seq<Token>, rest: seq<Token>)
    ensures a + (b + (c + (d + (e + (f + rest))))) == a + b + c + d + e + f + rest
  {
  }

  lemma Join4(a: seq<Token>, b: seq<Token>, c: seq<Token>, d: seq<Token>, rest: seq<Token>)
    ensures a + (b + (c + (d + rest))) == a + b + c + d + rest
  {
  }

  lemma {:induction false} TailToIs(e: Expr, rest: seq<Token>)
    requires IsInfix(e)
    ensures PrintSub(Left(e), Precedence(e)) + TailTo(e, rest) == Print(e) + rest
    decreases e, 0
  {
    var left := PrintSub(Left(e), Precedence(e));
    match e
    case Binary(op, l, r) =>
      SubToIs(r, BinaryPrecedence(op) + 1, rest);
      hide PrintSub, SubTo;
      Join4(left, [Infix(op)], PrintSub(r, BinaryPrecedence(op) + 1), [], rest);
      assert [] + rest == rest && Print(e) + [] == Print(e);
    case IsNull(_, not) =>
      hide PrintSub, SubTo, PrintNot;
      Join4(left, [Kw(IsKw)], PrintNot(not), [Kw(NullKw)], rest);
    case Between(_, lo, hi, not) =>
      SubToIs(hi, PREC_ADD, rest);
      SubToIs(lo, PREC_ADD, [Infix(AndOp)] + SubTo(hi, PREC_ADD, rest));
      hide PrintSub, SubTo, PrintNot;
      Join6(left, PrintNot(not), [Kw(BetweenKw)], PrintSub(lo, PREC_ADD), [Infix(AndOp)], PrintSub(hi, PREC_ADD), rest);
    case In(_, list, not) =>
      ListToIs(list, [Mark(RParen)] + rest);
      hide PrintSub, SubTo, PrintNot;
      Join6(left, PrintNot(not), [Kw(InKw)], [Mark(LParen)], PrintList(list), [Mark(RParen)], rest);
      assert left + PrintNot(not) + [Kw(InKw)] + [Mark(LParen)] == left + PrintNot(not) + [Kw(InKw), Mark(LParen)];
    case Like(_, p, not) =>
      SubToIs(p, PREC_COMPARE, rest);
      hide PrintSub, SubTo, PrintNot;
      Join4(left, PrintNot(not), [Kw(LikeKw)], PrintSub(p, PREC_COMPARE), rest);
  }

  lemma {:induction false} ListToIs(es: seq<Expr>, rest: seq<Token>)
    ensures ListTo(es, rest) == PrintList(es) + rest
    decreases es, 0
  {
    if |es| == 1 {
      PrintToIs(es[0], rest);
    } else if es != [] {
      ListToIs(es[1..], rest);
      PrintToIs(es[0], [Mark(Comma)] + ListTo(es[1..], rest));
    }
  }

  // ------------------------------------------------------------------
  // What may follow
  // ------------------------------------------------------------------

  predicate OpensPostfix(t: Token) {
    t == Kw(NotKw) || t == Kw(IsKw) || t == Kw(BetweenKw) || t == Kw(InKw) || t == Kw(LikeKw)
  }

  /** A climb at this precedence absorbs nothing of what follows. */
  predicate Stops(rest: seq<Token>, min: nat) {
    && (Peek(rest).Infix? ==> BinaryPrecedence(rest[0].op) < min)
    && (PREC_COMPARE >= min ==> !OpensPostfix(Peek(rest)))
  }

  /** What follows is neither an argument list nor a qualified name. */
  predicate Clear(rest: seq<Token>) { Peek(rest) != Mark(LParen) && Peek(rest) != Mark(Dot) }

  lemma PostfixStops(left: Expr, rest: seq<Token>)
    requires !OpensPostfix(Peek(rest))
    ensures Postfix(left, rest) == Ok((None, rest))
  {
  }

  lemma ClimbStops(left: Expr, rest: seq<Token>, min: nat)
    requires Stops(rest, min)
    ensures Climb(left, rest, min) == Ok((left, rest))
  {
    if PREC_COMPARE >= min {
      PostfixStops(left, rest);
    }
  }

  /** A climb over an infix operator it may absorb. */
  lemma ClimbOperator(left: Expr, ts: seq<Token>, min: nat, right: Expr, rest: seq<Token>)
    requires Peek(ts).Infix? && BinaryPrecedence(ts[0].op) >= min && ts[0].op != EqEqOp
    requires ParseExpr(ts[1..], BinaryPrecedence(ts[0].op) + 1) == Ok((right, rest))
    ensures Climb(left, ts, min) == Climb(Binary(ts[0].op, left, right), rest, min)
  {
    hide BinaryPrecedence;
    PostfixStops(left, ts);
  }

  lemma ClimbPostfix(left: Expr, ts: seq<Token>, min: nat, e: Expr, rest: seq<Token>)
    requires PREC_COMPARE >= min && Postfix(left, ts) == Ok((Some(e), rest))
    ensures Climb(left, ts, min) == Climb(e, rest, min)
  {
  }

  /** The word NOT before a postfix predicate only sets a flag. */
  lemma PostfixNot(left: Expr, not: bool, ts: seq<Token>)
    requires Peek(ts) == Kw(BetweenKw) || Peek(ts) == Kw(InKw) || Peek(ts) == Kw(LikeKw)
    ensures Postfix(left, PrintNot(not) + ts) == PostfixAfterNot(left, ts, not)
  {
    hide PostfixAfterNot;
    if not {
      assert ([Kw(NotKw)] + ts)[1..] == ts;
    } else {
      assert [] + ts == ts;
    }
  }

  // ------------------------------------------------------------------
  // The first token
  // ------------------------------------------------------------------

  /** An expression starts with neither a star nor SELECT, and not with a closing mark. */
  predicate Starts(t: Token) { t != Infix(MulOp) && t != Kw(SelectKw) && t != End }

  lemma {:induction false} FirstToken(e: Expr, rest: seq<Token>)
    requires Producible(e)
    ensures Starts(Peek(PrintTo(e, rest)))
    decreases e
  {
    if IsInfix(e) {
      FirstToken(Left(e), [Mark(RParen)] + TailTo(e, rest));
      FirstToken(Left(e), TailTo(e, rest));
    }
  }

  lemma FirstOfList(es: seq<Expr>, rest: seq<Token>)
    requires es != [] && AllProducible(es)
    ensures Starts(Peek(ListTo(es, rest)))
  {
    FirstToken(es[0], rest);
    FirstToken(es[0], [Mark(Comma)] + ListTo(es[1..], rest));
  }

  // ------------------------------------------------------------------
  // Parsing what was printed
  // ------------------------------------------------------------------

  /** Literals, columns and calls, and signs before them, are read without any climbing. */
  lemma LiteralParses(v: Value, rest: seq<Token>)
    requires ProducibleValue(v)
    ensures ParseUnary(PrintValue(v) + rest) == Ok((Literal(v), rest))
  {
    var ts := PrintValue(v) + rest;
    match v
    case Int(i) =>
      if i < 0 {
        SignedNumber(Number(-(i as int)), rest);
      } else {
        assert ts[1..] == rest;
      }
    case Float(f) =>
      if Negative(f) {
        SignedNumber(Decimal(FlipSign(f)), rest);
      } else {
        assert ts[1..] == rest;
      }
    case _ => assert ts[1..] == rest;
  }

  lemma SignedNumber(t: Token, rest: seq<Token>)
    requires t.Number? || t.Decimal?
    ensures ([Infix(SubOp), t] + rest)[1..] == [t] + rest && ([t] + rest)[1..] == rest
    ensures ParsePrimary([t] + rest).Ok? ==>
              ParseUnary([Infix(SubOp), t] + rest) ==
              Ok((Signed(true, ParsePrimary([t] + rest).value.0), ParsePrimary([t] + rest).value.1))
  {
    assert ([Infix(SubOp), t] + rest)[1..] == [t] + rest;
    assert ([t] + rest)[1..] == rest;
  }

  lemma ColumnParses(table: Name, name: Name, rest: seq<Token>)
    requires Clear(rest)
    ensures ParseUnary(PrintTo(Expr.Column(table, name), rest)) == Ok((Expr.Column(table, name), rest))
  {
    var ts := PrintTo(Expr.Column(table, name), rest);
    if table == [] {
      assert ts[1..] == rest;
    } else {
      assert ts[3..] == rest;
    }
  }

  predicate Capitals(f: bytes) { forall i :: 0 <= i < |f| ==> 0x41 <= f[i] <= 0x5A }

  lemma {:induction false} UpperCapitals(f: bytes)
    requires Capitals(f)
    ensures ToUpper(f) == f
  {
    if f != [] {
      UpperCapitals(f[1..]);
      assert f == [f[0]] + f[1..];
    }
  }

  lemma UpperAggregate(f: bytes)
    requires IsAggregate(f)
    ensures Capitals(f) && ToUpper(f) == f
  {
    UpperCapitals(f);
  }

  lemma ExpectHead(t: Token, rest: seq<Token>)
    ensures Expect([t] + rest, t) == Ok(rest)
  {
    assert ([t] + rest)[1..] == rest;
  }

  lemma StarCallParses(rest: seq<Token>)
    ensures ParseUnary(PrintTo(StarCall(COUNT), rest)) == Ok((StarCall(COUNT), rest))
  {
    var ts := PrintTo(StarCall(COUNT), rest);
    assert ts[3..] == [Mark(RParen)] + rest;
    ExpectHead(Mark(RParen), rest);
    UpperAggregate(COUNT);
    assert ParseCall(ts) == Ok((StarCall(COUNT), rest));
  }

  lemma CallParses(f: bytes, x: Expr, inner: seq<Token>, rest: seq<Token>)
    requires IsAggregate(f) && !HasAggregate(x) && Starts(Peek(inner))
    requires ParseExpr(inner, PREC_LOWEST) == Ok((x, [Mark(RParen)] + rest))
    ensures ParseUnary([Word(f), Mark(LParen)] + inner) == Ok((Call(f, x), rest))
  {
    hide ParseExpr, HasAggregate, ToUpper;
    var ts := [Word(f), Mark(LParen)] + inner;
    assert ts[2..] == inner;
    UpperAggregate(f);
    ExpectHead(Mark(RParen), rest);
    assert ParseCall(ts) == Ok((Call(f, x), rest));
  }

  lemma ParenthesesParse(x: Expr, inner: seq<Token>, rest: seq<Token>)
    requires ParseExpr(inner, PREC_LOWEST) == Ok((x, [Mark(RParen)] + rest))
    ensures ParseUnary([Mark(LParen)] + inner) == Ok((x, rest))
  {
    hide ParseExpr;
    assert ([Mark(LParen)] + inner)[1..] == inner;
    ExpectHead(Mark(RParen), rest);
  }

  lemma NotParses(x: Expr, inner: seq<Token>, rest: seq<Token>)
    requires ParseExpr(inner, PREC_NOT + 1) == Ok((x, rest))
    ensures ParseUnary([Kw(NotKw)] + inner) == Ok((Unary(NotOp, x), rest))
  {
    hide ParseExpr;
    assert ([Kw(NotKw)] + inner)[1..] == inner;
  }

  lemma MinusParses(x: Expr, inner: seq<Token>, rest: seq<Token>)
    requires ParseUnary(inner) == Ok((x, rest)) && !(x.Literal? && x.value.IsNumeric())
    ensures ParseUnary([Infix(SubOp)] + inner) == Ok((Unary(MinusOp, x), rest))
  {
    assert ([Infix(SubOp)] + inner)[1..] == inner;
  }

  lemma ExprIsUnary(ts: seq<Token>, min: nat, x: Expr, rest: seq<Token>)
    requires ParseUnary(ts) == Ok((x, rest))
    ensures ParseExpr(ts, min) == Climb(x, rest, min)
  {
  }

  lemma StopsAtParen(rest: seq<Token>, min: nat)
    ensures Stops([Mark(RParen)] + rest, min) && Clear([Mark(RParen)] + rest)
  {
  }

  /** In parentheses anything parses, whatever follows. */
  lemma {:induction false} ParenParses(e: Expr, rest: seq<Token>)
    requires Producible(e)
    ensures ParseUnary([Mark(LParen)] + PrintTo(e, [Mark(RParen)] + rest)) == Ok((Normal(e), rest))
    decreases e, 2
  {
    hide *;
    StopsAtParen(rest, Precedence(e) + 1);
    StopsAtParen(rest, PREC_LOWEST);
    LowestFits(e);
    ExprParses(e, PREC_LOWEST, [Mark(RParen)] + rest);
    ClimbStops(Normal(e), [Mark(RParen)] + rest, PREC_LOWEST);
    ParenthesesParse(Normal(e), PrintTo(e, [Mark(RParen)] + rest), rest);
  }

  lemma LowestFits(e: Expr)
    ensures PREC_LOWEST <= Precedence(e)
  {
  }

  /** Prefix operators and primaries. */
  lemma {:induction false} UnaryParses(e: Expr, rest: seq<Token>)
    requires Producible(e) && !IsInfix(e) && Stops(rest, Precedence(e) + 1) && Clear(rest)
    ensures ParseUnary(PrintTo(e, rest)) == Ok((Normal(e), rest))
    decreases e, 0
  {
    match e
    case Literal(v) =>
      LiteralParses(v, rest);
    case Column(table, name) =>
      ColumnParses(table, name, rest);
    case StarCall(_) =>
      StarCallParses(rest);
    case Call(f, x) =>
      CallCase(f, x, rest);
    case Unary(op, x) =>
      if op.NotOp? {
        SubParses(x, PREC_NOT, PREC_NOT + 1, rest);
        ClimbStops(Normal(x), rest, PREC_NOT + 1);
        NotParses(Normal(x), SubTo(x, PREC_NOT, rest), rest);
      } else {
        NormalShape(x);
        if Precedence(x) < PREC_UNARY {
          ParenParses(x, rest);
        } else {
          CompareIsInfix(x);
          UnaryParses(x, rest);
        }
        hide ParseUnary;
        MinusParses(Normal(x), SubTo(x, PREC_UNARY, rest), rest);
      }
  }

  lemma {:induction false} CallCase(f: bytes, x: Expr, rest: seq<Token>)
    requires IsAggregate(f) && Producible(x) && !HasAggregate(x)
    ensures ParseUnary([Word(f), Mark(LParen)] + PrintTo(x, [Mark(RParen)] + rest)) == Ok((Call(f, Normal(x)), rest))
    decreases x, 9
  {
    hide *;
    StopsAtParen(rest, Precedence(x) + 1);
    StopsAtParen(rest, PREC_LOWEST);
    LowestFits(x);
    ExprParses(x, PREC_LOWEST, [Mark(RParen)] + rest);
    ClimbStops(Normal(x), [Mark(RParen)] + rest, PREC_LOWEST);
    FirstToken(x, [Mark(RParen)] + rest);
    NormalAggregates(x);
    CallParses(f, Normal(x), PrintTo(x, [Mark(RParen)] + rest), rest);
  }

  /**
   * The printed form of e, then whatever comes next, is read as e and then climbed on from there.
   */
  lemma {:induction false} ExprParses(e: Expr, min: nat, rest: seq<Token>)
    requires Producible(e) && (IsInfix(e) ==> min <= Precedence(e)) && Stops(rest, Precedence(e) + 1) && Clear(rest)
    ensures ParseExpr(PrintTo(e, rest), min) == Climb(Normal(e), rest, min)
    decreases e, 1
  {
    if IsInfix(e) {
      InfixParses(e, min, rest);
    } else {
      UnaryParses(e, rest);
      ExprIsUnary(PrintTo(e, rest), min, Normal(e), rest);
    }
  }

  lemma InfixUnfolds(e: Expr, rest: seq<Token>)
    requires IsInfix(e)
    ensures PrintTo(e, rest) == SubTo(Left(e), Precedence(e), TailTo(e, rest))
    ensures Normal(e) == Rebuild(e, Normal(Left(e)))
    ensures Producible(e) ==> Producible(Left(e))
    ensures Stops(TailTo(e, rest), Precedence(e) + 1) && Clear(TailTo(e, rest))
  {
  }

  lemma {:induction false} InfixParses(e: Expr, min: nat, rest: seq<Token>)
    requires Producible(e) && IsInfix(e) && min <= Precedence(e) && Stops(rest, Precedence(e) + 1) && Clear(rest)
    ensures ParseExpr(PrintTo(e, rest), min) == Climb(Normal(e), rest, min)
    decreases e, 0, 2
  {
    hide *;
    InfixUnfolds(e, rest);
    SubParses(Left(e), Precedence(e), min, TailTo(e, rest));
    TailParses(e, Normal(Left(e)), min, rest);
  }

  lemma SubUnfolds(e: Expr, parent: nat, rest: seq<Token>)
    ensures SubTo(e, parent, rest) ==
            if Precedence(e) < parent then [Mark(LParen)] + PrintTo(e, [Mark(RParen)] + rest) else PrintTo(e, rest)
    ensures IsInfix(e) ==> Precedence(e) != PREC_NOT
    ensures forall k: nat, l: nat :: Stops(rest, k) && k <= l ==> Stops(rest, l)
  {
  }

  lemma {:induction false} SubParses(e: Expr, parent: nat, min: nat, rest: seq<Token>)
    requires Producible(e) && (min <= parent || (parent == PREC_NOT && min == PREC_NOT + 1))
    requires Stops(rest, parent + 1) && Clear(rest)
    ensures ParseExpr(SubTo(e, parent, rest), min) == Climb(Normal(e), rest, min)
    decreases e, 3
  {
    hide *;
    SubUnfolds(e, parent, rest);
    if Precedence(e) < parent {
      ParenParses(e, rest);
      ExprIsUnary(SubTo(e, parent, rest), min, Normal(e), rest);
    } else {
      ExprParses(e, min, rest);
    }
  }

  lemma StopsLater(rest: seq<Token>, k: nat, l: nat)
    requires Stops(rest, k) && k <= l
    ensures Stops(rest, l)
  {
  }

  /** An operand on the right is read up to where it was printed to. */
  lemma {:induction false} OperandParses(e: Expr, parent: nat, rest: seq<Token>)
    requires Producible(e) && Stops(rest, parent) && Clear(rest)
    ensures ParseExpr(SubTo(e, parent, rest), parent) == Ok((Normal(e), rest))
    decreases e, 4
  {
    hide *;
    StopsLater(rest, parent, parent + 1);
    SubParses(e, parent, parent, rest);
    ClimbStops(Normal(e), rest, parent);
  }

  /** The rest of an infix expression, read onto whatever stands to its left. */
  lemma {:induction false} TailParses(e: Expr, x: Expr, min: nat, rest: seq<Token>)
    requires Producible(e) && IsInfix(e) && min <= Precedence(e) && Stops(rest, Precedence(e) + 1) && Clear(rest)
    ensures Climb(x, TailTo(e, rest), min) == Climb(Rebuild(e, x), rest, min)
    decreases e, 0, 1
  {
    match e
    case Binary(op, _, r) =>
      BinaryTail(op, r, x, min, rest);
    case IsNull(_, not) =>
      IsNullTail(x, not, rest);
      ClimbPostfix(x, TailTo(e, rest), min, IsNull(x, not), rest);
    case Between(_, lo, hi, not) =>
      BetweenTail(e, lo, hi, not, x, rest);
      ClimbPostfix(x, TailTo(e, rest), min, Between(x, Normal(lo), Normal(hi), not), rest);
    case In(_, list, not) =>
      InTail(list, not, x, rest);
      ClimbPostfix(x, TailTo(e, rest), min, In(x, NormalList(list), not), rest);
    case Like(_, p, not) =>
      GraftParses(x, p, not, min, rest);
  }

  lemma {:induction false} BinaryTail(op: BinOp, r: Expr, x: Expr, min: nat, rest: seq<Token>)
    requires !op.EqEqOp? && Producible(r) && min <= BinaryPrecedence(op)
    requires Stops(rest, BinaryPrecedence(op) + 1) && Clear(rest)
    ensures Climb(x, [Infix(op)] + SubTo(r, BinaryPrecedence(op) + 1, rest), min) == Climb(Binary(op, x, Normal(r)), rest, min)
    decreases r, 5
  {
    hide ParseExpr, Climb, SubTo, Normal, Producible, Stops, Clear;
    var ts := [Infix(op)] + SubTo(r, BinaryPrecedence(op) + 1, rest);
    assert ts[1..] == SubTo(r, BinaryPrecedence(op) + 1, rest);
    OperandParses(r, BinaryPrecedence(op) + 1, rest);
    ClimbOperator(x, ts, min, Normal(r), rest);
  }

  lemma IsNullTail(x: Expr, not: bool, rest: seq<Token>)
    ensures Postfix(x, [Kw(IsKw)] + (PrintNot(not) + ([Kw(NullKw)] + rest))) == Ok((Some(IsNull(x, not)), rest))
  {
    var ts := [Kw(IsKw)] + (PrintNot(not) + ([Kw(NullKw)] + rest));
    ExpectHead(Kw(NullKw), rest);
    if not {
      assert ts[2..] == [Kw(NullKw)] + rest;
    } else {
      assert ts[1..] == [Kw(NullKw)] + rest;
    }
  }

  lemma {:induction false} BetweenTail(e: Expr, lo: Expr, hi: Expr, not: bool, x: Expr, rest: seq<Token>)
    requires e.Between? && lo == e.lo && hi == e.hi && Producible(lo) && Producible(hi) && Stops(rest, PREC_ADD) && Clear(rest)
    ensures Postfix(x, PrintNot(not) + ([Kw(BetweenKw)] + SubTo(lo, PREC_ADD, [Infix(AndOp)] + SubTo(hi, PREC_ADD, rest)))) ==
            Ok((Some(Between(x, Normal(lo), Normal(hi), not)), rest))
    decreases e, 0, 0
  {
    var more := SubTo(hi, PREC_ADD, rest);
    var mid := [Infix(AndOp)] + more;
    var ts := [Kw(BetweenKw)] + SubTo(lo, PREC_ADD, mid);
    assert ts[1..] == SubTo(lo, PREC_ADD, mid);
    assert Stops(mid, PREC_ADD) && Clear(mid);
    hide ParseExpr, SubTo, Normal, Producible, Stops, Clear, Postfix;
    PostfixNot(x, not, ts);
    OperandParses(lo, PREC_ADD, mid);
    OperandParses(hi, PREC_ADD, rest);
    ExpectHead(Infix(AndOp), more);
  }

  lemma {:induction false} InTail(list: seq<Expr>, not: bool, x: Expr, rest: seq<Token>)
    requires list != [] && AllProducible(list)
    ensures Postfix(x, PrintNot(not) + ([Kw(InKw)] + ([Mark(LParen)] + ListTo(list, [Mark(RParen)] + rest)))) ==
            Ok((Some(In(x, NormalList(list), not)), rest))
    decreases list, 5
  {
    var inner := ListTo(list, [Mark(RParen)] + rest);
    var ts := [Kw(InKw)] + ([Mark(LParen)] + inner);
    assert ts[1..] == [Mark(LParen)] + inner;
    FirstOfList(list, [Mark(RParen)] + rest);
    hide ParseList, ListTo, NormalList, AllProducible, Postfix;
    PostfixNot(x, not, ts);
    ExpectHead(Mark(LParen), inner);
    ListParses(list, [Mark(RParen)] + rest);
    ExpectHead(Mark(RParen), rest);
  }

  lemma {:induction false} ListParses(es: seq<Expr>, rest: seq<Token>)
    requires es != [] && AllProducible(es) && Peek(rest) == Mark(RParen)
    ensures ParseList(ListTo(es, rest)) == Ok((NormalList(es), rest))
    decreases es, 4
  {
    var follow := if |es| == 1 then rest else [Mark(Comma)] + ListTo(es[1..], rest);
    LowestFits(es[0]);
    ExprParses(es[0], PREC_LOWEST, follow);
    ClimbStops(Normal(es[0]), follow, PREC_LOWEST);
    assert ParseExpr(ListTo(es, rest), PREC_LOWEST) == Ok((Normal(es[0]), follow));
    if |es| > 1 {
      assert follow[1..] == ListTo(es[1..], rest);
      ListParses(es[1..], rest);
    } else {
      assert es[1..] == [];
      assert NormalList(es) == [Normal(es[0])];
    }
  }

  /** LIKE and its pattern; a comparison for a pattern gives up its leftmost operand. */
  lemma {:induction false} GraftParses(x: Expr, p: Expr, not: bool, min: nat, rest: seq<Token>)
    requires Producible(p) && min <= PREC_COMPARE && Stops(rest, PREC_COMPARE + 1) && Clear(rest)
    ensures Climb(x, PrintNot(not) + ([Kw(LikeKw)] + SubTo(p, PREC_COMPARE, rest)), min) == Climb(Graft(x, p, not), rest, min)
    decreases p, 6
  {
    hide ParseExpr, Climb, SubTo, TailTo, PrintTo, Normal, Producible, Stops, Clear, Rebuild, Precedence;
    if Precedence(p) == PREC_COMPARE {
      CompareIsInfix(p);
      InfixUnfolds(p, rest);
      SubUnfolds(p, PREC_COMPARE, rest);
      GraftParses(x, Left(p), not, min, TailTo(p, rest));
      TailParses(p, Graft(x, Left(p), not), min, rest);
    } else {
      PatternParses(p, rest);
      LikeTail(x, p, not, SubTo(p, PREC_COMPARE, rest), rest);
      ClimbPostfix(x, PrintNot(not) + ([Kw(LikeKw)] + SubTo(p, PREC_COMPARE, rest)), min, Like(x, Normal(p), not), rest);
    }
  }

  lemma LikeTail(x: Expr, p: Expr, not: bool, inner: seq<Token>, rest: seq<Token>)
    requires ParseExpr(inner, PREC_COMPARE + 1) == Ok((Normal(p), rest))
    ensures Postfix(x, PrintNot(not) + ([Kw(LikeKw)] + inner)) == Ok((Some(Like(x, Normal(p), not)), rest))
  {
    hide ParseExpr, Normal, Postfix;
    assert ([Kw(LikeKw)] + inner)[1..] == inner;
    PostfixNot(x, not, [Kw(LikeKw)] + inner);
  }

  /** Any other pattern is printed as tightly as it is read. */
  lemma {:induction false} PatternParses(p: Expr, rest: seq<Token>)
    requires Producible(p) && Precedence(p) != PREC_COMPARE && Stops(rest, PREC_COMPARE + 1) && Clear(rest)
    ensures ParseExpr(SubTo(p, PREC_COMPARE, rest), PREC_COMPARE + 1) == Ok((Normal(p), rest))
    decreases p, 5
  {
    hide ParseExpr, Climb, SubTo, Normal, Producible, Stops, Clear, Precedence;
    SubUnfolds(p, PREC_COMPARE, rest);
    SubUnfolds(p, PREC_COMPARE + 1, rest);
    OperandParses(p, PREC_COMPARE + 1, rest);
  }

  // ------------------------------------------------------------------
  // When nothing is grafted
  // ------------------------------------------------------------------

  /** No LIKE pattern anywhere in the tree is itself a comparison. */
  predicate NoComparePattern(e: Expr)
    decreases e, 1
  {
    match e
    case Unary(_, x) => NoComparePattern(x)
    case Call(_, x) => NoComparePattern(x)
    case Binary(_, l, _) => NoComparePattern(l) && RestClean(e)
    case IsNull(x, _) => NoComparePattern(x) && RestClean(e)
    case Between(x, _, _, _) => NoComparePattern(x) && RestClean(e)
    case In(x, _, _) => NoComparePattern(x) && RestClean(e)
    case Like(x, _, _) => NoComparePattern(x) && RestClean(e)
    case _ => true
  }

  /** The same of everything but the left operand. */
  predicate RestClean(e: Expr)
    requires IsInfix(e)
    decreases e, 0
  {
    match e
    case Binary(_, _, r) => NoComparePattern(r)
    case IsNull(_, _) => true
    case Between(_, lo, hi, _) => NoComparePattern(lo) && NoComparePattern(hi)
    case In(_, list, _) => ListClean(list)
    case Like(_, p, _) => Precedence(p) != PREC_COMPARE && NoComparePattern(p)
  }

  predicate ListClean(es: seq<Expr>)
    decreases es, 0
  {
    es == [] || (NoComparePattern(es[0]) && ListClean(es[1..]))
  }

  lemma {:induction false} NormalIdentity(e: Expr)
    requires NoComparePattern(e)
    ensures Normal(e) == e
    decreases e
  {
    match e
    case Unary(_, x) => NormalIdentity(x);
    case Call(_, x) => NormalIdentity(x);
    case Binary(_, l, r) => NormalIdentity(l); NormalIdentity(r);
    case IsNull(x, _) => NormalIdentity(x);
    case Between(x, lo, hi, _) => NormalIdentity(x); NormalIdentity(lo); NormalIdentity(hi);
    case In(x, list, _) => NormalIdentity(x); ListIdentity(list);
    case Like(x, p, not) =>
      NormalIdentity(x);
      NormalIdentity(p);
      assert Rebuild(e, x) == Graft(x, p, not);
    case _ =>
  }

  lemma {:induction false} ListIdentity(es: seq<Expr>)
    requires ListClean(es)
    ensures NormalList(es) == es
    decreases es
  {
    if es != [] {
      NormalIdentity(es[0]);
      ListIdentity(es[1..]);
    }
  }

  function Size(e: Expr): (n: nat)
    ensures n > 0
    decreases e, 1
  {
    match e
    case Unary(_, x) => 1 + Size(x)
    case Call(_, x) => 1 + Size(x)
    case Binary(_, l, _) => Size(l) + RestSize(e)
    case IsNull(x, _) => Size(x) + RestSize(e)
    case Between(x, _, _, _) => Size(x) + RestSize(e)
    case In(x, _, _) => Size(x) + RestSize(e)
    case Like(x, _, _) => Size(x) + RestSize(e)
    case _ => 1
  }

  function RestSize(e: Expr): (n: nat)
    requires IsInfix(e)
    ensures n > 0
    decreases e, 0
  {
    match e
    case Binary(_, _, r) => 1 + Size(r)
    case IsNull(_, _) => 1
    case Between(_, lo, hi, _) => 1 + Size(lo) + Size(hi)
    case In(_, list, _) => 1 + ListSize(list)
    case Like(_, p, _) => 1 + Size(p)
  }

  function ListSize(es: seq<Expr>): nat
    decreases es, 0
  {
    if es == [] then 0 else Size(es[0]) + ListSize(es[1..])
  }

  lemma {:induction false} NormalSize(e: Expr)
    ensures Size(Normal(e)) == Size(e)
    decreases e, 1
  {
    match e
    case Unary(_, x) => NormalSize(x);
    case Call(_, x) => NormalSize(x);
    case Literal(_) =>
    case Column(_, _) =>
    case Star =>
    case StarCall(_) =>
    case _ =>
      NormalSize(Left(e));
      RebuildSize(e, Normal(Left(e)));
  }

  lemma {:induction false} RebuildSize(e: Expr, x: Expr)
    requires IsInfix(e)
    ensures Size(Rebuild(e, x)) == Size(x) + RestSize(e)
    decreases e, 0
  {
    match e
    case Binary(_, _, r) => NormalSize(r);
    case IsNull(_, _) =>
    case Between(_, lo, hi, _) => NormalSize(lo); NormalSize(hi);
    case In(_, list, _) => ListSizes(list);
    case Like(_, p, not) => GraftSize(x, p, not);
  }

  lemma {:induction false} GraftSize(x: Expr, p: Expr, not: bool)
    ensures Size(Graft(x, p, not)) == Size(x) + 1 + Size(p)
    decreases p, 2
  {
    if Precedence(p) != PREC_COMPARE {
      NormalSize(p);
    } else {
      GraftSize(x, Left(p), not);
      RebuildSize(p, Graft(x, Left(p), not));
    }
  }

  lemma {:induction false} ListSizes(es: seq<Expr>)
    ensures ListSize(NormalList(es)) == ListSize(es)
    decreases es, 0
  {
    if es != [] {
      NormalSize(es[0]);
      ListSizes(es[1..]);
    }
  }

  /** How much text stands in LIKE patterns, counted once for each LIKE around it. */
  function Mass(e: Expr): nat
    decreases e, 1
  {
    match e
    case Unary(_, x) => Mass(x)
    case Call(_, x) => Mass(x)
    case Binary(_, l, _) => Mass(l) + RestMass(e)
    case IsNull(x, _) => Mass(x) + RestMass(e)
    case Between(x, _, _, _) => Mass(x) + RestMass(e)
    case In(x, _, _) => Mass(x) + RestMass(e)
    case Like(x, _, _) => Mass(x) + RestMass(e)
    case _ => 0
  }

  function RestMass(e: Expr): nat
    requires IsInfix(e)
    decreases e, 0
  {
    match e
    case Binary(_, _, r) => Mass(r)
    case IsNull(_, _) => 0
    case Between(_, lo, hi, _) => Mass(lo) + Mass(hi)
    case In(_, list, _) => ListMass(list)
    case Like(_, p, _) => Mass(p) + Size(p)
  }

  function ListMass(es: seq<Expr>): nat
    decreases es, 0
  {
    if es == [] then 0 else Mass(es[0]) + ListMass(es[1..])
  }

  /** Reading the printed form back never adds to the patterns, and takes from them if it moves anything. */
  lemma {:induction false} NormalMass(e: Expr)
    ensures Mass(Normal(e)) <= Mass(e)
    ensures !NoComparePattern(e) ==> Mass(Normal(e)) < Mass(e)
    decreases e, 1
  {
    match e
    case Unary(_, x) => NormalMass(x);
    case Call(_, x) => NormalMass(x);
    case Literal(_) =>
    case Column(_, _) =>
    case Star =>
    case StarCall(_) =>
    case _ =>
      NormalMass(Left(e));
      RebuildMass(e, Normal(Left(e)));
  }

  lemma {:induction false} RebuildMass(e: Expr, x: Expr)
    requires IsInfix(e)
    ensures Mass(Rebuild(e, x)) <= Mass(x) + RestMass(e)
    ensures !RestClean(e) ==> Mass(Rebuild(e, x)) < Mass(x) + RestMass(e)
    decreases e, 0
  {
    match e
    case Binary(_, _, r) => NormalMass(r);
    case IsNull(_, _) =>
    case Between(_, lo, hi, _) => NormalMass(lo); NormalMass(hi);
    case In(_, list, _) => ListMasses(list);
    case Like(_, p, not) => GraftMass(x, p, not);
  }

  lemma SizeSplit(p: Expr)
    requires IsInfix(p)
    ensures Size(p) == Size(Left(p)) + RestSize(p) && Mass(p) == Mass(Left(p)) + RestMass(p)
  {
  }

  lemma {:induction false} GraftMass(x: Expr, p: Expr, not: bool)
    ensures Mass(Graft(x, p, not)) <= Mass(x) + Mass(p) + Size(p)
    ensures Precedence(p) == PREC_COMPARE || !NoComparePattern(p) ==> Mass(Graft(x, p, not)) < Mass(x) + Mass(p) + Size(p)
    decreases p, 2
  {
    if Precedence(p) != PREC_COMPARE {
      NormalMass(p);
      NormalSize(p);
    } else {
      GraftMass(x, Left(p), not);
      RebuildMass(p, Graft(x, Left(p), not));
      SizeSplit(p);
    }
  }

  lemma {:induction false} ListMasses(es: seq<Expr>)
    ensures ListMass(NormalList(es)) <= ListMass(es)
    ensures !ListClean(es) ==> ListMass(NormalList(es)) < ListMass(es)
    decreases es, 0
  {
    if es != [] {
      NormalMass(es[0]);
      ListMasses(es[1..]);
    }
  }

  // ------------------------------------------------------------------
  // The round trip
  // ------------------------------------------------------------------

  /** Every tree the parser can produce prints to something that parses, to its normal form. */
  lemma PrintParses(e: Expr)
    requires Producible(e)
    ensures Parse(Print(e)) == Ok(Normal(e))
  {
    hide ParseExpr, PrintTo, Print, Normal, Producible, Precedence;
    PrintToIs(e, []);
    assert Print(e) + [] == Print(e);
    LowestFits(e);
    ExprParses(e, PREC_LOWEST, []);
    ClimbStops(Normal(e), [], PREC_LOWEST);
  }

  predicate Canonical(e: Expr) { Producible(e) && NoComparePattern(e) }

  /** Parsing the printed form gives the tree back, exactly when the tree is canonical. */
  lemma RoundTripExact(e: Expr)
    ensures Parse(Print(e)) == Ok(e) <==> Canonical(e)
  {
    hide Print, Normal, Producible, NoComparePattern, ParseExpr;
    if Producible(e) {
      PrintParses(e);
      NormalMass(e);
      if NoComparePattern(e) {
        NormalIdentity(e);
      }
    }
  }

  /** Canonical trees with one printed form are one tree, so binding by printed text is binding by tree. */
  lemma PrintInjective(a: Expr, b: Expr)
    requires Canonical(a) && Canonical(b) && Print(a) == Print(b)
    ensures a == b
  {
    RoundTripExact(a);
    RoundTripExact(b);
  }

  /** Whatever the parser accepts prints to something it reads the same way, unless a LIKE is moved. */
  lemma ReparseStable(ts: seq<Token>)
    requires Parse(ts).Ok?
    ensures Parse(Print(Parse(ts).value)) == Ok(Parse(ts).value) <==> NoComparePattern(Parse(ts).value)
  {
    RoundTripExact(Parse(ts).value);
  }

  /** `a LIKE (b = c)` loses its parentheses when printed and reads back as `(a LIKE b) = c`. */
  lemma PatternMoves()
    ensures var a, b, c := Expr.Column([], [0x61]), Expr.Column([], [0x62]), Expr.Column([], [0x63]);
            Parse(Print(Like(a, Binary(EqOp, b, c), false))) == Ok(Binary(EqOp, Like(a, b, false), c))
  {
    var a, b, c := Expr.Column([], [0x61]), Expr.Column([], [0x62]), Expr.Column([], [0x63]);
    PrintParses(Like(a, Binary(EqOp, b, c), false));
  }
}
