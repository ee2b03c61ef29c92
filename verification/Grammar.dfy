// Tokens, precedences and the printer (lexer/token.go, ast/print.go), at the level of tokens.
module Grammar {
  import opened Bytes
  import opened Values
  import opened Ast

  datatype Keyword = NotKw | IsKw | NullKw | BetweenKw | InKw | LikeKw | TrueKw | FalseKw | SelectKw | LimitKw | OffsetKw | OtherKw

  datatype Mark = LParen | RParen | Comma | Dot | OtherMark

  /**
   * Infix stands for every operator symbol and for AND and OR; minus, plus and star also occur as
   * prefix signs and in COUNT(*). A Decimal that does not fit is one of infinite magnitude.
   */
  datatype Token =
    | Number(n: nat)
    | Decimal(bits: bits64)
    | Str(s: bytes)
    | Word(s: bytes)
    | Infix(op: BinOp)
    | Kw(k: Keyword)
    | Mark(m: Mark)
    | End

  const PREC_LOWEST: nat := 0
  const PREC_OR: nat := 1
  const PREC_AND: nat := 2
  const PREC_NOT: nat := 3
  const PREC_COMPARE: nat := 4
  const PREC_ADD: nat := 5
  const PREC_MUL: nat := 6
  const PREC_UNARY: nat := 7
  const PREC_ATOM: nat := 8

  function BinaryPrecedence(op: BinOp): (p: nat)
    ensures 1 <= p <= 6 && p != PREC_NOT
    ensures p == PREC_COMPARE <==> Comparison(op).Some?
  {
    match op
    case OrOp => PREC_OR
    case AndOp => PREC_AND
    case AddOp => PREC_ADD
    case SubOp => PREC_ADD
    case MulOp => PREC_MUL
    case DivOp => PREC_MUL
    case ModOp => PREC_MUL
    case _ => PREC_COMPARE
  }

  function Precedence(e: Expr): nat {
    match e
    case Binary(op, _, _) => BinaryPrecedence(op)
    case Unary(op, _) => if op.NotOp? then PREC_NOT else PREC_UNARY
    case IsNull(_, _) => PREC_COMPARE
    case Between(_, _, _, _) => PREC_COMPARE
    case In(_, _, _) => PREC_COMPARE
    case Like(_, _, _) => PREC_COMPARE
    case _ => PREC_ATOM
  }

  // ------------------------------------------------------------------
  // The printer
  // ------------------------------------------------------------------

  const INF: bytes := [0x69, 0x6E, 0x66]
  const NAN: bytes := [0x6E, 0x61, 0x6E]

  predicate Finite(f: bits64) { Magnitude(f) < INF_MAGNITUDE }

  function PrintFloat(f: bits64): seq<Token> {
    if IsNaN(f) then [Word(NAN)]
    else if !Finite(f) then [Infix(if Negative(f) then SubOp else AddOp), Word(INF)]
    else if Negative(f) then [Infix(SubOp), Decimal(FlipSign(f))]
    else [Decimal(f)]
  }

  function PrintValue(v: Value): seq<Token> {
    match v
    case Null => [Kw(NullKw)]
    case Bool(b) => [Kw(if b then TrueKw else FalseKw)]
    case Int(i) => if i < 0 then [Infix(SubOp), Number(-(i as int))] else [Number(i)]
    case Float(f) => PrintFloat(f)
    case Text(s) => [Str(s)]
  }

  function PrintNot(not: bool): seq<Token> { if not then [Kw(NotKw)] else [] }

  function PrefixToken(op: UnOp): Token {
    match op
    case NotOp => Kw(NotKw)
    case MinusOp => Infix(SubOp)
    case PlusOp => Infix(AddOp)
  }

  /** A child, in parentheses only when it binds more loosely than its place requires. */
  function PrintSub(e: Expr, parent: nat): seq<Token>
    decreases e, 1
  {
    if Precedence(e) < parent then [Mark(LParen)] + Print(e) + [Mark(RParen)] else Print(e)
  }

  function Print(e: Expr): seq<Token>
    decreases e, 0
  {
    match e
    case Literal(v) => PrintValue(v)
    case Column(table, name) => if table == [] then [Word(name)] else [Word(table), Mark(Dot), Word(name)]
    case Star => [Infix(MulOp)]
    case Unary(op, x) => [PrefixToken(op)] + PrintSub(x, if op.NotOp? then PREC_NOT else PREC_UNARY)
    case Binary(op, l, r) => PrintSub(l, BinaryPrecedence(op)) + [Infix(op)] + PrintSub(r, BinaryPrecedence(op) + 1)
    case IsNull(x, not) => PrintSub(x, PREC_COMPARE) + [Kw(IsKw)] + PrintNot(not) + [Kw(NullKw)]
    case Between(x, lo, hi, not) =>
      PrintSub(x, PREC_COMPARE) + PrintNot(not) + [Kw(BetweenKw)] + PrintSub(lo, PREC_ADD) + [Infix(AndOp)] + PrintSub(hi, PREC_ADD)
    case In(x, list, not) =>
      PrintSub(x, PREC_COMPARE) + PrintNot(not) + [Kw(InKw), Mark(LParen)] + PrintList(list) + [Mark(RParen)]
    case Like(x, p, not) => PrintSub(x, PREC_COMPARE) + PrintNot(not) + [Kw(LikeKw)] + PrintSub(p, PREC_COMPARE)
    case StarCall(f) => [Word(f), Mark(LParen), Infix(MulOp), Mark(RParen)]
    case Call(f, x) => [Word(f), Mark(LParen)] + Print(x) + [Mark(RParen)]
  }

  function PrintList(list: seq<Expr>): seq<Token>
    decreases list
  {
    if list == [] then []
    else if |list| == 1 then Print(list[0])
    else Print(list[0]) + [Mark(Comma)] + PrintList(list[1..])
  }
}
