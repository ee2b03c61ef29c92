// Expression trees (ast/ast.go).
module Ast {
  import opened Bytes
  import opened Values

  /** Identifiers are byte strings; "" is the absent table qualifier. */
  type Name = bytes

  datatype UnOp = NotOp | MinusOp | PlusOp

  datatype BinOp =
    | AndOp | OrOp
    | EqOp | EqEqOp | NeOp | LtGtOp | LtOp | LeOp | GtOp | GeOp
    | AddOp | SubOp | MulOp | DivOp | ModOp

  datatype Expr =
    | Literal(value: Value)
    | Column(table: Name, name: Name)
    | Star
    | Unary(unop: UnOp, operand: Expr)
    | Binary(op: BinOp, left: Expr, right: Expr)
    | IsNull(expr: Expr, not: bool)
    | Between(expr: Expr, lo: Expr, hi: Expr, not: bool)
    | In(expr: Expr, list: seq<Expr>, not: bool)
    | Like(expr: Expr, pattern: Expr, not: bool)
    | StarCall(func: Name)
    | Call(func: Name, arg: Expr)

  function Comparison(op: BinOp): Option<CmpKind> {
    match op
    case EqOp => Some(CEq)
    case EqEqOp => Some(CEq)
    case NeOp => Some(CNe)
    case LtGtOp => Some(CNe)
    case LtOp => Some(CLt)
    case LeOp => Some(CLe)
    case GtOp => Some(CGt)
    case GeOp => Some(CGe)
    case _ => None
  }

  function Arithmetic(op: BinOp): Option<ArithOp> {
    match op
    case AddOp => Some(ArithOp.Add)
    case SubOp => Some(ArithOp.Sub)
    case MulOp => Some(ArithOp.Mul)
    case DivOp => Some(ArithOp.Div)
    case ModOp => Some(ArithOp.Mod)
    case _ => None
  }

  /** The columns an expression mentions, aggregate arguments included. */
  function Columns(e: Expr): set<Name> {
    match e
    case Literal(_) => {}
    case Column(_, name) => {name}
    case Star => {}
    case Unary(_, x) => Columns(x)
    case Binary(_, l, r) => Columns(l) + Columns(r)
    case IsNull(x, _) => Columns(x)
    case Between(x, lo, hi, _) => Columns(x) + Columns(lo) + Columns(hi)
    case In(x, list, _) => Columns(x) + ColumnsOf(list)
    case Like(x, p, _) => Columns(x) + Columns(p)
    case StarCall(_) => {}
    case Call(_, x) => Columns(x)
  }

  function ColumnsOf(es: seq<Expr>): set<Name> {
    if es == [] then {} else Columns(es[0]) + ColumnsOf(es[1..])
  }

  predicate HasAggregate(e: Expr) {
    match e
    case Literal(_) => false
    case Column(_, _) => false
    case Star => false
    case Unary(_, x) => HasAggregate(x)
    case Binary(_, l, r) => HasAggregate(l) || HasAggregate(r)
    case IsNull(x, _) => HasAggregate(x)
    case Between(x, lo, hi, _) => HasAggregate(x) || HasAggregate(lo) || HasAggregate(hi)
    case In(x, list, _) => HasAggregate(x) || AnyAggregate(list)
    case Like(x, p, _) => HasAggregate(x) || HasAggregate(p)
    case StarCall(_) => true
    case Call(_, _) => true
  }

  predicate AnyAggregate(es: seq<Expr>) {
    es != [] && (HasAggregate(es[0]) || AnyAggregate(es[1..]))
  }
}
