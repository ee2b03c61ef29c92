// Precedence climbing over a token sequence (parser/parser.go).
module Parser {
  import opened Bytes
  import opened Values
  import opened Ast
  import opened Grammar

  const COUNT: bytes := [0x43, 0x4F, 0x55, 0x4E, 0x54]
  const SUM: bytes := [0x53, 0x55, 0x4D]
  const AVG: bytes := [0x41, 0x56, 0x47]
  const MIN: bytes := [0x4D, 0x49, 0x4E]
  const MAX: bytes := [0x4D, 0x41, 0x58]

  predicate IsAggregate(name: bytes) { name == COUNT || name == SUM || name == AVG || name == MIN || name == MAX }

  function UpperByte(c: byte): byte { if 0x61 <= c <= 0x7A then c - 0x20 else c }

  const LONG_S: bytes := [0xC5, 0xBF]
  const DOTLESS_I: bytes := [0xC4, 0xB1]

  /**
   * strings.ToUpper as far as function names go: of the runes beyond ASCII only the long s (U+017F) and
   * the dotless i (U+0131) have an ASCII capital, and a name with any other is none of the known ones.
   */
  function ToUpper(s: bytes): bytes
    decreases |s|
  {
    if s == [] then []
    else if LONG_S <= s then [0x53] + ToUpper(s[2..])
    else if DOTLESS_I <= s then [0x49] + ToUpper(s[2..])
    else [UpperByte(s[0])] + ToUpper(s[1..])
  }

  const BETWEEN_TEXT: bytes := [0x42, 0x45, 0x54, 0x57, 0x45, 0x45, 0x4E]
  const IN_TEXT: bytes := [0x49, 0x4E]
  const LIKE_TEXT: bytes := [0x4C, 0x49, 0x4B, 0x45]

  /** After NOT only the text of the next token is looked at, so a quoted name or a string will do. */
  predicate SpellsPredicate(t: Token) {
    match t
    case Kw(k) => k.BetweenKw? || k.InKw? || k.LikeKw?
    case Word(s) => s == BETWEEN_TEXT || s == IN_TEXT || s == LIKE_TEXT
    case Str(s) => s == BETWEEN_TEXT || s == IN_TEXT || s == LIKE_TEXT
    case _ => false
  }

  function Peek(ts: seq<Token>): Token { if ts == [] then End else ts[0] }

  function Second(ts: seq<Token>): Token { if |ts| < 2 then End else ts[1] }

  function Expect(ts: seq<Token>, t: Token): (r: Result<seq<Token>>)
    ensures r.Ok? ==> |r.value| < |ts|
  {
    if ts != [] && ts[0] == t then Ok(ts[1..]) else Err(Syntax)
  }

  // ------------------------------------------------------------------
  // Trees a parser can produce
  // ------------------------------------------------------------------

  predicate ProducibleValue(v: Value) { (v.Int? ==> v.i != -TWO_63) && (v.Float? ==> Finite(v.bits)) }

  /**
   * No `*` as an operand, no unary plus, no `==`, no minus over a numeric literal, non-empty IN
   * lists, no literal the lexer cannot spell, and aggregates that are known and not nested.
   */
  predicate Producible(e: Expr) {
    match e
    case Literal(v) => ProducibleValue(v)
    case Column(_, _) => true
    case Star => false
    case Unary(op, x) => !op.PlusOp? && Producible(x) && !(op.MinusOp? && x.Literal? && x.value.IsNumeric())
    case Binary(op, l, r) => !op.EqEqOp? && Producible(l) && Producible(r)
    case IsNull(x, _) => Producible(x)
    case Between(x, lo, hi, _) => Producible(x) && Producible(lo) && Producible(hi)
    case In(x, list, _) => Producible(x) && list != [] && AllProducible(list)
    case Like(x, p, _) => Producible(x) && Producible(p)
    case StarCall(f) => f == COUNT
    case Call(f, x) => IsAggregate(f) && Producible(x) && !HasAggregate(x)
  }

  predicate AllProducible(es: seq<Expr>) { es == [] || (Producible(es[0]) && AllProducible(es[1..])) }

  // ------------------------------------------------------------------
  // The grammar
  // ------------------------------------------------------------------

  type Parsed<T> = Result<(T, seq<Token>)>

  function ParseExpr(ts: seq<Token>, min: nat): (r: Parsed<Expr>)
    ensures r.Ok? ==> |r.value.1| < |ts| && Producible(r.value.0)
    decreases |ts|, 5
  {
    var (left, rest) :- ParseUnary(ts);
    Climb(left, rest, min)
  }

  /** Absorbs postfix predicates and infix operators of at least the given precedence. */
  function Climb(left: Expr, ts: seq<Token>, min: nat): (r: Parsed<Expr>)
    ensures r.Ok? ==> |r.value.1| <= |ts| && (Producible(left) ==> Producible(r.value.0))
    decreases |ts|, 4
  {
    if PREC_COMPARE >= min then
      var (handled, rest) :- Postfix(left, ts);
      match handled
      case Some(e) => Climb(e, rest, min)
      case None => Operator(left, rest, min)
    else
      Operator(left, ts, min)
  }

  function Operator(left: Expr, ts: seq<Token>, min: nat): (r: Parsed<Expr>)
    ensures r.Ok? ==> |r.value.1| <= |ts| && (Producible(left) ==> Producible(r.value.0))
    decreases |ts|, 2
  {
    if !Peek(ts).Infix? || BinaryPrecedence(ts[0].op) < min then Ok((left, ts))
    else
      var op := ts[0].op;
      var (right, rest) :- ParseExpr(ts[1..], BinaryPrecedence(op) + 1);
      Climb(Binary(if op.EqEqOp? then EqOp else op, left, right), rest, min)
  }

  /** IS [NOT] NULL, [NOT] BETWEEN, [NOT] IN, [NOT] LIKE; None when there is none of them. */
  function Postfix(left: Expr, ts: seq<Token>): (r: Parsed<Option<Expr>>)
    ensures r.Ok? ==> |r.value.1| <= |ts| && (r.value.0.Some? ==> |r.value.1| < |ts|)
    ensures r.Ok? && r.value.0.Some? && Producible(left) ==> Producible(r.value.0.value)
    decreases |ts|, 3
  {
    if Peek(ts) == Kw(NotKw) then
      if SpellsPredicate(Second(ts)) then PostfixAfterNot(left, ts[1..], true) else Err(Syntax)
    else
      PostfixAfterNot(left, ts, false)
  }

  function PostfixAfterNot(left: Expr, ts: seq<Token>, not: bool): (r: Parsed<Option<Expr>>)
    ensures r.Ok? ==> |r.value.1| <= |ts| && (r.value.0.Some? ==> |r.value.1| < |ts|)
    ensures r.Ok? && r.value.0.Some? && Producible(left) ==> Producible(r.value.0.value)
    decreases |ts|, 1
  {
    match Peek(ts)
    case Kw(IsKw) =>
      var after := if Peek(ts[1..]) == Kw(NotKw) then ts[2..] else ts[1..];
      var rest :- Expect(after, Kw(NullKw));
      Ok((Some(IsNull(left, Peek(ts[1..]) == Kw(NotKw))), rest))
    case Kw(BetweenKw) =>
      var (lo, mid) :- ParseExpr(ts[1..], PREC_ADD);
      var more :- Expect(mid, Infix(AndOp));
      var (hi, rest) :- ParseExpr(more, PREC_ADD);
      Ok((Some(Between(left, lo, hi, not)), rest))
    case Kw(InKw) =>
      var open :- Expect(ts[1..], Mark(LParen));
      if Peek(open) == Kw(SelectKw) then Err(Syntax)
      else
        var (list, close) :- ParseList(open);
        var rest :- Expect(close, Mark(RParen));
        Ok((Some(In(left, list, not)), rest))
    case Kw(LikeKw) =>
      var (p, rest) :- ParseExpr(ts[1..], PREC_COMPARE + 1);
      Ok((Some(Like(left, p, not)), rest))
    case _ => Ok((None, ts))
  }

  /** One or more expressions, separated by commas. */
  function ParseList(ts: seq<Token>): (r: Parsed<seq<Expr>>)
    ensures r.Ok? ==> |r.value.1| < |ts| && r.value.0 != [] && AllProducible(r.value.0)
    decreases |ts|, 6
  {
    var (e, rest) :- ParseExpr(ts, PREC_LOWEST);
    if Peek(rest) != Mark(Comma) then
      assert AllProducible([e]) by { assert [e][1..] == []; }
      Ok(([e], rest))
    else
      var (es, more) :- ParseList(rest[1..]);
      assert ([e] + es)[1..] == es;
      Ok(([e] + es, more))
  }

  /** A sign in front of a numeric literal becomes part of it; any other plus is dropped. */
  function Signed(minus: bool, x: Expr): (e: Expr)
    ensures Producible(x) ==> Producible(e)
  {
    if x.Literal? && x.value.IsNumeric() then
      if minus then Literal(Neg(x.value).value) else x
    else if minus then Unary(MinusOp, x)
    else x
  }

  function ParseUnary(ts: seq<Token>): (r: Parsed<Expr>)
    ensures r.Ok? ==> |r.value.1| < |ts| && Producible(r.value.0)
    decreases |ts|, 3
  {
    match Peek(ts)
    case Kw(NotKw) =>
      var (x, rest) :- ParseExpr(ts[1..], PREC_NOT + 1);
      Ok((Unary(NotOp, x), rest))
    case Infix(SubOp) =>
      var (x, rest) :- ParseUnary(ts[1..]);
      Ok((Signed(true, x), rest))
    case Infix(AddOp) =>
      var (x, rest) :- ParseUnary(ts[1..]);
      Ok((Signed(false, x), rest))
    case _ => ParsePrimary(ts)
  }

  function ParsePrimary(ts: seq<Token>): (r: Parsed<Expr>)
    ensures r.Ok? ==> |r.value.1| < |ts| && Producible(r.value.0)
    decreases |ts|, 2
  {
    match Peek(ts)
    case Number(n) => if n < TWO_63 then Ok((Literal(Int(n)), ts[1..])) else Err(Syntax)
    case Decimal(f) => if !Negative(f) && Finite(f) then Ok((Literal(Float(f)), ts[1..])) else Err(Syntax)
    case Str(s) => Ok((Literal(Text(s)), ts[1..]))
    case Kw(k) =>
      if k.NullKw? then Ok((Literal(Null), ts[1..]))
      else if k.TrueKw? then Ok((Literal(Bool(true)), ts[1..]))
      else if k.FalseKw? then Ok((Literal(Bool(false)), ts[1..]))
      else Err(Syntax)
    case Word(s) =>
      if Second(ts) == Mark(LParen) then ParseCall(ts)
      else if Second(ts) == Mark(Dot) then
        if |ts| > 2 && ts[2].Word? then Ok((Column(s, ts[2].s), ts[3..])) else Err(Syntax)
      else Ok((Column([], s), ts[1..]))
    case Mark(LParen) =>
      var (e, close) :- ParseExpr(ts[1..], PREC_LOWEST);
      var rest :- Expect(close, Mark(RParen));
      Ok((e, rest))
    case _ => Err(Syntax)
  }

  function ParseCall(ts: seq<Token>): (r: Parsed<Expr>)
    requires |ts| >= 2 && ts[0].Word? && ts[1] == Mark(LParen)
    ensures r.Ok? ==> |r.value.1| < |ts| && Producible(r.value.0)
    decreases |ts|, 1
  {
    var name := ToUpper(ts[0].s);
    if !IsAggregate(name) then Err(Syntax)
    else if Peek(ts[2..]) == Infix(MulOp) then
      if name != COUNT then Err(Syntax)
      else
        var rest :- Expect(ts[3..], Mark(RParen));
        Ok((StarCall(name), rest))
    else
      var (arg, close) :- ParseExpr(ts[2..], PREC_LOWEST);
      if HasAggregate(arg) then Err(Syntax)
      else
        var rest :- Expect(close, Mark(RParen));
        Ok((Call(name, arg), rest))
  }

  /** A bare expression and nothing after it. */
  function Parse(ts: seq<Token>): Result<Expr> {
    var (e, rest) :- ParseExpr(ts, PREC_LOWEST);
    if rest == [] then Ok(e) else Err(Syntax)
  }

  // ------------------------------------------------------------------
  // LIMIT and OFFSET
  // ------------------------------------------------------------------

  /** What a query says about how many rows to return: -1 without a LIMIT, 0 without an OFFSET. */
  datatype Limits = Limits(count: int64, offset: int64) {
    predicate Allowed() { count >= -1 && offset >= 0 }
  }

  /** After LIMIT or OFFSET stands an expression, and it must turn out to be a non-negative integer literal. */
  function ParseCount(ts: seq<Token>): (r: Parsed<int64>)
    ensures r.Ok? ==> r.value.0 >= 0
  {
    var (e, rest) :- ParseExpr(ts, PREC_LOWEST);
    if e.Literal? && e.value.Int? && e.value.i >= 0 then Ok((e.value.i, rest)) else Err(Syntax)
  }

  function ParseCountAfter(k: Keyword, absent: int64, ts: seq<Token>): Parsed<int64> {
    if Peek(ts) == Kw(k) then ParseCount(ts[1..]) else Ok((absent, ts))
  }

  /** Neither a LIMIT nor an OFFSET that is negative gets past the parser. */
  function ParseLimits(ts: seq<Token>): (r: Parsed<Limits>)
    ensures r.Ok? ==> r.value.0.Allowed()
  {
    var (count, more) :- ParseCountAfter(LimitKw, -1, ts);
    var (offset, rest) :- ParseCountAfter(OffsetKw, 0, more);
    Ok((Limits(count, offset), rest))
  }

  // ------------------------------------------------------------------
  // The parser itself: a token, one of lookahead, and the lexer behind them
  // ------------------------------------------------------------------

  /** A production reports what the grammar says and leaves the cursor where the grammar stops. */
  predicate Agrees<T(==)>(r: Result<T>, now: seq<Token>, spec: Parsed<T>) {
    match spec
    case Ok(pair) => r == Ok(pair.0) && now == pair.1
    case Err(e) => r == Err(e)
  }

  class TokenParser {
    var tok: Token
    var next: Token
    var lex: seq<Token>

    ghost predicate Valid()
      reads this
    {
      && (tok.End? ==> next.End?)
      && (next.End? ==> lex == [])
      && End !in lex
    }

    /** The tokens from the cursor on. */
    ghost function Ahead(): (ts: seq<Token>)
      requires Valid()
      reads this
      ensures Peek(ts) == tok && Second(ts) == next
    {
      if tok.End? then [] else if next.End? then [tok] else [tok, next] + lex
    }

    constructor (src: seq<Token>)
      requires End !in src
      ensures Valid() && Ahead() == src
    {
      tok, next, lex := End, End, src;
      new;
      Shift();
      Shift();
    }

    /** advance: the lookahead becomes the current token and the lexer supplies another. */
    method Shift()
      requires End !in lex
      modifies this
      ensures tok == old(next) && End !in lex
      ensures if old(lex) == [] then next == End && lex == [] else next == old(lex)[0] && lex == old(lex)[1..]
    {
      tok := next;
      if lex == [] {
        next := End;
      } else {
        next, lex := lex[0], lex[1..];
      }
    }

    method Advance()
      requires Valid() && !tok.End?
      modifies this
      ensures Valid() && Ahead() == old(Ahead())[1..]
    {
      Shift();
    }

    method Accept(t: Token) returns (ok: bool)
      requires Valid() && !t.End?
      modifies this
      ensures Valid() && ok == (old(tok) == t)
      ensures Ahead() == if ok then old(Ahead())[1..] else old(Ahead())
      ensures ok ==> |Ahead()| < |old(Ahead())|
    {
      ok := tok == t;
      if ok {
        Advance();
      }
    }

    method ExpectToken(t: Token) returns (ok: bool)
      requires Valid() && !t.End?
      modifies this
      ensures Valid() && |Ahead()| <= |old(Ahead())|
      ensures Expect(old(Ahead()), t) == if ok then Ok(Ahead()) else Err(Syntax)
    {
      ok := Accept(t);
    }

    method Expr(min: nat) returns (r: Result<Expr>)
      requires Valid()
      modifies this
      ensures Valid() && Agrees(r, Ahead(), ParseExpr(old(Ahead()), min))
      decreases |Ahead()|, 5
    {
      ghost var start := Ahead();
      var first := UnaryExpr();
      if first.Err? {
        return first;
      }
      var left := first.value;
      while true
        invariant Valid() && |Ahead()| < |start|
        invariant Climb(left, Ahead(), min) == ParseExpr(start, min)
        decreases |Ahead()|
      {
        ghost var here := Ahead();
        if PREC_COMPARE >= min {
          var post := PostfixExpr(left);
          if post.Err? {
            return Err(post.error);
          }
          if post.value.Some? {
            left := post.value.value;
            continue;
          }
        }
        assert Operator(left, Ahead(), min) == ParseExpr(start, min);
        if !tok.Infix? || BinaryPrecedence(tok.op) < min {
          return Ok(left);
        }
        var op := tok.op;
        Advance();
        var right := Expr(BinaryPrecedence(op) + 1);
        if right.Err? {
          return right;
        }
        left := Binary(if op.EqEqOp? then EqOp else op, left, right.value);
      }
    }

    method CountExpr() returns (r: Result<int64>)
      requires Valid()
      modifies this
      ensures Valid() && Agrees(r, Ahead(), ParseCount(old(Ahead())))
    {
      var e := Expr(PREC_LOWEST);
      if e.Err? {
        return Err(e.error);
      }
      if !e.value.Literal? || !e.value.value.Int? {
        return Err(Syntax);
      }
      if e.value.value.i < 0 {
        return Err(Syntax);
      }
      r := Ok(e.value.value.i);
    }

    /** The end of a SELECT. */
    method LimitClauses() returns (r: Result<Limits>)
      requires Valid()
      modifies this
      ensures Valid() && Agrees(r, Ahead(), ParseLimits(old(Ahead())))
      ensures r.Ok? ==> r.value.Allowed()
    {
      var count, offset := Ok(-1), Ok(0);
      var limited := Accept(Kw(LimitKw));
      if limited {
        count := CountExpr();
        if count.Err? {
          return Err(count.error);
        }
      }
      var skipping := Accept(Kw(OffsetKw));
      if skipping {
        offset := CountExpr();
        if offset.Err? {
          return Err(offset.error);
        }
      }
      r := Ok(Limits(count.value, offset.value));
    }

    method PostfixExpr(left: Expr) returns (r: Result<Option<Expr>>)
      requires Valid()
      modifies this
      ensures Valid() && Agrees(r, Ahead(), Postfix(left, old(Ahead())))
      decreases |Ahead()|, 3
    {
      var not := false;
      if tok == Kw(NotKw) {
        if !SpellsPredicate(next) {
          return Err(Syntax);
        }
        not := true;
        Advance();
      }
      r := AfterNot(left, not);
    }

    method AfterNot(left: Expr, not: bool) returns (r: Result<Option<Expr>>)
      requires Valid()
      modifies this
      ensures Valid() && Agrees(r, Ahead(), PostfixAfterNot(left, old(Ahead()), not))
      decreases |Ahead()|, 1
    {
      hide ParseExpr, ParseList, Expect, PostfixAfterNot;
      match tok
      case Kw(IsKw) =>
        r := NullTest(left, not);
      case Kw(BetweenKw) =>
        r := BetweenBounds(left, not);
      case Kw(InKw) =>
        r := InItems(left, not);
      case Kw(LikeKw) =>
        r := LikePattern(left, not);
      case _ =>
        NoPostfix(left, Ahead(), not);
        r := Ok(None);
    }

    method NullTest(left: Expr, not: bool) returns (r: Result<Option<Expr>>)
      requires Valid() && tok == Kw(IsKw)
      modifies this
      ensures Valid() && Agrees(r, Ahead(), PostfixAfterNot(left, old(Ahead()), not))
    {
      Advance();
      var isNot := Accept(Kw(NotKw));
      var ok := ExpectToken(Kw(NullKw));
      r := if ok then Ok(Some(IsNull(left, isNot))) else Err(Syntax);
    }

    method LikePattern(left: Expr, not: bool) returns (r: Result<Option<Expr>>)
      requires Valid() && tok == Kw(LikeKw)
      modifies this
      ensures Valid() && Agrees(r, Ahead(), PostfixAfterNot(left, old(Ahead()), not))
      decreases |Ahead()|, 0
    {
      Advance();
      var p := Expr(PREC_COMPARE + 1);
      r := if p.Err? then Err(p.error) else Ok(Some(Like(left, p.value, not)));
    }

    method BetweenBounds(left: Expr, not: bool) returns (r: Result<Option<Expr>>)
      requires Valid() && tok == Kw(BetweenKw)
      modifies this
      ensures Valid() && Agrees(r, Ahead(), PostfixAfterNot(left, old(Ahead()), not))
      decreases |Ahead()|, 0
    {
      Advance();
      var lo := Expr(PREC_ADD);
      if lo.Err? {
        return Err(lo.error);
      }
      var ok := ExpectToken(Infix(AndOp));
      if !ok {
        return Err(Syntax);
      }
      var hi := Expr(PREC_ADD);
      if hi.Err? {
        return Err(hi.error);
      }
      r := Ok(Some(Between(left, lo.value, hi.value, not)));
    }

    method InItems(left: Expr, not: bool) returns (r: Result<Option<Expr>>)
      requires Valid() && tok == Kw(InKw)
      modifies this
      ensures Valid() && Agrees(r, Ahead(), PostfixAfterNot(left, old(Ahead()), not))
      decreases |Ahead()|, 0
    {
      Advance();
      var ok := ExpectToken(Mark(LParen));
      if !ok || tok == Kw(SelectKw) {
        return Err(Syntax);
      }
      var list := Items();
      if list.Err? {
        return Err(list.error);
      }
      ok := ExpectToken(Mark(RParen));
      r := if ok then Ok(Some(In(left, list.value, not))) else Err(Syntax);
    }

    method Items() returns (r: Result<seq<Expr>>)
      requires Valid()
      modifies this
      ensures Valid() && Agrees(r, Ahead(), ParseList(old(Ahead())))
      decreases |Ahead()|, 6
    {
      ghost var goal, start := ParseList(Ahead()), |Ahead()|;
      var list: seq<Expr> := [];
      StartPrefixed(goal);
      var more := true;
      while more
        invariant Valid() && |Ahead()| <= start
        invariant if more then Prefixed(list, ParseList(Ahead())) == goal else goal == Ok((list, Ahead()))
        decreases |Ahead()|, more
      {
        ghost var here := Ahead();
        var e := Expr(PREC_LOWEST);
        if e.Err? {
          return Err(e.error);
        }
        PrefixedStep(list, e.value, here, Ahead());
        list := list + [e.value];
        more := Accept(Mark(Comma));
      }
      r := Ok(list);
    }

    method UnaryExpr() returns (r: Result<Expr>)
      requires Valid()
      modifies this
      ensures Valid() && Agrees(r, Ahead(), ParseUnary(old(Ahead())))
      decreases |Ahead()|, 3
    {
      match tok
      case Kw(NotKw) =>
        Advance();
        var x := Expr(PREC_NOT + 1);
        r := if x.Err? then x else Ok(Unary(NotOp, x.value));
      case Infix(SubOp) =>
        Advance();
        var x := UnaryExpr();
        r := if x.Err? then x else Ok(Signed(true, x.value));
      case Infix(AddOp) =>
        Advance();
        var x := UnaryExpr();
        r := if x.Err? then x else Ok(Signed(false, x.value));
      case _ =>
        r := Primary();
    }

    method Primary() returns (r: Result<Expr>)
      requires Valid()
      modifies this
      ensures Valid() && Agrees(r, Ahead(), ParsePrimary(old(Ahead())))
      decreases |Ahead()|, 2
    {
      match tok
      case Number(n) =>
        Advance();
        r := if n < TWO_63 then Ok(Literal(Int(n))) else Err(Syntax);
      case Decimal(f) =>
        Advance();
        r := if !Negative(f) && Finite(f) then Ok(Literal(Float(f))) else Err(Syntax);
      case Str(s) =>
        Advance();
        r := Ok(Literal(Text(s)));
      case Kw(k) =>
        if k.NullKw? || k.TrueKw? || k.FalseKw? {
          Advance();
          r := Ok(Literal(if k.NullKw? then Null else Bool(k.TrueKw?)));
        } else {
          r := Err(Syntax);
        }
      case Word(s) =>
        if next == Mark(LParen) {
          r := FuncCall();
        } else {
          Advance();
          if tok == Mark(Dot) {
            Advance();
            if !tok.Word? {
              return Err(Syntax);
            }
            r := Ok(Column(s, tok.s));
            Advance();
          } else {
            r := Ok(Column([], s));
          }
        }
      case Mark(LParen) =>
        Advance();
        var e := Expr(PREC_LOWEST);
        if e.Err? {
          return e;
        }
        var ok := ExpectToken(Mark(RParen));
        r := if ok then e else Err(Syntax);
      case _ =>
        r := Err(Syntax);
    }

    method FuncCall() returns (r: Result<Expr>)
      requires Valid() && tok.Word? && next == Mark(LParen)
      modifies this
      ensures Valid() && Agrees(r, Ahead(), ParseCall(old(Ahead())))
      decreases |Ahead()|, 1
    {
      var name := ToUpper(tok.s);
      if !IsAggregate(name) {
        return Err(Syntax);
      }
      ghost var start := Ahead();
      Advance();
      Advance();
      assert Ahead() == start[2..];
      var call: Expr;
      if tok == Infix(MulOp) {
        if name != COUNT {
          return Err(Syntax);
        }
        Advance();
        call := StarCall(name);
      } else {
        var arg := Expr(PREC_LOWEST);
        if arg.Err? {
          return arg;
        }
        if HasAggregate(arg.value) {
          return Err(Syntax);
        }
        call := Call(name, arg.value);
      }
      var ok := ExpectToken(Mark(RParen));
      r := if ok then Ok(call) else Err(Syntax);
    }
  }

  lemma NoPostfix(left: Expr, ts: seq<Token>, not: bool)
    requires Peek(ts) != Kw(IsKw) && Peek(ts) != Kw(BetweenKw) && Peek(ts) != Kw(InKw) && Peek(ts) != Kw(LikeKw)
    ensures PostfixAfterNot(left, ts, not) == Ok((None, ts))
  {
  }

  function Prefixed(list: seq<Expr>, more: Parsed<seq<Expr>>): Parsed<seq<Expr>> {
    var (es, rest) :- more;
    Ok((list + es, rest))
  }

  lemma StartPrefixed(more: Parsed<seq<Expr>>)
    ensures Prefixed([], more) == more
  {
    if more.Ok? {
      assert [] + more.value.0 == more.value.0;
    }
  }

  lemma PrefixedStep(list: seq<Expr>, e: Expr, ts: seq<Token>, rest: seq<Token>)
    requires ParseExpr(ts, PREC_LOWEST) == Ok((e, rest))
    ensures Prefixed(list, ParseList(ts)) ==
            if Peek(rest) == Mark(Comma) then Prefixed(list + [e], ParseList(rest[1..])) else Ok((list + [e], rest))
  {
    hide ParseExpr;
    if Peek(rest) == Mark(Comma) && ParseList(rest[1..]).Ok? {
      var es := ParseList(rest[1..]).value.0;
      assert list + ([e] + es) == (list + [e]) + es;
    }
  }

  /** ParseExpr: a bare expression, then the end of the input. */
  method ParseTokens(src: seq<Token>) returns (r: Result<Expr>)
    requires End !in src
    ensures r == Parse(src)
  {
    var p := new TokenParser(src);
    r := p.Expr(PREC_LOWEST);
    if r.Ok? && !p.tok.End? {
      r := Err(Syntax);
    }
  }
}
