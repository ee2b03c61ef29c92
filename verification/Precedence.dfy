// How tightly operators bind (ast/print.go, parser/parser.go): what tree the precedence-climbing parser
// makes of a chain of operators, of prefix NOT and signs, and of the postfix predicates.
module Precedences {
  import opened Bytes
  import opened Values
  import opened Ast
  import opened Semantics
  import opened Grammar
  import opened Parser
  import opened Roundtrip

  // ------------------------------------------------------------------
  // The operator classes
  // ------------------------------------------------------------------

  /** Loosest first. NOT binds between AND and the comparisons, a sign tighter than all of them. */
  datatype OpClass = Disjunction | Conjunction | Comparing | Additive | Multiplicative

  function ClassOf(op: BinOp): OpClass {
    match op
    case OrOp => Disjunction
    case AndOp => Conjunction
    case EqOp => Comparing
    case EqEqOp => Comparing
    case NeOp => Comparing
    case LtGtOp => Comparing
    case LtOp => Comparing
    case LeOp => Comparing
    case GtOp => Comparing
    case GeOp => Comparing
    case AddOp => Additive
    case SubOp => Additive
    case MulOp => Multiplicative
    case DivOp => Multiplicative
    case ModOp => Multiplicative
  }

  predicate Tighter(a: OpClass, b: OpClass) {
    match a
    case Disjunction => false
    case Conjunction => b.Disjunction?
    case Comparing => b.Disjunction? || b.Conjunction?
    case Additive => b.Disjunction? || b.Conjunction? || b.Comparing?
    case Multiplicative => !b.Multiplicative?
  }

  /** AND and OR are looser than NOT. */
  predicate Logical(op: BinOp) { op.AndOp? || op.OrOp? }

  predicate Calculating(op: BinOp) { ClassOf(op).Additive? || ClassOf(op).Multiplicative? }

  lemma ClassesOrdered(p: BinOp, q: BinOp)
    ensures BinaryPrecedence(p) > BinaryPrecedence(q) <==> Tighter(ClassOf(p), ClassOf(q))
    ensures Logical(p) <==> BinaryPrecedence(p) < PREC_NOT
    ensures !Logical(p) <==> BinaryPrecedence(p) >= PREC_COMPARE
    ensures Calculating(p) <==> BinaryPrecedence(p) >= PREC_ADD
  {
  }

  /** `==` is read as `=`. */
  function Read(op: BinOp): BinOp { if op.EqEqOp? then EqOp else op }

  // ------------------------------------------------------------------
  // The tree of a chain of operators
  // ------------------------------------------------------------------

  /** An operator and the operand after it, with its tokens; below is what may not be the precedence of what follows. */
  datatype Link = Link(op: BinOp, tokens: seq<Token>, operand: Expr, below: nat)

  function LinkTokens(links: seq<Link>): seq<Token> {
    if links == [] then [] else [Infix(links[0].op)] + links[0].tokens + LinkTokens(links[1..])
  }

  function ClassAt(links: seq<Link>, i: nat): OpClass
    requires i < |links|
  {
    ClassOf(links[i].op)
  }

  /** The last of the loosest operators: what comes after is tighter, what comes before is not looser. */
  predicate LastLoosest(links: seq<Link>, m: nat) {
    && m < |links|
    && (forall i :: 0 <= i < m ==> !Tighter(ClassAt(links, m), ClassAt(links, i)))
    && (forall i :: m < i < |links| ==> Tighter(ClassAt(links, i), ClassAt(links, m)))
  }

  lemma BehindRoot(links: seq<Link>, m: nat, i: nat)
    requires LastLoosest(links, m) && m < i < |links|
    ensures Tighter(ClassAt(links, i), ClassAt(links, m))
  {
    hide Tighter, ClassAt;
  }

  lemma BeforeRoot(links: seq<Link>, m: nat, i: nat)
    requires LastLoosest(links, m) && i < m
    ensures m < |links| && !Tighter(ClassAt(links, m), ClassAt(links, i))
  {
    hide Tighter, ClassAt;
  }

  lemma LastLoosestOrder(links: seq<Link>, m: nat, n: nat)
    requires LastLoosest(links, m) && LastLoosest(links, n)
    ensures n <= m
  {
    hide Tighter, ClassAt;
    if m < n {
      BehindRoot(links, m, n);
      BeforeRoot(links, n, m);
    }
  }

  lemma LastLoosestUnique(links: seq<Link>, m: nat, n: nat)
    requires LastLoosest(links, m) && LastLoosest(links, n)
    ensures m == n
  {
    LastLoosestOrder(links, m, n);
    LastLoosestOrder(links, n, m);
  }

  function Root(links: seq<Link>): (m: nat)
    requires links != []
    ensures LastLoosest(links, m)
  {
    if |links| == 1 then 0
    else
      var k := Root(links[1..]);
      assert forall i :: 0 <= i < |links| - 1 ==> ClassAt(links[1..], i) == ClassAt(links, i + 1);
      assert forall i :: 0 < i < |links| ==> ClassAt(links, i) == ClassAt(links[1..], i - 1);
      if Tighter(ClassAt(links, k + 1), ClassAt(links, 0)) then 0 else k + 1
  }

  /** The last of the loosest operators is the root, over the trees of what is left and right of it. */
  function Tree(x: Expr, links: seq<Link>): Expr
    decreases |links|
  {
    if links == [] then x
    else
      var m := Root(links);
      Binary(Read(links[m].op), Tree(x, links[..m]), Tree(links[m].operand, links[m + 1..]))
  }

  lemma TreeAt(x: Expr, links: seq<Link>, m: nat)
    requires LastLoosest(links, m)
    ensures Tree(x, links) == Binary(Read(links[m].op), Tree(x, links[..m]), Tree(links[m].operand, links[m + 1..]))
  {
    LastLoosestUnique(links, m, Root(links));
  }

  lemma LoosestOfTail(links: seq<Link>, n: nat, m: nat)
    requires LastLoosest(links, m) && n <= m
    ensures LastLoosest(links[n..], m - n)
  {
    var tail := links[n..];
    assert forall i :: 0 <= i < |tail| ==> ClassAt(tail, i) == ClassAt(links, n + i);
  }

  /**
   * Reading from the left: the first operator takes the tighter ones after it, and the whole becomes the
   * left operand of the rest.
   */
  lemma {:induction false} TreeFolds(x: Expr, links: seq<Link>, n: nat)
    requires 0 < n <= |links|
    requires forall i :: 0 < i < n ==> Tighter(ClassAt(links, i), ClassAt(links, 0))
    requires n < |links| ==> !Tighter(ClassAt(links, n), ClassAt(links, 0))
    ensures Tree(x, links) == Tree(Binary(Read(links[0].op), x, Tree(links[0].operand, links[1..n])), links[n..])
    decreases |links|
  {
    hide Tree, Root, Tighter, Read;
    NoLinks(x);
    var first := Binary(Read(links[0].op), x, Tree(links[0].operand, links[1..n]));
    NoLinks(first);
    if n == |links| {
      TreeAt(x, links, 0);
      assert links[..0] == [] && links[0 + 1..] == links[1..n] && links[n..] == [];
    } else {
      var m := Root(links);
      RootBeyond(links, n, m);
      TreeAt(x, links, m);
      LoosestOfTail(links, n, m);
      TreeAt(first, links[n..], m - n);
      Slices(links, n, m);
      var front := links[..m];
      assert forall i :: 0 <= i < m ==> ClassAt(front, i) == ClassAt(links, i);
      TreeFolds(x, front, n);
    }
  }

  lemma Slices(links: seq<Link>, n: nat, m: nat)
    requires 0 < n <= m < |links|
    ensures links[..m][1..n] == links[1..n] && links[..m][n..] == links[n..m] && links[..m][0] == links[0]
    ensures links[n..][..m - n] == links[n..m]
    ensures links[n..][m - n + 1..] == links[m + 1..] && links[n..][m - n] == links[m]
  {
  }

  lemma NoLinks(x: Expr)
    ensures Tree(x, []) == x
  {
  }

  lemma RootBeyond(links: seq<Link>, n: nat, m: nat)
    requires 0 < n < |links| && LastLoosest(links, m)
    requires forall i :: 0 < i < n ==> Tighter(ClassAt(links, i), ClassAt(links, 0))
    requires !Tighter(ClassAt(links, n), ClassAt(links, 0))
    ensures n <= m
  {
  }

  // ------------------------------------------------------------------
  // What the parser makes of it
  // ------------------------------------------------------------------

  /** Tokens that read as x wherever what follows binds less tightly than below. */
  ghost predicate Phrase(ts: seq<Token>, x: Expr, min: nat, below: nat) {
    forall rest :: Stops(rest, below) && Clear(rest) ==> ParseExpr(ts + rest, min) == Climb(x, rest, min)
  }

  /** Each operand reads as what it stands for, in its place. */
  ghost predicate Linked(links: seq<Link>, rest: seq<Token>) {
    forall i :: 0 <= i < |links| ==> LinkedAt(links, rest, i)
  }

  ghost predicate LinkedAt(links: seq<Link>, rest: seq<Token>, i: nat)
    requires i < |links|
  {
    && Phrase(links[i].tokens, links[i].operand, BinaryPrecedence(links[i].op) + 1, links[i].below)
    && Stops(LinkTokens(links[i + 1..]) + rest, links[i].below) && Clear(LinkTokens(links[i + 1..]) + rest)
  }

  lemma LinkedTail(links: seq<Link>, rest: seq<Token>, n: nat)
    requires Linked(links, rest) && n <= |links|
    ensures Linked(links[n..], rest)
  {
    hide Phrase, Stops, LinkTokens;
    var tail := links[n..];
    forall i | 0 <= i < |tail| ensures LinkedAt(tail, rest, i) {
      assert LinkedAt(links, rest, n + i);
      assert tail[i + 1..] == links[n + i + 1..];
    }
  }

  /** How many of the operators a climb at this precedence takes. */
  function Reach(links: seq<Link>, min: nat): (k: nat)
    ensures k <= |links| && (forall i :: 0 <= i < k ==> BinaryPrecedence(links[i].op) >= min)
    ensures k < |links| ==> BinaryPrecedence(links[k].op) < min
  {
    if links == [] || BinaryPrecedence(links[0].op) < min then 0 else 1 + Reach(links[1..], min)
  }

  lemma {:induction false} ReachIs(links: seq<Link>, min: nat, k: nat)
    requires k <= |links| && (forall i :: 0 <= i < k ==> BinaryPrecedence(links[i].op) >= min)
    requires k < |links| ==> BinaryPrecedence(links[k].op) < min
    ensures Reach(links, min) == k
  {
  }

  lemma TokensAppend(links: seq<Link>, rest: seq<Token>)
    requires links != []
    ensures LinkTokens(links) + rest == [Infix(links[0].op)] + (links[0].tokens + (LinkTokens(links[1..]) + rest))
  {
  }

  lemma InfixStops(op: BinOp, more: seq<Token>, min: nat)
    ensures Stops([Infix(op)] + more, min) <==> BinaryPrecedence(op) < min
    ensures Clear([Infix(op)] + more) && ([Infix(op)] + more)[1..] == more
  {
  }

  lemma ClimbInfix(left: Expr, op: BinOp, more: seq<Token>, min: nat, right: Expr, rest: seq<Token>)
    requires BinaryPrecedence(op) >= min && ParseExpr(more, BinaryPrecedence(op) + 1) == Ok((right, rest))
    ensures Climb(left, [Infix(op)] + more, min) == Climb(Binary(Read(op), left, right), rest, min)
  {
    var ts := [Infix(op)] + more;
    assert ts[1..] == more;
    hide BinaryPrecedence, ParseExpr;
    PostfixStops(left, ts);
  }

  /** The first operator with what it takes on its right, as a climb reads it. */
  lemma ClimbFirst(left: Expr, links: seq<Link>, rest: seq<Token>, min: nat, n: nat)
    requires links != [] && Linked(links, rest) && BinaryPrecedence(links[0].op) >= min && 0 < n <= |links|
    requires Climb(links[0].operand, LinkTokens(links[1..]) + rest, BinaryPrecedence(links[0].op) + 1) ==
             Ok((Tree(links[0].operand, links[1..n]), LinkTokens(links[n..]) + rest))
    ensures Climb(left, LinkTokens(links) + rest, min) ==
            Climb(Binary(Read(links[0].op), left, Tree(links[0].operand, links[1..n])), LinkTokens(links[n..]) + rest, min)
  {
    TokensAppend(links, rest);
    var more := LinkTokens(links[1..]) + rest;
    assert LinkedAt(links, rest, 0);
    hide LinkTokens, Tree, Stops, BinaryPrecedence, Climb, ParseExpr, Read, Linked;
    assert ParseExpr(links[0].tokens + more, BinaryPrecedence(links[0].op) + 1) ==
           Climb(links[0].operand, more, BinaryPrecedence(links[0].op) + 1);
    ClimbInfix(left, links[0].op, links[0].tokens + more, min, Tree(links[0].operand, links[1..n]), LinkTokens(links[n..]) + rest);
  }

  /** The links the first operator takes are those tighter than it. */
  lemma ReachTighter(links: seq<Link>, n: nat)
    requires links != [] && n == 1 + Reach(links[1..], BinaryPrecedence(links[0].op) + 1)
    ensures 0 < n <= |links| && links[1..][..n - 1] == links[1..n] && links[1..][n - 1..] == links[n..]
    ensures forall i :: 0 < i < n ==> Tighter(ClassAt(links, i), ClassAt(links, 0))
    ensures n < |links| ==> !Tighter(ClassAt(links, n), ClassAt(links, 0))
  {
    var tail := links[1..];
    assert forall i :: 0 < i < |links| ==> links[i] == tail[i - 1];
    forall i | 0 < i < |links|
      ensures Tighter(ClassAt(links, i), ClassAt(links, 0)) <==> BinaryPrecedence(links[i].op) > BinaryPrecedence(links[0].op)
    {
      ClassesOrdered(links[i].op, links[0].op);
    }
    hide BinaryPrecedence, Tighter, ClassOf, Reach;
  }

  /** A climb reads as many operators as are tight enough, and makes their tree. */
  lemma {:induction false} ClimbTree(left: Expr, links: seq<Link>, rest: seq<Token>, min: nat)
    requires Linked(links, rest) && Stops(rest, min) && Clear(rest)
    ensures var k := Reach(links, min);
            Climb(left, LinkTokens(links) + rest, min) == Ok((Tree(left, links[..k]), LinkTokens(links[k..]) + rest))
    decreases |links|
  {
    hide Stops, Climb, BinaryPrecedence, Linked, Clear;
    var k := Reach(links, min);
    NoLinks(left);
    if links == [] {
      assert LinkTokens(links) + rest == rest && links[..0] == [] && links[0..] == [];
      ClimbStops(left, rest, min);
    } else {
      TokensAppend(links, rest);
      InfixStops(links[0].op, links[0].tokens + (LinkTokens(links[1..]) + rest), min);
      if BinaryPrecedence(links[0].op) < min {
        ClimbStops(left, LinkTokens(links) + rest, min);
        assert links[..0] == [] && links[0..] == links;
      } else {
        ClimbTreeStep(left, links, rest, min);
      }
    }
  }

  lemma {:induction false} ClimbTreeStep(left: Expr, links: seq<Link>, rest: seq<Token>, min: nat)
    requires links != [] && Linked(links, rest) && Stops(rest, min) && Clear(rest) && BinaryPrecedence(links[0].op) >= min
    ensures var k := Reach(links, min);
            Climb(left, LinkTokens(links) + rest, min) == Ok((Tree(left, links[..k]), LinkTokens(links[k..]) + rest))
    decreases |links|, 0
  {
    hide *;
    var p := BinaryPrecedence(links[0].op);
    var n, k := 1 + Reach(links[1..], p + 1), Reach(links, min);
    StopsTighter(rest, min, p + 1);
    FirstTakes(links, n, min);
    LinkedTail(links, rest, 1);
    LinkedTail(links, rest, n);
    ClimbTree(links[0].operand, links[1..], rest, p + 1);
    ClimbFirst(left, links, rest, min, n);
    var first := Binary(Read(links[0].op), left, Tree(links[0].operand, links[1..n]));
    ClimbTree(first, links[n..], rest, min);
    FirstFolds(left, links, min, n);
    assert links[n..][k - n..] == links[k..];
  }

  /** How many links the first operator takes, and how many a climb takes after them. */
  lemma FirstTakes(links: seq<Link>, n: nat, min: nat)
    requires links != [] && BinaryPrecedence(links[0].op) >= min
    requires n == 1 + Reach(links[1..], BinaryPrecedence(links[0].op) + 1)
    ensures 0 < n <= Reach(links, min) <= |links| && Reach(links[n..], min) == Reach(links, min) - n
    ensures links[1..][..n - 1] == links[1..n] && links[1..][n - 1..] == links[n..]
  {
    hide *;
    ReachTighter(links, n);
    ReachSplits(links, min, n);
  }

  lemma FirstFolds(x: Expr, links: seq<Link>, min: nat, n: nat)
    requires links != [] && BinaryPrecedence(links[0].op) >= min
    requires n == 1 + Reach(links[1..], BinaryPrecedence(links[0].op) + 1)
    ensures 0 < n <= Reach(links, min) <= |links|
    ensures Tree(x, links[..Reach(links, min)]) ==
            Tree(Binary(Read(links[0].op), x, Tree(links[0].operand, links[1..n])), links[n..][..Reach(links, min) - n])
  {
    hide *;
    ReachTighter(links, n);
    ReachSplits(links, min, n);
    FoldsWithin(x, links, n, Reach(links, min));
  }

  /** TreeFolds for the operators up to k. */
  lemma FoldsWithin(x: Expr, links: seq<Link>, n: nat, k: nat)
    requires 0 < n <= k <= |links|
    requires forall i :: 0 < i < n ==> Tighter(ClassAt(links, i), ClassAt(links, 0))
    requires n < |links| ==> !Tighter(ClassAt(links, n), ClassAt(links, 0))
    ensures Tree(x, links[..k]) ==
            Tree(Binary(Read(links[0].op), x, Tree(links[0].operand, links[1..n])), links[n..][..k - n])
  {
    hide Tree, Tighter, Read, ClassOf;
    var taken := links[..k];
    assert forall i :: 0 <= i < k ==> ClassAt(taken, i) == ClassAt(links, i);
    TreeFolds(x, taken, n);
    assert taken[1..n] == links[1..n] && taken[n..] == links[n..][..k - n];
  }

  lemma StopsTighter(rest: seq<Token>, k: nat, l: nat)
    requires Stops(rest, k) && k <= l
    ensures Stops(rest, l)
  {
  }

  /** A climb at a higher precedence stops no later, and the lower one goes on from there. */
  lemma {:induction false} ReachLower(links: seq<Link>, lo: nat, hi: nat)
    requires lo <= hi
    ensures Reach(links, hi) <= Reach(links, lo)
    ensures Reach(links[Reach(links, hi)..], lo) == Reach(links, lo) - Reach(links, hi)
    decreases |links|
  {
    hide BinaryPrecedence;
    if links == [] || BinaryPrecedence(links[0].op) < hi {
      assert links[0..] == links;
    } else {
      ReachLower(links[1..], lo, hi);
      assert links[1..][Reach(links[1..], hi)..] == links[1 + Reach(links[1..], hi)..];
    }
  }

  lemma ReachSplits(links: seq<Link>, min: nat, n: nat)
    requires links != [] && BinaryPrecedence(links[0].op) >= min
    requires n == 1 + Reach(links[1..], BinaryPrecedence(links[0].op) + 1)
    ensures n <= Reach(links, min) <= |links| && Reach(links[n..], min) == Reach(links, min) - n
  {
    var p := BinaryPrecedence(links[0].op);
    hide BinaryPrecedence;
    ReachLower(links[1..], min, p + 1);
    assert links[1..][n - 1..] == links[n..];
    assert Reach(links, min) == 1 + Reach(links[1..], min);
  }

  // ------------------------------------------------------------------
  // Operands
  // ------------------------------------------------------------------

  /** Tokens read as x before any infix operator: a literal, a column, a call, anything in parentheses. */
  ghost predicate Operand(ts: seq<Token>, x: Expr) {
    forall rest :: Clear(rest) ==> ParseUnary(ts + rest) == Ok((x, rest))
  }

  const NO_BOUND: nat := PREC_ATOM + 1

  lemma OperandPhrase(ts: seq<Token>, x: Expr, min: nat)
    requires Operand(ts, x)
    ensures Phrase(ts, x, min, NO_BOUND)
  {
    hide ParseExpr, ParseUnary, Climb;
    forall rest | Stops(rest, NO_BOUND) && Clear(rest) ensures ParseExpr(ts + rest, min) == Climb(x, rest, min) {
      ExprIsUnary(ts + rest, min, x, rest);
    }
  }

  /** Plain operands make a chain. */
  lemma {:induction false} OperandsLinked(links: seq<Link>, rest: seq<Token>)
    requires forall i :: 0 <= i < |links| ==> Operand(links[i].tokens, links[i].operand) && links[i].below == NO_BOUND
    requires Clear(rest)
    ensures Linked(links, rest)
  {
    hide Operand, Phrase, Stops, Clear;
    forall i | 0 <= i < |links| ensures LinkedAt(links, rest, i) {
      OperandPhrase(links[i].tokens, links[i].operand, BinaryPrecedence(links[i].op) + 1);
      AnythingStops(LinkTokens(links[i + 1..]) + rest);
      TokensClear(links[i + 1..], rest);
    }
  }

  lemma AnythingStops(rest: seq<Token>)
    ensures Stops(rest, NO_BOUND)
  {
  }

  lemma TokensClear(links: seq<Link>, rest: seq<Token>)
    requires Clear(rest)
    ensures Clear(LinkTokens(links) + rest)
  {
    if links == [] {
      assert LinkTokens(links) + rest == rest;
    }
  }

  lemma LiteralOperand(v: Value)
    requires ProducibleValue(v)
    ensures Operand(PrintValue(v), Literal(v))
  {
    hide ParseUnary, PrintValue;
    forall rest ensures ParseUnary(PrintValue(v) + rest) == Ok((Literal(v), rest)) {
      LiteralParses(v, rest);
    }
  }

  lemma ColumnOperand(table: Name, name: Name)
    ensures Operand(if table == [] then [Word(name)] else [Word(table), Mark(Dot), Word(name)], Expr.Column(table, name))
  {
    hide ParseUnary;
    var ts := if table == [] then [Word(name)] else [Word(table), Mark(Dot), Word(name)];
    forall rest | Clear(rest) ensures ParseUnary(ts + rest) == Ok((Expr.Column(table, name), rest)) {
      ColumnParses(table, name, rest);
    }
  }

  /** Anything in parentheses is an operand. */
  lemma ParenthesesOperand(inner: seq<Token>, e: Expr)
    requires forall rest :: ParseExpr(inner + ([Mark(RParen)] + rest), PREC_LOWEST) == Ok((e, [Mark(RParen)] + rest))
    ensures Operand([Mark(LParen)] + inner + [Mark(RParen)], e)
  {
    hide ParseUnary, ParseExpr;
    forall rest | Clear(rest) ensures ParseUnary([Mark(LParen)] + inner + [Mark(RParen)] + rest) == Ok((e, rest)) {
      assert [Mark(LParen)] + inner + [Mark(RParen)] + rest == [Mark(LParen)] + (inner + ([Mark(RParen)] + rest));
      assert inner + ([Mark(RParen)] + rest) == inner + ([Mark(RParen)] + rest);
      ParenthesesParse(e, inner + ([Mark(RParen)] + rest), rest);
    }
  }

  /** What a sign makes of its operand: a minus goes into a number or stands before it, a plus is dropped. */
  ghost predicate SignedAs(minus: bool, x: Expr, e: Expr) {
    if !minus then e == x
    else if x.Literal? && x.value.IsNumeric() then e.Literal? && Negates(x.value, e.value)
    else e == Unary(MinusOp, x)
  }

  lemma SignedMeans(minus: bool, x: Expr)
    ensures SignedAs(minus, x, Signed(minus, x))
  {
    if x.Literal? && x.value.IsNumeric() {
      NegMeans(x.value);
    }
  }

  /** A sign binds tighter than any infix operator: a signed operand is an operand. */
  lemma SignOperand(minus: bool, ts: seq<Token>, x: Expr)
    requires Operand(ts, x)
    ensures Operand([Infix(if minus then SubOp else AddOp)] + ts, Signed(minus, x)) && SignedAs(minus, x, Signed(minus, x))
  {
    SignedMeans(minus, x);
    var sign := Infix(if minus then SubOp else AddOp);
    forall rest | Clear(rest) ensures ParseUnary([sign] + ts + rest) == Ok((Signed(minus, x), rest)) {
      SignParses(minus, ts + rest, x, rest);
      assert [sign] + ts + rest == [sign] + (ts + rest);
    }
  }

  lemma SignParses(minus: bool, inner: seq<Token>, x: Expr, rest: seq<Token>)
    requires ParseUnary(inner) == Ok((x, rest))
    ensures ParseUnary([Infix(if minus then SubOp else AddOp)] + inner) == Ok((Signed(minus, x), rest))
  {
    hide Signed;
    assert ([Infix(if minus then SubOp else AddOp)] + inner)[1..] == inner;
  }

  // ------------------------------------------------------------------
  // Literals and calls by their tokens
  // ------------------------------------------------------------------

  /** What each kind of literal token stands for; a number from 2^63 on and an infinite one are refused. */
  lemma LiteralTokens(n: nat, f: bits64, s: bytes, rest: seq<Token>)
    ensures ParseUnary([Kw(NullKw)] + rest) == Ok((Literal(Null), rest))
    ensures ParseUnary([Kw(TrueKw)] + rest) == Ok((Literal(Bool(true)), rest))
    ensures ParseUnary([Kw(FalseKw)] + rest) == Ok((Literal(Bool(false)), rest))
    ensures ParseUnary([Str(s)] + rest) == Ok((Literal(Text(s)), rest))
    ensures ParseUnary([Number(n)] + rest) ==
            if n < 0x8000_0000_0000_0000 then Ok((Literal(Int(n)), rest)) else Err(Syntax)
    ensures f < INF_MAGNITUDE ==> ParseUnary([Decimal(f)] + rest) == Ok((Literal(Float(f)), rest))
    ensures f == INF_MAGNITUDE ==> ParseUnary([Decimal(f)] + rest) == Err(Syntax)
  {
    assert forall t: Token :: ([t] + rest)[1..] == rest;
  }

  /** The bytes of a text in ASCII. */
  predicate Ascii(s: bytes, text: string) { |s| == |text| && forall i :: 0 <= i < |s| ==> s[i] as int == text[i] as int }

  lemma NamesSpelled()
    ensures Ascii(COUNT, "COUNT") && Ascii(SUM, "SUM") && Ascii(AVG, "AVG") && Ascii(MIN, "MIN") && Ascii(MAX, "MAX")
  {
  }

  /** f is g with any of its capitals written small, an S as a long s or an I without its dot. */
  predicate Spells(f: bytes, g: bytes)
    decreases |g|
  {
    if g == [] then f == []
    else
      || (f != [] && (f[0] == g[0] || f[0] as int == g[0] as int + 0x20) && Spells(f[1..], g[1..]))
      || (LONG_S <= f && g[0] == 0x53 && Spells(f[2..], g[1..]))
      || (DOTLESS_I <= f && g[0] == 0x49 && Spells(f[2..], g[1..]))
  }

  lemma {:induction false} Respelled(f: bytes, g: bytes)
    requires Capitals(g)
    ensures Spells(f, g) <==> ToUpper(f) == g
    decreases |f|
  {
    if f != [] && g != [] {
      assert Capitals(g[1..]);
      assert g == [g[0]] + g[1..];
      Respelled(f[1..], g[1..]);
      if LONG_S <= f || DOTLESS_I <= f {
        assert f[0] == 0xC5 || f[0] == 0xC4;
        Respelled(f[2..], g[1..]);
      }
    }
  }

  /** The word in front of a call is an aggregate's name exactly if it spells it. */
  lemma AnyCase(f: bytes, g: bytes)
    requires IsAggregate(g)
    ensures Spells(f, g) <==> ToUpper(f) == g
  {
    UpperAggregate(g);
    Respelled(f, g);
  }

  /** An aggregate in any spelling, over an argument without aggregates, is an operand. */
  lemma CallOperand(f: bytes, g: bytes, inner: seq<Token>, x: Expr)
    requires IsAggregate(g) && Spells(f, g) && !HasAggregate(x)
    requires forall rest :: ParseExpr(inner + ([Mark(RParen)] + rest), PREC_LOWEST) == Ok((x, [Mark(RParen)] + rest))
    ensures Operand([Word(f), Mark(LParen)] + inner + [Mark(RParen)], Call(g, x))
  {
    AnyCase(f, g);
    hide ParseUnary, ParseExpr, IsAggregate, Spells, HasAggregate, ToUpper;
    forall rest | Clear(rest)
      ensures ParseUnary([Word(f), Mark(LParen)] + inner + [Mark(RParen)] + rest) == Ok((Call(g, x), rest))
    {
      var more := inner + ([Mark(RParen)] + rest);
      assert [Word(f), Mark(LParen)] + inner + [Mark(RParen)] + rest == [Word(f), Mark(LParen)] + more;
      assert inner + ([Mark(RParen)] + rest) == more;
      CallReads(f, more, x, rest);
    }
  }

  /** A word with a parenthesis behind it is a call. */
  lemma WordCalls(f: bytes, more: seq<Token>)
    ensures ([Word(f), Mark(LParen)] + more)[2..] == more
    ensures ParseUnary([Word(f), Mark(LParen)] + more) == ParseCall([Word(f), Mark(LParen)] + more)
  {
    hide ParseCall;
    var ts := [Word(f), Mark(LParen)] + more;
    assert ParsePrimary(ts) == ParseCall(ts);
  }

  lemma CallReads(f: bytes, more: seq<Token>, x: Expr, rest: seq<Token>)
    requires IsAggregate(ToUpper(f)) && !HasAggregate(x) && ParseExpr(more, PREC_LOWEST) == Ok((x, [Mark(RParen)] + rest))
    ensures ParseUnary([Word(f), Mark(LParen)] + more) == Ok((Call(ToUpper(f), x), rest))
  {
    hide ParseExpr, ParseUnary, IsAggregate, ToUpper, HasAggregate, Expect;
    WordCalls(f, more);
    NoStarFirst(more);
    ExpectHead(Mark(RParen), rest);
  }

  lemma StarRefused(ts: seq<Token>)
    requires Peek(ts) == Infix(MulOp)
    ensures ParseUnary(ts) == Err(Syntax)
  {
    assert ParsePrimary(ts) == Err(Syntax);
  }

  lemma NoStarFirst(ts: seq<Token>)
    requires ParseExpr(ts, PREC_LOWEST).Ok?
    ensures Peek(ts) != Infix(MulOp)
  {
    hide Climb, ParseUnary;
    if Peek(ts) == Infix(MulOp) {
      StarRefused(ts);
    }
  }

  /** Only COUNT takes a star. */
  lemma StarReads(f: bytes, rest: seq<Token>)
    ensures ParseUnary([Word(f), Mark(LParen)] + ([Infix(MulOp), Mark(RParen)] + rest)) ==
            if Spells(f, COUNT) then Ok((StarCall(COUNT), rest)) else Err(Syntax)
  {
    AnyCase(f, COUNT);
    var more := [Infix(MulOp), Mark(RParen)] + rest;
    WordCalls(f, more);
    hide ToUpper, Spells, ParseUnary;
    assert ([Word(f), Mark(LParen)] + more)[3..] == [Mark(RParen)] + rest;
    ExpectHead(Mark(RParen), rest);
  }

  /** No other name can be called, and no aggregate inside another. */
  lemma CallRefused(f: bytes, more: seq<Token>)
    requires (forall g :: IsAggregate(g) ==> !Spells(f, g)) ||
             (ParseExpr(more, PREC_LOWEST).Ok? && HasAggregate(ParseExpr(more, PREC_LOWEST).value.0))
    ensures ParseUnary([Word(f), Mark(LParen)] + more) == Err(Syntax)
  {
    hide ParseExpr, ParseUnary, HasAggregate, ToUpper, Spells, IsAggregate;
    WordCalls(f, more);
    if IsAggregate(ToUpper(f)) {
      AnyCase(f, ToUpper(f));
      NoStarFirst(more);
    }
  }

  // ------------------------------------------------------------------
  // LIMIT and OFFSET by their tokens
  // ------------------------------------------------------------------

  /** A keyword and a number, or neither. */
  function CountTokens(k: Keyword, count: Option<nat>): seq<Token> {
    if count.None? then [] else [Kw(k), Number(count.value)]
  }

  /** LIMIT comes before OFFSET, each may be missing, and what is missing is -1 and 0. */
  lemma LimitsRead(count: Option<nat>, offset: Option<nat>, rest: seq<Token>)
    requires (count.Some? ==> count.value < 0x8000_0000_0000_0000) && (offset.Some? ==> offset.value < 0x8000_0000_0000_0000)
    requires Stops(rest, PREC_LOWEST) && Peek(rest) != Kw(LimitKw) && Peek(rest) != Kw(OffsetKw)
    ensures ParseLimits(CountTokens(LimitKw, count) + (CountTokens(OffsetKw, offset) + rest)) ==
            Ok((Limits(if count.Some? then count.value else -1, if offset.Some? then offset.value else 0), rest))
  {
    var more := CountTokens(OffsetKw, offset) + rest;
    CountReads(OffsetKw, 0, offset, rest);
    CountReads(LimitKw, -1, count, more);
    hide ParseCountAfter, Stops;
  }

  lemma CountReads(k: Keyword, absent: int64, count: Option<nat>, rest: seq<Token>)
    requires count.Some? ==> count.value < 0x8000_0000_0000_0000
    requires Stops(rest, PREC_LOWEST) && Peek(rest) != Kw(k)
    ensures ParseCountAfter(k, absent, CountTokens(k, count) + rest) ==
            Ok((if count.Some? then count.value else absent, rest))
    ensures k == OffsetKw && Peek(rest) != Kw(LimitKw) ==>
              Stops(CountTokens(k, count) + rest, PREC_LOWEST) && Peek(CountTokens(k, count) + rest) != Kw(LimitKw)
  {
    if count.Some? {
      var more := [Number(count.value)] + rest;
      assert CountTokens(k, count) + rest == [Kw(k)] + more && ([Kw(k)] + more)[1..] == more;
      LiteralTokens(count.value, 0, [], rest);
      hide ParseUnary, Climb;
      ExprIsUnary(more, PREC_LOWEST, Literal(Int(count.value)), rest);
      ClimbStops(Literal(Int(count.value)), rest, PREC_LOWEST);
    } else {
      assert CountTokens(k, count) + rest == rest;
    }
  }

  // ------------------------------------------------------------------
  // Chains
  // ------------------------------------------------------------------

  lemma ReachAll(links: seq<Link>)
    ensures Reach(links, PREC_LOWEST) == |links|
  {
    ReachIs(links, PREC_LOWEST, |links|);
  }

  /**
   * A chain of operators with a phrase before the first and after each is read as the tree in which the
   * last of the loosest operators is the root.
   */
  lemma PhrasesParse(xs: seq<Token>, x: Expr, below: nat, links: seq<Link>)
    requires Phrase(xs, x, PREC_LOWEST, below) && Linked(links, [])
    requires Stops(LinkTokens(links), below) && Clear(LinkTokens(links))
    ensures Parse(xs + LinkTokens(links)) == Ok(Tree(x, links))
  {
    assert Stops([], PREC_LOWEST) && Clear([]);
    hide Stops, Clear, Climb, ParseExpr, LinkTokens, Tree, Linked, Reach;
    ClimbTree(x, links, [], PREC_LOWEST);
    ReachAll(links);
    assert links[..|links|] == links && links[|links|..] == [];
    assert LinkTokens(links) + [] == LinkTokens(links) && LinkTokens([]) + [] == [] by {
      NoTokens();
    }
  }

  lemma NoTokens()
    ensures LinkTokens([]) == []
  {
  }

  /** `x p y q z ...` over plain operands. */
  lemma ChainParses(xs: seq<Token>, x: Expr, links: seq<Link>)
    requires Operand(xs, x)
    requires forall i :: 0 <= i < |links| ==> Operand(links[i].tokens, links[i].operand) && links[i].below == NO_BOUND
    ensures Parse(xs + LinkTokens(links)) == Ok(Tree(x, links))
  {
    OperandPhrase(xs, x, PREC_LOWEST);
    assert Clear([]);
    OperandsLinked(links, []);
    AnythingStops(LinkTokens(links));
    TokensClear(links, []);
    assert LinkTokens(links) + [] == LinkTokens(links);
    hide Operand, Phrase, Linked, Stops, Clear, Tree, Parse, LinkTokens;
    PhrasesParse(xs, x, NO_BOUND, links);
  }

  /** Three operands: the second operator takes the middle one if it is tighter, the first one otherwise. */
  lemma ThreeOperands(xs: seq<Token>, x: Expr, p: BinOp, ys: seq<Token>, y: Expr, q: BinOp, zs: seq<Token>, z: Expr)
    requires Operand(xs, x) && Operand(ys, y) && Operand(zs, z)
    ensures Parse(xs + [Infix(p)] + ys + [Infix(q)] + zs) ==
            Ok(if Tighter(ClassOf(q), ClassOf(p)) then Binary(Read(p), x, Binary(Read(q), y, z))
               else Binary(Read(q), Binary(Read(p), x, y), z))
  {
    var a, b := Link(p, ys, y, NO_BOUND), Link(q, zs, z, NO_BOUND);
    var links := [a, b];
    TwoTokens(a, b);
    assert xs + [Infix(p)] + ys + [Infix(q)] + zs == xs + LinkTokens(links);
    TwoTree(x, a, b);
    hide Operand, LinkTokens, Tree, Parse, Tighter, ClassOf;
    ChainParses(xs, x, links);
  }

  lemma TwoTokens(a: Link, b: Link)
    ensures LinkTokens([a, b]) == [Infix(a.op)] + a.tokens + ([Infix(b.op)] + b.tokens)
  {
    assert [a, b][1..] == [b] && [b][1..] == [];
    assert LinkTokens([b]) == [Infix(b.op)] + b.tokens + [];
  }

  lemma OneTree(x: Expr, a: Link)
    ensures Tree(x, [a]) == Binary(Read(a.op), x, a.operand)
  {
    TreeAt(x, [a], 0);
    assert [a][..0] == [] && [a][1..] == [];
  }

  lemma TwoTree(x: Expr, a: Link, b: Link)
    ensures Tree(x, [a, b]) ==
            if Tighter(ClassOf(b.op), ClassOf(a.op)) then Binary(Read(a.op), x, Binary(Read(b.op), a.operand, b.operand))
            else Binary(Read(b.op), Binary(Read(a.op), x, a.operand), b.operand)
  {
    var links := [a, b];
    OneTree(x, a);
    OneTree(a.operand, b);
    NoLinks(b.operand);
    NoLinks(x);
    assert links[..1] == [a] && links[2..] == [] && links[..0] == [] && links[1..] == [b];
    hide Tree;
    if Tighter(ClassOf(b.op), ClassOf(a.op)) {
      TreeAt(x, links, 0);
    } else {
      TreeAt(x, links, 1);
    }
  }

  // ------------------------------------------------------------------
  // NOT
  // ------------------------------------------------------------------

  ghost predicate NoneLogical(links: seq<Link>) { forall i :: 0 <= i < |links| ==> !Logical(links[i].op) }

  /**
   * NOT takes everything up to the next AND or OR: with comparisons and arithmetic behind its operand it
   * is a phrase that only AND and OR can follow.
   */
  lemma NotPhrase(xs: seq<Token>, x: Expr, below: nat, links: seq<Link>, min: nat)
    requires Phrase(xs, x, PREC_COMPARE, below) && NoneLogical(links)
    requires forall rest :: Stops(rest, PREC_COMPARE) && Clear(rest) ==>
               Linked(links, rest) && Stops(LinkTokens(links) + rest, below) && Clear(LinkTokens(links) + rest)
    ensures Phrase([Kw(NotKw)] + xs + LinkTokens(links), Unary(NotOp, Tree(x, links)), min, PREC_COMPARE)
  {
    hide Stops, Clear, ParseExpr, ParseUnary, Climb, LinkTokens, Tree, Linked, Reach;
    forall rest | Stops(rest, PREC_COMPARE) && Clear(rest)
      ensures ParseExpr([Kw(NotKw)] + xs + LinkTokens(links) + rest, min) == Climb(Unary(NotOp, Tree(x, links)), rest, min)
    {
      ClimbTree(x, links, rest, PREC_COMPARE);
      TightReach(links);
      assert links[..|links|] == links && links[|links|..] == [];
      NoTokens();
      assert [] + rest == rest;
      var inner := xs + (LinkTokens(links) + rest);
      NotParses(Tree(x, links), inner, rest);
      assert [Kw(NotKw)] + xs + LinkTokens(links) + rest == [Kw(NotKw)] + inner;
      ExprIsUnary([Kw(NotKw)] + inner, min, Unary(NotOp, Tree(x, links)), rest);
    }
  }

  lemma TightReach(links: seq<Link>)
    requires NoneLogical(links)
    ensures Reach(links, PREC_COMPARE) == |links|
  {
    forall i | 0 <= i < |links| ensures BinaryPrecedence(links[i].op) >= PREC_COMPARE {
      ClassesOrdered(links[i].op, links[i].op);
    }
    ReachIs(links, PREC_COMPARE, |links|);
  }

  /** `NOT x p y`: over a comparison or arithmetic the NOT is the root, and under AND and OR it is not. */
  lemma NotOver(xs: seq<Token>, x: Expr, p: BinOp, ys: seq<Token>, y: Expr)
    requires Operand(xs, x) && Operand(ys, y)
    ensures Parse([Kw(NotKw)] + xs + [Infix(p)] + ys) ==
            Ok(if Logical(p) then Binary(p, Unary(NotOp, x), y) else Unary(NotOp, Binary(Read(p), x, y)))
  {
    var a := Link(p, ys, y, NO_BOUND);
    ClassesOrdered(p, p);
    assert [a][1..] == [] && LinkTokens([a]) == [Infix(p)] + ys + [];
    if Logical(p) {
      NotAlone(xs, x);
      NotLogical(xs, x, a);
    } else {
      NotTight(xs, x, a);
    }
  }

  lemma NotAlone(xs: seq<Token>, x: Expr)
    requires Operand(xs, x)
    ensures Phrase([Kw(NotKw)] + xs, Unary(NotOp, x), PREC_LOWEST, PREC_COMPARE)
  {
    OperandPhrase(xs, x, PREC_COMPARE);
    NoTokens();
    NoLinks(x);
    hide Operand, Phrase, Tree, LinkTokens;
    forall rest | Stops(rest, PREC_COMPARE) && Clear(rest)
      ensures Linked([], rest) && Stops(LinkTokens([]) + rest, NO_BOUND) && Clear(LinkTokens([]) + rest)
    {
      assert LinkTokens([]) + rest == rest;
      AnythingStops(rest);
    }
    NotPhrase(xs, x, NO_BOUND, [], PREC_LOWEST);
    assert [Kw(NotKw)] + xs + LinkTokens([]) == [Kw(NotKw)] + xs;
  }

  lemma NotLogical(xs: seq<Token>, x: Expr, a: Link)
    requires Phrase([Kw(NotKw)] + xs, Unary(NotOp, x), PREC_LOWEST, PREC_COMPARE)
    requires Logical(a.op) && a.below == NO_BOUND && Operand(a.tokens, a.operand)
    ensures Parse([Kw(NotKw)] + xs + [Infix(a.op)] + a.tokens) == Ok(Binary(a.op, Unary(NotOp, x), a.operand))
  {
    ClassesOrdered(a.op, a.op);
    assert [a][1..] == [] && LinkTokens([a]) == [Infix(a.op)] + a.tokens + [];
    assert Clear([]);
    OperandsLinked([a], []);
    InfixStops(a.op, a.tokens, PREC_COMPARE);
    OneTree(Unary(NotOp, x), a);
    hide Operand, Phrase, Stops, Clear, LinkTokens, Tree, Linked, Parse;
    assert LinkTokens([a]) == [Infix(a.op)] + a.tokens;
    PhrasesParse([Kw(NotKw)] + xs, Unary(NotOp, x), PREC_COMPARE, [a]);
    assert [Kw(NotKw)] + xs + [Infix(a.op)] + a.tokens == [Kw(NotKw)] + xs + LinkTokens([a]);
  }

  lemma NotTight(xs: seq<Token>, x: Expr, a: Link)
    requires Operand(xs, x) && !Logical(a.op) && a.below == NO_BOUND && Operand(a.tokens, a.operand)
    ensures Parse([Kw(NotKw)] + xs + [Infix(a.op)] + a.tokens) == Ok(Unary(NotOp, Binary(Read(a.op), x, a.operand)))
  {
    assert [a][1..] == [] && LinkTokens([a]) == [Infix(a.op)] + a.tokens + [];
    OperandPhrase(xs, x, PREC_COMPARE);
    OneTree(x, a);
    assert Stops([], PREC_COMPARE) && Clear([]);
    NoLinks(Unary(NotOp, Tree(x, [a])));
    NoTokens();
    hide Operand, Phrase, Stops, Clear, LinkTokens, Tree, Linked, Parse;
    forall rest | Stops(rest, PREC_COMPARE) && Clear(rest)
      ensures Linked([a], rest) && Stops(LinkTokens([a]) + rest, NO_BOUND) && Clear(LinkTokens([a]) + rest)
    {
      OperandsLinked([a], rest);
      AnythingStops(LinkTokens([a]) + rest);
      TokensClear([a], rest);
    }
    NotPhrase(xs, x, NO_BOUND, [a], PREC_LOWEST);
    var ts := [Kw(NotKw)] + xs + LinkTokens([a]);
    OperandsLinked([], []);
    PhrasesParse(ts, Unary(NotOp, Tree(x, [a])), PREC_COMPARE, []);
    assert ts + LinkTokens([]) == ts;
    assert LinkTokens([a]) == [Infix(a.op)] + a.tokens;
    assert [Kw(NotKw)] + xs + [Infix(a.op)] + a.tokens == ts;
  }

  // ------------------------------------------------------------------
  // The postfix predicates
  // ------------------------------------------------------------------

  datatype Suffix =
    | NullTest(not: bool)
    | Range(lo: Expr, hi: Expr, not: bool)
    | Members(list: seq<Expr>, not: bool)
    | Pattern(pattern: Expr, not: bool)

  function Attach(s: Suffix, x: Expr): Expr {
    match s
    case NullTest(not) => IsNull(x, not)
    case Range(lo, hi, not) => Between(x, lo, hi, not)
    case Members(list, not) => In(x, list, not)
    case Pattern(p, not) => Like(x, p, not)
  }

  /** Tokens that read as this predicate behind any operand, wherever what follows binds less tightly than below. */
  ghost predicate SuffixReads(ps: seq<Token>, s: Suffix, below: nat) {
    && ps != [] && OpensPostfix(ps[0])
    && forall left, rest :: Stops(rest, below) && Clear(rest) ==> Postfix(left, ps + rest) == Ok((Some(Attach(s, left)), rest))
  }

  /** IS NULL and IS NOT NULL. */
  lemma NullTestReads(not: bool)
    ensures SuffixReads([Kw(IsKw)] + (if not then [Kw(NotKw)] else []) + [Kw(NullKw)], NullTest(not), NO_BOUND)
  {
    var ps := [Kw(IsKw)] + (if not then [Kw(NotKw)] else []) + [Kw(NullKw)];
    forall left, rest | Stops(rest, NO_BOUND) && Clear(rest)
      ensures Postfix(left, ps + rest) == Ok((Some(IsNull(left, not)), rest))
    {
      var ts := ps + rest;
      ExpectHead(Kw(NullKw), rest);
      if not {
        assert ts[2..] == [Kw(NullKw)] + rest && Peek(ts[1..]) == Kw(NotKw);
      } else {
        assert ts[1..] == [Kw(NullKw)] + rest;
      }
    }
  }

  function NotTokens(not: bool): seq<Token> { if not then [Kw(NotKw)] else [] }

  /** A NOT in front of BETWEEN, IN or LIKE negates that predicate. */
  lemma NotBefore(left: Expr, not: bool, k: Keyword, more: seq<Token>)
    requires k == BetweenKw || k == InKw || k == LikeKw
    ensures Postfix(left, NotTokens(not) + ([Kw(k)] + more)) == PostfixAfterNot(left, [Kw(k)] + more, not)
    ensures ([Kw(k)] + more)[1..] == more
  {
    PostfixNot(left, not, [Kw(k)] + more);
  }

  /** BETWEEN takes arithmetic for its bounds and nothing looser, so the AND between them is its own. */
  lemma RangeReads(as_: seq<Token>, lo: Expr, bs: seq<Token>, hi: Expr, below: nat, not: bool)
    requires Phrase(as_, lo, PREC_ADD, below) && Phrase(bs, hi, PREC_ADD, below) && below >= PREC_ADD
    ensures SuffixReads(NotTokens(not) + ([Kw(BetweenKw)] + (as_ + ([Infix(AndOp)] + bs))), Range(lo, hi, not), PREC_ADD)
  {
    var ps := NotTokens(not) + ([Kw(BetweenKw)] + (as_ + ([Infix(AndOp)] + bs)));
    hide ParseExpr, Climb, PostfixAfterNot;
    forall left, rest | Stops(rest, PREC_ADD) && Clear(rest)
      ensures Postfix(left, ps + rest) == Ok((Some(Between(left, lo, hi, not)), rest))
    {
      var mid := [Infix(AndOp)] + (bs + rest);
      assert ps + rest == NotTokens(not) + ([Kw(BetweenKw)] + (as_ + mid));
      NotBefore(left, not, BetweenKw, as_ + mid);
      InfixStops(AndOp, bs + rest, PREC_ADD);
      InfixStops(AndOp, bs + rest, below);
      StopsTighter(rest, PREC_ADD, below);
      ClimbStops(lo, mid, PREC_ADD);
      ClimbStops(hi, rest, PREC_ADD);
      ExpectHead(Infix(AndOp), bs + rest);
      BetweenRead(left, as_ + mid, lo, mid, bs + rest, hi, rest, not);
    }
  }

  lemma BetweenRead(left: Expr, ts: seq<Token>, lo: Expr, mid: seq<Token>, more: seq<Token>, hi: Expr, rest: seq<Token>, not: bool)
    requires ParseExpr(ts, PREC_ADD) == Ok((lo, mid)) && Expect(mid, Infix(AndOp)) == Ok(more)
    requires ParseExpr(more, PREC_ADD) == Ok((hi, rest))
    ensures PostfixAfterNot(left, [Kw(BetweenKw)] + ts, not) == Ok((Some(Between(left, lo, hi, not)), rest))
  {
    hide ParseExpr;
    assert ([Kw(BetweenKw)] + ts)[1..] == ts;
  }

  /** LIKE takes arithmetic for its pattern and nothing looser. */
  lemma PatternReads(qs: seq<Token>, p: Expr, below: nat, not: bool)
    requires Phrase(qs, p, PREC_COMPARE + 1, below) && below >= PREC_ADD
    ensures SuffixReads(NotTokens(not) + ([Kw(LikeKw)] + qs), Pattern(p, not), PREC_ADD)
  {
    var ps := NotTokens(not) + ([Kw(LikeKw)] + qs);
    hide ParseExpr, Climb, PostfixAfterNot;
    forall left, rest | Stops(rest, PREC_ADD) && Clear(rest)
      ensures Postfix(left, ps + rest) == Ok((Some(Like(left, p, not)), rest))
    {
      assert ps + rest == NotTokens(not) + ([Kw(LikeKw)] + (qs + rest));
      NotBefore(left, not, LikeKw, qs + rest);
      StopsTighter(rest, PREC_ADD, below);
      ClimbStops(p, rest, PREC_ADD);
      LikeRead(left, qs + rest, p, rest, not);
    }
  }

  lemma LikeRead(left: Expr, ts: seq<Token>, p: Expr, rest: seq<Token>, not: bool)
    requires ParseExpr(ts, PREC_COMPARE + 1) == Ok((p, rest))
    ensures PostfixAfterNot(left, [Kw(LikeKw)] + ts, not) == Ok((Some(Like(left, p, not)), rest))
  {
    hide ParseExpr;
    assert ([Kw(LikeKw)] + ts)[1..] == ts;
  }

  /** Tokens that read as a list of expressions in front of a closing parenthesis. */
  ghost predicate Items(items: seq<Token>, list: seq<Expr>) {
    && items != [] && items[0] != Kw(SelectKw)
    && forall rest :: ParseList(items + ([Mark(RParen)] + rest)) == Ok((list, [Mark(RParen)] + rest))
  }

  /** IN with the items in parentheses, whatever is in them. */
  lemma MembersRead(items: seq<Token>, list: seq<Expr>, not: bool)
    requires Items(items, list)
    ensures SuffixReads(NotTokens(not) + ([Kw(InKw), Mark(LParen)] + items + [Mark(RParen)]), Members(list, not), NO_BOUND)
  {
    hide Items, ParseList, Postfix, Stops, Clear;
    var ps := NotTokens(not) + ([Kw(InKw), Mark(LParen)] + items + [Mark(RParen)]);
    forall left, rest | Stops(rest, NO_BOUND) && Clear(rest)
      ensures Postfix(left, ps + rest) == Ok((Some(In(left, list, not)), rest))
    {
      var inner := items + ([Mark(RParen)] + rest);
      assert ps + rest == NotTokens(not) + ([Kw(InKw)] + ([Mark(LParen)] + inner));
      NotBefore(left, not, InKw, [Mark(LParen)] + inner);
      ItemsRead(items, list, rest);
      InRead(left, inner, list, rest, not);
    }
  }

  lemma ItemsRead(items: seq<Token>, list: seq<Expr>, rest: seq<Token>)
    requires Items(items, list)
    ensures ParseList(items + ([Mark(RParen)] + rest)) == Ok((list, [Mark(RParen)] + rest))
    ensures Peek(items + ([Mark(RParen)] + rest)) != Kw(SelectKw)
  {
    hide ParseList;
  }

  lemma InRead(left: Expr, inner: seq<Token>, list: seq<Expr>, rest: seq<Token>, not: bool)
    requires ParseList(inner) == Ok((list, [Mark(RParen)] + rest)) && Peek(inner) != Kw(SelectKw)
    ensures PostfixAfterNot(left, [Kw(InKw)] + ([Mark(LParen)] + inner), not) == Ok((Some(In(left, list, not)), rest))
  {
    hide ParseList;
    assert ([Kw(InKw)] + ([Mark(LParen)] + inner))[1..] == [Mark(LParen)] + inner;
    ExpectHead(Mark(LParen), inner);
    ExpectHead(Mark(RParen), rest);
  }

  lemma SuffixStops(ps: seq<Token>, rest: seq<Token>, min: nat)
    requires ps != [] && OpensPostfix(ps[0])
    ensures Clear(ps + rest) && (min > PREC_COMPARE ==> Stops(ps + rest, min))
  {
  }

  /** A climb that takes comparisons takes all of a chain without AND and OR before it comes to the predicate. */
  lemma {:induction false} ClimbToSuffix(left: Expr, links: seq<Link>, ps: seq<Token>, min: nat)
    requires min <= PREC_COMPARE && NoneLogical(links) && Linked(links, ps) && ps != [] && OpensPostfix(ps[0])
    ensures Climb(left, LinkTokens(links) + ps, min) == Climb(Tree(left, links), ps, min)
    decreases |links|
  {
    hide Climb, BinaryPrecedence, Linked, Stops, Clear;
    NoLinks(left);
    if links == [] {
      assert LinkTokens(links) + ps == ps;
    } else {
      ClassesOrdered(links[0].op, links[0].op);
      var p, n := BinaryPrecedence(links[0].op), 1 + Reach(links[1..], BinaryPrecedence(links[0].op) + 1);
      hide LinkTokens, Tree, Reach, Tighter, ClassOf, Read;
      SuffixStops(ps, [], p + 1);
      assert ps + [] == ps;
      ReachTighter(links, n);
      LinkedTail(links, ps, 1);
      LinkedTail(links, ps, n);
      ClimbTree(links[0].operand, links[1..], ps, p + 1);
      ClimbFirst(left, links, ps, min, n);
      ClimbToSuffix(Binary(Read(links[0].op), left, Tree(links[0].operand, links[1..n])), links[n..], ps, min);
      TreeFolds(left, links, n);
    }
  }

  /**
   * A postfix predicate takes for its operand everything back to the last AND, OR or NOT: with the
   * comparisons and arithmetic before it, it is one phrase, wherever comparisons are taken.
   */
  lemma SuffixPhrase(xs: seq<Token>, x: Expr, links: seq<Link>, ps: seq<Token>, s: Suffix, below: nat, min: nat)
    requires Operand(xs, x) && NoneLogical(links) && SuffixReads(ps, s, below) && min <= PREC_COMPARE
    requires forall i :: 0 <= i < |links| ==> Operand(links[i].tokens, links[i].operand) && links[i].below == NO_BOUND
    ensures Phrase(xs + LinkTokens(links) + ps, Attach(s, Tree(x, links)), min, below)
  {
    hide Operand, ParseExpr, Climb, LinkTokens, Tree, Attach, Stops, Clear, NoneLogical, SuffixReads;
    forall rest | Stops(rest, below) && Clear(rest)
      ensures ParseExpr(xs + LinkTokens(links) + ps + rest, min) == Climb(Attach(s, Tree(x, links)), rest, min)
    {
      SuffixPhraseAt(xs, x, links, ps, s, below, min, rest);
    }
  }

  lemma SuffixPhraseAt(xs: seq<Token>, x: Expr, links: seq<Link>, ps: seq<Token>, s: Suffix, below: nat, min: nat, rest: seq<Token>)
    requires Operand(xs, x) && NoneLogical(links) && SuffixReads(ps, s, below) && min <= PREC_COMPARE
    requires forall i :: 0 <= i < |links| ==> Operand(links[i].tokens, links[i].operand) && links[i].below == NO_BOUND
    requires Stops(rest, below) && Clear(rest)
    ensures ParseExpr(xs + LinkTokens(links) + ps + rest, min) == Climb(Attach(s, Tree(x, links)), rest, min)
  {
    hide *;
    var more := ps + rest;
    SuffixApplies(ps, s, below, Tree(x, links), rest);
    OperandsLinked(links, more);
    ClimbToSuffix(x, links, more, min);
    TokensClear(links, more);
    ClimbPostfix(Tree(x, links), more, min, Attach(s, Tree(x, links)), rest);
    OperandApplies(xs, x, min, LinkTokens(links) + more);
    assert xs + LinkTokens(links) + ps + rest == xs + (LinkTokens(links) + more);
  }

  lemma SuffixApplies(ps: seq<Token>, s: Suffix, below: nat, left: Expr, rest: seq<Token>)
    requires SuffixReads(ps, s, below) && Stops(rest, below) && Clear(rest)
    ensures Postfix(left, ps + rest) == Ok((Some(Attach(s, left)), rest))
    ensures Clear(ps + rest) && ps + rest != [] && OpensPostfix((ps + rest)[0])
  {
    hide Postfix, Attach, Stops;
  }

  lemma OperandApplies(xs: seq<Token>, x: Expr, min: nat, rest: seq<Token>)
    requires Operand(xs, x) && Clear(rest)
    ensures ParseExpr(xs + rest, min) == Climb(x, rest, min)
  {
    hide ParseExpr, ParseUnary, Climb;
    ExprIsUnary(xs + rest, min, x, rest);
  }

  /** `x p y <predicate>`: after AND and OR the predicate is about y, otherwise about the whole. */
  lemma SuffixOver(xs: seq<Token>, x: Expr, p: BinOp, ys: seq<Token>, y: Expr, ps: seq<Token>, s: Suffix, below: nat)
    requires Operand(xs, x) && Operand(ys, y) && SuffixReads(ps, s, below)
    ensures Parse(xs + [Infix(p)] + ys + ps) ==
            Ok(if Logical(p) then Binary(p, x, Attach(s, y)) else Attach(s, Binary(Read(p), x, y)))
  {
    hide Operand, SuffixReads, Parse, Attach;
    if Logical(p) {
      SuffixLogical(xs, x, p, ys, y, ps, s, below);
    } else {
      SuffixTight(xs, x, p, ys, y, ps, s, below);
    }
  }

  lemma SuffixLogical(xs: seq<Token>, x: Expr, p: BinOp, ys: seq<Token>, y: Expr, ps: seq<Token>, s: Suffix, below: nat)
    requires Operand(xs, x) && Operand(ys, y) && SuffixReads(ps, s, below) && Logical(p)
    ensures Parse(xs + [Infix(p)] + ys + ps) == Ok(Binary(Read(p), x, Attach(s, y)))
  {
    hide *;
    var a := Link(p, ys + ps, Attach(s, y), below);
    NothingAhead(below);
    ClassesOrdered(p, p);
    NoLinks(y);
    NoTokens();
    assert NoneLogical([]) by { NoneOfNone(); }
    SuffixPhrase(ys, y, [], ps, s, below, BinaryPrecedence(p) + 1);
    assert ys + LinkTokens([]) + ps == ys + ps;
    OneToken(a);
    OneTree(x, a);
    OneLinked(a);
    InfixStops(p, ys + ps, NO_BOUND);
    AnythingStops(LinkTokens([a]));
    OperandPhrase(xs, x, PREC_LOWEST);
    PhrasesParse(xs, x, NO_BOUND, [a]);
    assert xs + [Infix(p)] + ys + ps == xs + ([Infix(p)] + (ys + ps));
  }

  lemma SuffixTight(xs: seq<Token>, x: Expr, p: BinOp, ys: seq<Token>, y: Expr, ps: seq<Token>, s: Suffix, below: nat)
    requires Operand(xs, x) && Operand(ys, y) && SuffixReads(ps, s, below) && !Logical(p)
    ensures Parse(xs + [Infix(p)] + ys + ps) == Ok(Attach(s, Binary(Read(p), x, y)))
  {
    hide Operand, SuffixReads, Tree, LinkTokens, Stops, Clear, Parse, Attach, Phrase, Linked, Logical, Read, NoneLogical;
    var a := Link(p, ys, y, NO_BOUND);
    var ts := xs + LinkTokens([a]) + ps;
    OneToken(a);
    OneTree(x, a);
    NoneOfOne(a);
    NoTokens();
    NoLinks(Attach(s, Tree(x, [a])));
    NothingAhead(below);
    SuffixPhrase(xs, x, [a], ps, s, below, PREC_LOWEST);
    OperandsLinked([], []);
    PhrasesParse(ts, Attach(s, Tree(x, [a])), below, []);
    assert ts + LinkTokens([]) == ts;
    assert xs + [Infix(p)] + ys + ps == xs + ([Infix(p)] + ys) + ps;
  }

  lemma OneToken(a: Link)
    ensures LinkTokens([a]) == [Infix(a.op)] + a.tokens
  {
    assert [a][1..] == [] && LinkTokens([a]) == [Infix(a.op)] + a.tokens + [];
  }

  lemma NoneOfNone()
    ensures NoneLogical([])
  {
  }

  lemma NoneOfOne(a: Link)
    ensures NoneLogical([a]) <==> !Logical(a.op)
  {
    assert [a][0] == a;
  }

  lemma NothingAhead(below: nat)
    ensures Stops([], below) && Clear([])
  {
  }

  lemma OneLinked(a: Link)
    requires Phrase(a.tokens, a.operand, BinaryPrecedence(a.op) + 1, a.below)
    ensures Linked([a], [])
  {
    hide Phrase;
    assert [a][1..] == [] && LinkTokens([]) + [] == [];
  }

  // ------------------------------------------------------------------
  // Where the printer puts parentheses
  // ------------------------------------------------------------------

  function InParentheses(yes: bool, ts: seq<Token>): seq<Token> {
    if yes then [Mark(LParen)] + ts + [Mark(RParen)] else ts
  }

  /** Around a left operand that binds more loosely, and around a right one that does not bind tighter. */
  lemma InfixPrinted(p: BinOp, q: BinOp, x: Expr, y: Expr, z: Expr)
    requires Precedence(x) == Precedence(z) == PREC_ATOM
    ensures Print(Binary(p, Binary(q, x, y), z)) ==
            InParentheses(Tighter(ClassOf(p), ClassOf(q)), Print(Binary(q, x, y))) + [Infix(p)] + Print(z)
    ensures Print(Binary(p, z, Binary(q, x, y))) ==
            Print(z) + [Infix(p)] + InParentheses(!Tighter(ClassOf(q), ClassOf(p)), Print(Binary(q, x, y)))
  {
    ClassesOrdered(p, q);
    ClassesOrdered(q, p);
    hide BinaryPrecedence, Tighter, ClassOf;
  }

  /** NOT needs them around AND and OR, a minus around every operator. */
  lemma PrefixPrinted(q: BinOp, x: Expr, y: Expr)
    ensures Print(Unary(NotOp, Binary(q, x, y))) == [Kw(NotKw)] + InParentheses(Logical(q), Print(Binary(q, x, y)))
    ensures Print(Unary(MinusOp, Binary(q, x, y))) == [Infix(SubOp)] + InParentheses(true, Print(Binary(q, x, y)))
  {
    ClassesOrdered(q, q);
    hide Logical;
  }

  // ------------------------------------------------------------------
  // Two examples
  // ------------------------------------------------------------------

  /** `a = 1 OR b = 2 AND c = 3` */
  lemma AndBeforeOr(a: Name, b: Name, c: Name)
    ensures Parse([Word(a), Infix(EqOp), Number(1), Infix(OrOp), Word(b), Infix(EqOp), Number(2),
                   Infix(AndOp), Word(c), Infix(EqOp), Number(3)])
            == Ok(Binary(OrOp, ColumnIs(a, 1), Binary(AndOp, ColumnIs(b, 2), ColumnIs(c, 3))))
  {
    hide Operand, Parse, Tree;
    ColumnOperand([], a);
    ColumnOperand([], b);
    ColumnOperand([], c);
    LiteralOperand(Int(1));
    LiteralOperand(Int(2));
    LiteralOperand(Int(3));
    ChainParses([Word(a)], Expr.Column([], a), [Is(1), On(OrOp, b), Is(2), On(AndOp, c), Is(3)]);
    ExampleTokens(b, c);
    assert [Word(a)] + LinkTokens([Is(1), On(OrOp, b), Is(2), On(AndOp, c), Is(3)]) ==
           [Word(a), Infix(EqOp), Number(1), Infix(OrOp), Word(b), Infix(EqOp), Number(2),
            Infix(AndOp), Word(c), Infix(EqOp), Number(3)];
    ExampleTree(Expr.Column([], a), b, c);
  }

  function ColumnIs(n: Name, i: int64): Expr { Binary(EqOp, Expr.Column([], n), Literal(Int(i))) }

  function Is(i: int64): Link
    requires i >= 0
  {
    Link(EqOp, [Number(i)], Literal(Int(i)), NO_BOUND)
  }

  function On(op: BinOp, n: Name): Link { Link(op, [Word(n)], Expr.Column([], n), NO_BOUND) }

  lemma ExampleTokens(b: Name, c: Name)
    ensures LinkTokens([Is(1), On(OrOp, b), Is(2), On(AndOp, c), Is(3)]) ==
            [Infix(EqOp), Number(1), Infix(OrOp), Word(b), Infix(EqOp), Number(2), Infix(AndOp), Word(c), Infix(EqOp), Number(3)]
  {
    hide LinkTokens;
    FirstTokens(Is(1), [On(OrOp, b), Is(2), On(AndOp, c), Is(3)]);
    FirstTokens(On(OrOp, b), [Is(2), On(AndOp, c), Is(3)]);
    FirstTokens(Is(2), [On(AndOp, c), Is(3)]);
    assert [Is(1)] + [On(OrOp, b), Is(2), On(AndOp, c), Is(3)] == [Is(1), On(OrOp, b), Is(2), On(AndOp, c), Is(3)];
    assert [On(OrOp, b)] + [Is(2), On(AndOp, c), Is(3)] == [On(OrOp, b), Is(2), On(AndOp, c), Is(3)];
    assert [Is(2)] + [On(AndOp, c), Is(3)] == [Is(2), On(AndOp, c), Is(3)];
    TwoTokens(On(AndOp, c), Is(3));
  }

  lemma FirstTokens(a: Link, more: seq<Link>)
    ensures LinkTokens([a] + more) == [Infix(a.op)] + a.tokens + LinkTokens(more)
  {
    assert ([a] + more)[1..] == more;
  }

  lemma ExampleTree(x: Expr, b: Name, c: Name)
    ensures Tree(x, [Is(1), On(OrOp, b), Is(2), On(AndOp, c), Is(3)]) ==
            Binary(OrOp, Binary(EqOp, x, Literal(Int(1))), Binary(AndOp, ColumnIs(b, 2), ColumnIs(c, 3)))
  {
    hide Tree;
    var links := [Is(1), On(OrOp, b), Is(2), On(AndOp, c), Is(3)];
    var rest := [Is(2), On(AndOp, c), Is(3)];
    TreeAt(x, links, 1);
    assert links[..1] == [Is(1)] && links[2..] == rest;
    OneTree(x, Is(1));
    TreeAt(Expr.Column([], b), rest, 1);
    assert rest[..1] == [Is(2)] && rest[2..] == [Is(3)];
    OneTree(Expr.Column([], b), Is(2));
    OneTree(Expr.Column([], c), Is(3));
  }
}
