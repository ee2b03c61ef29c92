// What SQL values, comparisons, arithmetic and conditions mean (types/value.go, types/ops.go,
// exec/eval.go), in terms that do not evaluate anything, and the evaluator measured against it.
module Semantics {
  import opened Bytes
  import opened Values
  import opened Ast
  import opened Eval
  import LikeMatch

  // ------------------------------------------------------------------
  // The number a FLOAT stands for (IEEE 754-2019, section 3.4)
  // ------------------------------------------------------------------

  const TWO_52: int := 0x10_0000_0000_0000

  function Pow2(n: nat): (r: nat)
    ensures r > 0
  {
    if n == 0 then 1 else 2 * Pow2(n - 1)
  }

  function Exponent(f: bits64): nat { (f % TWO_63) / TWO_52 }

  function Fraction(f: bits64): nat { f % TWO_52 }

  predicate NotANumber(f: bits64) { Exponent(f) == 2047 && Fraction(f) != 0 }

  /** A magnitude in units of 2^-1074, the smallest there is; the infinities come next after the last number. */
  function Units(exponent: nat, fraction: nat): nat {
    if exponent == 0 then fraction else (TWO_52 + fraction) * Pow2(exponent - 1)
  }

  function Number(f: bits64): int {
    if f >= TWO_63 then 0 - Units(Exponent(f), Fraction(f)) else Units(Exponent(f), Fraction(f))
  }

  lemma {:induction false} Pow2Grows(a: nat, b: nat)
    requires a <= b
    ensures Pow2(a) <= Pow2(b)
  {
    if a < b {
      Pow2Grows(a, b - 1);
    }
  }

  lemma Scale(a: nat, b: nat, k: nat)
    requires a < b && k > 0
    ensures a * k < b * k
  {
  }

  lemma ScaleUp(a: nat, k: nat, l: nat)
    requires k <= l
    ensures a * k <= a * l
  {
  }

  lemma UnitsGrow(e: nat, m: nat, f: nat, n: nat)
    requires m < TWO_52 && n < TWO_52 && (e < f || (e == f && m < n))
    ensures Units(e, m) < Units(f, n)
  {
    if e == f {
      if e > 0 {
        Scale(TWO_52 + m, TWO_52 + n, Pow2(e - 1));
      }
    } else {
      var least := TWO_52 * Pow2(f - 1);
      assert least <= Units(f, n) by {
        Scale(TWO_52 - 1, TWO_52 + n, Pow2(f - 1));
        if n > 0 {
          Scale(TWO_52, TWO_52 + n, Pow2(f - 1));
        }
      }
      if e > 0 {
        Scale(TWO_52 + m, 2 * TWO_52, Pow2(e - 1));
        assert 2 * TWO_52 * Pow2(e - 1) == TWO_52 * Pow2(e);
        Pow2Grows(e, f - 1);
        ScaleUp(TWO_52, Pow2(e), Pow2(f - 1));
      } else {
        Pow2Grows(0, f - 1);
        ScaleUp(TWO_52, 1, Pow2(f - 1));
      }
    }
  }

  lemma Split(f: bits64)
    ensures Magnitude(f) == Exponent(f) * TWO_52 + Fraction(f) && Fraction(f) < TWO_52
    ensures Negative(f) <==> f >= TWO_63
    ensures IsNaN(f) <==> NotANumber(f)
  {
  }

  lemma UnitsOrder(a: bits64, b: bits64)
    ensures Magnitude(a) < Magnitude(b) <==> Units(Exponent(a), Fraction(a)) < Units(Exponent(b), Fraction(b))
    ensures Units(Exponent(a), Fraction(a)) == 0 <==> Magnitude(a) == 0
  {
    Split(a);
    Split(b);
    hide Units, Magnitude, Exponent, Fraction;
    if Magnitude(a) < Magnitude(b) {
      UnitsGrow(Exponent(a), Fraction(a), Exponent(b), Fraction(b));
    } else if Magnitude(b) < Magnitude(a) {
      UnitsGrow(Exponent(b), Fraction(b), Exponent(a), Fraction(a));
    }
    UnitsZero(Exponent(a), Fraction(a));
  }

  lemma UnitsZero(e: nat, m: nat)
    ensures Units(e, m) == 0 <==> e == 0 && m == 0
  {
    if e > 0 {
      Scale(0, TWO_52 + m, Pow2(e - 1));
    }
  }

  /** The code's place on the number line orders floats as the numbers they stand for. */
  lemma PlaceIsNumber(a: bits64, b: bits64)
    ensures Place(a) < Place(b) <==> Number(a) < Number(b)
    ensures Place(a) == Place(b) <==> Number(a) == Number(b)
  {
    UnitsOrder(a, b);
    UnitsOrder(b, a);
    hide Units, Exponent, Fraction;
  }

  // ------------------------------------------------------------------
  // Which value is below which
  // ------------------------------------------------------------------

  /** NaN is above every number. */
  predicate FloatBelow(a: bits64, b: bits64) {
    !NotANumber(a) && (NotANumber(b) || Number(a) < Number(b))
  }

  lemma CmpFloatMeans(a: bits64, b: bits64)
    ensures CmpFloat(a, b) < 0 <==> FloatBelow(a, b)
    ensures CmpFloat(a, b) > 0 <==> FloatBelow(b, a)
  {
    Split(a);
    Split(b);
    PlaceIsNumber(a, b);
    PlaceIsNumber(b, a);
    hide Place, Number, IsNaN, NotANumber;
  }

  /** SQL's `<` between two values that can be compared: numbers across INT and FLOAT, texts by their bytes. */
  ghost predicate Below(h: Host, a: Value, b: Value) {
    match (a, b)
    case (Int(x), Int(y)) => x < y
    case (Int(x), Float(g)) => FloatBelow(h.ofInt(x), g)
    case (Float(f), Int(y)) => FloatBelow(f, h.ofInt(y))
    case (Float(f), Float(g)) => FloatBelow(f, g)
    case (Text(s), Text(t)) => LexBelow(s, t)
    case (Bool(x), Bool(y)) => !x && y
    case _ => false
  }

  predicate Comparable(a: Value, b: Value) {
    a.Null? || b.Null? || (a.IsNumeric() && b.IsNumeric()) || (a.Text? && b.Text?) || (a.Bool? && b.Bool?)
  }

  ghost predicate Same(h: Host, a: Value, b: Value) { !Below(h, a, b) && !Below(h, b, a) }

  /** A comparison is decided only between values that are both there. */
  ghost predicate Compares(h: Host, op: BinOp, a: Value, b: Value) {
    !a.Null? && !b.Null? &&
    match op
    case EqOp => Same(h, a, b)
    case EqEqOp => Same(h, a, b)
    case NeOp => !Same(h, a, b)
    case LtGtOp => !Same(h, a, b)
    case LtOp => Below(h, a, b)
    case LeOp => !Below(h, b, a)
    case GtOp => Below(h, b, a)
    case GeOp => !Below(h, a, b)
    case _ => false
  }

  ghost predicate Contradicts(h: Host, op: BinOp, a: Value, b: Value) {
    !a.Null? && !b.Null? && !Compares(h, op, a, b)
  }

  lemma CompareMeans(h: Host, a: Value, b: Value)
    requires !a.Null? && !b.Null?
    ensures Compare(h, a, b).Ok? <==> Comparable(a, b)
    ensures Compare(h, a, b).Ok? ==> (Compare(h, a, b).value < 0 <==> Below(h, a, b))
    ensures Compare(h, a, b).Ok? ==> (Compare(h, a, b).value > 0 <==> Below(h, b, a))
  {
    hide CmpFloat, FloatBelow, Cmp, LexBelow;
    match (a, b)
    case (Int(x), Float(g)) => CmpFloatMeans(h.ofInt(x), g);
    case (Float(f), Int(y)) => CmpFloatMeans(f, h.ofInt(y));
    case (Float(f), Float(g)) => CmpFloatMeans(f, g);
    case (Text(s), Text(t)) => CmpIsLex(s, t);
    case _ =>
  }

  lemma CompareOpMeans(h: Host, op: BinOp, a: Value, b: Value)
    requires Comparison(op).Some?
    ensures CompareOp(h, Comparison(op).value, a, b).Ok? <==> Comparable(a, b)
    ensures CompareOp(h, Comparison(op).value, a, b).Ok? ==>
              && (CompareOp(h, Comparison(op).value, a, b).value.True? <==> Compares(h, op, a, b))
              && (CompareOp(h, Comparison(op).value, a, b).value.False? <==> Contradicts(h, op, a, b))
  {
    hide Compare, Below, Comparable;
    if !a.Null? && !b.Null? {
      CompareMeans(h, a, b);
    } else {
      NullCompares(a, b);
    }
  }

  lemma NullCompares(a: Value, b: Value)
    requires a.Null? || b.Null?
    ensures Comparable(a, b)
  {
  }

  /** ORDER BY: NULL, then BOOL, INT, FLOAT and TEXT, each in its own order. */
  ghost predicate Earlier(a: Value, b: Value) {
    match a
    case Null => !b.Null?
    case Bool(x) => if b.Bool? then !x && b.b else b.Int? || b.Float? || b.Text?
    case Int(x) => if b.Int? then x < b.i else b.Float? || b.Text?
    case Float(f) => if b.Float? then FloatBelow(f, b.bits) else b.Text?
    case Text(s) => b.Text? && LexBelow(s, b.s)
  }

  lemma OrderMeans(a: Value, b: Value)
    ensures Order(a, b) < 0 <==> Earlier(a, b)
    ensures Order(a, b) > 0 <==> Earlier(b, a)
  {
    hide CmpFloat, FloatBelow, Cmp, LexBelow;
    match (a, b)
    case (Float(f), Float(g)) => CmpFloatMeans(f, g);
    case (Text(s), Text(t)) => CmpIsLex(s, t);
    case _ =>
  }

  // ------------------------------------------------------------------
  // Arithmetic
  // ------------------------------------------------------------------

  predicate Congruent(a: int, b: int) { (a - b) % TWO_64 == 0 }

  /** Truncating division, said by its remainder. */
  predicate Divides(x: int, y: int, q: int, r: int) {
    x == y * q + r && (if y < 0 then -y else y) > (if r < 0 then -r else r) && (r != 0 ==> (r < 0 <==> x < 0))
  }

  lemma WrapMeans(x: int)
    ensures Congruent(Wrap(x), x)
  {
    var q := (x + TWO_63) / TWO_64;
    assert Wrap(x) == x - q * TWO_64;
    assert Wrap(x) - x == (-q) * TWO_64;
    Multiple(-q);
  }

  lemma Multiple(k: int)
    ensures k * TWO_64 % TWO_64 == 0
  {
  }

  /** Two 64-bit numbers that are congruent are one. */
  lemma CongruentUnique(a: int64, b: int64)
    requires Congruent(a, b)
    ensures a == b
  {
  }

  lemma QuoRem(x: int, y: int)
    requires y != 0
    ensures Divides(x, y, Quo(x, y), Rem(x, y))
  {
    var a, b := if x < 0 then -x else x, if y < 0 then -y else y;
    assert a == b * (a / b) + a % b;
    if (x < 0) == (y < 0) {
      assert Quo(x, y) == a / b;
      assert y * (a / b) == if y < 0 then -(b * (a / b)) else b * (a / b);
    } else {
      assert Quo(x, y) == -(a / b);
      assert y * -(a / b) == if y < 0 then b * (a / b) else -(b * (a / b));
    }
  }

  lemma DividesBounds(x: int, y: int, q: int, r: int)
    requires Divides(x, y, q, r)
    ensures -TWO_63 <= x < TWO_63 && -TWO_63 <= y < TWO_63 ==> -TWO_63 <= r < TWO_63
  {
  }

  /** When an operator has a result: NULL always wins, `%` is for INTs and nothing divides by zero. */
  predicate Computable(h: Host, op: ArithOp, a: Value, b: Value) {
    a.Null? || b.Null? ||
    (a.IsNumeric() && b.IsNumeric() && (op.Mod? ==> a.Int? && b.Int?) && (op.Div? || op.Mod? ==> !DivisorZero(h, a, b)))
  }

  predicate DivisorZero(h: Host, a: Value, b: Value) {
    match b
    case Int(i) => if a.Int? then i == 0 else h.ofInt(i) in {0, TWO_63}
    case Float(f) => f in {0, TWO_63}
    case _ => false
  }

  function FloatOf(h: Host, v: Value): bits64 {
    match v
    case Int(i) => h.ofInt(i)
    case Float(f) => f
    case _ => 0
  }

  /** NULL in, NULL out; INTs are exact modulo 2^64, `/` and `%` truncate towards zero; the rest is the host's. */
  ghost predicate Computes(h: Host, op: ArithOp, a: Value, b: Value, r: Value) {
    if a.Null? || b.Null? then r.Null?
    else if a.Int? && b.Int? then
      r.Int? &&
      match op
      case Add => Congruent(r.i, a.i + b.i)
      case Sub => Congruent(r.i, a.i - b.i)
      case Mul => Congruent(r.i, a.i * b.i)
      case Div => exists q, s :: Divides(a.i, b.i, q, s) && Congruent(r.i, q)
      case Mod => exists q :: Divides(a.i, b.i, q, r.i)
    else
      match op
      case Add => r == Float(h.add(FloatOf(h, a), FloatOf(h, b)))
      case Sub => r == Float(h.sub(FloatOf(h, a), FloatOf(h, b)))
      case Mul => r == Float(h.mul(FloatOf(h, a), FloatOf(h, b)))
      case Div => r == Float(h.div(FloatOf(h, a), FloatOf(h, b)))
      case Mod => false
  }

  lemma IntArithMeans(h: Host, op: ArithOp, a: Value, b: Value)
    requires a.Int? && b.Int? && Arith(h, op, a, b).Ok?
    ensures Computes(h, op, a, b, Arith(h, op, a, b).value)
  {
    hide Wrap, Quo, Rem, Divides, Congruent;
    match op
    case Add => WrapMeans(a.i + b.i);
    case Sub => WrapMeans(a.i - b.i);
    case Mul => WrapMeans(a.i * b.i);
    case Div =>
      QuoRem(a.i, b.i);
      WrapMeans(Quo(a.i, b.i));
    case Mod =>
      QuoRem(a.i, b.i);
      DividesBounds(a.i, b.i, Quo(a.i, b.i), Rem(a.i, b.i));
      WrapSmall(Rem(a.i, b.i));
  }

  lemma WrapSmall(x: int)
    ensures -TWO_63 <= x < TWO_63 ==> Wrap(x) == x
  {
  }

  lemma ZeroMeans(f: bits64)
    ensures IsZero(f) <==> f in {0, TWO_63}
  {
  }

  lemma ArithMeans(h: Host, op: ArithOp, a: Value, b: Value)
    ensures Arith(h, op, a, b).Ok? <==> Computable(h, op, a, b)
    ensures Arith(h, op, a, b).Ok? ==> Computes(h, op, a, b, Arith(h, op, a, b).value)
  {
    hide IsZero;
    if a.Int? && b.Int? && Arith(h, op, a, b).Ok? {
      IntArithMeans(h, op, a, b);
    }
    if a.IsNumeric() && b.IsNumeric() {
      ZeroMeans(AsFloat(h, b));
    }
    hide Wrap, Quo, Rem, Divides, Congruent;
  }

  /** The negative of an INT modulo 2^64, and a FLOAT with the other sign. */
  ghost predicate Negates(v: Value, r: Value) {
    match v
    case Null => r.Null?
    case Int(i) => r.Int? && Congruent(r.i, 0 - i)
    case Float(f) => r.Float? && r.bits != f && r.bits % TWO_63 == f % TWO_63
    case _ => false
  }

  lemma NegMeans(v: Value)
    ensures Neg(v).Ok? <==> v.Null? || v.IsNumeric()
    ensures Neg(v).Ok? ==> Negates(v, Neg(v).value)
  {
    if v.Int? {
      WrapMeans(0 - v.i);
    }
  }
}
