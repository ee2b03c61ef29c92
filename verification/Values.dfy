// The value model: five kinds, the order they sort by, SQL comparison,
// three-valued logic and arithmetic.
module Values {
  import opened Bytes

  const TWO_63: int := 0x8000_0000_0000_0000
  const TWO_64: int := 0x1_0000_0000_0000_0000

  type int64 = i: int | -TWO_63 <= i < TWO_63

  type bits64 = n: int | 0 <= n < TWO_64

  type uint32 = n: int | 0 <= n < 0x1_0000_0000

  datatype Error =
    | TypeMismatch
    | DivideByZero
    | NullKey
    | NotNullViolated
    | DuplicateKey
    | WrongArity
    | OutOfScope
    | Corrupt
    | MissingRow
    | NotFound
    | Exists
    | Finished
    | Syntax
    | TransactionOpen
    | NoTransaction
    | SchemaInTransaction

  datatype Result<+T> = Ok(value: T) | Err(error: Error) {
    predicate IsFailure() { Err? }

    function PropagateFailure<U>(): Result<U>
      requires Err?
    {
      Err(error)
    }

    function Extract(): T
      requires Ok?
    {
      value
    }
  }

  datatype Option<+T> = None | Some(value: T)

  datatype Kind = KNull | KBool | KInt | KFloat | KText

  /** A FLOAT is its IEEE 754 bit pattern; TEXT is its UTF-8 bytes. */
  datatype Value =
    | Null
    | Bool(b: bool)
    | Int(i: int64)
    | Float(bits: bits64)
    | Text(s: bytes)
  {
    function Kind(): Kind {
      match this
      case Null => KNull
      case Bool(_) => KBool
      case Int(_) => KInt
      case Float(_) => KFloat
      case Text(_) => KText
    }

    predicate IsNumeric() { Int? || Float? }
  }

  type Row = seq<Value>

  // ------------------------------------------------------------------
  // Floats as bit patterns
  // ------------------------------------------------------------------

  const INF_MAGNITUDE: int := 0x7FF0_0000_0000_0000

  predicate Negative(f: bits64) { f >= TWO_63 }

  function Magnitude(f: bits64): int { if Negative(f) then f - TWO_63 else f }

  predicate IsNaN(f: bits64) { Magnitude(f) > INF_MAGNITUDE }

  predicate IsZero(f: bits64) { Magnitude(f) == 0 }

  /** The position of a non-NaN float on the number line; both zeros sit at 0. */
  function Place(f: bits64): int { if Negative(f) then -Magnitude(f) else Magnitude(f) }

  predicate FloatLess(a: bits64, b: bits64) { !IsNaN(a) && !IsNaN(b) && Place(a) < Place(b) }

  predicate FloatEq(a: bits64, b: bits64) { !IsNaN(a) && !IsNaN(b) && Place(a) == Place(b) }

  /** cmpFloat: IEEE comparison, with NaN placed after everything. */
  function CmpFloat(a: bits64, b: bits64): int {
    if FloatLess(a, b) then -1
    else if FloatLess(b, a) then 1
    else if FloatEq(a, b) then 0
    else if IsNaN(a) && IsNaN(b) then 0
    else if IsNaN(a) then 1
    else -1
  }

  /** A float on which numeric order and byte order agree: not NaN, not -0.0. */
  predicate PlainFloat(f: bits64) { !IsNaN(f) && f != TWO_63 }

  type plainFloat = f: bits64 | PlainFloat(f) witness 0

  predicate Plain(v: Value) { v.Float? ==> PlainFloat(v.bits) }

  predicate PlainRow(r: Row) { forall i :: 0 <= i < |r| ==> Plain(r[i]) }

  /** What the Go runtime supplies: IEEE arithmetic and UTF-8 decoding. */
  datatype Host = Host(
    ofInt: int64 -> plainFloat,
    add: (bits64, bits64) -> bits64,
    sub: (bits64, bits64) -> bits64,
    mul: (bits64, bits64) -> bits64,
    div: (bits64, bits64) -> bits64,
    runes: bytes -> seq<int>)

  // ------------------------------------------------------------------
  // Orders
  // ------------------------------------------------------------------

  function Rank(k: Kind): int {
    match k
    case KNull => 0
    case KBool => 1
    case KInt => 2
    case KFloat => 3
    case KText => 4
  }

  function Ord(b: bool): int { if b then 1 else 0 }

  /** The total order keelsql sorts by: kind first, then value. */
  function Order(a: Value, b: Value): int {
    match (a, b)
    case (Null, Null) => 0
    case (Bool(x), Bool(y)) => Sign(Ord(x), Ord(y))
    case (Int(x), Int(y)) => Sign(x, y)
    case (Float(x), Float(y)) => CmpFloat(x, y)
    case (Text(x), Text(y)) => Cmp(x, y)
    case _ => Sign(Rank(a.Kind()), Rank(b.Kind()))
  }

  predicate Equal(a: Value, b: Value) { Order(a, b) == 0 }

  lemma OrderRange(a: Value, b: Value)
    ensures Order(a, b) in {-1, 0, 1}
    ensures Order(a, b) == -Order(b, a)
    ensures a == b ==> Order(a, b) == 0
  {
    if a.Text? && b.Text? {
      CmpRange(a.s, b.s);
    }
  }

  lemma OrderTransitive(a: Value, b: Value, c: Value)
    requires Order(a, b) <= 0 && Order(b, c) <= 0
    ensures Order(a, c) <= 0
    ensures Order(a, b) < 0 || Order(b, c) < 0 ==> Order(a, c) < 0
  {
    if a.Text? && b.Text? && c.Text? {
      CmpTransitive(a.s, b.s, c.s);
    }
  }

  /** On plain values the sort order identifies nothing but identical values. */
  lemma PlainEqual(a: Value, b: Value)
    requires Plain(a) && Plain(b)
    ensures Equal(a, b) <==> a == b
  {
    if a.Text? && b.Text? {
      CmpRange(a.s, b.s);
    }
  }

  /** Compare: SQL's ordering of two non-NULL values of comparable kinds. */
  function Compare(h: Host, a: Value, b: Value): Result<int> {
    match (a, b)
    case (Int(x), Int(y)) => Ok(Sign(x, y))
    case (Int(x), Float(y)) => Ok(CmpFloat(h.ofInt(x), y))
    case (Float(x), Int(y)) => Ok(CmpFloat(x, h.ofInt(y)))
    case (Float(x), Float(y)) => Ok(CmpFloat(x, y))
    case (Text(x), Text(y)) => Ok(Cmp(x, y))
    case (Bool(x), Bool(y)) => Ok(Sign(Ord(x), Ord(y)))
    case _ => Err(TypeMismatch)
  }

  function Coerce(h: Host, v: Value, want: Kind): (r: Result<Value>)
    ensures r.Ok? ==> r.value.Null? || r.value.Kind() == want
    ensures r.Ok? && (Plain(v) || v.Int?) ==> Plain(r.value)
  {
    if v.Null? || v.Kind() == want then Ok(v)
    else if v.Int? && want == KFloat then Ok(Float(h.ofInt(v.i)))
    else Err(TypeMismatch)
  }

  /** w is what a column of some kind stores of v: an INT widened for a FLOAT column, anything else as it is. */
  predicate StoredAs(h: Host, v: Value, want: Kind, w: Value) {
    if v.Int? && want == KFloat then w == Float(h.ofInt(v.i)) else w == v && (v.Null? || v.Kind() == want)
  }

  /** Coercion finds the one value that is stored, and refuses exactly when there is none. */
  lemma CoerceMeans(h: Host, v: Value, want: Kind)
    ensures Coerce(h, v, want).Ok? ==> forall w :: StoredAs(h, v, want, w) <==> w == Coerce(h, v, want).value
    ensures Coerce(h, v, want).Err? ==> Coerce(h, v, want) == Err(TypeMismatch) && forall w :: !StoredAs(h, v, want, w)
  {
  }

  // ------------------------------------------------------------------
  // Three-valued logic
  // ------------------------------------------------------------------

  datatype Bool3 = False | Unknown | True {
    function Level(): int {
      match this case False => 0 case Unknown => 1 case True => 2
    }

    function And(u: Bool3): Bool3 { if u.Level() < this.Level() then u else this }

    function Or(u: Bool3): Bool3 { if u.Level() > this.Level() then u else this }

    function Not(): Bool3 {
      match this case False => True case Unknown => Unknown case True => False
    }

    function ToValue(): Value { if Unknown? then Null else Bool(True?) }
  }

  function B3(b: bool): Bool3 { if b then True else False }

  function Truth(v: Value): Result<Bool3> {
    match v
    case Null => Ok(Unknown)
    case Bool(b) => Ok(B3(b))
    case _ => Err(TypeMismatch)
  }

  datatype CmpKind = CEq | CNe | CLt | CLe | CGt | CGe

  predicate Holds(op: CmpKind, c: int) {
    match op
    case CEq => c == 0
    case CNe => c != 0
    case CLt => c < 0
    case CLe => c <= 0
    case CGt => c > 0
    case CGe => c >= 0
  }

  function CompareOp(h: Host, op: CmpKind, a: Value, b: Value): Result<Bool3> {
    if a.Null? || b.Null? then Ok(Unknown)
    else
      var c :- Compare(h, a, b);
      Ok(B3(Holds(op, c)))
  }

  // ------------------------------------------------------------------
  // Arithmetic: two's-complement 64-bit integers, host floats
  // ------------------------------------------------------------------

  function Wrap(x: int): int64 { (x + TWO_63) % TWO_64 - TWO_63 }

  /** Go's integer division and remainder truncate towards zero. */
  function Quo(x: int, y: int): int
    requires y != 0
  {
    var q := (if x < 0 then -x else x) / (if y < 0 then -y else y);
    if (x < 0) == (y < 0) then q else -q
  }

  function Rem(x: int, y: int): int
    requires y != 0
  {
    x - y * Quo(x, y)
  }

  datatype ArithOp = Add | Sub | Mul | Div | Mod

  function AsFloat(h: Host, v: Value): bits64
    requires v.IsNumeric()
  {
    if v.Int? then h.ofInt(v.i) else v.bits
  }

  function Arith(h: Host, op: ArithOp, a: Value, b: Value): Result<Value> {
    if a.Null? || b.Null? then Ok(Null)
    else if op.Mod? && !(a.Int? && b.Int?) then Err(TypeMismatch)
    else if !a.IsNumeric() || !b.IsNumeric() then Err(TypeMismatch)
    else if a.Int? && b.Int? then
      match op
      case Add => Ok(Int(Wrap(a.i + b.i)))
      case Sub => Ok(Int(Wrap(a.i - b.i)))
      case Mul => Ok(Int(Wrap(a.i * b.i)))
      case Div => if b.i == 0 then Err(DivideByZero) else Ok(Int(Wrap(Quo(a.i, b.i))))
      case Mod => if b.i == 0 then Err(DivideByZero) else Ok(Int(Wrap(Rem(a.i, b.i))))
    else
      var x, y := AsFloat(h, a), AsFloat(h, b);
      match op
      case Add => Ok(Float(h.add(x, y)))
      case Sub => Ok(Float(h.sub(x, y)))
      case Mul => Ok(Float(h.mul(x, y)))
      case _ => if IsZero(y) then Err(DivideByZero) else Ok(Float(h.div(x, y)))
  }

  function FlipSign(f: bits64): bits64 { if Negative(f) then f - TWO_63 else f + TWO_63 }

  function Neg(v: Value): Result<Value> {
    match v
    case Null => Ok(Null)
    case Int(i) => Ok(Int(Wrap(0 - i)))
    case Float(f) => Ok(Float(FlipSign(f)))
    case _ => Err(TypeMismatch)
  }
}
