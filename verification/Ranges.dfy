// Scan ranges (plan/range.go) and the byte intervals they turn into.
module Ranges {
  import opened Bytes
  import opened Values
  import opened KeyCodec
  import opened Keys

  datatype Bound = Unset | At(value: Value, inclusive: bool)

  datatype Range = Range(lo: Bound, hi: Bound) {
    predicate Bounded() { lo.At? || hi.At? }

    predicate IsPoint() {
      lo.At? && hi.At? && lo.inclusive && hi.inclusive && Equal(lo.value, hi.value)
    }

    /** Contradictory bounds. */
    predicate Empty() {
      lo.At? && hi.At? &&
      (Order(lo.value, hi.value) > 0 ||
       (Order(lo.value, hi.value) == 0 && (!lo.inclusive || !hi.inclusive)))
    }

    function Intersect(o: Range): Range {
      Range(
        if o.lo.At? && (lo.Unset? || TighterLo(o.lo, lo)) then o.lo else lo,
        if o.hi.At? && (hi.Unset? || TighterHi(o.hi, hi)) then o.hi else hi)
    }

    /** keelsql's fixed guesses: a point beats an interval beats a half-line beats everything. */
    function Selectivity(): real {
      if IsPoint() then 0.001 else if lo.At? && hi.At? then 0.05 else if Bounded() then 0.3 else 1.0
    }
  }

  const EVERYTHING: Range := Range.Range(Unset, Unset)

  predicate TighterLo(a: Bound, b: Bound)
    requires a.At? && b.At?
  {
    var c := Order(a.value, b.value);
    if c != 0 then c > 0 else !a.inclusive && b.inclusive
  }

  predicate TighterHi(a: Bound, b: Bound)
    requires a.At? && b.At?
  {
    var c := Order(a.value, b.value);
    if c != 0 then c < 0 else !a.inclusive && b.inclusive
  }

  predicate AboveLo(c: int, inclusive: bool) { c > 0 || (inclusive && c == 0) }

  /** v satisfies both bounds under the sort order. */
  predicate Within(r: Range, v: Value) {
    (r.lo.At? ==> AboveLo(Order(v, r.lo.value), r.lo.inclusive)) &&
    (r.hi.At? ==> AboveLo(Order(r.hi.value, v), r.hi.inclusive))
  }

  /** v satisfies both bounds under the order of encoded bytes. */
  predicate ByteWithin(r: Range, v: Value) {
    (r.lo.At? ==> AboveLo(ByteOrder(v, r.lo.value), r.lo.inclusive)) &&
    (r.hi.At? ==> AboveLo(ByteOrder(r.hi.value, v), r.hi.inclusive))
  }

  predicate PlainRange(r: Range) {
    (r.lo.At? ==> Plain(r.lo.value)) && (r.hi.At? ==> Plain(r.hi.value))
  }

  function KeyBytes(r: Range, prefix: bytes): (Option<bytes>, Option<bytes>) {
    var start :=
      if r.lo.Unset? then Some(prefix)
      else
        var lo := prefix + Enc(r.lo.value);
        if r.lo.inclusive then Some(lo) else PrefixEnd(lo);
    var end :=
      if r.hi.Unset? then PrefixEnd(prefix)
      else
        var hi := prefix + Enc(r.hi.value);
        if r.hi.inclusive then PrefixEnd(hi) else Some(hi);
    (start, end)
  }

  // ------------------------------------------------------------------
  // Intersection
  // ------------------------------------------------------------------

  lemma LoTransfer(v: Value, a: Bound, b: Bound)
    requires a.At? && b.At? && !TighterLo(b, a)
    requires AboveLo(Order(v, a.value), a.inclusive)
    ensures AboveLo(Order(v, b.value), b.inclusive)
  {
    OrderRange(a.value, b.value);
    OrderRange(v, a.value);
    OrderRange(v, b.value);
    OrderTransitive(b.value, a.value, v);
  }

  lemma HiTransfer(v: Value, a: Bound, b: Bound)
    requires a.At? && b.At? && !TighterHi(b, a)
    requires AboveLo(Order(a.value, v), a.inclusive)
    ensures AboveLo(Order(b.value, v), b.inclusive)
  {
    OrderRange(a.value, b.value);
    OrderRange(v, a.value);
    OrderRange(v, b.value);
    OrderTransitive(v, a.value, b.value);
  }

  lemma TighterAsymmetric(a: Bound, b: Bound)
    requires a.At? && b.At?
    ensures TighterLo(a, b) ==> !TighterLo(b, a)
    ensures TighterHi(a, b) ==> !TighterHi(b, a)
  {
    OrderRange(a.value, b.value);
  }

  lemma IntersectIsConjunction(r: Range, o: Range, v: Value)
    ensures Within(r.Intersect(o), v) <==> Within(r, v) && Within(o, v)
  {
    if r.lo.At? && o.lo.At? {
      TighterAsymmetric(o.lo, r.lo);
      if TighterLo(o.lo, r.lo) {
        if AboveLo(Order(v, o.lo.value), o.lo.inclusive) { LoTransfer(v, o.lo, r.lo); }
      } else {
        if AboveLo(Order(v, r.lo.value), r.lo.inclusive) { LoTransfer(v, r.lo, o.lo); }
      }
    }
    if r.hi.At? && o.hi.At? {
      TighterAsymmetric(o.hi, r.hi);
      if TighterHi(o.hi, r.hi) {
        if AboveLo(Order(o.hi.value, v), o.hi.inclusive) { HiTransfer(v, o.hi, r.hi); }
      } else {
        if AboveLo(Order(r.hi.value, v), r.hi.inclusive) { HiTransfer(v, r.hi, o.hi); }
      }
    }
  }

  lemma EmptyHoldsNothing(r: Range, v: Value)
    requires r.Empty()
    ensures !Within(r, v)
  {
    OrderRange(v, r.lo.value);
    OrderRange(v, r.hi.value);
    OrderRange(r.lo.value, r.hi.value);
    if Order(v, r.lo.value) >= 0 && Order(r.hi.value, v) >= 0 {
      OrderTransitive(r.lo.value, v, r.hi.value);
    }
  }

  /** Of two inclusive bounds, a range that is not found empty contains both. */
  lemma NotEmptyHolds(r: Range)
    requires r.lo.At? && r.hi.At? && r.lo.inclusive && r.hi.inclusive
    ensures !r.Empty() <==> Within(r, r.lo.value) && Within(r, r.hi.value)
  {
    OrderRange(r.lo.value, r.hi.value);
    OrderRange(r.lo.value, r.lo.value);
    OrderRange(r.hi.value, r.hi.value);
  }

  // ------------------------------------------------------------------
  // The byte interval
  // ------------------------------------------------------------------

  lemma EncPrefixEnd(v: Value)
    ensures PrefixEnd(Enc(v)).Some?
  {
    assert Enc(v)[0] != 0xFF;
  }

  /** Where prefix+Enc(v)+suffix stands relative to prefix+Enc(b). */
  lemma KeyAgainstBound(prefix: bytes, v: Value, suffix: bytes, b: Value)
    ensures v == b ==> prefix + Enc(b) <= prefix + Enc(v) + suffix
    ensures v != b ==> !(prefix + Enc(b) <= prefix + Enc(v) + suffix)
    ensures v != b ==> Cmp(prefix + Enc(v) + suffix, prefix + Enc(b)) == ByteOrder(v, b) != 0
  {
    EncodeOrder(v, b);
    AppendAssoc(prefix, Enc(v), suffix);
    if v != b {
      CmpDiverge(Enc(v), Enc(b), suffix, []);
      assert Enc(b) + [] == Enc(b);
      CmpCancel(prefix, Enc(v) + suffix, Enc(b));
      DivergeAfterPrefix(prefix, Enc(v) + suffix, Enc(b));
    }
  }

  lemma ByteOrderSelf(v: Value, b: Value)
    ensures ByteOrder(v, b) == -ByteOrder(b, v)
    ensures v == b ==> ByteOrder(v, b) == 0
  {
    OrderRange(v, b);
  }

  lemma StartExact(r: Range, prefix: bytes, v: Value, suffix: bytes)
    ensures KeyBytes(r, prefix).0.Some?
    ensures NotBelow(prefix + Enc(v) + suffix, KeyBytes(r, prefix).0) <==>
            (r.lo.At? ==> AboveLo(ByteOrder(v, r.lo.value), r.lo.inclusive))
  {
    var k := prefix + Enc(v) + suffix;
    if r.lo.Unset? {
      assert prefix <= k;
      CmpPrefix(prefix, k);
      CmpRange(prefix, k);
    } else {
      var b := r.lo.value;
      var lo := prefix + Enc(b);
      KeyAgainstBound(prefix, v, suffix, b);
      ByteOrderSelf(v, b);
      EncPrefixEnd(b);
      PrefixEndOfSome(prefix, Enc(b));
      BelowPrefixEnd(lo, k);
      if lo <= k {
        CmpPrefix(lo, k);
        CmpRange(lo, k);
      }
    }
  }

  lemma EndExact(r: Range, prefix: bytes, v: Value, suffix: bytes)
    ensures Below(prefix + Enc(v) + suffix, KeyBytes(r, prefix).1) <==>
            (r.hi.At? ==> AboveLo(ByteOrder(r.hi.value, v), r.hi.inclusive))
  {
    var k := prefix + Enc(v) + suffix;
    if r.hi.Unset? {
      assert prefix <= k;
      BelowPrefixEnd(prefix, k);
    } else {
      var b := r.hi.value;
      var hi := prefix + Enc(b);
      KeyAgainstBound(prefix, v, suffix, b);
      ByteOrderSelf(v, b);
      EncPrefixEnd(b);
      PrefixEndOfSome(prefix, Enc(b));
      BelowPrefixEnd(hi, k);
      if hi <= k {
        CmpPrefix(hi, k);
        CmpRange(hi, k);
      }
    }
  }

  /** Key prefix+Enc(v)+suffix is scanned exactly when v is in the range, by byte order. */
  lemma KeyBytesExact(r: Range, prefix: bytes, v: Value, suffix: bytes)
    ensures InInterval(prefix + Enc(v) + suffix, KeyBytes(r, prefix).0, KeyBytes(r, prefix).1) <==> ByteWithin(r, v)
  {
    StartExact(r, prefix, v, suffix);
    EndExact(r, prefix, v, suffix);
  }

  // ------------------------------------------------------------------
  // Where the byte interval and the predicate part company
  // ------------------------------------------------------------------

  const NEGATIVE_ZERO: Value := Float(TWO_63)
  const POSITIVE_ZERO: Value := Float(0)
  const NEGATIVE_NAN: Value := Float(0xFFF8_0000_0000_0000)

  predicate IsNegativeNaN(v: Value) { v.Float? && IsNaN(v.bits) && Negative(v.bits) }

  predicate IsFloatZero(v: Value) { v.Float? && IsZero(v.bits) }

  /** The bounds are not NaN: the lexer reads no literal as one. */
  predicate BoundsAreNumbers(r: Range) {
    && (r.lo.At? && r.lo.value.Float? ==> !IsNaN(r.lo.value.bits))
    && (r.hi.At? && r.hi.value.Float? ==> !IsNaN(r.hi.value.bits))
  }

  /** Bytes and sort order give one answer about v. */
  predicate Faithful(r: Range, v: Value) { ByteWithin(r, v) <==> Within(r, v) }

  /** Only the zeros and the NaNs with a sign bit can be judged differently. */
  lemma FaithfulElsewhere(r: Range, v: Value)
    requires BoundsAreNumbers(r) && !IsFloatZero(v) && !IsNegativeNaN(v)
    ensures Faithful(r, v)
  {
  }

  /** There are two zeros, and one NaN with a sign bit is judged as any other. */
  lemma FaithfulAtProbe(r: Range, v: Value)
    requires BoundsAreNumbers(r)
    ensures IsFloatZero(v) ==> v == NEGATIVE_ZERO || v == POSITIVE_ZERO
    ensures IsNegativeNaN(v) ==> (Faithful(r, v) <==> Faithful(r, NEGATIVE_NAN))
  {
    assert IsNegativeNaN(NEGATIVE_NAN);
  }

  /** The scan of r returns a key of value v exactly if v satisfies r. */
  ghost predicate ScansAsAsked(r: Range, prefix: bytes, v: Value) {
    forall suffix :: InInterval(prefix + Enc(v) + suffix, KeyBytes(r, prefix).0, KeyBytes(r, prefix).1) <==> Within(r, v)
  }

  lemma ScansWhereFaithful(r: Range, prefix: bytes, v: Value)
    ensures ScansAsAsked(r, prefix, v) <==> Faithful(r, v)
  {
    hide KeyBytes, InInterval, Within, ByteWithin;
    forall suffix
      ensures InInterval(prefix + Enc(v) + suffix, KeyBytes(r, prefix).0, KeyBytes(r, prefix).1) <==> ByteWithin(r, v)
    {
      KeyBytesExact(r, prefix, v, suffix);
    }
    if ScansAsAsked(r, prefix, v) {
      assert InInterval(prefix + Enc(v) + [], KeyBytes(r, prefix).0, KeyBytes(r, prefix).1) <==> Within(r, v);
    }
  }

  /**
   * The scan of a range returns, of all values there are, exactly those that satisfy it, if and only
   * if it does so of three: the two zeros and a NaN with a sign bit.
   */
  lemma KeyBytesSelects(r: Range, prefix: bytes)
    requires BoundsAreNumbers(r)
    ensures (forall v :: ScansAsAsked(r, prefix, v)) <==>
            Faithful(r, NEGATIVE_ZERO) && Faithful(r, POSITIVE_ZERO) && Faithful(r, NEGATIVE_NAN)
    ensures (forall v :: !IsNegativeNaN(v) ==> ScansAsAsked(r, prefix, v)) <==>
            Faithful(r, NEGATIVE_ZERO) && Faithful(r, POSITIVE_ZERO)
  {
    hide ScansAsAsked, Faithful;
    forall v
      ensures ScansAsAsked(r, prefix, v) <==> Faithful(r, v)
      ensures !IsFloatZero(v) && !IsNegativeNaN(v) ==> Faithful(r, v)
      ensures IsFloatZero(v) ==> v == NEGATIVE_ZERO || v == POSITIVE_ZERO
      ensures IsNegativeNaN(v) ==> (Faithful(r, v) <==> Faithful(r, NEGATIVE_NAN))
    {
      ScansWhereFaithful(r, prefix, v);
      FaithfulAtProbe(r, v);
      if !IsFloatZero(v) && !IsNegativeNaN(v) {
        FaithfulElsewhere(r, v);
      }
    }
    assert ScansAsAsked(r, prefix, NEGATIVE_ZERO) <==> Faithful(r, NEGATIVE_ZERO);
    assert ScansAsAsked(r, prefix, POSITIVE_ZERO) <==> Faithful(r, POSITIVE_ZERO);
    assert ScansAsAsked(r, prefix, NEGATIVE_NAN) <==> Faithful(r, NEGATIVE_NAN);
  }

  /** A half-line upwards goes wrong at `>= 0.0`, which misses -0.0, and `> -0.0`, which returns 0.0. */
  lemma LowerBoundExact(r: Range, prefix: bytes)
    requires BoundsAreNumbers(r) && r.lo.At? && r.hi.Unset?
    ensures (forall v :: !IsNegativeNaN(v) ==> ScansAsAsked(r, prefix, v)) <==>
            (IsFloatZero(r.lo.value) ==> (r.lo.inclusive <==> r.lo.value == NEGATIVE_ZERO))
    ensures ScansAsAsked(r, prefix, NEGATIVE_NAN) <==> !r.lo.value.Float?
  {
    hide ScansAsAsked;
    KeyBytesSelects(r, prefix);
    ScansWhereFaithful(r, prefix, NEGATIVE_NAN);
  }

  /** A half-line downwards goes wrong at `<= -0.0`, which misses 0.0, and `< 0.0`, which returns -0.0. */
  lemma UpperBoundExact(r: Range, prefix: bytes)
    requires BoundsAreNumbers(r) && r.lo.Unset? && r.hi.At?
    ensures (forall v :: !IsNegativeNaN(v) ==> ScansAsAsked(r, prefix, v)) <==>
            (IsFloatZero(r.hi.value) ==> (r.hi.inclusive <==> r.hi.value == POSITIVE_ZERO))
    ensures ScansAsAsked(r, prefix, NEGATIVE_NAN) <==> !r.hi.value.Float?
  {
    hide ScansAsAsked;
    KeyBytesSelects(r, prefix);
    ScansWhereFaithful(r, prefix, NEGATIVE_NAN);
  }

  /** A scan of the interval never leaves the keys that share the prefix. */
  lemma KeyBytesStaysInside(r: Range, prefix: bytes, k: bytes)
    requires InInterval(k, KeyBytes(r, prefix).0, KeyBytes(r, prefix).1)
    ensures prefix <= k
  {
    StartAbovePrefix(r, prefix, k);
    if r.hi.Unset? {
      BelowPrefixEnd(prefix, k);
      CmpRange(k, prefix);
    } else {
      var hi := prefix + Enc(r.hi.value);
      EncPrefixEnd(r.hi.value);
      PrefixEndOfSome(prefix, Enc(r.hi.value));
      BelowPrefixEnd(prefix, k);
      BelowStaysInside(prefix, if r.hi.inclusive then prefix + PrefixEnd(Enc(r.hi.value)).value else hi, k);
    }
  }

  lemma StartAbovePrefix(r: Range, prefix: bytes, k: bytes)
    requires NotBelow(k, KeyBytes(r, prefix).0)
    ensures !Before(k, prefix)
  {
    if r.lo.At? {
      EncPrefixEnd(r.lo.value);
      PrefixEndOfSome(prefix, Enc(r.lo.value));
      var start := KeyBytes(r, prefix).0.value;
      assert prefix <= start;
      CmpPrefix(prefix, start);
      CmpRange(k, start);
      CmpRange(k, prefix);
      CmpTransitive(prefix, start, k);
    }
  }

  lemma BelowStaysInside(prefix: bytes, e: bytes, k: bytes)
    requires prefix <= e && Before(k, e) && !Before(k, prefix)
    ensures prefix <= k
  {
    CmpRange(k, prefix);
    assert prefix + e[|prefix|..] == e && k + [] == k;
    if Diverge(k, prefix) {
      CmpDiverge(k, prefix, [], e[|prefix|..]);
    } else if k <= prefix {
      CmpPrefix(k, prefix);
    }
  }

  /** -0.0 equals the bound of `f >= 0.0` in SQL, and yet its key lies below the scanned interval. */
  lemma NegativeZeroMissed(prefix: bytes, suffix: bytes)
    ensures var r := Range.Range(At(Float(0), true), Unset);
            && Within(r, Float(TWO_63))
            && !InInterval(prefix + Enc(Float(TWO_63)) + suffix, KeyBytes(r, prefix).0, KeyBytes(r, prefix).1)
  {
    KeyBytesExact(Range.Range(At(Float(0), true), Unset), prefix, Float(TWO_63), suffix);
  }
}
