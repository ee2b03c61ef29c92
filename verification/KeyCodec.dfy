// The order-preserving value encoding of keycodec/value.go.
module KeyCodec {
  import opened Bytes
  import opened Values

  const TAG_NULL: byte := 0x00
  const TAG_BOOL: byte := 0x10
  const TAG_INT: byte := 0x20
  const TAG_FLOAT: byte := 0x30
  const TAG_TEXT: byte := 0x40

  const ESC_BYTE: byte := 0x00
  const ESC_LIT: byte := 0xFF
  const ESC_TERM: byte := 0x01

  // ------------------------------------------------------------------
  // 64-bit payloads
  // ------------------------------------------------------------------

  function ToUnsigned(i: int64): bits64 { if i < 0 then i + TWO_64 else i }

  function FromUnsigned(u: bits64): int64 { if u >= TWO_63 then u - TWO_64 else u }

  /** XOR with the sign bit. */
  function FlipTop(u: bits64): bits64 { if u >= TWO_63 then u - TWO_63 else u + TWO_63 }

  /** Negative floats have every bit flipped, the others only the sign bit. */
  function LiftFloat(f: bits64): bits64 { if Negative(f) then TWO_64 - 1 - f else f + TWO_63 }

  function DropFloat(u: bits64): bits64 { if u >= TWO_63 then u - TWO_63 else TWO_64 - 1 - u }

  function BE64(u: bits64): (s: bytes)
    ensures |s| == 8
  {
    Pow256Of8();
    BE(8, u)
  }

  function FromBE64(s: bytes): bits64
    requires |s| == 8
  {
    Pow256Of8();
    FromBE(s)
  }

  // ------------------------------------------------------------------
  // Specification
  // ------------------------------------------------------------------

  function EscOne(c: byte): bytes { if c == ESC_BYTE then [ESC_BYTE, ESC_LIT] else [c] }

  function EscBody(s: bytes): bytes {
    if s == [] then [] else EscOne(s[0]) + EscBody(s[1..])
  }

  /** TEXT payload: 0x00 becomes 0x00 0xFF and the end is 0x00 0x01. */
  function Esc(s: bytes): bytes { EscBody(s) + [ESC_BYTE, ESC_TERM] }

  function Enc(v: Value): bytes {
    match v
    case Null => [TAG_NULL]
    case Bool(b) => [TAG_BOOL, if b then 1 else 0]
    case Int(i) => [TAG_INT] + BE64(FlipTop(ToUnsigned(i)))
    case Float(f) => [TAG_FLOAT] + BE64(LiftFloat(f))
    case Text(s) => [TAG_TEXT] + Esc(s)
  }

  function EncAll(vs: seq<Value>): bytes {
    if vs == [] then [] else Enc(vs[0]) + EncAll(vs[1..])
  }

  function UnEsc(b: bytes): (r: Result<(bytes, bytes)>)
    ensures r.Ok? ==> |r.value.1| < |b|
  {
    if b == [] then Err(Corrupt)
    else if b[0] != ESC_BYTE then
      var (s, rest) :- UnEsc(b[1..]);
      Ok(([b[0]] + s, rest))
    else if |b| < 2 then Err(Corrupt)
    else if b[1] == ESC_TERM then Ok(([], b[2..]))
    else if b[1] == ESC_LIT then
      var (s, rest) :- UnEsc(b[2..]);
      Ok(([ESC_BYTE] + s, rest))
    else Err(Corrupt)
  }

  function Dec(src: bytes): (r: Result<(Value, bytes)>)
    ensures r.Ok? ==> |r.value.1| < |src|
  {
    if src == [] then Err(Corrupt)
    else
      var tag, body := src[0], src[1..];
      if tag == TAG_NULL then Ok((Null, body))
      else if tag == TAG_BOOL then
        if |body| < 1 then Err(Corrupt) else Ok((Bool(body[0] != 0), body[1..]))
      else if tag == TAG_INT then
        if |body| < 8 then Err(Corrupt)
        else Ok((Int(FromUnsigned(FlipTop(FromBE64(body[..8])))), body[8..]))
      else if tag == TAG_FLOAT then
        if |body| < 8 then Err(Corrupt)
        else Ok((Float(DropFloat(FromBE64(body[..8]))), body[8..]))
      else if tag == TAG_TEXT then
        var (s, rest) :- UnEsc(body);
        Ok((Text(s), rest))
      else Err(Corrupt)
  }

  /** The first n values of src and the bytes after them. */
  function DecMany(src: bytes, n: nat): (r: Result<(seq<Value>, bytes)>)
    ensures r.Ok? ==> |r.value.0| == n
    decreases n
  {
    if n == 0 then Ok(([], src))
    else
      var (v, tail) :- Dec(src);
      var (vs, rest) :- DecMany(tail, n - 1);
      Ok(([v] + vs, rest))
  }

  function DecAll(src: bytes, n: nat): Result<seq<Value>> {
    var (vs, rest) :- DecMany(src, n);
    if rest == [] then Ok(vs) else Err(Corrupt)
  }

  /** The remainder after one value, which is all Skip may report. */
  function TailOf(r: Result<(Value, bytes)>): Result<bytes> {
    match r
    case Ok(pair) => Ok(pair.1)
    case Err(e) => Err(e)
  }

  // ------------------------------------------------------------------
  // The loops
  // ------------------------------------------------------------------

  lemma {:induction false} EscBodyAppend(s: bytes, t: bytes)
    ensures EscBody(s + t) == EscBody(s) + EscBody(t)
  {
    if s == [] {
      assert s + t == t;
    } else {
      assert (s + t)[1..] == s[1..] + t;
      EscBodyAppend(s[1..], t);
      assert EscOne(s[0]) + (EscBody(s[1..]) + EscBody(t)) == EscBody(s) + EscBody(t);
    }
  }

  lemma EscBodySnoc(s: bytes, c: byte)
    ensures EscBody(s + [c]) == EscBody(s) + EscOne(c)
  {
    EscBodyAppend(s, [c]);
    assert [c][1..] == [];
    assert EscBody([c]) == EscOne(c) + [];
  }

  lemma EscCons(s: bytes)
    requires s != []
    ensures Esc(s) == EscOne(s[0]) + Esc(s[1..])
  {
    assert (EscOne(s[0]) + EscBody(s[1..])) + [ESC_BYTE, ESC_TERM] == EscOne(s[0]) + Esc(s[1..]);
  }

  lemma AppendAssoc(a: bytes, b: bytes, c: bytes)
    ensures (a + b) + c == a + (b + c)
  {
  }

  method Encode(dst: bytes, v: Value) returns (out: bytes)
    ensures out == dst + Enc(v)
  {
    match v
    case Null =>
      out := dst + [TAG_NULL];
    case Bool(b) =>
      out := dst + [TAG_BOOL, if b then 1 else 0];
    case Int(i) =>
      out := dst + [TAG_INT];
      out := out + BE64(FlipTop(ToUnsigned(i)));
    case Float(f) =>
      out := dst + [TAG_FLOAT];
      out := out + BE64(LiftFloat(f));
    case Text(s) =>
      out := dst + [TAG_TEXT];
      for i := 0 to |s|
        invariant out == dst + [TAG_TEXT] + EscBody(s[..i])
      {
        EscBodySnoc(s[..i], s[i]);
        assert s[..i + 1] == s[..i] + [s[i]];
        AppendAssoc(dst + [TAG_TEXT], EscBody(s[..i]), EscOne(s[i]));
        if s[i] == ESC_BYTE {
          out := out + [ESC_BYTE, ESC_LIT];
        } else {
          out := out + [s[i]];
        }
      }
      assert s[..|s|] == s;
      AppendAssoc(dst + [TAG_TEXT], EscBody(s), [ESC_BYTE, ESC_TERM]);
      out := out + [ESC_BYTE, ESC_TERM];
      AppendAssoc(dst, [TAG_TEXT], Esc(s));
  }

  lemma {:induction false} EncAllAppend(a: seq<Value>, b: seq<Value>)
    ensures EncAll(a + b) == EncAll(a) + EncAll(b)
  {
    if a == [] {
      assert a + b == b;
    } else {
      assert (a + b)[1..] == a[1..] + b;
      EncAllAppend(a[1..], b);
    }
  }

  lemma EncAllSnoc(vs: seq<Value>, v: Value)
    ensures EncAll(vs + [v]) == EncAll(vs) + Enc(v)
  {
    EncAllAppend(vs, [v]);
    assert [v][1..] == [];
    assert EncAll([v]) == Enc(v) + [];
  }

  lemma EncAllNothing(vs: seq<Value>)
    requires vs == []
    ensures EncAll(vs) == []
  {
  }

  method EncodeAll(dst: bytes, vals: seq<Value>) returns (out: bytes)
    ensures out == dst + EncAll(vals)
  {
    hide Enc, EncAll;
    EncAllNothing(vals[..0]);
    out := dst;
    for i := 0 to |vals|
      invariant out == dst + EncAll(vals[..i])
    {
      EncAllSnoc(vals[..i], vals[i]);
      assert vals[..i + 1] == vals[..i] + [vals[i]];
      AppendAssoc(dst, EncAll(vals[..i]), Enc(vals[i]));
      out := Encode(out, vals[i]);
    }
    assert vals[..|vals|] == vals;
  }

  /** The text read so far, put in front of what the rest decodes to. */
  function Prepend(out: bytes, r: Result<(bytes, bytes)>): Result<(Value, bytes)> {
    match r
    case Ok(pair) => Ok((Text(out + pair.0), pair.1))
    case Err(e) => Err(e)
  }

  method Decode(src: bytes) returns (r: Result<(Value, bytes)>)
    ensures r == Dec(src)
  {
    if src == [] {
      return Err(Corrupt);
    }
    var tag, body := src[0], src[1..];
    if tag == TAG_NULL {
      r := Ok((Null, body));
    } else if tag == TAG_BOOL {
      if |body| < 1 {
        return Err(Corrupt);
      }
      r := Ok((Bool(body[0] != 0), body[1..]));
    } else if tag == TAG_INT {
      if |body| < 8 {
        return Err(Corrupt);
      }
      var u := FlipTop(FromBE64(body[..8]));
      r := Ok((Int(FromUnsigned(u)), body[8..]));
    } else if tag == TAG_FLOAT {
      if |body| < 8 {
        return Err(Corrupt);
      }
      r := Ok((Float(DropFloat(FromBE64(body[..8]))), body[8..]));
    } else if tag == TAG_TEXT {
      r := DecodeText(body);
      assert UnEsc(body).Ok? ==> [] + UnEsc(body).value.0 == UnEsc(body).value.0;
    } else {
      r := Err(Corrupt);
    }
  }

  method DecodeText(body: bytes) returns (r: Result<(Value, bytes)>)
    ensures r == Prepend([], UnEsc(body))
  {
    var out: bytes, i := [], 0;
    while i < |body|
      invariant 0 <= i <= |body|
      invariant Prepend([], UnEsc(body)) == Prepend(out, UnEsc(body[i..]))
    {
      assert body[i..][1..] == body[i + 1..];
      if body[i] != ESC_BYTE {
        assert UnEsc(body[i + 1..]).Ok? ==>
            out + ([body[i]] + UnEsc(body[i + 1..]).value.0) == (out + [body[i]]) + UnEsc(body[i + 1..]).value.0;
        out := out + [body[i]];
        i := i + 1;
        continue;
      }
      if i + 1 >= |body| {
        return Err(Corrupt);
      }
      assert body[i..][2..] == body[i + 2..];
      if body[i + 1] == ESC_TERM {
        assert out + [] == out;
        return Ok((Text(out), body[i + 2..]));
      } else if body[i + 1] == ESC_LIT {
        assert UnEsc(body[i + 2..]).Ok? ==>
            out + ([ESC_BYTE] + UnEsc(body[i + 2..]).value.0) == (out + [ESC_BYTE]) + UnEsc(body[i + 2..]).value.0;
        out := out + [ESC_BYTE];
        i := i + 2;
      } else {
        return Err(Corrupt);
      }
    }
    r := Err(Corrupt);
  }

  /** Skip walks past one value without building it; it never disagrees with Decode. */
  method Skip(src: bytes) returns (r: Result<bytes>)
    ensures r == TailOf(Dec(src))
  {
    if src == [] {
      return Err(Corrupt);
    }
    var tag, body := src[0], src[1..];
    if tag == TAG_NULL {
      r := Ok(body);
    } else if tag == TAG_BOOL {
      if |body| < 1 {
        return Err(Corrupt);
      }
      r := Ok(body[1..]);
    } else if tag == TAG_INT || tag == TAG_FLOAT {
      if |body| < 8 {
        return Err(Corrupt);
      }
      r := Ok(body[8..]);
    } else if tag == TAG_TEXT {
      var i := 0;
      while i + 1 < |body|
        invariant 0 <= i <= |body|
        invariant TailOf(Prepend([], UnEsc(body))) == TailOf(Prepend([], UnEsc(body[i..])))
      {
        assert body[i..][1..] == body[i + 1..];
        if body[i] != ESC_BYTE {
          i := i + 1;
          continue;
        }
        assert body[i..][2..] == body[i + 2..];
        if body[i + 1] == ESC_TERM {
          return Ok(body[i + 2..]);
        } else if body[i + 1] == ESC_LIT {
          i := i + 2;
        } else {
          return Err(Corrupt);
        }
      }
      assert |body[i..]| <= 1;
      r := Err(Corrupt);
    } else {
      r := Err(Corrupt);
    }
  }

  /** The values read so far, put in front of what the rest decodes to. */
  function Attach(out: seq<Value>, r: Result<(seq<Value>, bytes)>): Result<(seq<Value>, bytes)> {
    match r
    case Ok(pair) => Ok((out + pair.0, pair.1))
    case Err(e) => Err(e)
  }

  lemma AttachNothing(r: Result<(seq<Value>, bytes)>)
    ensures Attach([], r) == r
  {
    if r.Ok? {
      assert [] + r.value.0 == r.value.0;
    }
  }

  lemma AttachStep(out: seq<Value>, v: Value, r: Result<(seq<Value>, bytes)>)
    ensures Attach(out, Attach([v], r)) == Attach(out + [v], r)
  {
    if r.Ok? {
      assert out + ([v] + r.value.0) == (out + [v]) + r.value.0;
    }
  }

  method DecodeAll(src: bytes, n: nat) returns (r: Result<seq<Value>>)
    ensures r == DecAll(src, n)
  {
    var out: seq<Value>, rest := [], src;
    AttachNothing(DecMany(src, n));
    for i := 0 to n
      invariant DecMany(src, n) == Attach(out, DecMany(rest, n - i))
    {
      var d := Decode(rest);
      match d
      case Err(e) =>
        return Err(e);
      case Ok(pair) =>
        AttachStep(out, pair.0, DecMany(pair.1, n - i - 1));
        out, rest := out + [pair.0], pair.1;
    }
    assert out + [] == out;
    if rest != [] {
      return Err(Corrupt);
    }
    r := Ok(out);
  }

  // ------------------------------------------------------------------
  // Decode inverts Encode under any suffix
  // ------------------------------------------------------------------

  lemma UnEscOne(c: byte, tail: bytes)
    requires UnEsc(tail).Ok?
    ensures UnEsc(EscOne(c) + tail) == Ok(([c] + UnEsc(tail).value.0, UnEsc(tail).value.1))
  {
    assert (EscOne(c) + tail)[|EscOne(c)|..] == tail;
  }

  lemma UnEscEnd(suffix: bytes)
    ensures UnEsc(Esc([]) + suffix) == Ok(([], suffix))
  {
    assert Esc([]) + suffix == [ESC_BYTE, ESC_TERM] + suffix;
    assert ([ESC_BYTE, ESC_TERM] + suffix)[2..] == suffix;
  }

  lemma {:induction false} UnEscEsc(s: bytes, suffix: bytes)
    ensures UnEsc(Esc(s) + suffix) == Ok((s, suffix))
  {
    hide UnEsc, Esc, EscOne;
    if s == [] {
      UnEscEnd(suffix);
    } else {
      EscCons(s);
      UnEscEsc(s[1..], suffix);
      AppendAssoc(EscOne(s[0]), Esc(s[1..]), suffix);
      UnEscOne(s[0], Esc(s[1..]) + suffix);
      assert s == [s[0]] + s[1..];
    }
  }

  lemma PayloadRoundTrip(u: bits64)
    ensures FromBE64(BE64(u)) == u
  {
    Pow256Of8();
    BERoundTrip(8, u);
  }

  lemma DecodePayload(tag: byte, u: bits64, suffix: bytes)
    requires tag in {TAG_INT, TAG_FLOAT}
    ensures Dec([tag] + BE64(u) + suffix) ==
            Ok((if tag == TAG_INT then Int(FromUnsigned(FlipTop(u))) else Float(DropFloat(u)), suffix))
  {
    var src := [tag] + BE64(u) + suffix;
    PayloadRoundTrip(u);
    assert src[1..] == BE64(u) + suffix;
    assert src[1..][..8] == BE64(u);
    assert src[1..][8..] == suffix;
  }

  lemma DecodeEscaped(s: bytes, suffix: bytes)
    ensures Dec([TAG_TEXT] + Esc(s) + suffix) == Ok((Text(s), suffix))
  {
    UnEscEsc(s, suffix);
    assert ([TAG_TEXT] + Esc(s) + suffix)[1..] == Esc(s) + suffix;
  }

  lemma DecodeShort(v: Value, suffix: bytes)
    requires v.Null? || v.Bool?
    ensures Dec(Enc(v) + suffix) == Ok((v, suffix))
  {
    var src := Enc(v) + suffix;
    if v.Null? {
      assert src[1..] == suffix;
    } else {
      assert src[1..] == [if v.b then 1 else 0] + suffix;
      assert src[1..][1..] == suffix;
    }
  }

  lemma DecodeEncode(v: Value, suffix: bytes)
    ensures Dec(Enc(v) + suffix) == Ok((v, suffix))
  {
    match v
    case Null => DecodeShort(v, suffix);
    case Bool(b) => DecodeShort(v, suffix);
    case Int(i) => DecodePayload(TAG_INT, FlipTop(ToUnsigned(i)), suffix);
    case Float(f) => DecodePayload(TAG_FLOAT, LiftFloat(f), suffix);
    case Text(s) => DecodeEscaped(s, suffix);
  }

  lemma {:induction false} DecManyEncAll(vs: seq<Value>, suffix: bytes)
    ensures DecMany(EncAll(vs) + suffix, |vs|) == Ok((vs, suffix))
  {
    if vs == [] {
      assert EncAll(vs) + suffix == suffix;
    } else {
      var tail := EncAll(vs[1..]) + suffix;
      assert EncAll(vs) + suffix == Enc(vs[0]) + tail;
      DecodeEncode(vs[0], tail);
      DecManyEncAll(vs[1..], suffix);
      assert vs == [vs[0]] + vs[1..];
    }
  }

  lemma DecodeAllEncodeAll(vs: seq<Value>)
    ensures DecAll(EncAll(vs), |vs|) == Ok(vs)
  {
    DecManyEncAll(vs, []);
    assert EncAll(vs) + [] == EncAll(vs);
  }

  // ------------------------------------------------------------------
  // Order
  // ------------------------------------------------------------------

  /** The position of a float in the totalOrder of IEEE 754-2019 section 5.10. */
  function TotalPlace(f: bits64): int { if Negative(f) then -Magnitude(f) - 1 else Magnitude(f) }

  /** Order with floats placed by totalOrder: the order of the encoded bytes. */
  function ByteOrder(a: Value, b: Value): int {
    if a.Float? && b.Float? then Sign(TotalPlace(a.bits), TotalPlace(b.bits)) else Order(a, b)
  }

  lemma {:induction false} EscOrder(s: bytes, t: bytes)
    ensures Cmp(Esc(s), Esc(t)) == Cmp(s, t)
    ensures s != t ==> Diverge(Esc(s), Esc(t))
  {
    hide Esc, EscOne, Diverge;
    if s == t {
      CmpRange(s, t);
      CmpRange(Esc(s), Esc(t));
    } else if s != [] && t != [] && s[0] == t[0] {
      assert s == [s[0]] + s[1..] && t == [t[0]] + t[1..];
      EscCons(s);
      EscCons(t);
      EscOrder(s[1..], t[1..]);
      CmpCancel(EscOne(s[0]), Esc(s[1..]), Esc(t[1..]));
      CmpCancel([s[0]], s[1..], t[1..]);
      DivergeAfterPrefix(EscOne(s[0]), Esc(s[1..]), Esc(t[1..]));
    } else {
      EscHeadsDiverge(s, t);
    }
  }

  /** The first escaped byte of a text, or its terminator. */
  function Head(s: bytes): bytes { if s == [] then [ESC_BYTE, ESC_TERM] else EscOne(s[0]) }

  lemma EscHeadsDiverge(s: bytes, t: bytes)
    requires s != t
    requires s == [] || t == [] || s[0] != t[0]
    ensures Cmp(Esc(s), Esc(t)) == Cmp(s, t)
    ensures Diverge(Esc(s), Esc(t))
  {
    var x, y := if s == [] then [] else Esc(s[1..]), if t == [] then [] else Esc(t[1..]);
    assert Esc(s) == Head(s) + x by {
      if s != [] {
        EscCons(s);
      }
    }
    assert Esc(t) == Head(t) + y by {
      if t != [] {
        EscCons(t);
      }
    }
    assert Cmp(Head(s), Head(t)) == Cmp(s, t) by {
      if Head(s)[0] == Head(t)[0] {
        assert Cmp(Head(s), Head(t)) == Cmp(Head(s)[1..], Head(t)[1..]);
      }
    }
    CmpDiverge(Head(s), Head(t), x, y);
  }

  lemma PayloadOrder(tag: byte, x: bits64, y: bits64)
    ensures Cmp([tag] + BE64(x), [tag] + BE64(y)) == Sign(x, y)
    ensures x != y ==> Diverge([tag] + BE64(x), [tag] + BE64(y))
  {
    Pow256Of8();
    BEOrder(8, x, y);
    CmpCancel([tag], BE64(x), BE64(y));
    if x != y {
      assert BE64(x) != BE64(y) by {
        PayloadRoundTrip(x);
        PayloadRoundTrip(y);
      }
      SameLengthDiverge([tag] + BE64(x), [tag] + BE64(y));
    }
  }

  /** Encoded bytes compare as the values do, and no encoding is a prefix of another. */
  lemma EncodeOrder(a: Value, b: Value)
    ensures Cmp(Enc(a), Enc(b)) == ByteOrder(a, b)
    ensures a != b ==> Diverge(Enc(a), Enc(b))
  {
    match (a, b)
    case (Int(x), Int(y)) =>
      PayloadOrder(TAG_INT, FlipTop(ToUnsigned(x)), FlipTop(ToUnsigned(y)));
    case (Float(x), Float(y)) =>
      PayloadOrder(TAG_FLOAT, LiftFloat(x), LiftFloat(y));
    case (Text(x), Text(y)) =>
      EscOrder(x, y);
      CmpCancel([TAG_TEXT], Esc(x), Esc(y));
      if x != y {
        DivergeAfterPrefix([TAG_TEXT], Esc(x), Esc(y));
      }
    case (Bool(x), Bool(y)) =>
      CmpCancel([TAG_BOOL], [if x then 1 else 0], [if y then 1 else 0]);
      assert Enc(a) == [TAG_BOOL] + [if x then 1 else 0] && Enc(b) == [TAG_BOOL] + [if y then 1 else 0];
    case (Null, Null) =>
    case _ =>
      assert Enc(a)[0] != Enc(b)[0];
  }

  lemma EncodeInjective(a: Value, b: Value)
    requires Enc(a) == Enc(b)
    ensures a == b
  {
    DecodeEncode(a, []);
    DecodeEncode(b, []);
  }

  /** Values on which Order and the encoding part company: the zeros and the NaNs. */
  predicate Agree(a: Value, b: Value) {
    a.Float? && b.Float? && a != b ==>
      && !(IsZero(a.bits) && IsZero(b.bits))
      && !(IsNaN(a.bits) && IsNaN(b.bits))
      && !(IsNaN(a.bits) && Negative(a.bits))
      && !(IsNaN(b.bits) && Negative(b.bits))
  }

  /** Bytes sort as types.Order sorts, exactly on the pairs that Agree. */
  lemma EncodeOrderExact(a: Value, b: Value)
    ensures Cmp(Enc(a), Enc(b)) == Order(a, b) <==> Agree(a, b)
  {
    EncodeOrder(a, b);
    OrderRange(a, b);
  }

  /** -0.0 and 0.0 are one value to ORDER BY and two to the encoding. */
  lemma ZerosDisagree()
    ensures Order(Float(TWO_63), Float(0)) == 0
    ensures Cmp(Enc(Float(TWO_63)), Enc(Float(0))) == -1
  {
    EncodeOrder(Float(TWO_63), Float(0));
  }

  /** A NaN with a sign bit comes after every number in ORDER BY and encodes before them all. */
  lemma NaNDisagrees(nan: bits64, f: bits64)
    requires IsNaN(nan) && Negative(nan) && !IsNaN(f)
    ensures Order(Float(nan), Float(f)) == 1
    ensures Cmp(Enc(Float(nan)), Enc(Float(f))) == -1
  {
    EncodeOrder(Float(nan), Float(f));
  }

  /** Field by field, first difference decides. */
  function TupleOrder(a: seq<Value>, b: seq<Value>): int
    requires |a| == |b|
  {
    if a == [] then 0
    else if Order(a[0], b[0]) != 0 then Order(a[0], b[0])
    else TupleOrder(a[1..], b[1..])
  }

  lemma {:induction false} TupleOrderRange(a: seq<Value>, b: seq<Value>)
    requires |a| == |b|
    ensures TupleOrder(a, b) in {-1, 0, 1}
  {
    if a != [] {
      OrderRange(a[0], b[0]);
      TupleOrderRange(a[1..], b[1..]);
    }
  }

  lemma {:induction false} EncodeAllPrefixFree(a: seq<Value>, b: seq<Value>)
    requires |a| == |b| && a != b
    ensures Diverge(EncAll(a), EncAll(b))
  {
    EncodeOrder(a[0], b[0]);
    if a[0] == b[0] {
      assert a == [a[0]] + a[1..] && b == [b[0]] + b[1..];
      EncodeAllPrefixFree(a[1..], b[1..]);
      DivergeAfterPrefix(Enc(a[0]), EncAll(a[1..]), EncAll(b[1..]));
    } else {
      CmpDiverge(Enc(a[0]), Enc(b[0]), EncAll(a[1..]), EncAll(b[1..]));
    }
  }

  /**
   * Tuples whose encodings compare as they sort: the first fields that differ agree, or sort as equal
   * and leave the decision to later fields that happen to fall the same way.
   */
  predicate TupleAgree(a: seq<Value>, b: seq<Value>)
    requires |a| == |b|
  {
    if a == [] then true
    else if a[0] == b[0] then TupleAgree(a[1..], b[1..])
    else Agree(a[0], b[0]) || (Equal(a[0], b[0]) && TupleOrder(a[1..], b[1..]) == ByteOrder(a[0], b[0]))
  }

  /** Encoded tuples compare field by field, exactly on the pairs that TupleAgree describes. */
  lemma {:induction false} EncodeAllOrder(a: seq<Value>, b: seq<Value>)
    requires |a| == |b|
    ensures Cmp(EncAll(a), EncAll(b)) == TupleOrder(a, b) <==> TupleAgree(a, b)
  {
    if a != [] {
      EncodeOrder(a[0], b[0]);
      EncodeOrderExact(a[0], b[0]);
      OrderRange(a[0], b[0]);
      if a[0] == b[0] {
        EncodeAllOrder(a[1..], b[1..]);
        CmpCancel(Enc(a[0]), EncAll(a[1..]), EncAll(b[1..]));
      } else {
        CmpDiverge(Enc(a[0]), Enc(b[0]), EncAll(a[1..]), EncAll(b[1..]));
      }
    }
  }

  /** Tuples whose fields all agree, such as tuples of plain values. */
  lemma {:induction false} AgreeingTuples(a: seq<Value>, b: seq<Value>)
    requires |a| == |b|
    requires forall i :: 0 <= i < |a| ==> Agree(a[i], b[i])
    ensures TupleAgree(a, b)
  {
    if a != [] {
      AgreeingTuples(a[1..], b[1..]);
    }
  }
}
