// The stored form of a row and the masked decoder of keycodec/row.go.
module RowCodec {
  import opened Bytes
  import opened Values
  import opened KeyCodec

  const ROW_FORMAT: byte := 0x01

  function EncodeRow(row: Row): bytes { [ROW_FORMAT] + EncAll(row) }

  function RowBody(src: bytes): Result<bytes> {
    if src == [] || src[0] != ROW_FORMAT then Err(Corrupt) else Ok(src[1..])
  }

  function DecodeRow(src: bytes, n: nat): Result<Row> {
    var body :- RowBody(src);
    DecAll(body, n)
  }

  /** A row with the columns the mask leaves out read as NULL. */
  function Masked(row: Row, want: seq<bool>): (r: Row)
    requires |want| == |row|
    ensures |r| == |row|
    ensures forall i :: 0 <= i < |row| ==> r[i] == if want[i] then row[i] else Null
  {
    seq(|row|, i requires 0 <= i < |row| => if want[i] then row[i] else Null)
  }

  /** The columns of the mask, the others NULL; bytes after the last column are not looked at. */
  function DecodeMasked(src: bytes, want: seq<bool>): Result<Row> {
    var body :- RowBody(src);
    var (vs, rest) :- DecMany(body, |want|);
    Ok(Masked(vs, want))
  }

  /** Fields are decoded where wanted and skipped elsewhere. */
  method DecodeRowMasked(src: bytes, want: seq<bool>) returns (r: Result<Row>)
    ensures r == DecodeMasked(src, want)
  {
    if RowBody(src).Err? {
      return Err(RowBody(src).error);
    }
    ghost var body := RowBody(src).value;
    var out: Row, rest := [], RowBody(src).value;
    ghost var full: Row := [];
    AttachNothing(DecMany(body, |want|));
    for i := 0 to |want|
      invariant |full| == i && |out| == i
      invariant forall j :: 0 <= j < i ==> out[j] == if want[j] then full[j] else Null
      invariant DecMany(body, |want|) == Attach(full, DecMany(rest, |want| - i))
    {
      if Dec(rest).Ok? {
        AttachStep(full, Dec(rest).value.0, DecMany(Dec(rest).value.1, |want| - i - 1));
        full := full + [Dec(rest).value.0];
      }
      if want[i] {
        var d := Decode(rest);
        match d
        case Err(e) =>
          return Err(e);
        case Ok(pair) =>
          out, rest := out + [pair.0], pair.1;
      } else {
        var tail := Skip(rest);
        match tail
        case Err(e) =>
          return Err(e);
        case Ok(t) =>
          out, rest := out + [Null], t;
      }
    }
    assert full + [] == full;
    assert out == Masked(full, want);
    r := Ok(out);
  }

  lemma DecodeRowEncodeRow(row: Row)
    ensures DecodeRow(EncodeRow(row), |row|) == Ok(row)
    ensures RowBody(EncodeRow(row)) == Ok(EncAll(row))
    ensures DecMany(EncAll(row), |row|) == Ok((row, []))
  {
    DecodeAllEncodeAll(row);
    DecManyEncAll(row, []);
    assert EncAll(row) + [] == EncAll(row);
    assert EncodeRow(row)[1..] == EncAll(row);
  }

  lemma DecodeMaskedEncodeRow(row: Row, want: seq<bool>)
    requires |want| == |row|
    ensures DecodeMasked(EncodeRow(row), want) == Ok(Masked(row, want))
  {
    DecodeRowEncodeRow(row);
  }

  lemma EncodeRowInjective(a: Row, b: Row)
    requires |a| == |b| && EncodeRow(a) == EncodeRow(b)
    ensures a == b
  {
    DecodeRowEncodeRow(a);
    DecodeRowEncodeRow(b);
  }
}
