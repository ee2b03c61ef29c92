// The running operators (exec/operators.go). Each pulls from an input known only by the stream it
// still delivers, and delivers the stream its specification derives from that.
module Operators {
  import opened Bytes
  import opened Values
  import opened KeyCodec
  import opened Ast
  import opened Eval
  import opened Sorting
  import opened Streams

  /** Any operator below. */
  class Source {
    var rest: Stream

    constructor (rest: Stream)
      ensures this.rest == rest
    {
      this.rest := rest;
    }

    method Next() returns (r: Result<Option<Row>>)
      modifies this
      ensures Delivers(old(rest), r, rest)
    {
      if rest.rows != [] {
        r := Ok(Some(rest.rows[0]));
        rest := Tail(rest);
      } else if rest.end.Some? {
        r := Err(rest.end.value);
      } else {
        r := Ok(None);
      }
    }
  }

  class FilterOp {
    const host: Host
    const input: Source
    const pred: Expr
    const env: Env

    constructor (host: Host, input: Source, pred: Expr, env: Env)
      ensures this.input == input && Rest() == FilterS(host, pred, env, input.rest)
    {
      this.host, this.input, this.pred, this.env := host, input, pred, env;
    }

    ghost function Rest(): Stream
      reads input
    {
      FilterS(host, pred, env, input.rest)
    }

    method Next() returns (r: Result<Option<Row>>)
      modifies input
      ensures Delivers(old(Rest()), r, Rest())
    {
      while true
        invariant Rest() == old(Rest())
        decreases |input.rest.rows|
      {
        var next := input.Next();
        if next.Err? || next.value.None? {
          return next;
        }
        var keep := EvalPredicate(host, pred, env, next.value.value);
        if keep.Err? {
          return Err(keep.error);
        }
        if keep.value.True? {
          return next;
        }
      }
    }
  }

  /** The loop of project.Next over the SELECT list. */
  method EvalRow(h: Host, exprs: seq<Expr>, env: Env, row: Row) returns (r: Result<Row>)
    ensures r == EvalAll(h, exprs, env, row)
  {
    var out: Row := [];
    assert exprs[..|exprs|] == exprs;
    for i := 0 to |exprs|
      invariant EvalAll(h, exprs[..i], env, row) == Ok(out)
    {
      assert exprs[..i + 1][..i] == exprs[..i];
      var v := EvalExpr(h, exprs[i], env, row);
      if v.Err? {
        EvalAllFails(h, exprs, env, row, i + 1);
        return Err(v.error);
      }
      out := out + [v.value];
    }
    r := Ok(out);
  }

  lemma {:induction false} EvalAllFails(h: Host, exprs: seq<Expr>, env: Env, row: Row, i: nat)
    requires i <= |exprs| && EvalAll(h, exprs[..i], env, row).Err?
    ensures EvalAll(h, exprs, env, row) == EvalAll(h, exprs[..i], env, row)
    decreases |exprs|
  {
    if i == |exprs| {
      assert exprs[..i] == exprs;
    } else {
      assert exprs[..|exprs| - 1][..i] == exprs[..i];
      EvalAllFails(h, exprs[..|exprs| - 1], env, row, i);
    }
  }

  class ProjectOp {
    const host: Host
    const input: Source
    const exprs: seq<Expr>
    const env: Env

    constructor (host: Host, input: Source, exprs: seq<Expr>, env: Env)
      ensures this.input == input && Rest() == ProjectS(host, exprs, env, input.rest)
    {
      this.host, this.input, this.exprs, this.env := host, input, exprs, env;
    }

    ghost function Rest(): Stream
      reads input
    {
      ProjectS(host, exprs, env, input.rest)
    }

    method Next() returns (r: Result<Option<Row>>)
      modifies input
      ensures Delivers(old(Rest()), r, Rest())
    {
      var next := input.Next();
      if next.Err? || next.value.None? {
        return next;
      }
      var out := EvalRow(host, exprs, env, next.value.value);
      match out
      case Err(e) => r := Err(e);
      case Ok(row) => r := Ok(Some(row));
    }
  }

  class LimitOp {
    const input: Source
    const count: int64
    const offset: int64
    var emitted: int
    var skipped: int

    constructor (input: Source, count: int64, offset: int64)
      ensures this.input == input && this.count == count && this.offset == offset
      ensures Valid() && Rest() == LimitS(count, offset, input.rest)
    {
      this.input, this.count, this.offset := input, count, offset;
      emitted, skipped := 0, 0;
    }

    ghost predicate Valid()
      reads this
    {
      0 <= emitted && (count >= 0 ==> emitted <= count)
    }

    ghost function Rest(): Stream
      reads this, input
    {
      LimitS(if count < 0 then count else count - emitted, offset - skipped, input.rest)
    }

    method Next() returns (r: Result<Option<Row>>)
      requires Valid()
      modifies this, input
      ensures Valid() && Delivers(old(Rest()), r, Rest())
    {
      while skipped < offset
        invariant Valid() && emitted == old(emitted) && Rest() == old(Rest())
        decreases offset - skipped
      {
        var next := input.Next();
        if next.Err? || next.value.None? {
          return next;
        }
        skipped := skipped + 1;
      }
      if count >= 0 && emitted >= count {
        return Ok(None);
      }
      r := input.Next();
      if r.Ok? && r.value.Some? {
        emitted := emitted + 1;
      }
    }
  }

  class DistinctOp {
    const input: Source
    var seen: set<bytes>

    constructor (input: Source)
      ensures this.input == input && Rest() == DistinctS({}, input.rest)
    {
      this.input, seen := input, {};
    }

    ghost function Rest(): Stream
      reads this, input
    {
      DistinctS(seen, input.rest)
    }

    method Next() returns (r: Result<Option<Row>>)
      modifies this, input
      ensures Delivers(old(Rest()), r, Rest())
    {
      while true
        invariant Rest() == old(Rest())
        decreases |input.rest.rows|
      {
        var next := input.Next();
        if next.Err? || next.value.None? {
          return next;
        }
        var key := EncodeAll([], next.value.value);
        assert key == EncAll(next.value.value);
        if key !in seen {
          seen := seen + {key};
          return next;
        }
      }
    }
  }

  lemma OntoTwice(seen: seq<Item>, x: Item, more: Result<seq<Item>>)
    ensures Onto(seen, Onto([x], more)) == Onto(seen + [x], more)
  {
    if more.Ok? {
      assert seen + ([x] + more.value) == (seen + [x]) + more.value;
    }
  }

  lemma OntoOneMore(h: Host, keys: seq<SortKey>, env: Env, s: Stream, seen: seq<Item>)
    requires s.rows != []
    ensures match EvalAll(h, KeyExprs(keys), env, s.rows[0])
            case Err(e) => Onto(seen, ItemsOf(h, keys, env, s, |seen|)) == Err(e)
            case Ok(ks) =>
              Onto(seen, ItemsOf(h, keys, env, s, |seen|)) ==
              Onto(seen + [Item(s.rows[0], ks, |seen|)], ItemsOf(h, keys, env, Tail(s), |seen| + 1))
  {
    ItemsStep(h, keys, env, s, |seen|);
    hide ItemsOf, EvalAll;
    if EvalAll(h, KeyExprs(keys), env, s.rows[0]).Ok? {
      OntoTwice(seen, Item(s.rows[0], EvalAll(h, KeyExprs(keys), env, s.rows[0]).value, |seen|),
                ItemsOf(h, keys, env, Tail(s), |seen| + 1));
    }
  }

  /** seen, followed by the items of s, are the items of all. */
  ghost predicate Loading(h: Host, keys: seq<SortKey>, env: Env, all: Stream, s: Stream, seen: seq<Item>) {
    Onto(seen, ItemsOf(h, keys, env, s, |seen|)) == ItemsOf(h, keys, env, all, 0)
  }

  lemma LoadingMore(h: Host, keys: seq<SortKey>, env: Env, all: Stream, s: Stream, seen: seq<Item>, ks: Row)
    requires Loading(h, keys, env, all, s, seen) && s.rows != [] && EvalAll(h, KeyExprs(keys), env, s.rows[0]) == Ok(ks)
    ensures Loading(h, keys, env, all, Tail(s), seen + [Item(s.rows[0], ks, |seen|)])
  {
    hide ItemsOf, Onto, EvalAll;
    OntoOneMore(h, keys, env, s, seen);
  }

  /** How a load ends: with the input's error, a sort key's error, or everything read. */
  lemma LoadEnds(h: Host, keys: seq<SortKey>, limit: int, env: Env, all: Stream, s: Stream, seen: seq<Item>)
    requires Loading(h, keys, env, all, s, seen)
    requires Fits(Directions(keys), seen)
    ensures s.rows == [] && s.end.Some? ==> SortS(h, keys, limit, env, all) == Fails(s.end.value)
    ensures s.rows == [] && s.end.None? ==>
              SortS(h, keys, limit, env, all) == Stream(RowsOf(TopN(Directions(keys), limit, seen)), None)
    ensures s.rows != [] && EvalAll(h, KeyExprs(keys), env, s.rows[0]).Err? ==>
              SortS(h, keys, limit, env, all) == Fails(EvalAll(h, KeyExprs(keys), env, s.rows[0]).error)
  {
    assert seen + [] == seen;
  }

  /** Items carry the numbers of their arrival. */
  ghost predicate Counted(desc: seq<bool>, items: seq<Item>) {
    Fits(desc, items) && forall i :: 0 <= i < |items| ==> items[i].num == i
  }

  lemma Numbering(desc: seq<bool>, seen: seq<Item>, x: Item)
    requires Counted(desc, seen) && x.num == |seen| && |x.keys| == |desc|
    ensures Numbered(seen + [x]) && Counted(desc, seen + [x])
  {
  }

  /** What the sort has kept of the items that came: all of them, or the heap's share. */
  ghost predicate Collects(h: TopHeap?, desc: seq<bool>, limit: int, items: seq<Item>, seen: seq<Item>)
    reads h
  {
    && Counted(desc, seen)
    && if h == null then limit < 0 && items == seen
       else limit >= 0 && h.desc == desc && HoldsFirst(h, limit, seen)
  }

  lemma CollectsNone(h: TopHeap?, desc: seq<bool>, limit: int)
    requires if h == null then limit < 0 else limit >= 0 && h.desc == desc && h.Valid() && h.items == []
    ensures Collects(h, desc, limit, [], [])
  {
    if h != null {
      HoldsNone(h, limit);
    }
  }

  lemma CollectsTop(h: TopHeap?, desc: seq<bool>, limit: int, items: seq<Item>, seen: seq<Item>)
    requires Collects(h, desc, limit, items, seen)
    ensures Fits(desc, seen) && Fits(desc, if h == null then items else h.items)
    ensures Sort(desc, if h == null then items else h.items) == TopN(desc, limit, seen)
  {
    if h != null {
      HeldSorted(h, limit, seen);
    }
  }

  /** One more item, into the list or offered to the heap. */
  method Arrive(h: TopHeap?, ghost desc: seq<bool>, limit: int, items: seq<Item>, item: Item, ghost seen: seq<Item>)
    returns (now: seq<Item>)
    requires Collects(h, desc, limit, items, seen) && item.num == |seen| && |item.keys| == |desc|
    modifies h
    ensures Collects(h, desc, limit, now, seen + [item])
  {
    hide Counted, HoldsFirst;
    Numbering(desc, seen, item);
    now := items;
    if h == null {
      now := items + [item];
    } else {
      Offer(h, limit, item, seen);
    }
  }

  lemma CollectsFits(h: TopHeap?, desc: seq<bool>, limit: int, items: seq<Item>, seen: seq<Item>)
    requires Collects(h, desc, limit, items, seen)
    ensures Fits(desc, seen)
  {
  }

  class SortOp {
    const host: Host
    const input: Source
    const keys: seq<SortKey>
    const limit: int64
    const env: Env
    var rows: seq<Row>
    var pos: nat
    var loaded: bool

    constructor (host: Host, input: Source, keys: seq<SortKey>, limit: int64, env: Env)
      ensures this.input == input && Valid() && Rest() == SortS(host, keys, limit, env, input.rest)
    {
      this.host, this.input, this.keys, this.limit, this.env := host, input, keys, limit, env;
      rows, pos, loaded := [], 0, false;
    }

    ghost predicate Valid()
      reads this
    {
      pos <= |rows|
    }

    ghost function Rest(): Stream
      requires Valid()
      reads this, input
    {
      if loaded then Stream(rows[pos..], None) else SortS(host, keys, limit, env, input.rest)
    }

    method Next() returns (r: Result<Option<Row>>)
      requires Valid()
      modifies this, input
      ensures Valid() && Delivers(old(Rest()), r, Rest())
    {
      if !loaded {
        var failed := Load();
        if failed.Some? {
          return Err(failed.value);
        }
        pos, loaded := 0, true;
      }
      if pos >= |rows| {
        return Ok(None);
      }
      r := Ok(Some(rows[pos]));
      pos := pos + 1;
    }

    /** Drains the input, then sorts it or, under a pushed-down limit, what the heap kept of it. */
    method Load() returns (failed: Option<Error>)
      modifies this`rows, input
      ensures match failed
              case Some(e) => rows == old(rows) && SortS(host, keys, limit, env, old(input.rest)) == Fails(e)
              case None => SortS(host, keys, limit, env, old(input.rest)) == Stream(rows, None)
    {
      var desc := Directions(keys);
      var items: seq<Item> := [];
      var h: TopHeap? := null;
      if limit >= 0 {
        h := new TopHeap(desc);
      }
      ghost var seen: seq<Item> := [];
      CollectsNone(h, desc, limit);
      var arrived := 0;
      StartOnto(ItemsOf(host, keys, env, input.rest, 0));
      hide Loading, Onto, ItemsOf, SortS, EvalAll, Sort, Take, TopN, Numbered, Collects, Fits, Counted, Directions, KeyExprs, RowsOf;
      while true
        invariant arrived == |seen|
        invariant Loading(host, keys, env, old(input.rest), input.rest, seen)
        invariant rows == old(rows)
        invariant (h == null || fresh(h)) && Collects(h, desc, limit, items, seen)
        decreases |input.rest.rows|
      {
        CollectsFits(h, desc, limit, items, seen);
        LoadEnds(host, keys, limit, env, old(input.rest), input.rest, seen);
        ghost var before := input.rest;
        var next := input.Next();
        if next.Err? {
          return Some(next.error);
        }
        if next.value.None? {
          break;
        }
        var ks := EvalRow(host, KeyExprs(keys), env, next.value.value);
        if ks.Err? {
          return Some(ks.error);
        }
        LoadingMore(host, keys, env, old(input.rest), before, seen, ks.value);
        var item := Item(next.value.value, ks.value, arrived);
        items := Arrive(h, desc, limit, items, item, seen);
        seen := seen + [item];
        arrived := arrived + 1;
      }
      CollectsTop(h, desc, limit, items, seen);
      if h != null {
        items := h.items;
      }
      rows := RowsOf(Sort(desc, items));
      failed := None;
    }
  }

  lemma StartOnto(more: Result<seq<Item>>)
    ensures Onto([], more) == more
  {
    if more.Ok? {
      assert [] + more.value == more.value;
    }
  }
}
