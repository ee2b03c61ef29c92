// Ordered stores, the write buffer and the merging overlay of storage/.
module Storage {
  import opened Bytes
  import opened Values
  import opened Keys

  /** An ordered key/value store seen as a map; keelstore snapshots are such maps. */
  type Store = map<bytes, bytes>

  datatype Entry = Entry(key: bytes, value: bytes, deleted: bool)

  type Entries = map<bytes, Entry>

  // ------------------------------------------------------------------
  // Ascending listings
  // ------------------------------------------------------------------

  ghost predicate Keyed(em: Entries) { forall k :: k in em ==> em[k].key == k }

  ghost predicate Ascending(es: seq<Entry>) {
    forall i, j :: 0 <= i < j < |es| ==> Before(es[i].key, es[j].key)
  }

  /** es lists the whole map, each key once, in key order. */
  ghost predicate Lists(es: seq<Entry>, em: Entries) {
    && Ascending(es)
    && (forall e :: e in es ==> e.key in em && em[e.key] == e)
    && (forall k :: k in em ==> em[k] in es)
  }

  ghost predicate IsLeast(k: bytes, s: set<bytes>) { k in s && forall x :: x in s ==> Cmp(k, x) <= 0 }

  lemma {:induction false} LeastExists(s: set<bytes>)
    requires s != {}
    ensures exists k :: IsLeast(k, s)
  {
    var x :| x in s;
    if s == {x} {
      CmpRange(x, x);
      assert IsLeast(x, s);
    } else {
      LeastExists(s - {x});
      var y :| IsLeast(y, s - {x});
      CmpRange(x, y);
      var z := if Cmp(x, y) < 0 then x else y;
      forall w | w in s ensures Cmp(z, w) <= 0 {
        CmpRange(w, w);
        if w != x && z == x {
          CmpTransitive(x, y, w);
        }
      }
      assert IsLeast(z, s);
    }
  }

  ghost function Sorted(em: Entries): (r: seq<Entry>)
    requires Keyed(em)
    ensures Lists(r, em)
    decreases |em|
  {
    if em == map[] then []
    else
      LeastExists(em.Keys);
      var k :| IsLeast(k, em.Keys);
      var rest := Sorted(em - {k});
      ConsLists(k, rest, em);
      [em[k]] + rest
  }

  lemma ConsLists(k: bytes, rest: seq<Entry>, em: Entries)
    requires Keyed(em) && IsLeast(k, em.Keys) && Lists(rest, em - {k})
    ensures Lists([em[k]] + rest, em)
  {
    var all := [em[k]] + rest;
    forall j | 0 <= j < |rest| ensures Before(k, rest[j].key) {
      assert rest[j] in rest;
      CmpRange(k, rest[j].key);
    }
    assert forall i, j :: 0 <= i < j < |all| ==> i > 0 ==> all[i] == rest[i - 1] && all[j] == rest[j - 1];
    assert forall x :: x in em && x != k ==> x in em - {k};
  }

  lemma {:induction false} ListingUnique(a: seq<Entry>, b: seq<Entry>, em: Entries)
    requires Keyed(em) && Lists(a, em) && Lists(b, em)
    ensures a == b
    decreases |a|
  {
    if a == [] {
      assert forall k :: k in em ==> em[k] in a;
      assert forall e :: e !in b;
    } else {
      assert a[0] in a;
      assert em[a[0].key] in b;
      HeadIsLeast(a, em);
      HeadIsLeast(b, em);
      CmpRange(a[0].key, b[0].key);
      assert a[0] == b[0];
      TailLists(a, em);
      TailLists(b, em);
      ListingUnique(a[1..], b[1..], em - {a[0].key});
    }
  }

  lemma HeadIsLeast(a: seq<Entry>, em: Entries)
    requires Keyed(em) && Lists(a, em) && a != []
    ensures IsLeast(a[0].key, em.Keys)
  {
    assert a[0] in a;
    forall x | x in em.Keys ensures Cmp(a[0].key, x) <= 0 {
      assert em[x] in a;
      var i :| 0 <= i < |a| && a[i] == em[x];
      CmpRange(a[0].key, x);
      assert i > 0 ==> Before(a[0].key, a[i].key);
    }
  }

  lemma TailLists(a: seq<Entry>, em: Entries)
    requires Keyed(em) && Lists(a, em) && a != []
    ensures Lists(a[1..], em - {a[0].key})
  {
    forall e | e in a[1..] ensures e.key in em && e.key != a[0].key && em[e.key] == e {
      var i :| 0 <= i < |a[1..]| && a[1..][i] == e;
      assert Before(a[0].key, a[i + 1].key);
      CmpRange(a[0].key, a[0].key);
    }
    forall k | k in em - {a[0].key} ensures em[k] in a[1..] {
      assert em[k] in a;
      assert a == [a[0]] + a[1..];
    }
  }

  function Lift(m: Store): (em: Entries)
    ensures Keyed(em)
  {
    map k | k in m :: Entry(k, m[k], false)
  }

  function Inside(em: Entries, start: Option<bytes>, end: Option<bytes>): (r: Entries)
    ensures Keyed(em) ==> Keyed(r)
  {
    map k | k in em && InInterval(k, start, end) :: em[k]
  }

  /** What a scan of [start, end) over a store must yield. */
  ghost function Listing(m: Store, start: Option<bytes>, end: Option<bytes>): seq<Entry> {
    Sorted(Inside(Lift(m), start, end))
  }

  /** Base with the buffered mutations applied; a tombstone removes the key. */
  function Apply(base: Store, em: Entries): Store {
    map k | k in base.Keys + em.Keys && (k in em ==> !em[k].deleted) :: if k in em then em[k].value else base[k]
  }

  // ------------------------------------------------------------------
  // Sorting a map's entries
  // ------------------------------------------------------------------

  function Insert(e: Entry, es: seq<Entry>): seq<Entry> {
    if es == [] then [e]
    else if Before(e.key, es[0].key) then [e] + es
    else [es[0]] + Insert(e, es[1..])
  }

  lemma {:induction false} InsertElements(e: Entry, es: seq<Entry>)
    ensures forall x :: x in Insert(e, es) <==> x == e || x in es
  {
    if es != [] && !Before(e.key, es[0].key) {
      InsertElements(e, es[1..]);
      assert es == [es[0]] + es[1..];
    }
  }

  lemma {:induction false} InsertAscending(e: Entry, es: seq<Entry>)
    requires Ascending(es)
    requires forall x :: x in es ==> x.key != e.key
    ensures Ascending(Insert(e, es))
  {
    if es == [] {
    } else if Before(e.key, es[0].key) {
      forall j | 0 < j < |[e] + es| ensures Before(e.key, ([e] + es)[j].key) {
        assert j > 1 ==> Before(es[0].key, es[j - 1].key);
        if j > 1 {
          CmpTransitive(e.key, es[0].key, es[j - 1].key);
        }
      }
    } else {
      assert es[0] in es;
      CmpRange(e.key, es[0].key);
      InsertAscending(e, es[1..]);
      InsertElements(e, es[1..]);
      var tail := Insert(e, es[1..]);
      forall j | 0 <= j < |tail| ensures Before(es[0].key, tail[j].key) {
        assert tail[j] in tail;
        if tail[j] != e {
          var i :| 0 <= i < |es[1..]| && es[1..][i] == tail[j];
          assert Before(es[0].key, es[i + 1].key);
        }
      }
    }
  }

  lemma InsertLists(es: seq<Entry>, em: Entries, e: Entry)
    requires Lists(es, em) && e.key !in em
    ensures Lists(Insert(e, es), em[e.key := e])
  {
    InsertAscending(e, es);
    InsertElements(e, es);
  }

  /** Collects the entries of a map in arbitrary order and sorts them by key. */
  method SortEntries(em: Entries) returns (es: seq<Entry>)
    requires Keyed(em)
    ensures es == Sorted(em)
  {
    es := [];
    var todo := em.Keys;
    while todo != {}
      invariant todo <= em.Keys
      invariant Lists(es, em - todo)
      decreases |todo|
    {
      var k :| k in todo;
      InsertLists(es, em - todo, em[k]);
      assert em - (todo - {k}) == (em - todo)[k := em[k]];
      es := Insert(em[k], es);
      todo := todo - {k};
    }
    assert em - {} == em;
    ListingUnique(es, Sorted(em), em);
  }

  // ------------------------------------------------------------------
  // The in-memory store and its iterator
  // ------------------------------------------------------------------

  class SliceIter {
    const entries: seq<Entry>
    var pos: int

    constructor (entries: seq<Entry>)
      ensures this.entries == entries && pos == -1
    {
      this.entries := entries;
      pos := -1;
    }

    predicate Current()
      reads this
    {
      0 <= pos < |entries|
    }

    method Next() returns (ok: bool)
      requires -1 <= pos
      modifies this
      ensures pos == old(pos) + 1
      ensures ok == Current()
    {
      pos := pos + 1;
      ok := pos < |entries|;
    }
  }

  method ScanStore(m: Store, start: Option<bytes>, end: Option<bytes>) returns (it: SliceIter)
    ensures fresh(it) && it.pos == -1
    ensures it.entries == Listing(m, start, end)
  {
    var es := SortEntries(Inside(Lift(m), start, end));
    it := new SliceIter(es);
  }

  class Memory {
    var m: Store

    constructor ()
      ensures m == map[]
    {
      m := map[];
    }

    method Get(key: bytes) returns (r: Result<bytes>)
      ensures r == Lookup(m, key)
    {
      if key !in m {
        return Err(NotFound);
      }
      r := Ok(m[key]);
    }

    method Put(key: bytes, value: bytes)
      modifies this
      ensures m == old(m)[key := value]
    {
      m := m[key := value];
    }

    method Delete(key: bytes)
      modifies this
      ensures m == old(m) - {key}
    {
      m := m - {key};
    }

    method Scan(start: Option<bytes>, end: Option<bytes>) returns (it: SliceIter)
      ensures fresh(it) && it.pos == -1
      ensures it.entries == Listing(m, start, end)
    {
      it := ScanStore(m, start, end);
    }
  }

  function Lookup(m: Store, key: bytes): Result<bytes> {
    if key in m then Ok(m[key]) else Err(NotFound)
  }

  // ------------------------------------------------------------------
  // The write buffer
  // ------------------------------------------------------------------

  class Buffer {
    var m: Entries
    var sorted: array<Entry>
    var dirty: bool

    /** The cache, when it is not dirty, is the sorted listing of the map. */
    ghost predicate Valid()
      reads this, sorted
    {
      && Keyed(m)
      && (!dirty ==> sorted[..] == Sorted(m))
    }

    constructor ()
      ensures Valid() && m == map[] && fresh(sorted)
    {
      m := map[];
      sorted := new Entry[0];
      dirty := false;
    }

    method Put(key: bytes, value: bytes)
      requires Valid()
      modifies this
      ensures Valid() && sorted == old(sorted)
      ensures m == old(m)[key := Entry(key, value, false)]
    {
      m := m[key := Entry(key, value, false)];
      dirty := true;
    }

    method Delete(key: bytes)
      requires Valid()
      modifies this
      ensures Valid() && sorted == old(sorted)
      ensures m == old(m)[key := Entry(key, [], true)]
    {
      m := m[key := Entry(key, [], true)];
      dirty := true;
    }

    /** Every mutation in key order; a stale cache is replaced, never rewritten. */
    method Entries() returns (es: array<Entry>)
      requires Valid()
      modifies this
      ensures Valid() && m == old(m) && !dirty
      ensures es == sorted && es[..] == Sorted(m)
      ensures es == old(sorted) || fresh(es)
    {
      if dirty {
        var list := SortEntries(m);
        sorted := new Entry[|list|](i requires 0 <= i < |list| => list[i]);
        assert sorted[..] == list;
        dirty := false;
      }
      es := sorted;
    }

    method Reset()
      modifies this
      ensures Valid() && m == map[] && !dirty && fresh(sorted)
    {
      m := map[];
      sorted := new Entry[0];
      dirty := false;
    }

    /** The part of the sorted mutations that lies in [start, end). */
    method RangeEntries(start: Option<bytes>, end: Option<bytes>) returns (all: array<Entry>, lo: nat, hi: nat)
      requires Valid()
      modifies this
      ensures Valid() && m == old(m) && all == sorted
      ensures all == old(sorted) || fresh(all)
      ensures lo <= hi <= all.Length
      ensures all[lo..hi] == Sorted(Inside(m, start, end))
    {
      hide Lists, CutsAt, Cuts, Inside, Keyed, Ascending;
      all := Entries();
      SortedAscends(m);
      lo := 0;
      if start.Some? {
        lo := Search(all, start.value);
      }
      hi := all.Length;
      if end.Some? {
        hi := Search(all, end.value);
      }
      ghost var loCut := lo;
      if lo > hi {
        lo := hi;
      }
      assert all[lo..hi] == all[..][lo..hi];
      CutsFound(all[..], loCut, hi, start, end);
      SliceIsSorted(all[..], loCut, hi, lo, m, start, end);
    }
  }

  /** Exactly the first n entries lie before the bound. */
  ghost predicate CutsAt(es: seq<Entry>, n: nat, bound: bytes) {
    n <= |es| && forall j :: 0 <= j < |es| ==> (j < n <==> Before(es[j].key, bound))
  }

  lemma SortedAscends(em: Entries)
    requires Keyed(em)
    ensures Ascending(Sorted(em))
  {
  }

  /** sort.Search for the first entry not before the bound. */
  method Search(all: array<Entry>, bound: bytes) returns (i: nat)
    requires Ascending(all[..])
    ensures CutsAt(all[..], i, bound)
  {
    var j: nat;
    i, j := 0, all.Length;
    while i < j
      invariant i <= j <= all.Length
      invariant forall x :: 0 <= x < i ==> Before(all[x].key, bound)
      invariant forall x :: j <= x < all.Length ==> !Before(all[x].key, bound)
    {
      var h := (i + j) / 2;
      if Before(all[h].key, bound) {
        forall x | 0 <= x <= h ensures Before(all[x].key, bound) {
          if x < h {
            assert Before(all[..][x].key, all[..][h].key);
            CmpTransitive(all[x].key, all[h].key, bound);
          }
        }
        i := h + 1;
      } else {
        forall x | h <= x < all.Length ensures !Before(all[x].key, bound) {
          if h < x && Before(all[x].key, bound) {
            assert Before(all[..][h].key, all[..][x].key);
            CmpTransitive(all[h].key, all[x].key, bound);
          }
        }
        j := h;
      }
    }
  }

  lemma SliceAscends(es: seq<Entry>, lo: nat, hi: nat)
    requires Ascending(es) && lo <= hi <= |es|
    ensures Ascending(es[lo..hi])
  {
  }

  /** lo and hi cut the listing where the interval does. */
  ghost predicate Cuts(es: seq<Entry>, loCut: nat, hi: nat, start: Option<bytes>, end: Option<bytes>) {
    && (forall j :: 0 <= j < |es| ==> (j >= loCut <==> NotBelow(es[j].key, start)))
    && (forall j :: 0 <= j < |es| ==> (j < hi <==> Below(es[j].key, end)))
  }

  lemma CutsFound(es: seq<Entry>, loCut: nat, hi: nat, start: Option<bytes>, end: Option<bytes>)
    requires if start.Some? then CutsAt(es, loCut, start.value) else loCut == 0
    requires if end.Some? then CutsAt(es, hi, end.value) else hi == |es|
    ensures Cuts(es, loCut, hi, start, end) && loCut <= |es| && hi <= |es|
  {
  }

  lemma SliceInside(es: seq<Entry>, loCut: nat, hi: nat, lo: nat, em: Entries, start: Option<bytes>, end: Option<bytes>, i: nat)
    requires Lists(es, em) && Cuts(es, loCut, hi, start, end) && loCut <= lo <= i < hi <= |es|
    ensures es[i].key in Inside(em, start, end) && em[es[i].key] == es[i]
  {
    assert es[i] in es;
  }

  lemma SliceFinds(es: seq<Entry>, loCut: nat, hi: nat, em: Entries, start: Option<bytes>, end: Option<bytes>, k: bytes)
    returns (i: nat)
    requires Keyed(em) && Lists(es, em) && Cuts(es, loCut, hi, start, end) && k in Inside(em, start, end)
    ensures loCut <= i < hi && i < |es| && es[i] == em[k]
  {
    assert em[k] in es;
    i :| 0 <= i < |es| && es[i] == em[k];
  }

  lemma SliceSound(es: seq<Entry>, loCut: nat, hi: nat, em: Entries, start: Option<bytes>, end: Option<bytes>, e: Entry)
    requires Lists(es, em) && Cuts(es, loCut, hi, start, end) && loCut <= hi <= |es| && e in es[loCut..hi]
    ensures e.key in Inside(em, start, end) && em[e.key] == e
  {
    var i :| 0 <= i < |es[loCut..hi]| && es[loCut..hi][i] == e;
    SliceInside(es, loCut, hi, loCut, em, start, end, loCut + i);
  }

  lemma SliceComplete(es: seq<Entry>, loCut: nat, hi: nat, em: Entries, start: Option<bytes>, end: Option<bytes>, k: bytes)
    requires Keyed(em) && Lists(es, em) && Cuts(es, loCut, hi, start, end) && k in Inside(em, start, end) && hi <= |es|
    ensures loCut <= hi && em[k] in es[loCut..hi]
  {
    var i := SliceFinds(es, loCut, hi, em, start, end, k);
    assert es[loCut..hi][i - loCut] == es[i];
  }

  lemma SliceLists(es: seq<Entry>, loCut: nat, hi: nat, lo: nat, em: Entries, start: Option<bytes>, end: Option<bytes>)
    requires Keyed(em) && Lists(es, em) && Cuts(es, loCut, hi, start, end)
    requires loCut <= |es| && hi <= |es| && lo == if loCut > hi then hi else loCut
    ensures Lists(es[lo..hi], Inside(em, start, end))
  {
    assert Ascending(es);
    SliceAscends(es, lo, hi);
    hide Ascending, Cuts, InInterval;
    forall e | e in es[lo..hi] ensures e.key in Inside(em, start, end) && em[e.key] == e {
      SliceSound(es, loCut, hi, em, start, end, e);
    }
    forall k | k in Inside(em, start, end) ensures em[k] in es[lo..hi] {
      SliceComplete(es, loCut, hi, em, start, end, k);
    }
  }

  lemma SliceIsSorted(es: seq<Entry>, loCut: nat, hi: nat, lo: nat, em: Entries, start: Option<bytes>, end: Option<bytes>)
    requires Keyed(em) && es == Sorted(em) && Cuts(es, loCut, hi, start, end)
    requires loCut <= |es| && hi <= |es| && lo == if loCut > hi then hi else loCut
    ensures es[lo..hi] == Sorted(Inside(em, start, end))
  {
    hide Cuts, Lists;
    SliceLists(es, loCut, hi, lo, em, start, end);
    ListingUnique(es[lo..hi], Sorted(Inside(em, start, end)), Inside(em, start, end));
  }

  // ------------------------------------------------------------------
  // The overlay
  // ------------------------------------------------------------------

  /** The merge the iterator performs: the buffer wins ties and tombstones hide. */
  function Merge(base: seq<Entry>, buf: seq<Entry>): seq<Entry>
    decreases |base| + |buf|
  {
    if base == [] && buf == [] then []
    else if buf != [] && (base == [] || Cmp(buf[0].key, base[0].key) <= 0) then
      var rest := Merge(if base != [] && buf[0].key == base[0].key then base[1..] else base, buf[1..]);
      if buf[0].deleted then rest else [buf[0]] + rest
    else [base[0]] + Merge(base[1..], buf)
  }

  ghost predicate AllAfter(k: bytes, es: seq<Entry>) { forall e :: e in es ==> Before(k, e.key) }

  lemma {:induction false} MergeAfter(k: bytes, base: seq<Entry>, buf: seq<Entry>)
    requires AllAfter(k, base) && AllAfter(k, buf)
    ensures AllAfter(k, Merge(base, buf))
    decreases |base| + |buf|
  {
    if base == [] && buf == [] {
    } else if buf != [] && (base == [] || Cmp(buf[0].key, base[0].key) <= 0) {
      assert buf[0] in buf;
      MergeAfter(k, if base != [] && buf[0].key == base[0].key then base[1..] else base, buf[1..]);
    } else {
      assert base[0] in base;
      MergeAfter(k, base[1..], buf);
    }
  }

  lemma AscendingTail(es: seq<Entry>)
    requires Ascending(es) && es != []
    ensures Ascending(es[1..]) && AllAfter(es[0].key, es[1..])
  {
    forall e | e in es[1..] ensures Before(es[0].key, e.key) {
      var i :| 0 <= i < |es[1..]| && es[1..][i] == e;
      assert Before(es[0].key, es[i + 1].key);
    }
  }

  lemma AfterTransitive(k: bytes, l: bytes, es: seq<Entry>)
    requires Cmp(k, l) <= 0 && AllAfter(l, es)
    ensures AllAfter(k, es)
  {
    forall e | e in es ensures Before(k, e.key) {
      CmpTransitive(k, l, e.key);
    }
  }

  lemma ConsAscending(e: Entry, es: seq<Entry>)
    requires Ascending(es) && AllAfter(e.key, es)
    ensures Ascending([e] + es)
  {
    forall j | 0 <= j < |es| ensures Before(e.key, es[j].key) {
      assert es[j] in es;
    }
  }

  lemma {:induction false} MergeAscending(base: seq<Entry>, buf: seq<Entry>)
    requires Ascending(base) && Ascending(buf)
    ensures Ascending(Merge(base, buf))
    decreases |base| + |buf|
  {
    if base == [] && buf == [] {
    } else if buf != [] && (base == [] || Cmp(buf[0].key, base[0].key) <= 0) {
      AscendingTail(buf);
      if base != [] {
        AscendingTail(base);
        AfterTransitive(buf[0].key, base[0].key, base[1..]);
        CmpRange(buf[0].key, base[0].key);
        assert base == [base[0]] + base[1..];
      }
      var b := if base != [] && buf[0].key == base[0].key then base[1..] else base;
      MergeAscending(b, buf[1..]);
      MergeAfter(buf[0].key, b, buf[1..]);
      ConsAscending(buf[0], Merge(b, buf[1..]));
    } else {
      AscendingTail(base);
      if buf != [] {
        AscendingTail(buf);
        CmpRange(buf[0].key, base[0].key);
        AfterTransitive(base[0].key, buf[0].key, buf[1..]);
        assert buf == [buf[0]] + buf[1..];
      }
      MergeAscending(base[1..], buf);
      MergeAfter(base[0].key, base[1..], buf);
      ConsAscending(base[0], Merge(base[1..], buf));
    }
  }

  ghost predicate Mentions(es: seq<Entry>, k: bytes) { exists e :: e in es && e.key == k }

  /** One turn of the merge with the buffer's entry first, which hides the base's entry under the same key. */
  lemma MergeBufferFirst(base: seq<Entry>, buf: seq<Entry>, b: seq<Entry>, x: Entry)
    requires Ascending(base) && Ascending(buf) && buf != [] && (base == [] || Cmp(buf[0].key, base[0].key) <= 0)
    requires b == if base != [] && buf[0].key == base[0].key then base[1..] else base
    requires x in Merge(b, buf[1..]) <==> (x in buf[1..] && !x.deleted) || (x in b && !Mentions(buf[1..], x.key))
    ensures x in Merge(base, buf) <==> (x in buf && !x.deleted) || (x in base && !Mentions(buf, x.key))
  {
    AscendingTail(buf);
    assert buf == [buf[0]] + buf[1..];
    if base != [] {
      AscendingTail(base);
      AfterTransitive(buf[0].key, base[0].key, base[1..]);
      CmpRange(buf[0].key, base[0].key);
      assert base == [base[0]] + base[1..];
    }
    assert AllAfter(buf[0].key, b);
    MentionsCons(buf, x.key);
    CmpRange(buf[0].key, buf[0].key);
    assert x in b ==> x.key != buf[0].key;
  }

  lemma MergeBaseFirst(base: seq<Entry>, buf: seq<Entry>, x: Entry)
    requires Ascending(base) && Ascending(buf) && base != [] && (buf == [] || Cmp(buf[0].key, base[0].key) > 0)
    requires x in Merge(base[1..], buf) <==> (x in buf && !x.deleted) || (x in base[1..] && !Mentions(buf, x.key))
    ensures x in Merge(base, buf) <==> (x in buf && !x.deleted) || (x in base && !Mentions(buf, x.key))
  {
    AscendingTail(base);
    assert base == [base[0]] + base[1..];
    if buf != [] {
      CmpRange(buf[0].key, base[0].key);
      AscendingTail(buf);
      AfterTransitive(base[0].key, buf[0].key, buf[1..]);
      assert buf == [buf[0]] + buf[1..];
    }
    AfterNotMentioned(base[0].key, buf);
  }

  /** An entry survives the merge if it is a live mutation, or a base entry no mutation names. */
  lemma {:induction false} MergeElements(base: seq<Entry>, buf: seq<Entry>, x: Entry)
    requires Ascending(base) && Ascending(buf)
    ensures x in Merge(base, buf) <==> (x in buf && !x.deleted) || (x in base && !Mentions(buf, x.key))
    decreases |base| + |buf|
  {
    if base == [] && buf == [] {
    } else if buf != [] && (base == [] || Cmp(buf[0].key, base[0].key) <= 0) {
      var b := if base != [] && buf[0].key == base[0].key then base[1..] else base;
      MergeElements(b, buf[1..], x);
      MergeBufferFirst(base, buf, b, x);
    } else {
      MergeElements(base[1..], buf, x);
      MergeBaseFirst(base, buf, x);
    }
  }

  lemma AfterNotMentioned(k: bytes, es: seq<Entry>)
    requires AllAfter(k, es)
    ensures !Mentions(es, k)
  {
    CmpRange(k, k);
  }

  lemma MentionsCons(es: seq<Entry>, k: bytes)
    requires es != []
    ensures Mentions(es, k) <==> es[0].key == k || Mentions(es[1..], k)
  {
    assert es == [es[0]] + es[1..];
    if es[0].key == k {
      assert es[0] in es;
    }
  }

  /** The merged listings are the listing of the merged maps. */
  lemma MergeListsOverlay(base: Store, em: Entries, start: Option<bytes>, end: Option<bytes>)
    requires Keyed(em)
    ensures Merge(Listing(base, start, end), Sorted(Inside(em, start, end))) == Listing(Apply(base, em), start, end)
  {
    var b, u := Listing(base, start, end), Sorted(Inside(em, start, end));
    var view := Inside(Lift(Apply(base, em)), start, end);
    MergeAscending(b, u);
    forall k ensures Mentions(u, k) <==> k in Inside(em, start, end) {
      MentionsLists(u, Inside(em, start, end), k);
    }
    forall e | e in Merge(b, u) ensures e.key in view && view[e.key] == e {
      MergeElements(b, u, e);
    }
    forall k | k in view ensures view[k] in Merge(b, u) {
      MergeElements(b, u, view[k]);
      if k in em {
        assert Inside(em, start, end)[k] in u;
      } else {
        assert Inside(Lift(base), start, end)[k] in b;
      }
    }
    ListingUnique(Merge(b, u), Listing(Apply(base, em), start, end), view);
  }

  lemma MentionsLists(es: seq<Entry>, em: Entries, k: bytes)
    requires Keyed(em) && Lists(es, em)
    ensures Mentions(es, k) <==> k in em
  {
    if k in em {
      assert em[k] in es;
    }
  }

  class OverlayIter {
    const base: SliceIter
    const buf: array<Entry>
    const hi: nat
    var bi: nat
    var needBase: bool
    var baseValid: bool
    var key: bytes
    var value: bytes

    constructor (base: SliceIter, buf: array<Entry>, lo: nat, hi: nat)
      requires base.pos == -1 && lo <= hi <= buf.Length
      ensures this.base == base && this.buf == buf
      ensures Valid() && Rest() == Merge(base.entries, buf[lo..hi])
    {
      this.base, this.buf, this.hi := base, buf, hi;
      bi, needBase, baseValid := lo, true, false;
      key, value := [], [];
    }

    predicate Valid()
      reads `bi, `needBase, `baseValid, base
    {
      && bi <= hi <= buf.Length
      && -1 <= base.pos
      && (!needBase ==> baseValid == base.Current())
    }

    function BaseRest(): seq<Entry>
      requires Valid()
      reads `bi, `needBase, `baseValid, base
    {
      if needBase then (if base.pos + 1 < |base.entries| then base.entries[base.pos + 1..] else [])
      else if baseValid then base.entries[base.pos..] else []
    }

    /** What the iterator still has to yield. */
    function Rest(): seq<Entry>
      requires Valid()
      reads `bi, `needBase, `baseValid, base, buf
    {
      Merge(BaseRest(), buf[bi..hi])
    }

    method Next() returns (ok: bool)
      requires Valid()
      modifies this, base
      ensures Valid()
      ensures ok == (old(Rest()) != [])
      ensures ok ==> Yielded(old(Rest()))
      ensures !ok ==> Rest() == []
    {
      ghost var all := Rest();
      while true
        invariant Valid()
        invariant Rest() == all
        decreases |BaseRest()| + (hi - bi)
      {
        var e, hidden := Step();
        if e.None? {
          return false;
        } else if !hidden {
          key, value := e.value.key, e.value.value;
          assert all == [e.value] + Rest();
          return true;
        }
      }
    }

    /** One turn of the loop: the next entry of either side, tombstones included. */
    method Step() returns (e: Option<Entry>, hidden: bool)
      requires Valid()
      modifies this`bi, this`needBase, this`baseValid, base
      ensures Valid()
      ensures e.None? ==> old(Rest()) == Rest() == []
      ensures e.Some? ==> old(Rest()) == if hidden then Rest() else [e.value] + Rest()
      ensures e.Some? && hidden ==> |BaseRest()| + (hi - bi) < |old(BaseRest())| + (hi - old(bi))
    {
      if needBase {
        AdvanceBase();
      }
      var bufValid := bi < hi;
      if !baseValid && !bufValid {
        return None, false;
      } else if bufValid && (!baseValid || Cmp(buf[bi].key, base.entries[base.pos].key) <= 0) {
        var m := TakeBuffered();
        return Some(m), m.deleted;
      } else {
        var m := TakeBase();
        return Some(m), false;
      }
    }

    /** Steps past a buffered mutation, and past the base entry it replaces. */
    method TakeBuffered() returns (e: Entry)
      requires Valid() && !needBase && bi < hi
      requires baseValid ==> Cmp(buf[bi].key, base.entries[base.pos].key) <= 0
      modifies this`bi, this`needBase
      ensures Valid() && bi == old(bi) + 1 && |BaseRest()| <= |old(BaseRest())|
      ensures old(Rest()) == if e.deleted then Rest() else [e] + Rest()
    {
      ghost var b, u := BaseRest(), buf[bi..hi];
      assert u[0] == buf[bi] && u[1..] == buf[bi + 1..hi];
      e := buf[bi];
      bi := bi + 1;
      if baseValid && e.key == base.entries[base.pos].key {
        needBase := true;
      }
      assert BaseRest() == if b != [] && u[0].key == b[0].key then b[1..] else b;
    }

    method TakeBase() returns (e: Entry)
      requires Valid() && !needBase && baseValid
      requires bi < hi ==> Cmp(buf[bi].key, base.entries[base.pos].key) > 0
      modifies this`needBase
      ensures Valid() && bi == old(bi)
      ensures old(Rest()) == [e] + Rest()
    {
      ghost var b := BaseRest();
      e := base.entries[base.pos];
      needBase := true;
      assert BaseRest() == b[1..];
    }

    /** The cursor stands on the first of what was left, and the tail remains. */
    predicate Yielded(was: seq<Entry>)
      requires Valid()
      reads `key, `value, `bi, `needBase, `baseValid, base, buf
    {
      was != [] && key == was[0].key && value == was[0].value && Rest() == was[1..]
    }

    method AdvanceBase()
      requires Valid() && needBase
      modifies this`needBase, this`baseValid, base
      ensures Valid() && !needBase
      ensures BaseRest() == old(BaseRest()) && bi == old(bi)
    {
      baseValid := base.Next();
      needBase := false;
    }
  }

  class Overlay {
    const base: Store
    const buf: Buffer

    constructor (base: Store, buf: Buffer)
      ensures this.base == base && this.buf == buf
    {
      this.base, this.buf := base, buf;
    }

    ghost predicate Valid()
      reads buf, buf.sorted
    {
      buf.Valid()
    }

    /** The store a reader of the overlay sees. */
    ghost function View(): Store
      reads buf
    {
      Apply(base, buf.m)
    }

    method Put(key: bytes, value: bytes)
      requires Valid()
      modifies buf
      ensures Valid() && buf.sorted == old(buf.sorted)
      ensures buf.m == old(buf.m)[key := Entry(key, value, false)]
      ensures View() == old(View())[key := value]
    {
      buf.Put(key, value);
    }

    method Delete(key: bytes)
      requires Valid()
      modifies buf
      ensures Valid() && buf.sorted == old(buf.sorted)
      ensures buf.m == old(buf.m)[key := Entry(key, [], true)]
      ensures View() == old(View()) - {key}
    {
      buf.Delete(key);
    }

    /** The buffer first, the base underneath. */
    method Get(key: bytes) returns (r: Result<bytes>)
      requires Valid()
      ensures r == Lookup(View(), key)
    {
      if key in buf.m {
        if buf.m[key].deleted {
          return Err(NotFound);
        }
        return Ok(buf.m[key].value);
      }
      if key !in base {
        return Err(NotFound);
      }
      r := Ok(base[key]);
    }

    method Scan(start: Option<bytes>, end: Option<bytes>) returns (it: OverlayIter)
      requires Valid()
      modifies buf
      ensures Valid() && buf.m == old(buf.m)
      ensures fresh(it) && fresh(it.base) && it.buf == buf.sorted
      ensures it.Valid() && it.Rest() == Listing(View(), start, end)
    {
      var b := ScanStore(base, start, end);
      var all, lo, hi := buf.RangeEntries(start, end);
      it := new OverlayIter(b, all, lo, hi);
      MergeListsOverlay(base, buf.m, start, end);
    }
  }

  // ------------------------------------------------------------------
  // A scan is stable, and a commit installs exactly the view
  // ------------------------------------------------------------------

  datatype BufferOp = OpPut(key: bytes, value: bytes) | OpDelete(key: bytes) | OpEntries | OpReset

  /** Whatever is done to the buffer afterwards, an open scan still yields what it would have. */
  method ChurnUnderScan(it: OverlayIter, buf: Buffer, ops: seq<BufferOp>)
    requires it.Valid() && buf.Valid()
    modifies buf
    ensures it.Valid() && it.Rest() == old(it.Rest())
    ensures buf.Valid()
  {
    for i := 0 to |ops|
      invariant buf.Valid() && it.Valid() && it.Rest() == old(it.Rest())
    {
      match ops[i]
      case OpPut(k, v) => buf.Put(k, v);
      case OpDelete(k) => buf.Delete(k);
      case OpEntries => var es := buf.Entries();
      case OpReset => buf.Reset();
    }
  }

  /** One mutation applied to the store. */
  function ApplyOne(m: Store, e: Entry): Store {
    if e.deleted then m - {e.key} else m[e.key := e.value]
  }

  /** Mutations applied one by one, which is how a commit reaches the store. */
  function ApplyAll(m: Store, es: seq<Entry>): Store
    decreases |es|
  {
    if es == [] then m else ApplyAll(ApplyOne(m, es[0]), es[1..])
  }

  lemma ApplyStep(m: Store, e: Entry, em: Entries)
    requires e.key in em && em[e.key] == e
    ensures Apply(ApplyOne(m, e), em - {e.key}) == Apply(m, em)
  {
    var l, r := Apply(ApplyOne(m, e), em - {e.key}), Apply(m, em);
    assert forall k :: k in l <==> k in r;
    assert forall k :: k in l ==> l[k] == r[k];
  }

  lemma {:induction false} ApplyAllSorted(m: Store, es: seq<Entry>, em: Entries)
    requires Keyed(em) && Lists(es, em)
    ensures ApplyAll(m, es) == Apply(m, em)
    decreases |es|
  {
    if es == [] {
      assert forall k :: k in em ==> em[k] in es;
      assert Apply(m, em) == m;
    } else {
      assert es[0] in es;
      TailLists(es, em);
      ApplyAllSorted(ApplyOne(m, es[0]), es[1..], em - {es[0].key});
      ApplyStep(m, es[0], em);
    }
  }

  /** Replaying the buffer's entries over an unchanged base yields the overlay's view. */
  lemma CommitInstallsView(base: Store, em: Entries)
    requires Keyed(em)
    ensures ApplyAll(base, Sorted(em)) == Apply(base, em)
  {
    ApplyAllSorted(base, Sorted(em), em);
  }
}
