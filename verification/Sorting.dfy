// ORDER BY (exec/operators.go): the row order, the full stable sort, and the bounded heap that
// keeps only the first rows of it.
module Sorting {
  import opened Values

  /** A row with its evaluated sort keys and its arrival number. */
  datatype Item = Item(row: Row, keys: seq<Value>, num: nat)

  // ------------------------------------------------------------------
  // The order
  // ------------------------------------------------------------------

  /** Key by key, each ascending or descending; the first difference decides. */
  function CmpKeys(desc: seq<bool>, a: seq<Value>, b: seq<Value>): int
    requires |a| == |b| == |desc|
  {
    if desc == [] then 0
    else
      var c := if desc[0] then -Order(a[0], b[0]) else Order(a[0], b[0]);
      if c != 0 then c else CmpKeys(desc[1..], a[1..], b[1..])
  }

  /** Sort keys first, arrival number on ties. */
  predicate Less(desc: seq<bool>, a: Item, b: Item)
    requires |a.keys| == |b.keys| == |desc|
  {
    CmpKeys(desc, a.keys, b.keys) < 0 || (CmpKeys(desc, a.keys, b.keys) == 0 && a.num < b.num)
  }

  /** The keys differ first at position i, and in the direction asked for there. */
  predicate DecidesAt(desc: seq<bool>, a: seq<Value>, b: seq<Value>, i: nat)
    requires |a| == |b| == |desc|
  {
    && i < |desc|
    && (forall j :: 0 <= j < i ==> Order(a[j], b[j]) == 0)
    && if desc[i] then Order(a[i], b[i]) > 0 else Order(a[i], b[i]) < 0
  }

  predicate AllEqual(a: seq<Value>, b: seq<Value>)
    requires |a| == |b|
  {
    forall j :: 0 <= j < |a| ==> Order(a[j], b[j]) == 0
  }

  /** What ORDER BY asks: the first key that differs decides, and arrival if none does. */
  ghost predicate ComesBefore(desc: seq<bool>, a: Item, b: Item)
    requires |a.keys| == |b.keys| == |desc|
  {
    (exists i :: DecidesAt(desc, a.keys, b.keys, i)) || (AllEqual(a.keys, b.keys) && a.num < b.num)
  }

  lemma DecidesLater(desc: seq<bool>, a: seq<Value>, b: seq<Value>, i: nat)
    requires |a| == |b| == |desc| && desc != [] && Order(a[0], b[0]) == 0
    ensures DecidesAt(desc[1..], a[1..], b[1..], i) <==> DecidesAt(desc, a, b, i + 1)
  {
    hide Order;
    if DecidesAt(desc[1..], a[1..], b[1..], i) {
      forall j | 0 <= j < i + 1 ensures Order(a[j], b[j]) == 0 {
        if j > 0 {
          assert a[1..][j - 1] == a[j] && b[1..][j - 1] == b[j];
        }
      }
    }
  }

  lemma {:induction false} CmpKeysMean(desc: seq<bool>, a: seq<Value>, b: seq<Value>)
    requires |a| == |b| == |desc|
    ensures CmpKeys(desc, a, b) < 0 <==> exists i :: DecidesAt(desc, a, b, i)
    ensures CmpKeys(desc, a, b) == 0 <==> AllEqual(a, b)
  {
    if desc != [] {
      hide Order;
      if Order(a[0], b[0]) != 0 {
        assert CmpKeys(desc, a, b) < 0 <==> DecidesAt(desc, a, b, 0);
        forall i: nat | DecidesAt(desc, a, b, i) ensures i == 0 {
        }
      } else {
        CmpKeysMean(desc[1..], a[1..], b[1..]);
        forall i: nat ensures DecidesAt(desc[1..], a[1..], b[1..], i) <==> DecidesAt(desc, a, b, i + 1) {
          DecidesLater(desc, a, b, i);
        }
        if i: nat :| DecidesAt(desc, a, b, i) {
          assert i > 0;
          assert DecidesAt(desc[1..], a[1..], b[1..], i - 1);
        }
        assert AllEqual(a, b) <==> AllEqual(a[1..], b[1..]) by {
          assert forall j :: 0 <= j < |a| - 1 ==> a[1..][j] == a[j + 1] && b[1..][j] == b[j + 1];
        }
      }
    }
  }

  lemma LessMeans(desc: seq<bool>, a: Item, b: Item)
    requires |a.keys| == |b.keys| == |desc|
    ensures Less(desc, a, b) <==> ComesBefore(desc, a, b)
  {
    hide CmpKeys;
    CmpKeysMean(desc, a.keys, b.keys);
  }

  lemma {:induction false} CmpKeysFlip(desc: seq<bool>, a: seq<Value>, b: seq<Value>)
    requires |a| == |b| == |desc|
    ensures CmpKeys(desc, a, b) == -CmpKeys(desc, b, a)
  {
    if desc != [] {
      OrderRange(a[0], b[0]);
      CmpKeysFlip(desc[1..], a[1..], b[1..]);
    }
  }

  lemma {:induction false} CmpKeysTransitive(desc: seq<bool>, a: seq<Value>, b: seq<Value>, c: seq<Value>)
    requires |a| == |b| == |c| == |desc|
    requires CmpKeys(desc, a, b) <= 0 && CmpKeys(desc, b, c) <= 0
    ensures CmpKeys(desc, a, c) <= 0
    ensures CmpKeys(desc, a, b) < 0 || CmpKeys(desc, b, c) < 0 ==> CmpKeys(desc, a, c) < 0
  {
    if desc != [] {
      OrderRange(a[0], b[0]);
      OrderRange(b[0], c[0]);
      OrderRange(a[0], c[0]);
      if desc[0] {
        OrderTransitive(c[0], b[0], a[0]);
      } else {
        OrderTransitive(a[0], b[0], c[0]);
      }
      if Order(a[0], b[0]) == 0 == Order(b[0], c[0]) {
        OrderTransitive(c[0], b[0], a[0]);
        OrderTransitive(a[0], b[0], c[0]);
        CmpKeysTransitive(desc[1..], a[1..], b[1..], c[1..]);
      }
    }
  }

  lemma LessTotal(desc: seq<bool>, a: Item, b: Item)
    requires |a.keys| == |b.keys| == |desc|
    ensures !(Less(desc, a, b) && Less(desc, b, a))
    ensures a.num != b.num ==> Less(desc, a, b) || Less(desc, b, a)
  {
    CmpKeysFlip(desc, a.keys, b.keys);
  }

  lemma LessTransitive(desc: seq<bool>, a: Item, b: Item, c: Item)
    requires |a.keys| == |b.keys| == |c.keys| == |desc|
    requires Less(desc, a, b) && Less(desc, b, c)
    ensures Less(desc, a, c)
  {
    CmpKeysTransitive(desc, a.keys, b.keys, c.keys);
  }

  /** sortOp.less. */
  method CompareItems(desc: seq<bool>, a: Item, b: Item) returns (r: bool)
    requires |a.keys| == |b.keys| == |desc|
    ensures r == Less(desc, a, b) && (r <==> ComesBefore(desc, a, b))
  {
    LessMeans(desc, a, b);
    hide ComesBefore;
    for i := 0 to |desc|
      invariant CmpKeys(desc, a.keys, b.keys) == CmpKeys(desc[i..], a.keys[i..], b.keys[i..])
    {
      var c := Order(a.keys[i], b.keys[i]);
      if desc[i] {
        c := -c;
      }
      if c != 0 {
        return c < 0;
      }
      assert desc[i..][1..] == desc[i + 1..];
      assert a.keys[i..][1..] == a.keys[i + 1..] && b.keys[i..][1..] == b.keys[i + 1..];
    }
    r := a.num < b.num;
  }

  // ------------------------------------------------------------------
  // The full sort
  // ------------------------------------------------------------------

  predicate Fits(desc: seq<bool>, items: seq<Item>) { forall x :: x in items ==> |x.keys| == |desc| }

  /** Arrival numbers tell the items apart. */
  predicate Numbered(items: seq<Item>) {
    forall i, j :: 0 <= i < j < |items| ==> items[i].num != items[j].num
  }

  predicate InOrder(desc: seq<bool>, items: seq<Item>)
    requires Fits(desc, items)
  {
    forall i, j :: 0 <= i < j < |items| ==> Less(desc, items[i], items[j])
  }

  function Place(desc: seq<bool>, x: Item, sorted: seq<Item>): (r: seq<Item>)
    requires Fits(desc, sorted) && |x.keys| == |desc|
    ensures Fits(desc, r) && |r| == |sorted| + 1
  {
    if sorted == [] then [x]
    else if Less(desc, x, sorted[0]) then [x] + sorted
    else [sorted[0]] + Place(desc, x, sorted[1..])
  }

  function Sort(desc: seq<bool>, items: seq<Item>): (r: seq<Item>)
    requires Fits(desc, items)
    ensures Fits(desc, r) && |r| == |items|
  {
    if items == [] then []
    else Place(desc, items[|items| - 1], Sort(desc, items[..|items| - 1]))
  }

  lemma {:induction false} PlaceMultiset(desc: seq<bool>, x: Item, sorted: seq<Item>)
    requires Fits(desc, sorted) && |x.keys| == |desc|
    ensures multiset(Place(desc, x, sorted)) == multiset(sorted) + multiset{x}
  {
    if sorted != [] && !Less(desc, x, sorted[0]) {
      PlaceMultiset(desc, x, sorted[1..]);
      assert sorted == [sorted[0]] + sorted[1..];
    }
  }

  /** Sorting loses nothing and adds nothing. */
  lemma {:induction false} SortMultiset(desc: seq<bool>, items: seq<Item>)
    requires Fits(desc, items)
    ensures multiset(Sort(desc, items)) == multiset(items)
  {
    if items != [] {
      var last := |items| - 1;
      SortMultiset(desc, items[..last]);
      PlaceMultiset(desc, items[last], Sort(desc, items[..last]));
      assert items == items[..last] + [items[last]];
    }
  }

  lemma {:induction false} PlaceInOrder(desc: seq<bool>, x: Item, sorted: seq<Item>)
    requires Fits(desc, sorted) && |x.keys| == |desc| && InOrder(desc, sorted)
    requires forall y :: y in sorted ==> y.num != x.num
    ensures InOrder(desc, Place(desc, x, sorted))
  {
    var r := Place(desc, x, sorted);
    if sorted == [] {
    } else if Less(desc, x, sorted[0]) {
      forall j | 0 < j < |r| ensures Less(desc, r[0], r[j]) {
        if j > 1 {
          LessTransitive(desc, x, sorted[0], sorted[j - 1]);
        }
      }
    } else {
      var tail := Place(desc, x, sorted[1..]);
      LessTotal(desc, x, sorted[0]);
      PlaceMultiset(desc, x, sorted[1..]);
      PlaceInOrder(desc, x, sorted[1..]);
      forall j | 0 <= j < |tail| ensures Less(desc, sorted[0], tail[j]) {
        assert tail[j] in multiset(tail);
        assert tail[j] == x || tail[j] in sorted[1..];
      }
    }
  }

  lemma {:induction false} SortInOrder(desc: seq<bool>, items: seq<Item>)
    requires Fits(desc, items) && Numbered(items)
    ensures InOrder(desc, Sort(desc, items))
  {
    if items != [] {
      var last := |items| - 1;
      var front := items[..last];
      SortInOrder(desc, front);
      NewNumber(desc, items);
      hide InOrder, Less;
      PlaceInOrder(desc, items[last], Sort(desc, front));
    }
  }

  /** Every earlier item of the sorted list comes before every later one, key by key in the directions asked for. */
  lemma SortedComesBefore(desc: seq<bool>, items: seq<Item>)
    requires Fits(desc, items) && Numbered(items)
    ensures forall i, j :: 0 <= i < j < |items| ==>
              ComesBefore(desc, Sort(desc, items)[i], Sort(desc, items)[j])
  {
    hide ComesBefore, Less, Sort;
    SortInOrder(desc, items);
    var sorted := Sort(desc, items);
    forall i, j | 0 <= i < j < |sorted| ensures ComesBefore(desc, sorted[i], sorted[j]) {
      LessMeans(desc, sorted[i], sorted[j]);
    }
  }

  lemma NewNumber(desc: seq<bool>, items: seq<Item>)
    requires Fits(desc, items) && Numbered(items) && items != []
    ensures forall y :: y in Sort(desc, items[..|items| - 1]) ==> y.num != items[|items| - 1].num
  {
    var front := items[..|items| - 1];
    SortMultiset(desc, front);
    forall y | y in Sort(desc, front) ensures y.num != items[|items| - 1].num {
      assert y in multiset(Sort(desc, front)) && y in multiset(front);
      var i :| 0 <= i < |front| && front[i] == y;
      assert items[i] == y;
    }
  }

  /** There is only one way to put given items in order. */
  lemma {:induction false} OrderUnique(desc: seq<bool>, a: seq<Item>, b: seq<Item>)
    requires Fits(desc, a) && Fits(desc, b) && InOrder(desc, a) && InOrder(desc, b)
    requires multiset(a) == multiset(b)
    ensures a == b
  {
    if a == [] {
      assert |multiset(b)| == 0;
    } else {
      assert |b| == |multiset(b)| == |a|;
      FirstUnique(desc, a, b);
      hide Less, InOrder, Fits;
      assert a == [a[0]] + a[1..] && b == [b[0]] + b[1..];
      assert multiset(a[1..]) == multiset(a) - multiset{a[0]};
      assert multiset(b[1..]) == multiset(b) - multiset{b[0]};
      RestInOrder(desc, a);
      RestInOrder(desc, b);
      OrderUnique(desc, a[1..], b[1..]);
    }
  }

  lemma FirstUnique(desc: seq<bool>, a: seq<Item>, b: seq<Item>)
    requires Fits(desc, a) && Fits(desc, b) && InOrder(desc, a) && InOrder(desc, b)
    requires multiset(a) == multiset(b) && a != [] && b != []
    ensures a[0] == b[0]
  {
    assert a[0] in multiset(a) && a[0] in multiset(b);
    assert b[0] in multiset(b) && b[0] in multiset(a);
    if a[0] != b[0] {
      var i :| 0 <= i < |b| && b[i] == a[0];
      var j :| 0 <= j < |a| && a[j] == b[0];
      assert Less(desc, b[0], b[i]) && Less(desc, a[0], a[j]);
      LessTotal(desc, a[0], b[0]);
    }
  }

  lemma RestInOrder(desc: seq<bool>, a: seq<Item>)
    requires Fits(desc, a) && InOrder(desc, a) && a != []
    ensures Fits(desc, a[1..]) && InOrder(desc, a[1..])
  {
    assert forall i :: 0 <= i < |a| - 1 ==> a[1..][i] == a[i + 1];
  }

  /** Items already in order are left as they are. */
  lemma SortOfSorted(desc: seq<bool>, items: seq<Item>)
    requires Fits(desc, items) && Numbered(items) && InOrder(desc, items)
    ensures Sort(desc, items) == items
  {
    SortInOrder(desc, items);
    SortMultiset(desc, items);
    OrderUnique(desc, Sort(desc, items), items);
  }

  // ------------------------------------------------------------------
  // The bounded heap
  // ------------------------------------------------------------------

  function Parent(i: int): int
    requires i > 0
  {
    (i - 1) / 2
  }

  function Swapped(items: seq<Item>, i: nat, j: nat): (r: seq<Item>)
    requires i < |items| && j < |items|
    ensures multiset(r) == multiset(items) && |r| == |items|
  {
    items[i := items[j]][j := items[i]]
  }

  /** The parent of i does not come before i. */
  predicate Hangs(desc: seq<bool>, items: seq<Item>, i: int)
    requires Fits(desc, items) && 0 < i < |items|
  {
    !Less(desc, items[Parent(i)], items[i])
  }

  predicate IsHeap(desc: seq<bool>, items: seq<Item>)
    requires Fits(desc, items)
  {
    forall i :: 0 < i < |items| ==> Hangs(desc, items, i)
  }

  lemma NotLessTransitive(desc: seq<bool>, a: Item, b: Item, c: Item)
    requires |a.keys| == |b.keys| == |c.keys| == |desc|
    requires !Less(desc, a, b) && !Less(desc, b, c)
    ensures !Less(desc, a, c)
  {
    CmpKeysFlip(desc, a.keys, b.keys);
    CmpKeysFlip(desc, b.keys, c.keys);
    CmpKeysFlip(desc, a.keys, c.keys);
    CmpKeysTransitive(desc, c.keys, b.keys, a.keys);
  }

  lemma {:induction false} RootComesLast(desc: seq<bool>, items: seq<Item>, i: nat)
    requires Fits(desc, items) && IsHeap(desc, items) && i < |items|
    ensures !Less(desc, items[0], items[i])
  {
    if i > 0 {
      RootComesLast(desc, items, Parent(i));
      assert Hangs(desc, items, i);
      NotLessTransitive(desc, items[0], items[Parent(i)], items[i]);
    } else {
      LessTotal(desc, items[0], items[0]);
    }
  }

  /** Everything hangs right but j, whose children also hang right from j's parent. */
  predicate LooseAt(desc: seq<bool>, items: seq<Item>, j: nat)
    requires Fits(desc, items) && j < |items|
  {
    && (forall i :: 0 < i < |items| && i != j ==> Hangs(desc, items, i))
    && (forall i :: 0 < i < |items| && Parent(i) == j && j > 0 ==> !Less(desc, items[Parent(j)], items[i]))
  }

  /** Everything hangs right but the children of j, which hang right from j's parent. */
  predicate LooseBelow(desc: seq<bool>, items: seq<Item>, j: nat)
    requires Fits(desc, items) && j < |items|
  {
    && (forall i :: 0 < i < |items| && Parent(i) != j ==> Hangs(desc, items, i))
    && (forall i :: 0 < i < |items| && Parent(i) == j && j > 0 ==> !Less(desc, items[Parent(j)], items[i]))
  }

  lemma SwapFits(desc: seq<bool>, items: seq<Item>, i: nat, j: nat)
    requires Fits(desc, items) && i < |items| && j < |items|
    ensures Fits(desc, Swapped(items, i, j))
  {
  }

  lemma LiftLoose(desc: seq<bool>, items: seq<Item>, j: nat)
    requires Fits(desc, items) && 0 < j < |items| && LooseAt(desc, items, j) && !Hangs(desc, items, j)
    ensures Fits(desc, Swapped(items, Parent(j), j))
    ensures LooseAt(desc, Swapped(items, Parent(j), j), Parent(j))
  {
    SwapFits(desc, items, Parent(j), j);
    var r, p := Swapped(items, Parent(j), j), Parent(j);
    LessTotal(desc, items[p], items[j]);
    forall i | 0 < i < |r| && i != p ensures Hangs(desc, r, i) {
      if Parent(i) == p && i != j {
        assert Hangs(desc, items, i);
        NotLessTransitive(desc, items[j], items[p], items[i]);
      } else if i != j {
        assert Hangs(desc, items, i);
      }
    }
    forall i | 0 < i < |r| && Parent(i) == p && p > 0 ensures !Less(desc, r[Parent(p)], r[i]) {
      assert Hangs(desc, items, p);
      if i != j {
        assert Hangs(desc, items, i);
        NotLessTransitive(desc, items[Parent(p)], items[p], items[i]);
      }
    }
  }

  lemma DropLoose(desc: seq<bool>, items: seq<Item>, i: nat, c: nat)
    requires i < |items| && Fits(desc, items) && LooseBelow(desc, items, i)
    requires 0 < c < |items| && Parent(c) == i < c && Less(desc, items[i], items[c])
    requires forall d :: 0 < d < |items| && Parent(d) == i ==> !Less(desc, items[c], items[d])
    ensures Fits(desc, Swapped(items, i, c))
    ensures LooseBelow(desc, Swapped(items, i, c), c)
  {
    SwapFits(desc, items, i, c);
    var r := Swapped(items, i, c);
    forall k | 0 < k < |r| && Parent(k) != c ensures Hangs(desc, r, k) {
      if Parent(k) == i {
        LessTotal(desc, items[i], items[c]);
      } else if k != i {
        assert Hangs(desc, items, k);
      }
    }
    forall k | 0 < k < |r| && Parent(k) == c ensures !Less(desc, r[Parent(c)], r[k]) {
      assert Hangs(desc, items, k);
    }
  }

  class TopHeap {
    var items: seq<Item>
    const desc: seq<bool>

    constructor (desc: seq<bool>)
      ensures this.desc == desc && items == [] && Valid()
    {
      this.desc, items := desc, [];
    }

    ghost predicate Valid()
      reads this
    {
      Fits(desc, items) && IsHeap(desc, items)
    }

    method Push(x: Item)
      requires Valid() && |x.keys| == |desc|
      modifies this
      ensures Valid() && multiset(items) == old(multiset(items)) + multiset{x}
    {
      PushLoose(desc, items, x);
      items := items + [x];
      Up(|items| - 1);
    }

    /** Overwrites the root and sinks it to its place. */
    method ReplaceRoot(x: Item)
      requires Valid() && items != [] && |x.keys| == |desc|
      modifies this
      ensures Valid() && multiset(items) == old(multiset(items)) - multiset{old(items[0])} + multiset{x}
    {
      ghost var was := items;
      items := items[0 := x];
      assert was == [was[0]] + was[1..] && items == [x] + was[1..];
      assert forall i :: 0 < i < |items| && Parent(i) != 0 ==> Hangs(desc, was, i);
      var moved := Down(0);
      if !moved {
        Up(0);
      }
    }

    method Up(from: nat)
      requires from < |items| && Fits(desc, items) && LooseAt(desc, items, from)
      modifies this
      ensures Valid() && multiset(items) == old(multiset(items))
    {
      var j: nat := from;
      while j > 0
        invariant j < |items| && Fits(desc, items) && LooseAt(desc, items, j)
        invariant multiset(items) == old(multiset(items))
      {
        var i := Parent(j);
        var above := CompareItems(desc, items[i], items[j]);
        if !above {
          break;
        }
        LiftLoose(desc, items, j);
        items := Swapped(items, i, j);
        j := i;
      }
    }

    /** The child of i that comes later. */
    method LaterChild(i: nat) returns (j: nat)
      requires 2 * i + 1 < |items| && Fits(desc, items)
      ensures 0 < j < |items| && Parent(j) == i < j
      ensures forall d :: 0 < d < |items| && Parent(d) == i ==> !Less(desc, items[j], items[d])
    {
      j := 2 * i + 1;
      LessTotal(desc, items[j], items[j]);
      if j + 1 < |items| {
        LessTotal(desc, items[j], items[j + 1]);
        LessTotal(desc, items[j + 1], items[j + 1]);
        var right := CompareItems(desc, items[j], items[j + 1]);
        if right {
          j := j + 1;
        }
      }
      assert forall d :: 0 < d < |items| && Parent(d) == i ==> d == 2 * i + 1 || d == 2 * i + 2;
    }

    method Down(from: nat) returns (moved: bool)
      requires from < |items| && Fits(desc, items) && LooseBelow(desc, items, from)
      modifies this
      ensures Valid() && multiset(items) == old(multiset(items)) && |items| == |old(items)|
    {
      hide Hangs, IsHeap, LooseBelow, Less, Swapped;
      var i: nat := from;
      while 2 * i + 1 < |items|
        invariant i < |items| == |old(items)| && Fits(desc, items) && LooseBelow(desc, items, i)
        invariant multiset(items) == old(multiset(items))
        decreases |items| - i
      {
        var j := LaterChild(i);
        var sink := CompareItems(desc, items[i], items[j]);
        if !sink {
          AllHang(desc, items, i, j);
          return i > from;
        }
        DropLoose(desc, items, i, j);
        items := Swapped(items, i, j);
        i := j;
      }
      Childless(desc, items, i);
      moved := i > from;
    }
  }

  lemma PushLoose(desc: seq<bool>, items: seq<Item>, x: Item)
    requires Fits(desc, items) && IsHeap(desc, items) && |x.keys| == |desc|
    ensures Fits(desc, items + [x]) && LooseAt(desc, items + [x], |items|)
  {
    forall i | 0 < i < |items| ensures Hangs(desc, items + [x], i) {
      assert Hangs(desc, items, i);
    }
  }

  lemma Childless(desc: seq<bool>, items: seq<Item>, i: nat)
    requires i < |items| <= 2 * i + 1 && Fits(desc, items) && LooseBelow(desc, items, i)
    ensures IsHeap(desc, items)
  {
    assert forall d :: 0 < d < |items| ==> Parent(d) != i;
  }

  lemma AllHang(desc: seq<bool>, items: seq<Item>, i: nat, c: nat)
    requires i < |items| && Fits(desc, items) && LooseBelow(desc, items, i)
    requires 0 < c < |items| && Parent(c) == i && !Less(desc, items[i], items[c])
    requires forall d :: 0 < d < |items| && Parent(d) == i ==> !Less(desc, items[c], items[d])
    ensures IsHeap(desc, items)
  {
    forall d | 0 < d < |items| ensures Hangs(desc, items, d) {
      if Parent(d) == i {
        NotLessTransitive(desc, items[i], items[c], items[d]);
      }
    }
  }

  // ------------------------------------------------------------------
  // Top-N
  // ------------------------------------------------------------------

  function Take<T>(n: int, s: seq<T>): (r: seq<T>)
    ensures 0 <= n <= |s| ==> |r| == n
    ensures n >= |s| ==> r == s
    ensures r <= s
  {
    if n < 0 then [] else if n < |s| then s[..n] else s
  }

  /** The start of the full sort; a negative limit means all of it. */
  function TopN(desc: seq<bool>, limit: int, items: seq<Item>): seq<Item>
    requires Fits(desc, items)
  {
    if limit < 0 then Sort(desc, items) else Take(limit, Sort(desc, items))
  }

  lemma TakeCons<T>(n: nat, a: T, s: seq<T>)
    requires n > 0
    ensures Take(n, [a] + s) == [a] + Take(n - 1, s)
  {
  }

  lemma TakeAll<T>(n: nat, s: seq<T>)
    ensures |Take(n, s)| == if n < |s| then n else |s|
    ensures n <= |s| ==> Take(n, s) == s[..n]
  {
  }

  lemma InOrderTail(desc: seq<bool>, s: seq<Item>, n: nat)
    requires Fits(desc, s) && InOrder(desc, s) && 0 < n <= |s|
    ensures Fits(desc, s[1..]) && InOrder(desc, s[1..])
    ensures n > 1 ==> Less(desc, s[0], s[n - 1])
  {
  }

  /** Insertion at the front, and insertion past it. */
  lemma PlaceFirst(desc: seq<bool>, x: Item, sorted: seq<Item>, n: nat)
    requires Fits(desc, sorted) && |x.keys| == |desc| && 0 < n <= |sorted| && Less(desc, x, sorted[0])
    ensures Place(desc, x, sorted) == [x] + sorted && Place(desc, x, sorted[..n - 1]) == [x] + sorted[..n - 1]
  {
    assert n > 1 ==> sorted[..n - 1][0] == sorted[0];
  }

  lemma PlacePast(desc: seq<bool>, x: Item, sorted: seq<Item>)
    requires Fits(desc, sorted) && |x.keys| == |desc| && sorted != [] && !Less(desc, x, sorted[0])
    ensures Fits(desc, sorted[1..]) && Place(desc, x, sorted) == [sorted[0]] + Place(desc, x, sorted[1..])
  {
    hide Less;
  }

  lemma CutTail(sorted: seq<Item>, n: nat)
    requires 1 < n <= |sorted|
    ensures sorted[..n - 1] != [] && sorted[..n - 1][0] == sorted[0]
    ensures sorted[..n - 1][1..] == sorted[1..][..n - 2]
  {
  }

  lemma FitsCut(desc: seq<bool>, sorted: seq<Item>, n: nat)
    requires Fits(desc, sorted) && n <= |sorted|
    ensures Fits(desc, sorted[..n])
  {
  }

  lemma PlaceLater(desc: seq<bool>, x: Item, sorted: seq<Item>, n: nat)
    requires Fits(desc, sorted) && |x.keys| == |desc| && 0 < n <= |sorted| && !Less(desc, x, sorted[0])
    ensures Place(desc, x, sorted) == [sorted[0]] + Place(desc, x, sorted[1..])
    ensures n > 1 ==> Place(desc, x, sorted[..n - 1]) == [sorted[0]] + Place(desc, x, sorted[1..][..n - 2])
  {
    hide *;
    PlacePast(desc, x, sorted);
    if n > 1 {
      CutTail(sorted, n);
      FitsCut(desc, sorted, n - 1);
      PlacePast(desc, x, sorted[..n - 1]);
    }
  }

  /** Inserting and then cutting off is cutting off and then, if there is a point to it, inserting. */
  lemma {:induction false} TakeOfPlace(desc: seq<bool>, x: Item, sorted: seq<Item>, n: nat)
    requires Fits(desc, sorted) && |x.keys| == |desc| && InOrder(desc, sorted) && 0 < n <= |sorted|
    ensures Take(n, Place(desc, x, sorted)) ==
            if Less(desc, x, sorted[n - 1]) then Place(desc, x, sorted[..n - 1]) else sorted[..n]
  {
    hide Less, InOrder, Place, Take, CmpKeys;
    InOrderTail(desc, sorted, n);
    if Less(desc, x, sorted[0]) {
      PlaceFirst(desc, x, sorted, n);
      TakeCons(n, x, sorted);
      TakeAll(n - 1, sorted);
      if n > 1 {
        LessTransitive(desc, x, sorted[0], sorted[n - 1]);
      }
    } else {
      PlaceLater(desc, x, sorted, n);
      TakeCons(n, sorted[0], Place(desc, x, sorted[1..]));
      if n > 1 {
        TakeOfPlace(desc, x, sorted[1..], n - 1);
        assert sorted[..n] == [sorted[0]] + sorted[1..][..n - 1];
      } else {
        TakeAll(0, Place(desc, x, sorted[1..]));
        assert sorted[..1] == [sorted[0]];
      }
    }
  }

  lemma NumberedMultiset(a: seq<Item>, b: seq<Item>)
    requires multiset(a) == multiset(b) && Numbered(a)
    ensures Numbered(b)
  {
    forall i, j | 0 <= i < j < |b| ensures b[i].num != b[j].num {
      assert b[i] in multiset(b) && b[j] in multiset(b);
      assert b[i] in a && b[j] in a;
      var k :| 0 <= k < |a| && a[k] == b[i];
      var l :| 0 <= l < |a| && a[l] == b[j];
      if b[i] == b[j] {
        Twice(b, i, j);
        Once(a, k);
      }
    }
  }

  lemma Twice(s: seq<Item>, i: nat, j: nat)
    requires i < j < |s| && s[i] == s[j]
    ensures multiset(s)[s[i]] >= 2
  {
    assert s == s[..j] + s[j..];
    assert s[i] in s[..j] && s[i] in s[j..];
    assert multiset(s) == multiset(s[..j]) + multiset(s[j..]);
  }

  lemma Once(s: seq<Item>, i: nat)
    requires Numbered(s) && i < |s|
    ensures multiset(s)[s[i]] == 1
  {
    assert s == s[..i] + [s[i]] + s[i + 1..];
    assert s[i] !in s[..i] && s[i] !in s[i + 1..];
    assert s[i] !in multiset(s[..i]) && s[i] !in multiset(s[i + 1..]);
  }

  lemma SameSort(desc: seq<bool>, a: seq<Item>, b: seq<Item>)
    requires Fits(desc, a) && Fits(desc, b) && Numbered(b) && InOrder(desc, a) && multiset(a) == multiset(b)
    ensures Sort(desc, b) == a
  {
    SortInOrder(desc, b);
    SortMultiset(desc, b);
    OrderUnique(desc, Sort(desc, b), a);
  }

  /** The heap's items, put in order, are the first of everything offered so far. */
  ghost predicate HoldsFirst(h: TopHeap, limit: nat, seen: seq<Item>)
    reads h
  {
    && h.Valid() && Fits(h.desc, seen) && Numbered(seen) && Numbered(h.items)
    && Sort(h.desc, h.items) == Take(limit, Sort(h.desc, seen))
  }

  lemma HoldsNone(h: TopHeap, limit: nat)
    requires h.Valid() && h.items == []
    ensures HoldsFirst(h, limit, [])
  {
  }

  lemma HeldSorted(h: TopHeap, limit: nat, seen: seq<Item>)
    requires HoldsFirst(h, limit, seen)
    ensures Fits(h.desc, h.items) && Fits(h.desc, seen) && Sort(h.desc, h.items) == Take(limit, Sort(h.desc, seen))
  {
  }

  lemma OfferPush(desc: seq<bool>, limit: nat, seen: seq<Item>, held: seq<Item>, x: Item, now: seq<Item>)
    requires Fits(desc, seen + [x]) && Fits(desc, held) && Numbered(seen + [x]) && Numbered(held)
    requires Fits(desc, seen) && Sort(desc, held) == Take(limit, Sort(desc, seen)) && |held| < limit
    requires Fits(desc, now) && multiset(now) == multiset(held) + multiset{x}
    ensures Numbered(now) && Sort(desc, now) == Take(limit, Sort(desc, seen + [x]))
  {
    SortInOrder(desc, seen + [x]);
    SortMultiset(desc, seen + [x]);
    SortMultiset(desc, seen);
    SortMultiset(desc, held);
    assert multiset(now) == multiset(seen + [x]);
    NumberedMultiset(seen + [x], now);
    SameSort(desc, Sort(desc, seen + [x]), now);
  }

  /** In a list in order, whatever nothing follows stands last. */
  lemma GreatestIsLast(desc: seq<bool>, s: seq<Item>, x: Item)
    requires Fits(desc, s) && InOrder(desc, s) && x in s && forall y :: y in s ==> !Less(desc, x, y)
    ensures s[|s| - 1] == x
  {
    var i :| 0 <= i < |s| && s[i] == x;
    assert s[|s| - 1] in s;
  }

  lemma LastOfSort(desc: seq<bool>, held: seq<Item>)
    requires Fits(desc, held) && Numbered(held) && held != [] && IsHeap(desc, held)
    ensures Sort(desc, held)[|held| - 1] == held[0]
  {
    SortInOrder(desc, held);
    SortMultiset(desc, held);
    var s := Sort(desc, held);
    assert held[0] in multiset(s);
    forall y | y in s ensures !Less(desc, held[0], y) {
      assert y in multiset(held);
      var j :| 0 <= j < |held| && held[j] == y;
      RootComesLast(desc, held, j);
    }
    hide Less, IsHeap, Sort;
    GreatestIsLast(desc, s, held[0]);
  }

  lemma SortSnoc(desc: seq<bool>, seen: seq<Item>, x: Item)
    requires Fits(desc, seen + [x]) && Fits(desc, seen)
    ensures |x.keys| == |desc| && Sort(desc, seen + [x]) == Place(desc, x, Sort(desc, seen))
  {
    assert (seen + [x])[..|seen|] == seen && (seen + [x])[|seen|] == x;
  }

  /** With the heap full, the newcomer counts only if it comes before the root. */
  lemma OfferFull(desc: seq<bool>, limit: nat, seen: seq<Item>, held: seq<Item>, x: Item)
    requires Fits(desc, seen + [x]) && Fits(desc, held) && Numbered(seen) && Numbered(held) && IsHeap(desc, held)
    requires Fits(desc, seen) && Sort(desc, held) == Take(limit, Sort(desc, seen)) && |held| == limit > 0
    ensures limit <= |seen| && Sort(desc, held) == Sort(desc, seen)[..limit] && Sort(desc, seen)[limit - 1] == held[0]
    ensures |x.keys| == |desc| && Fits(desc, Sort(desc, seen)[..limit - 1])
    ensures Take(limit, Sort(desc, seen + [x])) ==
            if Less(desc, x, held[0]) then Place(desc, x, Sort(desc, seen)[..limit - 1]) else Sort(desc, held)
  {
    hide Sort, Less, IsHeap, Place, Numbered, InOrder, Take;
    LastOfSort(desc, held);
    SortInOrder(desc, seen);
    SortSnoc(desc, seen, x);
    TakeAll(limit, Sort(desc, seen));
    TakeOfPlace(desc, x, Sort(desc, seen), limit);
  }

  lemma DropLast(s: seq<Item>, top: Item)
    requires s != [] && s[|s| - 1] == top
    ensures multiset(s[..|s| - 1]) == multiset(s) - multiset{top}
  {
    assert s == s[..|s| - 1] + [top];
  }

  lemma InOrderTake(desc: seq<bool>, s: seq<Item>, n: int)
    requires Fits(desc, s) && InOrder(desc, s) && Numbered(s)
    ensures Fits(desc, Take(n, s)) && InOrder(desc, Take(n, s)) && Numbered(Take(n, s))
  {
  }

  lemma EvictMultiset(desc: seq<bool>, first: seq<Item>, x: Item)
    requires Fits(desc, first) && first != [] && |x.keys| == |desc|
    ensures Fits(desc, first[..|first| - 1])
    ensures multiset(Place(desc, x, first[..|first| - 1])) == multiset(first) - multiset{first[|first| - 1]} + multiset{x}
  {
    DropLast(first, first[|first| - 1]);
    PlaceMultiset(desc, x, first[..|first| - 1]);
  }

  /** Items that are those of a sorted start sort to that start. */
  lemma SortedStart(desc: seq<bool>, limit: nat, items: seq<Item>, now: seq<Item>)
    requires Fits(desc, items) && Numbered(items) && Fits(desc, now)
    requires multiset(now) == multiset(Take(limit, Sort(desc, items)))
    ensures Numbered(now) && Sort(desc, now) == Take(limit, Sort(desc, items))
  {
    hide Less, Numbered, InOrder, Take, Sort;
    SortInOrder(desc, items);
    SortMultiset(desc, items);
    NumberedMultiset(items, Sort(desc, items));
    InOrderTake(desc, Sort(desc, items), limit);
    NumberedMultiset(Take(limit, Sort(desc, items)), now);
    SameSort(desc, Take(limit, Sort(desc, items)), now);
  }

  lemma OfferEvict(desc: seq<bool>, limit: nat, seen: seq<Item>, held: seq<Item>, x: Item, now: seq<Item>)
    requires Fits(desc, seen + [x]) && Fits(desc, held) && Numbered(seen) && Numbered(seen + [x]) && Numbered(held)
    requires IsHeap(desc, held)
    requires Fits(desc, seen) && Sort(desc, held) == Take(limit, Sort(desc, seen)) && |held| == limit > 0
    requires |x.keys| == |desc| && Less(desc, x, held[0])
    requires Fits(desc, now) && multiset(now) == multiset(held) - multiset{held[0]} + multiset{x}
    ensures Numbered(now) && Sort(desc, now) == Take(limit, Sort(desc, seen + [x]))
  {
    hide Less, IsHeap, Numbered, InOrder, Take, Place, Sort;
    OfferFull(desc, limit, seen, held, x);
    SortMultiset(desc, held);
    EvictMultiset(desc, Sort(desc, seen)[..limit], x);
    assert Sort(desc, seen)[..limit][..limit - 1] == Sort(desc, seen)[..limit - 1];
    SortedStart(desc, limit, seen + [x], now);
  }

  /** What the load loop does with one more item once a limit has been pushed down. */
  method Offer(h: TopHeap, limit: nat, x: Item, ghost seen: seq<Item>)
    requires HoldsFirst(h, limit, seen) && |x.keys| == |h.desc| && Numbered(seen + [x])
    modifies h
    ensures HoldsFirst(h, limit, seen + [x])
  {
    ghost var held := h.items;
    assert Fits(h.desc, seen + [x]);
    if |h.items| < limit {
      h.Push(x);
      OfferPush(h.desc, limit, seen, held, x, h.items);
    } else if limit > 0 {
      OfferFull(h.desc, limit, seen, held, x);
      var better := CompareItems(h.desc, x, h.items[0]);
      if better {
        h.ReplaceRoot(x);
        OfferEvict(h.desc, limit, seen, held, x, h.items);
      }
    }
  }
}
