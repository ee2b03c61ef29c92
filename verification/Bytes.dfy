// Byte strings and the order keelstore keeps its keys in.
module Bytes {

  type byte = b: int | 0 <= b < 256

  type bytes = seq<byte>

  function Sign(x: int, y: int): int {
    if x < y then -1 else if x > y then 1 else 0
  }

  /** bytes.Compare: lexicographic by unsigned byte, a proper prefix first. */
  function Cmp(a: bytes, b: bytes): int {
    if a == [] then (if b == [] then 0 else -1)
    else if b == [] then 1
    else if a[0] != b[0] then Sign(a[0], b[0])
    else Cmp(a[1..], b[1..])
  }

  predicate Before(a: bytes, b: bytes) { Cmp(a, b) < 0 }

  /** The first difference decides: a smaller byte, or an end where the other goes on. */
  ghost predicate LexBelow(a: bytes, b: bytes) {
    exists n :: BelowAt(a, b, n)
  }

  predicate BelowAt(a: bytes, b: bytes, n: int) {
    0 <= n <= |a| && n < |b| && a[..n] == b[..n] && (n == |a| || a[n] < b[n])
  }

  /** The two strings differ at some position both of them have. */
  ghost predicate Diverge(a: bytes, b: bytes) { !(a <= b) && !(b <= a) }

  lemma {:induction false} CmpRange(a: bytes, b: bytes)
    ensures Cmp(a, b) in {-1, 0, 1}
    ensures Cmp(a, b) == -Cmp(b, a)
    ensures Cmp(a, b) == 0 <==> a == b
  {
    if a != [] && b != [] && a[0] == b[0] {
      CmpRange(a[1..], b[1..]);
      assert a == [a[0]] + a[1..] && b == [b[0]] + b[1..];
    }
  }

  lemma BelowStep(a: bytes, b: bytes)
    requires a != [] && b != []
    ensures LexBelow(a, b) <==> a[0] < b[0] || (a[0] == b[0] && LexBelow(a[1..], b[1..]))
  {
    if a[0] < b[0] {
      assert BelowAt(a, b, 0);
    } else if a[0] == b[0] {
      forall n | BelowAt(a, b, n) ensures BelowAt(a[1..], b[1..], n - 1) {
        assert a[1..][..n - 1] == a[..n][1..] && b[1..][..n - 1] == b[..n][1..];
      }
      forall n | BelowAt(a[1..], b[1..], n) ensures BelowAt(a, b, n + 1) {
        assert a[..n + 1] == [a[0]] + a[1..][..n] && b[..n + 1] == [b[0]] + b[1..][..n];
      }
    } else {
      forall n ensures !BelowAt(a, b, n) {
        if 0 < n <= |a| && n < |b| {
          assert a[..n][0] == a[0] && b[..n][0] == b[0];
        }
      }
    }
  }

  /** bytes.Compare is the lexicographic order. */
  lemma {:induction false} CmpIsLex(a: bytes, b: bytes)
    ensures Cmp(a, b) < 0 <==> LexBelow(a, b)
    ensures Cmp(a, b) > 0 <==> LexBelow(b, a)
  {
    if a == [] {
      if b != [] {
        assert BelowAt(a, b, 0);
      }
    } else if b == [] {
      assert BelowAt(b, a, 0);
    } else {
      BelowStep(a, b);
      BelowStep(b, a);
      hide LexBelow;
      if a[0] == b[0] {
        CmpIsLex(a[1..], b[1..]);
      }
    }
  }

  lemma {:induction false} CmpTransitive(a: bytes, b: bytes, c: bytes)
    requires Cmp(a, b) <= 0 && Cmp(b, c) <= 0
    ensures Cmp(a, c) <= 0
    ensures Cmp(a, b) < 0 || Cmp(b, c) < 0 ==> Cmp(a, c) < 0
  {
    if a != [] && b != [] && c != [] && a[0] == b[0] == c[0] {
      CmpTransitive(a[1..], b[1..], c[1..]);
    }
  }

  lemma {:induction false} CmpCancel(p: bytes, a: bytes, b: bytes)
    ensures Cmp(p + a, p + b) == Cmp(a, b)
  {
    if p == [] {
      assert p + a == a && p + b == b;
    } else {
      assert (p + a)[1..] == p[1..] + a && (p + b)[1..] == p[1..] + b;
      CmpCancel(p[1..], a, b);
    }
  }

  lemma {:induction false} CmpPrefix(p: bytes, k: bytes)
    requires p <= k
    ensures Cmp(p, k) <= 0
    ensures p != k ==> Cmp(p, k) < 0
  {
    if p != [] {
      CmpPrefix(p[1..], k[1..]);
    }
  }

  /** Strings that diverge compare the same whatever is appended to them. */
  lemma {:induction false} CmpDiverge(a: bytes, b: bytes, x: bytes, y: bytes)
    requires Diverge(a, b)
    ensures Cmp(a + x, b + y) == Cmp(a, b) != 0
    ensures Diverge(a + x, b + y)
  {
    assert a != [] && b != [];
    if a[0] == b[0] {
      assert a == [a[0]] + a[1..] && b == [b[0]] + b[1..];
      CmpDiverge(a[1..], b[1..], x, y);
      assert (a + x)[1..] == a[1..] + x && (b + y)[1..] == b[1..] + y;
    }
  }

  /** Strings of one length are equal or diverge. */
  lemma SameLengthDiverge(a: bytes, b: bytes)
    requires |a| == |b| && a != b
    ensures Diverge(a, b)
  {
  }

  lemma DivergeAfterPrefix(p: bytes, a: bytes, b: bytes)
    requires Diverge(a, b)
    ensures Diverge(p + a, p + b)
  {
    assert (p + a)[|p|..] == a && (p + b)[|p|..] == b;
  }

  // Big-endian integers.

  function Pow256(w: nat): (r: nat)
    ensures r > 0
  {
    if w == 0 then 1 else 256 * Pow256(w - 1)
  }

  function BE(w: nat, n: nat): (s: bytes)
    requires n < Pow256(w)
    ensures |s| == w
  {
    if w == 0 then [] else BE(w - 1, n / 256) + [n % 256]
  }

  function FromBE(s: bytes): (n: nat)
    ensures n < Pow256(|s|)
  {
    if s == [] then 0 else FromBE(s[..|s| - 1]) * 256 + s[|s| - 1]
  }

  lemma {:induction false} BERoundTrip(w: nat, n: nat)
    requires n < Pow256(w)
    ensures FromBE(BE(w, n)) == n
  {
    if w > 0 {
      BERoundTrip(w - 1, n / 256);
      assert BE(w, n)[..w - 1] == BE(w - 1, n / 256);
    }
  }

  lemma {:induction false} CmpSnoc(a: bytes, b: bytes, x: byte, y: byte)
    requires |a| == |b|
    ensures Cmp(a + [x], b + [y]) == if a == b then Sign(x, y) else Cmp(a, b)
  {
    if a == [] {
    } else {
      assert (a + [x])[1..] == a[1..] + [x] && (b + [y])[1..] == b[1..] + [y];
      assert a == [a[0]] + a[1..] && b == [b[0]] + b[1..];
      CmpSnoc(a[1..], b[1..], x, y);
    }
  }

  lemma {:induction false} BEOrder(w: nat, m: nat, n: nat)
    requires m < Pow256(w) && n < Pow256(w)
    ensures Cmp(BE(w, m), BE(w, n)) == Sign(m, n)
  {
    if w > 0 {
      BEOrder(w - 1, m / 256, n / 256);
      CmpRange(BE(w - 1, m / 256), BE(w - 1, n / 256));
      CmpSnoc(BE(w - 1, m / 256), BE(w - 1, n / 256), m % 256, n % 256);
    }
  }

  lemma Pow256Of4()
    ensures Pow256(4) == 0x1_0000_0000
  {
    assert Pow256(0) == 1;
    assert Pow256(1) == 0x100;
    assert Pow256(2) == 0x1_0000;
    assert Pow256(3) == 0x100_0000;
  }

  lemma Pow256Of8()
    ensures Pow256(8) == 0x1_0000_0000_0000_0000
  {
    Pow256Of4();
    assert Pow256(5) == 0x100_0000_0000;
    assert Pow256(6) == 0x1_0000_0000_0000;
    assert Pow256(7) == 0x100_0000_0000_0000;
  }
}
