/**
 The triangular probe: from any start, strides of 8, 16, 24, ... slots over a power-of-two number of
 slots meet every slot before any repeats.
 */
module Triangular {

  function Pow2(n: nat): (p: nat)
    ensures p > 0
  {
    if n == 0 then 1 else 2 * Pow2(n - 1)
  }

  /** The groups skipped after `i` strides: 1 + 2 + ... + i. */
  function Triangle(i: nat): nat {
    if i == 0 then 0 else Triangle(i - 1) + i
  }

  // ---- products and remainders ----

  lemma Scaled(a: int, b: int, p: int)
    requires p > 0 && a > b
    ensures a * p >= b * p + p
  {
    var d := a - b - 1;
    assert d * p >= 0;
    assert a * p == b * p + p + d * p;
  }

  lemma Distribute(a: int, b: int, p: int)
    ensures (a + b) * p == a * p + b * p
    ensures (a - b) * p == a * p - b * p
  {
  }

  lemma Remainder(x: int, q: int, r: int, p: int)
    requires p > 0 && 0 <= r < p && x == q * p + r
    ensures x / p == q && x % p == r
  {
    var q', r' := x / p, x % p;
    assert x == q' * p + r';
    if q' < q { Scaled(q, q', p); }
    if q < q' { Scaled(q', q, p); }
  }

  lemma Quotient(x: int, p: int)
    requires p > 0
    ensures x == (x / p) * p + x % p && 0 <= x % p < p
  {
  }

  lemma ModShift(x: int, q: int, p: int)
    requires p > 0
    ensures (x + q * p) % p == x % p
  {
    Quotient(x, p);
    Distribute(x / p, q, p);
    Remainder(x + q * p, x / p + q, x % p, p);
  }

  lemma Congruent(x: int, y: int, p: int) returns (q: int)
    requires p > 0 && x % p == y % p
    ensures y - x == q * p
    ensures x <= y ==> q >= 0
  {
    q := y / p - x / p;
    Quotient(x, p);
    Quotient(y, p);
    Distribute(y / p, x / p, p);
    if q < 0 { Scaled(x / p, y / p, p); }
  }

  // ---- triangular numbers modulo a power of two ----

  lemma TriangleClosed(i: nat)
    ensures 2 * Triangle(i) == i * (i + 1)
  {
  }

  lemma TriangleMonotone(i: nat, j: nat)
    requires i <= j
    ensures Triangle(i) <= Triangle(j)
  {
  }

  lemma OddProduct(a: int, b: int, m: int)
    requires a % 2 == 1 && a * b == 2 * m
    ensures b % 2 == 0 && a * (b / 2) == m
  {
    var c := a / 2;
    assert a == 2 * c + 1;
    assert (2 * c + 1) * b == 2 * (c * b) + b;
    var h := b / 2;
    assert b == 2 * h;
    assert a * (2 * h) == 2 * (a * h);
  }

  /** An odd factor carries no power of two: 2^n dividing a * b divides b. */
  lemma {:induction false} OddFactor(a: nat, b: nat, n: nat, q: nat) returns (r: nat)
    requires a % 2 == 1 && a * b == q * Pow2(n)
    ensures b == r * Pow2(n)
  {
    if n == 0 {
      r := b;
    } else {
      var p := Pow2(n - 1);
      assert q * (2 * p) == 2 * (q * p);
      OddProduct(a, b, q * p);
      r := OddFactor(a, b / 2, n - 1, q);
      assert r * (2 * p) == 2 * (r * p);
    }
  }

  lemma TooSmallMultiple(x: nat, r: nat, p: nat)
    requires x == r * p && x < p
    ensures x == 0
  {
    if r > 0 { Scaled(r, 0, p); }
  }

  /** Two numbers below 2^n, one odd and one even, have no multiple of 2^n as their product. */
  lemma NoMultiple(a: nat, b: nat, n: nat, q: nat)
    requires 0 < a < Pow2(n) && 0 < b < Pow2(n) && a % 2 != b % 2
    ensures a * b != q * Pow2(n)
  {
    if a * b == q * Pow2(n) {
      if a % 2 == 1 {
        var r := OddFactor(a, b, n, q);
        TooSmallMultiple(b, r, Pow2(n));
      } else {
        assert b * a == a * b;
        var r := OddFactor(b, a, n, q);
        TooSmallMultiple(a, r, Pow2(n));
      }
    }
  }

  lemma Doubled(q: int, p: int)
    ensures q * (2 * p) == 2 * (q * p)
  {
  }

  lemma HalfProduct(a: nat, b: nat, half: nat, n: nat, q: nat)
    requires 0 < a < 2 * Pow2(n) && 0 < b < 2 * Pow2(n) && a % 2 != b % 2 && a * b == 2 * half
    ensures half != q * Pow2(n)
  {
    Doubled(q, Pow2(n));
    NoMultiple(a, b, n + 1, q);
  }

  lemma TriangleGap(i: nat, j: nat) returns (a: nat, b: nat)
    requires i <= j
    ensures a == j - i && b == j + i + 1 && a * b == 2 * (Triangle(j) - Triangle(i))
    ensures Triangle(i) <= Triangle(j)
  {
    a, b := j - i, j + i + 1;
    TriangleClosed(i);
    TriangleClosed(j);
    assert (j - i) * (j + i + 1) == j * (j + 1) - i * (i + 1);
    TriangleMonotone(i, j);
  }

  lemma {:induction false} GapIsNoMultiple(i: nat, j: nat, n: nat, q: nat)
    requires i < j < Pow2(n)
    ensures Triangle(j) - Triangle(i) != q * Pow2(n)
  {
    var a, b := TriangleGap(i, j);
    HalfProduct(a, b, Triangle(j) - Triangle(i), n, q);
  }

  /** The first 2^n triangular numbers differ modulo 2^n. */
  lemma TrianglesDistinct(i: nat, j: nat, n: nat)
    requires i < j < Pow2(n)
    ensures Triangle(i) % Pow2(n) != Triangle(j) % Pow2(n)
  {
    if Triangle(i) % Pow2(n) == Triangle(j) % Pow2(n) {
      TriangleMonotone(i, j);
      var q := Congruent(Triangle(i), Triangle(j), Pow2(n));
      GapIsNoMultiple(i, j, n, q);
    }
  }

  // ---- pigeonhole ----

  function Below(n: nat): (s: set<int>)
    ensures forall x :: x in s <==> 0 <= x < n
  {
    if n == 0 then {} else Below(n - 1) + {n - 1}
  }

  lemma {:induction false} BelowCount(n: nat)
    ensures |Below(n)| == n
  {
    if n > 0 { BelowCount(n - 1); }
  }

  lemma {:induction false} DistinctCount(f: seq<int>)
    requires forall i, j | 0 <= i < j < |f| :: f[i] != f[j]
    ensures |set x | x in f| == |f|
  {
    if f != [] {
      var g, last := f[..|f| - 1], f[|f| - 1];
      DistinctCount(g);
      assert f == g + [last];
      assert (set x | x in f) == (set x | x in g) + {last};
    }
  }

  lemma SubsetCount(a: set<int>, b: set<int>)
    requires a <= b
    ensures |a| <= |b| && (|a| == |b| ==> a == b)
  {
    assert b == a + (b - a);
  }

  /** Distinct values below a bound are at most as many as the bound; as many, they are all of them. */
  lemma Pigeonhole(f: seq<int>, n: nat)
    requires forall i | 0 <= i < |f| :: 0 <= f[i] < n
    requires forall i, j | 0 <= i < j < |f| :: f[i] != f[j]
    ensures |f| <= n
    ensures |f| == n ==> forall x :: 0 <= x < n ==> x in f
  {
    var s, all := (set x | x in f), Below(n);
    DistinctCount(f);
    BelowCount(n);
    SubsetCount(s, all);
    if |f| == n {
      forall x | 0 <= x < n ensures x in f { assert x in all; }
    }
  }

  // ---- the walk ----

  lemma TrianglesCover(n: nat, r: nat) returns (i: nat)
    requires r < Pow2(n)
    ensures i < Pow2(n) && Triangle(i) % Pow2(n) == r
  {
    var g := Pow2(n);
    var f := seq(g, i requires 0 <= i < g => Triangle(i) % g);
    forall i, j | 0 <= i < j < |f| ensures f[i] != f[j] { TrianglesDistinct(i, j, n); }
    Pigeonhole(f, g);
    assert r in f;
    i :| 0 <= i < |f| && f[i] == r;
  }

  lemma Landing(start: nat, d: nat, slot: nat, t: nat, g: nat)
    requires g > 0 && start < 8 * g && slot < 8 * g && t % g == d / 8
    requires d == if slot >= start then slot - start else slot + 8 * g - start
    ensures (start + 8 * t + d % 8) % (8 * g) == slot
  {
    Quotient(t, g);
    var q := t / g;
    assert 8 * (q * g) == q * (8 * g);
    assert start + 8 * t + d % 8 == (start + d) + q * (8 * g);
    ModShift(start + d, q, 8 * g);
    Remainder(start + d, if slot >= start then 0 else 1, slot, 8 * g);
  }

  /** Some stride of the walk from `start` meets any given slot. */
  lemma {:induction false} WalkCovers(start: nat, slot: nat, n: nat) returns (i: nat, k: nat)
    requires start < 8 * Pow2(n) && slot < 8 * Pow2(n)
    ensures i < Pow2(n) && k < 8
    ensures (start + 8 * Triangle(i) + k) % (8 * Pow2(n)) == slot
  {
    var d := if slot >= start then slot - start else slot + 8 * Pow2(n) - start;
    k := d % 8;
    i := TrianglesCover(n, d / 8);
    Landing(start, d, slot, Triangle(i), Pow2(n));
  }
}
