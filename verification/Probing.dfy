/**
  The probe sequence shared by the open-addressed tables (StringMap.cpp, DenseMap.h, SmallPtrSet.cpp): start at the
  hash and add 1, 2, 3, ... modulo a power of two.
 */
module Probing {
  function Pow2(k: nat): (r: nat)
    ensures r > 0
  {
    if k == 0 then 1 else 2 * Pow2(k - 1)
  }

  ghost predicate IsPow2(n: nat) {
    exists k: nat :: n == Pow2(k)
  }

  /** The total of the first `i` increments. */
  function Triangle(i: nat): nat {
    if i == 0 then 0 else Triangle(i - 1) + i
  }

  /** The bucket inspected after `i` increments in a table of `n` buckets. */
  function Probe(hash: nat, i: nat, n: nat): (b: nat)
    requires n > 0
    ensures b < n
  {
    (hash + Triangle(i)) % n
  }

  /** One more step of the loop `Bucket = (Bucket + ProbeAmt++) & (n - 1)`. */
  lemma ProbeStep(hash: nat, i: nat, n: nat)
    requires n > 0
    ensures Probe(hash, 0, n) == hash % n
    ensures Probe(hash, i + 1, n) == (Probe(hash, i, n) + i + 1) % n
  {
    ModAdd(hash + Triangle(i), i + 1, n);
  }

  /** Quotient and remainder are determined by their equation. */
  lemma Remainder(y: nat, n: nat, d: nat, r: nat)
    requires r < n && y == d * n + r
    ensures y % n == r
  {
    var e, t := y / n, y % n;
    assert y == e * n + t;
    if d > e {
      Apart(n, e, d);
    } else if d < e {
      Apart(n, d, e);
    }
  }

  lemma Apart(n: nat, a: nat, b: nat)
    requires a < b
    ensures a * n + n <= b * n
  {
    assert b * n == a * n + (b - a) * n;
    assert (b - a) * n == n + (b - a - 1) * n;
  }

  lemma ModAdd(a: nat, b: nat, n: nat)
    requires n > 0
    ensures (a + b) % n == (a % n + b) % n
  {
    AddMultiple(a % n + b, a / n, n);
    assert a == (a / n) * n + a % n;
  }

  lemma AddMultiple(x: nat, q: nat, n: nat)
    requires n > 0
    ensures (x + q * n) % n == x % n
  {
    var d := x / n;
    assert x == d * n + x % n;
    assert x + q * n == (d + q) * n + x % n;
    Remainder(x + q * n, n, d + q, x % n);
  }

  lemma {:induction false} TriangleTwice(i: nat)
    ensures 2 * Triangle(i) == i * (i + 1)
  {
    if i > 0 {
      TriangleTwice(i - 1);
    }
  }

  /** A power of two dividing a product with an odd factor divides the other factor. */
  lemma {:induction false} OddFactor(k: nat, x: nat, b: nat, q: nat) returns (c: nat)
    requires (2 * x + 1) * b == q * Pow2(k)
    ensures b == c * Pow2(k)
  {
    if k == 0 {
      return b;
    }
    var p := Pow2(k - 1);
    assert (2 * x + 1) * b == 2 * (x * b) + b;
    assert q * Pow2(k) == 2 * (q * p);
    var h := b / 2;
    assert b == 2 * h;
    Halve(x, b, h, q * p);
    c := OddFactor(k - 1, x, h, q);
    assert c * Pow2(k) == 2 * (c * p);
  }

  lemma Halve(x: nat, b: nat, h: nat, r: nat)
    requires b == 2 * h && (2 * x + 1) * b == 2 * r
    ensures (2 * x + 1) * h == r
  {
    assert (2 * x + 1) * b == 2 * ((2 * x + 1) * h);
  }

  /** Triangular numbers below a power of two are distinct modulo it. */
  lemma TrianglesDiffer(k: nat, i: nat, j: nat)
    requires i < j < Pow2(k)
    ensures Triangle(i) % Pow2(k) != Triangle(j) % Pow2(k)
  {
    if Triangle(i) % Pow2(k) == Triangle(j) % Pow2(k) {
      var q := Twice(k, i, j);
      FactorsBelow(k, i, j);
      NoSuchMultiple(k, j - i, j + i + 1, q);
      assert false;
    }
  }

  lemma FactorsBelow(k: nat, i: nat, j: nat)
    requires i < j < Pow2(k)
    ensures 0 < j - i < Pow2(k + 1) && 0 < j + i + 1 < Pow2(k + 1) && (j - i) % 2 != (j + i + 1) % 2
  {
    assert Pow2(k + 1) == 2 * Pow2(k);
  }

  /** Of two factors below 2^(k + 1), one odd, the product is no multiple of 2^(k + 1). */
  lemma NoSuchMultiple(k: nat, d: nat, s: nat, q: nat)
    requires 0 < d < Pow2(k + 1) && 0 < s < Pow2(k + 1) && d % 2 != s % 2
    ensures d * s != q * Pow2(k + 1)
  {
    if d * s == q * Pow2(k + 1) {
      if d % 2 == 1 {
        var c := OddFactor(k + 1, d / 2, s, q);
        Multiple(c, Pow2(k + 1), s);
      } else {
        assert s * d == d * s;
        var c := OddFactor(k + 1, s / 2, d, q);
        Multiple(c, Pow2(k + 1), d);
      }
    }
  }

  /** Triangles congruent modulo 2^k make (j - i)(j + i + 1) a multiple of 2^(k + 1). */
  lemma Twice(k: nat, i: nat, j: nat) returns (q: nat)
    requires i < j && Triangle(i) % Pow2(k) == Triangle(j) % Pow2(k)
    ensures (j - i) * (j + i + 1) == q * Pow2(k + 1)
  {
    TriangleGrows(i, j);
    q := Gap(Triangle(i), Triangle(j), Pow2(k));
    DoubleGap(i, j, q, Pow2(k));
  }

  lemma DoubleGap(i: nat, j: nat, q: nat, n: nat)
    requires i < j && Triangle(j) - Triangle(i) == q * n
    ensures (j - i) * (j + i + 1) == q * (2 * n)
  {
    TriangleTwice(i);
    TriangleTwice(j);
    Squares(i, j);
    TwiceProduct(q, n);
    SameDouble((j - i) * (j + i + 1), j * (j + 1), i * (i + 1), Triangle(j), Triangle(i), q * n, q * (2 * n));
  }

  lemma TwiceProduct(q: nat, n: nat)
    ensures q * (2 * n) == 2 * (q * n)
  {
  }

  lemma SameDouble(p: int, b: int, a: int, y: int, x: int, s: int, r: int)
    requires p == b - a && b == 2 * y && a == 2 * x && y - x == s && r == 2 * s
    ensures p == r
  {
  }

  lemma Squares(i: nat, j: nat)
    requires i < j
    ensures (j - i) * (j + i + 1) == j * (j + 1) - i * (i + 1)
  {
  }

  lemma Gap(x: nat, y: nat, n: nat) returns (q: nat)
    requires x < y && n > 0 && x % n == y % n
    ensures y - x == q * n
  {
    var a, b := x / n, y / n;
    assert x == a * n + x % n && y == b * n + y % n;
    if b < a {
      Apart(n, b, a);
    }
    q := b - a;
    assert q * n == b * n - a * n;
  }

  lemma {:induction false} TriangleGrows(i: nat, j: nat)
    requires i < j
    ensures Triangle(i) < Triangle(j)
  {
    if i < j - 1 {
      TriangleGrows(i, j - 1);
    }
  }

  /** No positive number below `m` is a multiple of `m`. */
  lemma Multiple(c: nat, m: nat, x: nat)
    requires x == c * m && 0 < x
    ensures x >= m
  {
    if c > 0 {
      assert c * m >= m;
    }
  }

  lemma ProbesDiffer(hash: nat, i: nat, j: nat, n: nat)
    requires IsPow2(n) && i < n && j < n && i != j
    ensures Probe(hash, i, n) != Probe(hash, j, n)
  {
    var k: nat :| n == Pow2(k);
    if Probe(hash, i, n) == Probe(hash, j, n) {
      CancelHash(hash, Triangle(i), Triangle(j), n);
      if i < j {
        TrianglesDiffer(k, i, j);
      } else {
        TrianglesDiffer(k, j, i);
      }
    }
  }

  lemma CancelHash(h: nat, a: nat, b: nat, n: nat)
    requires n > 0 && (h + a) % n == (h + b) % n
    ensures a % n == b % n
  {
    var c := n - h % n;
    ModAdd(h + a, c, n);
    ModAdd(h + b, c, n);
    var q := h / n + 1;
    assert h + c == q * n by {
      assert h == (h / n) * n + h % n;
    }
    AddMultiple(a, q, n);
    AddMultiple(b, q, n);
    assert h + a + c == a + q * n && h + b + c == b + q * n;
  }

  ghost function Below(n: nat): (r: set<nat>)
    ensures forall x: nat :: x in r <==> x < n
    ensures |r| == n
  {
    if n == 0 then {} else Below(n - 1) + {n - 1}
  }

  /** The first `n` probes visit every bucket. */
  lemma ProbesCover(hash: nat, n: nat, b: nat)
    requires IsPow2(n) && b < n
    ensures exists i :: 0 <= i < n && Probe(hash, i, n) == b
  {
    var seen := Visited(hash, n, n);
    assert seen <= Below(n);
    SameSize(seen, Below(n));
    assert b in seen;
  }

  ghost function Visited(hash: nat, n: nat, m: nat): (r: set<nat>)
    requires IsPow2(n) && m <= n && n > 0
    ensures forall b :: b in r ==> b < n && exists i :: 0 <= i < m && Probe(hash, i, n) == b
    ensures |r| == m
  {
    if m == 0 then {}
    else
      var r := Visited(hash, n, m - 1);
      var b := Probe(hash, m - 1, n);
      assert b !in r by {
        if b in r {
          var i :| 0 <= i < m - 1 && Probe(hash, i, n) == b;
          ProbesDiffer(hash, i, m - 1, n);
        }
      }
      r + {b}
  }

  lemma SameSize<T>(a: set<T>, b: set<T>)
    requires a <= b && |a| == |b|
    ensures a == b
  {
    var rest := b - a;
    assert b == a + rest;
    assert |b| == |a| + |rest|;
  }

  lemma Larger<T>(a: set<T>, b: set<T>)
    requires a <= b
    ensures |a| <= |b|
  {
    assert b == a + (b - a);
  }

  /** A lookup ends: in a table of power-of-two size that is not full, every hash leads to a bucket that is not taken. */
  lemma ProbeEnds(full: set<nat>, n: nat, hash: nat) returns (i: nat)
    requires IsPow2(n) && |full| < n
    ensures i < n && Probe(hash, i, n) !in full
  {
    var all := Below(n);
    var b :| b in all && b !in full by {
      if all <= full {
        Larger(all, full);
      }
    }
    ProbesCover(hash, n, b);
    i :| 0 <= i < n && Probe(hash, i, n) == b;
  }

  /** NextPowerOf2: the least power of two above `n`. */
  function NextPowerOf2(n: nat): (r: nat)
    ensures n < r && (n > 0 ==> r <= 2 * n) && IsPow2(r)
  {
    assert 1 == Pow2(0);
    if n == 0 then 1
    else
      var h := NextPowerOf2(n / 2);
      Doubles(h);
      2 * h
  }

  lemma Doubles(n: nat)
    requires IsPow2(n)
    ensures IsPow2(2 * n)
  {
    var k: nat :| n == Pow2(k);
    assert 2 * n == Pow2(k + 1);
  }

  function MinBuckets(entries: nat): nat {
    if entries == 0 then 0 else NextPowerOf2(entries * 4 / 3 + 1)
  }
}
