/**
  Saturating arithmetic (MathExtras.h) on unsigned integers of `w` bits, with every product and sum reduced to `w` bits
  as the machine does.
 */
module Saturating {
  import opened Probing

  function Max(w: nat): (m: nat) { Pow2(w) - 1 }

  function Min(a: nat, b: nat): nat { if a < b then a else b }

  /** Reduction to `w` bits. */
  function Trunc(x: nat, w: nat): nat { x % Pow2(w) }

  /** Log2_64: -1 for zero, else the position of the highest one bit. */
  function Log2(x: nat): (r: int)
    ensures x == 0 ==> r == -1
    ensures x > 0 ==> r >= 0 && Pow2(r) <= x < 2 * Pow2(r)
  {
    if x == 0 then -1 else 1 + Log2(x / 2)
  }

  lemma {:induction false} Pow2Add(a: nat, b: nat)
    ensures Pow2(a + b) == Pow2(a) * Pow2(b)
  {
    if a > 0 {
      Pow2Add(a - 1, b);
      assert Pow2(a) * Pow2(b) == 2 * (Pow2(a - 1) * Pow2(b));
    }
  }

  lemma SmallPowers()
    ensures Pow2(4) == 16
  {
  }

  /** The greatest values of the machine's types. */
  lemma Widths()
    ensures Max(8) == 0xff && Max(16) == 0xffff && Max(32) == 0xffff_ffff && Max(64) == 0xffff_ffff_ffff_ffff
  {
    hide Pow2;
    SmallPowers();
    Pow2Add(4, 4);
    Pow2Add(8, 8);
    Pow2Add(16, 16);
    Pow2Add(32, 32);
  }

  lemma {:induction false} Pow2Monotone(a: nat, b: nat)
    requires a <= b
    ensures Pow2(a) <= Pow2(b)
  {
    if a < b {
      Pow2Monotone(a, b - 1);
    }
  }

  lemma MulMonotone(a: nat, b: nat, c: nat, d: nat)
    requires a <= c && b <= d
    ensures a * b <= c * d
  {
    assert a * b <= c * b;
    assert c * b <= c * d;
  }

  lemma ModOnce(s: nat, m: nat)
    requires s < 2 * m
    ensures s % m == if s < m then s else s - m
  {
    Remainder(s, m, if s < m then 0 else 1, if s < m then s else s - m);
  }

  method SaturatingAdd(x: nat, y: nat, w: nat) returns (r: nat, overflowed: bool)
    requires x <= Max(w) && y <= Max(w)
    ensures r == Min(x + y, Max(w)) && overflowed == (x + y > Max(w))
  {
    ModOnce(x + y, Pow2(w));
    var z := Trunc(x + y, w);
    overflowed := z < x || z < y;
    r := if overflowed then Max(w) else z;
  }

  /** The logarithms of the factors bound their product. */
  lemma ProductBounds(x: nat, y: nat)
    requires x > 0 && y > 0
    ensures Log2(x) + Log2(y) >= 0
    ensures Pow2(Log2(x) + Log2(y)) <= x * y < Pow2(Log2(x) + Log2(y) + 2)
  {
    var a, b := Log2(x), Log2(y);
    Pow2Add(a, b);
    BoundProduct(Pow2(a), Pow2(b), x, y);
    Pow2Fourfold(a + b);
  }

  lemma Pow2Fourfold(k: nat)
    ensures Pow2(k + 2) == 4 * Pow2(k)
  {
    assert Pow2(k + 1) == 2 * Pow2(k);
  }

  lemma BoundProduct(p: nat, q: nat, x: nat, y: nat)
    requires p <= x < 2 * p && q <= y < 2 * q
    ensures p * q <= x * y < 4 * (p * q)
  {
    MulMonotone(p, q, x, y);
    MulMonotone(x, y, 2 * p - 1, 2 * q - 1);
    assert (2 * p - 1) * (2 * q - 1) == 4 * (p * q) - 2 * p - 2 * q + 1;
  }

  /** Doubling all but the lowest bit of `x`, then adding the lowest. */
  lemma SplitProduct(x: nat, y: nat)
    ensures x * y == 2 * ((x / 2) * y) + (if x % 2 == 1 then y else 0)
  {
    var h := x / 2;
    assert (2 * h) * y == 2 * (h * y);
    assert x % 2 == 1 ==> (2 * h + 1) * y == 2 * (h * y) + y;
  }

  /** What the three ranges of the logarithms' sum say of the product, and of the product without the lowest bit. */
  lemma Magnitude(x: nat, y: nat, w: nat)
    requires w > 0 && x <= Max(w) && y <= Max(w)
    ensures Log2(x) + Log2(y) < w - 1 ==> x * y < Pow2(w)
    ensures Log2(x) + Log2(y) > w - 1 ==> x * y >= Pow2(w)
    ensures Log2(x) + Log2(y) == w - 1 ==> x * y < 2 * Pow2(w)
  {
    if x == 0 || y == 0 {
      LogBelow(x, w);
      LogBelow(y, w);
      assert x * y == 0;
    } else {
      ProductBounds(x, y);
      Between(Log2(x) + Log2(y), x * y, w);
    }
  }

  /** A number of `s + 1` or `s + 2` bits against one of `w`. */
  lemma Between(s: nat, p: nat, w: nat)
    requires w > 0 && Pow2(s) <= p < Pow2(s + 2)
    ensures s < w - 1 ==> p < Pow2(w)
    ensures s > w - 1 ==> p >= Pow2(w)
    ensures s == w - 1 ==> p < 2 * Pow2(w)
  {
    if s < w - 1 {
      Pow2Monotone(s + 2, w);
    } else if s > w - 1 {
      Pow2Monotone(w, s);
    }
  }

  lemma LogBelow(x: nat, w: nat)
    requires w > 0 && x <= Max(w)
    ensures Log2(x) <= w - 1
  {
    if x > 0 && Log2(x) > w - 1 {
      Pow2Monotone(w, Log2(x));
      assert false;
    }
  }

  lemma LogOfMax(w: nat)
    requires w > 0
    ensures Log2(Max(w)) == w - 1
  {
    assert Pow2(w) == 2 * Pow2(w - 1);
    LogIs(Max(w), w - 1);
  }

  lemma {:induction false} LogIs(x: nat, k: nat)
    requires Pow2(k) <= x < 2 * Pow2(k)
    ensures Log2(x) == k
  {
    var l := Log2(x);
    if l < k {
      Pow2Monotone(l + 1, k);
    } else if k < l {
      Pow2Monotone(k + 1, l);
    }
  }

  /** The machine's product, when it does not wrap. */
  method TruncatedProduct(x: nat, y: nat, w: nat) returns (r: nat)
    requires x * y < Pow2(w)
    ensures r == x * y
  {
    var product := x * y;
    TruncSmall(product, w);
    r := Trunc(product, w);
  }

  method SaturatingMultiply(x: nat, y: nat, w: nat) returns (r: nat, overflowed: bool)
    requires 0 < w <= 64 && x <= Max(w) && y <= Max(w)
    ensures r == Min(x * y, Max(w)) && overflowed == (x * y > Max(w))
  {
    overflowed := false;
    var log2Z := Log2(x) + Log2(y);
    var log2Max := Log2(Max(w));
    LogOfMax(w);
    Magnitude(x, y, w);
    if log2Z < log2Max {
      r := TruncatedProduct(x, y, w);
      return r, false;
    }
    if log2Z > log2Max {
      return Max(w), true;
    }
    r, overflowed := MultiplyAtTop(x, y, w);
  }

  lemma TruncSmall(s: nat, w: nat)
    requires s < Pow2(w)
    ensures Trunc(s, w) == s
  {
    SmallMod(s, Pow2(w));
  }

  lemma SmallMod(s: nat, m: nat)
    requires s < m
    ensures s % m == s
  {
    Remainder(s, m, 0, s);
  }

  /** The case the logarithms leave open: the product has `w` or `w + 1` bits. */
  method MultiplyAtTop(x: nat, y: nat, w: nat) returns (r: nat, overflowed: bool)
    requires 0 < w && x <= Max(w) && y <= Max(w) && x * y < 2 * Pow2(w)
    ensures r == Min(x * y, Max(w)) && overflowed == (x * y > Max(w))
  {
    ghost var top, h := Pow2(w - 1), (x / 2) * y;
    SplitProduct(x, y);
    SmallMod(h, 2 * top);
    var z := Trunc((x / 2) * y, w);
    if z >= Pow2(w - 1) {
      return Max(w), true;
    }
    SmallMod(2 * z, 2 * top);
    z := Trunc(2 * z, w);
    if x % 2 == 1 {
      r, overflowed := SaturatingAdd(z, y, w);
      return;
    }
    return z, false;
  }

  method SaturatingMultiplyAdd(x: nat, y: nat, a: nat, w: nat) returns (r: nat, overflowed: bool)
    requires 0 < w <= 64 && x <= Max(w) && y <= Max(w) && a <= Max(w)
    ensures r == Min(x * y + a, Max(w)) && overflowed == (x * y + a > Max(w))
  {
    var product;
    product, overflowed := SaturatingMultiply(x, y, w);
    if overflowed {
      return product, true;
    }
    r, overflowed := SaturatingAdd(a, product, w);
  }
}
