/** Serial numbers (SequenceNumber.h, SequenceNumber.cpp): 16-bit counters compared as in RFC 1982. */
module Serials {
  const MODULUS := 0x1_0000
  const HALF := 0x8000

  type Serial = x: nat | x < MODULUS

  /** operator< */
  predicate Less(a: Serial, b: Serial) {
    if a < b then b - a < HALF
    else if a > b then a - b > HALF
    else false
  }

  /** operator> */
  predicate Greater(a: Serial, b: Serial) {
    if a < b then b - a > HALF
    else if a > b then a - b < HALF
    else false
  }

  /** operator<= */
  predicate LessEq(a: Serial, b: Serial) {
    a == b || Less(a, b)
  }

  /** operator++ */
  function Next(a: Serial): Serial {
    if a + 1 > 0xffff then 0 else a + 1
  }

  /** How many increments lead from `a` to `b`. */
  function Distance(a: Serial, b: Serial): Serial {
    (b - a) % MODULUS
  }

  /** The serial of a counter that has been incremented `n` times since zero. */
  function Wrap(n: nat): Serial {
    n % MODULUS
  }

  /** `b` is after `a` exactly when fewer than 2^15 increments lead there; > mirrors <; exactly the pair at
      distance 2^15 is left unordered. */
  lemma OrderIsDistance(a: Serial, b: Serial)
    ensures Less(a, b) <==> 0 < Distance(a, b) < HALF
    ensures Greater(a, b) <==> Less(b, a)
    ensures (a != b && !Less(a, b) && !Less(b, a)) <==> Distance(a, b) == HALF
  {
    if a <= b {
      assert (b - a) % MODULUS == b - a;
    } else {
      assert (b - a) % MODULUS == b - a + MODULUS;
    }
  }

  lemma WrapDistance(m: nat, n: nat)
    requires m <= n < m + MODULUS
    ensures Distance(Wrap(m), Wrap(n)) == n - m
  {
    var a, b := m / MODULUS, n / MODULUS;
    assert m == a * MODULUS + Wrap(m) && n == b * MODULUS + Wrap(n);
    assert a <= b <= a + 1;
  }

  /** Counters less than 2^15 apart compare as the unbounded counters they stand for. */
  lemma WindowOrder(m: nat, n: nat)
    requires m < n + HALF && n < m + HALF
    ensures Less(Wrap(m), Wrap(n)) <==> m < n
    ensures Wrap(m) == Wrap(n) <==> m == n
  {
    if m <= n {
      WrapDistance(m, n);
      OrderIsDistance(Wrap(m), Wrap(n));
    } else {
      WrapDistance(n, m);
      OrderIsDistance(Wrap(m), Wrap(n));
      OrderIsDistance(Wrap(n), Wrap(m));
    }
  }

  lemma NextIsOneAhead(n: nat)
    ensures Next(Wrap(n)) == Wrap(n + 1)
    ensures Distance(Wrap(n), Next(Wrap(n))) == 1 && Less(Wrap(n), Next(Wrap(n)))
  {
    WrapDistance(n, n + 1);
    var a, b := n / MODULUS, (n + 1) / MODULUS;
    assert n == a * MODULUS + Wrap(n) && n + 1 == b * MODULUS + Wrap(n + 1);
    OrderIsDistance(Wrap(n), Wrap(n + 1));
  }

  /** Seen from `s`, a serial is behind exactly when more than 2^15 increments lead to it: one at distance exactly
      2^15 counts as ahead. */
  lemma BehindIsDistance(s: Serial, x: Serial)
    ensures Less(x, s) <==> Distance(s, x) > HALF
    ensures LessEq(x, s) <==> Distance(s, x) == 0 || Distance(s, x) > HALF
  {
    if s <= x {
      assert (x - s) % MODULUS == x - s;
    } else {
      assert (x - s) % MODULUS == x - s + MODULUS;
    }
  }
}
