/**
 * Powers of two and the bitwise operators on unbounded naturals that the
 * unsigned-integer rules of constant propagation are written with.
 */
module Arith {

  function Pow2(n: nat): (r: nat)
    ensures r >= 1
  {
    if n == 0 then 1 else 2 * Pow2(n - 1)
  }

  /** Division of naturals, kept apart so that its result is known to be a natural once. */
  function Quotient(a: nat, b: nat): nat
    requires b > 0
  {
    a / b
  }

  lemma {:induction false} Pow2Add(a: nat, b: nat)
    ensures Pow2(a + b) == Pow2(a) * Pow2(b)
  {
    if b > 0 {
      Pow2Add(a, b - 1);
      assert Pow2(a + b) == 2 * Pow2(a + b - 1);
    }
  }

  lemma Pow2Of16()
    ensures Pow2(8) == 0x100 && Pow2(16) == 0x1_0000
  {
    assert Pow2(8) == 0x100;
    Pow2Add(8, 8);
  }

  lemma Pow2Of32()
    ensures Pow2(32) == 0x1_0000_0000
  {
    Pow2Of16();
    Pow2Add(16, 16);
  }

  lemma Pow2Of64()
    ensures Pow2(64) == 0x1_0000_0000_0000_0000
  {
    Pow2Of32();
    Pow2Add(32, 32);
  }

  lemma Pow2Of128()
    ensures Pow2(128) == 0x1_0000_0000_0000_0000_0000_0000_0000_0000
  {
    Pow2Of64();
    Pow2Add(64, 64);
  }

  lemma {:induction false} Pow2Monotone(a: nat, b: nat)
    requires a <= b
    ensures Pow2(a) <= Pow2(b)
  {
    if a < b {
      Pow2Monotone(a, b - 1);
    }
  }

  lemma MulAtLeast(d: int, t: int)
    requires d > 0 && t >= 1
    ensures d * t >= d
  {
  }

  lemma DivLe(a: nat, b: nat)
    requires b > 0
    ensures a / b <= a
  {
    var q := a / b;
    assert a == b * q + a % b;
    if q > 0 {
      MulAtLeast(q, b);
      assert q * b == b * q;
    }
  }

  lemma RemLe(a: nat, b: nat)
    requires b > 0
    ensures a % b <= a
  {
    if a < b {
      ModUnique(a, b, 0, a);
    }
  }

  /** Uniqueness of Euclidean division: the only remainder below `d` is `x % d`. */
  lemma ModUnique(x: int, d: int, q: int, r: int)
    requires d > 0 && x == d * q + r && 0 <= r < d
    ensures x % d == r && x / d == q
  {
    var q', r' := x / d, x % d;
    assert d * (q' - q) == r - r' by {
      assert d * q' + r' == d * q + r;
      assert d * (q' - q) == d * q' - d * q;
    }
    if q' - q >= 1 {
      MulAtLeast(d, q' - q);
      assert false;
    } else if q - q' >= 1 {
      MulAtLeast(d, q - q');
      assert false;
    }
  }

  /** Adding a multiple of `d` does not change the remainder. */
  lemma ModAddMultiple(x: int, d: int, m: int, r: int)
    requires d > 0 && x == d * m + r
    ensures x % d == r % d
  {
    var q2, r2 := r / d, r % d;
    assert r == d * q2 + r2;
    assert x == d * (m + q2) + r2 by {
      assert d * (m + q2) == d * m + d * q2;
    }
    ModUnique(x, d, m + q2, r2);
  }

  lemma ModDouble(x: nat, p: nat)
    requires p > 0
    ensures x % (2 * p) == 2 * ((x / 2) % p) + x % 2
  {
    var q, r := x / 2, x % 2;
    var a, b := q / p, q % p;
    assert q == p * a + b;
    assert x == (2 * p) * a + (2 * b + r);
    ModUnique(x, 2 * p, a, 2 * b + r);
  }

  /** Reducing modulo a multiple of `d` first does not change the remainder modulo `d`. */
  lemma ModNested(x: int, d: int, k: int)
    requires d > 0 && k > 0
    ensures x % (d * k) % d == x % d
  {
    var q, r := x / (d * k), x % (d * k);
    assert (d * k) * q == d * (k * q);
    ModAddMultiple(x, d, k * q, r);
  }

  /** Reducing modulo a larger power of two first does not change the result. */
  lemma ModPow2Nested(x: int, a: nat, b: nat)
    requires a <= b
    ensures x % Pow2(b) % Pow2(a) == x % Pow2(a)
  {
    Pow2Add(a, b - a);
    ModNested(x, Pow2(a), Pow2(b - a));
  }

  /** Bitwise AND of the binary expansions. */
  function BitAnd(a: nat, b: nat): nat
  {
    if a == 0 || b == 0 then 0
    else 2 * BitAnd(a / 2, b / 2) + (if a % 2 == 1 && b % 2 == 1 then 1 else 0)
  }

  /** Bitwise exclusive OR of the binary expansions. */
  function BitXor(a: nat, b: nat): nat
  {
    if a == 0 then b
    else if b == 0 then a
    else 2 * BitXor(a / 2, b / 2) + (if a % 2 != b % 2 then 1 else 0)
  }

  lemma BitAndOddStep(x: nat, m: nat)
    requires x > 0 && m % 2 == 1
    ensures BitAnd(x, m) == 2 * BitAnd(x / 2, m / 2) + x % 2
  {
  }

  /** Masking with `2^k - 1` keeps the `k` low bits. */
  lemma {:induction false} BitAndMask(x: nat, k: nat)
    ensures BitAnd(x, Pow2(k) - 1) == x % Pow2(k)
  {
    if k == 0 {
      assert Pow2(k) - 1 == 0;
    } else if x == 0 {
    } else {
      BitAndMask(x / 2, k - 1);
      BitAndMaskStep(x, Pow2(k - 1), Pow2(k), Pow2(k) - 1);
    }
  }

  /** The mask one bit wider keeps one more low bit. */
  lemma BitAndMaskStep(x: nat, p: nat, q: nat, m: nat)
    requires x > 0 && p >= 1 && q == 2 * p && m == q - 1
    requires BitAnd(x / 2, p - 1) == (x / 2) % p
    ensures BitAnd(x, m) == x % q
  {
    assert m % 2 == 1 && m / 2 == p - 1 by { ModUnique(m, 2, p - 1, 1); }
    assert BitAnd(x, m) == 2 * BitAnd(x / 2, p - 1) + x % 2 by { BitAndOddStep(x, m); }
    assert x % q == 2 * ((x / 2) % p) + x % 2 by { ModDouble(x, p); }
  }

  /** A value masked with `2^k - 1` is below `2^k`. */
  lemma MaskBelow(x: nat, k: nat)
    ensures BitAnd(x, Pow2(k) - 1) < Pow2(k)
  {
    BitAndMask(x, k);
  }

  lemma {:induction false} BitAndBelow(a: nat, b: nat, k: nat)
    requires a < Pow2(k)
    ensures BitAnd(a, b) < Pow2(k)
  {
    if a != 0 && b != 0 {
      assert k > 0;
      BitAndBelow(a / 2, b / 2, k - 1);
    }
  }

  lemma {:induction false} BitXorSelf(x: nat)
    ensures BitXor(x, x) == 0
  {
    if x > 0 {
      BitXorSelf(x / 2);
    }
  }

  lemma {:induction false} BitXorBelow(a: nat, b: nat, k: nat)
    requires a < Pow2(k) && b < Pow2(k)
    ensures BitXor(a, b) < Pow2(k)
  {
    if a != 0 && b != 0 {
      assert k > 0;
      BitXorBelow(a / 2, b / 2, k - 1);
    }
  }
}
