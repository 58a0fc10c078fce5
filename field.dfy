/**
 * The prime field of the BN128 curve that ZoKrates programs compute in by
 * default. Elements are the naturals below `Modulus`; every operation
 * returns a reduced element.
 */
module Field {
  import opened Arith

  const Modulus: nat := 21888242871839275222246405745257275088548364400416034343698204186575808495617

  predicate IsElement(n: nat) {
    n < Modulus
  }

  function Add(a: nat, b: nat): (r: nat)
    ensures IsElement(r)
  {
    (a + b) % Modulus
  }

  function Sub(a: nat, b: nat): (r: nat)
    ensures IsElement(r)
    ensures IsElement(a) && b <= a ==> r == a - b
  {
    (a - b) % Modulus
  }

  function Mul(a: nat, b: nat): (r: nat)
    ensures IsElement(r)
  {
    (a * b) % Modulus
  }

  /** `T::zero() - n` */
  function Neg(a: nat): (r: nat)
    ensures IsElement(r)
    ensures IsElement(a) ==> Add(a, r) == 0
  {
    var r := (0 - a) % Modulus;
    assert IsElement(a) ==> (a + r) % Modulus == 0 by {
      if IsElement(a) {
        if a == 0 {
          assert r == 0;
        } else {
          ModUnique(0 - a, Modulus, -1, Modulus - a);
        }
      }
    }
    r
  }

  /** Exponentiation by repeated multiplication, `b^e` reduced modulo the prime. */
  function Pow(b: nat, e: nat): (r: nat)
    ensures IsElement(r)
  {
    if e == 0 then 1 else Mul(b, Pow(b, e - 1))
  }

  /** Inverse by Fermat's little theorem; the inverse of zero is zero. */
  function Inverse(b: nat): (r: nat)
    ensures IsElement(r)
  {
    Pow(b, Modulus - 2)
  }

  function Div(a: nat, b: nat): (r: nat)
    ensures IsElement(r)
  {
    Mul(a, Inverse(b))
  }

  lemma MulModRight(a: nat, b: nat)
    ensures (a * (b % Modulus)) % Modulus == (a * b) % Modulus
  {
    var q, r := b / Modulus, b % Modulus;
    assert a * b == Modulus * (a * q) + a * r by {
      assert b == Modulus * q + r;
    }
    ModAddMultiple(a * b, Modulus, a * q, a * r);
  }

  /** Powers of two in the field are the integer powers of two, reduced. */
  lemma {:induction false} PowTwo(i: nat)
    ensures Pow(2, i) == Pow2(i) % Modulus
  {
    if i > 0 {
      PowTwo(i - 1);
      MulModRight(2, Pow2(i - 1));
    }
  }

  /** Below the modulus, field powers of two are exact. */
  lemma PowTwoExact(i: nat)
    requires Pow2(i) < Modulus
    ensures Pow(2, i) == Pow2(i)
  {
    PowTwo(i);
  }

  /** The difference of two elements is zero exactly when they are equal. */
  lemma SubZero(a: nat, b: nat)
    requires IsElement(a) && IsElement(b)
    ensures Sub(a, b) == 0 <==> a == b
  {
    if a < b {
      ModUnique(a - b, Modulus, -1, a - b + Modulus);
    } else if a > b {
      ModUnique(a - b, Modulus, 0, a - b);
    }
  }
}
