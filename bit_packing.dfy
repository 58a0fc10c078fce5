/**
 * Packing and unpacking of bits by the constant propagator: an unsigned
 * integer of `w` bits is the sum of `2^(w - i - 1)` over its set bits `i`,
 * most significant bit first. `UToBits` and `Unpack` compute the bits with a
 * loop that peels off powers of two from the top.
 */
module BitPacking {
  import opened Arith
  import opened Typed
  import Field

  /**
   * `process_u_from_bits`: a left fold over the bits in order, adding the
   * weight `2^(w - i - 1)` of each set bit `i`.
   */
  function FromBits(bits: seq<bool>, w: nat): nat
    requires |bits| <= w
    decreases |bits|
  {
    if bits == [] then 0
    else
      var i := |bits| - 1;
      FromBits(bits[..i], w) + (if bits[i] then Pow2(w - i - 1) else 0)
  }

  /** Appending one bit adds its weight. */
  lemma FromBitsSnoc(bits: seq<bool>, b: bool, w: nat)
    requires |bits| < w
    ensures FromBits(bits + [b], w) == FromBits(bits, w) + (if b then Pow2(w - |bits| - 1) else 0)
  {
    assert (bits + [b])[..|bits|] == bits;
  }

  /** The bits not yet written leave room for exactly `2^(w - |bits|)` more. */
  lemma {:induction false} FromBitsBound(bits: seq<bool>, w: nat)
    requires |bits| <= w
    ensures FromBits(bits, w) + Pow2(w - |bits|) <= Pow2(w)
    decreases |bits|
  {
    if bits != [] {
      var i := |bits| - 1;
      FromBitsBound(bits[..i], w);
      assert Pow2(w - i) == 2 * Pow2(w - i - 1);
    }
  }

  /** The value of `w` bits is below `2^w`. */
  lemma FromBitsBelow(bits: seq<bool>, w: nat)
    requires |bits| <= w
    ensures FromBits(bits, w) < Pow2(w)
  {
    FromBitsBound(bits, w);
  }

  /** Reading the fold from the front: the first bit weighs `2^(w - 1)`. */
  lemma {:induction false} FromBitsHead(bits: seq<bool>, w: nat)
    requires 1 <= |bits| <= w
    ensures FromBits(bits, w) == (if bits[0] then Pow2(w - 1) else 0) + FromBits(bits[1..], w - 1)
    decreases |bits|
  {
    var i := |bits| - 1;
    if i > 0 {
      FromBitsHead(bits[..i], w);
      assert bits[..i][1..] == bits[1..][..i - 1];
      assert bits[..i][0] == bits[0];
      assert bits[1..][i - 1] == bits[i];
    } else {
      assert bits[..i] == [] && bits[1..] == [];
    }
  }

  /** Bit sequences of the same length with the same value are equal: the representation is unique. */
  lemma {:induction false} FromBitsInjective(a: seq<bool>, b: seq<bool>, w: nat)
    requires |a| == |b| <= w && FromBits(a, w) == FromBits(b, w)
    ensures a == b
    decreases |a|
  {
    if a != [] {
      FromBitsHead(a, w);
      FromBitsHead(b, w);
      FromBitsBelow(a[1..], w - 1);
      FromBitsBelow(b[1..], w - 1);
      assert a[0] == b[0];
      FromBitsInjective(a[1..], b[1..], w - 1);
      assert a == [a[0]] + a[1..] && b == [b[0]] + b[1..];
    }
  }

  /**
   * `process_u_to_bits`: the `w` bits of `v`, most significant first. The
   * source asserts that nothing remains of `v` afterwards, which holds
   * because `v` fits in `w` bits.
   */
  method UToBits(v: nat, w: nat) returns (bits: seq<bool>)
    requires v < Pow2(w)
    ensures |bits| == w && FromBits(bits, w) == v
  {
    var num: nat := v;
    var i := w;
    bits := [];
    while i > 0
      invariant 0 <= i <= w && |bits| == w - i
      invariant num < Pow2(i)
      invariant FromBits(bits, w) + num == v
    {
      i := i - 1;
      FromBitsSnoc(bits, Pow2(i) <= num, w);
      if Pow2(i) <= num {
        num := num - Pow2(i);
        bits := bits + [true];
      } else {
        bits := bits + [false];
      }
    }
    assert Pow2(0) == 1;
    assert num == 0;
  }

  lemma Pow2Of192()
    ensures Pow2(192) == 0x1_0000_0000_0000_0000_0000_0000_0000_0000_0000_0000_0000_0000
  {
    Pow2Of128();
    Pow2Of64();
    Pow2Add(128, 64);
  }

  lemma Pow2Of224()
    ensures Pow2(224) == 0x1_0000_0000_0000_0000_0000_0000_0000_0000_0000_0000_0000_0000_0000_0000
  {
    Pow2Of192();
    Pow2Of32();
    Pow2Add(192, 32);
  }

  lemma Pow2Of248()
    ensures Pow2(248) == 0x100_0000_0000_0000_0000_0000_0000_0000_0000_0000_0000_0000_0000_0000_0000_0000
  {
    Pow2Of224();
    Pow2Of16();
    Pow2Add(224, 16);
    Pow2Add(240, 8);
  }

  lemma Pow2Of253()
    ensures Pow2(253) == 0x2000_0000_0000_0000_0000_0000_0000_0000_0000_0000_0000_0000_0000_0000_0000_0000
  {
    Pow2Of248();
    assert Pow2(5) == 32;
    Pow2Add(248, 5);
  }

  lemma Pow2BelowModulus(k: nat)
    requires k <= 253
    ensures Pow2(k) < Field.Modulus
  {
    Pow2Of253();
    Pow2Monotone(k, 253);
  }

  /**
   * The `Unpack` embed on a field constant: the same loop as `UToBits`,
   * with powers of two and subtraction taken in the field. What is left in
   * `acc` is zero exactly when `n` fits in `bitWidth` bits, and then the
   * bits recompose to `n`. Field elements have at most 254 bits.
   */
  method Unpack(n: nat, bitWidth: nat) returns (bits: seq<bool>, acc: nat)
    ensures |bits| == bitWidth
    ensures Field.IsElement(n) && bitWidth <= 254 ==>
      (acc == 0 <==> n < Pow2(bitWidth)) && (acc == 0 ==> FromBits(bits, bitWidth) == n)
  {
    ghost var exact := Field.IsElement(n) && bitWidth <= 254;
    acc := n;
    var i := bitWidth;
    bits := [];
    while i > 0
      invariant 0 <= i <= bitWidth && |bits| == bitWidth - i
      invariant exact ==> Field.IsElement(acc) && FromBits(bits, bitWidth) + acc == n
      invariant exact && n < Pow2(bitWidth) ==> acc < Pow2(i)
      invariant exact && n >= Pow2(bitWidth) ==> acc >= Pow2(i)
    {
      i := i - 1;
      var p := Field.Pow(2, i);
      if exact {
        Pow2BelowModulus(i);
        Field.PowTwoExact(i);
        FromBitsSnoc(bits, p <= acc, bitWidth);
      }
      if p <= acc {
        acc := Field.Sub(acc, p);
        bits := bits + [true];
      } else {
        bits := bits + [false];
      }
    }
  }

  // ---------------------------------------------------------------------
  // Bits as array literals of booleans
  // ---------------------------------------------------------------------

  predicate IsBitArray(e: Expr) {
    e.ArrayValue? && forall i | 0 <= i < |e.elems| :: e.elems[i].Item? && e.elems[i].expr.BoolValue?
  }

  function ArrayBits(e: Expr): (bits: seq<bool>)
    requires IsBitArray(e)
    ensures |bits| == |e.elems|
    ensures forall i | 0 <= i < |bits| :: e.elems[i] == Item(BoolValue(bits[i]))
  {
    seq(|e.elems|, i requires 0 <= i < |e.elems| => e.elems[i].expr.b)
  }

  function BitsArray(bits: seq<bool>): (e: Expr)
    ensures IsBitArray(e) && IsCanonical(e) && ArrayBits(e) == bits
  {
    ArrayValue(seq(|bits|, i requires 0 <= i < |bits| => Item(BoolValue(bits[i]))))
  }
}
