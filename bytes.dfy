/**
 * Bytes, little-endian encodings of naturals, and the 32-bit signed
 * integers that the setup records are written with.
 */
module Bytes {

  import Arith

  type Byte = x: int | 0 <= x < 256

  function Zeros(n: nat): (r: seq<Byte>)
    ensures |r| == n && forall i | 0 <= i < n :: r[i] == 0
  {
    if n == 0 then [] else [0] + Zeros(n - 1)
  }

  function Reverse(s: seq<Byte>): (r: seq<Byte>)
    ensures |r| == |s| && forall i | 0 <= i < |s| :: r[i] == s[|s| - 1 - i]
  {
    if s == [] then [] else Reverse(s[1..]) + [s[0]]
  }

  lemma {:induction false} ReverseAppend(a: seq<Byte>, b: seq<Byte>)
    ensures Reverse(a + b) == Reverse(b) + Reverse(a)
  {
    if a != [] {
      ReverseAppend(a[1..], b);
      assert (a + b)[1..] == a[1..] + b;
    } else {
      assert a + b == b;
    }
  }

  lemma {:induction false} ReverseReverse(s: seq<Byte>)
    ensures Reverse(Reverse(s)) == s
  {
    if s != [] {
      ReverseReverse(s[1..]);
      ReverseAppend(Reverse(s[1..]), [s[0]]);
      assert Reverse([s[0]]) == [s[0]];
      assert s == [s[0]] + s[1..];
    }
  }

  lemma {:induction false} ReverseZeros(n: nat)
    ensures Reverse(Zeros(n)) == Zeros(n)
  {
    if n > 0 {
      ReverseZeros(n - 1);
      ReverseAppend([0], Zeros(n - 1));
      assert Reverse([0]) == [0];
      assert Zeros(n - 1) + [0] == [0] + Zeros(n - 1) by {
        ZerosSnoc(n - 1);
      }
    }
  }

  lemma {:induction false} ZerosSnoc(n: nat)
    ensures Zeros(n) + [0] == [0] + Zeros(n)
  {
    if n > 0 {
      ZerosSnoc(n - 1);
      assert Zeros(n) + [0] == [0] + (Zeros(n - 1) + [0]);
    }
  }

  function Pow256(n: nat): (r: nat)
    ensures r >= 1
  {
    if n == 0 then 1 else 256 * Pow256(n - 1)
  }

  /** The `n` low bytes of `u`, least significant first. */
  function LeBytes(u: nat, n: nat): (r: seq<Byte>)
    ensures |r| == n
  {
    if n == 0 then [] else [u % 256] + LeBytes(u / 256, n - 1)
  }

  /** The natural whose little-endian bytes are `bs`. */
  function FromLe(bs: seq<Byte>): nat {
    if bs == [] then 0 else bs[0] + 256 * FromLe(bs[1..])
  }

  lemma {:induction false} FromLeBound(bs: seq<Byte>)
    ensures FromLe(bs) < Pow256(|bs|)
  {
    if bs != [] {
      FromLeBound(bs[1..]);
    }
  }

  /** Decoding the bytes of a number that fits gives the number back. */
  lemma {:induction false} LeBytesRoundTrip(u: nat, n: nat)
    requires u < Pow256(n)
    ensures FromLe(LeBytes(u, n)) == u
  {
    if n > 0 {
      LeBytesRoundTrip(u / 256, n - 1);
      assert LeBytes(u, n)[1..] == LeBytes(u / 256, n - 1);
    }
  }

  /** Encoding the value of some bytes gives the bytes back. */
  lemma {:induction false} FromLeRoundTrip(bs: seq<Byte>)
    ensures LeBytes(FromLe(bs), |bs|) == bs
  {
    if bs != [] {
      var rest := FromLe(bs[1..]);
      FromLeRoundTrip(bs[1..]);
      Arith.ModUnique(FromLe(bs), 256, rest, bs[0]);
      assert LeBytes(FromLe(bs), |bs|) == [bs[0]] + LeBytes(rest, |bs| - 1);
    }
  }

  /** Trailing zero bytes do not change the value. */
  lemma {:induction false} FromLeZeros(bs: seq<Byte>, n: nat)
    ensures FromLe(bs + Zeros(n)) == FromLe(bs)
    decreases |bs|, n
  {
    if bs == [] {
      assert bs + Zeros(n) == Zeros(n);
      if n > 0 {
        assert Zeros(n)[1..] == Zeros(n - 1);
        FromLeZeros([], n - 1);
        assert [] + Zeros(n - 1) == Zeros(n - 1);
        assert FromLe(Zeros(n)) == Zeros(n)[0] + 256 * FromLe(Zeros(n - 1));
      }
    } else {
      assert (bs + Zeros(n))[1..] == bs[1..] + Zeros(n);
      FromLeZeros(bs[1..], n);
    }
  }

  // ---------------------------------------------------------------------
  // 32-bit signed integers
  // ---------------------------------------------------------------------

  const I32Modulus: nat := 4294967296

  predicate IsI32(v: int) {
    -2147483648 <= v < 2147483648
  }

  /** `x as i32`: the low 32 bits of `x`, read in two's complement. */
  function AsI32(x: int): (r: int)
    ensures IsI32(r)
    ensures 0 <= x < 2147483648 ==> r == x
  {
    var u := x % I32Modulus;
    if u < 2147483648 then u else u - I32Modulus
  }

  /** `v.to_le().to_ne_bytes()` on a little-endian host: the two's-complement bytes, least significant first. */
  function I32ToLeBytes(v: int): (r: seq<Byte>)
    requires IsI32(v)
    ensures |r| == 4
  {
    LeBytes(v % I32Modulus, 4)
  }

  function I32FromLeBytes(bs: seq<Byte>): (v: int)
    requires |bs| == 4
    ensures IsI32(v)
  {
    FromLeBound(bs);
    var u := FromLe(bs);
    if u < 2147483648 then u else u - I32Modulus
  }

  /** The four bytes of a 32-bit integer decode back to it. */
  lemma I32RoundTrip(v: int)
    requires IsI32(v)
    ensures I32FromLeBytes(I32ToLeBytes(v)) == v
  {
    var u := v % I32Modulus;
    assert Pow256(4) == I32Modulus;
    LeBytesRoundTrip(u, 4);
    if v < 0 {
      assert u == v + I32Modulus;
    }
  }
}
