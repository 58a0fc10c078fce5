/**
 * The expression rules of the constant propagator: each `Fold...` rule
 * receives operands that are already folded and rebuilds, simplifies or
 * evaluates the node; `Fold` applies them bottom-up with the constants map.
 */
module Propagation {
  import opened Wrappers
  import opened Arith
  import opened Typed
  import Field

  /** The errors constant propagation reports; messages are kept as the offending data. */
  datatype Error =
    | TypeError
    | AssertionFailed(condition: Expr)
    | ValueTooLarge(value: nat, bitWidth: nat)
    | OutOfBounds(index: nat, size: nat)
    | NonConstantExponent(exponent: Expr)

  type Constants = map<Ident, Expr>

  /** 2^128, written out so that the verifier does not compute it from `Pow2`. */
  const U128Modulus: nat := 0x1_0000_0000_0000_0000_0000_0000_0000_0000

  lemma U128ModulusIsPow2()
    ensures Pow2(128) == U128Modulus
  {
    Pow2Of128();
  }

  /** Reduction modulo 2^128, the wrap-around of the `u128` the values are computed in. */
  function WrapU128(x: int): (r: nat)
    ensures r < U128Modulus
  {
    x % U128Modulus
  }

  // ---------------------------------------------------------------------
  // Unsigned integers
  // ---------------------------------------------------------------------

  function FoldAdd(bw: Bitwidth, l: Expr, r: Expr): Expr {
    if l.UintValue? && r.UintValue? then UintValue(bw, Wrap(bw, l.v + r.v))
    else if r.UintValue? then
      (if r.v == 0 then l else UintBinary(bw, UAdd, l, UintValue(bw, r.v)))
    else if l.UintValue? then
      (if l.v == 0 then r else UintBinary(bw, UAdd, r, UintValue(bw, l.v)))
    else UintBinary(bw, UAdd, l, r)
  }

  /** Constant operands are subtracted with `u128` wrap-around, then reduced to `bw` bits. */
  function FoldSub(bw: Bitwidth, l: Expr, r: Expr): Expr {
    if l.UintValue? && r.UintValue? then UintValue(bw, Wrap(bw, WrapU128(l.v - r.v)))
    else if r.UintValue? then
      (if r.v == 0 then l else UintBinary(bw, USub, l, UintValue(bw, r.v)))
    else UintBinary(bw, USub, l, r)
  }

  /**
   * Floor subtraction as the source writes it: when neither operand is a
   * known constant on the right the node is rebuilt as a wrapping `Sub`.
   */
  function FoldFloorSubAsWritten(bw: Bitwidth, l: Expr, r: Expr): Expr {
    if l.UintValue? && r.UintValue? then
      UintValue(bw, Wrap(bw, if r.v <= l.v then l.v - r.v else 0))
    else if r.UintValue? then
      (if r.v == 0 then l else UintBinary(bw, UFloorSub, l, UintValue(bw, r.v)))
    else UintBinary(bw, USub, l, r)
  }

  /** Floor subtraction with the fallthrough rebuilding a `FloorSub`, as the other branches do. */
  function FoldFloorSub(bw: Bitwidth, l: Expr, r: Expr): Expr {
    if l.UintValue? && r.UintValue? then
      UintValue(bw, Wrap(bw, if r.v <= l.v then l.v - r.v else 0))
    else if r.UintValue? then
      (if r.v == 0 then l else UintBinary(bw, UFloorSub, l, UintValue(bw, r.v)))
    else UintBinary(bw, UFloorSub, l, r)
  }

  function FoldMult(bw: Bitwidth, l: Expr, r: Expr): Expr {
    if l.UintValue? && r.UintValue? then UintValue(bw, Wrap(bw, l.v * r.v))
    else if r.UintValue? then
      (if r.v == 0 then UintValue(bw, 0)
       else if r.v == 1 then l
       else UintBinary(bw, UMult, l, UintValue(bw, r.v)))
    else if l.UintValue? then
      (if l.v == 0 then UintValue(bw, 0)
       else if l.v == 1 then r
       else UintBinary(bw, UMult, r, UintValue(bw, l.v)))
    else UintBinary(bw, UMult, l, r)
  }

  /** A constant division by zero is left unevaluated. */
  function FoldDiv(bw: Bitwidth, l: Expr, r: Expr): Expr {
    if l.UintValue? && r.UintValue? && r.v != 0 then UintValue(bw, Wrap(bw, l.v / r.v))
    else if r.UintValue? && !l.UintValue? then
      (if r.v == 1 then l else UintBinary(bw, UDiv, l, UintValue(bw, r.v)))
    else UintBinary(bw, UDiv, l, r)
  }

  /** A constant remainder by zero is left unevaluated. */
  function FoldRem(bw: Bitwidth, l: Expr, r: Expr): Expr {
    if l.UintValue? && r.UintValue? && r.v != 0 then UintValue(bw, Wrap(bw, l.v % r.v))
    else if r.UintValue? && !l.UintValue? then
      (if r.v == 1 then UintValue(bw, 0) else UintBinary(bw, URem, l, UintValue(bw, r.v)))
    else UintBinary(bw, URem, l, r)
  }

  function FoldRightShift(bw: Bitwidth, l: Expr, r: Expr): Expr {
    if l.UintValue? && r.UintValue? then UintValue(bw, Quotient(l.v, Pow2(r.v)))
    else UintBinary(bw, URightShift, l, r)
  }

  /** `x & (2^bw - 1)`: the mask the folded shifts and complements apply, which keeps them in range. */
  function Masked(bw: Bitwidth, x: nat): (r: nat)
    ensures r < bw.Modulus()
  {
    ModulusIsPow2(bw);
    LowBits(x, bw.Bits())
  }

  /** `x & (2^k - 1)`. */
  function LowBits(x: nat, k: nat): (r: nat)
    ensures r < Pow2(k)
  {
    MaskBelow(x, k);
    BitAnd(x, Pow2(k) - 1)
  }

  /** `(v << by) & (2^bw - 1)` with `<<` on `u128`. */
  function FoldLeftShift(bw: Bitwidth, l: Expr, r: Expr): Expr {
    if l.UintValue? && r.UintValue? then
      UintValue(bw, Masked(bw, WrapU128(l.v * Pow2(r.v))))
    else UintBinary(bw, ULeftShift, l, r)
  }

  function FoldXor(bw: Bitwidth, l: Expr, r: Expr): Expr {
    if l.UintValue? && r.UintValue? then UintValue(bw, BitXor(l.v, r.v))
    else if l.UintValue? && l.v == 0 then r
    else if r.UintValue? && r.v == 0 then l
    else if l == r then UintValue(bw, 0)
    else UintBinary(bw, UXor, l, r)
  }

  function FoldUintAnd(bw: Bitwidth, l: Expr, r: Expr): Expr {
    if l.UintValue? && r.UintValue? then UintValue(bw, BitAnd(l.v, r.v))
    else if (l.UintValue? && l.v == 0) || (r.UintValue? && r.v == 0) then UintValue(bw, 0)
    else UintBinary(bw, UAnd, l, r)
  }

  /** The uint binary rules, with floor subtraction as corrected. */
  function FoldUintBinary(bw: Bitwidth, op: UintOp, l: Expr, r: Expr): Expr {
    match op
    case UAdd => FoldAdd(bw, l, r)
    case USub => FoldSub(bw, l, r)
    case UFloorSub => FoldFloorSub(bw, l, r)
    case UMult => FoldMult(bw, l, r)
    case UDiv => FoldDiv(bw, l, r)
    case URem => FoldRem(bw, l, r)
    case URightShift => FoldRightShift(bw, l, r)
    case ULeftShift => FoldLeftShift(bw, l, r)
    case UXor => FoldXor(bw, l, r)
    case UAnd => FoldUintAnd(bw, l, r)
  }

  /** `!v` on `u128` masked to `bw` bits, wrapping negation, and unary plus. */
  function FoldUintUnary(bw: Bitwidth, op: UintUnaryOp, x: Expr): Expr {
    if !x.UintValue? then UintUnary(bw, op, x)
    else
      match op
      case UNot => UintValue(bw, Masked(bw, WrapU128(U128Modulus - 1 - x.v)))
      case UNeg => UintValue(bw, Wrap(bw, WrapU128(0 - x.v)))
      case UPos => UintValue(bw, x.v)
  }

  // ---------------------------------------------------------------------
  // Field elements
  // ---------------------------------------------------------------------

  /** A constant field division by zero is left unevaluated. */
  function FoldFieldBinary(op: FieldOp, l: Expr, r: Expr): Expr {
    if l.FieldValue? && r.FieldValue? && !(op == FDiv && r.n == 0) then
      match op
      case FAdd => FieldValue(Field.Add(l.n, r.n))
      case FSub => FieldValue(Field.Sub(l.n, r.n))
      case FMult => FieldValue(Field.Mul(l.n, r.n))
      case FDiv => FieldValue(Field.Div(l.n, r.n))
    else FieldBinary(op, l, r)
  }

  function FoldFieldNeg(x: Expr): Expr {
    if x.FieldValue? then FieldValue(Field.Neg(x.n)) else FieldNeg(x)
  }

  function FoldFieldPos(x: Expr): Expr {
    if x.FieldValue? then x else FieldPos(x)
  }

  /** A power needs a constant exponent; exponent zero gives one whatever the base. */
  function FoldFieldPow(b: Expr, x: Expr): Result<Expr, Error> {
    if x.UintValue? && x.v == 0 then Ok(FieldValue(1))
    else if b.FieldValue? && x.UintValue? then Ok(FieldValue(Field.Pow(b.n, x.v)))
    else if x.UintValue? then Ok(FieldPow(b, UintValue(B32, x.v)))
    else Err(NonConstantExponent(x))
  }

  // ---------------------------------------------------------------------
  // Booleans
  // ---------------------------------------------------------------------

  function FoldFieldCompare(op: CompareOp, l: Expr, r: Expr): Expr {
    if l.FieldValue? && r.FieldValue? then BoolValue(Compare(op, l.n, r.n))
    else FieldCompare(op, l, r)
  }

  function FoldUintCompare(op: CompareOp, l: Expr, r: Expr): Expr {
    if l.UintValue? && r.UintValue? then BoolValue(Compare(op, l.v, r.v))
    else UintCompare(op, l, r)
  }

  function FoldOr(l: Expr, r: Expr): Expr {
    if l.BoolValue? && r.BoolValue? then BoolValue(l.b || r.b)
    else if (r.BoolValue? && r.b) || (l.BoolValue? && l.b) then BoolValue(true)
    else if r.BoolValue? then l
    else if l.BoolValue? then r
    else Or(l, r)
  }

  function FoldBoolAnd(l: Expr, r: Expr): Expr {
    if l.BoolValue? && r.BoolValue? then BoolValue(l.b && r.b)
    else if r.BoolValue? && r.b then l
    else if l.BoolValue? && l.b then r
    else if l.BoolValue? || r.BoolValue? then BoolValue(false)
    else And(l, r)
  }

  function FoldNot(x: Expr): Expr {
    if x.BoolValue? then BoolValue(!x.b) else Not(x)
  }

  /** Identical sides are equal; two constants are compared in canonical form. */
  function FoldEq(l: Expr, r: Expr): Expr {
    if l == r then BoolValue(true)
    else if IsConstant(l) && IsConstant(r) then BoolValue(Canonical(l) == Canonical(r))
    else Eq(l, r)
  }

  function FoldConditional(c: Expr, t: Expr, f: Expr): Expr {
    if c.BoolValue? then (if c.b then t else f)
    else if t == f then t
    else Conditional(c, t, f)
  }

  /** A constant index into an array literal without spreads is resolved or rejected. */
  function FoldSelect(a: Expr, i: Expr): Result<Expr, Error> {
    if a.ArrayValue? && AllItems(a.elems) && i.UintValue? then
      if i.v < |a.elems| then Ok(a.elems[i.v].expr)
      else Err(OutOfBounds(i.v, |a.elems|))
    else Ok(Select(a, i))
  }

  /** Spreads over array literals are expanded into the enclosing literal. */
  function FlattenElem(el: Elem): seq<Elem> {
    match el
    case Spread(ArrayValue(v)) => v
    case _ => [el]
  }

  // ---------------------------------------------------------------------
  // Bottom-up folding
  // ---------------------------------------------------------------------

  /** Folds `e` with the known constants `c`; sub-expressions are folded left to right. */
  function Fold(c: Constants, e: Expr): Result<Expr, Error>
    decreases Size(e), 1
  {
    match e
    case FieldValue(_) => Ok(e)
    case UintValue(_, _) => Ok(e)
    case BoolValue(_) => Ok(e)
    case Identifier(id) => Ok(if id in c then c[id] else e)
    case ArrayValue(elems) =>
      var es :- FoldElems(c, elems);
      Ok(ArrayValue(es))
    case FieldBinary(op, l, r) =>
      var l' :- Fold(c, l);
      var r' :- Fold(c, r);
      Ok(FoldFieldBinary(op, l', r'))
    case FieldNeg(x) =>
      var x' :- Fold(c, x);
      Ok(FoldFieldNeg(x'))
    case FieldPos(x) =>
      var x' :- Fold(c, x);
      Ok(FoldFieldPos(x'))
    case FieldPow(b, x) =>
      var b' :- Fold(c, b);
      var x' :- Fold(c, x);
      FoldFieldPow(b', x')
    case UintBinary(bw, op, l, r) =>
      var l' :- Fold(c, l);
      var r' :- Fold(c, r);
      Ok(FoldUintBinary(bw, op, l', r'))
    case UintUnary(bw, op, x) =>
      var x' :- Fold(c, x);
      Ok(FoldUintUnary(bw, op, x'))
    case FieldCompare(op, l, r) =>
      var l' :- Fold(c, l);
      var r' :- Fold(c, r);
      Ok(FoldFieldCompare(op, l', r'))
    case UintCompare(op, l, r) =>
      var l' :- Fold(c, l);
      var r' :- Fold(c, r);
      Ok(FoldUintCompare(op, l', r'))
    case Or(l, r) =>
      var l' :- Fold(c, l);
      var r' :- Fold(c, r);
      Ok(FoldOr(l', r'))
    case And(l, r) =>
      var l' :- Fold(c, l);
      var r' :- Fold(c, r);
      Ok(FoldBoolAnd(l', r'))
    case Not(x) =>
      var x' :- Fold(c, x);
      Ok(FoldNot(x'))
    case Eq(l, r) =>
      var l' :- Fold(c, l);
      var r' :- Fold(c, r);
      Ok(FoldEq(l', r'))
    case Conditional(b, t, f) =>
      var b' :- Fold(c, b);
      var t' :- Fold(c, t);
      var f' :- Fold(c, f);
      Ok(FoldConditional(b', t', f'))
    case Select(a, i) =>
      var a' :- Fold(c, a);
      var i' :- Fold(c, i);
      FoldSelect(a', i')
  }

  /** Folds the elements of an array literal, expanding spreads of literals. */
  function FoldElems(c: Constants, elems: seq<Elem>): Result<seq<Elem>, Error>
    decreases ElemsSize(elems), 1
  {
    if elems == [] then Ok([])
    else
      var h :- FoldElem(c, elems[0]);
      var t :- FoldElems(c, elems[1..]);
      Ok(FlattenElem(h) + t)
  }

  function FoldElem(c: Constants, el: Elem): Result<Elem, Error>
    decreases ElemSize(el), 0
  {
    match el
    case Item(x) =>
      var x' :- Fold(c, x);
      Ok(Item(x'))
    case Spread(a) =>
      var a' :- Fold(c, a);
      Ok(Spread(a'))
  }

  // ---------------------------------------------------------------------
  // Properties of the rules
  // ---------------------------------------------------------------------

  /**
   * The identity and absorbing rules on a non-constant `x`, read off the
   * rules; that each rewrite keeps the value is `PropagationSoundness.FoldSound`.
   */
  lemma UintIdentities(bw: Bitwidth, x: Expr)
    requires !x.UintValue?
    ensures FoldAdd(bw, x, UintValue(bw, 0)) == x && FoldAdd(bw, UintValue(bw, 0), x) == x
    ensures FoldSub(bw, x, UintValue(bw, 0)) == x
    ensures FoldMult(bw, x, UintValue(bw, 1)) == x && FoldMult(bw, UintValue(bw, 1), x) == x
    ensures FoldMult(bw, x, UintValue(bw, 0)) == UintValue(bw, 0)
    ensures FoldMult(bw, UintValue(bw, 0), x) == UintValue(bw, 0)
    ensures FoldDiv(bw, x, UintValue(bw, 1)) == x
    ensures FoldRem(bw, x, UintValue(bw, 1)) == UintValue(bw, 0)
    ensures FoldXor(bw, x, UintValue(bw, 0)) == x && FoldXor(bw, UintValue(bw, 0), x) == x
    ensures FoldXor(bw, x, x) == UintValue(bw, 0)
    ensures FoldUintAnd(bw, x, UintValue(bw, 0)) == UintValue(bw, 0)
    ensures FoldUintAnd(bw, UintValue(bw, 0), x) == UintValue(bw, 0)
  {
  }

  /**
   * The boolean rules on a non-constant `x`, read off the rules; that each
   * rewrite keeps the value is `PropagationSoundness.FoldSound`.
   */
  lemma BooleanIdentities(x: Expr)
    requires !x.BoolValue?
    ensures FoldBoolAnd(x, BoolValue(true)) == x && FoldBoolAnd(BoolValue(true), x) == x
    ensures FoldBoolAnd(x, BoolValue(false)) == BoolValue(false)
    ensures FoldBoolAnd(BoolValue(false), x) == BoolValue(false)
    ensures FoldOr(x, BoolValue(true)) == BoolValue(true) && FoldOr(BoolValue(true), x) == BoolValue(true)
    ensures FoldOr(x, BoolValue(false)) == x && FoldOr(BoolValue(false), x) == x
  {
  }

  /**
   * A power fails exactly when its exponent is not a constant; exponent zero
   * gives one. That a power which folds keeps its value is
   * `PropagationSoundness.FoldFieldPowSound`, lifted by `FoldSound`.
   */
  lemma PowErrors(b: Expr, x: Expr)
    ensures FoldFieldPow(b, x).Err? <==> !x.UintValue?
    ensures FoldFieldPow(b, x).Err? ==> FoldFieldPow(b, x).error == NonConstantExponent(x)
    ensures x.UintValue? && x.v == 0 ==> FoldFieldPow(b, x) == Ok(FieldValue(1))
  {
  }

  /**
   * A constant index into an array literal without spreads fails exactly
   * when it is not below the size. That a resolved select keeps its value,
   * and that it fails only where `Eval` has none, is
   * `PropagationSoundness.FoldSelectSound`.
   */
  lemma SelectErrors(elems: seq<Elem>, bw: Bitwidth, n: nat)
    requires AllItems(elems)
    ensures var r := FoldSelect(ArrayValue(elems), UintValue(bw, n));
      (r.Err? <==> n >= |elems|) &&
      (r.Err? ==> r.error == OutOfBounds(n, |elems|)) &&
      (r.Ok? ==> r.value == elems[n].expr)
  {
  }

  /**
   * A constant condition picks its branch, equal branches collapse, identical
   * sides are equal; that these keep the value is
   * `PropagationSoundness.FoldConditionalSound` and `FoldEqSound`.
   */
  lemma ShortcutRules(c: Expr, t: Expr, f: Expr)
    ensures c.BoolValue? ==> FoldConditional(c, t, f) == (if c.b then t else f)
    ensures FoldConditional(c, t, t) == t
    ensures FoldEq(t, t) == BoolValue(true)
    ensures !c.BoolValue? && t != f ==> FoldConditional(c, t, f) == Conditional(c, t, f)
  {
  }

  /**
   * Two in-range constants fold to an in-range constant of the node's width,
   * except for a division or remainder by zero, which is left as it was.
   */
  lemma ConstantFoldInRange(bw: Bitwidth, op: UintOp, a: nat, b: nat)
    requires a < bw.Modulus() && (IsShift(op) || b < bw.Modulus())
    ensures var r := FoldUintBinary(bw, op, UintValue(bw, a), UintValue(bw, b));
      if (op == UDiv || op == URem) && b == 0 then r == UintBinary(bw, op, UintValue(bw, a), UintValue(bw, b))
      else r.UintValue? && r.bw == bw && r.v < bw.Modulus()
  {
    if IsShift(op) || op == UXor || op == UAnd {
      BitwiseFoldInRange(bw, op, a, b);
    } else {
      WrappingFoldInRange(bw, op, a, b);
    }
  }

  /** The shifts and the bitwise operators. */
  lemma BitwiseFoldInRange(bw: Bitwidth, op: UintOp, a: nat, b: nat)
    requires IsShift(op) || op == UXor || op == UAnd
    requires a < bw.Modulus() && (IsShift(op) || b < bw.Modulus())
    ensures var r := FoldUintBinary(bw, op, UintValue(bw, a), UintValue(bw, b));
      r.UintValue? && r.bw == bw && r.v < bw.Modulus()
  {
    var x, y := UintValue(bw, a), UintValue(bw, b);
    match op
    case URightShift =>
      assert FoldUintBinary(bw, op, x, y) == UintValue(bw, Quotient(a, Pow2(b)));
      DivLe(a, Pow2(b));
    case ULeftShift =>
      assert FoldUintBinary(bw, op, x, y) == UintValue(bw, Masked(bw, WrapU128(a * Pow2(b))));
    case UXor =>
      assert FoldUintBinary(bw, op, x, y) == UintValue(bw, BitXor(a, b));
      ModulusIsPow2(bw);
      BitXorBelow(a, b, bw.Bits());
    case UAnd =>
      assert FoldUintBinary(bw, op, x, y) == UintValue(bw, BitAnd(a, b));
      ModulusIsPow2(bw);
      BitAndBelow(a, b, bw.Bits());
  }

  /** The operators whose constant result is reduced with `Wrap`. */
  lemma WrappingFoldInRange(bw: Bitwidth, op: UintOp, a: nat, b: nat)
    requires !IsShift(op) && op != UXor && op != UAnd
    ensures var r := FoldUintBinary(bw, op, UintValue(bw, a), UintValue(bw, b));
      if (op == UDiv || op == URem) && b == 0 then r == UintBinary(bw, op, UintValue(bw, a), UintValue(bw, b))
      else r.UintValue? && r.bw == bw && r.v < bw.Modulus()
  {
  }

  /** A constant operand of a unary operator folds to an in-range constant. */
  lemma UnaryFoldInRange(bw: Bitwidth, op: UintUnaryOp, a: nat)
    ensures var r := FoldUintUnary(bw, op, UintValue(bw, a));
      r.UintValue? && r.bw == bw && (op == UPos || r.v < bw.Modulus())
  {
  }
}
