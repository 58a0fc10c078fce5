/**
 * Constant propagation preserves meaning: whenever an expression has a
 * value, its folded form has the same value. Each rule is proved against
 * `Eval` once; `FoldSound` puts them together by induction.
 */
module PropagationSoundness {
  import opened Wrappers
  import opened Arith
  import opened Typed
  import opened Propagation
  import Field

  /** Values that their type can hold: reduced field elements, `bw`-bit integers. */
  predicate WellFormed(v: Value)
    decreases v
  {
    match v
    case VField(n) => Field.IsElement(n)
    case VUint(bw, n) => n < bw.Modulus()
    case VBool(_) => true
    case VArray(items) => forall i | 0 <= i < |items| :: WellFormed(items[i])
  }

  predicate WellFormedEnv(env: Env) {
    forall id | id in env :: WellFormed(env[id])
  }

  /** `e'` has the value of `e` whenever `e` has one. */
  predicate Preserves(env: Env, e': Expr, e: Expr) {
    Eval(env, e).Some? ==> Eval(env, e') == Eval(env, e)
  }

  /** The constants agree with the environment: each names the value it is bound to. */
  predicate Agrees(env: Env, c: Constants) {
    forall id | id in c :: id in env && Eval(env, c[id]) == Some(env[id])
  }

  // ---------------------------------------------------------------------
  // Every value an expression takes is well formed
  // ---------------------------------------------------------------------

  lemma {:induction false} EvalWellFormed(env: Env, e: Expr)
    requires WellFormedEnv(env) && Eval(env, e).Some?
    ensures WellFormed(Eval(env, e).value)
    decreases Size(e), 1
  {
    match e
    case ArrayValue(elems) =>
      EvalElemsWellFormed(env, elems);
    case FieldBinary(_, l, r) =>
    case UintBinary(bw, op, l, r) =>
      EvalWellFormed(env, l);
      EvalWellFormed(env, r);
      UintSemBelow(bw, op, Eval(env, l).value.n, Eval(env, r).value.n);
    case FieldPos(x) =>
      EvalWellFormed(env, x);
    case Conditional(c, t, f) =>
      if Eval(env, c).value.b {
        EvalWellFormed(env, t);
      } else {
        EvalWellFormed(env, f);
      }
    case Select(a, i) =>
      EvalWellFormed(env, a);
    case _ =>
  }

  /** The operators keep `bw`-bit operands within `bw` bits. */
  lemma UintSemBelow(bw: Bitwidth, op: UintOp, a: nat, b: nat)
    requires a < bw.Modulus() && (IsShift(op) || b < bw.Modulus())
    ensures UintSem(bw, op, a, b).Some? ==> UintSem(bw, op, a, b).value < bw.Modulus()
  {
    ModulusIsPow2(bw);
    match op
    case UXor => BitXorBelow(a, b, bw.Bits());
    case UAnd => BitAndBelow(a, b, bw.Bits());
    case URightShift => DivLe(a, Pow2(b));
    case UDiv => if b != 0 { DivLe(a, b); }
    case URem => if b != 0 { RemLe(a, b); }
    case _ =>
  }

  lemma {:induction false} EvalElemsWellFormed(env: Env, elems: seq<Elem>)
    requires WellFormedEnv(env) && EvalElems(env, elems).Some?
    ensures forall i | 0 <= i < |EvalElems(env, elems).value| :: WellFormed(EvalElems(env, elems).value[i])
    decreases ElemsSize(elems), 1
  {
    if elems != [] {
      assert ElemsSize(elems) == ElemSize(elems[0]) + ElemsSize(elems[1..]);
      EvalElemsWellFormed(env, elems[1..]);
      var h := EvalElem(env, elems[0]).value;
      var t := EvalElems(env, elems[1..]).value;
      match elems[0]
      case Item(x) =>
        EvalWellFormed(env, x);
      case Spread(a) =>
        EvalWellFormed(env, a);
      assert EvalElems(env, elems).value == h + t;
      forall i | 0 <= i < |h + t| ensures WellFormed((h + t)[i]) {
        if i >= |h| {
          assert (h + t)[i] == t[i - |h|];
        }
      }
    }
  }

  // ---------------------------------------------------------------------
  // Unsigned-integer rules
  // ---------------------------------------------------------------------

  lemma WrapSmall(bw: Bitwidth, x: int)
    requires 0 <= x < bw.Modulus()
    ensures Wrap(bw, x) == x
  {
    ModUnique(x, bw.Modulus(), 0, x);
  }

  /** Reducing a `u128` wrap-around to `bw` bits is reducing directly. */
  lemma WrapThroughU128(bw: Bitwidth, x: int)
    ensures Wrap(bw, WrapU128(x)) == Wrap(bw, x)
  {
    U128ModulusIsPow2();
    ModulusIsPow2(bw);
    ModPow2Nested(x, bw.Bits(), 128);
  }

  /** The facts `Eval` gives about the operands of a `bw`-bit binary node that has a value. */
  lemma UintOperands(env: Env, bw: Bitwidth, op: UintOp, l: Expr, r: Expr)
    requires WellFormedEnv(env) && Eval(env, UintBinary(bw, op, l, r)).Some?
    ensures Eval(env, l).Some? && Eval(env, l).value.VUint? && Eval(env, l).value.bw == bw
    ensures Eval(env, r).Some? && Eval(env, r).value.VUint?
    ensures Eval(env, r).value.bw == if IsShift(op) then B32 else bw
    ensures Eval(env, l).value.n < bw.Modulus()
    ensures Eval(env, r).value.n < Eval(env, r).value.bw.Modulus()
    ensures l.UintValue? ==> l.bw == bw && Eval(env, l).value.n == l.v
    ensures r.UintValue? ==> Eval(env, r).value.n == r.v && r.bw == Eval(env, r).value.bw
    ensures Eval(env, UintBinary(bw, op, l, r)) ==
      Some(VUint(bw, UintSem(bw, op, Eval(env, l).value.n, Eval(env, r).value.n).value))
  {
    EvalWellFormed(env, l);
    EvalWellFormed(env, r);
  }

  // One lemma per rewrite a rule performs; each rule's soundness is the
  // case split over which rewrite applies.

  /** `x + 0`, `x - 0`, `x * 1` and `x / 1` are `x`. */
  lemma UnitSem(bw: Bitwidth, op: UintOp, a: nat, c: nat)
    requires a < bw.Modulus()
    requires ((op == UAdd || op == USub || op == UFloorSub) && c == 0) || ((op == UMult || op == UDiv) && c == 1)
    ensures UintSem(bw, op, a, c) == Some(a)
  {
    WrapSmall(bw, a);
    match op {
      case UAdd =>
      case USub =>
      case UFloorSub =>
      case UMult => assert a * c == a;
      case UDiv => assert Quotient(a, c) == a;
    }
  }

  /** `x * 0` and `x % 1` are `0`. */
  lemma ZeroSem(bw: Bitwidth, op: UintOp, a: nat, c: nat)
    requires ((op == UMult && c == 0) || (op == URem && c == 1))
    ensures UintSem(bw, op, a, c) == Some(0)
  {
    if op == UMult {
      assert a * c == 0;
      WrapSmall(bw, 0);
    } else {
      ModUnique(a, 1, a, 0);
    }
  }

  /** Addition and multiplication commute. */
  lemma CommuteSem(bw: Bitwidth, op: UintOp, a: nat, b: nat)
    requires op == UAdd || op == UMult
    ensures UintSem(bw, op, a, b) == UintSem(bw, op, b, a)
  {
    if op == UMult {
      assert a * b == b * a;
    }
  }

  /** A unit on the right leaves the left operand. */
  lemma RightUnit(env: Env, bw: Bitwidth, op: UintOp, l: Expr, r: Expr)
    requires WellFormedEnv(env) && r.UintValue? && Eval(env, UintBinary(bw, op, l, r)).Some?
    requires ((op == UAdd || op == USub || op == UFloorSub) && r.v == 0) || ((op == UMult || op == UDiv) && r.v == 1)
    ensures Eval(env, l) == Eval(env, UintBinary(bw, op, l, r))
  {
    UintOperands(env, bw, op, l, r);
    UnitSem(bw, op, Eval(env, l).value.n, r.v);
  }

  /** `0 + x` and `1 * x` are `x`. */
  lemma LeftUnit(env: Env, bw: Bitwidth, op: UintOp, l: Expr, r: Expr)
    requires WellFormedEnv(env) && l.UintValue? && Eval(env, UintBinary(bw, op, l, r)).Some?
    requires (op == UAdd && l.v == 0) || (op == UMult && l.v == 1)
    ensures Eval(env, r) == Eval(env, UintBinary(bw, op, l, r))
  {
    UintOperands(env, bw, op, l, r);
    var b := Eval(env, r).value.n;
    UnitSem(bw, op, b, l.v);
    CommuteSem(bw, op, l.v, b);
    assert Eval(env, r) == Some(VUint(bw, b));
  }

  /** An absorbing constant on the right gives `0`. */
  lemma RightZero(env: Env, bw: Bitwidth, op: UintOp, l: Expr, r: Expr)
    requires WellFormedEnv(env) && r.UintValue? && Eval(env, UintBinary(bw, op, l, r)).Some?
    requires (op == UMult && r.v == 0) || (op == URem && r.v == 1)
    ensures Eval(env, UintValue(bw, 0)) == Eval(env, UintBinary(bw, op, l, r))
  {
    UintOperands(env, bw, op, l, r);
    ZeroSem(bw, op, Eval(env, l).value.n, r.v);
  }

  /** `0 * x` is `0`. */
  lemma LeftZero(env: Env, bw: Bitwidth, l: Expr, r: Expr)
    requires WellFormedEnv(env) && l.UintValue? && l.v == 0 && Eval(env, UintBinary(bw, UMult, l, r)).Some?
    ensures Eval(env, UintValue(bw, 0)) == Eval(env, UintBinary(bw, UMult, l, r))
  {
    UintOperands(env, bw, UMult, l, r);
    var b := Eval(env, r).value.n;
    ZeroSem(bw, UMult, b, 0);
    CommuteSem(bw, UMult, 0, b);
  }

  /** A constant right operand may be rebuilt at the operation's own bitwidth. */
  lemma RebuildRight(env: Env, bw: Bitwidth, op: UintOp, l: Expr, r: Expr)
    requires WellFormedEnv(env) && r.UintValue? && !IsShift(op) && Eval(env, UintBinary(bw, op, l, r)).Some?
    ensures Eval(env, UintBinary(bw, op, l, UintValue(bw, r.v))) == Eval(env, UintBinary(bw, op, l, r))
  {
    UintOperands(env, bw, op, l, r);
    UintBinaryCongruence(env, bw, op, l, r, l, UintValue(bw, r.v));
  }

  /** A constant left operand of `+` or `*` may be moved to the right. */
  lemma SwapConstant(env: Env, bw: Bitwidth, op: UintOp, l: Expr, r: Expr)
    requires WellFormedEnv(env) && l.UintValue? && (op == UAdd || op == UMult)
    requires Eval(env, UintBinary(bw, op, l, r)).Some?
    ensures Eval(env, UintBinary(bw, op, r, UintValue(bw, l.v))) == Eval(env, UintBinary(bw, op, l, r))
  {
    assert l == UintValue(bw, l.v);
    CommuteValue(bw, op, Eval(env, l), Eval(env, r));
  }

  /** Commutativity of `+` and `*` on operand values. */
  lemma CommuteValue(bw: Bitwidth, op: UintOp, x: Option<Value>, y: Option<Value>)
    requires op == UAdd || op == UMult
    ensures UintBinaryValue(bw, op, x, y) == UintBinaryValue(bw, op, y, x)
  {
    if x.Some? && x.value.VUint? && y.Some? && y.value.VUint? {
      CommuteSem(bw, op, x.value.n, y.value.n);
    }
  }

  /** A binary operation's value depends only on the values of its operands. */
  lemma UintBinaryCongruence(env: Env, bw: Bitwidth, op: UintOp, l: Expr, r: Expr, l': Expr, r': Expr)
    requires Eval(env, l') == Eval(env, l) && Eval(env, r') == Eval(env, r)
    ensures Eval(env, UintBinary(bw, op, l', r')) == Eval(env, UintBinary(bw, op, l, r))
  {
  }

  lemma FoldAddSound(env: Env, bw: Bitwidth, l: Expr, r: Expr)
    requires WellFormedEnv(env)
    ensures Preserves(env, FoldAdd(bw, l, r), UintBinary(bw, UAdd, l, r))
  {
    if Eval(env, UintBinary(bw, UAdd, l, r)).Some? {
      if l.UintValue? && r.UintValue? {
        UintOperands(env, bw, UAdd, l, r);
      } else if r.UintValue? {
        if r.v == 0 {
          RightUnit(env, bw, UAdd, l, r);
        } else {
          RebuildRight(env, bw, UAdd, l, r);
        }
      } else if l.UintValue? {
        if l.v == 0 {
          LeftUnit(env, bw, UAdd, l, r);
        } else {
          SwapConstant(env, bw, UAdd, l, r);
        }
      }
    }
  }

  /** Constant subtraction through `u128` is the modular subtraction at `bw` bits. */
  lemma SubFacts(bw: Bitwidth, a: nat, b: nat)
    ensures Wrap(bw, WrapU128(a - b)) == UintSem(bw, USub, a, b).value
  {
    WrapThroughU128(bw, a - b);
  }

  lemma SubConstantsSound(env: Env, bw: Bitwidth, l: Expr, r: Expr)
    requires WellFormedEnv(env) && l.UintValue? && r.UintValue?
    requires Eval(env, UintBinary(bw, USub, l, r)).Some?
    ensures Eval(env, FoldSub(bw, l, r)) == Eval(env, UintBinary(bw, USub, l, r))
  {
    UintOperands(env, bw, USub, l, r);
    SubFacts(bw, l.v, r.v);
  }

  lemma FoldSubSound(env: Env, bw: Bitwidth, l: Expr, r: Expr)
    requires WellFormedEnv(env)
    ensures Preserves(env, FoldSub(bw, l, r), UintBinary(bw, USub, l, r))
  {
    if Eval(env, UintBinary(bw, USub, l, r)).Some? {
      if l.UintValue? && r.UintValue? {
        SubConstantsSound(env, bw, l, r);
      } else if r.UintValue? {
        if r.v == 0 {
          RightUnit(env, bw, USub, l, r);
        } else {
          RebuildRight(env, bw, USub, l, r);
        }
      }
    }
  }

  lemma FoldFloorSubSound(env: Env, bw: Bitwidth, l: Expr, r: Expr)
    requires WellFormedEnv(env)
    ensures Preserves(env, FoldFloorSub(bw, l, r), UintBinary(bw, UFloorSub, l, r))
  {
    if Eval(env, UintBinary(bw, UFloorSub, l, r)).Some? {
      if l.UintValue? && r.UintValue? {
        FloorSubConstantsSound(env, bw, l, r);
      } else if r.UintValue? {
        if r.v == 0 {
          RightUnit(env, bw, UFloorSub, l, r);
        } else {
          RebuildRight(env, bw, UFloorSub, l, r);
        }
      }
    }
  }

  /** Two constant operands: the saturated difference is already in range. */
  lemma FloorSubConstantsSound(env: Env, bw: Bitwidth, l: Expr, r: Expr)
    requires WellFormedEnv(env) && l.UintValue? && r.UintValue?
    requires Eval(env, UintBinary(bw, UFloorSub, l, r)).Some?
    ensures Eval(env, FoldFloorSub(bw, l, r)) == Eval(env, UintBinary(bw, UFloorSub, l, r))
  {
    UintOperands(env, bw, UFloorSub, l, r);
    var v := if r.v <= l.v then l.v - r.v else 0;
    assert UintSem(bw, UFloorSub, l.v, r.v) == Some(v);
    WrapSmall(bw, v);
  }

  lemma FoldMultSound(env: Env, bw: Bitwidth, l: Expr, r: Expr)
    requires WellFormedEnv(env)
    ensures Preserves(env, FoldMult(bw, l, r), UintBinary(bw, UMult, l, r))
  {
    if Eval(env, UintBinary(bw, UMult, l, r)).Some? {
      if l.UintValue? && r.UintValue? {
        UintOperands(env, bw, UMult, l, r);
      } else if r.UintValue? {
        if r.v == 0 {
          RightZero(env, bw, UMult, l, r);
        } else if r.v == 1 {
          RightUnit(env, bw, UMult, l, r);
        } else {
          RebuildRight(env, bw, UMult, l, r);
        }
      } else if l.UintValue? {
        if l.v == 0 {
          LeftZero(env, bw, l, r);
        } else if l.v == 1 {
          LeftUnit(env, bw, UMult, l, r);
        } else {
          SwapConstant(env, bw, UMult, l, r);
        }
      }
    }
  }

  /** Constant division stays within `bw` bits, so the reduction changes nothing. */
  lemma DivFacts(bw: Bitwidth, a: nat, b: nat)
    requires a < bw.Modulus() && b != 0
    ensures UintSem(bw, UDiv, a, b) == Some(Wrap(bw, a / b))
  {
    DivLe(a, b);
    WrapSmall(bw, a / b);
  }

  lemma FoldDivSound(env: Env, bw: Bitwidth, l: Expr, r: Expr)
    requires WellFormedEnv(env)
    ensures Preserves(env, FoldDiv(bw, l, r), UintBinary(bw, UDiv, l, r))
  {
    if Eval(env, UintBinary(bw, UDiv, l, r)).Some? {
      if l.UintValue? && r.UintValue? && r.v != 0 {
        UintOperands(env, bw, UDiv, l, r);
        DivFacts(bw, l.v, r.v);
      } else if r.UintValue? && !l.UintValue? {
        if r.v == 1 {
          RightUnit(env, bw, UDiv, l, r);
        } else {
          RebuildRight(env, bw, UDiv, l, r);
        }
      }
    }
  }

  /** A constant remainder is below the divisor, hence within `bw` bits. */
  lemma RemFacts(bw: Bitwidth, a: nat, b: nat)
    requires b < bw.Modulus() && b != 0
    ensures UintSem(bw, URem, a, b) == Some(Wrap(bw, a % b))
  {
    WrapSmall(bw, a % b);
  }

  lemma FoldRemSound(env: Env, bw: Bitwidth, l: Expr, r: Expr)
    requires WellFormedEnv(env)
    ensures Preserves(env, FoldRem(bw, l, r), UintBinary(bw, URem, l, r))
  {
    if Eval(env, UintBinary(bw, URem, l, r)).Some? {
      if l.UintValue? && r.UintValue? && r.v != 0 {
        UintOperands(env, bw, URem, l, r);
        RemFacts(bw, l.v, r.v);
      } else if r.UintValue? && !l.UintValue? {
        if r.v == 1 {
          RightZero(env, bw, URem, l, r);
        } else {
          RebuildRight(env, bw, URem, l, r);
        }
      }
    }
  }

  lemma FoldRightShiftSound(env: Env, bw: Bitwidth, l: Expr, r: Expr)
    requires WellFormedEnv(env)
    ensures Preserves(env, FoldRightShift(bw, l, r), UintBinary(bw, URightShift, l, r))
  {
    if Eval(env, UintBinary(bw, URightShift, l, r)).Some? {
      UintOperands(env, bw, URightShift, l, r);
      DivLe(Eval(env, l).value.n, Pow2(Eval(env, r).value.n));
    }
  }

  /** Shifting on 128 bits and masking to `bw` bits is shifting at `bw` bits. */
  lemma ShiftMask(bw: Bitwidth, a: nat, b: nat)
    ensures Masked(bw, WrapU128(a * Pow2(b))) == UintSem(bw, ULeftShift, a, b).value
  {
    var x := a * Pow2(b);
    MaskedIsWrap(bw, WrapU128(x));
    WrapThroughU128(bw, x);
  }

  /** Masking to `bw` bits is reducing modulo `2^bw`. */
  lemma MaskedIsWrap(bw: Bitwidth, y: nat)
    ensures Masked(bw, y) == Wrap(bw, y)
  {
    ModulusIsPow2(bw);
    LowBitsIsMod(y, bw.Bits());
  }

  lemma LowBitsIsMod(y: nat, k: nat)
    ensures LowBits(y, k) == y % Pow2(k)
  {
    BitAndMask(y, k);
  }

  lemma FoldLeftShiftSound(env: Env, bw: Bitwidth, l: Expr, r: Expr)
    requires WellFormedEnv(env)
    ensures Preserves(env, FoldLeftShift(bw, l, r), UintBinary(bw, ULeftShift, l, r))
  {
    if Eval(env, UintBinary(bw, ULeftShift, l, r)).Some? {
      UintOperands(env, bw, ULeftShift, l, r);
      if l.UintValue? && r.UintValue? {
        ShiftMask(bw, l.v, r.v);
      }
    }
  }

  lemma FoldXorSound(env: Env, bw: Bitwidth, l: Expr, r: Expr)
    requires WellFormedEnv(env)
    ensures Preserves(env, FoldXor(bw, l, r), UintBinary(bw, UXor, l, r))
  {
    if Eval(env, UintBinary(bw, UXor, l, r)).Some? {
      UintOperands(env, bw, UXor, l, r);
      var a, b := Eval(env, l).value.n, Eval(env, r).value.n;
      if l.UintValue? && r.UintValue? {
        ModulusIsPow2(bw);
        BitXorBelow(a, b, bw.Bits());
      } else if l.UintValue? && l.v == 0 {
      } else if r.UintValue? && r.v == 0 {
      } else if l == r {
        BitXorSelf(a);
      }
    }
  }

  lemma FoldUintAndSound(env: Env, bw: Bitwidth, l: Expr, r: Expr)
    requires WellFormedEnv(env)
    ensures Preserves(env, FoldUintAnd(bw, l, r), UintBinary(bw, UAnd, l, r))
  {
    if Eval(env, UintBinary(bw, UAnd, l, r)).Some? {
      UintOperands(env, bw, UAnd, l, r);
      var a, b := Eval(env, l).value.n, Eval(env, r).value.n;
      if l.UintValue? && r.UintValue? {
        ModulusIsPow2(bw);
        BitAndBelow(a, b, bw.Bits());
      }
    }
  }

  lemma FoldUintBinarySound(env: Env, bw: Bitwidth, op: UintOp, l: Expr, r: Expr)
    requires WellFormedEnv(env)
    ensures Preserves(env, FoldUintBinary(bw, op, l, r), UintBinary(bw, op, l, r))
  {
    match op
    case UAdd => FoldAddSound(env, bw, l, r);
    case USub => FoldSubSound(env, bw, l, r);
    case UFloorSub => FoldFloorSubSound(env, bw, l, r);
    case UMult => FoldMultSound(env, bw, l, r);
    case UDiv => FoldDivSound(env, bw, l, r);
    case URem => FoldRemSound(env, bw, l, r);
    case URightShift => FoldRightShiftSound(env, bw, l, r);
    case ULeftShift => FoldLeftShiftSound(env, bw, l, r);
    case UXor => FoldXorSound(env, bw, l, r);
    case UAnd => FoldUintAndSound(env, bw, l, r);
  }

  /** Complementing within a multiple of `m` leaves the complement within `m`. */
  lemma ComplementMod(m: nat, t: nat, v: nat)
    requires v < m && t >= 1
    ensures (m * t - 1 - v) % m == m - 1 - v
  {
    assert m * t == m * (t - 1) + m;
    ModUnique(m * t - 1 - v, m, t - 1, m - 1 - v);
  }

  /** `!v` on 128 bits, masked to `bw` bits, is the `bw`-bit complement. */
  lemma NotMask(bw: Bitwidth, v: nat)
    requires v < bw.Modulus()
    ensures Masked(bw, WrapU128(U128Modulus - 1 - v)) == bw.Modulus() - 1 - v
  {
    ModulusIsPow2(bw);
    NotMaskBits(bw.Bits(), v);
  }

  lemma NotMaskBits(k: nat, v: nat)
    requires k <= 128 && v < Pow2(k)
    ensures LowBits(WrapU128(U128Modulus - 1 - v), k) == Pow2(k) - 1 - v
  {
    HighComplement(k, v);
    var x := U128Modulus - 1 - v;
    ModUnique(x, U128Modulus, 0, x);
    BitAndMask(x, k);
  }

  /** The 128-bit complement of `v`, reduced to `k <= 128` bits, is the `k`-bit complement. */
  lemma HighComplement(k: nat, v: nat)
    requires k <= 128 && v < Pow2(k)
    ensures v < U128Modulus && (U128Modulus - 1 - v) % Pow2(k) == Pow2(k) - 1 - v
  {
    U128ModulusIsPow2();
    Pow2Add(k, 128 - k);
    ComplementMod(Pow2(k), Pow2(128 - k), v);
    MulAtLeast(Pow2(k), Pow2(128 - k));
  }

  lemma FoldUintUnarySound(env: Env, bw: Bitwidth, op: UintUnaryOp, x: Expr)
    requires WellFormedEnv(env)
    ensures Preserves(env, FoldUintUnary(bw, op, x), UintUnary(bw, op, x))
  {
    if Eval(env, UintUnary(bw, op, x)).Some? && x.UintValue? {
      assert Eval(env, x) == Some(VUint(x.bw, x.v));
      assert x == UintValue(bw, x.v);
      UnaryConstantSound(bw, op, x.v);
    }
  }

  /** A unary operator on an in-range constant folds to the constant its meaning gives. */
  lemma UnaryConstantSound(bw: Bitwidth, op: UintUnaryOp, v: nat)
    requires v < bw.Modulus()
    ensures FoldUintUnary(bw, op, UintValue(bw, v)) == UintValue(bw, UintUnarySem(bw, op, v))
  {
    match op
    case UNot => NotConstantSound(bw, v);
    case UNeg => NegConstantSound(bw, v);
    case UPos =>
  }

  lemma NotConstantSound(bw: Bitwidth, v: nat)
    requires v < bw.Modulus()
    ensures FoldUintUnary(bw, UNot, UintValue(bw, v)) == UintValue(bw, UintUnarySem(bw, UNot, v))
  {
    NotMask(bw, v);
  }

  lemma NegConstantSound(bw: Bitwidth, v: nat)
    requires v < bw.Modulus()
    ensures FoldUintUnary(bw, UNeg, UintValue(bw, v)) == UintValue(bw, UintUnarySem(bw, UNeg, v))
  {
    WrapThroughU128(bw, 0 - v);
  }

  // ---------------------------------------------------------------------
  // Field rules
  // ---------------------------------------------------------------------

  lemma FoldFieldBinarySound(env: Env, op: FieldOp, l: Expr, r: Expr)
    ensures Preserves(env, FoldFieldBinary(op, l, r), FieldBinary(op, l, r))
  {
    if Eval(env, FieldBinary(op, l, r)).Some? && l.FieldValue? && r.FieldValue? {
      assert Eval(env, l) == Some(VField(l.n));
      assert Eval(env, r) == Some(VField(r.n));
    }
  }

  lemma FoldFieldNegSound(env: Env, x: Expr)
    ensures Preserves(env, FoldFieldNeg(x), FieldNeg(x))
  {
    if Eval(env, FieldNeg(x)).Some? && x.FieldValue? {
      assert Eval(env, x) == Some(VField(x.n));
    }
  }

  lemma FoldFieldPosSound(env: Env, x: Expr)
    ensures Preserves(env, FoldFieldPos(x), FieldPos(x))
  {
  }

  lemma FoldFieldPowSound(env: Env, b: Expr, x: Expr)
    ensures FoldFieldPow(b, x).Ok? ==> Preserves(env, FoldFieldPow(b, x).value, FieldPow(b, x))
  {
    if Eval(env, FieldPow(b, x)).Some? && x.UintValue? {
      assert Eval(env, x) == Some(VUint(x.bw, x.v));
      if b.FieldValue? {
        assert Eval(env, b) == Some(VField(b.n));
      }
    }
  }

  // ---------------------------------------------------------------------
  // Boolean rules, equality, conditionals and selection
  // ---------------------------------------------------------------------

  lemma FoldFieldCompareSound(env: Env, op: CompareOp, l: Expr, r: Expr)
    ensures Preserves(env, FoldFieldCompare(op, l, r), FieldCompare(op, l, r))
  {
    if Eval(env, FieldCompare(op, l, r)).Some? && l.FieldValue? && r.FieldValue? {
      assert Eval(env, l) == Some(VField(l.n));
      assert Eval(env, r) == Some(VField(r.n));
    }
  }

  lemma FoldUintCompareSound(env: Env, op: CompareOp, l: Expr, r: Expr)
    ensures Preserves(env, FoldUintCompare(op, l, r), UintCompare(op, l, r))
  {
    if Eval(env, UintCompare(op, l, r)).Some? && l.UintValue? && r.UintValue? {
      assert Eval(env, l) == Some(VUint(l.bw, l.v));
      assert Eval(env, r) == Some(VUint(r.bw, r.v));
    }
  }

  lemma FoldOrSound(env: Env, l: Expr, r: Expr)
    ensures Preserves(env, FoldOr(l, r), Or(l, r))
  {
    if Eval(env, Or(l, r)).Some? {
      if l.BoolValue? {
        assert Eval(env, l) == Some(VBool(l.b));
      }
      if r.BoolValue? {
        assert Eval(env, r) == Some(VBool(r.b));
      }
    }
  }

  lemma FoldBoolAndSound(env: Env, l: Expr, r: Expr)
    ensures Preserves(env, FoldBoolAnd(l, r), And(l, r))
  {
    if Eval(env, And(l, r)).Some? {
      if l.BoolValue? {
        assert Eval(env, l) == Some(VBool(l.b));
      }
      if r.BoolValue? {
        assert Eval(env, r) == Some(VBool(r.b));
      }
    }
  }

  lemma FoldNotSound(env: Env, x: Expr)
    ensures Preserves(env, FoldNot(x), Not(x))
  {
    if Eval(env, Not(x)).Some? && x.BoolValue? {
      assert Eval(env, x) == Some(VBool(x.b));
    }
  }

  /** Two constants are equal exactly when their canonical forms are. */
  lemma FoldEqSound(env: Env, l: Expr, r: Expr)
    ensures Preserves(env, FoldEq(l, r), Eq(l, r))
  {
    if Eval(env, Eq(l, r)).Some? && l != r && IsConstant(l) && IsConstant(r) {
      CanonicalSound(env, l);
      CanonicalSound(env, r);
      if Eval(env, l) == Eval(env, r) {
        CanonicalInjective(env, Canonical(l), Canonical(r));
      }
    }
  }

  lemma FoldConditionalSound(env: Env, c: Expr, t: Expr, f: Expr)
    ensures Preserves(env, FoldConditional(c, t, f), Conditional(c, t, f))
  {
    if Eval(env, Conditional(c, t, f)).Some? && c.BoolValue? {
      assert Eval(env, c) == Some(VBool(c.b));
    }
  }

  /**
   * Resolving a constant index is sound, and the out-of-bounds error is
   * raised only on selections that have no value.
   */
  lemma FoldSelectSound(env: Env, a: Expr, i: Expr)
    ensures FoldSelect(a, i).Ok? ==> Preserves(env, FoldSelect(a, i).value, Select(a, i))
    ensures FoldSelect(a, i).Err? ==> Eval(env, Select(a, i)).None?
  {
    if a.ArrayValue? && AllItems(a.elems) && i.UintValue? && Eval(env, a).Some? {
      var vs := EvalElems(env, a.elems).value;
      assert Eval(env, a) == Some(VArray(vs));
      EvalItems(env, a.elems, vs);
      assert Eval(env, i).Some? ==> Eval(env, i) == Some(VUint(i.bw, i.v));
    }
  }

  // ---------------------------------------------------------------------
  // Array literals
  // ---------------------------------------------------------------------

  /** `es'` has the values of `es` whenever `es` has them. */
  predicate ElemsPreserve(env: Env, es': seq<Elem>, es: seq<Elem>) {
    EvalElems(env, es).Some? ==> EvalElems(env, es') == EvalElems(env, es)
  }

  predicate ElemPreserves(env: Env, el': Elem, el: Elem) {
    EvalElem(env, el).Some? ==> EvalElem(env, el') == EvalElem(env, el)
  }

  /** Expanding a spread of a literal, or keeping an element, keeps its values. */
  lemma FlattenElemSound(env: Env, el: Elem)
    ensures EvalElem(env, el).Some? ==> EvalElems(env, FlattenElem(el)) == EvalElem(env, el)
  {
    match el
    case Spread(ArrayValue(v)) =>
    case _ =>
      assert FlattenElem(el) == [el];
      assert [el][0] == el && [el][1..] == [];
      if EvalElem(env, el).Some? {
        var v := EvalElem(env, el).value;
        assert EvalElems(env, [el]) == Some(v + []);
        assert v + [] == v;
      }
  }

  // ---------------------------------------------------------------------
  // One node at a time: folded operands, then the node's rule
  // ---------------------------------------------------------------------

  lemma FieldBinaryStep(env: Env, op: FieldOp, l: Expr, r: Expr, l': Expr, r': Expr)
    requires Preserves(env, l', l) && Preserves(env, r', r)
    ensures Preserves(env, FoldFieldBinary(op, l', r'), FieldBinary(op, l, r))
  {
    FoldFieldBinarySound(env, op, l', r');
  }

  lemma FieldNegStep(env: Env, x: Expr, x': Expr)
    requires Preserves(env, x', x)
    ensures Preserves(env, FoldFieldNeg(x'), FieldNeg(x))
  {
    FoldFieldNegSound(env, x');
  }

  lemma FieldPosStep(env: Env, x: Expr, x': Expr)
    requires Preserves(env, x', x)
    ensures Preserves(env, FoldFieldPos(x'), FieldPos(x))
  {
    FoldFieldPosSound(env, x');
  }

  lemma FieldPowStep(env: Env, b: Expr, x: Expr, b': Expr, x': Expr)
    requires Preserves(env, b', b) && Preserves(env, x', x)
    ensures FoldFieldPow(b', x').Ok? ==> Preserves(env, FoldFieldPow(b', x').value, FieldPow(b, x))
  {
    FoldFieldPowSound(env, b', x');
  }

  lemma UintBinaryStep(env: Env, bw: Bitwidth, op: UintOp, l: Expr, r: Expr, l': Expr, r': Expr)
    requires WellFormedEnv(env)
    requires Preserves(env, l', l) && Preserves(env, r', r)
    ensures Preserves(env, FoldUintBinary(bw, op, l', r'), UintBinary(bw, op, l, r))
  {
    FoldUintBinarySound(env, bw, op, l', r');
  }

  lemma UintUnaryStep(env: Env, bw: Bitwidth, op: UintUnaryOp, x: Expr, x': Expr)
    requires WellFormedEnv(env)
    requires Preserves(env, x', x)
    ensures Preserves(env, FoldUintUnary(bw, op, x'), UintUnary(bw, op, x))
  {
    FoldUintUnarySound(env, bw, op, x');
  }

  lemma FieldCompareStep(env: Env, op: CompareOp, l: Expr, r: Expr, l': Expr, r': Expr)
    requires Preserves(env, l', l) && Preserves(env, r', r)
    ensures Preserves(env, FoldFieldCompare(op, l', r'), FieldCompare(op, l, r))
  {
    FoldFieldCompareSound(env, op, l', r');
  }

  lemma UintCompareStep(env: Env, op: CompareOp, l: Expr, r: Expr, l': Expr, r': Expr)
    requires Preserves(env, l', l) && Preserves(env, r', r)
    ensures Preserves(env, FoldUintCompare(op, l', r'), UintCompare(op, l, r))
  {
    FoldUintCompareSound(env, op, l', r');
  }

  lemma OrStep(env: Env, l: Expr, r: Expr, l': Expr, r': Expr)
    requires Preserves(env, l', l) && Preserves(env, r', r)
    ensures Preserves(env, FoldOr(l', r'), Or(l, r))
  {
    FoldOrSound(env, l', r');
  }

  lemma AndStep(env: Env, l: Expr, r: Expr, l': Expr, r': Expr)
    requires Preserves(env, l', l) && Preserves(env, r', r)
    ensures Preserves(env, FoldBoolAnd(l', r'), And(l, r))
  {
    FoldBoolAndSound(env, l', r');
  }

  lemma NotStep(env: Env, x: Expr, x': Expr)
    requires Preserves(env, x', x)
    ensures Preserves(env, FoldNot(x'), Not(x))
  {
    FoldNotSound(env, x');
  }

  lemma EqStep(env: Env, l: Expr, r: Expr, l': Expr, r': Expr)
    requires Preserves(env, l', l) && Preserves(env, r', r)
    ensures Preserves(env, FoldEq(l', r'), Eq(l, r))
  {
    FoldEqSound(env, l', r');
  }

  lemma ConditionalStep(env: Env, c: Expr, t: Expr, f: Expr, c': Expr, t': Expr, f': Expr)
    requires Preserves(env, c', c) && Preserves(env, t', t) && Preserves(env, f', f)
    ensures Preserves(env, FoldConditional(c', t', f'), Conditional(c, t, f))
  {
    FoldConditionalSound(env, c', t', f');
  }

  lemma SelectStep(env: Env, a: Expr, i: Expr, a': Expr, i': Expr)
    requires Preserves(env, a', a) && Preserves(env, i', i)
    ensures FoldSelect(a', i').Ok? ==> Preserves(env, FoldSelect(a', i').value, Select(a, i))
  {
    FoldSelectSound(env, a', i');
  }

  lemma ArrayStep(env: Env, es: seq<Elem>, es': seq<Elem>)
    requires ElemsPreserve(env, es', es)
    ensures Preserves(env, ArrayValue(es'), ArrayValue(es))
  {
  }

  // ---------------------------------------------------------------------
  // The theorem
  // ---------------------------------------------------------------------

  /**
   * Folding with constants that agree with a well-formed environment gives
   * an expression with the value of the original, whenever it has one.
   */
  lemma {:induction false} FoldSound(env: Env, c: Constants, e: Expr)
    requires WellFormedEnv(env) && Agrees(env, c)
    ensures Fold(c, e).Ok? ==> Preserves(env, Fold(c, e).value, e)
    decreases Size(e), 1
  {
    if Fold(c, e).Ok? {
      match e
      case FieldValue(_) =>
      case UintValue(_, _) =>
      case BoolValue(_) =>
      case Identifier(id) =>
      case ArrayValue(elems) =>
        FoldElemsSound(env, c, elems);
        ArrayStep(env, elems, FoldElems(c, elems).value);
      case FieldBinary(_, _, _) => FieldFoldSound(env, c, e);
      case FieldNeg(_) => FieldFoldSound(env, c, e);
      case FieldPos(_) => FieldFoldSound(env, c, e);
      case FieldPow(_, _) => FieldFoldSound(env, c, e);
      case FieldCompare(_, _, _) => FieldFoldSound(env, c, e);
      case UintBinary(_, _, _, _) => UintFoldSound(env, c, e);
      case UintUnary(_, _, _) => UintFoldSound(env, c, e);
      case UintCompare(_, _, _) => UintFoldSound(env, c, e);
      case Or(_, _) => BoolFoldSound(env, c, e);
      case And(_, _) => BoolFoldSound(env, c, e);
      case Not(_) => BoolFoldSound(env, c, e);
      case Eq(_, _) => BoolFoldSound(env, c, e);
      case Conditional(_, _, _) => BoolFoldSound(env, c, e);
      case Select(_, _) => BoolFoldSound(env, c, e);
    }
  }

  /** `FoldSound` for the field operators. */
  lemma {:induction false} FieldFoldSound(env: Env, c: Constants, e: Expr)
    requires WellFormedEnv(env) && Agrees(env, c)
    requires e.FieldBinary? || e.FieldNeg? || e.FieldPos? || e.FieldPow? || e.FieldCompare?
    ensures Fold(c, e).Ok? ==> Preserves(env, Fold(c, e).value, e)
    decreases Size(e), 0
  {
    if Fold(c, e).Ok? {
      match e
      case FieldBinary(op, l, r) =>
        FoldSound(env, c, l);
        FoldSound(env, c, r);
        FieldBinaryStep(env, op, l, r, Fold(c, l).value, Fold(c, r).value);
      case FieldNeg(x) =>
        FoldSound(env, c, x);
        FieldNegStep(env, x, Fold(c, x).value);
      case FieldPos(x) =>
        FoldSound(env, c, x);
        FieldPosStep(env, x, Fold(c, x).value);
      case FieldPow(b, x) =>
        FoldSound(env, c, b);
        FoldSound(env, c, x);
        FieldPowStep(env, b, x, Fold(c, b).value, Fold(c, x).value);
      case FieldCompare(op, l, r) =>
        FoldSound(env, c, l);
        FoldSound(env, c, r);
        FieldCompareStep(env, op, l, r, Fold(c, l).value, Fold(c, r).value);
    }
  }

  /** `FoldSound` for the unsigned-integer operators. */
  lemma {:induction false} UintFoldSound(env: Env, c: Constants, e: Expr)
    requires WellFormedEnv(env) && Agrees(env, c)
    requires e.UintBinary? || e.UintUnary? || e.UintCompare?
    ensures Fold(c, e).Ok? ==> Preserves(env, Fold(c, e).value, e)
    decreases Size(e), 0
  {
    if Fold(c, e).Ok? {
      match e
      case UintBinary(bw, op, l, r) =>
        FoldSound(env, c, l);
        FoldSound(env, c, r);
        UintBinaryStep(env, bw, op, l, r, Fold(c, l).value, Fold(c, r).value);
      case UintUnary(bw, op, x) =>
        FoldSound(env, c, x);
        UintUnaryStep(env, bw, op, x, Fold(c, x).value);
      case UintCompare(op, l, r) =>
        FoldSound(env, c, l);
        FoldSound(env, c, r);
        UintCompareStep(env, op, l, r, Fold(c, l).value, Fold(c, r).value);
    }
  }

  /** `FoldSound` for the boolean operators, equality, conditionals and selection. */
  lemma {:induction false} BoolFoldSound(env: Env, c: Constants, e: Expr)
    requires WellFormedEnv(env) && Agrees(env, c)
    requires e.Or? || e.And? || e.Not? || e.Eq? || e.Conditional? || e.Select?
    ensures Fold(c, e).Ok? ==> Preserves(env, Fold(c, e).value, e)
    decreases Size(e), 0
  {
    if Fold(c, e).Ok? {
      match e
      case Or(l, r) =>
        FoldSound(env, c, l);
        FoldSound(env, c, r);
        OrStep(env, l, r, Fold(c, l).value, Fold(c, r).value);
      case And(l, r) =>
        FoldSound(env, c, l);
        FoldSound(env, c, r);
        AndStep(env, l, r, Fold(c, l).value, Fold(c, r).value);
      case Not(x) =>
        FoldSound(env, c, x);
        NotStep(env, x, Fold(c, x).value);
      case Eq(l, r) =>
        FoldSound(env, c, l);
        FoldSound(env, c, r);
        EqStep(env, l, r, Fold(c, l).value, Fold(c, r).value);
      case Conditional(b, t, f) =>
        FoldSound(env, c, b);
        FoldSound(env, c, t);
        FoldSound(env, c, f);
        ConditionalStep(env, b, t, f, Fold(c, b).value, Fold(c, t).value, Fold(c, f).value);
      case Select(a, i) =>
        FoldSound(env, c, a);
        FoldSound(env, c, i);
        SelectStep(env, a, i, Fold(c, a).value, Fold(c, i).value);
    }
  }

  lemma {:induction false} FoldElemsSound(env: Env, c: Constants, elems: seq<Elem>)
    requires WellFormedEnv(env) && Agrees(env, c)
    ensures FoldElems(c, elems).Ok? ==> ElemsPreserve(env, FoldElems(c, elems).value, elems)
    decreases ElemsSize(elems), 1
  {
    if elems != [] && FoldElems(c, elems).Ok? {
      assert ElemsSize(elems) == ElemSize(elems[0]) + ElemsSize(elems[1..]);
      FoldElemSound(env, c, elems[0]);
      FoldElemsSound(env, c, elems[1..]);
      var h := FoldElem(c, elems[0]).value;
      var t := FoldElems(c, elems[1..]).value;
      FlattenElemSound(env, h);
      EvalElemsAppend(env, FlattenElem(h), t);
    }
  }

  lemma {:induction false} FoldElemSound(env: Env, c: Constants, el: Elem)
    requires WellFormedEnv(env) && Agrees(env, c)
    ensures FoldElem(c, el).Ok? ==> ElemPreserves(env, FoldElem(c, el).value, el)
    decreases ElemSize(el), 0
  {
    match el
    case Item(x) =>
      FoldSound(env, c, x);
    case Spread(a) =>
      FoldSound(env, c, a);
  }

  // ---------------------------------------------------------------------
  // The floor-subtraction rule as written
  // ---------------------------------------------------------------------

  /**
   * With neither operand constant, the rule as written rebuilds a wrapping
   * subtraction: `a - b` for `u8` values 1 and 2 becomes 255 instead of 0.
   */
  lemma FloorSubAsWrittenChangesValue()
    ensures var env := map["a" := VUint(B8, 1), "b" := VUint(B8, 2)];
      var e := UintBinary(B8, UFloorSub, Identifier("a"), Identifier("b"));
      Eval(env, e) == Some(VUint(B8, 0)) &&
      Eval(env, FoldFloorSubAsWritten(B8, Identifier("a"), Identifier("b"))) == Some(VUint(B8, 255)) &&
      Eval(env, FoldFloorSub(B8, Identifier("a"), Identifier("b"))) == Eval(env, e)
  {
    var env := map["a" := VUint(B8, 1), "b" := VUint(B8, 2)];
    assert Wrap(B8, 1 - 2) == 255 by {
      ModUnique(1 - 2, 256, -1, 255);
    }
    assert Eval(env, Identifier("a")) == Some(VUint(B8, 1));
    assert Eval(env, Identifier("b")) == Some(VUint(B8, 2));
  }
}
