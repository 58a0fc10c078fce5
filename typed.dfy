/**
 * A cut-down typed expression language of ZoKrates: field, unsigned-integer
 * and boolean expressions, arrays with spreads, conditionals and selects.
 * `Eval` gives the meaning of an expression under an environment; it is the
 * reference that constant propagation must preserve.
 */
module Typed {
  import opened Wrappers
  import opened Arith
  import Field

  type Ident = string

  datatype Bitwidth = B8 | B16 | B32 | B64 {
    function Bits(): (n: nat)
      ensures 8 <= n <= 64
    {
      match this
      case B8 => 8
      case B16 => 16
      case B32 => 32
      case B64 => 64
    }

    /** 2^bw, written out per width so that reductions are by a known constant. */
    function Modulus(): (m: nat)
      ensures m >= 0x100
    {
      match this
      case B8 => 0x100
      case B16 => 0x1_0000
      case B32 => 0x1_0000_0000
      case B64 => 0x1_0000_0000_0000_0000
    }
  }

  lemma ModulusIsPow2(bw: Bitwidth)
    ensures bw.Modulus() == Pow2(bw.Bits())
  {
    Pow2Of16();
    Pow2Of32();
    Pow2Of64();
  }

  datatype FieldOp = FAdd | FSub | FMult | FDiv
  datatype UintOp =
    | UAdd | USub | UFloorSub | UMult | UDiv | URem
    | URightShift | ULeftShift | UXor | UAnd
  datatype UintUnaryOp = UNot | UNeg | UPos
  datatype CompareOp = Lt | Le

  datatype Expr =
    | FieldValue(n: nat)
    | UintValue(bw: Bitwidth, v: nat)
    | BoolValue(b: bool)
    | ArrayValue(elems: seq<Elem>)
    | Identifier(id: Ident)
    | FieldBinary(fop: FieldOp, left: Expr, right: Expr)
    | FieldNeg(inner: Expr)
    | FieldPos(inner: Expr)
    | FieldPow(base: Expr, exponent: Expr)
    | UintBinary(bw: Bitwidth, uop: UintOp, left: Expr, right: Expr)
    | UintUnary(bw: Bitwidth, unop: UintUnaryOp, inner: Expr)
    | FieldCompare(cop: CompareOp, left: Expr, right: Expr)
    | UintCompare(cop: CompareOp, left: Expr, right: Expr)
    | Or(left: Expr, right: Expr)
    | And(left: Expr, right: Expr)
    | Not(inner: Expr)
    | Eq(left: Expr, right: Expr)
    | Conditional(condition: Expr, consequence: Expr, alternative: Expr)
    | Select(array: Expr, index: Expr)

  /** An element of an array literal: an expression, or `...a`. */
  datatype Elem = Item(expr: Expr) | Spread(spread: Expr)

  /** A measure that decreases into sub-expressions and array elements. */
  function Size(e: Expr): (n: nat)
    ensures n >= 1
  {
    match e
    case ArrayValue(elems) => 1 + ElemsSize(elems)
    case FieldBinary(_, l, r) => 1 + Size(l) + Size(r)
    case FieldNeg(x) => 1 + Size(x)
    case FieldPos(x) => 1 + Size(x)
    case FieldPow(b, x) => 1 + Size(b) + Size(x)
    case UintBinary(_, _, l, r) => 1 + Size(l) + Size(r)
    case UintUnary(_, _, x) => 1 + Size(x)
    case FieldCompare(_, l, r) => 1 + Size(l) + Size(r)
    case UintCompare(_, l, r) => 1 + Size(l) + Size(r)
    case Or(l, r) => 1 + Size(l) + Size(r)
    case And(l, r) => 1 + Size(l) + Size(r)
    case Not(x) => 1 + Size(x)
    case Eq(l, r) => 1 + Size(l) + Size(r)
    case Conditional(c, t, f) => 1 + Size(c) + Size(t) + Size(f)
    case Select(a, i) => 1 + Size(a) + Size(i)
    case _ => 1
  }

  function ElemsSize(elems: seq<Elem>): nat {
    if elems == [] then 0 else ElemSize(elems[0]) + ElemsSize(elems[1..])
  }

  function ElemSize(el: Elem): (n: nat)
    ensures n >= 2
  {
    match el
    case Item(x) => 1 + Size(x)
    case Spread(a) => 1 + Size(a)
  }

  /** Values and array literals whose every element is constant. */
  predicate IsConstant(e: Expr) {
    match e
    case FieldValue(_) => true
    case UintValue(_, _) => true
    case BoolValue(_) => true
    case ArrayValue(elems) => forall i | 0 <= i < |elems| :: ElemIsConstant(elems[i])
    case _ => false
  }

  /** A constant spread is over an array literal: spreads only take arrays. */
  predicate ElemIsConstant(el: Elem) {
    match el
    case Item(x) => IsConstant(x)
    case Spread(a) => a.ArrayValue? && IsConstant(a)
  }

  /** A constant with every spread expanded: the form constants are compared and stored in. */
  predicate IsCanonical(e: Expr) {
    match e
    case FieldValue(_) => true
    case UintValue(_, _) => true
    case BoolValue(_) => true
    case ArrayValue(elems) => forall i | 0 <= i < |elems| :: elems[i].Item? && IsCanonical(elems[i].expr)
    case _ => false
  }

  /** `into_canonical_constant`: spreads of array literals are expanded in place. */
  function Canonical(e: Expr): Expr {
    match e
    case ArrayValue(elems) => ArrayValue(CanonicalElems(elems))
    case _ => e
  }

  function CanonicalElems(elems: seq<Elem>): seq<Elem> {
    if elems == [] then []
    else CanonicalElem(elems[0]) + CanonicalElems(elems[1..])
  }

  function CanonicalElem(el: Elem): seq<Elem> {
    match el
    case Item(x) => [Item(Canonical(x))]
    case Spread(a) =>
      match Canonical(a)
      case ArrayValue(v) => v
      case c => [Spread(c)]
  }

  // ---------------------------------------------------------------------
  // Meaning of expressions
  // ---------------------------------------------------------------------

  datatype Value =
    | VField(n: nat)
    | VUint(bw: Bitwidth, n: nat)
    | VBool(b: bool)
    | VArray(items: seq<Value>)

  type Env = map<Ident, Value>

  function FieldSem(op: FieldOp, a: nat, b: nat): Option<Value> {
    match op
    case FAdd => Some(VField(Field.Add(a, b)))
    case FSub => Some(VField(Field.Sub(a, b)))
    case FMult => Some(VField(Field.Mul(a, b)))
    case FDiv => if b == 0 then None else Some(VField(Field.Div(a, b)))
  }

  /** Whether the right operand of `op` is the 32-bit shift amount rather than a `bw` integer. */
  predicate IsShift(op: UintOp) {
    op == URightShift || op == ULeftShift
  }

  /** Reduction modulo 2^bw. */
  function Wrap(bw: Bitwidth, x: int): (r: nat)
    ensures r < bw.Modulus()
  {
    x % bw.Modulus()
  }

  /** The meaning of a `bw`-bit operator: arithmetic modulo 2^bw, `FloorSub` saturating at zero. */
  function UintSem(bw: Bitwidth, op: UintOp, a: nat, b: nat): Option<nat> {
    match op
    case UAdd => Some(Wrap(bw, a + b))
    case USub => Some(Wrap(bw, a - b))
    case UFloorSub => Some(if b <= a then a - b else 0)
    case UMult => Some(Wrap(bw, a * b))
    case UDiv => if b == 0 then None else Some(Quotient(a, b))
    case URem => if b == 0 then None else Some(a % b)
    case URightShift => Some(Quotient(a, Pow2(b)))
    case ULeftShift => Some(Wrap(bw, a * Pow2(b)))
    case UXor => Some(BitXor(a, b))
    case UAnd => Some(BitAnd(a, b))
  }

  function UintUnarySem(bw: Bitwidth, op: UintUnaryOp, a: nat): nat
    requires a < bw.Modulus()
  {
    match op
    case UNot => bw.Modulus() - 1 - a
    case UNeg => Wrap(bw, 0 - a)
    case UPos => a
  }

  function Compare(op: CompareOp, a: nat, b: nat): bool {
    match op
    case Lt => a < b
    case Le => a <= b
  }

  // The meaning of each node, given the meanings of its operands.

  function FieldBinaryValue(op: FieldOp, lv: Option<Value>, rv: Option<Value>): Option<Value> {
    if lv.Some? && lv.value.VField? && rv.Some? && rv.value.VField? then
      FieldSem(op, lv.value.n, rv.value.n)
    else None
  }

  function FieldNegValue(xv: Option<Value>): Option<Value> {
    if xv.Some? && xv.value.VField? then Some(VField(Field.Neg(xv.value.n))) else None
  }

  function FieldPosValue(xv: Option<Value>): Option<Value> {
    if xv.Some? && xv.value.VField? then xv else None
  }

  /** The exponent of a power is a `u32`. */
  function FieldPowValue(bv: Option<Value>, xv: Option<Value>): Option<Value> {
    if bv.Some? && bv.value.VField? && xv.Some? && xv.value.VUint? && xv.value.bw == B32 then
      Some(VField(Field.Pow(bv.value.n, xv.value.n)))
    else None
  }

  /** Both operands are `bw`-bit integers, except a shift amount, which is a `u32`. */
  function UintBinaryValue(bw: Bitwidth, op: UintOp, lv: Option<Value>, rv: Option<Value>): Option<Value> {
    if lv.Some? && lv.value.VUint? && lv.value.bw == bw
      && rv.Some? && rv.value.VUint? && rv.value.bw == (if IsShift(op) then B32 else bw)
      && UintSem(bw, op, lv.value.n, rv.value.n).Some?
    then Some(VUint(bw, UintSem(bw, op, lv.value.n, rv.value.n).value))
    else None
  }

  function UintUnaryValue(bw: Bitwidth, op: UintUnaryOp, xv: Option<Value>): Option<Value> {
    if xv.Some? && xv.value.VUint? && xv.value.bw == bw && xv.value.n < bw.Modulus() then
      Some(VUint(bw, UintUnarySem(bw, op, xv.value.n)))
    else None
  }

  function FieldCompareValue(op: CompareOp, lv: Option<Value>, rv: Option<Value>): Option<Value> {
    if lv.Some? && lv.value.VField? && rv.Some? && rv.value.VField? then
      Some(VBool(Compare(op, lv.value.n, rv.value.n)))
    else None
  }

  function UintCompareValue(op: CompareOp, lv: Option<Value>, rv: Option<Value>): Option<Value> {
    if lv.Some? && lv.value.VUint? && rv.Some? && rv.value.VUint? && lv.value.bw == rv.value.bw then
      Some(VBool(Compare(op, lv.value.n, rv.value.n)))
    else None
  }

  function OrValue(lv: Option<Value>, rv: Option<Value>): Option<Value> {
    if lv.Some? && lv.value.VBool? && rv.Some? && rv.value.VBool? then
      Some(VBool(lv.value.b || rv.value.b))
    else None
  }

  function AndValue(lv: Option<Value>, rv: Option<Value>): Option<Value> {
    if lv.Some? && lv.value.VBool? && rv.Some? && rv.value.VBool? then
      Some(VBool(lv.value.b && rv.value.b))
    else None
  }

  function NotValue(xv: Option<Value>): Option<Value> {
    if xv.Some? && xv.value.VBool? then Some(VBool(!xv.value.b)) else None
  }

  function EqValue(lv: Option<Value>, rv: Option<Value>): Option<Value> {
    if lv.Some? && rv.Some? then Some(VBool(lv.value == rv.value)) else None
  }

  /** Only the chosen branch needs a value. */
  function ConditionalValue(cv: Option<Value>, tv: Option<Value>, fv: Option<Value>): Option<Value> {
    if cv.Some? && cv.value.VBool? then (if cv.value.b then tv else fv) else None
  }

  /** Array indices are `u32`; an index out of range has no value. */
  function SelectValue(av: Option<Value>, iv: Option<Value>): Option<Value> {
    if av.Some? && av.value.VArray? && iv.Some? && iv.value.VUint? && iv.value.bw == B32
      && iv.value.n < |av.value.items|
    then Some(av.value.items[iv.value.n])
    else None
  }

  /**
   * The value of `e` under `env`, or `None` when it is ill-typed, reads an
   * unbound identifier, divides by zero, selects out of range or holds a
   * literal outside its type.
   */
  function Eval(env: Env, e: Expr): Option<Value>
    decreases e
  {
    match e
    case FieldValue(n) => if Field.IsElement(n) then Some(VField(n)) else None
    case UintValue(bw, v) => if v < bw.Modulus() then Some(VUint(bw, v)) else None
    case BoolValue(b) => Some(VBool(b))
    case ArrayValue(elems) =>
      var vs := EvalElems(env, elems);
      if vs.Some? then Some(VArray(vs.value)) else None
    case Identifier(id) => if id in env then Some(env[id]) else None
    case FieldBinary(op, l, r) => FieldBinaryValue(op, Eval(env, l), Eval(env, r))
    case FieldNeg(x) => FieldNegValue(Eval(env, x))
    case FieldPos(x) => FieldPosValue(Eval(env, x))
    case FieldPow(b, x) => FieldPowValue(Eval(env, b), Eval(env, x))
    case UintBinary(bw, op, l, r) => UintBinaryValue(bw, op, Eval(env, l), Eval(env, r))
    case UintUnary(bw, op, x) => UintUnaryValue(bw, op, Eval(env, x))
    case FieldCompare(op, l, r) => FieldCompareValue(op, Eval(env, l), Eval(env, r))
    case UintCompare(op, l, r) => UintCompareValue(op, Eval(env, l), Eval(env, r))
    case Or(l, r) => OrValue(Eval(env, l), Eval(env, r))
    case And(l, r) => AndValue(Eval(env, l), Eval(env, r))
    case Not(x) => NotValue(Eval(env, x))
    case Eq(l, r) => EqValue(Eval(env, l), Eval(env, r))
    case Conditional(c, t, f) => ConditionalValue(Eval(env, c), Eval(env, t), Eval(env, f))
    case Select(a, i) => SelectValue(Eval(env, a), Eval(env, i))
  }

  /** The values of an array literal's elements, spreads expanded. */
  function EvalElems(env: Env, elems: seq<Elem>): Option<seq<Value>>
    decreases elems
  {
    if elems == [] then Some([])
    else
      match (EvalElem(env, elems[0]), EvalElems(env, elems[1..]))
      case (Some(h), Some(t)) => Some(h + t)
      case _ => None
  }

  function EvalElem(env: Env, el: Elem): Option<seq<Value>>
    decreases el
  {
    match el
    case Item(x) =>
      (match Eval(env, x)
       case Some(v) => Some([v])
       case None => None)
    case Spread(a) =>
      (match Eval(env, a)
       case Some(VArray(vs)) => Some(vs)
       case _ => None)
  }

  // ---------------------------------------------------------------------
  // Facts about array literals and canonical constants
  // ---------------------------------------------------------------------

  predicate AllItems(elems: seq<Elem>) {
    forall i | 0 <= i < |elems| :: elems[i].Item?
  }

  /** The elements of a concatenation evaluate to the concatenation of the values. */
  lemma {:induction false} EvalElemsAppend(env: Env, xs: seq<Elem>, ys: seq<Elem>)
    ensures EvalElems(env, xs + ys) ==
      (match (EvalElems(env, xs), EvalElems(env, ys))
       case (Some(a), Some(b)) => Some(a + b)
       case _ => None)
    decreases |xs|
  {
    if xs != [] {
      assert (xs + ys)[0] == xs[0];
      assert (xs + ys)[1..] == xs[1..] + ys;
      EvalElemsAppend(env, xs[1..], ys);
      var h, t, b := EvalElem(env, xs[0]), EvalElems(env, xs[1..]), EvalElems(env, ys);
      if h.Some? && t.Some? && b.Some? {
        assert h.value + (t.value + b.value) == (h.value + t.value) + b.value;
      }
    } else {
      assert xs + ys == ys;
      if EvalElems(env, ys).Some? {
        assert [] + EvalElems(env, ys).value == EvalElems(env, ys).value;
      }
    }
  }

  /** An array literal without spreads has one value per element, in order. */
  lemma {:induction false} EvalItems(env: Env, elems: seq<Elem>, vs: seq<Value>)
    requires AllItems(elems) && EvalElems(env, elems) == Some(vs)
    ensures |vs| == |elems|
    ensures forall n | 0 <= n < |elems| :: Eval(env, elems[n].expr) == Some(vs[n])
    decreases |elems|
  {
    if elems != [] {
      var t :| EvalElems(env, elems[1..]) == Some(t) && vs == [vs[0]] + t;
      EvalItems(env, elems[1..], t);
      forall n | 0 <= n < |elems|
        ensures Eval(env, elems[n].expr) == Some(vs[n])
      {
        if n > 0 {
          assert elems[1..][n - 1] == elems[n];
        }
      }
    }
  }

  lemma {:induction false} CanonicalIsConstant(e: Expr)
    requires IsCanonical(e)
    ensures IsConstant(e)
    decreases e
  {
    match e
    case ArrayValue(elems) =>
      forall i | 0 <= i < |elems| ensures ElemIsConstant(elems[i]) {
        CanonicalIsConstant(elems[i].expr);
      }
    case _ =>
  }

  predicate AllCanonicalItems(elems: seq<Elem>) {
    forall i | 0 <= i < |elems| :: elems[i].Item? && IsCanonical(elems[i].expr)
  }

  /** The canonical form of a constant is canonical. */
  lemma {:induction false} CanonicalForm(e: Expr)
    requires IsConstant(e)
    ensures IsCanonical(Canonical(e))
    decreases Size(e), 1
  {
    if e.ArrayValue? {
      CanonicalElemsForm(e.elems);
      assert Canonical(e) == ArrayValue(CanonicalElems(e.elems));
    }
  }

  lemma {:induction false} CanonicalElemsForm(elems: seq<Elem>)
    requires forall i | 0 <= i < |elems| :: ElemIsConstant(elems[i])
    ensures AllCanonicalItems(CanonicalElems(elems))
    decreases ElemsSize(elems), 1
  {
    if elems != [] {
      var e0 := elems[0];
      assert ElemIsConstant(e0);
      assert ElemsSize(elems) == ElemSize(e0) + ElemsSize(elems[1..]);
      CanonicalElemsForm(elems[1..]);
      var h, t := CanonicalElem(e0), CanonicalElems(elems[1..]);
      match e0 {
        case Item(x) =>
          CanonicalForm(x);
        case Spread(a) =>
          assert a.ArrayValue? && IsConstant(a);
          assert forall i | 0 <= i < |a.elems| :: ElemIsConstant(a.elems[i]);
          assert ElemSize(e0) == 2 + ElemsSize(a.elems);
          CanonicalElemsForm(a.elems);
          assert Canonical(a) == ArrayValue(CanonicalElems(a.elems));
          assert h == CanonicalElems(a.elems);
      }
      var c := h + t;
      assert AllCanonicalItems(h);
      forall i | 0 <= i < |c| ensures c[i].Item? && IsCanonical(c[i].expr) {
        if i >= |h| {
          assert c[i] == t[i - |h|];
        } else {
          assert c[i] == h[i];
        }
      }
    }
  }

  /** Putting a constant in canonical form keeps its value and yields a canonical constant. */
  lemma {:induction false} CanonicalSound(env: Env, e: Expr)
    requires IsConstant(e) && Eval(env, e).Some?
    ensures IsCanonical(Canonical(e)) && Eval(env, Canonical(e)) == Eval(env, e)
    decreases Size(e), 1
  {
    match e
    case ArrayValue(elems) =>
      CanonicalElemsSound(env, elems);
    case _ =>
  }

  lemma {:induction false} CanonicalElemsSound(env: Env, elems: seq<Elem>)
    requires forall i | 0 <= i < |elems| :: ElemIsConstant(elems[i])
    requires EvalElems(env, elems).Some?
    ensures var c := CanonicalElems(elems);
      (forall i | 0 <= i < |c| :: c[i].Item? && IsCanonical(c[i].expr)) &&
      EvalElems(env, c) == EvalElems(env, elems)
    decreases ElemsSize(elems), 1
  {
    if elems != [] {
      var e0 := elems[0];
      var h, t := CanonicalElem(e0), CanonicalElems(elems[1..]);
      assert ElemIsConstant(e0);
      assert EvalElem(env, e0).Some? && EvalElems(env, elems[1..]).Some?;
      assert ElemsSize(elems) == ElemSize(e0) + ElemsSize(elems[1..]);
      CanonicalElemsSound(env, elems[1..]);
      CanonicalElemSound(env, e0);
      EvalElemsAppend(env, h, t);
      var c := h + t;
      forall i | 0 <= i < |c| ensures c[i].Item? && IsCanonical(c[i].expr) {
        if i >= |h| {
          assert c[i] == t[i - |h|];
        }
      }
    }
  }

  lemma {:induction false} CanonicalElemSound(env: Env, el: Elem)
    requires ElemIsConstant(el) && EvalElem(env, el).Some?
    ensures var c := CanonicalElem(el);
      (forall i | 0 <= i < |c| :: c[i].Item? && IsCanonical(c[i].expr)) &&
      EvalElems(env, c) == EvalElem(env, el)
    decreases ElemSize(el), 0
  {
    match el
    case Item(x) =>
      CanonicalSound(env, x);
      var c := CanonicalElem(el);
      assert c[1..] == [];
      assert EvalElems(env, c) == Some([Eval(env, x).value] + []);
      assert [Eval(env, x).value] + [] == [Eval(env, x).value];
    case Spread(a) =>
      assert Eval(env, a).Some? && Eval(env, a).value.VArray?;
      match a {
        case ArrayValue(inner) =>
          assert EvalElems(env, inner).Some?;
          assert ElemSize(el) == 2 + ElemsSize(inner);
          CanonicalElemsSound(env, inner);
        case _ =>
          assert false;
      }
  }

  lemma {:induction false} ItemsLength(env: Env, elems: seq<Elem>, vs: seq<Value>)
    requires AllItems(elems) && EvalElems(env, elems) == Some(vs)
    ensures |vs| == |elems|
  {
    EvalItems(env, elems, vs);
  }

  /** Two canonical constants with the same value are the same expression. */
  lemma {:induction false} CanonicalInjective(env: Env, a: Expr, b: Expr)
    requires IsCanonical(a) && IsCanonical(b)
    requires Eval(env, a).Some? && Eval(env, a) == Eval(env, b)
    ensures a == b
    decreases Size(a), 1
  {
    match a
    case ArrayValue(xs) =>
      var ys := b.elems;
      CanonicalElemsInjective(env, xs, ys);
    case _ =>
  }

  lemma {:induction false} CanonicalElemsInjective(env: Env, xs: seq<Elem>, ys: seq<Elem>)
    requires forall i | 0 <= i < |xs| :: xs[i].Item? && IsCanonical(xs[i].expr)
    requires forall i | 0 <= i < |ys| :: ys[i].Item? && IsCanonical(ys[i].expr)
    requires EvalElems(env, xs).Some? && EvalElems(env, xs) == EvalElems(env, ys)
    ensures xs == ys
    decreases ElemsSize(xs), 0
  {
    ItemsLength(env, xs, EvalElems(env, xs).value);
    ItemsLength(env, ys, EvalElems(env, ys).value);
    if xs != [] {
      assert ys != [];
      var vx, vy := Eval(env, xs[0].expr), Eval(env, ys[0].expr);
      var tx, ty := EvalElems(env, xs[1..]), EvalElems(env, ys[1..]);
      assert vx.Some? && vy.Some? && tx.Some? && ty.Some?;
      assert EvalElems(env, xs).value == [vx.value] + tx.value;
      assert EvalElems(env, ys).value == [vy.value] + ty.value;
      assert vx.value == vy.value && tx.value == ty.value by {
        assert ([vx.value] + tx.value)[0] == vx.value;
        assert ([vx.value] + tx.value)[1..] == tx.value;
        assert ([vy.value] + ty.value)[0] == vy.value;
        assert ([vy.value] + ty.value)[1..] == ty.value;
      }
      assert xs[0] in xs && ys[0] in ys;
      assert ElemsSize(xs) == ElemSize(xs[0]) + ElemsSize(xs[1..]);
      CanonicalInjective(env, xs[0].expr, ys[0].expr);
      CanonicalElemsInjective(env, xs[1..], ys[1..]);
      assert xs == [xs[0]] + xs[1..];
      assert ys == [ys[0]] + ys[1..];
    }
  }

  /** A canonical constant mentions no identifier: its value is the same in every environment. */
  lemma {:induction false} CanonicalClosed(env1: Env, env2: Env, e: Expr)
    requires IsCanonical(e)
    ensures Eval(env1, e) == Eval(env2, e)
    decreases Size(e), 1
  {
    if e.ArrayValue? {
      CanonicalElemsClosed(env1, env2, e.elems);
    }
  }

  lemma {:induction false} CanonicalElemsClosed(env1: Env, env2: Env, elems: seq<Elem>)
    requires AllCanonicalItems(elems)
    ensures EvalElems(env1, elems) == EvalElems(env2, elems)
    decreases ElemsSize(elems), 1
  {
    if elems != [] {
      assert ElemsSize(elems) == ElemSize(elems[0]) + ElemsSize(elems[1..]);
      assert AllCanonicalItems(elems[1..]) by {
        forall i | 0 <= i < |elems[1..]| ensures elems[1..][i].Item? && IsCanonical(elems[1..][i].expr) {
          assert elems[1..][i] == elems[i + 1];
        }
      }
      CanonicalElemsClosed(env1, env2, elems[1..]);
      assert elems[0].Item? && IsCanonical(elems[0].expr);
      assert ElemSize(elems[0]) == 1 + Size(elems[0].expr);
      CanonicalClosed(env1, env2, elems[0].expr);
    }
  }
}
