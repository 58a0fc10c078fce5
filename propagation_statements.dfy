/**
 * The statement folder of the constant propagator. A `Propagator` holds the
 * map of known constants: a definition whose right-hand side folds to a
 * constant is absorbed into the map and emits nothing; any other definition
 * invalidates the cached constant of the variable it writes, emitting that
 * constant's last value before the new definition.
 */
module PropagationStatements {
  import opened Wrappers
  import opened Arith
  import opened Typed
  import opened Propagation
  import BitPacking
  import Field

  /** The target of a definition: a variable, or an element of one. */
  datatype Assignee = AssignIdentifier(id: Ident) | AssignSelect(base: Assignee, index: Expr)

  /** The embedded functions the propagator evaluates, and the ones it does not. */
  datatype Embed =
    | BitArrayLe
    | UFromBits(bw: Bitwidth)
    | UToBits(bw: Bitwidth)
    | Unpack
    | Sha256Round
    | SnarkVerifyBls12377

  datatype EmbedCall = EmbedCall(embed: Embed, generics: seq<nat>, arguments: seq<Expr>)

  datatype Rhs = RhsExpression(expr: Expr) | RhsEmbedCall(call: EmbedCall)

  datatype Statement =
    | Definition(assignee: Assignee, rhs: Rhs)
    | For(variable: Ident, from: Expr, to: Expr, body: seq<Statement>)
    | Assertion(condition: Expr)
    | PushCallLog(callee: string)
    | PopCallLog

  /** The variable at the root of an assignee. */
  function Root(a: Assignee): Ident {
    match a
    case AssignIdentifier(id) => id
    case AssignSelect(base, _) => Root(base)
  }

  /** The indices of an assignee are folded, innermost first. */
  function FoldAssignee(c: Constants, a: Assignee): Result<Assignee, Error> {
    match a
    case AssignIdentifier(_) => Ok(a)
    case AssignSelect(base, index) =>
      var base' :- FoldAssignee(c, base);
      var index' :- Fold(c, index);
      Ok(AssignSelect(base', index'))
  }

  function FoldArguments(c: Constants, args: seq<Expr>): (r: Result<seq<Expr>, Error>)
    ensures r.Ok? ==> |r.value| == |args|
  {
    if args == [] then Ok([])
    else
      var h :- Fold(c, args[0]);
      var t :- FoldArguments(c, args[1..]);
      Ok([h] + t)
  }

  function FoldEmbedCall(c: Constants, call: EmbedCall): Result<EmbedCall, Error> {
    var args :- FoldArguments(c, call.arguments);
    Ok(call.(arguments := args))
  }

  // ---------------------------------------------------------------------
  // Access paths into the constants
  // ---------------------------------------------------------------------

  /**
   * Where an assignee lands in the constants: on a stored element (`Hit`),
   * outside anything stored (`Miss`: no constant for the root, an index
   * that is not constant or out of range), or on a shape the types rule out
   * (`Stuck`: indexing into something that is not an array literal, or into
   * a spread).
   */
  datatype Located = Hit(e: Expr) | Miss | Stuck

  function Locate(c: Constants, a: Assignee): Located {
    match a
    case AssignIdentifier(id) => if id in c then Hit(c[id]) else Miss
    case AssignSelect(base, index) =>
      match Locate(c, base)
      case Hit(e) =>
        if !index.UintValue? then Miss
        else if !e.ArrayValue? then Stuck
        else if index.v >= |e.elems| then Miss
        else if e.elems[index.v].Item? then Hit(e.elems[index.v].expr)
        else Stuck
      case Miss => Miss
      case Stuck => Stuck
  }

  /** Overwrites the stored element an assignee lands on. */
  function SetAt(c: Constants, a: Assignee, v: Expr): Constants
    requires Locate(c, a).Hit?
  {
    match a
    case AssignIdentifier(id) => c[id := v]
    case AssignSelect(base, index) =>
      var arr := Locate(c, base).e;
      SetAt(c, base, ArrayValue(arr.elems[index.v := Item(v)]))
  }

  predicate AllCanonical(c: Constants) {
    forall id | id in c :: IsCanonical(c[id])
  }

  lemma {:induction false} LocateRoot(c: Constants, a: Assignee)
    ensures Locate(c, a).Hit? ==> Root(a) in c
  {
    if a.AssignSelect? {
      LocateRoot(c, a.base);
    }
  }

  /** After overwriting, the assignee lands on the new value. */
  lemma {:induction false} LocateSetAt(c: Constants, a: Assignee, v: Expr)
    requires Locate(c, a).Hit?
    ensures Locate(SetAt(c, a, v), a) == Hit(v)
  {
    match a
    case AssignIdentifier(id) =>
    case AssignSelect(base, index) =>
      var arr := Locate(c, base).e;
      var arr' := ArrayValue(arr.elems[index.v := Item(v)]);
      LocateSetAt(c, base, arr');
  }

  /** Overwriting keeps the variables and changes only the root's constant. */
  lemma {:induction false} SetAtFrame(c: Constants, a: Assignee, v: Expr)
    requires Locate(c, a).Hit?
    ensures SetAt(c, a, v).Keys == c.Keys
    ensures forall id | id in c && id != Root(a) :: SetAt(c, a, v)[id] == c[id]
  {
    LocateRoot(c, a);
    if a.AssignSelect? {
      var arr := Locate(c, a.base).e;
      SetAtFrame(c, a.base, ArrayValue(arr.elems[a.index.v := Item(v)]));
    }
  }

  lemma {:induction false} LocateCanonical(c: Constants, a: Assignee)
    requires AllCanonical(c) && Locate(c, a).Hit?
    ensures IsCanonical(Locate(c, a).e)
  {
    if a.AssignSelect? {
      LocateCanonical(c, a.base);
    }
  }

  /** Overwriting with a canonical constant keeps every constant canonical. */
  lemma {:induction false} SetAtCanonical(c: Constants, a: Assignee, v: Expr)
    requires AllCanonical(c) && IsCanonical(v) && Locate(c, a).Hit?
    ensures AllCanonical(SetAt(c, a, v))
  {
    match a
    case AssignIdentifier(id) =>
    case AssignSelect(base, index) =>
      var arr := Locate(c, base).e;
      LocateCanonical(c, base);
      var elems' := arr.elems[index.v := Item(v)];
      assert forall i | 0 <= i < |elems'| :: elems'[i].Item? && IsCanonical(elems'[i].expr);
      SetAtCanonical(c, base, ArrayValue(elems'));
  }

  // ---------------------------------------------------------------------
  // Embedded calls with constant arguments
  // ---------------------------------------------------------------------

  /**
   * What the embedded calls demand of their folded constant arguments:
   * a single argument of the right shape; a bit array no longer than the
   * width it is packed into; an integer that fits the width it is
   * unpacked from; one generic width for `Unpack`.
   */
  predicate EmbedArgumentsFit(call: EmbedCall) {
    match call.embed
    case UFromBits(bw) =>
      |call.arguments| == 1 && BitPacking.IsBitArray(Canonical(call.arguments[0]))
      && |Canonical(call.arguments[0]).elems| <= bw.Bits()
    case UToBits(bw) =>
      |call.arguments| == 1 && call.arguments[0].UintValue? && call.arguments[0].v < bw.Modulus()
    case Unpack =>
      |call.arguments| == 1 && |call.generics| == 1 && call.arguments[0].FieldValue?
    case _ => true
  }

  predicate AllConstant(args: seq<Expr>) {
    forall i | 0 <= i < |args| :: IsConstant(args[i])
  }

  /**
   * Evaluates an embedded call on constant arguments: `Some` constant, or
   * `None` for the calls the propagator leaves to run time.
   */
  method EvaluateEmbed(call: EmbedCall) returns (r: Result<Option<Expr>, Error>)
    requires EmbedArgumentsFit(call)
    ensures call.embed.UFromBits? ==>
      var bits := BitPacking.ArrayBits(Canonical(call.arguments[0]));
      var w := call.embed.bw.Bits();
      r == Ok(Some(UintValue(call.embed.bw, BitPacking.FromBits(bits, w)))) && BitPacking.FromBits(bits, w) < Pow2(w)
    ensures call.embed.UToBits? ==>
      r.Ok? && r.value.Some? && IsCanonical(r.value.value) && BitPacking.IsBitArray(r.value.value)
      && |r.value.value.elems| == call.embed.bw.Bits()
      && BitPacking.FromBits(BitPacking.ArrayBits(r.value.value), call.embed.bw.Bits()) == call.arguments[0].v
    ensures call.embed.Unpack? ==>
      var n, w := call.arguments[0].n, call.generics[0];
      (r.Err? ==> r.error == ValueTooLarge(n, w)) &&
      (r.Ok? ==>
         r.value.Some? && IsCanonical(r.value.value) && BitPacking.IsBitArray(r.value.value)
         && |r.value.value.elems| == w) &&
      (Field.IsElement(n) && w <= 254 ==>
        (r.Ok? <==> n < Pow2(w)) &&
        (r.Ok? ==> BitPacking.FromBits(BitPacking.ArrayBits(r.value.value), w) == n))
    ensures !call.embed.UFromBits? && !call.embed.UToBits? && !call.embed.Unpack? ==> r == Ok(None)
  {
    match call.embed {
      case UFromBits(bw) =>
        var bits := BitPacking.ArrayBits(Canonical(call.arguments[0]));
        BitPacking.FromBitsBelow(bits, bw.Bits());
        ModulusIsPow2(bw);
        r := Ok(Some(UintValue(bw, BitPacking.FromBits(bits, bw.Bits()))));
      case UToBits(bw) =>
        ModulusIsPow2(bw);
        var bits := BitPacking.UToBits(call.arguments[0].v, bw.Bits());
        r := Ok(Some(BitPacking.BitsArray(bits)));
      case Unpack =>
        var n, w := call.arguments[0].n, call.generics[0];
        var bits, acc := BitPacking.Unpack(n, w);
        if acc != 0 {
          r := Err(ValueTooLarge(n, w));
        } else {
          r := Ok(Some(BitPacking.BitsArray(bits)));
        }
      case _ =>
        r := Ok(None);
    }
  }

  // ---------------------------------------------------------------------
  // Assertions
  // ---------------------------------------------------------------------

  /**
   * The assertion rule as the source writes it: a condition that folds to
   * `true` is reported as failing, one that folds to `false` is dropped.
   */
  function FoldAssertionAsWritten(c: Constants, e: Expr): Result<seq<Statement>, Error> {
    var e' :- Fold(c, e);
    if e'.BoolValue? && e'.b then Err(AssertionFailed(e))
    else if e'.BoolValue? then Ok([])
    else Ok([Assertion(e')])
  }

  /** The assertion rule as intended: `true` is dropped, `false` is reported. */
  function FoldAssertion(c: Constants, e: Expr): Result<seq<Statement>, Error> {
    var e' :- Fold(c, e);
    if e'.BoolValue? && !e'.b then Err(AssertionFailed(e))
    else if e'.BoolValue? then Ok([])
    else Ok([Assertion(e')])
  }

  /** Invalidates the cached constant of `v`, if any, emitting its last value before `def`. */
  function Evicted(c: Constants, v: Ident, def: Statement): seq<Statement> {
    if v in c then [Definition(AssignIdentifier(v), RhsExpression(c[v])), def] else [def]
  }

  /**
   * What folding a definition demands: the assignee never runs into a
   * shape the types rule out, and an identifier defined to a constant was
   * not yet known (the source asserts this; in SSA form each variable is
   * defined once).
   */
  predicate DefinitionFits(c: Constants, a: Assignee, e: Expr) {
    FoldAssignee(c, a).Ok? && Fold(c, e).Ok? ==>
      var a' := FoldAssignee(c, a).value;
      Locate(c, a') != Stuck &&
      (IsConstant(Fold(c, e).value) && a'.AssignIdentifier? ==> a'.id !in c)
  }

  predicate EmbedDefinitionFits(c: Constants, a: Assignee, call: EmbedCall) {
    FoldAssignee(c, a).Ok? && FoldEmbedCall(c, call).Ok? ==>
      Locate(c, FoldAssignee(c, a).value) != Stuck &&
      (AllConstant(FoldEmbedCall(c, call).value.arguments) ==> EmbedArgumentsFit(FoldEmbedCall(c, call).value))
  }

  predicate StatementFits(c: Constants, s: Statement) {
    match s
    case Definition(a, RhsExpression(e)) => DefinitionFits(c, a, e)
    case Definition(a, RhsEmbedCall(call)) => EmbedDefinitionFits(c, a, call)
    case _ => true
  }

  /** The embedded calls the propagator evaluates once their arguments are constant. */
  predicate Evaluated(call: EmbedCall) {
    AllConstant(call.arguments) && (call.embed.UFromBits? || call.embed.UToBits? || call.embed.Unpack?)
  }

  /** `x` is the value of an evaluated embedded call on its constant arguments. */
  ghost predicate IsEmbedValue(call: EmbedCall, x: Expr)
    requires EmbedArgumentsFit(call)
  {
    match call.embed
    case UFromBits(bw) =>
      x == UintValue(bw, BitPacking.FromBits(BitPacking.ArrayBits(Canonical(call.arguments[0])), bw.Bits()))
    case UToBits(bw) =>
      IsCanonical(x) && BitPacking.IsBitArray(x) && |x.elems| == bw.Bits() &&
      BitPacking.FromBits(BitPacking.ArrayBits(x), bw.Bits()) == call.arguments[0].v
    case Unpack =>
      IsCanonical(x) && BitPacking.IsBitArray(x) && |x.elems| == call.generics[0] &&
      (Field.IsElement(call.arguments[0].n) && call.generics[0] <= 254 ==>
        BitPacking.FromBits(BitPacking.ArrayBits(x), call.generics[0]) == call.arguments[0].n)
    case _ => false
  }

  /**
   * The result `r` and the new constants `c'` of a definition of `a` by `e`
   * under the constants `c`: an error of the assignee or the expression
   * changes nothing; a constant at an identifier is stored; a constant at
   * a stored element overwrites it; anything else invalidates the root.
   */
  ghost predicate DefineExpressionOutcome(c: Constants, c': Constants, a: Assignee, e: Expr,
                                          r: Result<seq<Statement>, Error>)
  {
    (FoldAssignee(c, a).Err? ==> r == Err(FoldAssignee(c, a).error) && c' == c) &&
    (FoldAssignee(c, a).Ok? && Fold(c, e).Err? ==> r == Err(Fold(c, e).error) && c' == c) &&
    (FoldAssignee(c, a).Ok? && Fold(c, e).Ok? ==>
      var a', e' := FoldAssignee(c, a).value, Fold(c, e).value;
      r.Ok? &&
      if IsConstant(e') && a'.AssignIdentifier? then
        a'.id !in c && c' == c[a'.id := Canonical(e')] && r.value == []
      else if IsConstant(e') && Locate(c, a').Hit? then
        c' == SetAt(c, a', Canonical(e')) && r.value == []
      else
        c' == c - {Root(a')} && r.value == Evicted(c, Root(a'), Definition(a', RhsExpression(e'))))
  }

  /**
   * The result `r` and the new constants `c'` of a definition of `a` by an
   * embedded call: only the root's constant changes; a call left to run
   * time invalidates the root; an evaluated call stores its value at an
   * identifier, overwrites a stored element, or invalidates the root and
   * emits its value; an unpacking fails exactly when the value does not fit.
   */
  ghost predicate DefineEmbedOutcome(c: Constants, c': Constants, a: Assignee, call: EmbedCall,
                                     r: Result<seq<Statement>, Error>)
    requires EmbedDefinitionFits(c, a, call)
  {
    (FoldAssignee(c, a).Err? ==> r == Err(FoldAssignee(c, a).error) && c' == c) &&
    (FoldAssignee(c, a).Ok? && FoldEmbedCall(c, call).Err? ==> r == Err(FoldEmbedCall(c, call).error) && c' == c) &&
    (FoldAssignee(c, a).Ok? && FoldEmbedCall(c, call).Ok? ==>
      EmbedFoldedOutcome(c, c', FoldAssignee(c, a).value, FoldEmbedCall(c, call).value, r))
  }

  /** `DefineEmbedOutcome` once the assignee `a` and the call `call` are folded. */
  ghost predicate EmbedFoldedOutcome(c: Constants, c': Constants, a: Assignee, call: EmbedCall,
                                     r: Result<seq<Statement>, Error>)
    requires AllConstant(call.arguments) ==> EmbedArgumentsFit(call)
  {
    var v := Root(a);
    // nothing but the root variable's constant changes
    (forall id | id != v :: (id in c' <==> id in c)) &&
    (forall id | id != v && id in c' :: c'[id] == c[id]) &&
    // a call left to run time invalidates the root and is emitted as it is
    (!Evaluated(call) ==>
      c' == c - {v} && r == Ok(Evicted(c, v, Definition(a, RhsEmbedCall(call))))) &&
    // only an unpacking can fail, and only when its value does not fit
    (r.Err? ==>
      c' == c && call.embed.Unpack? && r.error == ValueTooLarge(call.arguments[0].n, call.generics[0])) &&
    (Evaluated(call) && call.embed.Unpack? &&
     Field.IsElement(call.arguments[0].n) && call.generics[0] <= 254 ==>
      (r.Ok? <==> call.arguments[0].n < Pow2(call.generics[0]))) &&
    // an evaluated call stored at an identifier
    (Evaluated(call) && r.Ok? && a.AssignIdentifier? ==>
      r.value == [] && v in c' && IsEmbedValue(call, c'[v])) &&
    // an evaluated call written into a stored element
    (Evaluated(call) && r.Ok? && !a.AssignIdentifier? && Locate(c, a).Hit? ==>
      r.value == [] && Locate(c', a).Hit? && IsEmbedValue(call, Locate(c', a).e) &&
      c' == SetAt(c, a, Locate(c', a).e)) &&
    // an evaluated call into an element that is not stored
    (Evaluated(call) && r.Ok? && !a.AssignIdentifier? && !Locate(c, a).Hit? ==>
      c' == c - {v} && |r.value| >= 1 &&
      var d := r.value[|r.value| - 1];
      d.Definition? && d.assignee == a && d.rhs.RhsExpression? && IsEmbedValue(call, d.rhs.expr) &&
      r.value == Evicted(c, v, d))
  }

  /** The constant propagator over statements; `constants` persists across calls. */
  class Propagator {
    var constants: Constants

    predicate Valid()
      reads this
    {
      AllCanonical(constants)
    }

    /** `with_constants`: a propagator sharing a map of constants known so far. */
    constructor (constants: Constants)
      requires AllCanonical(constants)
      ensures Valid() && this.constants == constants
    {
      this.constants := constants;
    }

    /** Removes the cached constant of `v` and returns the statements to emit. */
    method Evict(v: Ident, def: Statement) returns (out: seq<Statement>)
      modifies this
      requires Valid()
      ensures Valid()
      ensures constants == old(constants) - {v}
      ensures out == Evicted(old(constants), v, def)
    {
      out := Evicted(constants, v, def);
      constants := constants - {v};
    }

    /** Stores a constant at an assignee: a new entry, an element overwritten in place, or an eviction. */
    method Store(a: Assignee, x: Expr) returns (out: seq<Statement>)
      modifies this
      requires Valid() && IsCanonical(x) && Locate(constants, a) != Stuck
      ensures Valid()
      ensures a.AssignIdentifier? ==> constants == old(constants)[a.id := x] && out == []
      ensures !a.AssignIdentifier? && Locate(old(constants), a).Hit? ==>
        constants == SetAt(old(constants), a, x) && out == []
      ensures !a.AssignIdentifier? && !Locate(old(constants), a).Hit? ==>
        constants == old(constants) - {Root(a)} &&
        out == Evicted(old(constants), Root(a), Definition(a, RhsExpression(x)))
    {
      if a.AssignIdentifier? {
        constants := constants[a.id := x];
        out := [];
      } else if Locate(constants, a).Hit? {
        SetAtCanonical(constants, a, x);
        constants := SetAt(constants, a, x);
        out := [];
      } else {
        out := Evict(Root(a), Definition(a, RhsExpression(x)));
      }
    }

    /** A definition by an expression. */
    method DefineExpression(a: Assignee, e: Expr) returns (r: Result<seq<Statement>, Error>)
      modifies this
      requires Valid() && DefinitionFits(constants, a, e)
      ensures Valid()
      ensures DefineExpressionOutcome(old(constants), constants, a, e, r)
    {
      var fa := FoldAssignee(constants, a);
      if fa.Err? {
        return Err(fa.error);
      }
      var fe := Fold(constants, e);
      if fe.Err? {
        return Err(fe.error);
      }
      var a', e' := fa.value, fe.value;
      if IsConstant(e') && a'.AssignIdentifier? {
        var x := Canonical(e');
        CanonicalForm(e');
        constants := constants[a'.id := x];
        r := Ok([]);
      } else if IsConstant(e') && Locate(constants, a').Hit? {
        var x := Canonical(e');
        CanonicalForm(e');
        SetAtCanonical(constants, a', x);
        constants := SetAt(constants, a', x);
        r := Ok([]);
      } else {
        var out := Evict(Root(a'), Definition(a', RhsExpression(e')));
        r := Ok(out);
      }
    }

    /** A definition by a call to an embedded function. */
    method DefineEmbedCall(a: Assignee, call: EmbedCall) returns (r: Result<seq<Statement>, Error>)
      modifies this
      requires Valid() && EmbedDefinitionFits(constants, a, call)
      ensures Valid()
      ensures DefineEmbedOutcome(old(constants), constants, a, call, r)
    {
      var fa := FoldAssignee(constants, a);
      if fa.Err? {
        return Err(fa.error);
      }
      var fc := FoldEmbedCall(constants, call);
      if fc.Err? {
        return Err(fc.error);
      }
      r := DefineFoldedEmbed(fa.value, fc.value);
    }

    /** A definition by an embedded call, with the assignee and the arguments folded. */
    method DefineFoldedEmbed(a: Assignee, call: EmbedCall) returns (r: Result<seq<Statement>, Error>)
      modifies this
      requires Valid() && Locate(constants, a) != Stuck
      requires AllConstant(call.arguments) ==> EmbedArgumentsFit(call)
      ensures Valid()
      ensures EmbedFoldedOutcome(old(constants), constants, a, call, r)
    {
      if Evaluated(call) {
        r := DefineEvaluated(a, call);
      } else {
        var out := Evict(Root(a), Definition(a, RhsEmbedCall(call)));
        r := Ok(out);
      }
    }

    /** An embedded call the propagator evaluates: its value is stored, or its unpacking fails. */
    method DefineEvaluated(a: Assignee, call: EmbedCall) returns (r: Result<seq<Statement>, Error>)
      modifies this
      requires Valid() && Locate(constants, a) != Stuck
      requires Evaluated(call) && EmbedArgumentsFit(call)
      ensures Valid()
      ensures EmbedFoldedOutcome(old(constants), constants, a, call, r)
    {
      var res := EvaluateEmbed(call);
      if res.Err? {
        return Err(res.error);
      }
      var x := res.value.value;
      assert IsEmbedValue(call, x);
      LocateRoot(constants, a);
      if Locate(constants, a).Hit? {
        SetAtFrame(constants, a, x);
        LocateSetAt(constants, a, x);
      }
      var out := Store(a, x);
      r := Ok(out);
    }

    /**
     * `fold_statement`: definitions go through the constants; loop bounds
     * are folded but loop bodies are not visited; assertions are decided
     * when their condition is constant; call-log markers pass through.
     */
    method FoldStatement(s: Statement) returns (r: Result<seq<Statement>, Error>)
      modifies this
      requires Valid() && StatementFits(constants, s)
      ensures Valid()
      ensures s.Definition? && s.rhs.RhsExpression? ==>
        DefineExpressionOutcome(old(constants), constants, s.assignee, s.rhs.expr, r)
      ensures s.Definition? && s.rhs.RhsEmbedCall? ==>
        DefineEmbedOutcome(old(constants), constants, s.assignee, s.rhs.call, r)
      ensures !s.Definition? ==> constants == old(constants)
      ensures s.For? ==>
        r == (var from :- Fold(constants, s.from);
              var to :- Fold(constants, s.to);
              Ok([For(s.variable, from, to, s.body)]))
      ensures s.Assertion? ==> r == FoldAssertion(constants, s.condition)
      ensures s.PushCallLog? || s.PopCallLog? ==> r == Ok([s])
    {
      match s {
        case Definition(a, RhsExpression(e)) =>
          r := DefineExpression(a, e);
        case Definition(a, RhsEmbedCall(call)) =>
          r := DefineEmbedCall(a, call);
        case For(v, from, to, body) =>
          var from' := Fold(constants, from);
          var to' := Fold(constants, to);
          if from'.Err? {
            r := Err(from'.error);
          } else if to'.Err? {
            r := Err(to'.error);
          } else {
            r := Ok([For(v, from'.value, to'.value, body)]);
          }
        case Assertion(e) =>
          r := FoldAssertion(constants, e);
        case PushCallLog(_) =>
          r := Ok([s]);
        case PopCallLog =>
          r := Ok([s]);
      }
    }
  }
}
