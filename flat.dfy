/**
 * The flat intermediate representation: field expressions over variables,
 * built from numbers, identifiers, sums, differences and products, and the
 * statements of a flat function. An expression is read as a polynomial over
 * the prime field under an assignment of field values to variables.
 */
module Flat {
  import opened Common
  import Field

  datatype FlatExpression =
    | Number(value: nat)
    | Identifier(id: Variable)
    | Add(left: FlatExpression, right: FlatExpression)
    | Sub(left: FlatExpression, right: FlatExpression)
    | Mult(left: FlatExpression, right: FlatExpression)

  /** A value in the field for every variable. */
  type Assignment = Variable -> nat

  /** `Variable::apply_substitution`: how one variable is renamed. */
  type Renaming = Variable -> Variable

  function Evaluate(e: FlatExpression, a: Assignment): (r: nat)
    ensures Field.IsElement(r)
  {
    match e
    case Number(n) => n % Field.Modulus
    case Identifier(v) => a(v) % Field.Modulus
    case Add(l, r) => Field.Add(Evaluate(l, a), Evaluate(r, a))
    case Sub(l, r) => Field.Sub(Evaluate(l, a), Evaluate(r, a))
    case Mult(l, r) => Field.Mul(Evaluate(l, a), Evaluate(r, a))
  }

  /** The variables an expression mentions. */
  function Vars(e: FlatExpression): set<Variable> {
    match e
    case Number(_) => {}
    case Identifier(v) => {v}
    case Add(l, r) => Vars(l) + Vars(r)
    case Sub(l, r) => Vars(l) + Vars(r)
    case Mult(l, r) => Vars(l) + Vars(r)
  }

  /** The polynomial degree of an expression, read syntactically. */
  function Degree(e: FlatExpression): nat {
    match e
    case Number(_) => 0
    case Identifier(_) => 1
    case Add(l, r) => if Degree(l) < Degree(r) then Degree(r) else Degree(l)
    case Sub(l, r) => if Degree(l) < Degree(r) then Degree(r) else Degree(l)
    case Mult(l, r) => Degree(l) + Degree(r)
  }

  /**
   * `is_linear`: numbers and identifiers are linear, sums and differences
   * are linear when both sides are, and a product is linear only when it
   * multiplies two numbers, or a number and an identifier in either order.
   */
  predicate IsLinear(e: FlatExpression) {
    match e
    case Number(_) => true
    case Identifier(_) => true
    case Add(l, r) => IsLinear(l) && IsLinear(r)
    case Sub(l, r) => IsLinear(l) && IsLinear(r)
    case Mult(l, r) =>
      (l.Number? && r.Number?) || (l.Number? && r.Identifier?) || (l.Identifier? && r.Number?)
  }

  /** A linear expression has degree at most one. */
  lemma {:induction false} LinearDegree(e: FlatExpression)
    requires IsLinear(e)
    ensures Degree(e) <= 1
  {
    match e
    case Number(_) =>
    case Identifier(_) =>
    case Add(l, r) =>
      LinearDegree(l);
      LinearDegree(r);
    case Sub(l, r) =>
      LinearDegree(l);
      LinearDegree(r);
    case Mult(l, r) =>
  }

  /**
   * The check is syntactic: a number times a sum has degree one but is not
   * considered linear.
   */
  lemma LinearIsSyntactic()
    ensures var e := Mult(Number(2), Add(Identifier(One), Identifier(Internal(0))));
      Degree(e) == 1 && !IsLinear(e)
  {
  }

  /** Two expressions with the same tree of operators and numbers; only identifiers may differ. */
  predicate SameShape(e1: FlatExpression, e2: FlatExpression) {
    match e1
    case Number(n) => e2 == Number(n)
    case Identifier(_) => e2.Identifier?
    case Add(l, r) => e2.Add? && SameShape(l, e2.left) && SameShape(r, e2.right)
    case Sub(l, r) => e2.Sub? && SameShape(l, e2.left) && SameShape(r, e2.right)
    case Mult(l, r) => e2.Mult? && SameShape(l, e2.left) && SameShape(r, e2.right)
  }

  /** Linearity only looks at the shape. */
  lemma {:induction false} ShapeLinear(e1: FlatExpression, e2: FlatExpression)
    requires SameShape(e1, e2)
    ensures IsLinear(e1) == IsLinear(e2)
  {
    match e1
    case Number(_) =>
    case Identifier(_) =>
    case Add(l, r) =>
      ShapeLinear(l, e2.left);
      ShapeLinear(r, e2.right);
    case Sub(l, r) =>
      ShapeLinear(l, e2.left);
      ShapeLinear(r, e2.right);
    case Mult(l, r) =>
  }

  /** The image of a set of variables under a renaming. */
  function Image(vs: set<Variable>, f: Renaming): set<Variable> {
    set v | v in vs :: f(v)
  }

  /**
   * `FlatExpression::apply_substitution`: numbers are kept, identifiers are
   * renamed, and the operator tree is rebuilt unchanged.
   */
  function ApplySubstitution(e: FlatExpression, f: Renaming): (r: FlatExpression)
    ensures SameShape(e, r)
    ensures Vars(r) == Image(Vars(e), f)
  {
    match e
    case Number(_) => e
    case Identifier(v) => Identifier(f(v))
    case Add(l, r) => Add(ApplySubstitution(l, f), ApplySubstitution(r, f))
    case Sub(l, r) => Sub(ApplySubstitution(l, f), ApplySubstitution(r, f))
    case Mult(l, r) => Mult(ApplySubstitution(l, f), ApplySubstitution(r, f))
  }

  /** Renaming variables keeps an expression linear or non-linear. */
  lemma SubstitutionLinear(e: FlatExpression, f: Renaming)
    ensures IsLinear(ApplySubstitution(e, f)) == IsLinear(e)
  {
    ShapeLinear(e, ApplySubstitution(e, f));
  }

  function Compose(a: Assignment, f: Renaming): Assignment {
    v => a(f(v))
  }

  /** Evaluating a renamed expression is evaluating the original under the renamed assignment. */
  lemma {:induction false} SubstitutionEvaluate(e: FlatExpression, f: Renaming, a: Assignment)
    ensures Evaluate(ApplySubstitution(e, f), a) == Evaluate(e, Compose(a, f))
  {
    match e
    case Number(_) =>
    case Identifier(v) =>
    case Add(l, r) =>
      SubstitutionEvaluate(l, f, a);
      SubstitutionEvaluate(r, f, a);
    case Sub(l, r) =>
      SubstitutionEvaluate(l, f, a);
      SubstitutionEvaluate(r, f, a);
    case Mult(l, r) =>
      SubstitutionEvaluate(l, f, a);
      SubstitutionEvaluate(r, f, a);
  }

  /** Renaming twice is renaming once by the composition. */
  lemma {:induction false} SubstitutionCompose(e: FlatExpression, f: Renaming, g: Renaming)
    ensures ApplySubstitution(ApplySubstitution(e, f), g) == ApplySubstitution(e, v => g(f(v)))
  {
    match e
    case Number(_) =>
    case Identifier(v) =>
    case Add(l, r) =>
      SubstitutionCompose(l, f, g);
      SubstitutionCompose(r, f, g);
    case Sub(l, r) =>
      SubstitutionCompose(l, f, g);
      SubstitutionCompose(r, f, g);
    case Mult(l, r) =>
      SubstitutionCompose(l, f, g);
      SubstitutionCompose(r, f, g);
  }

  /** The identity renaming changes nothing. */
  lemma {:induction false} SubstitutionIdentity(e: FlatExpression, f: Renaming)
    requires forall v :: f(v) == v
    ensures ApplySubstitution(e, f) == e
  {
    match e
    case Number(_) =>
    case Identifier(v) =>
    case Add(l, r) =>
      SubstitutionIdentity(l, f);
      SubstitutionIdentity(r, f);
    case Sub(l, r) =>
      SubstitutionIdentity(l, f);
      SubstitutionIdentity(r, f);
    case Mult(l, r) =>
      SubstitutionIdentity(l, f);
      SubstitutionIdentity(r, f);
  }

  // ---------------------------------------------------------------------
  // Statements
  // ---------------------------------------------------------------------

  /** A call to a solver that computes `outputs` from `inputs`. */
  datatype FlatDirective = FlatDirective(inputs: seq<FlatExpression>, outputs: seq<Variable>, solver: Solver)

  /** A logged value: its type, shown as text, and the expressions it is made of. */
  datatype LogArgument = LogArgument(ty: string, expressions: seq<FlatExpression>)

  datatype FlatStatement =
    | Condition(expression: FlatExpression, error: RuntimeError)
    | Definition(assignee: Variable, rhs: FlatExpression)
    | Directive(directive: FlatDirective)
    | Log(format: string, arguments: seq<LogArgument>)

  /**
   * What a statement asks of an assignment: an assertion asks its
   * expression to be zero, a definition asks its variable to equal its
   * right-hand side. Directives and logs constrain nothing.
   */
  predicate Satisfied(s: FlatStatement, a: Assignment) {
    match s
    case Condition(e, _) => Evaluate(e, a) == 0
    case Definition(v, rhs) => a(v) % Field.Modulus == Evaluate(rhs, a)
    case Directive(_) => true
    case Log(_, _) => true
  }

  function DefinitionStatement(assignee: Variable, rhs: FlatExpression): (s: FlatStatement)
    ensures forall a: Assignment :: Satisfied(s, a) <==> a(assignee) % Field.Modulus == Evaluate(rhs, a)
  {
    Definition(assignee, rhs)
  }

  function AssertionStatement(expression: FlatExpression, error: RuntimeError): (s: FlatStatement)
    ensures forall a: Assignment :: Satisfied(s, a) <==> Evaluate(expression, a) == 0
  {
    Condition(expression, error)
  }

  /**
   * `FlatStatement::condition`: the assertion that `left - right` is zero,
   * which holds exactly when both sides are equal in the field.
   */
  function ConditionStatement(left: FlatExpression, right: FlatExpression, error: RuntimeError): (s: FlatStatement)
    ensures s == AssertionStatement(Sub(left, right), error)
    ensures forall a: Assignment :: Satisfied(s, a) <==> Evaluate(left, a) == Evaluate(right, a)
  {
    var s := AssertionStatement(Sub(left, right), error);
    assert forall a: Assignment :: Satisfied(s, a) <==> Evaluate(left, a) == Evaluate(right, a) by {
      forall a: Assignment {
        Field.SubZero(Evaluate(left, a), Evaluate(right, a));
      }
    }
    s
  }

  /** A directive whose input and output counts match its solver's signature. */
  predicate DirectiveFits(d: FlatDirective) {
    (|d.inputs|, |d.outputs|) == d.solver.GetSignature()
  }

  /** `FlatDirective::new`: the lists are kept in order, and must fit the signature. */
  function NewDirective(outputs: seq<Variable>, solver: Solver, inputs: seq<FlatExpression>): (d: FlatDirective)
    requires solver.GetSignature() == (|inputs|, |outputs|)
    ensures DirectiveFits(d)
    ensures d.solver == solver && d.inputs == inputs && d.outputs == outputs
  {
    FlatDirective(inputs, outputs, solver)
  }

  function SubstituteExpressions(es: seq<FlatExpression>, f: Renaming): (r: seq<FlatExpression>)
    ensures |r| == |es|
    ensures forall i | 0 <= i < |es| :: r[i] == ApplySubstitution(es[i], f)
  {
    seq(|es|, i requires 0 <= i < |es| => ApplySubstitution(es[i], f))
  }

  function SubstituteVariables(vs: seq<Variable>, f: Renaming): (r: seq<Variable>)
    ensures |r| == |vs|
    ensures forall i | 0 <= i < |vs| :: r[i] == f(vs[i])
  {
    seq(|vs|, i requires 0 <= i < |vs| => f(vs[i]))
  }

  function SubstituteLogArguments(args: seq<LogArgument>, f: Renaming): (r: seq<LogArgument>)
    ensures |r| == |args|
    ensures forall i | 0 <= i < |args| ::
      r[i].ty == args[i].ty && r[i].expressions == SubstituteExpressions(args[i].expressions, f)
  {
    seq(|args|, i requires 0 <= i < |args| =>
      LogArgument(args[i].ty, SubstituteExpressions(args[i].expressions, f)))
  }

  /** `FlatStatement::apply_substitution`. */
  function StatementSubstitution(s: FlatStatement, f: Renaming): FlatStatement {
    match s
    case Definition(v, rhs) => DefinitionStatement(f(v), ApplySubstitution(rhs, f))
    case Condition(e, err) => AssertionStatement(ApplySubstitution(e, f), err)
    case Directive(d) =>
      Directive(FlatDirective(SubstituteExpressions(d.inputs, f), SubstituteVariables(d.outputs, f), d.solver))
    case Log(format, args) => Log(format, SubstituteLogArguments(args, f))
  }

  /**
   * Renaming a statement keeps its kind, and a renamed statement holds
   * under an assignment exactly when the original holds under the renamed
   * assignment.
   */
  lemma StatementSubstitutionSound(s: FlatStatement, f: Renaming, a: Assignment)
    ensures StatementSubstitution(s, f).Condition? == s.Condition?
    ensures StatementSubstitution(s, f).Definition? == s.Definition?
    ensures Satisfied(StatementSubstitution(s, f), a) <==> Satisfied(s, Compose(a, f))
  {
    match s
    case Definition(v, rhs) =>
      SubstitutionEvaluate(rhs, f, a);
    case Condition(e, err) =>
      SubstitutionEvaluate(e, f, a);
    case Directive(_) =>
    case Log(_, _) =>
  }

  /**
   * On a directive the solver is kept and inputs and outputs are renamed
   * one by one, so a directive that fits its signature still fits.
   */
  lemma DirectiveSubstitution(d: FlatDirective, f: Renaming)
    ensures var s := StatementSubstitution(Directive(d), f);
      s.Directive? && s.directive.solver == d.solver
      && |s.directive.inputs| == |d.inputs| && |s.directive.outputs| == |d.outputs|
      && (forall i | 0 <= i < |d.inputs| :: s.directive.inputs[i] == ApplySubstitution(d.inputs[i], f))
      && (forall i | 0 <= i < |d.outputs| :: s.directive.outputs[i] == f(d.outputs[i]))
      && (DirectiveFits(d) ==> DirectiveFits(s.directive))
  {
  }

  // ---------------------------------------------------------------------
  // Functions
  // ---------------------------------------------------------------------

  /** The statements of a function as they are produced, one at a time. */
  datatype StatementStream = End | Next(head: FlatStatement, tail: StatementStream)

  function StreamLength(s: StatementStream): nat {
    if s.End? then 0 else 1 + StreamLength(s.tail)
  }

  /** The `i`-th statement the stream produces. */
  function StreamAt(s: StatementStream, i: nat): FlatStatement
    requires i < StreamLength(s)
  {
    if i == 0 then s.head else StreamAt(s.tail, i - 1)
  }

  datatype FlatFunctionIterator = FlatFunctionIterator(arguments: seq<Parameter>, statements: StatementStream, returnCount: nat)

  datatype FlatFunction = FlatFunction(arguments: seq<Parameter>, statements: seq<FlatStatement>, returnCount: nat)

  /** Drains a stream into a list, in the order the statements are produced. */
  function CollectStatements(s: StatementStream): (r: seq<FlatStatement>)
    ensures |r| == StreamLength(s)
    ensures forall i | 0 <= i < |r| :: r[i] == StreamAt(s, i)
  {
    if s.End? then []
    else
      var rest := CollectStatements(s.tail);
      assert forall i | 1 <= i < 1 + |rest| :: ([s.head] + rest)[i] == rest[i - 1];
      [s.head] + rest
  }

  /** `FlatFunctionIterator::collect`: the arguments and the return count are kept, the statements are collected in order. */
  function Collect(it: FlatFunctionIterator): (f: FlatFunction)
    ensures f.arguments == it.arguments && f.returnCount == it.returnCount
    ensures |f.statements| == StreamLength(it.statements)
    ensures forall i | 0 <= i < |f.statements| :: f.statements[i] == StreamAt(it.statements, i)
  {
    FlatFunction(it.arguments, CollectStatements(it.statements), it.returnCount)
  }
}
