/**
 * The constraint-level representation: linear and quadratic combinations
 * of variables, constraints `left * right == lin`, and directives that
 * compute witness values, together with the default traversal that renames
 * every variable of a statement.
 */
module Ir {
  import opened Wrappers
  import opened Common

  /** A sum of variables with field coefficients, in the order written. */
  datatype LinComb = LinComb(terms: seq<(Variable, nat)>)

  /** The product of two linear combinations. */
  datatype QuadComb = QuadComb(left: LinComb, right: LinComb)

  datatype Directive = Directive(inputs: seq<QuadComb>, outputs: seq<Variable>, solver: Solver)

  datatype Statement =
    | Constraint(quad: QuadComb, lin: LinComb, error: Option<RuntimeError>)
    | DirectiveStatement(directive: Directive)

  datatype Prog = Prog(arguments: seq<Parameter>, returnCount: nat, statements: seq<Statement>)

  type Renaming = Variable -> Variable

  /** `fold_linear_combination`: each variable is renamed, coefficients and order are kept. */
  function RenameLin(l: LinComb, f: Renaming): (r: LinComb)
    ensures |r.terms| == |l.terms|
    ensures forall i | 0 <= i < |l.terms| :: r.terms[i] == (f(l.terms[i].0), l.terms[i].1)
  {
    LinComb(seq(|l.terms|, i requires 0 <= i < |l.terms| => (f(l.terms[i].0), l.terms[i].1)))
  }

  function RenameQuad(q: QuadComb, f: Renaming): QuadComb {
    QuadComb(RenameLin(q.left, f), RenameLin(q.right, f))
  }

  function RenameQuads(qs: seq<QuadComb>, f: Renaming): (r: seq<QuadComb>)
    ensures |r| == |qs|
    ensures forall i | 0 <= i < |qs| :: r[i] == RenameQuad(qs[i], f)
  {
    seq(|qs|, i requires 0 <= i < |qs| => RenameQuad(qs[i], f))
  }

  /** `fold_directive`: inputs and outputs are renamed, the solver is kept. */
  function RenameDirective(d: Directive, f: Renaming): (r: Directive)
    ensures r.solver == d.solver && |r.inputs| == |d.inputs| && |r.outputs| == |d.outputs|
    ensures forall i | 0 <= i < |d.outputs| :: r.outputs[i] == f(d.outputs[i])
  {
    Directive(RenameQuads(d.inputs, f), seq(|d.outputs|, i requires 0 <= i < |d.outputs| => f(d.outputs[i])), d.solver)
  }

  /** `fold_statement`: every variable of the statement is renamed. */
  function RenameStatement(s: Statement, f: Renaming): Statement {
    match s
    case Constraint(quad, lin, error) => Constraint(RenameQuad(quad, f), RenameLin(lin, f), error)
    case DirectiveStatement(d) => DirectiveStatement(RenameDirective(d, f))
  }

  /** `Prog::returns`: the public outputs `~out_0 .. ~out_{n-1}`. */
  function Returns(p: Prog): (r: seq<Variable>)
    ensures |r| == p.returnCount
    ensures forall i | 0 <= i < |r| :: r[i] == Public(i)
  {
    seq(p.returnCount, i requires 0 <= i < p.returnCount => Public(i))
  }
}
