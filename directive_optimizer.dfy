/**
 * Deduplication of directives: a directive that calls the same solver on
 * the same inputs as an earlier one is dropped, and its outputs are renamed
 * to the earlier call's outputs in everything that follows.
 */
module DirectiveOptimization {
  import opened Common
  import opened Ir

  /** A solver together with the inputs it is called on. */
  type SolverCall = (Solver, seq<QuadComb>)

  /** A variable through a substitution; variables it does not rename stay as they are. */
  function Lookup(m: map<Variable, Variable>, v: Variable): (r: Variable)
    ensures v in m ==> r == m[v]
    ensures v !in m ==> r == v
  {
    if v in m then m[v] else v
  }

  function Key(d: Directive): SolverCall {
    (d.solver, d.inputs)
  }

  /** `outputs.zip(first)`: pairs up to the shorter of the two lists. */
  function Zip(outputs: seq<Variable>, first: seq<Variable>): (ps: seq<(Variable, Variable)>)
    ensures |ps| == if |outputs| < |first| then |outputs| else |first|
    ensures forall i | 0 <= i < |ps| :: ps[i] == (outputs[i], first[i])
  {
    var n := if |outputs| < |first| then |outputs| else |first|;
    seq(n, i requires 0 <= i < n => (outputs[i], first[i]))
  }

  /** `HashMap::extend`: the pairs are inserted in order, a later pair overwriting an earlier one. */
  function Extend(m: map<Variable, Variable>, ps: seq<(Variable, Variable)>): map<Variable, Variable>
    decreases |ps|
  {
    if ps == [] then m
    else
      var last := ps[|ps| - 1];
      Extend(m, ps[..|ps| - 1])[last.0 := last.1]
  }

  function Firsts(ps: seq<(Variable, Variable)>): set<Variable> {
    set i | 0 <= i < |ps| :: ps[i].0
  }

  lemma FirstsSnoc(ps: seq<(Variable, Variable)>)
    requires ps != []
    ensures Firsts(ps) == Firsts(ps[..|ps| - 1]) + {ps[|ps| - 1].0}
  {
    var n := |ps| - 1;
    var init := ps[..n];
    forall v | v in Firsts(ps) ensures v in Firsts(init) + {ps[n].0} {
      var i :| 0 <= i < |ps| && ps[i].0 == v;
      if i < n {
        assert init[i] == ps[i];
      }
    }
    forall v | v in Firsts(init) ensures v in Firsts(ps) {
      var i :| 0 <= i < |init| && init[i].0 == v;
      assert ps[i] == init[i];
    }
  }

  /** After extending, the keys are the old keys and the pairs' first components. */
  lemma {:induction false} ExtendKeys(m: map<Variable, Variable>, ps: seq<(Variable, Variable)>)
    ensures Extend(m, ps).Keys == m.Keys + Firsts(ps)
    decreases |ps|
  {
    if ps != [] {
      ExtendKeys(m, ps[..|ps| - 1]);
      FirstsSnoc(ps);
    }
  }

  /** A variable no pair mentions keeps its old entry. */
  lemma {:induction false} ExtendOther(m: map<Variable, Variable>, ps: seq<(Variable, Variable)>, v: Variable)
    requires v in m && v !in Firsts(ps)
    ensures v in Extend(m, ps) && Extend(m, ps)[v] == m[v]
    decreases |ps|
  {
    if ps != [] {
      FirstsSnoc(ps);
      ExtendOther(m, ps[..|ps| - 1], v);
    }
  }

  /** A variable is renamed as the last pair that mentions it says. */
  lemma {:induction false} ExtendLast(m: map<Variable, Variable>, ps: seq<(Variable, Variable)>, i: nat)
    requires i < |ps| && forall j | i < j < |ps| :: ps[j].0 != ps[i].0
    ensures ps[i].0 in Extend(m, ps) && Extend(m, ps)[ps[i].0] == ps[i].1
    decreases |ps|
  {
    var n := |ps| - 1;
    if i < n {
      var init := ps[..n];
      assert init[i] == ps[i];
      assert ps[n].0 != ps[i].0;
      forall j | i < j < |init| ensures init[j].0 != init[i].0 {
        assert init[j] == ps[j];
      }
      ExtendLast(m, init, i);
    }
  }

  /**
   * When a repeated call is dropped, each of its outputs up to the shorter
   * length is renamed to the first call's output at the same position,
   * provided the outputs are distinct.
   */
  lemma RepeatedOutputsRenamed(m: map<Variable, Variable>, outputs: seq<Variable>, first: seq<Variable>)
    requires forall i, j | 0 <= i < j < |outputs| :: outputs[i] != outputs[j]
    ensures forall i | 0 <= i < |outputs| && i < |first| :: Lookup(Extend(m, Zip(outputs, first)), outputs[i]) == first[i]
  {
    var ps := Zip(outputs, first);
    forall i | 0 <= i < |outputs| && i < |first|
      ensures Lookup(Extend(m, ps), outputs[i]) == first[i]
    {
      assert ps[i] == (outputs[i], first[i]);
      forall j | i < j < |ps| ensures ps[j].0 != ps[i].0 {
        assert ps[j] == (outputs[j], first[j]);
      }
      ExtendLast(m, ps, i);
    }
  }

  /**
   * The key is taken after renaming, so two calls of one solver whose
   * inputs differ only in variables the substitution identifies share a
   * key.
   */
  lemma KeyAfterRenaming(d1: Directive, d2: Directive, m: map<Variable, Variable>)
    requires d1.solver == d2.solver && |d1.inputs| == |d2.inputs|
    requires forall i | 0 <= i < |d1.inputs| :: RenameQuad(d1.inputs[i], v => Lookup(m, v)) == RenameQuad(d2.inputs[i], v => Lookup(m, v))
    ensures Key(RenameDirective(d1, v => Lookup(m, v))) == Key(RenameDirective(d2, v => Lookup(m, v)))
  {
    var f := v => Lookup(m, v);
    var r1, r2 := RenameDirective(d1, f), RenameDirective(d2, f);
    assert r1.inputs == r2.inputs by {
      assert |r1.inputs| == |r2.inputs|;
      forall i | 0 <= i < |r1.inputs| ensures r1.inputs[i] == r2.inputs[i] {
      }
    }
  }

  /** Every recorded call stays recorded with the same outputs. */
  predicate CallsGrow(before: map<SolverCall, seq<Variable>>, after: map<SolverCall, seq<Variable>>) {
    forall k | k in before :: k in after && after[k] == before[k]
  }

  class DirectiveOptimizer {
    /** The outputs of the first call seen for each solver and inputs. */
    var calls: map<SolverCall, seq<Variable>>
    /** Renamings of the outputs of dropped calls. */
    var substitution: map<Variable, Variable>

    /** `DirectiveOptimizer::default`: both maps empty. */
    constructor ()
      ensures calls == map[] && substitution == map[]
    {
      calls := map[];
      substitution := map[];
    }

    /** `fold_variable`: the substitution's renaming of `v`, or `v` itself. */
    function FoldVariable(v: Variable): (r: Variable)
      reads this
      ensures v in substitution ==> r == substitution[v]
      ensures v !in substitution ==> r == v
    {
      Lookup(substitution, v)
    }

    /** `substitution.extend(ps)`, one insertion at a time. */
    method ExtendSubstitution(ps: seq<(Variable, Variable)>)
      modifies this
      ensures substitution == Extend(old(substitution), ps) && calls == old(calls)
    {
      var i := 0;
      while i < |ps|
        invariant 0 <= i <= |ps|
        invariant substitution == Extend(old(substitution), ps[..i]) && calls == old(calls)
      {
        assert ps[..i + 1][..i] == ps[..i];
        substitution := substitution[ps[i].0 := ps[i].1];
        i := i + 1;
      }
      assert ps[..i] == ps;
    }

    /**
     * `fold_statement`. A constraint is renamed and kept. A directive is
     * renamed first; the first one with its solver and inputs is kept and
     * its outputs recorded, a repeated one is dropped and its outputs are
     * renamed to the recorded ones.
     */
    method FoldStatement(s: Statement) returns (out: seq<Statement>)
      modifies this
      ensures s.Constraint? ==>
        out == [RenameStatement(s, v => Lookup(old(substitution), v))]
        && calls == old(calls) && substitution == old(substitution)
      ensures s.DirectiveStatement? ==>
        var d := RenameDirective(s.directive, v => Lookup(old(substitution), v));
        if Key(d) !in old(calls) then
          out == [DirectiveStatement(d)] && calls == old(calls)[Key(d) := d.outputs]
          && substitution == old(substitution)
        else
          out == [] && calls == old(calls)
          && substitution == Extend(old(substitution), Zip(d.outputs, old(calls)[Key(d)]))
      ensures CallsGrow(old(calls), calls)
      ensures old(substitution).Keys <= substitution.Keys
    {
      var m := substitution;
      var f := v => Lookup(m, v);
      match s {
        case Constraint(_, _, _) =>
          out := [RenameStatement(s, f)];
        case DirectiveStatement(directive) =>
          var d := RenameDirective(directive, f);
          var key := Key(d);
          if key !in calls {
            calls := calls[key := d.outputs];
            out := [DirectiveStatement(d)];
          } else {
            var ps := Zip(d.outputs, calls[key]);
            ExtendKeys(m, ps);
            ExtendSubstitution(ps);
            out := [];
          }
      }
    }
  }
}
