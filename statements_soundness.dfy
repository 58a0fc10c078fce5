/**
 * What the statement folder preserves: constants that agree with the
 * environment still agree after a definition is absorbed or invalidated,
 * and an assertion is dropped or reported only when its condition is
 * known. The assertion rule as the source writes it does the opposite.
 */
module StatementsSoundness {
  import opened Wrappers
  import opened Typed
  import opened Propagation
  import opened PropagationSoundness
  import opened PropagationStatements

  /**
   * Defining `id` to an expression that folds to a constant, and storing
   * its canonical form, keeps the constants in agreement with the
   * environment after the assignment.
   */
  lemma DefineConstantAgrees(env: Env, c: Constants, id: Ident, e: Expr)
    requires WellFormedEnv(env) && Agrees(env, c) && AllCanonical(c)
    requires Fold(c, e).Ok? && IsConstant(Fold(c, e).value) && Eval(env, e).Some?
    ensures var env' := env[id := Eval(env, e).value];
      WellFormedEnv(env') && Agrees(env', c[id := Canonical(Fold(c, e).value)])
  {
    var e' := Fold(c, e).value;
    var env' := env[id := Eval(env, e).value];
    EvalWellFormed(env, e);
    FoldSound(env, c, e);
    CanonicalSound(env, e');
    CanonicalClosed(env, env', Canonical(e'));
    forall x | x in c && x != id ensures Eval(env', c[x]) == Some(env'[x]) {
      CanonicalClosed(env, env', c[x]);
    }
  }

  /** Invalidating the root of an assignment keeps the remaining constants in agreement, whatever it is assigned. */
  lemma EvictAgrees(env: Env, c: Constants, v: Ident, value: Value)
    requires Agrees(env, c) && AllCanonical(c)
    ensures Agrees(env[v := value], c - {v})
  {
    forall x | x in c - {v} ensures Eval(env[v := value], c[x]) == Some(env[v := value][x]) {
      CanonicalClosed(env, env[v := value], c[x]);
    }
  }

  /**
   * An assertion is dropped only when its condition holds; once its
   * condition folds, it is reported only when the condition does not hold.
   */
  lemma FoldAssertionSound(env: Env, c: Constants, e: Expr)
    requires WellFormedEnv(env) && Agrees(env, c)
    ensures FoldAssertion(c, e) == Ok([]) && Eval(env, e).Some? ==> Eval(env, e) == Some(VBool(true))
    ensures Fold(c, e).Ok? && FoldAssertion(c, e).Err? ==>
      FoldAssertion(c, e).error == AssertionFailed(e) && Eval(env, e) != Some(VBool(true))
  {
    FoldSound(env, c, e);
    var r := Fold(c, e);
    if r.Ok? && r.value.BoolValue? {
      var f := r.value;
      assert Eval(env, f) == Some(VBool(f.b));
    }
  }

  /**
   * The rule as written reports the assertion `true`, which always holds,
   * and drops the assertion `false`, which never does.
   */
  lemma AssertionAsWrittenInverted(env: Env, c: Constants)
    ensures Eval(env, BoolValue(true)) == Some(VBool(true))
    ensures FoldAssertionAsWritten(c, BoolValue(true)) == Err(AssertionFailed(BoolValue(true)))
    ensures FoldAssertionAsWritten(c, BoolValue(false)) == Ok([])
    ensures FoldAssertion(c, BoolValue(true)) == Ok([])
    ensures FoldAssertion(c, BoolValue(false)) == Err(AssertionFailed(BoolValue(false)))
  {
  }
}
