# ZoKrates core, modelled in Dafny

This project models four parts of the ZoKrates zkSNARK toolchain and proves
properties of them:

- **Constant propagation** over the typed program. Modules: `Typed`,
  `Propagation`, `PropagationSoundness`, `BitPacking`,
  `PropagationStatements` and `StatementsSoundness`.
  - Every operator rule of the propagator is modelled: unsigned integers of
    8, 16, 32 and 64 bits, field elements, booleans, equality, conditionals,
    array selection and array literals with spreads.
  - The rules are applied bottom-up with the map of known constants (`Fold`).
    The folder uses the corrected `FloorSub` and assertion rules described
    under "## Findings"; the rules as the source writes them are modelled
    beside them.
  - Each rule is proved to preserve the value of the expression under a
    reference semantics (`Typed.Eval`). `FoldSound` lifts this to whole
    expressions.
  - The statement folder is a `Propagator` class that owns the map of
    constants. It covers definitions, embedded calls evaluated at compile
    time (`u*_from_bits`, `u*_to_bits` and `unpack`), loop bounds,
    assertions and call-log markers.
- **Flat statements and expressions** (`Common`, `Flat`):
  - the defining and asserting statements;
  - `FlatDirective::new`;
  - `apply_substitution` on expressions and statements, with its meaning: a
    substituted statement is satisfied exactly when the original one is
    satisfied under the composed assignment;
  - the syntactic `is_linear` check.
- **The directive optimizer** (`Ir`, `DirectiveOptimization`). A
  `DirectiveOptimizer` class holds the map of solver calls already seen and
  the substitution of output variables. A repeated solver call is dropped
  and its outputs are renamed to the first call's outputs.
- **The libsnark preparation layer** (`R1cs`, `Bytes`, `Libsnark`,
  `Serialization`):
  - `r1cs_program` as two passes over a `VariableIndex` class followed by
    inverting the index map. It is proved against a reference
    ordering of variables and a reference translation of constraints.
  - A proof that the rows mean what the constraints mean.
  - `prepare_setup`, with its 40-byte `{ i32 row, i32 idx, u8[32] value }`
    record layout and a round-trip proof for that layout.
  - `prepare_generate_proof` and `prepare_public_inputs`.
  - The hex encoding and G1/G2 point serialization, with round trips in
    both directions.

Field elements are naturals below the BN128 scalar modulus (`Field`).
Unsigned values wrap explicitly at their bit width and at 2^128, where the
source computes in `u128`. Byte vectors are sequences of `Byte`, a subset
of `int` from 0 to 255.

## Model

| member | source | states |
|---|---|---|
| Typed.Wrap | zokrates_core/src/static_analysis/propagation.rs:556-560 | Reducing a value modulo 2^bitwidth gives a value of that width. |
| Typed.CanonicalSound | zokrates_core/src/static_analysis/propagation.rs:245-250 | Putting a constant into canonical form (`into_canonical_constant`) keeps its value, and the result is canonical (no spreads left). |
| Typed.CanonicalForm | zokrates_core/src/static_analysis/propagation.rs:245-256 | The canonical form of any constant is canonical, so the map only ever stores canonical constants. |
| Typed.CanonicalIsConstant | zokrates_core/src/static_analysis/propagation.rs:245-250 | A canonical expression is a constant. |
| Typed.CanonicalInjective | zokrates_core/src/static_analysis/propagation.rs:1137-1148 | Two canonical constants with the same value are the same expression. This justifies deciding equality of constants by comparing their canonical forms. |
| Typed.CanonicalClosed | zokrates_core/src/static_analysis/propagation.rs:245-250 | A canonical constant has the same value in every environment. |
| Typed.EvalElemsAppend | zokrates_core/src/static_analysis/propagation.rs:989-1038 | Evaluating the concatenation of two element lists gives the concatenation of their values. |
| Propagation.U128ModulusIsPow2 | zokrates_core/src/static_analysis/propagation.rs:577-584 | The modulus written out for `u128` is 2^128. |
| Propagation.WrapU128 | zokrates_core/src/static_analysis/propagation.rs:577-584 | Wrapping a result into `u128` gives a value below 2^128. |
| Propagation.UintIdentities | zokrates_core/src/static_analysis/propagation.rs:552-753 | The identity and absorbing rules on a non-constant operand: `x+0`, `x-0`, `x*1` and `x/1` give `x`; `x*0` gives 0; `x%1` gives 0; `x^0` gives `x`; `x^x` gives 0; `x&0` gives 0. |
| Propagation.BooleanIdentities | zokrates_core/src/static_analysis/propagation.rs:1204-1251 | The rules `x && true == x`, `x && false == false`, `x \|\| true == true` and `x \|\| false == x`, on either side. |
| Propagation.PowErrors | zokrates_core/src/static_analysis/propagation.rs:847-866 | A power fails with `NonConstantExponent` exactly when its exponent does not fold to a constant; a constant exponent 0 gives 1 whatever the base. |
| Propagation.SelectErrors | zokrates_core/src/static_analysis/propagation.rs:940-952 | A constant index into an array literal without spreads gives the element when it is below the size, and `OutOfBounds(index, size)` exactly otherwise. |
| Propagation.ShortcutRules | zokrates_core/src/static_analysis/propagation.rs:194-221 | A conditional with a constant condition gives the chosen branch; one with equal branches gives that branch; otherwise it is rebuilt. An equality of identical sides is `true`. |
| Propagation.ConstantFoldInRange | zokrates_core/src/static_analysis/propagation.rs:552-753 | Two in-range constants fold to an in-range constant of the node's width. A division or remainder by zero, where the source panics, is left unevaluated. |
| Propagation.UnaryFoldInRange | zokrates_core/src/static_analysis/propagation.rs:754-782 | `!`, `-` and `+` on a constant fold to a constant of the node's width; `!` and `-` fold to one in range. |
| PropagationSoundness.EvalWellFormed | zokrates_core/src/static_analysis/propagation.rs:546-869 | In a well-formed environment, every value an expression evaluates to is well formed: field elements are reduced, and integers fit their width. |
| PropagationSoundness.EvalElemsWellFormed | zokrates_core/src/static_analysis/propagation.rs:989-1038 | The values of array elements are well formed. |
| PropagationSoundness.UintSemBelow | zokrates_core/src/static_analysis/propagation.rs:552-753 | The reference semantics of every unsigned operator stays within the bit width. |
| PropagationSoundness.WrapThroughU128 | zokrates_core/src/static_analysis/propagation.rs:577-584 | Wrapping into `u128` first and then into the bit width gives the same result as wrapping into the bit width directly. |
| PropagationSoundness.SubFacts | zokrates_core/src/static_analysis/propagation.rs:575-596 | The wrapping `u128` subtraction of two constants, reduced to the bit width, is the modular subtraction. |
| PropagationSoundness.UnitSem | zokrates_core/src/static_analysis/propagation.rs:552-663 | Adding, subtracting or floor-subtracting 0, and multiplying or dividing by 1, gives the operand back. |
| PropagationSoundness.ZeroSem | zokrates_core/src/static_analysis/propagation.rs:619-684 | Multiplying by 0 and taking the remainder by 1 give 0. |
| PropagationSoundness.CommuteSem | zokrates_core/src/static_analysis/propagation.rs:552-574 | Addition and multiplication at a bit width are commutative, which the rules use when they move a constant to the right. |
| PropagationSoundness.RightUnit | zokrates_core/src/static_analysis/propagation.rs:552-663 | Rewriting `x + 0`, `x - 0`, `x * 1` or `x / 1` to `x` keeps the value. |
| PropagationSoundness.LeftUnit | zokrates_core/src/static_analysis/propagation.rs:552-642 | Rewriting `0 + x` or `1 * x` to `x` keeps the value. |
| PropagationSoundness.RightZero | zokrates_core/src/static_analysis/propagation.rs:619-684 | Rewriting `x * 0` or `x % 1` to the constant 0 keeps the value. |
| PropagationSoundness.LeftZero | zokrates_core/src/static_analysis/propagation.rs:619-642 | Rewriting `0 * x` to the constant 0 keeps the value. |
| PropagationSoundness.RebuildRight | zokrates_core/src/static_analysis/propagation.rs:552-684 | Rebuilding a constant right operand at the node's own bit width keeps the value. |
| PropagationSoundness.SwapConstant | zokrates_core/src/static_analysis/propagation.rs:552-642 | Moving a constant left operand of `+` or `*` to the right keeps the value. |
| PropagationSoundness.DivFacts | zokrates_core/src/static_analysis/propagation.rs:643-663 | Dividing an in-range constant by a non-zero constant gives an in-range quotient, so reducing it to the bit width changes nothing. |
| PropagationSoundness.RemFacts | zokrates_core/src/static_analysis/propagation.rs:664-684 | A remainder by a non-zero in-range constant is in range, so reducing it to the bit width changes nothing. |
| PropagationSoundness.ShiftMask | zokrates_core/src/static_analysis/propagation.rs:699-714 | The left shift computed in `u128` and masked to the bit width is the left shift of the reference semantics. |
| PropagationSoundness.NotMask | zokrates_core/src/static_analysis/propagation.rs:754-762 | The `u128` complement masked to the bit width is `2^bw - 1 - v`. |
| PropagationSoundness.HighComplement | zokrates_core/src/static_analysis/propagation.rs:754-762 | The 128-bit complement of a `k`-bit value, reduced to `k` bits, is its `k`-bit complement. |
| PropagationSoundness.FoldAddSound | zokrates_core/src/static_analysis/propagation.rs:552-574 | The `Add` rule preserves the value of the expression. |
| PropagationSoundness.FoldSubSound | zokrates_core/src/static_analysis/propagation.rs:575-596 | The `Sub` rule preserves the value. |
| PropagationSoundness.FoldFloorSubSound | zokrates_core/src/static_analysis/propagation.rs:597-618 | The corrected `FloorSub` rule preserves the value: a saturating subtraction stays saturating. |
| PropagationSoundness.FloorSubAsWrittenChangesValue | zokrates_core/src/static_analysis/propagation.rs:615-617 | `FloorSub` as the source writes it, on two non-constant operands with values 1 and 2, turns the saturating result 0 into the wrapping result 255. |
| PropagationSoundness.FoldMultSound | zokrates_core/src/static_analysis/propagation.rs:619-642 | The `Mult` rule preserves the value. |
| PropagationSoundness.FoldDivSound | zokrates_core/src/static_analysis/propagation.rs:643-663 | The `Div` rule preserves the value. |
| PropagationSoundness.FoldRemSound | zokrates_core/src/static_analysis/propagation.rs:664-684 | The `Rem` rule preserves the value. |
| PropagationSoundness.FoldRightShiftSound | zokrates_core/src/static_analysis/propagation.rs:685-698 | The right-shift rule preserves the value. |
| PropagationSoundness.FoldLeftShiftSound | zokrates_core/src/static_analysis/propagation.rs:699-714 | The left-shift rule preserves the value. |
| PropagationSoundness.FoldXorSound | zokrates_core/src/static_analysis/propagation.rs:715-737 | The `Xor` rule, including `x ^ x == 0`, preserves the value. |
| PropagationSoundness.FoldUintAndSound | zokrates_core/src/static_analysis/propagation.rs:738-753 | The bitwise `And` rule preserves the value. |
| PropagationSoundness.FoldUintBinarySound | zokrates_core/src/static_analysis/propagation.rs:546-753 | Every binary unsigned rule preserves the value. |
| PropagationSoundness.UnaryConstantSound | zokrates_core/src/static_analysis/propagation.rs:754-782 | On a constant operand, `Not`, `Neg` and `Pos` fold to the constant the operator's meaning gives. |
| PropagationSoundness.FoldUintUnarySound | zokrates_core/src/static_analysis/propagation.rs:754-782 | The `Not`, `Neg` and `Pos` rules preserve the value. |
| PropagationSoundness.FoldFieldBinarySound | zokrates_core/src/static_analysis/propagation.rs:789-836 | Field `+`, `-`, `*` and `/` on constants are the field operations and preserve the value. |
| PropagationSoundness.FoldFieldNegSound | zokrates_core/src/static_analysis/propagation.rs:837-842 | Field negation preserves the value. |
| PropagationSoundness.FoldFieldPosSound | zokrates_core/src/static_analysis/propagation.rs:843-846 | Field `+x` preserves the value. |
| PropagationSoundness.FoldFieldPowSound | zokrates_core/src/static_analysis/propagation.rs:847-868 | A power that folds (exponent 0, or constant base and exponent, or constant exponent only) preserves the value. |
| PropagationSoundness.FoldFieldCompareSound | zokrates_core/src/static_analysis/propagation.rs:1160-1181 | Field `<` and `<=` on constants preserve the value. |
| PropagationSoundness.FoldUintCompareSound | zokrates_core/src/static_analysis/propagation.rs:1182-1203 | Unsigned `<` and `<=` on constants preserve the value. |
| PropagationSoundness.FoldOrSound | zokrates_core/src/static_analysis/propagation.rs:1204-1227 | The `\|\|` rule, with its short cuts on either side, preserves the value. |
| PropagationSoundness.FoldBoolAndSound | zokrates_core/src/static_analysis/propagation.rs:1228-1251 | The `&&` rule preserves the value. |
| PropagationSoundness.FoldNotSound | zokrates_core/src/static_analysis/propagation.rs:1252-1257 | The `!` rule preserves the value. |
| PropagationSoundness.FoldEqSound | zokrates_core/src/static_analysis/propagation.rs:1104-1149 | The equality rule preserves the value: identical sides are equal, and two constants are compared in canonical form. |
| PropagationSoundness.FoldConditionalSound | zokrates_core/src/static_analysis/propagation.rs:194-221 | A conditional with a constant condition, or with identical branches, folds to the selected branch. |
| PropagationSoundness.FoldSelectSound | zokrates_core/src/static_analysis/propagation.rs:926-988 | A constant index into an array literal without spreads selects the element. An out-of-bounds index is an error exactly where the reference semantics has no value. |
| PropagationSoundness.FlattenElemSound | zokrates_core/src/static_analysis/propagation.rs:989-1038 | Expanding a spread of an array literal into the enclosing literal keeps its values. |
| PropagationSoundness.FoldSound | zokrates_core/src/static_analysis/propagation.rs:546-1270 | When the map agrees with the environment, folding a whole expression bottom-up keeps its value. |
| PropagationSoundness.FoldElemsSound | zokrates_core/src/static_analysis/propagation.rs:989-1038 | Folding the elements of an array literal keeps the values of the elements. |
| PropagationSoundness.FoldElemSound | zokrates_core/src/static_analysis/propagation.rs:989-1038 | Folding an element or a spread keeps its value. |
| BitPacking.FromBitsBelow | zokrates_core/src/static_analysis/propagation.rs:297-339 | A big-endian bit array of at most `w` bits packs to a value below 2^w. |
| BitPacking.FromBitsInjective | zokrates_core/src/static_analysis/propagation.rs:297-339 | Two bit arrays of equal length that pack to the same value are equal. |
| BitPacking.UToBits | zokrates_core/src/static_analysis/propagation.rs:340-374 | The loop of `process_u_to_bits` gives exactly `w` bits, and they pack back to the input value. |
| BitPacking.Unpack | zokrates_core/src/static_analysis/propagation.rs:412-458 | The `unpack` loop, in the field, leaves a zero remainder exactly when the value fits in the bit width. When it does, the bits pack back to the value. |
| BitPacking.BitsArray | zokrates_core/src/static_analysis/propagation.rs:443-453 | The array literal of booleans built from bits is canonical, and reading its bits gives them back. |
| PropagationStatements.FoldArguments | zokrates_core/src/static_analysis/propagation.rs:293-295 | Folding the arguments of an embedded call keeps their number. |
| PropagationStatements.LocateSetAt | zokrates_core/src/static_analysis/propagation.rs:78-149 | Writing a constant through `try_get_constant_mut` makes that place hold it. |
| PropagationStatements.SetAtFrame | zokrates_core/src/static_analysis/propagation.rs:78-149 | Writing through an assignee changes only the entry of its root variable. |
| PropagationStatements.SetAtCanonical | zokrates_core/src/static_analysis/propagation.rs:254-257 | Writing a canonical constant into a map of canonical constants keeps every entry canonical. |
| PropagationStatements.EvaluateEmbed | zokrates_core/src/static_analysis/propagation.rs:376-463 | `u*_from_bits` packs the bits. `u*_to_bits` gives the bits of the value. `unpack` gives `w` bits; for a field element and a width of at most 254 it fails with `ValueTooLarge` exactly when the value does not fit, and otherwise the bits recompose to the value. The other embedded calls are not evaluated. |
| PropagationStatements.Propagator.constructor | zokrates_core/src/static_analysis/propagation.rs:63-65 | `with_constants` uses the given map; a map of canonical constants gives a valid propagator. |
| PropagationStatements.Propagator.Evict | zokrates_core/src/static_analysis/propagation.rs:259-283 | Removes the root's cached constant and emits that constant's definition before the new definition. |
| PropagationStatements.Propagator.Store | zokrates_core/src/static_analysis/propagation.rs:465-487 | A constant result is stored at an identifier, or written in place, or it evicts the root. In every case the map stays canonical. |
| PropagationStatements.Propagator.DefineExpression | zokrates_core/src/static_analysis/propagation.rs:229-285 | An error comes from the assignee or from the expression. A constant assigned to a fresh identifier is absorbed. A constant is written in place where the assignee lands on a stored element. Anything else invalidates the root and is emitted. |
| PropagationStatements.Propagator.DefineEmbedCall | zokrates_core/src/static_analysis/propagation.rs:293-528 | An error comes from the assignee or from the arguments, and changes nothing. Otherwise the outcome is that of `DefineFoldedEmbed` on the folded assignee and call. |
| PropagationStatements.Propagator.DefineFoldedEmbed | zokrates_core/src/static_analysis/propagation.rs:376-528 | Only the root's constant changes. A call left to run time (arguments not all constant, or an embed that is not evaluated) invalidates the root and is emitted after the root's last constant. |
| PropagationStatements.Propagator.DefineEvaluated | zokrates_core/src/static_analysis/propagation.rs:376-509 | The call's value (packed bits, the bits of an integer, or the bits of an unpacked field element) is stored at an identifier, overwrites a stored element, or invalidates the root and is emitted as a definition. `unpack` fails only with `ValueTooLarge`, changing nothing; for a field element and a width of at most 254 it fails exactly when the value does not fit. |
| PropagationStatements.Propagator.FoldStatement | zokrates_core/src/static_analysis/propagation.rs:223-544 | A definition has the result and new map of `DefineExpression` or `DefineEmbedCall`. Loop bounds are folded but the body is not visited; assertions follow the corrected rule; call-log markers pass through. Only a definition changes the map. |
| StatementsSoundness.DefineConstantAgrees | zokrates_core/src/static_analysis/propagation.rs:245-252 | Absorbing a constant definition keeps the map in agreement with the environment after the assignment runs. |
| StatementsSoundness.EvictAgrees | zokrates_core/src/static_analysis/propagation.rs:271-283 | After an eviction the map still agrees, whatever value the variable then receives. |
| StatementsSoundness.FoldAssertionSound | zokrates_core/src/static_analysis/propagation.rs:529-539 | An assertion the corrected rule drops holds, and one it reports as failing does not hold. |
| StatementsSoundness.AssertionAsWrittenInverted | zokrates_core/src/static_analysis/propagation.rs:533-536 | The rule as written reports `assert(true)` as a failure and silently drops `assert(false)`. |
| Flat.Evaluate | zokrates_ast/src/flat/mod.rs:255-261 | A flat expression evaluates to a field element. |
| Flat.LinearDegree | zokrates_ast/src/flat/mod.rs:331-349 | An expression accepted by `is_linear` has degree at most 1. |
| Flat.LinearIsSyntactic | zokrates_ast/src/flat/mod.rs:336-347 | `is_linear` is syntactic: `2 * (~one + _0)` has degree 1 but is rejected. |
| Flat.ShapeLinear | zokrates_ast/src/flat/mod.rs:331-349 | `is_linear` depends only on the shape of the expression, not on its variables. |
| Flat.ApplySubstitution | zokrates_ast/src/flat/mod.rs:294-329 | Substitution keeps the shape of the expression, and its variables become the renamed variables. |
| Flat.SubstitutionLinear | zokrates_ast/src/flat/mod.rs:319-349 | Substitution keeps linearity. |
| Flat.SubstitutionEvaluate | zokrates_ast/src/flat/mod.rs:319-329 | Evaluating a substituted expression is evaluating the original under the composed assignment. |
| Flat.SubstitutionCompose | zokrates_ast/src/flat/mod.rs:319-329 | Two substitutions in a row are the substitution by the composed renaming. |
| Flat.SubstitutionIdentity | zokrates_ast/src/flat/mod.rs:319-329 | The identity renaming leaves an expression unchanged. |
| Flat.DefinitionStatement | zokrates_ast/src/flat/mod.rs:93-95 | A definition is satisfied exactly when the assignee holds the value of the right-hand side. |
| Flat.AssertionStatement | zokrates_ast/src/flat/mod.rs:97-99 | An assertion is satisfied exactly when its expression evaluates to zero. |
| Flat.ConditionStatement | zokrates_ast/src/flat/mod.rs:101-107 | `condition(l, r)` is the assertion of `l - r`, and is satisfied exactly when both sides are equal. |
| Flat.NewDirective | zokrates_ast/src/flat/mod.rs:218-231 | Given the solver's signature lengths, the directive keeps its solver, inputs and outputs, and respects the signature. |
| Flat.SubstituteExpressions | zokrates_ast/src/flat/mod.rs:181-185 | Each input is substituted in place, keeping the order. |
| Flat.SubstituteVariables | zokrates_ast/src/flat/mod.rs:176-180 | Each output is renamed in place, keeping the order. |
| Flat.SubstituteLogArguments | zokrates_ast/src/flat/mod.rs:193-205 | Each log argument keeps its type, and its expressions are substituted. |
| Flat.StatementSubstitutionSound | zokrates_ast/src/flat/mod.rs:163-207 | Substitution keeps the kind of statement. A substituted definition or assertion is satisfied exactly when the original is satisfied under the composed assignment. |
| Flat.DirectiveSubstitution | zokrates_ast/src/flat/mod.rs:175-192 | A substituted directive keeps its solver and the lengths of its inputs and outputs. |
| Flat.CollectStatements | zokrates_ast/src/flat/mod.rs:52 | Collecting a statement stream keeps every statement, in stream order. |
| Flat.Collect | zokrates_ast/src/flat/mod.rs:50-56 | `collect` keeps the arguments and return count, and the statements in stream order. |
| Ir.RenameLin | zokrates_core/src/optimizer/directive.rs:48 | The default traversal renames every variable of a linear combination, keeping coefficients and order. |
| Ir.RenameDirective | zokrates_core/src/optimizer/directive.rs:34 | The default directive traversal renames inputs and outputs and keeps the solver. |
| Ir.Returns | zokrates_libsnark/src/lib.rs:225-229 | The returns of a program are `~out_0 .. ~out_{n-1}`. |
| DirectiveOptimization.Lookup | zokrates_core/src/optimizer/directive.rs:27-29 | A renamed variable maps to its substitute; any other variable stays as it is. |
| DirectiveOptimization.Zip | zokrates_core/src/optimizer/directive.rs:43 | `zip` pairs the outputs positionally, up to the shorter length. |
| DirectiveOptimization.ExtendKeys | zokrates_core/src/optimizer/directive.rs:42-43 | After `extend`, the substitution's keys are the old keys plus the new outputs. |
| DirectiveOptimization.ExtendOther | zokrates_core/src/optimizer/directive.rs:42-43 | `extend` leaves the entries of unmentioned variables alone. |
| DirectiveOptimization.ExtendLast | zokrates_core/src/optimizer/directive.rs:42-43 | The last pair that mentions a variable decides its entry. |
| DirectiveOptimization.RepeatedOutputsRenamed | zokrates_core/src/optimizer/directive.rs:41-45 | When a repeated call is dropped, each of its distinct outputs is renamed to the first call's output at the same position. |
| DirectiveOptimization.KeyAfterRenaming | zokrates_core/src/optimizer/directive.rs:34-36 | The key is taken after renaming, so calls that differ only in identified variables share a key. |
| DirectiveOptimization.DirectiveOptimizer.constructor | zokrates_core/src/optimizer/directive.rs:19-24 | The default optimizer starts with no calls and no substitution. |
| DirectiveOptimization.DirectiveOptimizer.FoldVariable | zokrates_core/src/optimizer/directive.rs:27-29 | Looks a variable up through the current substitution. |
| DirectiveOptimization.DirectiveOptimizer.ExtendSubstitution | zokrates_core/src/optimizer/directive.rs:42-43 | `extend`, one insertion at a time; the recorded calls are untouched. |
| DirectiveOptimization.DirectiveOptimizer.FoldStatement | zokrates_core/src/optimizer/directive.rs:31-50 | A constraint is renamed and kept. A directive is renamed first. The first call with its solver and inputs is kept and its outputs are recorded. A repeated call is dropped and its outputs are substituted by the recorded ones. Recorded calls never change, and substitutions are never removed. |
| R1cs.DedupStep | zokrates_libsnark/src/lib.rs:200-203 | Providing one more variable appends it, unless it is already present. |
| R1cs.DedupPrefix | zokrates_libsnark/src/lib.rs:200-203 | Providing variables never disturbs the indices already given. |
| R1cs.DedupElements | zokrates_libsnark/src/lib.rs:200-203 | After providing, the indexed variables are the old ones plus the new ones. |
| R1cs.DedupDistinct | zokrates_libsnark/src/lib.rs:200-203 | Every index names a distinct variable. |
| R1cs.DedupConcat | zokrates_libsnark/src/lib.rs:235-248 | Providing two lists in turn is providing their concatenation. |
| R1cs.DedupOfDistinct | zokrates_libsnark/src/lib.rs:217-229 | Distinct variables are indexed in the order they are provided. |
| R1cs.IndexOf | zokrates_libsnark/src/lib.rs:261 | The index of a listed variable names that variable. |
| R1cs.IndexOfDistinct | zokrates_libsnark/src/lib.rs:276-280 | In a list without repetition, the index of the i-th variable is i. |
| R1cs.IndexedDense | zokrates_libsnark/src/lib.rs:200-203 | A map that indexes an order uses exactly the indices `0 .. len-1`. |
| R1cs.VariableIndex.constructor | zokrates_libsnark/src/lib.rs:216 | The index starts empty. |
| R1cs.VariableIndex.Provide | zokrates_libsnark/src/lib.rs:200-203 | `provide_variable_idx` gives a known variable its index and leaves the map unchanged; a new variable gets the next index, `len`. The indices stay dense. |
| R1cs.VariableIndex.ProvideAll | zokrates_libsnark/src/lib.rs:219-229 | Providing a list indexes its new variables in order of first occurrence. |
| R1cs.VariableIndex.ProvideStatement | zokrates_libsnark/src/lib.rs:239-247 | A constraint's variables are provided left, right, then linear; a directive provides nothing. |
| R1cs.VariableIndex.ProvideStatements | zokrates_libsnark/src/lib.rs:235-248 | The first pass indexes every variable of every constraint in order of first use. |
| R1cs.LinVars | zokrates_libsnark/src/lib.rs:239-247 | The variables of a combination, in term order. |
| R1cs.VariableOrderFacts | zokrates_libsnark/src/lib.rs:215-282 | The variable list has no repetitions. It starts with `~one`, then the public header. It contains every variable used by a constraint. |
| R1cs.HeaderOrderOfDistinct | zokrates_libsnark/src/lib.rs:217-232 | With no repetition in it, the header is `~one`, then the public arguments, then `~out_i`; the private offset is its length. |
| R1cs.TranslateLin | zokrates_libsnark/src/lib.rs:257-271 | Each term becomes the index of its variable in the list, keeping its coefficient and position. |
| R1cs.TranslateConstraints | zokrates_libsnark/src/lib.rs:253-273 | One row triple per constraint, in order. |
| R1cs.ConstraintsCovered | zokrates_libsnark/src/lib.rs:250-273 | Each `unwrap` in the second pass succeeds: every term's variable was indexed. |
| R1cs.LookupLin | zokrates_libsnark/src/lib.rs:261 | Looking up each term in the map keeps the number of terms. |
| R1cs.LookupIsIndexOf | zokrates_libsnark/src/lib.rs:257-271 | Looking up in the index map is taking the position in the order it indexes. |
| R1cs.SecondPass | zokrates_libsnark/src/lib.rs:250-273 | The second pass produces the translated rows of the constraints, skipping directives. |
| R1cs.PrefixConstraints | zokrates_libsnark/src/lib.rs:253-256 | The constraints of a prefix of the statements are a prefix of the constraints. |
| R1cs.InverseList | zokrates_libsnark/src/lib.rs:275-280 | Inverting the map gives the variables in index order. Each slot is written once, so the `assert_eq!` always holds. |
| R1cs.R1csProgram | zokrates_libsnark/src/lib.rs:215-282 | `r1cs_program` returns the reference variable order, the header length as the private offset, and the reference rows. |
| R1cs.LinValue | zokrates_libsnark/src/lib.rs:208-210 | The value of a linear combination is a field element. |
| R1cs.RowValue | zokrates_libsnark/src/lib.rs:208-210 | The value of a row against a witness vector is a field element. |
| R1cs.TranslateLinValue | zokrates_libsnark/src/lib.rs:208-210 | A translated row evaluated on the witness vector has the value of the combination it came from. |
| R1cs.ProgramConstraintsSound | zokrates_libsnark/src/lib.rs:208-210 | With the witness laid out in variable order, `<A,x>*<B,x> = <C,x>` holds for a row triple exactly when its constraint holds. |
| Bytes.Zeros | zokrates_libsnark/src/lib.rs:16 | `n` zero bytes. |
| Bytes.Reverse | zokrates_libsnark/src/lib.rs:17-19 | Byte `i` of the reversal is byte `len-1-i` of the input. |
| Bytes.LeBytesRoundTrip | zokrates_libsnark/src/lib.rs:102-103 | The little-endian bytes of a value that fits decode back to it. |
| Bytes.FromLeRoundTrip | zokrates_libsnark/src/lib.rs:102-103 | Encoding the value of some bytes gives the bytes back. |
| Bytes.FromLeZeros | zokrates_libsnark/src/lib.rs:14-21 | Trailing zero bytes do not change a little-endian value. |
| Bytes.AsI32 | zokrates_libsnark/src/lib.rs:64-65 | `as i32` gives a 32-bit integer and is the identity below 2^31. |
| Bytes.I32ToLeBytes | zokrates_libsnark/src/lib.rs:102-103 | `to_le().to_ne_bytes()` gives four bytes. |
| Bytes.I32FromLeBytes | zokrates_libsnark/src/lib.rs:102-103 | Four bytes read as a two's-complement integer give a 32-bit integer. |
| Bytes.I32RoundTrip | zokrates_libsnark/src/lib.rs:102-103 | The four bytes of a 32-bit integer decode back to it. |
| Libsnark.Pad32 | zokrates_libsnark/src/lib.rs:14-21 | The 32-byte array is the reversed vector, padded with leading zeros. |
| Libsnark.ReversePad | zokrates_libsnark/src/lib.rs:14-21 | Reversing the array gives the vector followed by zeros. |
| Libsnark.Pad32Value | zokrates_libsnark/src/lib.rs:14-21 | Read big-endian, the array has the value of the little-endian vector. |
| Libsnark.Pad32Positions | zokrates_libsnark/src/lib.rs:14-21 | Byte `i` of the vector sits at position `31 - i` of the array; the positions in front of the vector are zero. |
| Libsnark.VecAsU8Array32 | zokrates_libsnark/src/lib.rs:14-21 | The loop builds exactly the padded, reversed array `Pad32(vec)`. |
| Libsnark.FillSlots | zokrates_libsnark/src/lib.rs:25-29 | Each value is converted into its slot; the remaining slots stay zero. |
| Libsnark.PreparePublicInputs | zokrates_libsnark/src/lib.rs:23-32 | One converted array per input; the length is the number of inputs. |
| Libsnark.RowRecords | zokrates_libsnark/src/lib.rs:61-82 | One `(row as i32, idx as i32, value as array)` record per term of a row. |
| Libsnark.RecordBytes | zokrates_libsnark/src/lib.rs:85-96 | A record occupies 40 bytes. |
| Libsnark.LayoutAt | zokrates_libsnark/src/lib.rs:98-142 | The byte array is 40 bytes per record, and record `k` occupies bytes `40k .. 40k+40`. |
| Libsnark.LayoutRoundTrip | zokrates_libsnark/src/lib.rs:98-142 | Within record `k`: bytes 0..4 decode to the row, 4..8 to the index, and 8..40 are the value. |
| Libsnark.RecordsWellFormed | zokrates_libsnark/src/lib.rs:61-83 | Every record has 32-bit row and index and a 32-byte value. |
| Libsnark.PushRow | zokrates_libsnark/src/lib.rs:62-68 | The inner loop appends the records of one row. |
| Libsnark.BuildRecords | zokrates_libsnark/src/lib.rs:57-83 | The A, B and C vectors are the records of the A, B and C rows, in constraint order. |
| Libsnark.WriteRecord | zokrates_libsnark/src/lib.rs:101-114 | Writes one record's 40 bytes at its offset and nothing else. |
| Libsnark.RecordsToBytes | zokrates_libsnark/src/lib.rs:98-114 | The byte array is the layout of the records. |
| Libsnark.PrepareSetup | zokrates_libsnark/src/lib.rs:36-155 | The inputs are the public header without `~one`. The counts are those of constraints and variables. The vectors are the records of the reference rows, and the byte arrays are their layouts. |
| Libsnark.PrepareGenerateProof | zokrates_libsnark/src/lib.rs:158-192 | The witness is split at the private offset into public and private arrays. Each slot is converted from the variable's value in variable order. The private array has at least one slot. |
| Libsnark.SplitWitness | zokrates_libsnark/src/lib.rs:165-184 | The witness values are looked up in the given variable order. The first `offset` go to the public array and the rest to the private array, each as a 32-byte slot. The private array has at least one slot. |
| Serialization.DigitRoundTrip | zokrates_libsnark/src/lib.rs:291-298 | Decoding a hex digit written by the encoder gives its value. |
| Serialization.CharRoundTrip | zokrates_libsnark/src/lib.rs:291-298 | Re-encoding a decoded lower-case digit gives the digit. |
| Serialization.HexEncode | zokrates_libsnark/src/lib.rs:296-298 | Two lower-case digits per byte. |
| Serialization.HexRoundTrip | zokrates_libsnark/src/lib.rs:291-298 | Hex decoding inverts hex encoding. |
| Serialization.LowerHexRoundTrip | zokrates_libsnark/src/lib.rs:291-298 | A lower-case hex string decodes, and re-encodes to itself. |
| Serialization.EncodeHex | zokrates_libsnark/src/lib.rs:296-298 | `encode_hex` gives `0x` followed by two digits per byte. |
| Serialization.EncodeDecode | zokrates_libsnark/src/lib.rs:291-298 | `decode_hex(encode_hex(d)) == d`. |
| Serialization.CoordinateRoundTrip | zokrates_libsnark/src/lib.rs:291-298 | A coordinate string decodes to 32 bytes that re-encode to it. |
| Serialization.EncodedIsCoordinate | zokrates_libsnark/src/lib.rs:304-307 | Encoding 32 bytes gives a coordinate string. |
| Serialization.ReadG1 | zokrates_libsnark/src/lib.rs:300-308 | Reading succeeds exactly when 64 bytes are available. It consumes them, and both coordinates are encoded strings. |
| Serialization.ReadG2 | zokrates_libsnark/src/lib.rs:310-318 | Reading succeeds exactly when 128 bytes are available and always produces the `Fq2` form. |
| Serialization.ReadWriteG1 | zokrates_libsnark/src/lib.rs:300-323 | Writing a point that was read reproduces the 64 bytes read. |
| Serialization.ReadWriteG2 | zokrates_libsnark/src/lib.rs:310-335 | Writing a point that was read reproduces the 128 bytes read. |
| Serialization.WriteReadG1 | zokrates_libsnark/src/lib.rs:300-323 | Reading what was written gives the point back, with the rest of the stream untouched. |
| Serialization.WriteReadG2 | zokrates_libsnark/src/lib.rs:310-335 | Reading what was written gives the `Fq2` point back, with the rest of the stream untouched. |

## Left out

- Type checking in the propagator (`Error::Type`, zokrates_core/src/static_analysis/propagation.rs:233-243 and the struct and tuple checks): the model's expressions are well typed by construction.
- Structs, tuples and their member and element assignees (zokrates_core/src/static_analysis/propagation.rs:870-925, 1039-1103): the model has field elements, unsigned integers, booleans and arrays only.
- The generic traversals (`fold_program`, `fold_function`, the default `fold_statement` for returns and other statements, and the folding of a whole statement list): they only thread the folder through the program.
- `fold_select_expression` on an array identifier (zokrates_core/src/static_analysis/propagation.rs:953-987): the model folds selects only on array literals, and leaves the others unevaluated.
- Propagation.FoldSelect: identifiers carry no array type in the model, so the size of a literal that still holds a spread over a non-literal (`[...x, 1]` with `x` unknown) is not known. Such a select is left unevaluated, where the source resolves an in-bounds constant index through `expression_at` and reports `OutOfBounds` for the others (zokrates_core/src/static_analysis/propagation.rs:943-951).
- SelectErrors: covers array literals without spreads only, for the reason given for `Propagation.FoldSelect`.
- FoldSelectSound: covers array literals without spreads only, for the reason given for `Propagation.FoldSelect`.
- The filtering of spreads over empty arrays and of array-literal annotations in `fold_array_expression_inner`: only the expansion of spreads of literals is modelled.
- `FieldGt`, `FieldGe` and the other boolean forms without a rule of their own: they fall through to the generic traversal (zokrates_core/src/static_analysis/propagation.rs:1259), which folds the operands and evaluates nothing, so the model has no such nodes.
- PropagationSoundness.FoldFieldBinarySound: a constant field division by zero is left unevaluated, where the source's field division panics.
- Propagation.ConstantFoldInRange: the source's `u128` arithmetic panics on overflow for shifts by more than 127 bits; the model computes with unbounded integers before wrapping. A constant division or remainder by zero also panics in the source; the model leaves it unevaluated.
- Propagation.FoldDiv / Propagation.FoldRem: the source panics on a constant zero divisor (`v1.value / v2.value` and `v1.value % v2.value`, zokrates_core/src/static_analysis/propagation.rs:647-650 and 668-671); the model leaves the node unevaluated instead.
- Propagation.Fold: applies the corrected `FloorSub` rule of "## Findings" (a non-constant saturating subtraction stays a `FloorSub`); the rule as written is `Propagation.FoldFloorSubAsWritten`, which is modelled and shown to change the value but is not part of the bottom-up folder.
- PropagationStatements.Propagator.FoldStatement: applies the corrected assertion rule of "## Findings" (`true` dropped, `false` reported); the rule as written is `PropagationStatements.FoldAssertionAsWritten`, which is modelled and shown inverted but is not what the statement folder calls.
- StatementsSoundness.DefineConstantAgrees: the agreement proof covers definitions of identifiers; writes into array elements (`SetAt`) are proved to keep the map canonical and to change only the root's entry, but not to agree with the environment.
- BitPacking.Unpack: the exact characterization holds for widths up to 254 bits, the size of a field element; wider unpackings are modelled but not characterized.
- PropagationStatements.EvaluateEmbed: the `unpack` success condition and the recomposition of its bits are stated only for a field element and a width of at most 254, for the reason given for `BitPacking.Unpack`.
- PropagationStatements.Propagator.DefineEvaluated: the `unpack` success condition is stated only for a field element and a width of at most 254, for the reason given for `BitPacking.Unpack`.
- Display and `fmt` implementations of errors, statements and functions: they produce only text for messages.
- Flat.ApplySubstitution: `Variable::apply_substitution` is not part of this model; it is taken to be a total renaming function.
- Ir.RenameLin: the default IR folder is not part of this model; it is taken to rename every variable of a statement and keep everything else.
- Common.Variable: the representation of variables is not part of this model; `~one`, the public outputs and the internal variables are modelled as three disjoint families.
- `Field::to_byte_vector` is a parameter of the libsnark functions (least significant byte first, at most 32 bytes); the field implementation is not part of this model.
- Libsnark.WriteRecord: `to_ne_bytes` is modelled for a little-endian host.
- Readers and writers are modelled as byte sequences; a failing `write_all`, which panics through `unwrap`, is not modelled, nor is the state of a reader after `read_exact` fails.
- Serialization.DecodeHex: the source panics (`unwrap`) on a string without `0x` or with an invalid digit; the model requires a decodable string, and collapses `hex::decode`'s error kinds into `None`.
- The foreign calls into libsnark (setup, proof generation and verification for GM17 and PGHR13) and the ffi buffers: they are code outside this repository.
- The directive optimizer's traversal of a whole program: `DirectiveOptimization.DirectiveOptimizer.FoldStatement` is modelled statement by statement.

## Findings

| source | as written | input that shows it | evidently intended | confidence | as-written member | corrected member |
|---|---|---|---|---|---|---|
| zokrates_core/src/static_analysis/propagation.rs:615-617 | When neither operand of a floor (saturating) subtraction is a constant on the right, the node is rebuilt as a wrapping `Sub`. | `a - b` on `u8` with `a = 1`, `b = 2`, neither constant: the saturating result 0 becomes 255 | Rebuild the node as a `FloorSub`. | not executed | PropagationSoundness.FloorSubAsWrittenChangesValue | PropagationSoundness.FoldFloorSubSound |
| zokrates_core/src/static_analysis/propagation.rs:533-536 | An assertion whose condition folds to `true` is reported as `AssertionFailed`, and one that folds to `false` is dropped. | `assert(true)` fails to compile, and `assert(false)` is removed | Drop `true` and report `false`. | not executed | StatementsSoundness.AssertionAsWrittenInverted | StatementsSoundness.FoldAssertionSound |
