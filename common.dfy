/**
 * Entities shared by the flat and the constraint-level representations:
 * variables, function parameters, solvers and runtime error tags.
 */
module Common {

  /**
   * A variable of a compiled program: the constant `~one`, the `i`-th
   * public output `~out_i`, or an internal variable. `Variable::new(i)` is
   * `Internal(i)`; the three families are disjoint.
   */
  datatype Variable = One | Public(index: nat) | Internal(id: nat)

  function New(id: nat): Variable {
    Internal(id)
  }

  /** A parameter of the main function, public unless marked private. */
  datatype Parameter = Parameter(id: Variable, private: bool)

  /**
   * A solver that a directive calls to compute witness values out of
   * band, with the number of inputs and outputs of its signature.
   */
  datatype Solver = Solver(name: string, inputCount: nat, outputCount: nat) {
    function GetSignature(): (nat, nat) {
      (inputCount, outputCount)
    }
  }

  /** The tag attached to a runtime assertion. */
  datatype RuntimeError = RuntimeError(tag: string)
}
