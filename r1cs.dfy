/**
 * Translation of a constraint program into rank-1 constraint system rows:
 * every variable gets a dense index — the constant `~one` first, then the
 * public arguments, then the public outputs, then every other variable in
 * order of first use — and every constraint `left * right == lin` becomes
 * three sparse rows of (index, coefficient) pairs.
 */
module R1cs {
  import opened Common
  import opened Ir
  import Field

  predicate Distinct(s: seq<Variable>) {
    forall i, j | 0 <= i < j < |s| :: s[i] != s[j]
  }

  // ---------------------------------------------------------------------
  // Order of first appearance
  // ---------------------------------------------------------------------

  /** `d` followed by the elements of `s` not seen before, in order of first appearance. */
  function DedupInto(d: seq<Variable>, s: seq<Variable>): seq<Variable>
    decreases |s|
  {
    if s == [] then d
    else
      var r := DedupInto(d, s[..|s| - 1]);
      if s[|s| - 1] in r then r else r + [s[|s| - 1]]
  }

  /** The list of distinct elements of `s`, in order of first appearance. */
  function Dedup(s: seq<Variable>): seq<Variable> {
    DedupInto([], s)
  }

  /** One more element of `s`: the prefix of length `i + 1` adds `s[i]` if it is new. */
  lemma DedupStep(d: seq<Variable>, s: seq<Variable>, i: nat)
    requires i < |s|
    ensures DedupInto(d, s[..i + 1]) == (var r := DedupInto(d, s[..i]); if s[i] in r then r else r + [s[i]])
  {
    assert s[..i + 1][..i] == s[..i];
  }

  /** What was there stays in front. */
  lemma {:induction false} DedupPrefix(d: seq<Variable>, s: seq<Variable>)
    ensures |d| <= |DedupInto(d, s)| && DedupInto(d, s)[..|d|] == d
    decreases |s|
  {
    if s != [] {
      DedupPrefix(d, s[..|s| - 1]);
    }
  }

  /** Exactly the elements of `d` and `s` occur. */
  lemma {:induction false} DedupElements(d: seq<Variable>, s: seq<Variable>)
    ensures forall x :: x in DedupInto(d, s) <==> x in d || x in s
    decreases |s|
  {
    if s != [] {
      var n := |s| - 1;
      DedupElements(d, s[..n]);
      assert s == s[..n] + [s[n]];
      forall x ensures x in s <==> x in s[..n] || x == s[n] {
        if x in s {
          var i :| 0 <= i < |s| && s[i] == x;
          if i < n {
            assert s[..n][i] == x;
          }
        }
      }
    }
  }

  /** No element occurs twice, if none did in `d`. */
  lemma {:induction false} DedupDistinct(d: seq<Variable>, s: seq<Variable>)
    requires Distinct(d)
    ensures Distinct(DedupInto(d, s))
    decreases |s|
  {
    if s != [] {
      DedupDistinct(d, s[..|s| - 1]);
    }
  }

  /** Deduplicating a concatenation is deduplicating its parts one after the other. */
  lemma {:induction false} DedupConcat(d: seq<Variable>, a: seq<Variable>, b: seq<Variable>)
    ensures DedupInto(d, a + b) == DedupInto(DedupInto(d, a), b)
    decreases |b|
  {
    if b == [] {
      assert a + b == a;
    } else {
      var n := |b| - 1;
      assert (a + b)[..|a + b| - 1] == a + b[..n];
      DedupConcat(d, a, b[..n]);
    }
  }

  /** When nothing repeats, nothing is dropped. */
  lemma {:induction false} DedupOfDistinct(d: seq<Variable>, s: seq<Variable>)
    requires Distinct(d + s)
    ensures DedupInto(d, s) == d + s
    decreases |s|
  {
    if s != [] {
      var n := |s| - 1;
      assert (d + s[..n]) == (d + s)[..|d| + n];
      DedupOfDistinct(d, s[..n]);
      assert d + s == (d + s[..n]) + [s[n]];
      assert s[n] !in d + s[..n] by {
        forall i | 0 <= i < |d| + n ensures (d + s[..n])[i] != s[n] {
          assert (d + s[..n])[i] == (d + s)[i];
          assert s[n] == (d + s)[|d| + n];
        }
      }
    }
  }

  /** The position of an element in a list. */
  function IndexOf(list: seq<Variable>, v: Variable): (r: nat)
    requires v in list
    ensures r < |list| && list[r] == v
  {
    if list[0] == v then 0 else 1 + IndexOf(list[1..], v)
  }

  lemma IndexOfDistinct(list: seq<Variable>, i: nat)
    requires Distinct(list) && i < |list|
    ensures IndexOf(list, list[i]) == i
  {
  }

  // ---------------------------------------------------------------------
  // The index map
  // ---------------------------------------------------------------------

  /** Indices are below the map's size and no two variables share one. */
  predicate Dense(m: map<Variable, nat>) {
    (forall v | v in m :: m[v] < |m|)
    && (forall v, w | v in m && w in m && v != w :: m[v] != m[w])
  }

  /** `order` lists the variables of `m` by index. */
  ghost predicate IndexedBy(m: map<Variable, nat>, order: seq<Variable>) {
    |order| == |m| && Distinct(order)
    && (forall i | 0 <= i < |order| :: order[i] in m && m[order[i]] == i)
    && (forall v | v in m :: m[v] < |order| && order[m[v]] == v)
  }

  lemma IndexedDense(m: map<Variable, nat>, order: seq<Variable>)
    requires IndexedBy(m, order)
    ensures Dense(m)
  {
  }

  /** The `variables` map of `r1cs_program`, grown by `provide_variable_idx`. */
  class VariableIndex {
    var variables: map<Variable, nat>
    /** The variables by index. */
    ghost var order: seq<Variable>

    ghost predicate Valid()
      reads this
    {
      IndexedBy(variables, order)
    }

    constructor ()
      ensures Valid() && variables == map[] && order == []
    {
      variables := map[];
      order := [];
    }

    /**
     * `provide_variable_idx`: a known variable keeps its index and the map
     * is unchanged; a new variable gets the next index, the map's old size.
     */
    method Provide(v: Variable) returns (idx: nat)
      requires Valid()
      modifies this
      ensures Valid() && Dense(variables)
      ensures v in old(variables) ==> idx == old(variables)[v] && variables == old(variables) && order == old(order)
      ensures v !in old(variables) ==>
        idx == |old(variables)| && variables == old(variables)[v := idx] && order == old(order) + [v]
    {
      var index := |variables|;
      if v !in variables {
        variables := variables[v := index];
        order := order + [v];
        assert |variables| == |order|;
      }
      idx := variables[v];
      IndexedDense(variables, order);
    }

    /** `provide_variable_idx` on each variable of `vs` in turn. */
    method ProvideAll(vs: seq<Variable>)
      requires Valid()
      modifies this
      ensures Valid() && order == DedupInto(old(order), vs)
    {
      var i := 0;
      while i < |vs|
        invariant 0 <= i <= |vs|
        invariant Valid()
        invariant order == DedupInto(old(order), vs[..i])
      {
        DedupStep(old(order), vs, i);
        var _ := Provide(vs[i]);
        i := i + 1;
      }
      assert vs[..i] == vs;
    }

    /** The variables of one constraint: its left, right and output combinations. */
    method ProvideStatement(s: Statement)
      requires Valid()
      modifies this
      ensures Valid() && order == DedupInto(old(order), StatementVars(s))
    {
      match s {
        case Constraint(quad, lin, _) =>
          ProvideAll(LinVars(quad.left));
          ProvideAll(LinVars(quad.right));
          DedupConcat(old(order), LinVars(quad.left), LinVars(quad.right));
          ProvideAll(LinVars(lin));
          DedupConcat(old(order), LinVars(quad.left) + LinVars(quad.right), LinVars(lin));
        case DirectiveStatement(_) =>
      }
    }

    /** The first pass: every variable of every constraint, in order. */
    method ProvideStatements(ss: seq<Statement>)
      requires Valid()
      modifies this
      ensures Valid() && order == DedupInto(old(order), UsedVars(ss))
    {
      var i := 0;
      while i < |ss|
        invariant 0 <= i <= |ss|
        invariant Valid()
        invariant order == DedupInto(old(order), UsedVars(ss[..i]))
      {
        UsedVarsStep(ss, i);
        DedupConcat(old(order), UsedVars(ss[..i]), StatementVars(ss[i]));
        ProvideStatement(ss[i]);
        i := i + 1;
      }
      assert ss[..i] == ss;
    }
  }

  // ---------------------------------------------------------------------
  // The variables of a program in index order
  // ---------------------------------------------------------------------

  function LinVars(l: LinComb): (r: seq<Variable>)
    ensures |r| == |l.terms|
    ensures forall j | 0 <= j < |r| :: r[j] == l.terms[j].0
  {
    seq(|l.terms|, j requires 0 <= j < |l.terms| => l.terms[j].0)
  }

  /** The variables of a statement's constraint, left then right then output; none for a directive. */
  function StatementVars(s: Statement): seq<Variable> {
    match s
    case Constraint(quad, lin, _) => LinVars(quad.left) + LinVars(quad.right) + LinVars(lin)
    case DirectiveStatement(_) => []
  }

  /** The variables the first pass visits, in the order it visits them. */
  function UsedVars(ss: seq<Statement>): seq<Variable>
    decreases |ss|
  {
    if ss == [] then [] else UsedVars(ss[..|ss| - 1]) + StatementVars(ss[|ss| - 1])
  }

  lemma UsedVarsStep(ss: seq<Statement>, i: nat)
    requires i < |ss|
    ensures UsedVars(ss[..i + 1]) == UsedVars(ss[..i]) + StatementVars(ss[i])
  {
    assert ss[..i + 1][..i] == ss[..i];
  }

  /** The ids of the arguments that are not private, in argument order. */
  function PublicArguments(args: seq<Parameter>): seq<Variable>
    decreases |args|
  {
    if args == [] then []
    else (if args[0].private then [] else [args[0].id]) + PublicArguments(args[1..])
  }

  /** The variables given indices before the constraints are visited. */
  function Header(prog: Prog): seq<Variable> {
    [One] + PublicArguments(prog.arguments) + Returns(prog)
  }

  /** The public part of the variable order; its length is the private offset. */
  function HeaderOrder(prog: Prog): seq<Variable> {
    Dedup(Header(prog))
  }

  /** Every variable of the program in index order. */
  function VariableOrder(prog: Prog): seq<Variable> {
    DedupInto(HeaderOrder(prog), UsedVars(prog.statements))
  }

  /**
   * The variable order has no duplicates, starts with `~one`, has the
   * public part in front and contains every variable of every constraint.
   */
  lemma VariableOrderFacts(prog: Prog)
    ensures Distinct(VariableOrder(prog))
    ensures |HeaderOrder(prog)| >= 1 && HeaderOrder(prog)[0] == One
    ensures |HeaderOrder(prog)| <= |VariableOrder(prog)|
    ensures VariableOrder(prog)[..|HeaderOrder(prog)|] == HeaderOrder(prog)
    ensures forall v | v in UsedVars(prog.statements) :: v in VariableOrder(prog)
  {
    DedupDistinct([], Header(prog));
    DedupDistinct(HeaderOrder(prog), UsedVars(prog.statements));
    assert Header(prog) == [One] + (PublicArguments(prog.arguments) + Returns(prog));
    DedupConcat([], [One], PublicArguments(prog.arguments) + Returns(prog));
    assert DedupInto([], [One]) == [One] by {
      assert [One][..0] == [];
    }
    DedupPrefix([One], PublicArguments(prog.arguments) + Returns(prog));
    DedupPrefix(HeaderOrder(prog), UsedVars(prog.statements));
    DedupElements(HeaderOrder(prog), UsedVars(prog.statements));
  }

  /**
   * When the public arguments and outputs are distinct variables other
   * than `~one`, the order begins with `~one`, then the public arguments in
   * argument order, then `~out_0 .. ~out_{n-1}`.
   */
  lemma HeaderOrderOfDistinct(prog: Prog)
    requires Distinct(Header(prog))
    ensures HeaderOrder(prog) == [One] + PublicArguments(prog.arguments) + Returns(prog)
  {
    DedupOfDistinct([], Header(prog));
  }

  // ---------------------------------------------------------------------
  // Constraints as rows of indices
  // ---------------------------------------------------------------------

  /** A sparse row: (variable index, coefficient) pairs. */
  type Row = seq<(nat, nat)>

  datatype R1csConstraint = R1csConstraint(a: Row, b: Row, c: Row)

  /** The constraints of a program in program order, directives skipped. */
  function ConstraintsOf(ss: seq<Statement>): seq<(QuadComb, LinComb)>
    decreases |ss|
  {
    if ss == [] then []
    else
      var s := ss[|ss| - 1];
      ConstraintsOf(ss[..|ss| - 1]) + (if s.Constraint? then [(s.quad, s.lin)] else [])
  }

  predicate Covers(list: seq<Variable>, l: LinComb) {
    forall j | 0 <= j < |l.terms| :: l.terms[j].0 in list
  }

  predicate CoversConstraint(list: seq<Variable>, c: (QuadComb, LinComb)) {
    Covers(list, c.0.left) && Covers(list, c.0.right) && Covers(list, c.1)
  }

  /** Each term as the index of its variable in `list`, keeping its coefficient and position. */
  function TranslateLin(l: LinComb, list: seq<Variable>): (r: Row)
    requires Covers(list, l)
    ensures |r| == |l.terms|
    ensures forall j | 0 <= j < |r| :: r[j].0 < |list| && list[r[j].0] == l.terms[j].0 && r[j].1 == l.terms[j].1
  {
    seq(|l.terms|, j requires 0 <= j < |l.terms| => (IndexOf(list, l.terms[j].0), l.terms[j].1))
  }

  function TranslateConstraint(c: (QuadComb, LinComb), list: seq<Variable>): R1csConstraint
    requires CoversConstraint(list, c)
  {
    R1csConstraint(TranslateLin(c.0.left, list), TranslateLin(c.0.right, list), TranslateLin(c.1, list))
  }

  function TranslateConstraints(cs: seq<(QuadComb, LinComb)>, list: seq<Variable>): (r: seq<R1csConstraint>)
    requires forall k | 0 <= k < |cs| :: CoversConstraint(list, cs[k])
    ensures |r| == |cs|
    ensures forall k | 0 <= k < |cs| :: r[k] == TranslateConstraint(cs[k], list)
  {
    seq(|cs|, k requires 0 <= k < |cs| => TranslateConstraint(cs[k], list))
  }

  /** A list holding every variable of a linear combination covers it. */
  lemma LinCovered(l: LinComb, list: seq<Variable>)
    requires forall v | v in LinVars(l) :: v in list
    ensures Covers(list, l)
  {
    forall j | 0 <= j < |l.terms| ensures l.terms[j].0 in list {
      assert LinVars(l)[j] == l.terms[j].0;
    }
  }

  /** A list holding every variable of a constraint statement covers its constraint. */
  lemma StatementCovered(s: Statement, list: seq<Variable>)
    requires s.Constraint?
    requires forall v | v in StatementVars(s) :: v in list
    ensures CoversConstraint(list, (s.quad, s.lin))
  {
    LinCovered(s.quad.left, list);
    LinCovered(s.quad.right, list);
    LinCovered(s.lin, list);
  }

  /** A list holding every variable of the first pass covers every constraint. */
  lemma {:induction false} ConstraintsCovered(ss: seq<Statement>, list: seq<Variable>)
    requires forall v | v in UsedVars(ss) :: v in list
    ensures forall k | 0 <= k < |ConstraintsOf(ss)| :: CoversConstraint(list, ConstraintsOf(ss)[k])
    decreases |ss|
  {
    if ss != [] {
      var n := |ss| - 1;
      var s := ss[n];
      assert UsedVars(ss) == UsedVars(ss[..n]) + StatementVars(s);
      ConstraintsCovered(ss[..n], list);
      if s.Constraint? {
        StatementCovered(s, list);
      }
    }
  }

  /** The rows `r1cs_program` produces for a program. */
  function ProgramConstraints(prog: Prog): seq<R1csConstraint> {
    VariableOrderFacts(prog);
    ConstraintsCovered(prog.statements, VariableOrder(prog));
    TranslateConstraints(ConstraintsOf(prog.statements), VariableOrder(prog))
  }

  /** `variables.get(&k).unwrap()` on each term. */
  function LookupLin(l: LinComb, m: map<Variable, nat>): (r: Row)
    requires forall j | 0 <= j < |l.terms| :: l.terms[j].0 in m
    ensures |r| == |l.terms|
  {
    seq(|l.terms|, j requires 0 <= j < |l.terms| => (m[l.terms[j].0], l.terms[j].1))
  }

  /** Looking up in the map is looking up the position in the order it indexes. */
  lemma LookupIsIndexOf(l: LinComb, m: map<Variable, nat>, order: seq<Variable>)
    requires IndexedBy(m, order) && Covers(order, l)
    ensures forall j | 0 <= j < |l.terms| :: l.terms[j].0 in m
    ensures LookupLin(l, m) == TranslateLin(l, order)
  {
    forall j | 0 <= j < |l.terms| ensures l.terms[j].0 in m && m[l.terms[j].0] == IndexOf(order, l.terms[j].0) {
      var i := IndexOf(order, l.terms[j].0);
      IndexOfDistinct(order, i);
    }
  }

  /** The second pass: one row triple per constraint, in program order. */
  method SecondPass(ss: seq<Statement>, m: map<Variable, nat>, ghost order: seq<Variable>)
    returns (constraints: seq<R1csConstraint>)
    requires IndexedBy(m, order)
    requires forall v | v in UsedVars(ss) :: v in order
    ensures (ConstraintsCovered(ss, order);
             constraints == TranslateConstraints(ConstraintsOf(ss), order))
  {
    ConstraintsCovered(ss, order);
    constraints := [];
    var i := 0;
    while i < |ss|
      invariant 0 <= i <= |ss|
      invariant |ConstraintsOf(ss[..i])| <= |ConstraintsOf(ss)|
      invariant ConstraintsOf(ss[..i]) == ConstraintsOf(ss)[..|ConstraintsOf(ss[..i])|]
      invariant constraints == TranslateConstraints(ConstraintsOf(ss[..i]), order)
    {
      PrefixConstraints(ss, i + 1);
      assert ss[..i + 1][..i] == ss[..i];
      match ss[i] {
        case Constraint(quad, lin, _) =>
          var k := |ConstraintsOf(ss[..i])|;
          assert ConstraintsOf(ss)[k] == (quad, lin);
          LookupIsIndexOf(quad.left, m, order);
          LookupIsIndexOf(quad.right, m, order);
          LookupIsIndexOf(lin, m, order);
          constraints := constraints + [R1csConstraint(LookupLin(quad.left, m), LookupLin(quad.right, m), LookupLin(lin, m))];
        case DirectiveStatement(_) =>
      }
      i := i + 1;
    }
    assert ss[..i] == ss;
  }

  lemma {:induction false} PrefixConstraints(ss: seq<Statement>, i: nat)
    requires i <= |ss|
    ensures |ConstraintsOf(ss[..i])| <= |ConstraintsOf(ss)|
    ensures ConstraintsOf(ss[..i]) == ConstraintsOf(ss)[..|ConstraintsOf(ss[..i])|]
    decreases |ss|
  {
    if i < |ss| {
      var n := |ss| - 1;
      assert ss[..n][..i] == ss[..i];
      PrefixConstraints(ss[..n], i);
    } else {
      assert ss[..i] == ss;
    }
  }

  /** The slots of `s` whose variable in `order` is in `done` hold that variable; the others still hold their initial `Variable::new(0)`. */
  ghost predicate Filled(s: seq<Variable>, order: seq<Variable>, done: set<Variable>) {
    |s| == |order| && forall j | 0 <= j < |s| :: s[j] == if order[j] in done then order[j] else New(0)
  }

  /** Writing `k` into its own slot extends the filled part by `k`. */
  lemma FillStep(m: map<Variable, nat>, order: seq<Variable>, s: seq<Variable>, done: set<Variable>, k: Variable)
    requires IndexedBy(m, order) && k in m && Filled(s, order, done)
    ensures m[k] < |s| && Filled(s[m[k] := k], order, done + {k})
  {
    var t := s[m[k] := k];
    forall j | 0 <= j < |t| ensures t[j] == if order[j] in done + {k} then order[j] else New(0) {
      if j != m[k] {
        assert m[order[j]] == j;
      }
    }
  }

  /**
   * The map turned back into a list ordered by index. Each slot is written
   * once: the source's check that a slot still holds its initial
   * `Variable::new(0)` before it is written always passes.
   */
  method InverseList(m: map<Variable, nat>, ghost order: seq<Variable>) returns (list: seq<Variable>)
    requires IndexedBy(m, order)
    ensures list == order
  {
    var a := new Variable[|m|](_ => New(0));
    var remaining := m.Keys;
    ghost var done: set<Variable> := {};
    while remaining != {}
      invariant remaining <= m.Keys && done == m.Keys - remaining
      invariant Filled(a[..], order, done)
      decreases |remaining|
    {
      var k :| k in remaining;
      FillStep(m, order, a[..], done, k);
      a[m[k]] := k;
      remaining := remaining - {k};
      done := done + {k};
    }
    list := a[..];
  }

  /**
   * `r1cs_program`: the variables in index order, the private offset and
   * the constraint rows. The order is `~one`, the public arguments, the
   * public outputs and then the other variables by first use, without
   * repetition; the offset is the length of the public part; every row
   * term names its variable by its index in the list.
   */
  method R1csProgram(prog: Prog) returns (variables: seq<Variable>, offset: nat, constraints: seq<R1csConstraint>)
    ensures variables == VariableOrder(prog)
    ensures offset == |HeaderOrder(prog)|
    ensures constraints == ProgramConstraints(prog)
  {
    var index := new VariableIndex();
    var _ := index.Provide(One);
    assert index.order == DedupInto([], [One]) by {
      assert [One][..0] == [];
    }
    index.ProvideAll(PublicArguments(prog.arguments));
    DedupConcat([], [One], PublicArguments(prog.arguments));
    index.ProvideAll(Returns(prog));
    DedupConcat([], [One] + PublicArguments(prog.arguments), Returns(prog));
    offset := |index.variables|;
    index.ProvideStatements(prog.statements);
    VariableOrderFacts(prog);
    constraints := SecondPass(prog.statements, index.variables, index.order);
    variables := InverseList(index.variables, index.order);
  }

  // ---------------------------------------------------------------------
  // Meaning of the rows
  // ---------------------------------------------------------------------

  /** The value of a linear combination when each variable takes the value `a` gives it. */
  function LinValue(l: LinComb, a: Variable -> nat): (r: nat)
    ensures Field.IsElement(r)
    decreases |l.terms|
  {
    if l.terms == [] then 0
    else
      var n := |l.terms| - 1;
      Field.Add(LinValue(LinComb(l.terms[..n]), a), Field.Mul(l.terms[n].1, a(l.terms[n].0)))
  }

  /** The value of a sparse row against a witness vector `x`; an index outside `x` contributes nothing. */
  function RowValue(row: Row, x: seq<nat>): (r: nat)
    ensures Field.IsElement(r)
    decreases |row|
  {
    if row == [] then 0
    else
      var n := |row| - 1;
      var xi := if row[n].0 < |x| then x[row[n].0] else 0;
      Field.Add(RowValue(row[..n], x), Field.Mul(row[n].1, xi))
  }

  /** `x` holds, at each index, the value of the variable `list` puts there. */
  ghost predicate WitnessOf(x: seq<nat>, list: seq<Variable>, a: Variable -> nat) {
    |x| == |list| && forall i | 0 <= i < |list| :: x[i] == a(list[i])
  }

  /** A translated row has the value of the combination it came from. */
  lemma {:induction false} TranslateLinValue(l: LinComb, list: seq<Variable>, x: seq<nat>, a: Variable -> nat)
    requires Covers(list, l) && WitnessOf(x, list, a)
    ensures RowValue(TranslateLin(l, list), x) == LinValue(l, a)
    decreases |l.terms|
  {
    if l.terms != [] {
      var n := |l.terms| - 1;
      var init := LinComb(l.terms[..n]);
      var row := TranslateLin(l, list);
      assert TranslateLin(init, list) == row[..n];
      TranslateLinValue(init, list, x, a);
      assert x[row[n].0] == a(l.terms[n].0);
    }
  }

  /** `left * right == lin` holds in the field. */
  ghost predicate ConstraintHolds(c: (QuadComb, LinComb), a: Variable -> nat) {
    Field.Mul(LinValue(c.0.left, a), LinValue(c.0.right, a)) == LinValue(c.1, a)
  }

  /** `<A,x>*<B,x> = <C,x>` */
  predicate RowsHold(c: R1csConstraint, x: seq<nat>) {
    Field.Mul(RowValue(c.a, x), RowValue(c.b, x)) == RowValue(c.c, x)
  }

  /**
   * The rows mean what the program's constraints mean: with the witness
   * laid out in variable order, each row triple holds exactly when the
   * constraint it was made from holds.
   */
  lemma ProgramConstraintsSound(prog: Prog, x: seq<nat>, a: Variable -> nat)
    requires WitnessOf(x, VariableOrder(prog), a)
    ensures |ProgramConstraints(prog)| == |ConstraintsOf(prog.statements)|
    ensures forall k | 0 <= k < |ProgramConstraints(prog)| ::
      RowsHold(ProgramConstraints(prog)[k], x) <==> ConstraintHolds(ConstraintsOf(prog.statements)[k], a)
  {
    var list := VariableOrder(prog);
    var cs := ConstraintsOf(prog.statements);
    VariableOrderFacts(prog);
    ConstraintsCovered(prog.statements, list);
    forall k | 0 <= k < |cs|
      ensures RowsHold(ProgramConstraints(prog)[k], x) <==> ConstraintHolds(cs[k], a)
    {
      TranslateLinValue(cs[k].0.left, list, x, a);
      TranslateLinValue(cs[k].0.right, list, x, a);
      TranslateLinValue(cs[k].1, list, x, a);
    }
  }
}
