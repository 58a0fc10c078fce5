/**
 * The proof-system-independent preparation of a program for libsnark:
 * field elements as 32-byte big-endian arrays, the constraint rows as
 * records `{ i32 row, i32 index, u8 value[32] }` packed into byte buffers,
 * and the witness reordered by variable index and split into its public
 * and private parts.
 */
module Libsnark {
  import opened Bytes
  import opened Common
  import opened Ir
  import opened R1cs

  /** `Field::to_byte_vector`: some byte encoding of a field element, least significant byte first. */
  type Encoding = nat -> seq<Byte>

  /** Every element encodes to at most 32 bytes. */
  ghost predicate FitsIn32(encode: Encoding) {
    forall x :: |encode(x)| <= 32
  }

  /** The bytes in reverse order behind zero padding to 32 bytes. */
  function Pad32(vec: seq<Byte>): (r: seq<Byte>)
    requires |vec| <= 32
    ensures |r| == 32
  {
    Zeros(32 - |vec|) + Reverse(vec)
  }

  lemma ReversePad(vec: seq<Byte>)
    requires |vec| <= 32
    ensures Reverse(Pad32(vec)) == vec + Zeros(32 - |vec|)
  {
    var z := 32 - |vec|;
    ReverseAppend(Zeros(z), Reverse(vec));
    ReverseReverse(vec);
    ReverseZeros(z);
  }

  /** Read from the back, the 32-byte array holds the same number as the little-endian input. */
  lemma Pad32Value(vec: seq<Byte>)
    requires |vec| <= 32
    ensures FromLe(Reverse(Pad32(vec))) == FromLe(vec)
  {
    var q := vec + Zeros(32 - |vec|);
    assert FromLe(Reverse(Pad32(vec))) == FromLe(q) by {
      ReversePad(vec);
    }
    FromLeZeros(vec, 32 - |vec|);
  }

  /** Byte `i` of the input is at position `31 - i`; the positions in front of it are zero. */
  lemma Pad32Positions(vec: seq<Byte>)
    requires |vec| <= 32
    ensures forall i | 0 <= i < |vec| :: Pad32(vec)[31 - i] == vec[i]
    ensures forall j | 0 <= j < 32 - |vec| :: Pad32(vec)[j] == 0
  {
  }

  /**
   * `vec_as_u8_32_array`: byte `i` of the input goes to position `31 - i`,
   * the positions before the input's length from the back stay zero.
   */
  method VecAsU8Array32(vec: seq<Byte>) returns (out: seq<Byte>)
    requires |vec| <= 32
    ensures out == Pad32(vec)
  {
    var a := new Byte[32](_ => 0);
    var i := 0;
    while i < |vec|
      invariant 0 <= i <= |vec|
      invariant forall k | 0 <= k < i :: a[31 - k] == vec[k]
      invariant forall j | 0 <= j < 32 - i :: a[j] == 0
    {
      a[31 - i] := vec[i];
      i := i + 1;
    }
    out := a[..];
    Pad32Positions(vec);
  }

  /** `size` 32-byte slots, the first ones holding the values in order, the rest zero. */
  method FillSlots(values: seq<nat>, size: nat, encode: Encoding) returns (slots: seq<seq<Byte>>)
    requires |values| <= size
    requires forall i | 0 <= i < |values| :: |encode(values[i])| <= 32
    ensures |slots| == size
    ensures forall i | 0 <= i < |values| :: slots[i] == Pad32(encode(values[i]))
    ensures forall i | |values| <= i < size :: slots[i] == Zeros(32)
  {
    var a := new seq<Byte>[size](_ => Zeros(32));
    var i := 0;
    while i < |values|
      invariant 0 <= i <= |values|
      invariant forall k | 0 <= k < i :: a[k] == Pad32(encode(values[k]))
      invariant forall k | i <= k < size :: a[k] == Zeros(32)
    {
      var bytes := VecAsU8Array32(encode(values[i]));
      a[i] := bytes;
      i := i + 1;
    }
    slots := a[..];
  }

  /** `prepare_public_inputs`: each input as a 32-byte array, and their number. */
  method PreparePublicInputs(inputs: seq<nat>, encode: Encoding) returns (arr: seq<seq<Byte>>, len: nat)
    requires forall i | 0 <= i < |inputs| :: |encode(inputs[i])| <= 32
    ensures len == |inputs| && |arr| == len
    ensures forall i | 0 <= i < len :: arr[i] == Pad32(encode(inputs[i]))
  {
    len := |inputs|;
    arr := FillSlots(inputs, len, encode);
  }

  // ---------------------------------------------------------------------
  // Setup
  // ---------------------------------------------------------------------

  /** One entry of a constraint matrix: its row, its variable index and its value. */
  datatype Record = Record(row: int, idx: int, value: seq<Byte>)

  datatype Side = A | B | C

  function Pick(c: R1csConstraint, side: Side): Row {
    match side
    case A => c.a
    case B => c.b
    case C => c.c
  }

  /** The records of one row, in term order; indices are cast to `i32`. */
  function RowRecords(row: nat, terms: Row, encode: Encoding): (r: seq<Record>)
    requires FitsIn32(encode)
    ensures |r| == |terms|
    ensures forall j | 0 <= j < |terms| ::
      r[j] == Record(AsI32(row), AsI32(terms[j].0), Pad32(encode(terms[j].1)))
  {
    seq(|terms|, j requires 0 <= j < |terms| => Record(AsI32(row), AsI32(terms[j].0), Pad32(encode(terms[j].1))))
  }

  /** The records of one matrix: every row's records, row after row. */
  function Records(cs: seq<R1csConstraint>, side: Side, encode: Encoding): seq<Record>
    requires FitsIn32(encode)
    decreases |cs|
  {
    if cs == [] then []
    else
      var n := |cs| - 1;
      Records(cs[..n], side, encode) + RowRecords(n, Pick(cs[n], side), encode)
  }

  /** A record as the 40 bytes of `{ i32 row, i32 idx, u8 value[32] }`. */
  function RecordBytes(r: Record): (bs: seq<Byte>)
    requires IsI32(r.row) && IsI32(r.idx) && |r.value| == 32
    ensures |bs| == 40
  {
    I32ToLeBytes(r.row) + I32ToLeBytes(r.idx) + r.value
  }

  predicate WellFormedRecords(recs: seq<Record>) {
    forall k | 0 <= k < |recs| :: IsI32(recs[k].row) && IsI32(recs[k].idx) && |recs[k].value| == 32
  }

  /** The records one after the other. */
  function Layout(recs: seq<Record>): (bs: seq<Byte>)
    requires WellFormedRecords(recs)
    decreases |recs|
  {
    if recs == [] then []
    else Layout(recs[..|recs| - 1]) + RecordBytes(recs[|recs| - 1])
  }

  /** Byte `x` of record `k` is at `40 * k + x`. */
  lemma {:induction false} LayoutAt(recs: seq<Record>)
    requires WellFormedRecords(recs)
    ensures |Layout(recs)| == 40 * |recs|
    ensures forall k, x | 0 <= k < |recs| && 0 <= x < 40 :: Layout(recs)[40 * k + x] == RecordBytes(recs[k])[x]
    decreases |recs|
  {
    if recs != [] {
      var n := |recs| - 1;
      var init, last := Layout(recs[..n]), RecordBytes(recs[n]);
      LayoutAt(recs[..n]);
      assert Layout(recs) == init + last;
      forall k, x | 0 <= k < |recs| && 0 <= x < 40 ensures Layout(recs)[40 * k + x] == RecordBytes(recs[k])[x] {
        if k < n {
          assert recs[..n][k] == recs[k];
          assert (init + last)[40 * k + x] == init[40 * k + x];
        } else {
          assert (init + last)[40 * k + x] == last[x];
        }
      }
    }
  }

  /** Record `k` is read back from bytes `[40k, 40k + 40)`: row, index and value. */
  lemma LayoutRoundTrip(recs: seq<Record>, k: nat)
    requires WellFormedRecords(recs) && k < |recs|
    ensures |Layout(recs)| == 40 * |recs|
    ensures var bs := Layout(recs)[40 * k .. 40 * k + 40];
      I32FromLeBytes(bs[0..4]) == recs[k].row && I32FromLeBytes(bs[4..8]) == recs[k].idx && bs[8..40] == recs[k].value
  {
    LayoutAt(recs);
    var bs := Layout(recs)[40 * k .. 40 * k + 40];
    assert bs == RecordBytes(recs[k]);
    assert bs[0..4] == I32ToLeBytes(recs[k].row);
    assert bs[4..8] == I32ToLeBytes(recs[k].idx);
    I32RoundTrip(recs[k].row);
    I32RoundTrip(recs[k].idx);
  }

  /** The records of a matrix are well formed. */
  lemma {:induction false} RecordsWellFormed(cs: seq<R1csConstraint>, side: Side, encode: Encoding)
    requires FitsIn32(encode)
    ensures WellFormedRecords(Records(cs, side, encode))
    decreases |cs|
  {
    if cs != [] {
      RecordsWellFormed(cs[..|cs| - 1], side, encode);
    }
  }

  /** The three pushes of one row into `vec`: one record per term. */
  method PushRow(vec: seq<Record>, row: nat, terms: Row, encode: Encoding) returns (out: seq<Record>)
    requires FitsIn32(encode)
    ensures out == vec + RowRecords(row, terms, encode)
  {
    out := vec;
    var j := 0;
    while j < |terms|
      invariant 0 <= j <= |terms|
      invariant out == vec + RowRecords(row, terms[..j], encode)
    {
      var value := VecAsU8Array32(encode(terms[j].1));
      out := out + [Record(AsI32(row), AsI32(terms[j].0), value)];
      assert RowRecords(row, terms[..j + 1], encode) == RowRecords(row, terms[..j], encode) + [out[|out| - 1]];
      j := j + 1;
    }
    assert terms[..j] == terms;
  }

  /** The `a_vec`, `b_vec` and `c_vec` loop over the rows. */
  method BuildRecords(cs: seq<R1csConstraint>, encode: Encoding) returns (aVec: seq<Record>, bVec: seq<Record>, cVec: seq<Record>)
    requires FitsIn32(encode)
    ensures aVec == Records(cs, A, encode) && bVec == Records(cs, B, encode) && cVec == Records(cs, C, encode)
  {
    aVec, bVec, cVec := [], [], [];
    var row := 0;
    while row < |cs|
      invariant 0 <= row <= |cs|
      invariant aVec == Records(cs[..row], A, encode)
      invariant bVec == Records(cs[..row], B, encode)
      invariant cVec == Records(cs[..row], C, encode)
    {
      assert cs[..row + 1][..row] == cs[..row];
      aVec := PushRow(aVec, row, cs[row].a, encode);
      bVec := PushRow(bVec, row, cs[row].b, encode);
      cVec := PushRow(cVec, row, cs[row].c, encode);
      row := row + 1;
    }
    assert cs[..row] == cs;
  }

  /** Writes record `id` into bytes `[40 id, 40 id + 40)` of `arr` and nothing else. */
  method WriteRecord(arr: array<Byte>, id: nat, r: Record)
    requires IsI32(r.row) && IsI32(r.idx) && |r.value| == 32
    requires 40 * id + 40 <= arr.Length
    modifies arr
    ensures forall x | 0 <= x < 40 :: arr[40 * id + x] == RecordBytes(r)[x]
    ensures forall j | 0 <= j < arr.Length && !(40 * id <= j < 40 * id + 40) :: arr[j] == old(arr[j])
  {
    var rowBytes := I32ToLeBytes(r.row);
    var idxBytes := I32ToLeBytes(r.idx);
    var base := 40 * id;
    for x := 0 to 4
      invariant forall y | 0 <= y < x :: arr[base + y] == rowBytes[y]
      invariant forall j | 0 <= j < arr.Length && !(base <= j < base + x) :: arr[j] == old(arr[j])
    {
      arr[base + x] := rowBytes[x];
    }
    for x := 0 to 4
      invariant forall y | 0 <= y < 4 :: arr[base + y] == rowBytes[y]
      invariant forall y | 0 <= y < x :: arr[base + 4 + y] == idxBytes[y]
      invariant forall j | 0 <= j < arr.Length && !(base <= j < base + 4 + x) :: arr[j] == old(arr[j])
    {
      arr[base + x + 4] := idxBytes[x];
    }
    for x := 0 to 32
      invariant forall y | 0 <= y < 4 :: arr[base + y] == rowBytes[y]
      invariant forall y | 0 <= y < 4 :: arr[base + 4 + y] == idxBytes[y]
      invariant forall y | 0 <= y < x :: arr[base + 8 + y] == r.value[y]
      invariant forall j | 0 <= j < arr.Length && !(base <= j < base + 8 + x) :: arr[j] == old(arr[j])
    {
      arr[base + x + 8] := r.value[x];
    }
  }

  /** After a chunk is written at `base` over the first `base` bytes left alone, the prefix up to its end is the old prefix and the chunk. */
  lemma WrittenPrefix(before: seq<Byte>, after: seq<Byte>, base: nat, chunk: seq<Byte>)
    requires |before| == |after| && base + |chunk| <= |after|
    requires forall x | 0 <= x < |chunk| :: after[base + x] == chunk[x]
    requires forall j | 0 <= j < base :: after[j] == before[j]
    ensures after[..base + |chunk|] == before[..base] + chunk
  {
    var p, q := after[..base + |chunk|], before[..base] + chunk;
    forall j | 0 <= j < |p| ensures p[j] == q[j] {
      if j >= base {
        assert after[base + (j - base)] == chunk[j - base];
      }
    }
  }

  /** One more record adds its 40 bytes to the layout. */
  lemma LayoutStep(recs: seq<Record>, id: nat)
    requires WellFormedRecords(recs) && id < |recs|
    ensures Layout(recs[..id + 1]) == Layout(recs[..id]) + RecordBytes(recs[id])
  {
    assert recs[..id + 1][..id] == recs[..id];
  }

  /** The byte buffer of a matrix: `40 * |recs|` bytes holding the records in order. */
  method RecordsToBytes(recs: seq<Record>) returns (bytes: seq<Byte>)
    requires WellFormedRecords(recs)
    ensures bytes == Layout(recs)
  {
    var arr := new Byte[40 * |recs|](_ => 0);
    var id := 0;
    while id < |recs|
      invariant 0 <= id <= |recs|
      invariant arr[..40 * id] == Layout(recs[..id])
    {
      ghost var before := arr[..];
      WriteRecord(arr, id, recs[id]);
      WrittenPrefix(before, arr[..], 40 * id, RecordBytes(recs[id]));
      LayoutStep(recs, id);
      id := id + 1;
    }
    assert recs[..id] == recs;
    bytes := arr[..];
  }

  /**
   * `prepare_setup`: the three matrices as record lists and as byte
   * buffers, the number of constraints, of variables and of public inputs
   * (the private offset less the constant `~one`).
   */
  method PrepareSetup(prog: Prog, encode: Encoding)
    returns (aArr: seq<Byte>, bArr: seq<Byte>, cArr: seq<Byte>,
             aVec: seq<Record>, bVec: seq<Record>, cVec: seq<Record>,
             numConstraints: nat, numVariables: nat, numInputs: nat)
    requires FitsIn32(encode)
    ensures numInputs == |HeaderOrder(prog)| - 1
    ensures numConstraints == |ConstraintsOf(prog.statements)|
    ensures numVariables == |VariableOrder(prog)|
    ensures aVec == Records(ProgramConstraints(prog), A, encode)
    ensures bVec == Records(ProgramConstraints(prog), B, encode)
    ensures cVec == Records(ProgramConstraints(prog), C, encode)
    ensures WellFormedRecords(aVec) && WellFormedRecords(bVec) && WellFormedRecords(cVec)
    ensures aArr == Layout(aVec) && bArr == Layout(bVec) && cArr == Layout(cVec)
  {
    var variables, publicCount, constraints := R1csProgram(prog);
    VariableOrderFacts(prog);
    numInputs := publicCount - 1;
    numConstraints := |constraints|;
    numVariables := |variables|;
    aVec, bVec, cVec := BuildRecords(constraints, encode);
    RecordsWellFormed(constraints, A, encode);
    RecordsWellFormed(constraints, B, encode);
    RecordsWellFormed(constraints, C, encode);
    aArr := RecordsToBytes(aVec);
    bArr := RecordsToBytes(bVec);
    cArr := RecordsToBytes(cVec);
  }

  // ---------------------------------------------------------------------
  // Proof generation
  // ---------------------------------------------------------------------

  /** The assigned value of each variable, in order: `assignment.get(v).unwrap()` for each `v`. */
  function Lookup(variables: seq<Variable>, assignment: map<Variable, nat>): (r: seq<nat>)
    requires forall v | v in variables :: v in assignment
    ensures |r| == |variables| && forall i | 0 <= i < |variables| :: r[i] == assignment[variables[i]]
  {
    if variables == [] then []
    else Lookup(variables[..|variables| - 1], assignment) + [assignment[variables[|variables| - 1]]]
  }

  function Max(a: nat, b: nat): nat {
    if a < b then b else a
  }

  /**
   * `prepare_generate_proof`: the witness values in variable order, split
   * at the private offset. The private array has at least one slot even
   * when there are no private values, while its reported length is the
   * number of private values.
   */
  method PrepareGenerateProof(prog: Prog, assignment: map<Variable, nat>, encode: Encoding)
    returns (publicArr: seq<seq<Byte>>, publicLen: nat, privateArr: seq<seq<Byte>>, privateLen: nat)
    requires FitsIn32(encode)
    requires forall v | v in VariableOrder(prog) :: v in assignment
    ensures publicLen == |HeaderOrder(prog)| && publicLen + privateLen == |VariableOrder(prog)|
    ensures |publicArr| == publicLen && |privateArr| == Max(privateLen, 1)
    ensures forall i | 0 <= i < publicLen :: publicArr[i] == Pad32(encode(assignment[VariableOrder(prog)[i]]))
    ensures forall i | 0 <= i < privateLen ::
      privateArr[i] == Pad32(encode(assignment[VariableOrder(prog)[publicLen + i]]))
    ensures privateLen == 0 ==> privateArr == [Zeros(32)]
  {
    var variables, publicCount, _ := R1csProgram(prog);
    DedupPrefix(HeaderOrder(prog), UsedVars(prog.statements));
    publicArr, publicLen, privateArr, privateLen := SplitWitness(variables, publicCount, assignment, encode);
  }

  /**
   * The witness half of `prepare_generate_proof`: the values of `variables`
   * in order, the first `offset` of them public and the rest private.
   */
  method SplitWitness(variables: seq<Variable>, offset: nat, assignment: map<Variable, nat>, encode: Encoding)
    returns (publicArr: seq<seq<Byte>>, publicLen: nat, privateArr: seq<seq<Byte>>, privateLen: nat)
    requires FitsIn32(encode)
    requires offset <= |variables|
    requires forall v | v in variables :: v in assignment
    ensures publicLen == offset && publicLen + privateLen == |variables|
    ensures |publicArr| == publicLen && |privateArr| == Max(privateLen, 1)
    ensures forall i | 0 <= i < publicLen :: publicArr[i] == Pad32(encode(assignment[variables[i]]))
    ensures forall i | 0 <= i < privateLen ::
      privateArr[i] == Pad32(encode(assignment[variables[publicLen + i]]))
    ensures privateLen == 0 ==> privateArr == [Zeros(32)]
  {
    var values := Lookup(variables, assignment);
    var publicInputs, privateInputs := values[..offset], values[offset..];
    publicLen := |publicInputs|;
    privateLen := |privateInputs|;
    publicArr := FillSlots(publicInputs, publicLen, encode);
    privateArr := FillSlots(privateInputs, Max(privateLen, 1), encode);
  }
}
