/** When serialization succeeds, and how many bytes it gives, told from the transaction itself. */
module TransactionSize {
  import opened Common
  import opened Molecule
  import opened Address
  import opened Transaction

  // ---------- numbers the encodings have room for ----------

  predicate OutPointFits(o: OutPoint) { o.index <= U32_MAX }

  predicate ScriptFits(s: Script) { HashTypeToByte(s.hashType).Ok? }

  predicate CellDepFits(d: CellDep) { OutPointFits(d.outPoint) }

  predicate CellInputFits(i: CellInput) { OutPointFits(i.previousOutput) && i.since <= U64_MAX }

  predicate CellOutputFits(o: CellOutput) {
    o.capacity <= U64_MAX && ScriptFits(o.lock) && (o.typeScript.Some? ==> ScriptFits(o.typeScript.value))
  }

  predicate RawFits(tx: RawTransaction) {
    && tx.version <= U32_MAX && All(CellDepFits, tx.cellDeps) && All(CellInputFits, tx.inputs)
    && All(CellOutputFits, tx.outputs)
  }

  // ---------- sizes ----------

  function ScriptSize(s: Script): nat { 21 + |s.codeHash| + |s.args| }

  function OutputSize(o: CellOutput): nat {
    24 + ScriptSize(o.lock) + if o.typeScript.Some? then ScriptSize(o.typeScript.value) else 0
  }

  function BytesSize(b: seq<Byte>): nat { 4 + |b| }

  function Total<A>(size: A -> nat, xs: seq<A>): nat {
    if xs == [] then 0 else size(xs[0]) + Total(size, xs[1..])
  }

  /** A dynamic vector of items of these sizes. */
  function VecSize<A>(size: A -> nat, xs: seq<A>): nat { 4 + 4 * |xs| + Total(size, xs) }

  function RawSize(tx: RawTransaction): nat {
    44 + 37 * |tx.cellDeps| + 32 * |tx.headerDeps| + 44 * |tx.inputs| +
    VecSize(OutputSize, tx.outputs) + VecSize(BytesSize, tx.outputsData)
  }

  // ---------- one item ----------

  /** The encoder succeeds when the numbers fit and the size does, and then gives that size. */
  ghost predicate Measured<A(!new)>(fits: A -> bool, enc: A -> Result<seq<Byte>>, size: A -> nat) {
    && (forall a :: enc(a).Ok? <==> fits(a) && size(a) <= U32_MAX)
    && (forall a :: enc(a).Ok? ==> |enc(a).value| == size(a))
  }

  lemma BytesMeasured(b: seq<Byte>)
    ensures SerializeBytes(b).Ok? <==> |b| <= U32_MAX
    ensures SerializeBytes(b).Ok? ==> |SerializeBytes(b).value| == BytesSize(b)
  {
    FlatSingletons(b);
  }

  lemma FlatThree(a: seq<Byte>, b: seq<Byte>, c: seq<Byte>)
    ensures DynSize([a, b, c]) == 16 + |a| + |b| + |c|
  {
    assert [a, b, c][1..] == [b, c] && [b, c][1..] == [c] && [c][1..] == [];
    assert Flat([c]) == c;
    assert Flat([b, c]) == b + c;
  }

  lemma ScriptMeasured(s: Script)
    ensures SerializeScript(s).Ok? <==> ScriptFits(s) && ScriptSize(s) <= U32_MAX
    ensures SerializeScript(s).Ok? ==> |SerializeScript(s).value| == ScriptSize(s)
  {
    BytesMeasured(s.args);
    if ScriptFields(s).Ok? {
      var t := ScriptFields(s).value;
      FlatThree(t[0], t[1], t[2]);
      DynVecSize(t);
    }
  }

  lemma OutputMeasured(o: CellOutput)
    ensures SerializeCellOutput(o).Ok? <==> CellOutputFits(o) && OutputSize(o) <= U32_MAX
    ensures SerializeCellOutput(o).Ok? ==> |SerializeCellOutput(o).value| == OutputSize(o)
  {
    ScriptMeasured(o.lock);
    if o.typeScript.Some? { ScriptMeasured(o.typeScript.value); }
    if OutputFields(o).Ok? {
      var t := OutputFields(o).value;
      FlatThree(t[0], t[1], t[2]);
      DynVecSize(t);
    }
  }

  // ---------- vectors ----------

  lemma {:induction false} TotalOfFlat<A>(enc: A -> Result<seq<Byte>>, size: A -> nat, xs: seq<A>, items: seq<seq<Byte>>)
    requires MapResult(enc, xs) == Ok(items) && forall i :: 0 <= i < |xs| ==> |items[i]| == size(xs[i])
    ensures |Flat(items)| == Total(size, xs)
  {
    if xs != [] {
      assert MapResult(enc, xs[1..]).value == items[1..];
      TotalOfFlat(enc, size, xs[1..], items[1..]);
    }
  }

  lemma {:induction false} PartOfTotal<A>(size: A -> nat, xs: seq<A>, i: nat)
    requires i < |xs|
    ensures size(xs[i]) <= Total(size, xs)
  {
    if i > 0 { PartOfTotal(size, xs[1..], i - 1); }
  }

  lemma DynVecMeasured<A(!new)>(fits: A -> bool, enc: A -> Result<seq<Byte>>, size: A -> nat, xs: seq<A>)
    requires Measured(fits, enc, size)
    ensures SerializeDynVecOf(enc, xs).Ok? <==> All(fits, xs) && VecSize(size, xs) <= U32_MAX
    ensures SerializeDynVecOf(enc, xs).Ok? ==> |SerializeDynVecOf(enc, xs).value| == VecSize(size, xs)
  {
    if MapResult(enc, xs).Ok? {
      var items := MapResult(enc, xs).value;
      TotalOfFlat(enc, size, xs, items);
      DynVecSize(items);
    } else if All(fits, xs) {
      var i :| 0 <= i < |xs| && enc(xs[i]).Err?;
      PartOfTotal(size, xs, i);
    }
  }

  lemma FixVecMeasured<A>(fits: A -> bool, enc: A -> Result<seq<Byte>>, size: nat, xs: seq<A>)
    requires forall i :: 0 <= i < |xs| ==> (enc(xs[i]).Ok? <==> fits(xs[i]))
    requires forall i :: 0 <= i < |xs| && enc(xs[i]).Ok? ==> |enc(xs[i]).value| == size
    ensures SerializeFixVecOf(enc, xs).Ok? <==> All(fits, xs) && |xs| <= U32_MAX
    ensures SerializeFixVecOf(enc, xs).Ok? ==> |SerializeFixVecOf(enc, xs).value| == 4 + |xs| * size
  {
    if MapResult(enc, xs).Ok? { FlatSize(MapResult(enc, xs).value, size); }
  }

  lemma OutputsMeasured(xs: seq<CellOutput>)
    ensures SerializeCellOutputVec(xs).Ok? <==> All(CellOutputFits, xs) && VecSize(OutputSize, xs) <= U32_MAX
    ensures SerializeCellOutputVec(xs).Ok? ==> |SerializeCellOutputVec(xs).value| == VecSize(OutputSize, xs)
  {
    forall o ensures SerializeCellOutput(o).Ok? <==> CellOutputFits(o) && OutputSize(o) <= U32_MAX
             ensures SerializeCellOutput(o).Ok? ==> |SerializeCellOutput(o).value| == OutputSize(o)
    {
      OutputMeasured(o);
    }
    DynVecMeasured(CellOutputFits, SerializeCellOutput, OutputSize, xs);
  }

  /** An item may be as long as its own count field allows; the vector around it must fit as a whole. */
  lemma BytesVecMeasured(xs: seq<seq<Byte>>)
    ensures SerializeBytesVec(xs).Ok? <==> VecSize(BytesSize, xs) <= U32_MAX
    ensures SerializeBytesVec(xs).Ok? ==> |SerializeBytesVec(xs).value| == VecSize(BytesSize, xs)
  {
    forall i | 0 <= i < |xs|
      ensures SerializeBytes(xs[i]).Ok? <==> |xs[i]| <= U32_MAX
      ensures SerializeBytes(xs[i]).Ok? ==> |SerializeBytes(xs[i]).value| == BytesSize(xs[i])
    {
      BytesMeasured(xs[i]);
    }
    if MapResult(SerializeBytes, xs).Ok? {
      var items := MapResult(SerializeBytes, xs).value;
      TotalOfFlat(SerializeBytes, BytesSize, xs, items);
      DynVecSize(items);
    } else {
      var i :| 0 <= i < |xs| && SerializeBytes(xs[i]).Err?;
      PartOfTotal(BytesSize, xs, i);
    }
  }

  lemma CellDepsMeasured(xs: seq<CellDep>)
    requires All(CellDepOk, xs)
    ensures SerializeCellDepVec(xs).Ok? <==> All(CellDepFits, xs) && |xs| <= U32_MAX
    ensures SerializeCellDepVec(xs).Ok? ==> |SerializeCellDepVec(xs).value| == 4 + 37 * |xs|
  {
    FixVecMeasured(CellDepFits, SerializeCellDep, 37, xs);
  }

  lemma HashesMeasured(xs: seq<seq<Byte>>)
    requires All(HashOk, xs)
    ensures SerializeByte32Vec(xs).Ok? <==> |xs| <= U32_MAX
    ensures SerializeByte32Vec(xs).Ok? ==> |SerializeByte32Vec(xs).value| == 4 + 32 * |xs|
  {
    FixVecMeasured(AnyBytes, SerializeHash, 32, xs);
  }

  lemma InputsMeasured(xs: seq<CellInput>)
    requires All(CellInputOk, xs)
    ensures SerializeCellInputVec(xs).Ok? <==> All(CellInputFits, xs) && |xs| <= U32_MAX
    ensures SerializeCellInputVec(xs).Ok? ==> |SerializeCellInputVec(xs).value| == 4 + 44 * |xs|
  {
    FixVecMeasured(CellInputFits, SerializeCellInput, 44, xs);
  }

  // ---------- the whole transaction ----------

  lemma FlatSix(t: seq<seq<Byte>>)
    requires |t| == 6
    ensures DynSize(t) == 28 + |t[0]| + |t[1]| + |t[2]| + |t[3]| + |t[4]| + |t[5]|
  {
    FlatConcat(t[..3], t[3..]);
    assert t == t[..3] + t[3..] && t[..3] == [t[0], t[1], t[2]] && t[3..] == [t[3], t[4], t[5]];
    FlatThree(t[0], t[1], t[2]);
    FlatThree(t[3], t[4], t[5]);
  }

  lemma FieldsMeasured(tx: RawTransaction)
    requires RawOk(tx)
    ensures RawFields(tx).Ok? ==> RawFits(tx) && DynSize(RawFields(tx).value) == RawSize(tx)
    ensures RawFits(tx) && RawSize(tx) <= U32_MAX ==> RawFields(tx).Ok?
  {
    CellDepsMeasured(tx.cellDeps);
    HashesMeasured(tx.headerDeps);
    InputsMeasured(tx.inputs);
    OutputsMeasured(tx.outputs);
    BytesVecMeasured(tx.outputsData);
    if RawFields(tx).Ok? { FlatSix(RawFields(tx).value); }
  }

  /** A well-formed transaction is serialized exactly when its numbers and its size fit, in that many bytes. */
  lemma RawMeasured(tx: RawTransaction)
    requires RawOk(tx)
    ensures SerializeRawTransaction(tx).Ok? <==> RawFits(tx) && RawSize(tx) <= U32_MAX
    ensures SerializeRawTransaction(tx).Ok? ==> |SerializeRawTransaction(tx).value| == RawSize(tx)
  {
    FieldsMeasured(tx);
    if RawFields(tx).Ok? { DynVecSize(RawFields(tx).value); }
  }
}
