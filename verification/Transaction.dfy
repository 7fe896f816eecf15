/** Raw transactions as Molecule bytes: the serializers of the wallet and a strict decoder for the same schema. */
module Transaction {
  import opened Common
  import opened Molecule
  import opened Address

  datatype OutPoint = OutPoint(txHash: seq<Byte>, index: nat)

  datatype DepType = Code | DepGroup

  datatype CellDep = CellDep(outPoint: OutPoint, depType: DepType)

  datatype CellInput = CellInput(previousOutput: OutPoint, since: nat)

  datatype CellOutput = CellOutput(capacity: nat, lock: Script, typeScript: Option<Script>)

  datatype RawTransaction = RawTransaction(
    version: nat,
    cellDeps: seq<CellDep>,
    headerDeps: seq<seq<Byte>>,
    inputs: seq<CellInput>,
    outputs: seq<CellOutput>,
    outputsData: seq<seq<Byte>>)

  // ---------- hashes have 32 bytes ----------

  predicate OutPointOk(o: OutPoint) { |o.txHash| == 32 }

  predicate ScriptOk(s: Script) { |s.codeHash| == 32 }

  predicate ScriptOptOk(s: Option<Script>) { s.Some? ==> ScriptOk(s.value) }

  predicate CellDepOk(d: CellDep) { OutPointOk(d.outPoint) }

  predicate CellInputOk(i: CellInput) { OutPointOk(i.previousOutput) }

  predicate CellOutputOk(o: CellOutput) { ScriptOk(o.lock) && ScriptOptOk(o.typeScript) }

  predicate HashOk(h: seq<Byte>) { |h| == 32 }

  predicate AnyBytes(b: seq<Byte>) { true }

  predicate All<A>(ok: A -> bool, xs: seq<A>) {
    forall i :: 0 <= i < |xs| ==> ok(xs[i])
  }

  predicate RawOk(tx: RawTransaction) {
    && All(CellDepOk, tx.cellDeps) && All(HashOk, tx.headerDeps) && All(CellInputOk, tx.inputs)
    && All(CellOutputOk, tx.outputs)
  }

  // ---------- what it means that a decoder inverts a serializer ----------

  ghost predicate Exact<A(!new)>(ok: A -> bool, enc: A -> Result<seq<Byte>>, dec: seq<Byte> -> Result<A>) {
    forall a, bs :: dec(bs) == Ok(a) <==> ok(a) && enc(a) == Ok(bs)
  }

  ghost predicate Sized<A>(dec: seq<Byte> -> Result<A>, size: nat) {
    forall bs :: dec(bs).Ok? ==> |bs| == size
  }

  function SerializeFixVecOf<A>(enc: A -> Result<seq<Byte>>, xs: seq<A>): (r: Result<seq<Byte>>) {
    var items :- MapResult(enc, xs);
    SerializeFixVec(items)
  }

  function DecodeFixVecOf<A>(dec: seq<Byte> -> Result<A>, size: nat, bs: seq<Byte>): (r: Result<seq<A>>) {
    var items :- DecodeFixVec(size, bs);
    MapResult(dec, items)
  }

  function SerializeDynVecOf<A>(enc: A -> Result<seq<Byte>>, xs: seq<A>): (r: Result<seq<Byte>>) {
    var items :- MapResult(enc, xs);
    SerializeDynVec(items)
  }

  function DecodeDynVecOf<A>(dec: seq<Byte> -> Result<A>, bs: seq<Byte>): (r: Result<seq<A>>) {
    var items :- DecodeDynVec(bs);
    MapResult(dec, items)
  }

  lemma ItemsMap<A(!new)>(ok: A -> bool, enc: A -> Result<seq<Byte>>, dec: seq<Byte> -> Result<A>,
                          xs: seq<A>, items: seq<seq<Byte>>)
    requires Exact(ok, enc, dec)
    ensures MapResult(dec, items) == Ok(xs) <==> All(ok, xs) && MapResult(enc, xs) == Ok(items)
  {
    MapExact(ok, enc, dec, xs, items);
  }

  lemma ItemsSized<A(!new)>(ok: A -> bool, enc: A -> Result<seq<Byte>>, dec: seq<Byte> -> Result<A>, size: nat,
                            xs: seq<A>, items: seq<seq<Byte>>)
    requires Exact(ok, enc, dec) && Sized(dec, size) && All(ok, xs) && MapResult(enc, xs) == Ok(items)
    ensures AllOfSize(items, size)
  {
    forall i | 0 <= i < |items| ensures |items[i]| == size { assert dec(items[i]) == Ok(xs[i]); }
  }

  lemma FixVecOfExact<A(!new)>(ok: A -> bool, enc: A -> Result<seq<Byte>>, dec: seq<Byte> -> Result<A>, size: nat,
                               xs: seq<A>, bs: seq<Byte>)
    requires Exact(ok, enc, dec) && Sized(dec, size)
    ensures DecodeFixVecOf(dec, size, bs) == Ok(xs) <==> All(ok, xs) && SerializeFixVecOf(enc, xs) == Ok(bs)
  {
    if DecodeFixVec(size, bs).Ok? {
      var items := DecodeFixVec(size, bs).value;
      FixVecExact(size, bs, items);
      ItemsMap(ok, enc, dec, xs, items);
    }
    if All(ok, xs) && MapResult(enc, xs).Ok? {
      var items := MapResult(enc, xs).value;
      ItemsSized(ok, enc, dec, size, xs, items);
      FixVecExact(size, bs, items);
      ItemsMap(ok, enc, dec, xs, items);
    }
  }

  lemma DynVecOfExact<A(!new)>(ok: A -> bool, enc: A -> Result<seq<Byte>>, dec: seq<Byte> -> Result<A>,
                               xs: seq<A>, bs: seq<Byte>)
    requires Exact(ok, enc, dec)
    ensures DecodeDynVecOf(dec, bs) == Ok(xs) <==> All(ok, xs) && SerializeDynVecOf(enc, xs) == Ok(bs)
  {
    if DecodeDynVec(bs).Ok? {
      var items := DecodeDynVec(bs).value;
      DynVecExact(bs, items);
      ItemsMap(ok, enc, dec, xs, items);
    }
    if MapResult(enc, xs).Ok? {
      var items := MapResult(enc, xs).value;
      DynVecExact(bs, items);
      ItemsMap(ok, enc, dec, xs, items);
    }
  }

  // ---------- structs ----------

  function SerializeOutPoint(o: OutPoint): (r: Result<seq<Byte>>) {
    var index :- U32ToLeBytes(o.index);
    Ok(o.txHash + index)
  }

  function DecodeOutPoint(bs: seq<Byte>): (r: Result<OutPoint>) {
    if |bs| != 36 then Err
    else
      var index :- DecodeU32(bs[32..]);
      Ok(OutPoint(bs[..32], index))
  }

  lemma OutPointExact(o: OutPoint, bs: seq<Byte>)
    ensures DecodeOutPoint(bs) == Ok(o) <==> OutPointOk(o) && SerializeOutPoint(o) == Ok(bs)
  {
    if |bs| == 36 { U32Exact(o.index, bs[32..]); }
    if U32ToLeBytes(o.index).Ok? { SplitsAt(o.txHash, U32ToLeBytes(o.index).value, bs); }
  }

  function SerializeCellDep(d: CellDep): (r: Result<seq<Byte>>) {
    var outPoint :- SerializeOutPoint(d.outPoint);
    Ok(outPoint + [if d.depType == Code then 0 else 1])
  }

  function DecodeCellDep(bs: seq<Byte>): (r: Result<CellDep>) {
    if |bs| != 37 || bs[36] > 1 then Err
    else
      var outPoint :- DecodeOutPoint(bs[..36]);
      Ok(CellDep(outPoint, if bs[36] == 0 then Code else DepGroup))
  }

  lemma CellDepExact(d: CellDep, bs: seq<Byte>)
    ensures DecodeCellDep(bs) == Ok(d) <==> CellDepOk(d) && SerializeCellDep(d) == Ok(bs)
  {
    if |bs| == 37 {
      OutPointExact(d.outPoint, bs[..36]);
      assert bs[36..] == [bs[36]];
    }
    if SerializeOutPoint(d.outPoint).Ok? {
      SplitsAt(SerializeOutPoint(d.outPoint).value, [if d.depType == Code then 0 else 1], bs);
    }
  }

  function SerializeCellInput(i: CellInput): (r: Result<seq<Byte>>) {
    var since :- U64ToLeBytes(i.since);
    var outPoint :- SerializeOutPoint(i.previousOutput);
    Ok(since + outPoint)
  }

  function DecodeCellInput(bs: seq<Byte>): (r: Result<CellInput>) {
    if |bs| != 44 then Err
    else
      var since :- DecodeU64(bs[..8]);
      var outPoint :- DecodeOutPoint(bs[8..]);
      Ok(CellInput(outPoint, since))
  }

  lemma CellInputExact(i: CellInput, bs: seq<Byte>)
    ensures DecodeCellInput(bs) == Ok(i) <==> CellInputOk(i) && SerializeCellInput(i) == Ok(bs)
  {
    if |bs| >= 8 {
      U64Exact(i.since, bs[..8]);
      OutPointExact(i.previousOutput, bs[8..]);
    }
    if U64ToLeBytes(i.since).Ok? && SerializeOutPoint(i.previousOutput).Ok? {
      SplitsAt(U64ToLeBytes(i.since).value, SerializeOutPoint(i.previousOutput).value, bs);
    }
  }

  // ---------- tables ----------

  /** A table with exactly `n` fields. */
  function DecodeTable(n: nat, bs: seq<Byte>): (r: Result<seq<seq<Byte>>>)
    ensures r.Ok? ==> |r.value| == n
  {
    var fields :- DecodeDynVec(bs);
    if |fields| == n then Ok(fields) else Err
  }

  lemma TableExact(n: nat, bs: seq<Byte>, fields: seq<seq<Byte>>)
    ensures DecodeTable(n, bs) == Ok(fields) <==> |fields| == n && SerializeDynVec(fields) == Ok(bs)
  {
    DynVecExact(bs, fields);
  }

  /** The fields of a script. */
  function ScriptFields(s: Script): (r: Result<seq<seq<Byte>>>)
    ensures r.Ok? ==> |r.value| == 3
  {
    var hashType :- HashTypeToByte(s.hashType);
    var args :- SerializeBytes(s.args);
    Ok([s.codeHash, [hashType], args])
  }

  function ScriptOfFields(t: seq<seq<Byte>>): (r: Result<Script>)
    requires |t| == 3
  {
    if |t[0]| != 32 || |t[1]| != 1 then Err
    else
      var hashType :- ByteToHashType(t[1][0]);
      var args :- DecodeBytes(t[2]);
      Ok(Script(t[0], hashType, args))
  }

  function SerializeScript(s: Script): (r: Result<seq<Byte>>) {
    var fields :- ScriptFields(s);
    SerializeDynVec(fields)
  }

  function DecodeScript(bs: seq<Byte>): (r: Result<Script>) {
    var t :- DecodeTable(3, bs);
    ScriptOfFields(t)
  }

  lemma ScriptFieldsExact(s: Script, t: seq<seq<Byte>>)
    requires |t| == 3
    ensures ScriptOfFields(t) == Ok(s) <==> ScriptOk(s) && ScriptFields(s) == Ok(t)
  {
    assert t == [t[0], t[1], t[2]];
    if |t[1]| == 1 {
      HashTypeRoundTrip(s.hashType, t[1][0]);
      assert t[1] == [t[1][0]];
    }
    BytesExact(t[2], s.args);
  }

  lemma ScriptExact(s: Script, bs: seq<Byte>)
    ensures DecodeScript(bs) == Ok(s) <==> ScriptOk(s) && SerializeScript(s) == Ok(bs)
  {
    if DecodeTable(3, bs).Ok? {
      TableExact(3, bs, DecodeTable(3, bs).value);
      ScriptFieldsExact(s, DecodeTable(3, bs).value);
    }
    if ScriptFields(s).Ok? {
      TableExact(3, bs, ScriptFields(s).value);
      ScriptFieldsExact(s, ScriptFields(s).value);
    }
  }

  function SerializeScriptOpt(s: Option<Script>): (r: Result<seq<Byte>>) {
    if s.None? then Ok([]) else SerializeScript(s.value)
  }

  function DecodeScriptOpt(bs: seq<Byte>): (r: Result<Option<Script>>) {
    if bs == [] then Ok(None)
    else
      var s :- DecodeScript(bs);
      Ok(Some(s))
  }

  /** An absent script and a present one are never written alike. */
  lemma ScriptOptExact(s: Option<Script>, bs: seq<Byte>)
    ensures DecodeScriptOpt(bs) == Ok(s) <==> ScriptOptOk(s) && SerializeScriptOpt(s) == Ok(bs)
  {
    if s.Some? {
      ScriptExact(s.value, bs);
      if ScriptFields(s.value).Ok? { DynVecSize(ScriptFields(s.value).value); }
    }
  }

  function OutputFields(o: CellOutput): (r: Result<seq<seq<Byte>>>)
    ensures r.Ok? ==> |r.value| == 3
  {
    var capacity :- U64ToLeBytes(o.capacity);
    var lock :- SerializeScript(o.lock);
    var typeScript :- SerializeScriptOpt(o.typeScript);
    Ok([capacity, lock, typeScript])
  }

  function OutputOfFields(t: seq<seq<Byte>>): (r: Result<CellOutput>)
    requires |t| == 3
  {
    var capacity :- DecodeU64(t[0]);
    var lock :- DecodeScript(t[1]);
    var typeScript :- DecodeScriptOpt(t[2]);
    Ok(CellOutput(capacity, lock, typeScript))
  }

  function SerializeCellOutput(o: CellOutput): (r: Result<seq<Byte>>) {
    var fields :- OutputFields(o);
    SerializeDynVec(fields)
  }

  function DecodeCellOutput(bs: seq<Byte>): (r: Result<CellOutput>) {
    var t :- DecodeTable(3, bs);
    OutputOfFields(t)
  }

  lemma OutputFieldsExact(o: CellOutput, t: seq<seq<Byte>>)
    requires |t| == 3
    ensures OutputOfFields(t) == Ok(o) <==> CellOutputOk(o) && OutputFields(o) == Ok(t)
  {
    assert t == [t[0], t[1], t[2]];
    U64Exact(o.capacity, t[0]);
    ScriptExact(o.lock, t[1]);
    ScriptOptExact(o.typeScript, t[2]);
  }

  lemma CellOutputExact(o: CellOutput, bs: seq<Byte>)
    ensures DecodeCellOutput(bs) == Ok(o) <==> CellOutputOk(o) && SerializeCellOutput(o) == Ok(bs)
  {
    if DecodeTable(3, bs).Ok? {
      TableExact(3, bs, DecodeTable(3, bs).value);
      OutputFieldsExact(o, DecodeTable(3, bs).value);
    }
    if OutputFields(o).Ok? {
      TableExact(3, bs, OutputFields(o).value);
      OutputFieldsExact(o, OutputFields(o).value);
    }
  }

  // ---------- vectors ----------

  function SerializeHash(h: seq<Byte>): (r: Result<seq<Byte>>) { Ok(h) }

  function DecodeHash(bs: seq<Byte>): (r: Result<seq<Byte>>) {
    if |bs| == 32 then Ok(bs) else Err
  }

  function SerializeCellDepVec(xs: seq<CellDep>): Result<seq<Byte>> { SerializeFixVecOf(SerializeCellDep, xs) }

  function SerializeByte32Vec(xs: seq<seq<Byte>>): Result<seq<Byte>> { SerializeFixVecOf(SerializeHash, xs) }

  function SerializeCellInputVec(xs: seq<CellInput>): Result<seq<Byte>> { SerializeFixVecOf(SerializeCellInput, xs) }

  function SerializeCellOutputVec(xs: seq<CellOutput>): Result<seq<Byte>> { SerializeDynVecOf(SerializeCellOutput, xs) }

  function SerializeBytesVec(xs: seq<seq<Byte>>): Result<seq<Byte>> { SerializeDynVecOf(SerializeBytes, xs) }

  function DecodeCellDepVec(bs: seq<Byte>): Result<seq<CellDep>> { DecodeFixVecOf(DecodeCellDep, 37, bs) }

  function DecodeByte32Vec(bs: seq<Byte>): Result<seq<seq<Byte>>> { DecodeFixVecOf(DecodeHash, 32, bs) }

  function DecodeCellInputVec(bs: seq<Byte>): Result<seq<CellInput>> { DecodeFixVecOf(DecodeCellInput, 44, bs) }

  function DecodeCellOutputVec(bs: seq<Byte>): Result<seq<CellOutput>> { DecodeDynVecOf(DecodeCellOutput, bs) }

  function DecodeBytesVec(bs: seq<Byte>): Result<seq<seq<Byte>>> { DecodeDynVecOf(DecodeBytes, bs) }

  lemma CellDepVecExact(xs: seq<CellDep>, bs: seq<Byte>)
    ensures DecodeCellDepVec(bs) == Ok(xs) <==> All(CellDepOk, xs) && SerializeCellDepVec(xs) == Ok(bs)
  {
    forall d, b ensures DecodeCellDep(b) == Ok(d) <==> CellDepOk(d) && SerializeCellDep(d) == Ok(b) { CellDepExact(d, b); }
    FixVecOfExact(CellDepOk, SerializeCellDep, DecodeCellDep, 37, xs, bs);
  }

  lemma Byte32VecExact(xs: seq<seq<Byte>>, bs: seq<Byte>)
    ensures DecodeByte32Vec(bs) == Ok(xs) <==> All(HashOk, xs) && SerializeByte32Vec(xs) == Ok(bs)
  {
    FixVecOfExact(HashOk, SerializeHash, DecodeHash, 32, xs, bs);
  }

  lemma CellInputVecExact(xs: seq<CellInput>, bs: seq<Byte>)
    ensures DecodeCellInputVec(bs) == Ok(xs) <==> All(CellInputOk, xs) && SerializeCellInputVec(xs) == Ok(bs)
  {
    forall i, b ensures DecodeCellInput(b) == Ok(i) <==> CellInputOk(i) && SerializeCellInput(i) == Ok(b) {
      CellInputExact(i, b);
    }
    FixVecOfExact(CellInputOk, SerializeCellInput, DecodeCellInput, 44, xs, bs);
  }

  lemma CellOutputVecExact(xs: seq<CellOutput>, bs: seq<Byte>)
    ensures DecodeCellOutputVec(bs) == Ok(xs) <==> All(CellOutputOk, xs) && SerializeCellOutputVec(xs) == Ok(bs)
  {
    forall o, b ensures DecodeCellOutput(b) == Ok(o) <==> CellOutputOk(o) && SerializeCellOutput(o) == Ok(b) {
      CellOutputExact(o, b);
    }
    DynVecOfExact(CellOutputOk, SerializeCellOutput, DecodeCellOutput, xs, bs);
  }

  lemma BytesVecExact(xs: seq<seq<Byte>>, bs: seq<Byte>)
    ensures DecodeBytesVec(bs) == Ok(xs) <==> SerializeBytesVec(xs) == Ok(bs)
  {
    forall x, b ensures DecodeBytes(b) == Ok(x) <==> AnyBytes(x) && SerializeBytes(x) == Ok(b) { BytesExact(b, x); }
    DynVecOfExact(AnyBytes, SerializeBytes, DecodeBytes, xs, bs);
  }

  // ---------- raw transactions ----------

  function RawFields(tx: RawTransaction): (r: Result<seq<seq<Byte>>>)
    ensures r.Ok? ==> |r.value| == 6
  {
    var version :- U32ToLeBytes(tx.version);
    var cellDeps :- SerializeCellDepVec(tx.cellDeps);
    var headerDeps :- SerializeByte32Vec(tx.headerDeps);
    var inputs :- SerializeCellInputVec(tx.inputs);
    var outputs :- SerializeCellOutputVec(tx.outputs);
    var outputsData :- SerializeBytesVec(tx.outputsData);
    Ok([version, cellDeps, headerDeps, inputs, outputs, outputsData])
  }

  function RawOfFields(t: seq<seq<Byte>>): (r: Result<RawTransaction>)
    requires |t| == 6
  {
    var version :- DecodeU32(t[0]);
    var cellDeps :- DecodeCellDepVec(t[1]);
    var headerDeps :- DecodeByte32Vec(t[2]);
    var inputs :- DecodeCellInputVec(t[3]);
    var outputs :- DecodeCellOutputVec(t[4]);
    var outputsData :- DecodeBytesVec(t[5]);
    Ok(RawTransaction(version, cellDeps, headerDeps, inputs, outputs, outputsData))
  }

  function SerializeRawTransaction(tx: RawTransaction): (r: Result<seq<Byte>>) {
    var fields :- RawFields(tx);
    SerializeDynVec(fields)
  }

  function DecodeRawTransaction(bs: seq<Byte>): (r: Result<RawTransaction>) {
    var t :- DecodeTable(6, bs);
    RawOfFields(t)
  }

  lemma RawFieldsExact(tx: RawTransaction, t: seq<seq<Byte>>)
    requires |t| == 6
    ensures RawOfFields(t) == Ok(tx) <==> RawOk(tx) && RawFields(tx) == Ok(t)
  {
    assert t == [t[0], t[1], t[2], t[3], t[4], t[5]];
    U32Exact(tx.version, t[0]);
    CellDepVecExact(tx.cellDeps, t[1]);
    Byte32VecExact(tx.headerDeps, t[2]);
    CellInputVecExact(tx.inputs, t[3]);
    CellOutputVecExact(tx.outputs, t[4]);
    BytesVecExact(tx.outputsData, t[5]);
  }

  /** Bytes decode to a transaction exactly when its hashes have 32 bytes and it is serialized as these bytes. */
  lemma RawTransactionExact(tx: RawTransaction, bs: seq<Byte>)
    ensures DecodeRawTransaction(bs) == Ok(tx) <==> RawOk(tx) && SerializeRawTransaction(tx) == Ok(bs)
  {
    if DecodeTable(6, bs).Ok? {
      TableExact(6, bs, DecodeTable(6, bs).value);
      RawFieldsExact(tx, DecodeTable(6, bs).value);
    }
    if RawFields(tx).Ok? {
      TableExact(6, bs, RawFields(tx).value);
      RawFieldsExact(tx, RawFields(tx).value);
    }
  }

  /** No two well-formed transactions have the same preimage of their hash. */
  lemma PreimageUnambiguous(x: RawTransaction, y: RawTransaction)
    requires RawOk(x) && RawOk(y)
    requires SerializeRawTransaction(x).Ok? && SerializeRawTransaction(x) == SerializeRawTransaction(y)
    ensures x == y
  {
    RawTransactionExact(x, SerializeRawTransaction(x).value);
    RawTransactionExact(y, SerializeRawTransaction(x).value);
  }
}
