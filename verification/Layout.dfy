/** Where every field of a serialized transaction lies, byte by byte and without a decoder. */
module Layout {
  import opened Common
  import opened Molecule
  import opened Address
  import opened Transaction
  import opened TransactionSize

  /** The piece lies in these bytes, from position `at` on. */
  ghost predicate Lies(bs: seq<Byte>, at: nat, piece: seq<Byte>) {
    exists front, back :: bs == front + piece + back && |front| == at
  }

  /** In other words, the piece is a slice. */
  lemma LiesIsSlice(bs: seq<Byte>, at: nat, piece: seq<Byte>)
    ensures Lies(bs, at, piece) <==> at + |piece| <= |bs| && bs[at..at + |piece|] == piece
  {
    if at + |piece| <= |bs| && bs[at..at + |piece|] == piece {
      assert bs == bs[..at] + piece + bs[at + |piece|..];
    }
  }

  /** A piece of a piece. */
  lemma LiesInside(bs: seq<Byte>, at: nat, outer: seq<Byte>, q: nat, piece: seq<Byte>)
    ensures Lies(bs, at, outer) && Lies(outer, q, piece) ==> Lies(bs, at + q, piece)
  {
    if Lies(bs, at, outer) && Lies(outer, q, piece) {
      var a, d :| bs == a + outer + d && |a| == at;
      var b, c :| outer == b + piece + c && |b| == q;
      Regrouped(a, b, piece, c, d);
    }
  }

  lemma Regrouped(a: seq<Byte>, b: seq<Byte>, piece: seq<Byte>, c: seq<Byte>, d: seq<Byte>)
    ensures a + (b + piece + c) + d == (a + b) + piece + (c + d)
  {
  }

  /** Three pieces, one behind the other. */
  lemma LiesParts(bs: seq<Byte>, a: seq<Byte>, b: seq<Byte>, c: seq<Byte>)
    ensures bs == a + b + c ==> Lies(bs, 0, a) && Lies(bs, |a|, b) && Lies(bs, |a| + |b|, c)
  {
    if bs == a + b + c {
      assert bs == [] + a + (b + c);
      assert bs == (a + b) + c + [];
    }
  }

  /** Two pieces, one behind the other. */
  lemma LiesPair(bs: seq<Byte>, a: seq<Byte>, b: seq<Byte>)
    ensures bs == a + b ==> Lies(bs, 0, a) && Lies(bs, |a|, b)
  {
    if bs == a + b {
      assert bs == [] + a + b && bs == a + b + [];
    }
  }

  // ---------- vectors and tables ----------

  /** The bytes in front of item `i`. */
  function Before(items: seq<seq<Byte>>, i: nat): nat
    requires i <= |items|
  {
    if i == 0 then 0 else Before(items, i - 1) + |items[i - 1]|
  }

  lemma {:induction false} BeforeFixed(items: seq<seq<Byte>>, size: nat, i: nat)
    requires i <= |items| && AllOfSize(items, size)
    ensures Before(items, i) == i * size
  {
    if i > 0 { BeforeFixed(items, size, i - 1); }
  }

  lemma {:induction false} BeforeTail(items: seq<seq<Byte>>, i: nat)
    requires 0 < i <= |items|
    ensures Before(items, i) == |items[0]| + Before(items[1..], i - 1)
  {
    if i > 1 { BeforeTail(items, i - 1); }
  }

  /** Concatenated items lie one behind the other. */
  lemma {:induction false} FlatAt(items: seq<seq<Byte>>, i: nat)
    requires i < |items|
    ensures Lies(Flat(items), Before(items, i), items[i])
    decreases i
  {
    LiesPair(Flat(items), items[0], Flat(items[1..]));
    if i > 0 {
      FlatAt(items[1..], i - 1);
      BeforeTail(items, i);
      LiesInside(Flat(items), |items[0]|, Flat(items[1..]), Before(items[1..], i - 1), items[i]);
    }
  }

  /** A fixed-size vector: the number of items, then item `i` at `4 + i * size`. */
  lemma FixVecLayout(items: seq<seq<Byte>>, size: nat, bs: seq<Byte>, i: nat)
    requires AllOfSize(items, size) && SerializeFixVec(items) == Ok(bs) && i < |items|
    ensures Lies(bs, 0, Le(|items|, U32_BYTES)) && Lies(bs, 4 + i * size, items[i])
  {
    LiesPair(bs, Le(|items|, U32_BYTES), Flat(items));
    FlatAt(items, i);
    BeforeFixed(items, size, i);
    LiesInside(bs, 4, Flat(items), i * size, items[i]);
  }

  /** Where item `i` of a dynamic vector starts. */
  function StartOf(items: seq<seq<Byte>>, i: nat): nat
    requires i <= |items|
  {
    4 + 4 * |items| + Before(items, i)
  }

  lemma {:induction false} StartsAt(at: nat, items: seq<seq<Byte>>, i: nat)
    requires i < |items|
    ensures Starts(at, items)[i] == at + Before(items, i)
    decreases i
  {
    if i > 0 {
      StartsAt(at + |items[0]|, items[1..], i - 1);
      BeforeTail(items, i);
    }
  }

  lemma OffsetAt(offsets: seq<nat>, i: nat, bs: seq<Byte>)
    requires WriteOffsets(offsets) == Ok(bs) && i < |offsets|
    ensures Lies(bs, 4 * i, Le(offsets[i], U32_BYTES))
  {
    var chunks := MapResult(U32ToLeBytes, offsets).value;
    FlatAt(chunks, i);
    BeforeFixed(chunks, 4, i);
    assert U32ToLeBytes(offsets[i]) == Ok(chunks[i]);
  }

  lemma DynVecPlaced(items: seq<seq<Byte>>, bs: seq<Byte>) returns (offsets: seq<Byte>)
    requires SerializeDynVec(items) == Ok(bs)
    ensures WriteOffsets(Starts(4 + 4 * |items|, items)) == Ok(offsets)
    ensures Lies(bs, 0, Le(|bs|, U32_BYTES)) && Lies(bs, 4, offsets) && Lies(bs, 4 + 4 * |items|, Flat(items))
  {
    var starts := Starts(4 + 4 * |items|, items);
    offsets := WriteOffsets(starts).value;
    DynVecSize(items);
    OffsetsSize(starts);
    LiesParts(bs, Le(|bs|, U32_BYTES), offsets, Flat(items));
  }

  /** A dynamic vector or table: its size, the start of item `i` at `4 + 4 * i`, and the item there. */
  lemma DynVecLayout(items: seq<seq<Byte>>, bs: seq<Byte>, i: nat)
    requires SerializeDynVec(items) == Ok(bs) && i < |items|
    ensures Lies(bs, 0, Le(|bs|, U32_BYTES)) && Lies(bs, 4 + 4 * i, Le(StartOf(items, i), U32_BYTES))
    ensures Lies(bs, StartOf(items, i), items[i])
  {
    var offsets := DynVecPlaced(items, bs);
    StartsAt(4 + 4 * |items|, items, i);
    StartPlaced(Starts(4 + 4 * |items|, items), offsets, bs, i, StartOf(items, i));
    ItemPlaced(items, bs, i, 4 + 4 * |items|, StartOf(items, i));
  }

  lemma StartPlaced(starts: seq<nat>, offsets: seq<Byte>, bs: seq<Byte>, i: nat, start: nat)
    requires i < |starts|
    ensures WriteOffsets(starts) == Ok(offsets) && Lies(bs, 4, offsets) && starts[i] == start ==>
              Lies(bs, 4 + 4 * i, Le(start, U32_BYTES))
  {
    if WriteOffsets(starts) == Ok(offsets) {
      OffsetAt(starts, i, offsets);
      LiesInside(bs, 4, offsets, 4 * i, Le(starts[i], U32_BYTES));
    }
  }

  lemma ItemPlaced(items: seq<seq<Byte>>, bs: seq<Byte>, i: nat, head: nat, start: nat)
    requires i < |items|
    ensures Lies(bs, head, Flat(items)) && start == head + Before(items, i) ==> Lies(bs, start, items[i])
  {
    FlatAt(items, i);
    LiesInside(bs, head, Flat(items), Before(items, i), items[i]);
  }

  /** Names an item that a proof looks at. */
  predicate Item(i: int) { true }

  /** All items of a vector or table lie where their starts say. */
  ghost predicate Laid(items: seq<seq<Byte>>, bs: seq<Byte>) {
    forall i {:trigger Item(i)} :: 0 <= i < |items| && Item(i) ==>
      && Lies(bs, 0, Le(|bs|, U32_BYTES)) && Lies(bs, 4 + 4 * i, Le(StartOf(items, i), U32_BYTES))
      && Lies(bs, StartOf(items, i), items[i])
  }

  lemma DynVecLaid(items: seq<seq<Byte>>, bs: seq<Byte>)
    ensures SerializeDynVec(items) == Ok(bs) ==> Laid(items, bs) && |bs| == DynSize(items)
  {
    if SerializeDynVec(items) == Ok(bs) {
      DynVecSize(items);
      forall i | 0 <= i < |items|
        ensures Lies(bs, 0, Le(|bs|, U32_BYTES)) && Lies(bs, 4 + 4 * i, Le(StartOf(items, i), U32_BYTES))
        ensures Lies(bs, StartOf(items, i), items[i])
      {
        DynVecLayout(items, bs, i);
      }
    }
  }

  // ---------- structs ----------

  /** Hash, then index. */
  lemma OutPointLayout(o: OutPoint, bs: seq<Byte>)
    requires OutPointOk(o) && SerializeOutPoint(o) == Ok(bs)
    ensures |bs| == 36 && Lies(bs, 0, o.txHash) && Lies(bs, 32, Le(o.index, U32_BYTES))
  {
    LiesPair(bs, o.txHash, Le(o.index, U32_BYTES));
  }

  /** The out point, then 0 for code and 1 for a group. */
  lemma CellDepLayout(d: CellDep, bs: seq<Byte>)
    requires CellDepOk(d) && SerializeCellDep(d) == Ok(bs)
    ensures |bs| == 37 && DepLaid(bs, 0, d)
  {
    var o := SerializeOutPoint(d.outPoint).value;
    OutPointLayout(d.outPoint, o);
    LiesPair(bs, o, [if d.depType.Code? then 0 else 1]);
    LiesInside(bs, 0, o, 0, d.outPoint.txHash);
    LiesInside(bs, 0, o, 32, Le(d.outPoint.index, U32_BYTES));
  }

  /** `since`, then the out point. */
  lemma CellInputLayout(x: CellInput, bs: seq<Byte>)
    requires CellInputOk(x) && SerializeCellInput(x) == Ok(bs)
    ensures |bs| == 44 && InputLaid(bs, 0, x)
  {
    var o := SerializeOutPoint(x.previousOutput).value;
    OutPointLayout(x.previousOutput, o);
    LiesPair(bs, Le(x.since, U64_BYTES), o);
    LiesInside(bs, 8, o, 0, x.previousOutput.txHash);
    LiesInside(bs, 8, o, 32, Le(x.previousOutput.index, U32_BYTES));
  }

  // ---------- tables ----------

  /** A byte string: its length, then its bytes. */
  lemma BytesLayout(bytes: seq<Byte>, bs: seq<Byte>)
    requires SerializeBytes(bytes) == Ok(bs)
    ensures |bs| == 4 + |bytes| && Lies(bs, 0, Le(|bytes|, U32_BYTES)) && Lies(bs, 4, bytes)
  {
    BytesMeasured(bytes);
    BytesAre(bytes);
    BytesLaid(bytes);
  }

  lemma BytesAre(bytes: seq<Byte>)
    ensures SerializeBytes(bytes).Ok? ==> SerializeBytes(bytes) == Ok(Le(|bytes|, U32_BYTES) + bytes)
  {
    FlatSingletons(bytes);
  }

  lemma BytesLaid(bytes: seq<Byte>)
    ensures var bs := Le(|bytes|, U32_BYTES) + bytes; Lies(bs, 0, Le(|bytes|, U32_BYTES)) && Lies(bs, 4, bytes)
  {
    LiesPair(Le(|bytes|, U32_BYTES) + bytes, Le(|bytes|, U32_BYTES), bytes);
  }

  lemma BeforeThree(t: seq<seq<Byte>>)
    requires |t| == 3
    ensures Before(t, 0) == 0 && Before(t, 1) == |t[0]| && Before(t, 2) == |t[0]| + |t[1]|
    ensures DynSize(t) == 16 + |t[0]| + |t[1]| + |t[2]|
  {
    assert t == [t[0], t[1], t[2]];
    FlatThree(t[0], t[1], t[2]);
  }

  /** The three fields of a table, behind their starts. */
  ghost predicate ThreeLaid(t: seq<seq<Byte>>, bs: seq<Byte>)
    requires |t| == 3
  {
    && |bs| == 16 + |t[0]| + |t[1]| + |t[2]| && Lies(bs, 0, Le(|bs|, U32_BYTES))
    && Lies(bs, 4, Le(16, U32_BYTES)) && Lies(bs, 8, Le(16 + |t[0]|, U32_BYTES))
    && Lies(bs, 12, Le(16 + |t[0]| + |t[1]|, U32_BYTES))
    && Lies(bs, 16, t[0]) && Lies(bs, 16 + |t[0]|, t[1]) && Lies(bs, 16 + |t[0]| + |t[1]|, t[2])
  }

  lemma ThreeFields(t: seq<seq<Byte>>, bs: seq<Byte>)
    requires |t| == 3
    ensures Laid(t, bs) && |bs| == DynSize(t) ==> ThreeLaid(t, bs)
  {
    BeforeThree(t);
    assert Item(0) && Item(1) && Item(2);
  }

  /** Code hash, hash type, arguments. */
  lemma ScriptLayout(s: Script, bs: seq<Byte>)
    requires ScriptOk(s) && SerializeScript(s) == Ok(bs)
    ensures |bs| == 53 + |s.args| && Lies(bs, 16, s.codeHash)
    ensures bs[48] == match s.hashType case Data => 0 case Type => 1 case DataVersion(v) => 2 * v
    ensures Lies(bs, 49, Le(|s.args|, U32_BYTES)) && Lies(bs, 53, s.args)
  {
    var t := ScriptFields(s).value;
    DynVecLaid(t, bs);
    ThreeFields(t, bs);
    BytesLayout(s.args, t[2]);
    LiesInside(bs, 49, t[2], 0, Le(|s.args|, U32_BYTES));
    LiesInside(bs, 49, t[2], 4, s.args);
  }

  /** Capacity, lock, type script or nothing. */
  lemma CellOutputLayout(o: CellOutput, bs: seq<Byte>)
    requires CellOutputOk(o) && SerializeCellOutput(o) == Ok(bs)
    ensures Lies(bs, 16, Le(o.capacity, U64_BYTES)) && SerializeScript(o.lock).Ok? && Lies(bs, 24, SerializeScript(o.lock).value)
    ensures o.typeScript.None? ==> |bs| == 24 + |SerializeScript(o.lock).value|
    ensures o.typeScript.Some? ==>
              && SerializeScript(o.typeScript.value).Ok?
              && Lies(bs, 24 + |SerializeScript(o.lock).value|, SerializeScript(o.typeScript.value).value)
  {
    var t := OutputFields(o).value;
    DynVecLaid(t, bs);
    ThreeFields(t, bs);
  }

  // ---------- raw transactions ----------

  /** The items of a vector of mapped entities. */
  lemma FixVecOfLayout<A>(enc: A -> Result<seq<Byte>>, size: nat, xs: seq<A>, bs: seq<Byte>, i: nat)
    requires SerializeFixVecOf(enc, xs) == Ok(bs) && i < |xs|
    requires forall k :: 0 <= k < |xs| && enc(xs[k]).Ok? ==> |enc(xs[k]).value| == size
    ensures enc(xs[i]).Ok? && Lies(bs, 0, Le(|xs|, U32_BYTES)) && Lies(bs, 4 + i * size, enc(xs[i]).value)
  {
    var items := MapResult(enc, xs).value;
    FixVecLayout(items, size, bs, i);
  }

  /** Where the parts of a raw transaction start, told from the number of items in front of them. */
  function HeadersAt(tx: RawTransaction): nat { 36 + 37 * |tx.cellDeps| }

  function InputsAt(tx: RawTransaction): nat { 40 + 37 * |tx.cellDeps| + 32 * |tx.headerDeps| }

  function OutputsAt(tx: RawTransaction): nat { 44 + 37 * |tx.cellDeps| + 32 * |tx.headerDeps| + 44 * |tx.inputs| }

  lemma SixFields(t: seq<seq<Byte>>, bs: seq<Byte>)
    requires |t| == 6
    ensures Laid(t, bs) ==>
              && Lies(bs, 0, Le(|bs|, U32_BYTES)) && Lies(bs, 28, t[0]) && Lies(bs, 28 + |t[0]|, t[1])
              && Lies(bs, 28 + |t[0]| + |t[1]|, t[2]) && Lies(bs, 28 + |t[0]| + |t[1]| + |t[2]|, t[3])
              && Lies(bs, 28 + |t[0]| + |t[1]| + |t[2]| + |t[3]|, t[4])
              && Lies(bs, 28 + |t[0]| + |t[1]| + |t[2]| + |t[3]| + |t[4]|, t[5])
  {
    BeforeSix(t);
    assert Item(0) && Item(1) && Item(2) && Item(3) && Item(4) && Item(5);
  }

  lemma BeforeSix(t: seq<seq<Byte>>)
    requires |t| == 6
    ensures Before(t, 0) == 0 && Before(t, 1) == |t[0]| && Before(t, 2) == |t[0]| + |t[1]|
    ensures Before(t, 3) == |t[0]| + |t[1]| + |t[2]| && Before(t, 4) == |t[0]| + |t[1]| + |t[2]| + |t[3]|
    ensures Before(t, 5) == |t[0]| + |t[1]| + |t[2]| + |t[3]| + |t[4]|
  {
  }

  /** The fields are the serialized parts, in this order. */
  ghost predicate FieldsOf(tx: RawTransaction, t: seq<seq<Byte>>) {
    |t| == 6 && FirstFields(tx, t[0], t[1], t[2]) && LastFields(tx, t[3], t[4], t[5])
  }

  ghost predicate FirstFields(tx: RawTransaction, version: seq<Byte>, cellDeps: seq<Byte>, headerDeps: seq<Byte>) {
    && version == Le(tx.version, U32_BYTES)
    && SerializeCellDepVec(tx.cellDeps) == Ok(cellDeps) && SerializeByte32Vec(tx.headerDeps) == Ok(headerDeps)
  }

  ghost predicate LastFields(tx: RawTransaction, inputs: seq<Byte>, outputs: seq<Byte>, outputsData: seq<Byte>) {
    && SerializeCellInputVec(tx.inputs) == Ok(inputs) && SerializeCellOutputVec(tx.outputs) == Ok(outputs)
    && SerializeBytesVec(tx.outputsData) == Ok(outputsData)
  }

  lemma FirstAre(tx: RawTransaction, t: seq<seq<Byte>>)
    requires RawFields(tx) == Ok(t)
    ensures FirstFields(tx, t[0], t[1], t[2])
  {
  }

  lemma LastAre(tx: RawTransaction, t: seq<seq<Byte>>)
    requires RawFields(tx) == Ok(t)
    ensures LastFields(tx, t[3], t[4], t[5])
  {
  }

  lemma FieldSizes(tx: RawTransaction, t: seq<seq<Byte>>)
    requires RawOk(tx)
    ensures FieldsOf(tx, t) ==> |t[0]| == 4 && |t[1]| == 4 + 37 * |tx.cellDeps| && |t[2]| == 4 + 32 * |tx.headerDeps| &&
                                |t[3]| == 4 + 44 * |tx.inputs|
  {
    CellDepsMeasured(tx.cellDeps);
    HashesMeasured(tx.headerDeps);
    InputsMeasured(tx.inputs);
  }

  /** Version, cell deps, header deps, inputs, outputs, data: the fields `t` lie at these places. */
  ghost predicate RawLaid(tx: RawTransaction, t: seq<seq<Byte>>, bs: seq<Byte>)
    requires |t| == 6
  {
    && Lies(bs, 0, Le(|bs|, U32_BYTES)) && Lies(bs, 28, t[0]) && Lies(bs, 32, t[1])
    && Lies(bs, HeadersAt(tx), t[2]) && Lies(bs, InputsAt(tx), t[3]) && Lies(bs, OutputsAt(tx), t[4])
    && Lies(bs, OutputsAt(tx) + |t[4]|, t[5])
  }

  lemma RawPlaced(tx: RawTransaction, t: seq<seq<Byte>>, bs: seq<Byte>)
    requires |t| == 6 && |t[0]| == 4 && |t[1]| == 4 + 37 * |tx.cellDeps| && |t[2]| == 4 + 32 * |tx.headerDeps|
    requires |t[3]| == 4 + 44 * |tx.inputs|
    ensures Laid(t, bs) ==> RawLaid(tx, t, bs)
  {
    SixFields(t, bs);
  }

  /** The fields of a raw transaction, in the order and at the places of the schema. */
  lemma RawLayout(tx: RawTransaction, bs: seq<Byte>) returns (t: seq<seq<Byte>>)
    requires RawOk(tx) && SerializeRawTransaction(tx) == Ok(bs)
    ensures FieldsOf(tx, t) && RawLaid(tx, t, bs)
  {
    t := RawFields(tx).value;
    FirstAre(tx, t);
    LastAre(tx, t);
    FieldSizes(tx, t);
    DynVecLaid(t, bs);
    RawPlaced(tx, t, bs);
  }

  /** A cell dep from position `at` on: the out point, then 0 for code and 1 for a group. */
  ghost predicate DepLaid(bs: seq<Byte>, at: nat, d: CellDep) {
    && Lies(bs, at, d.outPoint.txHash) && Lies(bs, at + 32, Le(d.outPoint.index, U32_BYTES))
    && Lies(bs, at + 36, [if d.depType.Code? then 0 else 1])
  }

  lemma DepMoves(bs: seq<Byte>, at: nat, outer: seq<Byte>, q: nat, d: CellDep)
    ensures Lies(bs, at, outer) && DepLaid(outer, q, d) ==> DepLaid(bs, at + q, d)
  {
    LiesInside(bs, at, outer, q, d.outPoint.txHash);
    LiesInside(bs, at, outer, q + 32, Le(d.outPoint.index, U32_BYTES));
    LiesInside(bs, at, outer, q + 36, [if d.depType.Code? then 0 else 1]);
  }

  lemma DepItem(xs: seq<CellDep>, bs: seq<Byte>, i: nat)
    requires All(CellDepOk, xs) && SerializeCellDepVec(xs) == Ok(bs) && i < |xs|
    ensures Lies(bs, 0, Le(|xs|, U32_BYTES)) && SerializeCellDep(xs[i]).Ok?
    ensures Lies(bs, 4 + 37 * i, SerializeCellDep(xs[i]).value)
  {
    forall k | 0 <= k < |xs| && SerializeCellDep(xs[k]).Ok? ensures |SerializeCellDep(xs[k]).value| == 37 {
      CellDepLayout(xs[k], SerializeCellDep(xs[k]).value);
    }
    FixVecOfLayout(SerializeCellDep, 37, xs, bs, i);
  }

  lemma DepInside(xs: seq<CellDep>, bs: seq<Byte>, i: nat)
    requires All(CellDepOk, xs) && SerializeCellDepVec(xs) == Ok(bs) && i < |xs|
    ensures Lies(bs, 0, Le(|xs|, U32_BYTES)) && DepLaid(bs, 4 + 37 * i, xs[i])
  {
    DepItem(xs, bs, i);
    CellDepLayout(xs[i], SerializeCellDep(xs[i]).value);
    DepMoves(bs, 4 + 37 * i, SerializeCellDep(xs[i]).value, 0, xs[i]);
  }

  /** Cell dep `i` lies at `36 + 37 * i`. */
  lemma CellDepPlace(tx: RawTransaction, t: seq<seq<Byte>>, bs: seq<Byte>, i: nat)
    requires RawOk(tx) && FieldsOf(tx, t) && RawLaid(tx, t, bs) && i < |tx.cellDeps|
    ensures Lies(bs, 32, Le(|tx.cellDeps|, U32_BYTES)) && DepLaid(bs, 36 + 37 * i, tx.cellDeps[i])
  {
    DepInside(tx.cellDeps, t[1], i);
    LiesInside(bs, 32, t[1], 0, Le(|tx.cellDeps|, U32_BYTES));
    DepMoves(bs, 32, t[1], 4 + 37 * i, tx.cellDeps[i]);
  }

  /** Header dep `i` is its hash. */
  lemma HeaderPlace(tx: RawTransaction, t: seq<seq<Byte>>, bs: seq<Byte>, i: nat)
    requires RawOk(tx) && FieldsOf(tx, t) && RawLaid(tx, t, bs) && i < |tx.headerDeps|
    ensures Lies(bs, HeadersAt(tx), Le(|tx.headerDeps|, U32_BYTES))
    ensures Lies(bs, HeadersAt(tx) + 4 + 32 * i, tx.headerDeps[i])
  {
    FixVecOfLayout(SerializeHash, 32, tx.headerDeps, t[2], i);
    LiesInside(bs, HeadersAt(tx), t[2], 0, Le(|tx.headerDeps|, U32_BYTES));
    LiesInside(bs, HeadersAt(tx), t[2], 4 + 32 * i, tx.headerDeps[i]);
  }

  /** An input from position `at` on: `since`, then the out point that it spends. */
  ghost predicate InputLaid(bs: seq<Byte>, at: nat, x: CellInput) {
    && Lies(bs, at, Le(x.since, U64_BYTES)) && Lies(bs, at + 8, x.previousOutput.txHash)
    && Lies(bs, at + 40, Le(x.previousOutput.index, U32_BYTES))
  }

  lemma InputMoves(bs: seq<Byte>, at: nat, outer: seq<Byte>, q: nat, x: CellInput)
    ensures Lies(bs, at, outer) && InputLaid(outer, q, x) ==> InputLaid(bs, at + q, x)
  {
    LiesInside(bs, at, outer, q, Le(x.since, U64_BYTES));
    LiesInside(bs, at, outer, q + 8, x.previousOutput.txHash);
    LiesInside(bs, at, outer, q + 40, Le(x.previousOutput.index, U32_BYTES));
  }

  lemma InputItem(xs: seq<CellInput>, bs: seq<Byte>, i: nat)
    requires All(CellInputOk, xs) && SerializeCellInputVec(xs) == Ok(bs) && i < |xs|
    ensures Lies(bs, 0, Le(|xs|, U32_BYTES)) && SerializeCellInput(xs[i]).Ok?
    ensures Lies(bs, 4 + 44 * i, SerializeCellInput(xs[i]).value)
  {
    forall k | 0 <= k < |xs| && SerializeCellInput(xs[k]).Ok? ensures |SerializeCellInput(xs[k]).value| == 44 {
      CellInputLayout(xs[k], SerializeCellInput(xs[k]).value);
    }
    FixVecOfLayout(SerializeCellInput, 44, xs, bs, i);
  }

  lemma InputInside(xs: seq<CellInput>, bs: seq<Byte>, i: nat)
    requires All(CellInputOk, xs) && SerializeCellInputVec(xs) == Ok(bs) && i < |xs|
    ensures Lies(bs, 0, Le(|xs|, U32_BYTES)) && InputLaid(bs, 4 + 44 * i, xs[i])
  {
    InputItem(xs, bs, i);
    CellInputLayout(xs[i], SerializeCellInput(xs[i]).value);
    InputMoves(bs, 4 + 44 * i, SerializeCellInput(xs[i]).value, 0, xs[i]);
  }

  /** Input `i` lies behind the deps and the inputs in front of it. */
  lemma InputPlace(tx: RawTransaction, t: seq<seq<Byte>>, bs: seq<Byte>, i: nat)
    requires RawOk(tx) && FieldsOf(tx, t) && RawLaid(tx, t, bs) && i < |tx.inputs|
    ensures Lies(bs, InputsAt(tx), Le(|tx.inputs|, U32_BYTES)) && InputLaid(bs, InputsAt(tx) + 4 + 44 * i, tx.inputs[i])
  {
    InputInside(tx.inputs, t[3], i);
    LiesInside(bs, InputsAt(tx), t[3], 0, Le(|tx.inputs|, U32_BYTES));
    InputMoves(bs, InputsAt(tx), t[3], 4 + 44 * i, tx.inputs[i]);
  }

  /** Item `i` of a dynamic vector of mapped entities starts where its offset says. */
  lemma DynVecOfLayout<A>(enc: A -> Result<seq<Byte>>, xs: seq<A>, bs: seq<Byte>, i: nat) returns (at: nat, item: seq<Byte>)
    requires SerializeDynVecOf(enc, xs) == Ok(bs) && i < |xs|
    ensures enc(xs[i]) == Ok(item) && Lies(bs, 4 + 4 * i, Le(at, U32_BYTES)) && Lies(bs, at, item)
  {
    var items := MapResult(enc, xs).value;
    DynVecLayout(items, bs, i);
    at, item := StartOf(items, i), items[i];
  }

  /** Output `i` starts where its offset says, counted from the vector of the outputs. */
  lemma OutputPlace(tx: RawTransaction, t: seq<seq<Byte>>, bs: seq<Byte>, i: nat) returns (at: nat, output: seq<Byte>)
    requires FieldsOf(tx, t) && RawLaid(tx, t, bs) && i < |tx.outputs|
    ensures SerializeCellOutput(tx.outputs[i]) == Ok(output)
    ensures Lies(bs, OutputsAt(tx) + 4 + 4 * i, Le(at, U32_BYTES)) && Lies(bs, OutputsAt(tx) + at, output)
  {
    at, output := DynVecOfLayout(SerializeCellOutput, tx.outputs, t[4], i);
    LiesInside(bs, OutputsAt(tx), t[4], 4 + 4 * i, Le(at, U32_BYTES));
    LiesInside(bs, OutputsAt(tx), t[4], at, output);
  }

  /** Likewise for the data of output `i`, in the last vector. */
  lemma DataPlace(tx: RawTransaction, t: seq<seq<Byte>>, bs: seq<Byte>, i: nat) returns (at: nat, data: seq<Byte>)
    requires FieldsOf(tx, t) && RawLaid(tx, t, bs) && i < |tx.outputsData|
    ensures SerializeBytes(tx.outputsData[i]) == Ok(data)
    ensures var base := OutputsAt(tx) + |t[4]|; Lies(bs, base + 4 + 4 * i, Le(at, U32_BYTES)) && Lies(bs, base + at, data)
  {
    at, data := DynVecOfLayout(SerializeBytes, tx.outputsData, t[5], i);
    LiesInside(bs, OutputsAt(tx) + |t[4]|, t[5], 4 + 4 * i, Le(at, U32_BYTES));
    LiesInside(bs, OutputsAt(tx) + |t[4]|, t[5], at, data);
  }
}
