/** What the transfer builder achieves: exact accounting, the shortest feasible choice, and completeness. */
module Selection {
  import opened Common
  import opened Molecule
  import opened Address
  import opened Transaction
  import opened TransactionSize
  import opened Witness
  import opened Transfer

  // ---------- sizes ----------

  /** A witness that carries a lock field, and one that is empty. */
  lemma WitnessSize(lock: Option<seq<Byte>>)
    requires lock.Some? ==> |lock.value| <= WITNESS_LOCK_BYTES
    ensures EncodeWitnessArgs(lock).Ok?
    ensures |EncodeWitnessArgs(lock).value| == if lock.Some? then 20 + |lock.value| else 16
  {
    if lock.Some? { BytesMeasured(lock.value); }
    var field := EncodeOptionBytes(lock).value;
    FlatThree(field, [], []);
    DynVecSize([field, [], []]);
  }

  lemma {:induction false} TotalOfEqual(b: seq<Byte>, n: nat)
    ensures Total(BytesSize, seq(n, _ => b)) == n * (4 + |b|)
  {
    if n > 0 {
      TotalOfEqual(b, n - 1);
      assert seq(n, _ => b)[1..] == seq(n - 1, _ => b);
    }
  }

  lemma WitnessesSize(lock: seq<Byte>, count: nat)
    requires |lock| == WITNESS_LOCK_BYTES && count >= 1
    ensures Witnesses(lock, count).Ok? && |Witnesses(lock, count).value| == count
    ensures VecSize(BytesSize, Witnesses(lock, count).value) == 5277 + 24 * count
  {
    WitnessSize(Some(lock));
    WitnessSize(None);
    var first, other := EncodeWitnessArgs(Some(lock)).value, EncodeWitnessArgs(None).value;
    var others := seq(count - 1, _ => other);
    TotalOfEqual(other, count - 1);
    assert ([first] + others)[1..] == others;
  }

  lemma FlatTwo(a: seq<Byte>, b: seq<Byte>)
    ensures DynSize([a, b]) == 12 + |a| + |b|
  {
    assert [a, b][1..] == [b] && [b][1..] == [];
    assert Flat([b]) == b;
  }

  lemma TransactionMeasured(raw: RawTransaction, witnesses: seq<seq<Byte>>)
    requires RawOk(raw)
    ensures var size := 12 + RawSize(raw) + VecSize(BytesSize, witnesses);
            && (SerializeTransaction(raw, witnesses).Ok? <==> RawFits(raw) && size <= U32_MAX)
            && (SerializeTransaction(raw, witnesses).Ok? ==> |SerializeTransaction(raw, witnesses).value| == size)
  {
    RawMeasured(raw);
    BytesVecMeasured(witnesses);
    if SerializeRawTransaction(raw).Ok? && SerializeBytesVec(witnesses).Ok? {
      var a, b := SerializeRawTransaction(raw).value, SerializeBytesVec(witnesses).value;
      FlatTwo(a, b);
      DynVecSize([a, b]);
    }
  }

  /** The size of a transaction once each input has its witness. */
  function SignedSize(raw: RawTransaction, count: nat): nat { RawSize(raw) + 24 * count + 5289 }

  /** Any lock field of the fixed length gives the same size. */
  lemma SignedMeasured(raw: RawTransaction, lock: seq<Byte>, count: nat)
    requires RawOk(raw) && |lock| == WITNESS_LOCK_BYTES && count >= 1
    ensures Witnesses(lock, count).Ok?
    ensures var tx := SerializeTransaction(raw, Witnesses(lock, count).value);
            && (tx.Ok? <==> RawFits(raw) && SignedSize(raw, count) <= U32_MAX)
            && (tx.Ok? ==> |tx.value| == SignedSize(raw, count))
  {
    WitnessesSize(lock, count);
    TransactionMeasured(raw, Witnesses(lock, count).value);
  }

  /** An estimator is exact when it gives the size of the transaction once it is signed. */
  ghost predicate Faithful(estimate: Estimator) {
    forall raw, n :: RawOk(raw) && n >= 1 ==>
      && (estimate(raw, n).Ok? <==> RawFits(raw) && SignedSize(raw, n) <= U32_MAX)
      && (estimate(raw, n).Ok? ==> estimate(raw, n).value.size == SignedSize(raw, n))
  }

  lemma EstimateMeasured(raw: RawTransaction, count: nat)
    requires RawOk(raw) && count >= 1
    ensures EstimateTransactionSize(raw, count).Ok? <==> RawFits(raw) && SignedSize(raw, count) <= U32_MAX
    ensures EstimateTransactionSize(raw, count).Ok? ==> EstimateTransactionSize(raw, count).value.size == SignedSize(raw, count)
  {
    SignedMeasured(raw, Placeholder(), count);
  }

  lemma EstimateFaithful()
    ensures Faithful(EstimateTransactionSize)
  {
    forall raw, n | RawOk(raw) && n >= 1
      ensures EstimateTransactionSize(raw, n).Ok? <==> RawFits(raw) && SignedSize(raw, n) <= U32_MAX
      ensures EstimateTransactionSize(raw, n).Ok? ==> EstimateTransactionSize(raw, n).value.size == SignedSize(raw, n)
    {
      EstimateMeasured(raw, n);
    }
  }

  // ---------- minimum capacities ----------

  function Scripts(o: CellOutput): nat { if o.typeScript.Some? then 2 else 1 }

  /**
   * The minimum capacity is one CKB for each byte of the serialized cell and its data, without the headers of the tables
   * (16 bytes each, and 4 more for the length of each argument list).
   */
  lemma MinimumIsOccupied(o: CellOutput, data: seq<Byte>)
    requires CellOutputOk(o) && SerializeCellOutput(o).Ok?
    ensures MinimumCellCapacity(o.lock, data, o.typeScript) ==
            100_000_000 * (|SerializeCellOutput(o).value| - 16 - 20 * Scripts(o) + |data|)
  {
    OutputMeasured(o);
  }

  /** For a plain cell that is 41 CKB, and one more for each byte of the lock arguments. */
  lemma MinimumOfLock(lock: Script)
    ensures MinimumFor(lock) == 4_100_000_000 + 100_000_000 * |lock.args|
  {
  }

  // ---------- the transactions of the builder ----------

  /** Hashes in the options have 32 bytes. */
  predicate OptionsOk(o: Options) {
    && CellDepOk(o.cellDep) && ScriptOk(o.toLock) && ScriptOk(o.changeLock) && o.amount >= 0
    && forall i :: 0 <= i < |o.cells| ==> OutPointOk(o.cells[i].outPoint)
  }

  predicate CellsOk(cells: seq<LiveCell>) {
    forall i :: 0 <= i < |cells| ==> OutPointOk(cells[i].outPoint)
  }

  /** The size on which the fee for `n` inputs is based. */
  function FeeSize(o: Options, n: nat): nat { 5467 + |o.toLock.args| + 68 * n }

  function ChangeSize(o: Options): nat { 89 + |o.changeLock.args| }

  lemma TotalOne<A>(size: A -> nat, x: A)
    ensures Total(size, [x]) == size(x)
  {
    assert [x][1..] == [];
  }

  lemma TotalTwo<A>(size: A -> nat, x: A, y: A)
    ensures Total(size, [x] + [y]) == size(x) + size(y)
  {
    assert ([x] + [y])[1..] == [y];
    TotalOne(size, y);
  }

  lemma TentativeMeasured(o: Options, selected: seq<LiveCell>)
    requires OptionsOk(o) && CellsOk(selected)
    ensures RawOk(Tentative(o, selected)) && SignedSize(Tentative(o, selected), |selected|) == FeeSize(o, |selected|)
  {
    TotalOne(OutputSize, CellOutput(o.amount, o.toLock, None));
    TotalOne(BytesSize, []);
  }

  lemma ChangeMeasured(o: Options, selected: seq<LiveCell>, change: nat)
    requires OptionsOk(o) && CellsOk(selected)
    ensures var raw := WithChange(o, Tentative(o, selected), change);
            && RawOk(raw)
            && SignedSize(raw, |selected|) == FeeSize(o, |selected|) + if change == 0 then 0 else ChangeSize(o)
  {
    TentativeMeasured(o, selected);
    TotalOne(OutputSize, CellOutput(o.amount, o.toLock, None));
    TotalOne(BytesSize, []);
    TotalTwo(OutputSize, CellOutput(o.amount, o.toLock, None), CellOutput(change, o.changeLock, None));
    TotalTwo(BytesSize, [], []);
  }

  // ---------- which of them can be serialized ----------

  predicate CellsFit(cells: seq<LiveCell>) {
    forall i :: 0 <= i < |cells| ==> OutPointFits(cells[i].outPoint)
  }

  predicate RequestFits(o: Options) {
    CellDepFits(o.cellDep) && 0 <= o.amount <= U64_MAX && ScriptFits(o.toLock)
  }

  lemma TentativeFits(o: Options, selected: seq<LiveCell>)
    requires o.amount >= 0
    ensures RawFits(Tentative(o, selected)) <==> RequestFits(o) && CellsFit(selected)
  {
    var raw := Tentative(o, selected);
    InputsFit(selected);
    assert All(CellDepFits, raw.cellDeps) <==> CellDepFits(raw.cellDeps[0]);
    assert All(CellOutputFits, raw.outputs) <==> CellOutputFits(raw.outputs[0]);
  }

  lemma InputsFit(selected: seq<LiveCell>)
    ensures All(CellInputFits, InputsOf(selected)) <==> CellsFit(selected)
  {
    forall i | 0 <= i < |selected| ensures CellInputFits(InputsOf(selected)[i]) <==> OutPointFits(selected[i].outPoint) {
    }
    if All(CellInputFits, InputsOf(selected)) {
      forall i | 0 <= i < |selected| ensures OutPointFits(selected[i].outPoint) {
        assert CellInputFits(InputsOf(selected)[i]);
      }
    }
  }

  lemma ChangeFits(o: Options, selected: seq<LiveCell>, change: nat)
    requires o.amount >= 0
    ensures RawFits(WithChange(o, Tentative(o, selected), change)) <==>
            RawFits(Tentative(o, selected)) && (change > 0 ==> change <= U64_MAX && ScriptFits(o.changeLock))
  {
    var raw := Tentative(o, selected);
    AllSnoc(CellOutputFits, raw.outputs, CellOutput(change, o.changeLock, None));
  }

  lemma AllSnoc<A>(ok: A -> bool, xs: seq<A>, x: A)
    ensures All(ok, xs + [x]) <==> All(ok, xs) && ok(x)
  {
    if All(ok, xs + [x]) {
      forall i | 0 <= i < |xs| ensures ok(xs[i]) { assert ok((xs + [x])[i]); }
      assert ok((xs + [x])[|xs|]);
    }
  }

  lemma PrefixOk(cells: seq<LiveCell>, more: seq<LiveCell>)
    requires cells <= more
    ensures CellsFit(more) ==> CellsFit(cells)
    ensures CellsOk(more) ==> CellsOk(cells)
  {
    forall i | 0 <= i < |cells| ensures cells[i] == more[i] {}
  }

  /** The size for a choice of cells, with exactly 68 bytes for each input, or an error of the serializers. */
  lemma TentativeEstimate(o: Options, estimate: Estimator, selected: seq<LiveCell>)
    requires Faithful(estimate) && OptionsOk(o) && CellsOk(selected) && selected != []
    ensures var placed := estimate(Tentative(o, selected), |selected|);
            && (placed.Ok? <==> RequestFits(o) && CellsFit(selected) && FeeSize(o, |selected|) <= U32_MAX)
            && (placed.Ok? ==> placed.value.size == FeeSize(o, |selected|))
  {
    TentativeMeasured(o, selected);
    TentativeFits(o, selected);
  }

  lemma FinalEstimate(o: Options, estimate: Estimator, selected: seq<LiveCell>, change: nat)
    requires Faithful(estimate) && OptionsOk(o) && CellsOk(selected) && selected != []
    ensures var placed := estimate(WithChange(o, Tentative(o, selected), change), |selected|);
            var size := FeeSize(o, |selected|) + if change == 0 then 0 else ChangeSize(o);
            && (placed.Ok? <==> && RequestFits(o) && CellsFit(selected) && size <= U32_MAX
                                && (change > 0 ==> change <= U64_MAX && ScriptFits(o.changeLock)))
            && (placed.Ok? ==> placed.value.size == size)
  {
    ChangeMeasured(o, selected, change);
    ChangeFits(o, selected, change);
    TentativeFits(o, selected);
  }

  // ---------- what can be paid ----------

  /** What is left of the cells after the amount and the fee. */
  function Change(o: Options, cells: seq<LiveCell>): int {
    Capacity(cells) - o.amount - FeeFor(FeeSize(o, |cells|), o.feeRate)
  }

  /** The cells pay for the transfer, exactly or with enough left for a change cell. */
  predicate Pays(o: Options, cells: seq<LiveCell>) {
    Change(o, cells) == 0 || Change(o, cells) >= MinimumFor(o.changeLock)
  }

  /** The serializers do not throw in an attempt with these cells. */
  predicate AttemptFits(o: Options, cells: seq<LiveCell>) {
    && RequestFits(o) && CellsFit(cells) && FeeSize(o, |cells|) <= U32_MAX
    && (Pays(o, cells) && Change(o, cells) > 0 ==>
          Change(o, cells) <= U64_MAX && ScriptFits(o.changeLock) && FeeSize(o, |cells|) + ChangeSize(o) <= U32_MAX)
  }

  /** An attempt throws exactly when something does not fit; otherwise it is done exactly when its cells pay. */
  lemma TryOutcome(o: Options, estimate: Estimator, cells: seq<LiveCell>)
    requires Faithful(estimate) && OptionsOk(o) && CellsOk(cells) && cells != []
    ensures Try(o, estimate, cells).Fail? <==> !AttemptFits(o, cells)
    ensures AttemptFits(o, cells) ==> (Try(o, estimate, cells).Done? <==> Pays(o, cells))
  {
    TentativeEstimate(o, estimate, cells);
    if Pays(o, cells) { FinalEstimate(o, estimate, cells, Change(o, cells)); }
  }

  // ---------- the books balance ----------

  function OutputTotal(outputs: seq<CellOutput>): nat {
    if outputs == [] then 0 else outputs[0].capacity + OutputTotal(outputs[1..])
  }

  /** The outputs: the payment, and the change if there is any. */
  function Payment(o: Options, change: nat): seq<CellOutput>
    requires o.amount >= 0
  {
    [CellOutput(o.amount, o.toLock, None)] + if change == 0 then [] else [CellOutput(change, o.changeLock, None)]
  }

  /** The transaction spends the selected cells, pays the recipient, returns the change, and loses nothing but the fee. */
  ghost predicate Balanced(o: Options, u: Unsigned) {
    var raw := u.rawTransaction;
    && o.amount >= 0 && u.changeCapacity >= 0
    && Capacity(u.selectedCells) == OutputTotal(raw.outputs) + u.fee
    && u.inputCapacity == Capacity(u.selectedCells) && u.outputCapacity == OutputTotal(raw.outputs)
    && u.outputCapacity == o.amount + u.changeCapacity
    && |raw.inputs| == |u.selectedCells|
    && (forall i :: 0 <= i < |raw.inputs| ==> raw.inputs[i] == CellInput(u.selectedCells[i].outPoint, 0))
    && raw.outputs == Payment(o, u.changeCapacity)
    && (forall i :: 0 <= i < |raw.outputs| ==> raw.outputs[i].capacity >= MinimumFor(raw.outputs[i].lock))
    && |raw.outputsData| == |raw.outputs| && (forall i :: 0 <= i < |raw.outputsData| ==> raw.outputsData[i] == [])
    && raw.version == 0 && raw.cellDeps == [o.cellDep] && raw.headerDeps == []
  }

  /** The fee is for the size without the change output, because it is fixed before that output is added. */
  ghost predicate FeeIsFor(o: Options, u: Unsigned) {
    var excess := if u.changeCapacity == 0 then 0 else ChangeSize(o);
    u.txSize >= excess && u.fee == FeeFor(u.txSize - excess, o.feeRate)
  }

  lemma OutputsBalance(o: Options, selected: seq<LiveCell>, change: nat)
    requires o.amount >= MinimumFor(o.toLock) && (change == 0 || change >= MinimumFor(o.changeLock))
    ensures var raw := WithChange(o, Tentative(o, selected), change);
            && OutputTotal(raw.outputs) == o.amount + change && raw.outputs == Payment(o, change)
            && |raw.outputsData| == |raw.outputs|
            && (forall i :: 0 <= i < |raw.outputsData| ==> raw.outputsData[i] == [])
            && forall i :: 0 <= i < |raw.outputs| ==> raw.outputs[i].capacity >= MinimumFor(raw.outputs[i].lock)
  {
    var first := CellOutput(o.amount, o.toLock, None);
    var second := CellOutput(change, o.changeLock, None);
    assert [first][1..] == [] && ([first] + [second])[1..] == [second] && [second][1..] == [];
    assert OutputTotal([second]) == change;
    assert [first] + [] == [first];
  }

  lemma FinalBalanced(o: Options, selected: seq<LiveCell>, fee: int, change: nat, witnesses: seq<seq<Byte>>, size: nat)
    requires o.amount >= MinimumFor(o.toLock) && (change == 0 || change >= MinimumFor(o.changeLock))
    requires fee == Capacity(selected) - o.amount - change
    ensures Balanced(o, Unsigned(WithChange(o, Tentative(o, selected), change), witnesses, fee, Capacity(selected),
                                 o.amount + change, change, selected, size))
  {
    OutputsBalance(o, selected, change);
  }

  /** What is returned once the fee is known. */
  lemma PaidIs(o: Options, estimate: Estimator, cells: seq<LiveCell>, fee: int)
    requires Faithful(estimate) && OptionsOk(o) && CellsOk(cells) && cells != [] && o.amount >= MinimumFor(o.toLock)
    requires TryWithFee(o, estimate, cells, fee).Done?
    ensures var u := TryWithFee(o, estimate, cells, fee).unsigned;
            && u.selectedCells == cells && u.fee == fee && Balanced(o, u)
            && u.txSize == SignedSize(u.rawTransaction, |cells|)
            && u.txSize == FeeSize(o, |cells|) + if u.changeCapacity == 0 then 0 else ChangeSize(o)
  {
    var change := Capacity(cells) - o.amount - fee;
    FinalEstimate(o, estimate, cells, change);
    ChangeMeasured(o, cells, change);
    var placed := estimate(WithChange(o, Tentative(o, cells), change), |cells|).value;
    FinalBalanced(o, cells, fee, change, placed.witnesses, placed.size);
  }

  /** What a finished attempt returns. */
  lemma DoneIs(o: Options, estimate: Estimator, cells: seq<LiveCell>)
    requires Faithful(estimate) && OptionsOk(o) && CellsOk(cells) && cells != [] && o.amount >= MinimumFor(o.toLock)
    requires Try(o, estimate, cells).Done?
    ensures var u := Try(o, estimate, cells).unsigned;
            u.selectedCells == cells && Balanced(o, u) && FeeIsFor(o, u) && u.txSize == SignedSize(u.rawTransaction, |cells|)
  {
    TentativeEstimate(o, estimate, cells);
    PaidIs(o, estimate, cells, FeeFor(FeeSize(o, |cells|), o.feeRate));
  }

  // ---------- the whole search ----------

  lemma CandidatesOk(o: Options)
    requires OptionsOk(o)
    ensures CellsOk(Candidates(o))
  {
    var cells := Candidates(o);
    forall i | 0 <= i < |cells| ensures OutPointOk(cells[i].outPoint) {
      CandidatesAre(o, cells[i]);
      assert cells[i] in multiset(cells);
      assert cells[i] in o.cells;
    }
  }

  /** None of the first `k` prefixes pays. */
  ghost predicate NonePays(o: Options, cells: seq<LiveCell>, k: nat) {
    k <= |cells| && forall j :: 0 < j <= k ==> !Pays(o, cells[..j])
  }

  /** The prefix of length `k` is the shortest that pays. */
  ghost predicate Shortest(o: Options, cells: seq<LiveCell>, k: nat) {
    0 < k <= |cells| && Pays(o, cells[..k]) && NonePays(o, cells, k - 1)
  }

  lemma PrefixOutcome(o: Options, estimate: Estimator, cells: seq<LiveCell>, n: nat)
    requires Faithful(estimate) && OptionsOk(o) && CellsOk(cells) && 0 < n <= |cells|
    ensures Try(o, estimate, cells[..n]).Fail? ==> !AttemptFits(o, cells[..n])
    ensures Try(o, estimate, cells[..n]).Skip? ==> !Pays(o, cells[..n])
    ensures Try(o, estimate, cells[..n]).Done? ==> Pays(o, cells[..n])
  {
    PrefixOk(cells[..n], cells);
    TryOutcome(o, estimate, cells[..n]);
  }

  /** The search stops at the first prefix that pays or does not fit, and fails if there is none. */
  lemma {:induction false} SearchOutcome(o: Options, estimate: Estimator, cells: seq<LiveCell>, k: nat) returns (n: nat)
    requires Faithful(estimate) && OptionsOk(o) && CellsOk(cells) && k <= |cells| && NonePays(o, cells, k)
    ensures var r := FirstDone(o, estimate, cells, k);
            && (r.Insufficient? ==> NonePays(o, cells, |cells|))
            && (r.Throws? ==> 0 < n <= |cells| && !AttemptFits(o, cells[..n]))
            && (r.Built? ==> Shortest(o, cells, n) && Try(o, estimate, cells[..n]) == Done(r.unsigned))
            && !r.BelowMinimum?
    decreases |cells| - k
  {
    n := k + 1;
    if k < |cells| {
      PrefixOutcome(o, estimate, cells, k + 1);
      if Try(o, estimate, cells[..k + 1]).Skip? {
        n := SearchOutcome(o, estimate, cells, k + 1);
      }
    }
  }

  /**
   * A transfer that is built spends the shortest prefix of the sender's cells, in ascending order of capacity, that pays;
   * inputs equal outputs plus fee, every output has its minimum capacity, the recipient gets the amount, and the fee is
   * for the serialized size without the change output.
   */
  lemma BuiltTransfer(o: Options, u: Unsigned) returns (k: nat)
    requires OptionsOk(o) && BuildOf(o) == Built(u)
    ensures Shortest(o, Candidates(o), k) && u.selectedCells == Candidates(o)[..k]
    ensures Balanced(o, u) && FeeIsFor(o, u) && u.txSize == SignedSize(u.rawTransaction, |u.selectedCells|)
  {
    EstimateFaithful();
    k := BuiltWith(o, EstimateTransactionSize, u);
  }

  lemma BuiltWith(o: Options, estimate: Estimator, u: Unsigned) returns (k: nat)
    requires Faithful(estimate) && OptionsOk(o) && BuildWith(o, estimate) == Built(u)
    ensures Shortest(o, Candidates(o), k) && u.selectedCells == Candidates(o)[..k]
    ensures Balanced(o, u) && FeeIsFor(o, u) && u.txSize == SignedSize(u.rawTransaction, |u.selectedCells|)
  {
    var cells := Candidates(o);
    CandidatesOk(o);
    k := SearchOutcome(o, estimate, cells, 0);
    PrefixOk(cells[..k], cells);
    DoneIs(o, estimate, cells[..k]);
  }

  /** At the default rate of one shannon per byte, a transfer with change pays for fewer bytes than it has. */
  lemma DefaultFee(o: Options, u: Unsigned)
    requires OptionsOk(o) && BuildOf(o) == Built(u) && o.feeRate == 1000
    ensures u.fee == u.txSize - if u.changeCapacity == 0 then 0 else 89 + |o.changeLock.args|
  {
    var k := BuiltTransfer(o, u);
  }

  /** The fee is the least whole number of shannons that pays the rate. */
  lemma FeeIsCeiling(size: nat, feeRate: nat, fee: int)
    ensures 1000 * fee >= size * feeRate <==> fee >= FeeFor(size, feeRate)
  {
    assert size * feeRate >= 0;
  }

  /** Everything the builder may have to serialize has room. */
  predicate OptionsFit(o: Options) {
    && RequestFits(o) && CellsFit(Candidates(o)) && ScriptFits(o.changeLock) && o.feeRate >= 0
    && Capacity(Candidates(o)) <= U64_MAX && FeeSize(o, |Candidates(o)|) + ChangeSize(o) <= U32_MAX
  }

  lemma {:induction false} CapacityOfPrefix(cells: seq<LiveCell>, k: nat)
    requires k <= |cells|
    ensures Capacity(cells[..k]) <= Capacity(cells)
  {
    if k < |cells| {
      CapacityOfPrefix(cells[..|cells| - 1], k);
      assert cells[..|cells| - 1][..k] == cells[..k];
    } else {
      assert cells[..k] == cells;
    }
  }

  lemma FeeNonNegative(size: nat, feeRate: int)
    requires feeRate >= 0
    ensures FeeFor(size, feeRate) >= 0
  {
    assert size * feeRate >= 0;
  }

  lemma PrefixFits(o: Options, n: nat)
    requires OptionsFit(o) && n <= |Candidates(o)|
    ensures AttemptFits(o, Candidates(o)[..n])
  {
    PrefixOk(Candidates(o)[..n], Candidates(o));
    CapacityOfPrefix(Candidates(o), n);
    FeeNonNegative(FeeSize(o, n), o.feeRate);
  }

  /** With room for everything, the builder fails exactly when no prefix pays, and never in any other way. */
  lemma BuildsWhenPossible(o: Options)
    requires OptionsOk(o) && OptionsFit(o) && o.amount >= MinimumFor(o.toLock)
    ensures BuildOf(o).Built? <==> exists k :: Shortest(o, Candidates(o), k)
    ensures BuildOf(o).Insufficient? <==> NonePays(o, Candidates(o), |Candidates(o)|)
    ensures BuildOf(o).Built? || BuildOf(o).Insufficient?
  {
    EstimateFaithful();
    BuildsWith(o, EstimateTransactionSize);
  }

  lemma BuildsWith(o: Options, estimate: Estimator)
    requires Faithful(estimate) && OptionsOk(o) && OptionsFit(o) && o.amount >= MinimumFor(o.toLock)
    ensures BuildWith(o, estimate).Built? <==> exists k :: Shortest(o, Candidates(o), k)
    ensures BuildWith(o, estimate).Insufficient? <==> NonePays(o, Candidates(o), |Candidates(o)|)
    ensures BuildWith(o, estimate).Built? || BuildWith(o, estimate).Insufficient?
  {
    CandidatesOk(o);
    var n := SearchOutcome(o, estimate, Candidates(o), 0);
    if BuildWith(o, estimate).Throws? { PrefixFits(o, n); }
  }

  // ---------- completeness ----------

  /** Some of the cells, chosen one by one. */
  function Chosen(cells: seq<LiveCell>, pick: seq<bool>): (r: seq<LiveCell>)
    requires |pick| == |cells|
    ensures |r| <= |cells|
  {
    if cells == [] then []
    else
      var rest := Chosen(cells[..|cells| - 1], pick[..|cells| - 1]);
      if pick[|cells| - 1] then rest + [cells[|cells| - 1]] else rest
  }

  lemma FeeSubadditive(a: nat, b: nat, feeRate: nat)
    ensures FeeFor(a + b, feeRate) <= FeeFor(a, feeRate) + FeeFor(b, feeRate)
  {
    assert (a + b) * feeRate == a * feeRate + b * feeRate;
    assert a * feeRate >= 0 && b * feeRate >= 0;
  }

  /** Every cell is worth at least the fee for spending it. */
  ghost predicate WorthSpending(cells: seq<LiveCell>, feeRate: int) {
    WorthAtLeast(cells, FeeFor(68, feeRate))
  }

  ghost predicate WorthAtLeast(cells: seq<LiveCell>, price: int) {
    forall i :: 0 <= i < |cells| ==> cells[i].output.capacity >= price
  }

  /** One more cell never costs more than `price`. */
  ghost predicate GrowsBy(fee: nat -> int, price: int) {
    forall n: nat :: fee(n + 1) <= fee(n) + price
  }

  /** Where one more cell never costs more than it brings, no choice is worth more than all cells together. */
  lemma {:induction false} AllIsBest(cells: seq<LiveCell>, pick: seq<bool>, fee: nat -> int, price: int)
    requires |pick| == |cells| && WorthAtLeast(cells, price) && GrowsBy(fee, price)
    ensures Capacity(Chosen(cells, pick)) - fee(|Chosen(cells, pick)|) <= Capacity(cells) - fee(|cells|)
  {
    if cells != [] {
      var n := |cells| - 1;
      var front, p, last := cells[..n], pick[..n], cells[n];
      if pick[n] {
        AllIsBest(front, p, (m: nat) => fee(m + 1), price);
        CapacitySnoc(Chosen(front, p), last);
      } else {
        AllIsBest(front, p, fee, price);
      }
    }
  }

  function FeeCurve(o: Options): nat -> int {
    (n: nat) => FeeFor(FeeSize(o, n), o.feeRate)
  }

  lemma FeeCurveGrows(o: Options)
    requires o.feeRate >= 0
    ensures GrowsBy(FeeCurve(o), FeeFor(68, o.feeRate))
  {
    forall n: nat ensures FeeCurve(o)(n + 1) <= FeeCurve(o)(n) + FeeFor(68, o.feeRate) {
      FeeSubadditive(FeeSize(o, n), 68, o.feeRate);
    }
  }

  /** No choice leaves more than all cells leave together. */
  lemma ChangeIsBest(o: Options, cells: seq<LiveCell>, pick: seq<bool>)
    requires |pick| == |cells| && o.feeRate >= 0 && WorthSpending(cells, o.feeRate)
    ensures Change(o, Chosen(cells, pick)) <= Change(o, cells)
  {
    FeeCurveGrows(o);
    AllIsBest(cells, pick, FeeCurve(o), FeeFor(68, o.feeRate));
  }

  /**
   * If the builder gives up, no choice among the sender's cells could pay amount and fee and leave enough for a change
   * cell, provided every cell is worth the fee for its own 68 bytes.
   */
  lemma SelectionComplete(o: Options, pick: seq<bool>)
    requires OptionsOk(o) && BuildOf(o) == Insufficient && o.feeRate >= 0 && WorthSpending(Candidates(o), o.feeRate)
    requires |pick| == |Candidates(o)|
    ensures Change(o, Chosen(Candidates(o), pick)) < MinimumFor(o.changeLock)
  {
    EstimateFaithful();
    CompleteWith(o, EstimateTransactionSize, pick);
  }

  lemma CompleteWith(o: Options, estimate: Estimator, pick: seq<bool>)
    requires Faithful(estimate) && OptionsOk(o) && BuildWith(o, estimate) == Insufficient && o.feeRate >= 0
    requires WorthSpending(Candidates(o), o.feeRate) && |pick| == |Candidates(o)|
    ensures Change(o, Chosen(Candidates(o), pick)) < MinimumFor(o.changeLock)
  {
    CandidatesOk(o);
    var n := SearchOutcome(o, estimate, Candidates(o), 0);
    ChangeIsBest(o, Candidates(o), pick);
    AllDoNotPay(o, Candidates(o));
  }

  lemma AllDoNotPay(o: Options, cells: seq<LiveCell>)
    requires o.feeRate >= 0 && o.amount >= 0 && NonePays(o, cells, |cells|)
    ensures Change(o, cells) < MinimumFor(o.changeLock)
  {
    FeeNonNegative(FeeSize(o, 0), o.feeRate);
    assert cells[..|cells|] == cells;
  }

  // ---------- why completeness is stated with these limits ----------

  function ZeroHash(): seq<Byte> { seq(32, _ => 0) }

  function PlainLock(): Script { Script(ZeroHash(), Type, ZeroHash()) }

  function PlainCell(index: nat, capacity: nat): LiveCell {
    LiveCell(OutPoint(ZeroHash(), index), CellOutput(capacity, PlainLock(), None))
  }

  /** A transfer of the smallest amount, from a cell of one shannon and a larger one. */
  function TwoCells(capacity: nat, feeRate: int): Options {
    Options([PlainCell(0, 1), PlainCell(1, capacity)], MinimumFor(PlainLock()), feeRate, PlainLock(), PlainLock(),
            PlainLock(), CellDep(OutPoint(ZeroHash(), 0), DepGroup))
  }

  lemma TwoCandidates(capacity: nat, feeRate: int)
    requires capacity >= 1
    ensures Candidates(TwoCells(capacity, feeRate)) == [PlainCell(0, 1), PlainCell(1, capacity)]
    ensures OptionsOk(TwoCells(capacity, feeRate))
  {
    var a, b := PlainCell(0, 1), PlainCell(1, capacity);
    assert [a, b][..1] == [a] && [a][..0] == [];
    assert Sorted([a]) == [a];
    assert Sorted([a, b]) == [a, b];
    assert Own([a], PlainLock()) == [a];
  }

  lemma TwoCapacities(capacity: nat)
    ensures var a, b := PlainCell(0, 1), PlainCell(1, capacity);
            Capacity([a]) == 1 && Capacity([b]) == capacity && Capacity([a, b]) == 1 + capacity
  {
    var a, b := PlainCell(0, 1), PlainCell(1, capacity);
    assert [a, b][..1] == [a] && [a][..0] == [] && [b][..0] == [];
  }

  lemma TwoFit(capacity: nat, feeRate: nat)
    requires 1 <= capacity <= 0x1_0000_0000_0000
    ensures OptionsFit(TwoCells(capacity, feeRate))
  {
    TwoCandidates(capacity, feeRate);
    TwoCapacities(capacity);
  }

  /** The builder gives up on two cells that do not pay as prefixes. */
  lemma GivesUp(o: Options, a: LiveCell, b: LiveCell)
    requires OptionsOk(o) && OptionsFit(o) && o.amount >= MinimumFor(o.toLock) && Candidates(o) == [a, b]
    requires !Pays(o, [a]) && !Pays(o, [a, b])
    ensures BuildOf(o) == Insufficient
  {
    assert [a, b][..1] == [a] && [a, b][..2] == [a, b];
    assert NonePays(o, [a, b], 2);
    BuildsWhenPossible(o);
  }

  lemma TwoChanges(capacity: nat, feeRate: nat)
    requires feeRate == 0 || feeRate == 1000
    ensures var o, a, b := TwoCells(capacity, feeRate), PlainCell(0, 1), PlainCell(1, capacity);
            var minimum, fee := MinimumFor(PlainLock()), if feeRate == 0 then 0 else 5567;
            && Change(o, [a]) == 1 - minimum - fee && Change(o, [b]) == capacity - minimum - fee
            && Change(o, [a, b]) == 1 + capacity - minimum - fee - if feeRate == 0 then 0 else 68
  {
    TwoCapacities(capacity);
  }

  /** An exact match that is not a prefix is not found: the second cell alone pays amount and fee to the last shannon. */
  lemma ExactMatchMissed(o: Options, a: LiveCell, b: LiveCell)
    requires var minimum := MinimumFor(PlainLock());
             o == TwoCells(minimum, 0) && a == PlainCell(0, 1) && b == PlainCell(1, minimum)
    ensures Candidates(o) == [a, b] && WorthSpending(Candidates(o), o.feeRate)
    ensures BuildOf(o) == Insufficient && Change(o, [b]) == 0
  {
    var capacity := MinimumFor(PlainLock());
    TwoCandidates(capacity, 0);
    TwoFit(capacity, 0);
    TwoChanges(capacity, 0);
    GivesUp(o, a, b);
  }

  /** A cell that is not worth its own fee can spoil a choice that leaves enough for a change cell. */
  lemma DustSpoils(o: Options, a: LiveCell, b: LiveCell)
    requires var capacity := 2 * MinimumFor(PlainLock()) + 5567;
             o == TwoCells(capacity, 1000) && a == PlainCell(0, 1) && b == PlainCell(1, capacity)
    ensures Candidates(o) == [a, b] && !WorthSpending(Candidates(o), o.feeRate)
    ensures BuildOf(o) == Insufficient && Change(o, [b]) == MinimumFor(o.changeLock)
  {
    var capacity := 2 * MinimumFor(PlainLock()) + 5567;
    TwoCandidates(capacity, 1000);
    TwoFit(capacity, 1000);
    TwoChanges(capacity, 1000);
    assert [a, b][0].output.capacity < FeeFor(68, 1000);
    GivesUp(o, a, b);
  }

  /** A transfer that is built: the first cell alone does not pay, both together do. */
  lemma BuiltExample(o: Options, a: LiveCell, b: LiveCell)
    requires var capacity := 3 * MinimumFor(PlainLock());
             o == TwoCells(capacity, 0) && a == PlainCell(0, 1) && b == PlainCell(1, capacity)
    ensures OptionsOk(o) && BuildOf(o).Built?
  {
    var capacity := 3 * MinimumFor(PlainLock());
    TwoCandidates(capacity, 0);
    TwoFit(capacity, 0);
    TwoChanges(capacity, 0);
    assert [a, b][..1] == [a] && [a, b][..2] == [a, b];
    assert Shortest(o, [a, b], 2);
    BuildsWhenPossible(o);
  }
}
