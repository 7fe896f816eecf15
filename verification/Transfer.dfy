/** The transfer builder: which cells it spends, what it pays, and what it leaves. */
module Transfer {
  import opened Common
  import opened Molecule
  import opened Address
  import opened Transaction
  import opened TransactionSize
  import opened Witness

  const SHANNONS_PER_CKB := 100_000_000
  const SCRIPT_SIZE_BASE := 33
  const CELL_OUTPUT_BASE := 8

  datatype LiveCell = LiveCell(outPoint: OutPoint, output: CellOutput)

  datatype Options = Options(
    cells: seq<LiveCell>, amount: int, feeRate: int, fromLock: Script, toLock: Script, changeLock: Script, cellDep: CellDep)

  datatype Unsigned = Unsigned(
    rawTransaction: RawTransaction, placeholders: seq<seq<Byte>>, fee: int, inputCapacity: int, outputCapacity: int,
    changeCapacity: int, selectedCells: seq<LiveCell>, txSize: nat)

  /** `Throws` is any error of the serializers. */
  datatype Build = Built(unsigned: Unsigned) | BelowMinimum | Insufficient | Throws

  // ---------- sizes and fees ----------

  /** `minimumCellCapacity` */
  function MinimumCellCapacity(lock: Script, data: seq<Byte>, typeScript: Option<Script>): nat {
    (CELL_OUTPUT_BASE + (SCRIPT_SIZE_BASE + |lock.args|) +
     (if typeScript.Some? then SCRIPT_SIZE_BASE + |typeScript.value.args| else 0) + |data|) * SHANNONS_PER_CKB
  }

  function MinimumFor(lock: Script): nat { MinimumCellCapacity(lock, [], None) }

  /** One witness per input: the first carries the lock field, the others are empty tables. */
  function Witnesses(lock: seq<Byte>, count: nat): (r: Result<seq<seq<Byte>>>) {
    if count == 0 then Ok([])
    else
      var first :- EncodeWitnessArgs(Some(lock));
      var other :- EncodeWitnessArgs(None);
      Ok([first] + seq(count - 1, _ => other))
  }

  function Placeholder(): (lock: seq<Byte>)
    ensures |lock| == WITNESS_LOCK_BYTES
  {
    seq(WITNESS_LOCK_BYTES, _ => 0)
  }

  function SerializeTransaction(raw: RawTransaction, witnesses: seq<seq<Byte>>): (r: Result<seq<Byte>>) {
    var rawBytes :- SerializeRawTransaction(raw);
    var witnessBytes :- SerializeBytesVec(witnesses);
    SerializeDynVec([rawBytes, witnessBytes])
  }

  /** A transaction with placeholders for its witnesses, and its serialized size. */
  datatype Placed = Placed(witnesses: seq<seq<Byte>>, size: nat)

  /** `withPlaceholderWitnesses` and `estimateTransactionSize` */
  function EstimateTransactionSize(raw: RawTransaction, count: nat): (r: Result<Placed>) {
    var witnesses :- Witnesses(Placeholder(), count);
    var bs :- SerializeTransaction(raw, witnesses);
    Ok(Placed(witnesses, |bs|))
  }

  /** The builder is written, and reasoned about, for any way to estimate sizes. */
  type Estimator = (RawTransaction, nat) -> Result<Placed>

  /** Division of big integers in JavaScript drops the fraction. */
  function Quotient(a: int, b: nat): int
    requires b > 0
  {
    if a >= 0 then a / b else -(-a / b)
  }

  /** `estimateTransactionFee`, from the size */
  function FeeFor(size: nat, feeRate: int): int { Quotient(size * feeRate + 999, 1000) }

  // ---------- one attempt ----------

  function Capacity(cells: seq<LiveCell>): nat {
    if cells == [] then 0 else Capacity(cells[..|cells| - 1]) + cells[|cells| - 1].output.capacity
  }

  function InputsOf(cells: seq<LiveCell>): (inputs: seq<CellInput>)
    ensures |inputs| == |cells|
  {
    seq(|cells|, i requires 0 <= i < |cells| => CellInput(cells[i].outPoint, 0))
  }

  /** The transaction before there is change. */
  function Tentative(o: Options, selected: seq<LiveCell>): RawTransaction
    requires o.amount >= 0
  {
    RawTransaction(0, [o.cellDep], [], InputsOf(selected), [CellOutput(o.amount, o.toLock, None)], [[]])
  }

  function WithChange(o: Options, raw: RawTransaction, change: nat): RawTransaction {
    if change == 0 then raw
    else raw.(outputs := raw.outputs + [CellOutput(change, o.changeLock, None)], outputsData := raw.outputsData + [[]])
  }

  datatype Attempt = Skip | Fail | Done(unsigned: Unsigned)

  function Finalize(o: Options, estimate: Estimator, selected: seq<LiveCell>, fee: int, change: nat): Attempt
    requires o.amount >= 0
  {
    var raw := WithChange(o, Tentative(o, selected), change);
    var placed := estimate(raw, |selected|);
    if placed.Err? then Fail
    else Done(Unsigned(raw, placed.value.witnesses, fee, Capacity(selected), o.amount + change, change, selected,
                       placed.value.size))
  }

  function TryWithFee(o: Options, estimate: Estimator, selected: seq<LiveCell>, fee: int): Attempt
    requires o.amount >= 0
  {
    var change := Capacity(selected) - o.amount - fee;
    if change < 0 || 0 < change < MinimumFor(o.changeLock) then Skip
    else Finalize(o, estimate, selected, fee, change)
  }

  /** What the body of the loop does once `selected` are the cells picked so far. */
  function Try(o: Options, estimate: Estimator, selected: seq<LiveCell>): Attempt
    requires o.amount >= 0
  {
    var placed := estimate(Tentative(o, selected), |selected|);
    if placed.Err? then Fail else TryWithFee(o, estimate, selected, FeeFor(placed.value.size, o.feeRate))
  }

  // ---------- the order of the cells ----------

  ghost predicate Ascending(cells: seq<LiveCell>) {
    forall i, j :: 0 <= i < j < |cells| ==> cells[i].output.capacity <= cells[j].output.capacity
  }

  function Insert(cells: seq<LiveCell>, c: LiveCell): seq<LiveCell> {
    if cells == [] || cells[|cells| - 1].output.capacity <= c.output.capacity then cells + [c]
    else Insert(cells[..|cells| - 1], c) + [cells[|cells| - 1]]
  }

  /** `sort` with a comparison of capacities: stable, ascending. */
  function Sorted(cells: seq<LiveCell>): seq<LiveCell> {
    if cells == [] then [] else Insert(Sorted(cells[..|cells| - 1]), cells[|cells| - 1])
  }

  function Own(cells: seq<LiveCell>, lock: Script): seq<LiveCell> {
    if cells == [] then []
    else
      var rest := Own(cells[..|cells| - 1], lock);
      if cells[|cells| - 1].output.lock == lock then rest + [cells[|cells| - 1]] else rest
  }

  /** The cells the builder may spend, in the order in which it does. */
  function Candidates(o: Options): seq<LiveCell> { Own(Sorted(o.cells), o.fromLock) }

  ghost predicate AtMost(cells: seq<LiveCell>, bound: nat) {
    forall i :: 0 <= i < |cells| ==> cells[i].output.capacity <= bound
  }

  lemma {:induction false} InsertAtMost(cells: seq<LiveCell>, c: LiveCell, bound: nat)
    requires AtMost(cells, bound) && c.output.capacity <= bound
    ensures AtMost(Insert(cells, c), bound)
  {
    if cells != [] { InsertAtMost(cells[..|cells| - 1], c, bound); }
  }

  lemma AscendingSnoc(cells: seq<LiveCell>, c: LiveCell)
    requires Ascending(cells) && AtMost(cells, c.output.capacity)
    ensures Ascending(cells + [c])
  {
  }

  lemma {:induction false} InsertAscends(cells: seq<LiveCell>, c: LiveCell)
    requires Ascending(cells)
    ensures Ascending(Insert(cells, c))
  {
    if cells != [] && cells[|cells| - 1].output.capacity > c.output.capacity {
      var front, last := cells[..|cells| - 1], cells[|cells| - 1];
      InsertAscends(front, c);
      InsertAtMost(front, c, last.output.capacity);
      AscendingSnoc(Insert(front, c), last);
    }
  }

  lemma {:induction false} InsertPermutes(cells: seq<LiveCell>, c: LiveCell)
    ensures multiset(Insert(cells, c)) == multiset(cells) + multiset{c}
  {
    if cells != [] {
      var front, last := cells[..|cells| - 1], cells[|cells| - 1];
      InsertPermutes(front, c);
      assert cells == front + [last];
    }
  }

  function WithCapacity(cells: seq<LiveCell>, capacity: nat): seq<LiveCell> {
    if cells == [] then []
    else
      var rest := WithCapacity(cells[..|cells| - 1], capacity);
      if cells[|cells| - 1].output.capacity == capacity then rest + [cells[|cells| - 1]] else rest
  }

  lemma WithCapacitySnoc(cells: seq<LiveCell>, c: LiveCell, capacity: nat)
    ensures WithCapacity(cells + [c], capacity) ==
            if c.output.capacity == capacity then WithCapacity(cells, capacity) + [c] else WithCapacity(cells, capacity)
  {
    assert (cells + [c])[..|cells|] == cells;
  }

  lemma {:induction false} InsertStable(cells: seq<LiveCell>, c: LiveCell, capacity: nat)
    ensures WithCapacity(Insert(cells, c), capacity) == WithCapacity(cells + [c], capacity)
  {
    if cells != [] && cells[|cells| - 1].output.capacity > c.output.capacity {
      var front, last := cells[..|cells| - 1], cells[|cells| - 1];
      InsertStable(front, c, capacity);
      WithCapacitySnoc(Insert(front, c), last, capacity);
      WithCapacitySnoc(front, c, capacity);
      WithCapacitySnoc(cells, c, capacity);
    }
  }

  lemma {:induction false} SortedAscends(cells: seq<LiveCell>)
    ensures Ascending(Sorted(cells))
  {
    if cells != [] {
      SortedAscends(cells[..|cells| - 1]);
      InsertAscends(Sorted(cells[..|cells| - 1]), cells[|cells| - 1]);
    }
  }

  lemma {:induction false} SortedPermutes(cells: seq<LiveCell>)
    ensures multiset(Sorted(cells)) == multiset(cells)
  {
    if cells != [] {
      var front, last := cells[..|cells| - 1], cells[|cells| - 1];
      SortedPermutes(front);
      InsertPermutes(Sorted(front), last);
      assert cells == front + [last];
    }
  }

  /** Cells of equal capacity stay in their original order. */
  lemma {:induction false} SortedStable(cells: seq<LiveCell>, capacity: nat)
    ensures WithCapacity(Sorted(cells), capacity) == WithCapacity(cells, capacity)
  {
    if cells != [] {
      var front, last := cells[..|cells| - 1], cells[|cells| - 1];
      SortedStable(front, capacity);
      InsertStable(Sorted(front), last, capacity);
      WithCapacitySnoc(Sorted(front), last, capacity);
    }
  }

  lemma {:induction false} OwnFacts(cells: seq<LiveCell>, lock: Script)
    requires Ascending(cells)
    ensures Ascending(Own(cells, lock))
    ensures forall c :: multiset(Own(cells, lock))[c] == if c.output.lock == lock then multiset(cells)[c] else 0
  {
    if cells != [] {
      var front, last := cells[..|cells| - 1], cells[|cells| - 1];
      OwnFacts(front, lock);
      assert cells == front + [last];
      if last.output.lock == lock {
        forall i | 0 <= i < |Own(front, lock)| ensures Own(front, lock)[i].output.capacity <= last.output.capacity {
          assert Own(front, lock)[i] in multiset(Own(front, lock));
          assert Own(front, lock)[i] in multiset(front);
        }
        AscendingSnoc(Own(front, lock), last);
      }
    }
  }

  /** The candidates are exactly the cells under the sender's lock, in ascending order of capacity. */
  lemma CandidatesAre(o: Options, c: LiveCell)
    ensures Ascending(Candidates(o))
    ensures multiset(Candidates(o))[c] == if c.output.lock == o.fromLock then multiset(o.cells)[c] else 0
  {
    SortedAscends(o.cells);
    SortedPermutes(o.cells);
    OwnFacts(Sorted(o.cells), o.fromLock);
  }

  // ---------- the builder ----------

  /** The first attempt, from the `k`th candidate on, that is not skipped. */
  function FirstDone(o: Options, estimate: Estimator, cells: seq<LiveCell>, k: nat): Build
    requires o.amount >= 0
    decreases |cells| - k
  {
    if k >= |cells| then Insufficient
    else
      var attempt := Try(o, estimate, cells[..k + 1]);
      if attempt.Done? then Built(attempt.unsigned)
      else if attempt.Fail? then Throws
      else FirstDone(o, estimate, cells, k + 1)
  }

  /** What the builder does, as a choice among the prefixes of its candidates. */
  function BuildWith(o: Options, estimate: Estimator): Build {
    if o.amount < MinimumFor(o.toLock) then BelowMinimum else FirstDone(o, estimate, Candidates(o), 0)
  }

  function BuildOf(o: Options): Build { BuildWith(o, EstimateTransactionSize) }

  /** The first `k` attempts are skipped. */
  ghost predicate Skipped(o: Options, estimate: Estimator, cells: seq<LiveCell>, k: nat)
    requires o.amount >= 0
  {
    k <= |cells| && forall j :: 0 < j <= k ==> Try(o, estimate, cells[..j]).Skip?
  }

  lemma {:induction false} FirstDoneFrom(o: Options, estimate: Estimator, cells: seq<LiveCell>, k: nat)
    requires o.amount >= 0 && Skipped(o, estimate, cells, k)
    ensures FirstDone(o, estimate, cells, 0) == FirstDone(o, estimate, cells, k)
    decreases k
  {
    if k > 0 { FirstDoneFrom(o, estimate, cells, k - 1); }
  }

  lemma NextAttempt(o: Options, estimate: Estimator, cells: seq<LiveCell>, k: nat, attempt: Attempt)
    requires o.amount >= 0 && k < |cells| && Skipped(o, estimate, cells, k) && attempt == Try(o, estimate, cells[..k + 1])
    ensures attempt.Skip? ==> Skipped(o, estimate, cells, k + 1)
    ensures attempt.Fail? ==> FirstDone(o, estimate, cells, 0) == Throws
    ensures attempt.Done? ==> FirstDone(o, estimate, cells, 0) == Built(attempt.unsigned)
  {
    FirstDoneFrom(o, estimate, cells, k);
  }

  lemma OwnSnoc(cells: seq<LiveCell>, i: nat, lock: Script)
    requires i < |cells|
    ensures Own(cells[..i + 1], lock) ==
            if cells[i].output.lock == lock then Own(cells[..i], lock) + [cells[i]] else Own(cells[..i], lock)
  {
    assert cells[..i + 1][..i] == cells[..i];
  }

  lemma {:induction false} OwnPrefix(cells: seq<LiveCell>, i: nat, lock: Script)
    requires i <= |cells|
    ensures Own(cells[..i], lock) <= Own(cells, lock)
    decreases |cells| - i
  {
    if i < |cells| {
      OwnSnoc(cells, i, lock);
      OwnPrefix(cells, i + 1, lock);
    } else {
      assert cells[..i] == cells;
    }
  }

  lemma CapacitySnoc(cells: seq<LiveCell>, c: LiveCell)
    ensures Capacity(cells + [c]) == Capacity(cells) + c.output.capacity
  {
    assert (cells + [c])[..|cells|] == cells;
  }

  /** The body of the loop after the next cell has been added. */
  method TryCells(o: Options, estimate: Estimator, selectedCells: seq<LiveCell>, inputCapacity: nat) returns (attempt: Attempt)
    requires o.amount >= 0 && inputCapacity == Capacity(selectedCells)
    ensures attempt == Try(o, estimate, selectedCells)
  {
    var tentative := Tentative(o, selectedCells);
    var placed := estimate(tentative, |selectedCells|);
    if placed.Err? {
      return Fail;
    }
    var fee := FeeFor(placed.value.size, o.feeRate);
    var adjustedChange := inputCapacity - o.amount - fee;
    if adjustedChange < 0 {
      return Skip;
    }
    if adjustedChange > 0 && adjustedChange < MinimumFor(o.changeLock) {
      return Skip;
    }
    var finalized := WithChange(o, tentative, adjustedChange);
    placed := estimate(finalized, |selectedCells|);
    if placed.Err? {
      return Fail;
    }
    attempt := Done(Unsigned(finalized, placed.value.witnesses, fee, inputCapacity, o.amount + adjustedChange,
                             adjustedChange, selectedCells, placed.value.size));
  }

  /** `buildTransferTransaction` */
  method BuildTransferTransaction(o: Options) returns (r: Build)
    ensures r == BuildOf(o)
  {
    if o.amount < MinimumFor(o.toLock) {
      return BelowMinimum;
    }
    var sortedCells := Sorted(o.cells);
    r := SelectCells(o, EstimateTransactionSize, sortedCells);
  }

  /** The loop over the sorted cells. */
  method SelectCells(o: Options, estimate: Estimator, sortedCells: seq<LiveCell>) returns (r: Build)
    requires o.amount >= 0
    ensures r == FirstDone(o, estimate, Own(sortedCells, o.fromLock), 0)
  {
    var selectedCells, inputCapacity: nat := [], 0;
    ghost var all := Own(sortedCells, o.fromLock);
    for i := 0 to |sortedCells|
      invariant selectedCells == Own(sortedCells[..i], o.fromLock) && selectedCells <= all
      invariant inputCapacity == Capacity(selectedCells)
      invariant Skipped(o, estimate, all, |selectedCells|)
    {
      var cell := sortedCells[i];
      OwnSnoc(sortedCells, i, o.fromLock);
      OwnPrefix(sortedCells, i + 1, o.fromLock);
      if cell.output.lock != o.fromLock {
        continue;
      }
      ghost var k := |selectedCells|;
      CapacitySnoc(selectedCells, cell);
      selectedCells := selectedCells + [cell];
      inputCapacity := inputCapacity + cell.output.capacity;
      assert selectedCells == all[..k + 1];
      var attempt := TryCells(o, estimate, selectedCells, inputCapacity);
      NextAttempt(o, estimate, all, k, attempt);
      if attempt.Done? {
        return Built(attempt.unsigned);
      }
      if attempt.Fail? {
        return Throws;
      }
    }
    assert sortedCells[..|sortedCells|] == sortedCells;
    FirstDoneFrom(o, estimate, all, |all|);
    r := Insufficient;
  }
}
