/** From a transfer request to a transaction that the lock script accepts. */
module Signing {
  import opened Common
  import opened Molecule
  import opened Address
  import opened Transaction
  import opened TransactionSize
  import opened Witness
  import opened Transfer
  import opened Selection

  datatype Keypair = Keypair(publicKey: seq<Byte>, secretKey: seq<Byte>)

  datatype Signed = Signed(raw: RawTransaction, witnesses: seq<seq<Byte>>, txHash: seq<Byte>, witnessLock: seq<Byte>)

  function WitnessLockFor(publicKey: seq<Byte>, signature: seq<Byte>): (r: Result<seq<Byte>>)
    ensures r.Ok? ==> |r.value| == WITNESS_LOCK_BYTES
  {
    if FixedLengths(Parsed(publicKey, signature)) then Ok(LockBytes(Parsed(publicKey, signature))) else Err
  }

  function SealWith(raw: RawTransaction, txHash: seq<Byte>, keys: Keypair, seed: seq<Byte>, count: nat, crypto: Crypto)
    : (r: Result<Signed>)
  {
    var lock :- WitnessLockFor(keys.publicKey, crypto.sign(keys.secretKey, txHash, seed));
    var witnesses :- Witnesses(lock, count);
    Ok(Signed(raw, witnesses, txHash, lock))
  }

  /** `sealTransaction` */
  function SealTransaction(raw: RawTransaction, keys: Keypair, seed: seq<Byte>, count: nat, crypto: Crypto): (r: Result<Signed>) {
    var preimage :- SerializeRawTransaction(raw);
    SealWith(raw, crypto.hash(preimage), keys, seed, count, crypto)
  }

  /** Sealing what the builder returned. */
  function SignTransfer(b: Build, keys: Keypair, seed: seq<Byte>, crypto: Crypto): (r: Result<Signed>) {
    if b.Built? then SealTransaction(b.unsigned.rawTransaction, keys, seed, |b.unsigned.selectedCells|, crypto) else Err
  }

  // ---------- the size that was paid for ----------

  /** The size that the builder reports is the size of the transaction it will be. */
  lemma SizeIsKept(o: Options, keys: Keypair, seed: seq<Byte>, crypto: Crypto, u: Unsigned, signed: Signed)
    requires OptionsOk(o) && BuildOf(o) == Built(u) && SignTransfer(Built(u), keys, seed, crypto) == Ok(signed)
    ensures SerializeTransaction(signed.raw, signed.witnesses).Ok?
    ensures |SerializeTransaction(signed.raw, signed.witnesses).value| == u.txSize
  {
    EstimateFaithful();
    SealedIs(u.rawTransaction, keys, seed, |u.selectedCells|, crypto, signed);
    SizeIsKeptWith(o, EstimateTransactionSize, u, signed);
  }

  /** A sealed transaction consists of the raw one and of witnesses around a lock field of the fixed length. */
  ghost predicate SealOf(raw: RawTransaction, count: nat, signed: Signed) {
    && signed.raw == raw && |signed.witnessLock| == WITNESS_LOCK_BYTES
    && Witnesses(signed.witnessLock, count) == Ok(signed.witnesses)
  }

  lemma SealedIs(raw: RawTransaction, keys: Keypair, seed: seq<Byte>, count: nat, crypto: Crypto, signed: Signed)
    requires SealTransaction(raw, keys, seed, count, crypto) == Ok(signed)
    ensures SealOf(raw, count, signed)
  {
  }

  lemma SizeIsKeptWith(o: Options, estimate: Estimator, u: Unsigned, signed: Signed)
    requires Faithful(estimate) && OptionsOk(o) && BuildWith(o, estimate) == Built(u)
    requires SealOf(u.rawTransaction, |u.selectedCells|, signed)
    ensures SerializeTransaction(signed.raw, signed.witnesses).Ok?
    ensures |SerializeTransaction(signed.raw, signed.witnesses).value| == u.txSize
  {
    var k := BuiltWith(o, estimate, u);
    BuiltEstimate(o, estimate, u);
    SealedSize(u.rawTransaction, signed, |u.selectedCells|);
  }

  /** What was built has been measured. */
  lemma BuiltEstimate(o: Options, estimate: Estimator, u: Unsigned)
    requires Faithful(estimate) && OptionsOk(o) && BuildWith(o, estimate) == Built(u)
    ensures u.selectedCells != [] && RawOk(u.rawTransaction) && RawFits(u.rawTransaction)
    ensures SignedSize(u.rawTransaction, |u.selectedCells|) <= U32_MAX
  {
    var cells := Candidates(o);
    CandidatesOk(o);
    var k := SearchOutcome(o, estimate, cells, 0);
    PrefixOk(cells[..k], cells);
    TentativeEstimate(o, estimate, cells[..k]);
    FinalEstimate(o, estimate, cells[..k], Change(o, cells[..k]));
    ChangeMeasured(o, cells[..k], Change(o, cells[..k]));
    ChangeFits(o, cells[..k], Change(o, cells[..k]));
    TentativeFits(o, cells[..k]);
  }

  lemma SealedSize(raw: RawTransaction, signed: Signed, count: nat)
    requires RawOk(raw) && RawFits(raw) && count >= 1 && SignedSize(raw, count) <= U32_MAX
    requires SealOf(raw, count, signed)
    ensures SerializeTransaction(signed.raw, signed.witnesses).Ok?
    ensures |SerializeTransaction(signed.raw, signed.witnesses).value| == SignedSize(raw, count)
  {
    SignedMeasured(raw, signed.witnessLock, count);
  }

  // ---------- on chain ----------

  /** The keys belong together: what the secret key signs, the public key verifies, in the sizes of the parameter set. */
  ghost predicate Matching(keys: Keypair, crypto: Crypto) {
    && |keys.publicKey| == PUBLIC_KEY_LEN && crypto.isKey(keys.publicKey)
    && (forall m, seed :: |crypto.sign(keys.secretKey, m, seed)| == SIGNATURE_LEN)
    && (forall m, seed :: crypto.verify(keys.publicKey, m, crypto.sign(keys.secretKey, m, seed)))
  }

  /** The first input under a lock: the leader of its script group. */
  function Leader(locks: seq<Script>, script: Script): (i: nat)
    ensures i <= |locks| && (i < |locks| ==> locks[i] == script)
    ensures forall j :: 0 <= j < i ==> locks[j] != script
  {
    if locks == [] || locks[0] == script then 0 else 1 + Leader(locks[1..], script)
  }

  /** What the script group of `script` loads when a transaction spends cells with these locks. */
  function LoadsOf(raw: RawTransaction, witnesses: seq<seq<Byte>>, locks: seq<Script>, script: Script, crypto: Crypto): Loads {
    var preimage := SerializeRawTransaction(raw);
    var leader := Leader(locks, script);
    Loads(Ok(script.args),
          if preimage.Ok? then Ok(crypto.hash(preimage.value)) else Err,
          if leader < |witnesses| then Ok(witnesses[leader]) else Err)
  }

  function LocksOf(cells: seq<LiveCell>): (locks: seq<Script>)
    ensures |locks| == |cells|
  {
    seq(|cells|, i requires 0 <= i < |cells| => cells[i].output.lock)
  }

  /** The lock script of the sender's cells returns zero. */
  ghost predicate Accepted(o: Options, crypto: Crypto, u: Unsigned, signed: Signed) {
    ProgramEntry(LoadsOf(signed.raw, signed.witnesses, LocksOf(u.selectedCells), o.fromLock, crypto), crypto) == 0
  }

  lemma {:induction false} BuiltSelects(o: Options, estimate: Estimator, cells: seq<LiveCell>, k: nat)
    requires o.amount >= 0 && FirstDone(o, estimate, cells, k).Built?
    ensures var u := FirstDone(o, estimate, cells, k).unsigned; u.selectedCells != [] && u.selectedCells <= cells
    decreases |cells| - k
  {
    if k < |cells| && Try(o, estimate, cells[..k + 1]).Skip? { BuiltSelects(o, estimate, cells, k + 1); }
  }

  /** Every cell that is spent is under the sender's lock. */
  lemma SpendsOwn(o: Options, estimate: Estimator, u: Unsigned)
    requires BuildWith(o, estimate) == Built(u)
    ensures u.selectedCells != [] && forall i :: 0 <= i < |u.selectedCells| ==> u.selectedCells[i].output.lock == o.fromLock
  {
    BuiltSelects(o, estimate, Candidates(o), 0);
    forall i | 0 <= i < |u.selectedCells| ensures u.selectedCells[i].output.lock == o.fromLock {
      var c := u.selectedCells[i];
      assert c == Candidates(o)[i];
      assert c in multiset(Candidates(o));
      CandidatesAre(o, c);
    }
  }

  /** A lock field written by the wallet unlocks. */
  lemma SealUnlocks(txHash: seq<Byte>, keys: Keypair, seed: seq<Byte>, crypto: Crypto, args: seq<Byte>)
    requires Matching(keys, crypto) && args == crypto.hash(keys.publicKey) && |args| == 32
    ensures var lock := WitnessLockFor(keys.publicKey, crypto.sign(keys.secretKey, txHash, seed));
            lock.Ok? && Unlocked(args, txHash, lock.value, crypto)
  {
    var p := Parsed(keys.publicKey, crypto.sign(keys.secretKey, txHash, seed));
    assert LockBytes(p) <= LockBytes(p);
    assert Unlocks(args, txHash, LockBytes(p), p, crypto);
  }

  /** The first witness of a sealed transaction carries the lock field. */
  lemma FirstWitness(lock: seq<Byte>, count: nat)
    requires |lock| == WITNESS_LOCK_BYTES && count >= 1
    ensures Witnesses(lock, count).Ok? && |Witnesses(lock, count).value| == count
    ensures LockField(Witnesses(lock, count).value[0]) == Some(lock)
  {
    WitnessesSize(lock, count);
    WitnessSize(Some(lock));
    WitnessArgsRoundTrip(Some(lock));
  }

  lemma SealAccepted(raw: RawTransaction, preimage: seq<Byte>, keys: Keypair, seed: seq<Byte>, count: nat, crypto: Crypto,
                     locks: seq<Script>, script: Script)
    requires Matching(keys, crypto) && script.args == crypto.hash(keys.publicKey) && |script.args| == 32 && count >= 1
    requires SerializeRawTransaction(raw) == Ok(preimage) && |locks| >= 1 && locks[0] == script
    ensures var r := SealTransaction(raw, keys, seed, count, crypto);
            r.Ok? && ProgramEntry(LoadsOf(raw, r.value.witnesses, locks, script, crypto), crypto) == 0
  {
    var txHash := crypto.hash(preimage);
    SealUnlocks(txHash, keys, seed, crypto, script.args);
    var lock := WitnessLockFor(keys.publicKey, crypto.sign(keys.secretKey, txHash, seed)).value;
    FirstWitness(lock, count);
    var witnesses := Witnesses(lock, count).value;
    LoadsAre(raw, preimage, witnesses, locks, script, crypto);
    ProgramExact(Loads(Ok(script.args), Ok(txHash), Ok(witnesses[0])), crypto);
  }

  lemma LoadsAre(raw: RawTransaction, preimage: seq<Byte>, witnesses: seq<seq<Byte>>, locks: seq<Script>, script: Script,
                 crypto: Crypto)
    requires SerializeRawTransaction(raw) == Ok(preimage) && |locks| >= 1 && locks[0] == script && |witnesses| >= 1
    ensures LoadsOf(raw, witnesses, locks, script, crypto) == Loads(Ok(script.args), Ok(crypto.hash(preimage)), Ok(witnesses[0]))
  {
  }

  lemma ReadyAccepted(o: Options, keys: Keypair, seed: seq<Byte>, crypto: Crypto, u: Unsigned, preimage: seq<Byte>)
    requires SerializeRawTransaction(u.rawTransaction) == Ok(preimage) && u.selectedCells != []
    requires u.selectedCells[0].output.lock == o.fromLock && Matching(keys, crypto)
    requires o.fromLock.args == crypto.hash(keys.publicKey) && |o.fromLock.args| == 32
    ensures var r := SealTransaction(u.rawTransaction, keys, seed, |u.selectedCells|, crypto);
            r.Ok? && Accepted(o, crypto, u, r.value)
  {
    SealAccepted(u.rawTransaction, preimage, keys, seed, |u.selectedCells|, crypto, LocksOf(u.selectedCells), o.fromLock);
  }

  /**
   * Every transfer that can be built is signed without an error, and the lock script accepts the signed transaction, for
   * a sender whose lock carries the hash of the public key.
   */
  lemma SignedTransferAccepted(o: Options, keys: Keypair, seed: seq<Byte>, crypto: Crypto, u: Unsigned)
    requires BuildOf(o) == Built(u) && Matching(keys, crypto)
    requires o.fromLock.args == crypto.hash(keys.publicKey) && |o.fromLock.args| == 32
    ensures var r := SignTransfer(Built(u), keys, seed, crypto);
            r.Ok? && Accepted(o, crypto, u, r.value)
  {
    SpendsOwn(o, EstimateTransactionSize, u);
    var preimage := BuiltPreimage(o, u);
    ReadyAccepted(o, keys, seed, crypto, u, preimage);
  }

  lemma BuiltPreimage(o: Options, u: Unsigned) returns (preimage: seq<Byte>)
    requires BuildOf(o) == Built(u)
    ensures SerializeRawTransaction(u.rawTransaction) == Ok(preimage)
  {
    BuiltSerializes(o, EstimateTransactionSize, Candidates(o), 0);
    preimage := SerializeRawTransaction(u.rawTransaction).value;
  }

  /** What was built has been serialized. */
  lemma {:induction false} BuiltSerializes(o: Options, estimate: Estimator, cells: seq<LiveCell>, k: nat)
    requires o.amount >= 0 && FirstDone(o, estimate, cells, k).Built?
    ensures var u := FirstDone(o, estimate, cells, k).unsigned; estimate(u.rawTransaction, |u.selectedCells|).Ok?
    decreases |cells| - k
  {
    if k < |cells| && Try(o, estimate, cells[..k + 1]).Skip? { BuiltSerializes(o, estimate, cells, k + 1); }
  }

  // ---------- a signed transfer, from the caller's side ----------

  /** One well-formed witness for each input: the first has the lock field and no other field, the rest have none. */
  ghost predicate OnePerInput(witnesses: seq<seq<Byte>>, count: nat, lock: seq<Byte>) {
    && |witnesses| == count > 0 && DecodeWitnessArgs(witnesses[0]) == Ok(WitnessArgs(Some(lock), None, None))
    && forall i :: 0 < i < count ==> DecodeWitnessArgs(witnesses[i]) == Ok(WitnessArgs(None, None, None))
  }

  lemma WitnessesAre(lock: seq<Byte>, count: nat)
    requires |lock| == WITNESS_LOCK_BYTES && count >= 1
    ensures Witnesses(lock, count).Ok? && OnePerInput(Witnesses(lock, count).value, count, lock)
  {
    WitnessesSize(lock, count);
    WitnessSize(Some(lock));
    WitnessSize(None);
    WitnessArgsRoundTrip(Some(lock));
    WitnessArgsRoundTrip(None);
  }

  /** Until it is signed, a built transaction carries zeros where the lock field will be. */
  lemma BuiltPlaceholders(o: Options, u: Unsigned)
    requires BuildOf(o) == Built(u)
    ensures OnePerInput(u.placeholders, |u.selectedCells|, seq(4 + 1952 + 4 + 3309, _ => 0))
  {
    PlaceholdersFrom(o, Candidates(o), 0);
  }

  lemma {:induction false} PlaceholdersFrom(o: Options, cells: seq<LiveCell>, k: nat)
    requires o.amount >= 0 && FirstDone(o, EstimateTransactionSize, cells, k).Built?
    ensures var u := FirstDone(o, EstimateTransactionSize, cells, k).unsigned;
            OnePerInput(u.placeholders, |u.selectedCells|, seq(4 + 1952 + 4 + 3309, _ => 0))
    decreases |cells| - k
  {
    if k < |cells| && Try(o, EstimateTransactionSize, cells[..k + 1]).Skip? {
      PlaceholdersFrom(o, cells, k + 1);
    } else {
      WitnessesAre(Placeholder(), k + 1);
      assert Placeholder() == seq(4 + 1952 + 4 + 3309, _ => 0);
    }
  }

  /** What is in a signed transfer: the transaction that was built, and in its first witness the key and the signature. */
  ghost predicate Carries(u: Unsigned, keys: Keypair, seed: seq<Byte>, crypto: Crypto, signed: Signed) {
    var pair := Parsed(keys.publicKey, crypto.sign(keys.secretKey, signed.txHash, seed));
    && signed.raw == u.rawTransaction
    && SerializeRawTransaction(signed.raw).Ok? && signed.txHash == crypto.hash(SerializeRawTransaction(signed.raw).value)
    && OnePerInput(signed.witnesses, |u.selectedCells|, signed.witnessLock) && ParseWitnessLock(signed.witnessLock) == Ok(pair)
  }

  /** The sizes that `buildWitnessLock` insists on. */
  ghost predicate KeySizes(u: Unsigned, keys: Keypair, seed: seq<Byte>, crypto: Crypto)
    requires SerializeRawTransaction(u.rawTransaction).Ok?
  {
    var txHash := crypto.hash(SerializeRawTransaction(u.rawTransaction).value);
    FixedLengths(Parsed(keys.publicKey, crypto.sign(keys.secretKey, txHash, seed)))
  }

  lemma SealCarries(u: Unsigned, preimage: seq<Byte>, keys: Keypair, seed: seq<Byte>, crypto: Crypto)
    requires SerializeRawTransaction(u.rawTransaction) == Ok(preimage) && u.selectedCells != []
    ensures var r := SealWith(u.rawTransaction, crypto.hash(preimage), keys, seed, |u.selectedCells|, crypto);
            && (r.Ok? <==> FixedLengths(Parsed(keys.publicKey, crypto.sign(keys.secretKey, crypto.hash(preimage), seed))))
            && (r.Ok? ==> Carries(u, keys, seed, crypto, r.value))
  {
    var pair := Parsed(keys.publicKey, crypto.sign(keys.secretKey, crypto.hash(preimage), seed));
    if FixedLengths(pair) {
      var lock, count := LockBytes(pair), |u.selectedCells|;
      WitnessesAre(lock, count);
      ParseWitnessLockExact(lock, pair);
    }
  }

  /** Whatever was built is sealed, if the key and the signature have their sizes, and carries them. */
  lemma BuiltCarries(o: Options, keys: Keypair, seed: seq<Byte>, crypto: Crypto, u: Unsigned)
    requires BuildOf(o) == Built(u)
    ensures SerializeRawTransaction(u.rawTransaction).Ok?
    ensures var r := SignTransfer(Built(u), keys, seed, crypto);
            && (r.Ok? <==> KeySizes(u, keys, seed, crypto))
            && (r.Ok? ==> Carries(u, keys, seed, crypto, r.value))
  {
    SpendsOwn(o, EstimateTransactionSize, u);
    var preimage := BuiltPreimage(o, u);
    SealCarries(u, preimage, keys, seed, crypto);
  }

  lemma SignedIs(o: Options, keys: Keypair, seed: seq<Byte>, crypto: Crypto, b: Build, r: Result<Signed>)
    requires b == BuildOf(o) && r == SignTransfer(b, keys, seed, crypto)
    ensures b.Built? ==> SerializeRawTransaction(b.unsigned.rawTransaction).Ok?
    ensures r.Ok? <==> b.Built? && KeySizes(b.unsigned, keys, seed, crypto)
    ensures r.Ok? ==> Carries(b.unsigned, keys, seed, crypto, r.value)
    ensures r.Ok? && OptionsOk(o) ==>
              var tx := SerializeTransaction(r.value.raw, r.value.witnesses); tx.Ok? && |tx.value| == b.unsigned.txSize
    ensures (b.Built? && Matching(keys, crypto) && o.fromLock.args == crypto.hash(keys.publicKey) &&
             |o.fromLock.args| == 32) ==> r.Ok? && Accepted(o, crypto, b.unsigned, r.value)
  {
    if b.Built? {
      BuiltCarries(o, keys, seed, crypto, b.unsigned);
      if r.Ok? && OptionsOk(o) { SizeIsKept(o, keys, seed, crypto, b.unsigned, r.value); }
      if Matching(keys, crypto) && o.fromLock.args == crypto.hash(keys.publicKey) && |o.fromLock.args| == 32 {
        SignedTransferAccepted(o, keys, seed, crypto, b.unsigned);
      }
    }
  }

  /**
   * `buildSignedTransfer`: it fails exactly when nothing can be built or a key or signature has the wrong size. What it
   * returns is the transaction that was built with the sender's signature in its first witness; it is exactly as large
   * as the builder reported, and the lock script accepts it when the keys match and the lock carries their hash.
   */
  method BuildSignedTransfer(o: Options, keys: Keypair, seed: seq<Byte>, crypto: Crypto) returns (r: Result<Signed>)
    ensures BuildOf(o).Built? ==> SerializeRawTransaction(BuildOf(o).unsigned.rawTransaction).Ok?
    ensures r.Ok? <==> BuildOf(o).Built? && KeySizes(BuildOf(o).unsigned, keys, seed, crypto)
    ensures r.Ok? ==> Carries(BuildOf(o).unsigned, keys, seed, crypto, r.value)
    ensures r.Ok? && OptionsOk(o) ==>
              var tx := SerializeTransaction(r.value.raw, r.value.witnesses);
              tx.Ok? && |tx.value| == BuildOf(o).unsigned.txSize
    ensures (BuildOf(o).Built? && Matching(keys, crypto) && o.fromLock.args == crypto.hash(keys.publicKey) &&
             |o.fromLock.args| == 32) ==> r.Ok? && Accepted(o, crypto, BuildOf(o).unsigned, r.value)
  {
    var b := BuildTransferTransaction(o);
    r := SignTransfer(b, keys, seed, crypto);
    SignedIs(o, keys, seed, crypto, b, r);
  }

  // ---------- the assumptions can be met ----------

  /** Functions that satisfy everything assumed of hashing, signing and verifying. */
  function SomeCrypto(): Crypto {
    Crypto(_ => ZeroHash(), (_, _, _) => seq(SIGNATURE_LEN, _ => 0), _ => true, (_, _, _) => true)
  }

  /** There are options, keys and functions to which the theorem applies. */
  lemma AcceptedExample(o: Options, keys: Keypair)
    requires o == TwoCells(3 * MinimumFor(PlainLock()), 0) && |keys.publicKey| == PUBLIC_KEY_LEN
    ensures BuildOf(o).Built? && Matching(keys, SomeCrypto())
    ensures o.fromLock.args == SomeCrypto().hash(keys.publicKey) && |o.fromLock.args| == 32
  {
    BuiltExample(o, PlainCell(0, 1), PlainCell(1, 3 * MinimumFor(PlainLock())));
  }
}
