/** The lock field of a witness: how the wallet writes and reads it, and how the lock script reads it. */
module Witness {
  import opened Common
  import opened Molecule
  import opened Transaction
  import opened TransactionSize

  const PUBLIC_KEY_LEN := 1952
  const SIGNATURE_LEN := 3309
  const WITNESS_LOCK_BYTES := 4 + PUBLIC_KEY_LEN + 4 + SIGNATURE_LEN

  datatype Parsed = Parsed(publicKey: seq<Byte>, signature: seq<Byte>)

  /** `le32 | pk | le32 | sig` */
  function LockBytes(p: Parsed): (bs: seq<Byte>)
    ensures |bs| == 8 + |p.publicKey| + |p.signature|
  {
    Le(|p.publicKey|, U32_BYTES) + p.publicKey + Le(|p.signature|, U32_BYTES) + p.signature
  }

  predicate FixedLengths(p: Parsed) {
    |p.publicKey| == PUBLIC_KEY_LEN && |p.signature| == SIGNATURE_LEN
  }

  /** `buildWitnessLock` fills a buffer field by field. */
  method BuildWitnessLock(publicKey: seq<Byte>, signature: seq<Byte>) returns (r: Result<seq<Byte>>)
    ensures r == if FixedLengths(Parsed(publicKey, signature)) then Ok(LockBytes(Parsed(publicKey, signature))) else Err
  {
    if |publicKey| != PUBLIC_KEY_LEN || |signature| != SIGNATURE_LEN {
      return Err;
    }
    var output := new Byte[4 + |publicKey| + 4 + |signature|](_ => 0);
    var n, m := |publicKey|, |signature|;
    SetBytes(output, Le(n, U32_BYTES), 0);
    assert output[..4] == Le(n, U32_BYTES);
    SetBytes(output, publicKey, 4);
    SetBytes(output, Le(m, U32_BYTES), 4 + n);
    assert output[..8 + n] == Le(n, U32_BYTES) + publicKey + Le(m, U32_BYTES);
    SetBytes(output, signature, 8 + n);
    assert output[..] == output[..8 + n + m];
    r := Ok(output[..]);
  }

  // ---------- the two parsers ----------

  /** `parseWitnessLock` of the wallet */
  function ParseWitnessLock(input: seq<Byte>): (r: Result<Parsed>) {
    if |input| < 8 then Err
    else
      var publicKeyEnd := 4 + FromLe(input[..4]);
      if |input| < publicKeyEnd + 4 then Err
      else
        var signatureStart := publicKeyEnd + 4;
        var signatureEnd := signatureStart + FromLe(input[publicKeyEnd..signatureStart]);
        if |input| != signatureEnd then Err
        else
          var p := Parsed(input[4..publicKeyEnd], input[signatureStart..signatureEnd]);
          if |p.publicKey| != PUBLIC_KEY_LEN || |p.signature| != SIGNATURE_LEN then Err else Ok(p)
  }

  /** `parse_witness` of the lock script; 64-bit sums of two 32-bit lengths cannot overflow. */
  function ParseWitness(data: seq<Byte>): (r: Option<Parsed>) {
    if |data| < 8 then None
    else
      var pubkeyEnd := 4 + FromLe(data[..4]);
      if |data| < pubkeyEnd + 4 then None
      else
        var sigEnd := pubkeyEnd + 4 + FromLe(data[pubkeyEnd..pubkeyEnd + 4]);
        if |data| < sigEnd then None
        else Some(Parsed(data[4..pubkeyEnd], data[pubkeyEnd + 4..sigEnd]))
  }

  /** A length field. */
  lemma FieldExact(piece: seq<Byte>, n: nat)
    requires |piece| == 4
    ensures FromLe(piece) == n <==> n <= U32_MAX && piece == Le(n, U32_BYTES)
  {
    U32Exact(n, piece);
  }

  /** Four consecutive pieces and what follows them. */
  lemma FourPieces(data: seq<Byte>, a: seq<Byte>, b: seq<Byte>, c: seq<Byte>, d: seq<Byte>)
    ensures a + b + c + d <= data <==>
            var i, j, k := |a|, |a| + |b|, |a| + |b| + |c|;
            && k + |d| <= |data| && data[..i] == a && data[i..j] == b && data[j..k] == c && data[k..k + |d|] == d
  {
    var i, j, k := |a|, |a| + |b|, |a| + |b| + |c|;
    var e := k + |d|;
    if a + b + c + d <= data {
      var whole := a + b + c + d;
      assert data[..e] == whole;
      assert data[..i] == whole[..i] == a && data[i..j] == whole[i..j] == b;
      assert data[j..k] == whole[j..k] == c && data[k..e] == whole[k..e] == d;
    }
    if e <= |data| && data[..i] == a && data[i..j] == b && data[j..k] == c && data[k..e] == d {
      assert data[..e] == data[..i] + data[i..j] + data[j..k] + data[k..e];
    }
  }

  /** The lock script accepts exactly the encodings, each followed by anything. */
  lemma ParseWitnessExact(data: seq<Byte>, p: Parsed)
    ensures ParseWitness(data) == Some(p) <==>
            |p.publicKey| <= U32_MAX && |p.signature| <= U32_MAX && LockBytes(p) <= data
  {
    FourPieces(data, Le(|p.publicKey|, U32_BYTES), p.publicKey, Le(|p.signature|, U32_BYTES), p.signature);
    PiecesExact(data, p);
  }

  /** The four fields, one by one. */
  lemma PiecesExact(data: seq<Byte>, p: Parsed)
    ensures ParseWitness(data) == Some(p) <==>
            var n, m := |p.publicKey|, |p.signature|;
            && n <= U32_MAX && m <= U32_MAX && 8 + n + m <= |data|
            && data[..4] == Le(n, U32_BYTES) && data[4..4 + n] == p.publicKey
            && data[4 + n..8 + n] == Le(m, U32_BYTES) && data[8 + n..8 + n + m] == p.signature
  {
    var end := 4 + |p.publicKey|;
    if |data| >= 8 {
      FieldExact(data[..4], |p.publicKey|);
      if |data| >= end + 4 { FieldExact(data[end..end + 4], |p.signature|); }
    }
  }

  /** The wallet accepts exactly the encodings of the fixed lengths, with nothing behind them. */
  lemma ParseWitnessLockExact(data: seq<Byte>, p: Parsed)
    ensures ParseWitnessLock(data) == Ok(p) <==> FixedLengths(p) && data == LockBytes(p)
  {
    ParseWitnessExact(data, p);
    StricterParser(data, p);
  }

  /** What the wallet accepts is what the lock script accepts, of the fixed lengths and without a suffix. */
  lemma StricterParser(data: seq<Byte>, p: Parsed)
    ensures ParseWitnessLock(data) == Ok(p) <==>
            ParseWitness(data) == Some(p) && FixedLengths(p) && |data| == WITNESS_LOCK_BYTES
  {
  }

  // ---------- witness arguments ----------

  datatype WitnessArgs = WitnessArgs(
    lock: Option<seq<Byte>>, inputType: Option<seq<Byte>>, outputType: Option<seq<Byte>>)

  function EncodeOptionBytes(value: Option<seq<Byte>>): (r: Result<seq<Byte>>) {
    if value.Some? then SerializeBytes(value.value) else Ok([])
  }

  function DecodeOptionBytes(bs: seq<Byte>): (r: Result<Option<seq<Byte>>>) {
    if bs == [] then Ok(None)
    else
      var value :- DecodeBytes(bs);
      Ok(Some(value))
  }

  /** `encodeWitnessArgs` */
  function EncodeWitnessArgs(lock: Option<seq<Byte>>): (r: Result<seq<Byte>>) {
    var field :- EncodeOptionBytes(lock);
    SerializeDynVec([field, [], []])
  }

  function DecodeWitnessArgs(bs: seq<Byte>): (r: Result<WitnessArgs>) {
    var t :- DecodeTable(3, bs);
    var lock :- DecodeOptionBytes(t[0]);
    var inputType :- DecodeOptionBytes(t[1]);
    var outputType :- DecodeOptionBytes(t[2]);
    Ok(WitnessArgs(lock, inputType, outputType))
  }

  /** The table of any witness arguments. */
  function SerializeWitnessArgs(w: WitnessArgs): (r: Result<seq<Byte>>) {
    var lock :- EncodeOptionBytes(w.lock);
    var inputType :- EncodeOptionBytes(w.inputType);
    var outputType :- EncodeOptionBytes(w.outputType);
    SerializeDynVec([lock, inputType, outputType])
  }

  lemma OptionBytesExact(bs: seq<Byte>, value: Option<seq<Byte>>)
    ensures DecodeOptionBytes(bs) == Ok(value) <==> EncodeOptionBytes(value) == Ok(bs)
  {
    if value.Some? {
      BytesExact(bs, value.value);
      BytesMeasured(value.value);
    }
  }

  /** Bytes are read as witness arguments exactly when they are the table of these, whatever the three fields are. */
  lemma {:induction false} WitnessArgsExact(bs: seq<Byte>, w: WitnessArgs)
    ensures DecodeWitnessArgs(bs) == Ok(w) <==> SerializeWitnessArgs(w) == Ok(bs)
  {
    if DecodeTable(3, bs).Ok? {
      var t := DecodeTable(3, bs).value;
      TableExact(3, bs, t);
      FieldsExact(t, w);
    }
    if SerializeWitnessArgs(w).Ok? {
      var t := [EncodeOptionBytes(w.lock).value, EncodeOptionBytes(w.inputType).value, EncodeOptionBytes(w.outputType).value];
      TableExact(3, bs, t);
      FieldsExact(t, w);
    }
  }

  lemma FieldsExact(t: seq<seq<Byte>>, w: WitnessArgs)
    requires |t| == 3
    ensures DecodeOptionBytes(t[0]) == Ok(w.lock) <==> EncodeOptionBytes(w.lock) == Ok(t[0])
    ensures DecodeOptionBytes(t[1]) == Ok(w.inputType) <==> EncodeOptionBytes(w.inputType) == Ok(t[1])
    ensures DecodeOptionBytes(t[2]) == Ok(w.outputType) <==> EncodeOptionBytes(w.outputType) == Ok(t[2])
    ensures t == [t[0], t[1], t[2]]
  {
    OptionBytesExact(t[0], w.lock);
    OptionBytesExact(t[1], w.inputType);
    OptionBytesExact(t[2], w.outputType);
  }

  /** The lock script finds the lock of any witness, next to any other fields. */
  lemma LockFieldIs(bs: seq<Byte>, w: WitnessArgs)
    requires SerializeWitnessArgs(w) == Ok(bs)
    ensures LockField(bs) == w.lock
  {
    WitnessArgsExact(bs, w);
  }

  /** The sizes of the parameter set ML-DSA-65: six polynomials of ten bits, and five of twenty with hash and hints. */
  lemma ParameterSizes()
    ensures PUBLIC_KEY_LEN == 32 + 32 * 6 * (23 - 13)
    ensures SIGNATURE_LEN == 192 / 4 + 32 * 5 * (1 + 19) + 55 + 6
  {
  }

  /** A reader of the table finds the lock field the wallet put there. */
  lemma WitnessArgsRoundTrip(lock: Option<seq<Byte>>)
    requires EncodeWitnessArgs(lock).Ok?
    ensures DecodeWitnessArgs(EncodeWitnessArgs(lock).value) == Ok(WitnessArgs(lock, None, None))
  {
    var field := EncodeOptionBytes(lock).value;
    var bs := EncodeWitnessArgs(lock).value;
    TableExact(3, bs, [field, [], []]);
    if lock.Some? { BytesExact(field, lock.value); }
  }

  // ---------- the lock script ----------

  /** Hashing, signing and verifying, as functions that nothing more is known of. */
  datatype Crypto = Crypto(
    hash: seq<Byte> -> seq<Byte>,
    sign: (seq<Byte>, seq<Byte>, seq<Byte>) -> seq<Byte>,
    isKey: seq<Byte> -> bool,
    verify: (seq<Byte>, seq<Byte>, seq<Byte>) -> bool)

  /** What the virtual machine hands to the script; each load may fail. */
  datatype Loads = Loads(args: Result<seq<Byte>>, txHash: Result<seq<Byte>>, witnessBytes: Result<seq<Byte>>)

  /** The lock field of a witness, if the witness is a well-formed table that has one. */
  function LockField(witnessBytes: seq<Byte>): (r: Option<seq<Byte>>) {
    var w := DecodeWitnessArgs(witnessBytes);
    if w.Ok? then w.value.lock else None
  }

  /** `program_entry`: zero, or the code of the first check that fails. */
  function ProgramEntry(loads: Loads, crypto: Crypto): (code: int) {
    if loads.args.Err? || |loads.args.value| != 32 then 1
    else if loads.txHash.Err? || loads.witnessBytes.Err? then 2
    else
      var lock := LockField(loads.witnessBytes.value);
      if lock.None? then 2
      else CheckLock(loads.args.value, loads.txHash.value, lock.value, crypto)
  }

  function CheckLock(args: seq<Byte>, txHash: seq<Byte>, lock: seq<Byte>, crypto: Crypto): (code: int) {
    var p := ParseWitness(lock);
    if p.None? then 2 else CheckKeyAndSignature(args, txHash, p.value, crypto)
  }

  function CheckKeyAndSignature(args: seq<Byte>, txHash: seq<Byte>, p: Parsed, crypto: Crypto): (code: int) {
    if crypto.hash(p.publicKey) != args then 3
    else if |p.publicKey| != PUBLIC_KEY_LEN || !crypto.isKey(p.publicKey) then 4
    else if |p.signature| != SIGNATURE_LEN then 5
    else if !crypto.verify(p.publicKey, txHash, p.signature) then 6
    else 0
  }

  /** A key that hashes to the arguments, with its signature of the transaction hash, at the front of the lock field. */
  ghost predicate Unlocks(args: seq<Byte>, txHash: seq<Byte>, lock: seq<Byte>, p: Parsed, crypto: Crypto) {
    && FixedLengths(p) && LockBytes(p) <= lock
    && |args| == 32 && crypto.hash(p.publicKey) == args
    && crypto.isKey(p.publicKey) && crypto.verify(p.publicKey, txHash, p.signature)
  }

  /** The lock field starts with what unlocks the cell. */
  ghost predicate Unlocked(args: seq<Byte>, txHash: seq<Byte>, lock: seq<Byte>, crypto: Crypto) {
    exists p :: Unlocks(args, txHash, lock, p, crypto)
  }

  /** The script succeeds exactly when everything loads and the lock field starts with what unlocks the cell. */
  lemma ProgramExact(loads: Loads, crypto: Crypto)
    ensures ProgramEntry(loads, crypto) == 0 <==>
            && loads.args.Ok? && loads.txHash.Ok? && loads.witnessBytes.Ok?
            && LockField(loads.witnessBytes.value).Some?
            && Unlocked(loads.args.value, loads.txHash.value, LockField(loads.witnessBytes.value).value, crypto)
  {
    if loads.args.Ok? && loads.txHash.Ok? && loads.witnessBytes.Ok? && LockField(loads.witnessBytes.value).Some? {
      LockExact(loads.args.value, loads.txHash.value, LockField(loads.witnessBytes.value).value, crypto);
    }
  }

  lemma LockExact(args: seq<Byte>, txHash: seq<Byte>, lock: seq<Byte>, crypto: Crypto)
    ensures Unlocked(args, txHash, lock, crypto) <==> |args| == 32 && CheckLock(args, txHash, lock, crypto) == 0
  {
    if |args| == 32 && CheckLock(args, txHash, lock, crypto) == 0 {
      ParseWitnessExact(lock, ParseWitness(lock).value);
      assert Unlocks(args, txHash, lock, ParseWitness(lock).value, crypto);
    }
    if Unlocked(args, txHash, lock, crypto) {
      var p :| Unlocks(args, txHash, lock, p, crypto);
      ParseWitnessExact(lock, p);
    }
  }

  /** Which check the code of a failure stands for, when a key and a signature are at the front of the lock field. */
  lemma ProgramCodes(loads: Loads, crypto: Crypto, lock: seq<Byte>, p: Parsed)
    requires loads.args.Ok? && |loads.args.value| == 32 && loads.txHash.Ok? && loads.witnessBytes.Ok?
    requires LockField(loads.witnessBytes.value) == Some(lock)
    requires |p.publicKey| <= U32_MAX && |p.signature| <= U32_MAX && LockBytes(p) <= lock
    ensures var code := ProgramEntry(loads, crypto);
            var known := crypto.hash(p.publicKey) == loads.args.value;
            var key := |p.publicKey| == PUBLIC_KEY_LEN && crypto.isKey(p.publicKey);
            && (code == 3 <==> !known)
            && (code == 4 <==> known && !key)
            && (code == 5 <==> known && key && |p.signature| != SIGNATURE_LEN)
            && (code == 6 <==> known && key && |p.signature| == SIGNATURE_LEN &&
                               !crypto.verify(p.publicKey, loads.txHash.value, p.signature))
            && code in {0, 3, 4, 5, 6}
  {
    ParseWitnessExact(lock, p);
  }

  /** A key and a signature are written at the front of the lock field. */
  ghost predicate HasPair(lock: seq<Byte>) {
    exists p: Parsed :: |p.publicKey| <= U32_MAX && |p.signature| <= U32_MAX && LockBytes(p) <= lock
  }

  /** Code 2 means that something does not load, or that no key and signature are written at the front of the lock field. */
  lemma ProgramMalformed(loads: Loads, crypto: Crypto)
    ensures ProgramEntry(loads, crypto) == 1 <==> loads.args.Err? || |loads.args.value| != 32
    ensures ProgramEntry(loads, crypto) == 2 <==>
            && loads.args.Ok? && |loads.args.value| == 32
            && !(loads.txHash.Ok? && loads.witnessBytes.Ok? && LockField(loads.witnessBytes.value).Some? &&
                 HasPair(LockField(loads.witnessBytes.value).value))
  {
    if loads.witnessBytes.Ok? && LockField(loads.witnessBytes.value).Some? {
      PairParses(LockField(loads.witnessBytes.value).value);
    }
  }

  lemma PairParses(lock: seq<Byte>)
    ensures HasPair(lock) <==> ParseWitness(lock).Some?
  {
    if ParseWitness(lock).Some? { ParseWitnessExact(lock, ParseWitness(lock).value); }
    if HasPair(lock) {
      var p: Parsed :| |p.publicKey| <= U32_MAX && |p.signature| <= U32_MAX && LockBytes(p) <= lock;
      ParseWitnessExact(lock, p);
    }
  }
}
