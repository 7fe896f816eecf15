/** CKB addresses in the full format: a script and a network as a Bech32m string, and back. */
module Address {
  import opened Common
  import opened Numbers
  import opened Bech32
  import opened Regroup

  datatype Network = Mainnet | Testnet | Devnet

  /** `data`, `type` and `data<version>` */
  datatype HashType = Data | Type | DataVersion(version: nat)

  datatype Script = Script(codeHash: seq<Byte>, hashType: HashType, args: seq<Byte>)

  const CHARSET := "qpzry9x8gf2tvdw0s3jn54khce6mua7l"

  // ---------- prefixes and hash types ----------

  function HrpForNetwork(network: Network): string {
    if network == Mainnet then "ckb" else "ckt"
  }

  function NetworkForHrp(hrp: string): Result<Network> {
    if hrp == "ckb" then Ok(Mainnet) else if hrp == "ckt" then Ok(Testnet) else Err
  }

  /** The networks an address can tell apart: the development network uses the testnet prefix. */
  function Class(network: Network): Network {
    if network == Mainnet then Mainnet else Testnet
  }

  function HashTypeToByte(h: HashType): Result<Byte> {
    match h
    case Data => Ok(0)
    case Type => Ok(1)
    case DataVersion(v) => if 1 <= v <= 127 then Ok(2 * v) else Err
  }

  function ByteToHashType(value: Byte): Result<HashType> {
    if value == 0 then Ok(Data)
    else if value == 1 then Ok(Type)
    else if value <= 254 && value % 2 == 0 then Ok(DataVersion(value / 2))
    else Err
  }

  /** Both directions of the hash-type mapping agree. */
  lemma HashTypeRoundTrip(h: HashType, b: Byte)
    ensures HashTypeToByte(h) == Ok(b) <==> ByteToHashType(b) == Ok(h)
  {
  }

  // ---------- characters ----------

  function Lower(c: char): char {
    if 'A' <= c <= 'Z' then (c as int + 32) as char else c
  }

  function Upper(c: char): char {
    if 'a' <= c <= 'z' then (c as int - 32) as char else c
  }

  function LowerAll(s: string): (r: string)
    ensures |r| == |s| && forall i :: 0 <= i < |s| ==> r[i] == Lower(s[i])
  {
    seq(|s|, i requires 0 <= i < |s| => Lower(s[i]))
  }

  function UpperAll(s: string): (r: string)
    ensures |r| == |s| && forall i :: 0 <= i < |s| ==> r[i] == Upper(s[i])
  {
    seq(|s|, i requires 0 <= i < |s| => Upper(s[i]))
  }

  /** Position of `c` in `s` from `from` on, or `|s|`. */
  function Find(s: string, c: char, from: nat): (i: nat)
    requires from <= |s|
    ensures from <= i <= |s| && (i < |s| ==> s[i] == c)
    ensures forall j :: from <= j < i ==> s[j] != c
    decreases |s| - from
  {
    if from == |s| || s[from] == c then from else Find(s, c, from + 1)
  }

  /** `CHARSET_MAP.get` */
  function WordOf(c: char): (i: nat)
    ensures i <= 32 && (i < 32 ==> CHARSET[i] == c)
    ensures forall j :: 0 <= j < i ==> CHARSET[j] != c
  {
    Find(CHARSET, c, 0)
  }

  lemma CharsetPlain(i: nat)
    requires i < 32
    ensures Lower(CHARSET[i]) == CHARSET[i] && CHARSET[i] != '1'
  {
  }

  lemma CharsetDistinct(i: nat, j: nat)
    requires j < i < 32
    ensures CHARSET[j] != CHARSET[i]
  {
  }

  /** No character stands for two words, none is upper case, and none is the separator. */
  lemma CharsetFacts(i: nat)
    requires i < 32
    ensures WordOf(CHARSET[i]) == i && Lower(CHARSET[i]) == CHARSET[i] && CHARSET[i] != '1'
  {
    CharsetPlain(i);
    var k := WordOf(CHARSET[i]);
    if k < i { CharsetDistinct(i, k); }
  }

  /** `lastIndexOf`, or `-1` */
  function LastIndexOf(s: string, c: char): (i: int)
    ensures -1 <= i < |s| && (i >= 0 ==> s[i] == c)
  {
    if s == [] then -1 else if s[|s| - 1] == c then |s| - 1 else LastIndexOf(s[..|s| - 1], c)
  }

  lemma {:induction false} LastIndexIs(front: string, c: char, back: string)
    requires c !in back
    ensures LastIndexOf(front + [c] + back, c) == |front|
  {
    var s := front + [c] + back;
    if back == [] {
      assert s == front + [c];
    } else {
      var shorter := back[..|back| - 1];
      assert s[..|s| - 1] == front + [c] + shorter;
      LastIndexIs(front, c, shorter);
    }
  }

  /** Words spelled in the alphabet of Bech32. */
  function Chars(ws: seq<nat>): (s: string)
    requires Below(ws, 32)
    ensures |s| == |ws| && forall i :: 0 <= i < |ws| ==> s[i] == CHARSET[ws[i]]
  {
    seq(|ws|, i requires 0 <= i < |ws| => CHARSET[ws[i]])
  }

  /** The words that characters stand for; any other character makes the source throw. */
  function WordsOf(s: string): (r: Result<seq<nat>>)
    ensures r.Ok? ==> Below(r.value, 32)
  {
    if forall i :: 0 <= i < |s| ==> WordOf(s[i]) < 32 then
      Ok(seq(|s|, i requires 0 <= i < |s| => WordOf(s[i])))
    else
      Err
  }

  /** Spelling and reading words are inverse to each other. */
  lemma Spelling(s: string, ws: seq<nat>)
    requires Below(ws, 32)
    ensures WordsOf(s) == Ok(ws) <==> s == Chars(ws)
  {
    if s == Chars(ws) {
      forall i | 0 <= i < |ws| ensures WordOf(s[i]) == ws[i] { CharsetFacts(ws[i]); }
      assert WordsOf(s).value == ws;
    } else if WordsOf(s).Ok? && |s| == |ws| {
      var i :| 0 <= i < |s| && s[i] != Chars(ws)[i];
      assert WordsOf(s).value[i] == WordOf(s[i]);
    }
  }

  lemma SpellingIsPlain(ws: seq<nat>)
    requires Below(ws, 32)
    ensures '1' !in Chars(ws)
  {
    forall i | 0 <= i < |ws| ensures Chars(ws)[i] != '1' { CharsetFacts(ws[i]); }
  }

  // ---------- Bech32m ----------

  function Octets(ds: seq<int>): (bs: seq<Byte>)
    requires DigitsBelow(ds, 256)
    ensures bs == ds
  {
    seq(|ds|, i requires 0 <= i < |ds| => ds[i])
  }

  datatype Decoded = Decoded(hrp: string, payload: seq<Byte>)

  /** Data words followed by their checksum. */
  function Sealed(hrp: string, words: seq<nat>): (ws: seq<nat>)
    requires Below(words, 32)
    ensures Below(ws, 32)
  {
    words + CreateChecksum(hrp, words)
  }

  function EncodeBech32m(hrp: string, payload: seq<Byte>): string {
    Spelled(hrp, Sealed(hrp, Words(Pad5(payload))))
  }

  function Spelled(hrp: string, data: seq<nat>): string
    requires Below(data, 32)
  {
    hrp + ['1'] + Chars(data)
  }

  /** Neither all lower case nor all upper case. */
  predicate Mixed(address: string) {
    LowerAll(address) != address && UpperAll(LowerAll(address)) != address
  }

  function DecodeData(hrp: string, data: seq<nat>): (r: Result<Decoded>)
    requires Below(data, 32) && |data| >= 6
  {
    if !VerifyChecksum(hrp, data) then Err
    else
      var bytes :- Unpad8(data[..|data| - 6]);
      Ok(Decoded(hrp, Octets(bytes)))
  }

  function DecodeNormal(normalized: string): (r: Result<Decoded>) {
    var separator := LastIndexOf(normalized, '1');
    if separator <= 0 || separator + 7 > |normalized| then Err
    else
      var data :- WordsOf(normalized[separator + 1..]);
      DecodeData(normalized[..separator], data)
  }

  function DecodeBech32m(address: string): Result<Decoded> {
    if Mixed(address) then Err else DecodeNormal(LowerAll(address))
  }

  /** A data part is accepted exactly when it is a payload, padded and sealed. */
  lemma DataAccepted(hrp: string, data: seq<nat>, payload: seq<Byte>)
    requires Below(data, 32) && |data| >= 6
    ensures DecodeData(hrp, data) == Ok(Decoded(hrp, payload)) <==> data == Sealed(hrp, Words(Pad5(payload)))
  {
    var words, sum := data[..|data| - 6], data[|data| - 6..];
    assert data == words + sum;
    PaddingUnique(words, payload);
    Unsealed(hrp, words, sum, payload, Words(Pad5(payload)));
  }

  lemma Unsealed(hrp: string, words: seq<nat>, sum: seq<nat>, payload: seq<Byte>, padded: seq<nat>)
    requires Below(words, 32) && Below(sum, 32) && |sum| == 6 && Below(padded, 32)
    requires Unpad8(words) == Ok(payload) <==> words == padded
    ensures DecodeData(hrp, words + sum) == Ok(Decoded(hrp, payload)) <==> words + sum == Sealed(hrp, padded)
  {
    assert (words + sum)[..|words + sum| - 6] == words;
    ChecksumUnique(hrp, words, sum);
    SealSplits(hrp, words, sum, padded);
  }

  lemma PaddingUnique(words: seq<nat>, payload: seq<Byte>)
    requires Below(words, 32)
    ensures Unpad8(words) == Ok(payload) <==> words == Words(Pad5(payload))
  {
    PadThenUnpad(payload);
    if Unpad8(words).Ok? { UnpadThenPad(words); }
  }

  lemma SealSplits(hrp: string, words: seq<nat>, sum: seq<nat>, other: seq<nat>)
    requires Below(words, 32) && Below(other, 32) && |sum| == 6
    ensures words + sum == Sealed(hrp, other) <==> words == other && sum == CreateChecksum(hrp, words)
  {
    var c := CreateChecksum(hrp, other);
    if words + sum == other + c {
      assert words == (words + sum)[..|words|] == (other + c)[..|other|] == other;
      assert sum == (words + sum)[|words|..] == (other + c)[|other|..] == c;
    }
  }

  lemma NormalAccepted(s: string, hrp: string, payload: seq<Byte>)
    ensures DecodeNormal(s) == Ok(Decoded(hrp, payload)) <==> hrp != "" && s == EncodeBech32m(hrp, payload)
  {
    var data := Sealed(hrp, Words(Pad5(payload)));
    if hrp != "" { SpelledIsRead(hrp, data); }
    DataAccepted(hrp, data, payload);
    if DecodeNormal(s).Ok? {
      var read := ReadIsSpelled(s, DecodeNormal(s).value.hrp);
      DataAccepted(DecodeNormal(s).value.hrp, read, payload);
    }
  }

  /** A prefix, the separator and spelled words are taken apart again. */
  lemma SpelledIsRead(hrp: string, data: seq<nat>)
    requires hrp != "" && Below(data, 32) && |data| >= 6
    ensures DecodeNormal(Spelled(hrp, data)) == DecodeData(hrp, data)
  {
    var s := Spelled(hrp, data);
    SpellingIsPlain(data);
    LastIndexIs(hrp, '1', Chars(data));
    assert s[..|hrp|] == hrp && s[|hrp| + 1..] == Chars(data);
    Spelling(Chars(data), data);
  }

  lemma CutAt(s: string, at: nat)
    requires at < |s|
    ensures s == s[..at] + [s[at]] + s[at + 1..]
  {
  }

  /** Whatever is read has that shape. */
  lemma ReadIsSpelled(s: string, hrp: string) returns (data: seq<nat>)
    requires DecodeNormal(s).Ok? && hrp == DecodeNormal(s).value.hrp
    ensures hrp != "" && Below(data, 32) && |data| >= 6 && s == Spelled(hrp, data)
    ensures DecodeNormal(s) == DecodeData(hrp, data)
  {
    var separator := LastIndexOf(s, '1');
    data := WordsOf(s[separator + 1..]).value;
    SpelledAgain(s, separator, data);
  }

  lemma SpelledAgain(s: string, at: nat, data: seq<nat>)
    requires at < |s| && s[at] == '1' && Below(data, 32) && WordsOf(s[at + 1..]) == Ok(data)
    ensures s == Spelled(s[..at], data) && |data| == |s| - at - 1
  {
    CutAt(s, at);
    Spelling(s[at + 1..], data);
  }

  /** Exactly the encodings in one letter case are accepted, each with the prefix and payload it encodes. */
  lemma Bech32mAccepted(address: string, d: Decoded)
    ensures DecodeBech32m(address) == Ok(d) <==>
            !Mixed(address) && d.hrp != "" && LowerAll(address) == EncodeBech32m(d.hrp, d.payload)
  {
    NormalAccepted(LowerAll(address), d.hrp, d.payload);
  }

  // ---------- CKB addresses ----------

  const CODE_HASH_BYTES := 32
  const FULL_ADDRESS_TYPE: Byte := 0

  function FullPayload(script: Script, hashType: Byte): seq<Byte> {
    [FULL_ADDRESS_TYPE] + script.codeHash + [hashType] + script.args
  }

  function EncodeCkbAddress(script: Script, network: Network): Result<string> {
    if |script.codeHash| != CODE_HASH_BYTES then Err
    else
      var hashType :- HashTypeToByte(script.hashType);
      Ok(EncodeBech32m(HrpForNetwork(network), FullPayload(script, hashType)))
  }

  datatype Located = Located(network: Network, script: Script)

  function DecodePayload(d: Decoded): Result<Located> {
    if |d.payload| < 1 + CODE_HASH_BYTES + 1 || d.payload[0] != FULL_ADDRESS_TYPE then Err
    else
      var network :- NetworkForHrp(d.hrp);
      var hashType :- ByteToHashType(d.payload[1 + CODE_HASH_BYTES]);
      Ok(Located(network,
                 Script(d.payload[1..1 + CODE_HASH_BYTES], hashType, d.payload[1 + CODE_HASH_BYTES + 1..])))
  }

  function DecodeCkbAddress(address: string): Result<Located> {
    var d :- DecodeBech32m(address);
    DecodePayload(d)
  }

  /** What a decoded payload says, and that nothing else decodes to it. */
  lemma PayloadAccepted(d: Decoded, l: Located)
    ensures DecodePayload(d) == Ok(l) <==>
            && l.network == Class(l.network) && d.hrp == HrpForNetwork(l.network)
            && |l.script.codeHash| == CODE_HASH_BYTES && HashTypeToByte(l.script.hashType).Ok?
            && d.payload == FullPayload(l.script, HashTypeToByte(l.script.hashType).value)
  {
    var p := d.payload;
    if |p| >= 34 {
      HashTypeRoundTrip(l.script.hashType, p[33]);
      assert p == [p[0]] + p[1..33] + [p[33]] + p[34..];
    }
    if |l.script.codeHash| == 32 && HashTypeToByte(l.script.hashType).Ok? {
      var b := HashTypeToByte(l.script.hashType).value;
      var q := FullPayload(l.script, b);
      assert q[0] == FULL_ADDRESS_TYPE && q[33] == b && q[1..33] == l.script.codeHash && q[34..] == l.script.args;
    }
  }

  /**
   * An address is accepted with a network and a script exactly when it is written in one letter case and its lower-case
   * form is the encoding of that script for that network, the network being one that a prefix can name.
   */
  lemma AddressAccepted(address: string, l: Located)
    ensures DecodeCkbAddress(address) == Ok(l) <==>
            && !Mixed(address) && l.network == Class(l.network)
            && EncodeCkbAddress(l.script, l.network) == Ok(LowerAll(address))
  {
    if DecodeBech32m(address).Ok? {
      var d := DecodeBech32m(address).value;
      Bech32mAccepted(address, d);
      PayloadAccepted(d, l);
    }
    if EncodeCkbAddress(l.script, l.network).Ok? {
      var b := HashTypeToByte(l.script.hashType).value;
      var d := Decoded(HrpForNetwork(l.network), FullPayload(l.script, b));
      Bech32mAccepted(address, d);
      PayloadAccepted(d, l);
    }
  }

  /** An encoding consists of lower-case characters. */
  lemma EncodingIsLower(hrp: string, payload: seq<Byte>)
    requires LowerAll(hrp) == hrp
    ensures LowerAll(EncodeBech32m(hrp, payload)) == EncodeBech32m(hrp, payload)
  {
    SpelledIsLower(hrp, Sealed(hrp, Words(Pad5(payload))));
  }

  lemma SpelledIsLower(hrp: string, data: seq<nat>)
    requires LowerAll(hrp) == hrp && Below(data, 32)
    ensures LowerAll(Spelled(hrp, data)) == Spelled(hrp, data)
  {
    forall i | 0 <= i < |data| ensures Lower(Chars(data)[i]) == Chars(data)[i] { CharsetFacts(data[i]); }
    var s := Spelled(hrp, data);
    forall i | 0 <= i < |s| ensures Lower(s[i]) == s[i] {
      if i < |hrp| {
        assert s[i] == hrp[i] == LowerAll(hrp)[i];
      } else if i > |hrp| {
        assert s[i] == Chars(data)[i - |hrp| - 1];
      }
    }
  }

  lemma PrefixFacts(network: Network)
    ensures LowerAll(HrpForNetwork(network)) == HrpForNetwork(network)
    ensures HrpForNetwork(Class(network)) == HrpForNetwork(network)
  {
  }

  lemma AddressIs(script: Script, network: Network, hrp: string)
    requires EncodeCkbAddress(script, network).Ok? && hrp == HrpForNetwork(network)
    ensures EncodeCkbAddress(script, network).value ==
            EncodeBech32m(hrp, FullPayload(script, HashTypeToByte(script.hashType).value))
  {
  }

  lemma AddressIsLower(script: Script, network: Network, hrp: string)
    requires EncodeCkbAddress(script, network).Ok? && hrp == HrpForNetwork(network) && LowerAll(hrp) == hrp
    ensures var a := EncodeCkbAddress(script, network).value; LowerAll(a) == a
  {
    AddressIs(script, network, hrp);
    EncodingIsLower(hrp, FullPayload(script, HashTypeToByte(script.hashType).value));
  }

  /** Decoding an encoded script gives the script back, and the network up to the prefix it shares. */
  lemma AddressRoundTrip(script: Script, network: Network)
    ensures EncodeCkbAddress(script, network).Ok? <==>
            |script.codeHash| == CODE_HASH_BYTES && HashTypeToByte(script.hashType).Ok?
    ensures EncodeCkbAddress(script, network).Ok? ==>
              DecodeCkbAddress(EncodeCkbAddress(script, network).value) == Ok(Located(Class(network), script))
  {
    if EncodeCkbAddress(script, network).Ok? {
      PrefixFacts(network);
      AddressIsLower(script, network, HrpForNetwork(network));
      AddressAccepted(EncodeCkbAddress(script, network).value, Located(Class(network), script));
    }
  }

  /** Main-network addresses begin with `ckb1`, all others with `ckt1`. */
  lemma AddressPrefix(script: Script, network: Network)
    requires EncodeCkbAddress(script, network).Ok?
    ensures var a := EncodeCkbAddress(script, network).value;
            |a| >= 4 && a[..4] == if network == Mainnet then "ckb1" else "ckt1"
  {
    AddressIs(script, network, HrpForNetwork(network));
    var words := Words(Pad5(FullPayload(script, HashTypeToByte(script.hashType).value)));
    SpelledPrefix(HrpForNetwork(network), Sealed(HrpForNetwork(network), words));
  }

  lemma SpelledPrefix(hrp: string, data: seq<nat>)
    requires |hrp| == 3 && Below(data, 32)
    ensures |Spelled(hrp, data)| >= 4 && Spelled(hrp, data)[..4] == hrp + ['1']
  {
  }

  /** Every accepted address encodes back to its own lower-case form. */
  lemma AddressCanonical(address: string)
    requires DecodeCkbAddress(address).Ok?
    ensures var l := DecodeCkbAddress(address).value;
            EncodeCkbAddress(l.script, l.network) == Ok(LowerAll(address))
  {
    AddressAccepted(address, DecodeCkbAddress(address).value);
  }

  // ---------- the format itself ----------

  /** All thirty-two words in descending order, as a test vector of BIP-350 spells them. */
  lemma WholeAlphabet(ws: seq<nat>)
    requires |ws| == 32 && Below(ws, 32) && forall i :: 0 <= i < 32 ==> ws[i] == 31 - i
    ensures Chars(ws) == "l7aum6echk45nj3s0wdvt2fg8x9yrzpq"
  {
    var s := "l7aum6echk45nj3s0wdvt2fg8x9yrzpq";
    assert forall i :: 0 <= i < 32 ==> s[i] == CHARSET[31 - i];
  }

  /** The full format of RFC 0021: a zero, the code hash, one byte for the hash type, the arguments. */
  lemma FullFormat(script: Script, network: Network, tag: Byte)
    requires |script.codeHash| == 32
    requires match script.hashType
             case Data => tag == 0
             case Type => tag == 1
             case DataVersion(v) => tag == 2 * v && 0 < v
    ensures EncodeCkbAddress(script, network) ==
            Ok(EncodeBech32m(if network.Mainnet? then "ckb" else "ckt", [0] + script.codeHash + [tag] + script.args))
  {
  }
}
