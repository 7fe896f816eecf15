/** The Bech32m checksum: a linear code over GF(2), computed with 32-bit integers. */
module Bech32 {
  import opened Common
  import opened Numbers

  const GENERATORS: seq<nat> := [0x3b6a57b2, 0x26508e6d, 0x1ea119fa, 0x3d4233dd, 0x2a1462b3]
  const WORD := 5
  const BECH32M_CONST: nat := 0x2bc830a3

  /** The signed 32-bit integer to which JavaScript's bit operators reduce their result. */
  function ToInt32(x: int): (r: int) {
    Wrap(x, 32)
  }

  lemma ToInt32Exact(x: nat)
    requires x < 0x4000_0000
    ensures ToInt32(x) == x
  {
    Pow2Values();
    LowSmall(x, 32);
  }

  /** The generators selected by the first `n` bits of `top`. */
  function Feedback(top: nat, n: nat): (g: nat)
    requires n <= 5
  {
    if n == 0 then 0 else Xor(Feedback(top, n - 1), if Bit(top, n - 1) then GENERATORS[n - 1] else 0)
  }

  /** One round of `polymod`. */
  function Step(c: nat, v: nat): (r: nat) {
    Xor(Xor(Shl(Low(c, 25), 5), v), Feedback(Shr(c, 25), 5))
  }

  /** The rounds for a list of values, from a given state. */
  function Rounds<T, U>(step: (T, U) -> T, c: T, vs: seq<U>): (r: T) {
    if vs == [] then c else step(Rounds(step, c, vs[..|vs| - 1]), vs[|vs| - 1])
  }

  function Fold(c: nat, vs: seq<nat>): (r: nat) {
    Rounds(Step, c, vs)
  }

  lemma FoldEmpty(c: nat)
    ensures Fold(c, []) == c
  {
  }

  /** The last round of a list that is not empty. */
  lemma FoldLast(c: nat, vs: seq<nat>)
    requires vs != []
    ensures Fold(c, vs) == Step(Fold(c, vs[..|vs| - 1]), vs[|vs| - 1])
  {
  }

  lemma {:induction false} RoundsConcat<T, U>(step: (T, U) -> T, c: T, vs: seq<U>, ws: seq<U>)
    ensures Rounds(step, c, vs + ws) == Rounds(step, Rounds(step, c, vs), ws)
  {
    if ws == [] {
      assert vs + ws == vs;
    } else {
      var front, last := ws[..|ws| - 1], ws[|ws| - 1];
      RoundsConcat(step, c, vs, front);
      assert (vs + ws)[..|vs + ws| - 1] == vs + front;
    }
  }

  lemma FoldConcat(c: nat, vs: seq<nat>, ws: seq<nat>)
    ensures Fold(c, vs + ws) == Fold(Fold(c, vs), ws)
  {
    RoundsConcat(Step, c, vs, ws);
  }

  ghost predicate Below(vs: seq<nat>, bound: nat) {
    forall i :: 0 <= i < |vs| ==> vs[i] < bound
  }

  // ---------- the state stays below 2^30 ----------

  lemma {:induction false} FeedbackBound(top: nat, n: nat)
    requires n <= 5
    ensures Feedback(top, n) < Pow2(30)
  {
    Pow2Values();
    if n > 0 {
      FeedbackBound(top, n - 1);
      XorBound(Feedback(top, n - 1), if Bit(top, n - 1) then GENERATORS[n - 1] else 0, 30);
    }
  }

  /** Shifting the low 25 bits up by five leaves no bit above 2^30. */
  lemma ShiftedBound(c: nat)
    ensures Shl(Low(c, 25), 5) < Pow2(30)
  {
    Pow2Values();
    ShlFive(Low(c, 25));
  }

  lemma ShlFive(a: int)
    ensures Shl(a, 5) == 32 * a
  {
    assert Shl(a, 1) == 2 * a && Shl(a, 2) == 4 * a;
    assert Shl(a, 3) == 8 * a && Shl(a, 4) == 16 * a;
  }

  lemma {:induction false} StepBound(c: nat, v: nat)
    requires v < Pow2(30)
    ensures Step(c, v) < Pow2(30)
  {
    ShiftedBound(c);
    FeedbackBound(Shr(c, 25), 5);
    XorBound(Shl(Low(c, 25), 5), v, 30);
    XorBound(Xor(Shl(Low(c, 25), 5), v), Feedback(Shr(c, 25), 5), 30);
  }

  lemma {:induction false} FoldBound(c: nat, vs: seq<nat>)
    requires c < Pow2(30) && Below(vs, Pow2(30))
    ensures Fold(c, vs) < Pow2(30)
  {
    if vs != [] {
      FoldBound(c, vs[..|vs| - 1]);
      StepBound(Fold(c, vs[..|vs| - 1]), vs[|vs| - 1]);
    }
  }

  /** `polymod`, with the reductions to 32 bits that JavaScript makes; they never change a value. */
  method Polymod(values: seq<nat>) returns (checksum: nat)
    requires Below(values, 0x4000_0000)
    ensures checksum == Fold(1, values) && checksum < 0x4000_0000
  {
    Pow2Values();
    checksum := 1;
    assert values[..0] == [];
    for i := 0 to |values|
      invariant checksum == Fold(1, values[..i]) && checksum < 0x4000_0000
    {
      assert values[..i + 1][..i] == values[..i];
      ghost var before := checksum;
      var top := Shr(checksum, 25);
      ShiftedBound(checksum);
      ToInt32Exact(Shl(Low(checksum, 25), 5));
      checksum := Xor(ToInt32(Shl(Low(checksum, 25), 5)), values[i]);
      checksum := ApplyGenerators(checksum, top);
      StepBound(before, values[i]);
    }
    assert values[..|values|] == values;
  }

  /** The inner loop of `polymod`. */
  method ApplyGenerators(shifted: nat, top: nat) returns (checksum: nat)
    ensures checksum == Xor(shifted, Feedback(top, 5))
  {
    checksum := shifted;
    XorZero(shifted);
    for index := 0 to 5
      invariant checksum == Xor(shifted, Feedback(top, index))
    {
      if Bit(top, index) {
        XorAssoc(shifted, Feedback(top, index), GENERATORS[index]);
        checksum := Xor(checksum, GENERATORS[index]);
      } else {
        XorZero(Feedback(top, index));
      }
    }
  }

  lemma XorZero(a: nat)
    ensures Xor(a, 0) == a && Xor(0, a) == a
  {
  }

  // ---------- linearity ----------

  lemma {:induction false} FeedbackLinear(a: nat, b: nat, n: nat)
    requires n <= 5
    ensures Feedback(Xor(a, b), n) == Xor(Feedback(a, n), Feedback(b, n))
  {
    if n > 0 {
      FeedbackLinear(a, b, n - 1);
      XorBit(a, b, n - 1);
      var g := GENERATORS[n - 1];
      var x, y := if Bit(a, n - 1) then g else 0, if Bit(b, n - 1) then g else 0;
      XorSelf(g);
      assert (if Bit(Xor(a, b), n - 1) then g else 0) == Xor(x, y);
      XorShuffle(Feedback(a, n - 1), Feedback(b, n - 1), x, y);
    }
  }

  lemma {:induction false} StepLinear(c: nat, d: nat, v: nat, w: nat)
    ensures Step(Xor(c, d), Xor(v, w)) == Xor(Step(c, v), Step(d, w))
  {
    XorLow(c, d, 25);
    XorShl(Low(c, 25), Low(d, 25), 5);
    XorShr(c, d, 25);
    FeedbackLinear(Shr(c, 25), Shr(d, 25), 5);
    var x, y := Shl(Low(c, 25), 5), Shl(Low(d, 25), 5);
    XorShuffle(x, y, v, w);
    XorShuffle(Xor(x, v), Xor(y, w), Feedback(Shr(c, 25), 5), Feedback(Shr(d, 25), 5));
  }

  /** The words of two lists combined position by position. */
  function XorWords(vs: seq<nat>, ws: seq<nat>): (r: seq<nat>)
    requires |vs| == |ws|
    ensures |r| == |vs|
  {
    seq(|vs|, i requires 0 <= i < |vs| => Xor(vs[i], ws[i]))
  }

  lemma {:induction false} FoldLinear(c: nat, d: nat, vs: seq<nat>, ws: seq<nat>)
    requires |vs| == |ws|
    ensures Fold(Xor(c, d), XorWords(vs, ws)) == Xor(Fold(c, vs), Fold(d, ws))
  {
    if vs != [] {
      var n := |vs| - 1;
      FoldLinear(c, d, vs[..n], ws[..n]);
      assert XorWords(vs, ws)[..n] == XorWords(vs[..n], ws[..n]);
      StepLinear(Fold(c, vs[..n]), Fold(d, ws[..n]), vs[n], ws[n]);
    }
  }

  // ---------- a round with a zero word loses nothing ----------

  /** Which generators have which of their five lowest bits set. */
  lemma FirstGenerators(k: nat)
    requires k < 5
    ensures Bit(GENERATORS[0], k) == (k == 1 || k == 4)
    ensures Bit(GENERATORS[1], k) == (k == 0 || k == 2 || k == 3)
    ensures Bit(GENERATORS[2], k) == (k == 1 || k == 3 || k == 4)
  {
    if k == 0 {} else if k == 1 {} else if k == 2 {} else if k == 3 {} else {}
  }

  lemma LastGenerators(k: nat)
    requires k < 5
    ensures Bit(GENERATORS[3], k) == (k != 1)
    ensures Bit(GENERATORS[4], k) == (k == 0 || k == 1 || k == 4)
  {
    if k == 0 {} else if k == 1 {} else if k == 2 {} else if k == 3 {} else {}
  }

  lemma {:induction false} ZeroBits(a: nat, n: nat)
    requires a < Pow2(n) && forall k :: 0 <= k < n ==> !Bit(a, k)
    ensures a == 0
  {
    if n > 0 {
      assert !Bit(a, 0);
      forall k | 0 <= k < n - 1 ensures !Bit(a / 2, k) { assert !Bit(a, k + 1); }
      ZeroBits(a / 2, n - 1);
    }
  }

  /** The five lowest bits of the feedback determine the bits that selected it. */
  lemma FeedbackInjective(top: nat)
    requires top < Pow2(5) && forall k :: 0 <= k < 5 ==> !Bit(Feedback(top, 5), k)
    ensures top == 0
  {
    FeedbackBits(top, 0);
    FeedbackBits(top, 1);
    FeedbackBits(top, 2);
    FeedbackBits(top, 3);
    FeedbackBits(top, 4);
    assert !Bit(Feedback(top, 5), 0) && !Bit(Feedback(top, 5), 1) && !Bit(Feedback(top, 5), 2);
    assert !Bit(Feedback(top, 5), 3) && !Bit(Feedback(top, 5), 4);
    ZeroBits(top, 5);
  }

  predicate Odd(a: bool, b: bool, c: bool, d: bool, e: bool) {
    ((((a != b) != c) != d) != e)
  }

  lemma FeedbackBits(top: nat, k: nat)
    requires k < 5
    ensures Bit(Feedback(top, 5), k) <==>
            Odd(Bit(top, 0) && (k == 1 || k == 4), Bit(top, 1) && (k == 0 || k == 2 || k == 3),
                Bit(top, 2) && (k == 1 || k == 3 || k == 4), Bit(top, 3) && k != 1,
                Bit(top, 4) && (k == 0 || k == 1 || k == 4))
  {
    FirstGenerators(k);
    LastGenerators(k);
    FirstBits(top, k);
    FeedbackBit(top, 3, k);
    FeedbackBit(top, 4, k);
  }

  lemma FirstBits(top: nat, k: nat)
    ensures Bit(Feedback(top, 3), k) <==>
            Odd(Bit(top, 0) && Bit(GENERATORS[0], k), Bit(top, 1) && Bit(GENERATORS[1], k),
                Bit(top, 2) && Bit(GENERATORS[2], k), false, false)
  {
    FeedbackBit(top, 0, k);
    FeedbackBit(top, 1, k);
    FeedbackBit(top, 2, k);
    NoBits(k);
  }

  lemma FeedbackBit(top: nat, n: nat, k: nat)
    requires n < 5
    ensures Bit(Feedback(top, n + 1), k) == (Bit(Feedback(top, n), k) != (Bit(top, n) && Bit(GENERATORS[n], k)))
  {
    XorBit(Feedback(top, n), if Bit(top, n) then GENERATORS[n] else 0, k);
    NoBits(k);
  }

  lemma {:induction false} NoBits(k: nat)
    ensures !Bit(0, k)
  {
    ShrZero(k);
  }

  lemma {:induction false} ShrZero(k: nat)
    ensures Shr(0, k) == 0
  {
    if k > 0 { ShrZero(k - 1); }
  }

  /** Only the zero state is taken to zero by a zero word. */
  lemma {:induction false} StepZeroInjective(c: nat)
    requires c < Pow2(30) && Step(c, 0) == 0
    ensures c == 0
  {
    var x, top := Shl(Low(c, 25), 5), Shr(c, 25);
    var g := Feedback(top, 5);
    XorZero(x);
    XorCancel(x, g);
    assert x == g;
    forall k | 0 <= k < 5 ensures !Bit(g, k) { LowBitsClear(Low(c, 25), k); }
    TopBound(c);
    FeedbackInjective(top);
    NoFeedback();
    ShlFive(Low(c, 25));
    Recompose(c, 25);
    ShlZero(25);
  }

  lemma TopBound(c: nat)
    requires c < Pow2(30)
    ensures Shr(c, 25) < Pow2(5)
  {
    ShrShr(c, 25, 5);
    LowSmall(c, 30);
    Recompose(Shr(c, 25), 5);
    ShlZero(5);
  }

  lemma {:induction false} LowBitsClear(a: nat, k: nat)
    requires k < 5
    ensures !Bit(Shl(a, 5), k)
  {
    ShlShl(a, 5 - k, k);
    Split(Shl(a, 5 - k), 0, k);
    assert Shl(a, 5 - k) == 2 * Shl(a, 4 - k);
  }

  function Zeros(n: nat): (z: seq<nat>)
    ensures |z| == n && Below(z, 1)
  {
    seq(n, _ => 0)
  }

  lemma {:induction false} FoldZerosInjective(c: nat, n: nat)
    requires c < Pow2(30) && Fold(c, Zeros(n)) == 0
    ensures c == 0
  {
    if n > 0 {
      assert Zeros(n)[..n - 1] == Zeros(n - 1);
      FoldBound(c, Zeros(n - 1));
      StepZeroInjective(Fold(c, Zeros(n - 1)));
      FoldZerosInjective(c, n - 1);
    }
  }

  // ---------- six words fill the state ----------

  /** Up to six words folded into the zero state are simply written one after the other. */
  lemma {:induction false} FoldWords(ws: seq<nat>)
    requires |ws| <= 6 && Below(ws, 32)
    ensures Fold(0, ws) == Val(ws, 5) && Fold(0, ws) < Pow2(5 * |ws|)
  {
    if ws == [] {
      FoldEmpty(0);
    } else {
      var n := |ws| - 1;
      FoldWords(ws[..n]);
      FoldLast(0, ws);
      GrowsByFive(Fold(0, ws[..n]), ws[n], n);
      StepSmall(Fold(0, ws[..n]), ws[n]);
    }
  }

  lemma GrowsByFive(c: nat, v: nat, n: nat)
    requires n <= 5 && c < Pow2(5 * n) && v < 32
    ensures c < Pow2(25) && 32 * c + v < Pow2(5 * (n + 1))
  {
    Pow2Monotone(5 * n, 25);
    Pow2Add(5 * n, 5);
    Pow2Values();
  }

  /** Before the sixth word there is nothing to feed back. */
  lemma StepSmall(c: nat, v: nat)
    requires c < Pow2(25) && v < 32
    ensures Step(c, v) == Shl(c, 5) + v == 32 * c + v
  {
    Pow2Values();
    LowSmall(c, 25);
    NoFeedback();
    XorBelow(c, v, 5);
    XorZero(Xor(Shl(c, 5), v));
    ShlFive(c);
  }

  lemma NoFeedback()
    ensures Feedback(0, 5) == 0
  {
    FeedbackLinear(0, 0, 5);
    XorSelf(Feedback(0, 5));
  }

  // ---------- the checksum ----------

  function HrpExpand(hrp: string): (vs: seq<nat>)
    ensures |vs| == 2 * |hrp| + 1 && Below(vs, 0x4000_0000)
  {
    seq(|hrp|, i requires 0 <= i < |hrp| => Shr(hrp[i] as int, 5)) + [0] +
    seq(|hrp|, i requires 0 <= i < |hrp| => LowFive(hrp[i] as int))
  }

  function LowFive(a: nat): (r: nat)
    ensures r < 32
  {
    Pow2Values();
    Low(a, 5)
  }

  /** Each character is split into its high and its low five bits, on either side of a zero. */
  lemma HrpExpandSplits(hrp: string, i: nat)
    requires i < |hrp|
    ensures HrpExpand(hrp)[|hrp|] == 0
    ensures var high, low := HrpExpand(hrp)[i], HrpExpand(hrp)[|hrp| + 1 + i];
            low < 32 && hrp[i] as int == 32 * high + low
  {
    var c := hrp[i] as int;
    Recompose(c, 5);
    ShlFive(Shr(c, 5));
  }

  /** `hrpExpand`: the high parts, a zero, the low parts. */
  method ExpandHrp(hrp: string) returns (result: seq<nat>)
    ensures result == HrpExpand(hrp)
  {
    result := [];
    for i := 0 to |hrp|
      invariant result == HrpExpand(hrp)[..i]
    {
      result := result + [Shr(hrp[i] as int, 5)];
    }
    result := result + [0];
    for i := 0 to |hrp|
      invariant result == HrpExpand(hrp)[..|hrp| + 1 + i]
    {
      result := result + [LowFive(hrp[i] as int)];
    }
  }

  function Mod(hrp: string, data: seq<nat>): (m: nat) {
    Xor(Fold(1, HrpExpand(hrp) + data + Zeros(6)), BECH32M_CONST)
  }

  /** `(mod >> (5 * (5 - index))) & 31` */
  function ChecksumWord(mod: nat, index: nat, count: nat): (w: nat)
    requires index < count
    ensures w < 32
  {
    LowFive(Shr(mod, 5 * (count - 1 - index)))
  }

  function CreateChecksum(hrp: string, data: seq<nat>): (ws: seq<nat>)
    ensures |ws| == 6 && Below(ws, 32)
  {
    seq(6, i requires 0 <= i < 6 => ChecksumWord(Mod(hrp, data), i, 6))
  }

  function Words(ds: seq<int>): (ws: seq<nat>)
    requires DigitsBelow(ds, 32)
    ensures ws == ds && Below(ws, 32)
  {
    seq(|ds|, i requires 0 <= i < |ds| => ds[i])
  }

  lemma {:induction false} TimesFive(n: nat)
    ensures Times(n, 5) == 5 * n
  {
    if n > 0 { TimesFive(n - 1); }
  }

  /** The words of the checksum are the digits of the remainder, and likewise for any number of words. */
  lemma WordAt(m: nat, count: nat, i: nat)
    requires i < count
    ensures Digits(m, count, 5)[i] == ChecksumWord(m, i, count)
  {
    TimesFive(count - 1 - i);
    DigitAt(m, count, 5, i);
  }

  predicate VerifyChecksum(hrp: string, data: seq<nat>) {
    Fold(1, HrpExpand(hrp) + data) == BECH32M_CONST
  }

  lemma ModBound(hrp: string, data: seq<nat>)
    requires Below(data, 32)
    ensures Mod(hrp, data) < Pow2(30)
  {
    Pow2Values();
    FoldBound(1, HrpExpand(hrp) + data + Zeros(6));
    XorBound(Fold(1, HrpExpand(hrp) + data + Zeros(6)), BECH32M_CONST, 30);
  }

  /** The six checksum words spell out the remainder. */
  lemma ChecksumValue(hrp: string, data: seq<nat>)
    requires Below(data, 32)
    ensures Val(CreateChecksum(hrp, data), 5) == Mod(hrp, data)
  {
    ModBound(hrp, data);
    TimesFive(6);
    ValOfFittingDigits(Mod(hrp, data), 6, 5);
    ChecksumDigits(hrp, data, Mod(hrp, data), 6);
  }

  lemma ChecksumDigits(hrp: string, data: seq<nat>, mod: nat, count: nat)
    requires mod == Mod(hrp, data) && count == 6
    ensures CreateChecksum(hrp, data) == Digits(mod, count, 5)
  {
    AllDigits(CreateChecksum(hrp, data), mod, count);
  }

  lemma AllDigits(ws: seq<nat>, mod: nat, count: nat)
    requires |ws| == count && forall i :: 0 <= i < count ==> ws[i] == ChecksumWord(mod, i, count)
    ensures ws == Digits(mod, count, 5)
  {
    forall i | 0 <= i < count ensures ws[i] == Digits(mod, count, 5)[i] { WordAt(mod, count, i); }
  }

  /** Six more words change the state that six zeros would give by exactly the number they spell. */
  lemma {:induction false} FoldSuffix(c: nat, ws: seq<nat>)
    requires |ws| == 6 && Below(ws, 32)
    ensures Val(ws, 5) >= 0 && Fold(c, ws) == Xor(Fold(c, Zeros(6)), Val(ws, 5))
  {
    FoldLinear(c, 0, Zeros(6), ws);
    assert XorWords(Zeros(6), ws) == ws by {
      forall i | 0 <= i < 6 ensures XorWords(Zeros(6), ws)[i] == ws[i] { XorZero(ws[i]); }
    }
    XorZero(c);
    FoldWords(ws);
  }

  lemma VerifySuffix(hrp: string, data: seq<nat>, ws: seq<nat>)
    requires Below(data, 32) && |ws| == 6 && Below(ws, 32)
    ensures Val(ws, 5) >= 0
    ensures VerifyChecksum(hrp, data + ws) <==>
            Xor(Fold(1, HrpExpand(hrp) + data + Zeros(6)), Val(ws, 5)) == BECH32M_CONST
  {
    var prefix := HrpExpand(hrp) + data;
    assert HrpExpand(hrp) + (data + ws) == prefix + ws;
    FoldConcat(1, prefix, ws);
    FoldConcat(1, prefix, Zeros(6));
    FoldSuffix(Fold(1, prefix), ws);
  }

  /** Among all six-word suffixes exactly the created checksum verifies. */
  lemma {:induction false} ChecksumUnique(hrp: string, data: seq<nat>, ws: seq<nat>)
    requires Below(data, 32) && |ws| == 6 && Below(ws, 32)
    ensures VerifyChecksum(hrp, data + ws) <==> ws == CreateChecksum(hrp, data)
  {
    VerifySuffix(hrp, data, ws);
    XorSolve(Fold(1, HrpExpand(hrp) + data + Zeros(6)), Val(ws, 5), BECH32M_CONST);
    ChecksumValue(hrp, data);
    if Val(ws, 5) == Mod(hrp, data) { SameWords(ws, CreateChecksum(hrp, data)); }
  }

  lemma SameWords(a: seq<nat>, b: seq<nat>)
    requires Below(a, 32) && Below(b, 32) && |a| == |b| && Val(a, 5) == Val(b, 5)
    ensures a == b
  {
    Pow2Values();
    SameDigits(a, b, 5);
  }

  lemma XorSolve(f: nat, v: nat, k: nat)
    ensures Xor(f, v) == k <==> v == Xor(f, k)
  {
    XorAssoc(f, f, v);
    XorAssoc(f, f, k);
    XorSelf(f);
  }

  // ---------- burst errors ----------

  /** Equal outside `[at, at + 6)`. */
  ghost predicate SameOutside(x: seq<nat>, y: seq<nat>, at: nat) {
    |x| == |y| && forall i :: 0 <= i < |x| && !(at <= i < at + 6) ==> x[i] == y[i]
  }

  /** The difference of two accepted data parts folds to zero. */
  lemma DifferenceFolds(hrp: string, x: seq<nat>, y: seq<nat>)
    requires |x| == |y| && VerifyChecksum(hrp, x) && VerifyChecksum(hrp, y)
    ensures Fold(0, XorWords(HrpExpand(hrp) + x, HrpExpand(hrp) + y)) == 0
  {
    XorSelf(1);
    FoldLinear(1, 1, HrpExpand(hrp) + x, HrpExpand(hrp) + y);
    XorSelf(BECH32M_CONST);
  }

  /** A burst between runs of zeros folds to zero only if it is zero itself. */
  lemma {:induction false} BurstFolds(before: nat, mid: seq<nat>, after: nat)
    requires |mid| <= 6 && Below(mid, 32) && Fold(0, Zeros(before) + (mid + Zeros(after))) == 0
    ensures Below(mid, 1)
  {
    FoldZeros(before);
    FoldConcat(0, Zeros(before), mid + Zeros(after));
    FoldConcat(0, mid, Zeros(after));
    FoldWords(mid);
    Pow2Monotone(5 * |mid|, 30);
    FoldZerosInjective(Fold(0, mid), after);
    ZeroWords(mid);
  }

  /** Two data parts that differ only inside six consecutive words never both pass under the same prefix, at any length. */
  lemma {:induction false} BurstDetected(hrp: string, x: seq<nat>, y: seq<nat>, at: nat)
    requires Below(x, 32) && Below(y, 32) && SameOutside(x, y, at)
    requires VerifyChecksum(hrp, x) && VerifyChecksum(hrp, y)
    ensures x == y
  {
    var lo, hi := if at <= |x| then at else |x|, if at + 6 <= |x| then at + 6 else |x|;
    DifferenceFolds(hrp, x, y);
    BurstIsEmpty(HrpExpand(hrp), x, y, lo, hi, XorWords(HrpExpand(hrp) + x, HrpExpand(hrp) + y));
    Spliced(x, y, lo, hi);
  }

  lemma Spliced(x: seq<nat>, y: seq<nat>, lo: nat, hi: nat)
    requires |x| == |y| && lo <= hi <= |x| && x[lo..hi] == y[lo..hi]
    requires forall i :: 0 <= i < |x| && !(lo <= i < hi) ==> x[i] == y[i]
    ensures x == y
  {
    forall i | 0 <= i < |x| ensures x[i] == y[i] {
      if lo <= i < hi { assert x[lo..hi][i - lo] == y[lo..hi][i - lo]; }
    }
  }

  lemma BurstIsEmpty(h: seq<nat>, x: seq<nat>, y: seq<nat>, lo: nat, hi: nat, difference: seq<nat>)
    requires Below(x, 32) && Below(y, 32) && |x| == |y| && lo <= hi <= |x| && hi <= lo + 6
    requires forall i :: 0 <= i < |x| && !(lo <= i < hi) ==> x[i] == y[i]
    requires difference == XorWords(h + x, h + y) && Fold(0, difference) == 0
    ensures x[lo..hi] == y[lo..hi]
  {
    var mx, my := x[lo..hi], y[lo..hi];
    SliceBelow(x, lo, hi);
    SliceBelow(y, lo, hi);
    DifferenceShape(h, x, y, lo, hi, mx, my);
    OnlyBurst(|h| + lo, mx, my, |x| - hi, difference);
  }

  lemma SliceBelow(x: seq<nat>, lo: nat, hi: nat)
    requires Below(x, 32) && lo <= hi <= |x|
    ensures Below(x[lo..hi], 32)
  {
  }

  lemma OnlyBurst(before: nat, x: seq<nat>, y: seq<nat>, after: nat, difference: seq<nat>)
    requires |x| == |y| <= 6 && Below(x, 32) && Below(y, 32)
    requires difference == Zeros(before) + (XorWords(x, y) + Zeros(after)) && Fold(0, difference) == 0
    ensures x == y
  {
    MidBelow(x, y);
    BurstFolds(before, XorWords(x, y), after);
    NoDifference(x, y);
  }

  lemma NoDifference(x: seq<nat>, y: seq<nat>)
    requires |x| == |y| && Below(XorWords(x, y), 1)
    ensures x == y
  {
    forall i | 0 <= i < |x| ensures x[i] == y[i] {
      assert XorWords(x, y)[i] == 0;
      XorCancel(x[i], y[i]);
    }
  }

  lemma DifferenceShape(h: seq<nat>, x: seq<nat>, y: seq<nat>, lo: nat, hi: nat, mx: seq<nat>, my: seq<nat>)
    requires |x| == |y| && lo <= hi <= |x| && mx == x[lo..hi] && my == y[lo..hi]
    requires forall i :: 0 <= i < |x| && !(lo <= i < hi) ==> x[i] == y[i]
    ensures XorWords(h + x, h + y) == Zeros(|h| + lo) + (XorWords(mx, my) + Zeros(|x| - hi))
  {
    forall i | 0 <= i < |h + x| && !(|h| + lo <= i < |h| + hi) ensures XorWords(h + x, h + y)[i] == 0 {
      XorSelf((h + x)[i]);
    }
  }

  lemma {:induction false} FoldZeros(n: nat)
    ensures Fold(0, Zeros(n)) == 0
  {
    if n > 0 {
      FoldZeros(n - 1);
      assert Zeros(n)[..n - 1] == Zeros(n - 1);
      StepLinear(0, 0, 0, 0);
      XorSelf(Step(0, 0));
    }
  }

  lemma MidBelow(x: seq<nat>, y: seq<nat>)
    requires |x| == |y| && Below(x, 32) && Below(y, 32)
    ensures Below(XorWords(x, y), 32)
  {
    Pow2Values();
    forall i | 0 <= i < |x| ensures XorWords(x, y)[i] < 32 { XorBound(x[i], y[i], 5); }
  }

  lemma {:induction false} ZeroWords(ws: seq<nat>)
    requires Val(ws, 5) == 0 && Below(ws, 32)
    ensures Below(ws, 1)
  {
    if ws != [] {
      var front := ws[..|ws| - 1];
      Pow2Values();
      ValNonNegative(front, 5);
      ShlFive(Val(front, 5));
      ZeroWords(front);
      assert ws == front + [ws[|ws| - 1]];
    }
  }
}
