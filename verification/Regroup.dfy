/** `convertBits`: a bit stream cut into groups of another width, with a 32-bit accumulator that is never masked. */
module Regroup {
  import opened Common
  import opened Numbers
  import opened Bech32

  /** `value < 0 || value >> from !== 0` is what makes the source throw. */
  predicate InRange(data: seq<int>, from: nat) {
    forall i :: 0 <= i < |data| ==> data[i] >= 0 && Shr(data[i], from) == 0
  }

  lemma InRangeIsBelow(data: seq<int>, from: nat)
    ensures InRange(data, from) <==> DigitsBelow(data, Pow2(from))
  {
    forall i | 0 <= i < |data| ensures data[i] >= 0 && Shr(data[i], from) == 0 <==> 0 <= data[i] < Pow2(from) {
      if data[i] >= 0 {
        Recompose(data[i], from);
        ShlZero(from);
        if data[i] < Pow2(from) { LowSmall(data[i], from); }
      }
    }
  }

  /**
   * Both lists are the same stream of bits, read as one unbounded number, except that the second one
   * is longer by `gap` zero bits.
   */
  ghost predicate Extends(a: seq<int>, wa: nat, b: seq<int>, wb: nat, gap: nat) {
    && DigitsBelow(a, Pow2(wa)) && DigitsBelow(b, Pow2(wb))
    && Times(|b|, wb) == Times(|a|, wa) + gap
    && Val(b, wb) == Shl(Val(a, wa), gap)
  }

  /** What the strict direction may return. */
  ghost predicate Strict(data: seq<int>, from: nat, res: seq<int>, to: nat, rest: nat) {
    Extends(res, to, data, from, rest) && rest < from && rest < to
  }

  // ---------- the accumulator ----------

  /** Taking in one group: the wrapped accumulator still agrees with the unbounded number on `w` bits. */
  lemma TakeIn(acc: int, n: nat, v: nat, from: nat, w: nat)
    requires Low(acc, w) == Low(n, w) && v < Pow2(from)
    ensures Low(Wrap(Shl(acc, from), w) + v, w) == Low(Shl(n, from) + v, w)
    ensures Shr(Shl(n, from) + v, from) == n
  {
    LowShl(acc, n, w, from);
    WrapLow(Shl(acc, from), w);
    LowAdd(Wrap(Shl(acc, from), w), Shl(n, from), v, w);
    Split(n, v, from);
  }

  /** The shift has cleared the bits that the group is or-ed into, also when the wrapped accumulator is negative. */
  lemma RoomBelow(acc: int, from: nat, v: nat, w: nat)
    requires v < Pow2(from) && from <= w
    ensures Or(Wrap(Shl(acc, from), w), v) == Wrap(Shl(acc, from), w) + v
  {
    var x := Wrap(Shl(acc, from), w);
    WrapLow(Shl(acc, from), w);
    LowLow(x, from, w);
    LowLow(Shl(acc, from), from, w);
    LowOfShl(acc, from);
    OrIsAdd(x, v, from);
  }

  /** Giving out one group: the next `to` bits of the stream. */
  lemma GiveOut(acc: int, n: nat, bits: nat, to: nat, w: nat)
    requires Low(acc, w) == Low(n, w) && bits + to <= w
    ensures Shl(Shr(n, bits + to), to) + Low(Shr(acc, bits), to) == Shr(n, bits)
  {
    SameField(acc, n, w, bits, to);
    ShrShr(n, bits, to);
    Recompose(Shr(n, bits), to);
  }

  /** The last, incomplete group, filled up with zeros. */
  lemma FillUp(acc: int, n: nat, bits: nat, to: nat, w: nat)
    requires Low(acc, w) == Low(n, w) && bits < to <= w
    ensures var last := Low(Wrap(Shl(acc, to - bits), w), to);
            && Shl(Shr(n, bits), to) + last == Shl(n, to - bits)
            && (last == 0 <==> Low(n, bits) == 0)
  {
    var g := to - bits;
    LowShl(acc, n, w, g);
    WrapLow(Shl(acc, g), w);
    LowLow(Wrap(Shl(acc, g), w), to, w);
    LowLow(Shl(n, g), to, w);
    Filled(n, bits, g);
  }

  /** A number shifted up by `g`, seen as its part above `bits` and the rest. */
  lemma Filled(n: nat, bits: nat, g: nat)
    ensures Shl(Shr(n, bits), bits + g) + Low(Shl(n, g), bits + g) == Shl(n, g)
    ensures Low(Shl(n, g), bits + g) == 0 <==> Low(n, bits) == 0
  {
    Recompose(n, bits);
    FilledParts(Shr(n, bits), Low(n, bits), bits, g, bits + g);
  }

  lemma FilledParts(hi: nat, lo: nat, bits: nat, g: nat, m: nat)
    requires lo < Pow2(bits) && m == bits + g
    ensures var x := Shl(Shl(hi, bits) + lo, g); x == Shl(hi, m) + Low(x, m) && (Low(x, m) == 0 <==> lo == 0)
  {
    ShlLinear(Shl(hi, bits), lo, g);
    ShlShl(hi, bits, g);
    ShlBelow(lo, bits, g);
    Split(hi, Shl(lo, g), m);
    ShlInjectiveZero(lo, g);
  }

  lemma {:induction false} ShlInjectiveZero(a: nat, g: nat)
    ensures Shl(a, g) == 0 <==> a == 0
  {
    ShlZero(g);
  }

  lemma {:induction false} ShlBelow(a: nat, k: nat, g: nat)
    requires a < Pow2(k)
    ensures Shl(a, g) < Pow2(k + g)
  {
    if g > 0 { ShlBelow(a, k, g - 1); }
  }

  lemma ValSnoc(ds: seq<int>, d: int, w: nat)
    ensures Val(ds + [d], w) == Shl(Val(ds, w), w) + d
  {
    assert (ds + [d])[..|ds|] == ds;
  }

  // ---------- uniqueness ----------

  lemma {:induction false} TimesOrder(m: nat, n: nat, w: nat)
    requires m < n
    ensures Times(m, w) + w <= Times(n, w)
  {
    if m + 1 < n { TimesOrder(m, n - 1, w); }
  }

  /** The number of groups and of bits left over is determined by the number of bits. */
  lemma SameGroups(m: nat, r: nat, n: nat, s: nat, w: nat)
    requires Times(m, w) + r == Times(n, w) + s && r < w && s < w
    ensures m == n && r == s
  {
    if m < n { TimesOrder(m, n, w); } else if n < m { TimesOrder(n, m, w); }
  }

  lemma {:induction false} ShlInjective(a: int, b: int, k: nat)
    requires Shl(a, k) == Shl(b, k)
    ensures a == b
  {
    if k > 0 { ShlInjective(a, b, k - 1); }
  }

  /** A stream has at most one strict reading. */
  lemma StrictUnique(data: seq<int>, from: nat, x: seq<int>, r: nat, y: seq<int>, s: nat, to: nat)
    requires Strict(data, from, x, to, r) && Strict(data, from, y, to, s)
    ensures x == y && r == s
  {
    SameGroups(|x|, r, |y|, s, to);
    ShlInjective(Val(x, to), Val(y, to), r);
    SameDigits(x, y, to);
  }

  /** A stream has at most one padded writing. */
  lemma PaddedUnique(data: seq<int>, from: nat, x: seq<int>, g: nat, y: seq<int>, h: nat, to: nat)
    requires Extends(data, from, x, to, g) && Extends(data, from, y, to, h) && g < to && h < to
    ensures x == y && g == h
  {
    if |x| < |y| { TimesOrder(|x|, |y|, to); } else if |y| < |x| { TimesOrder(|y|, |x|, to); }
    SameDigits(x, y, to);
  }

  lemma NoStrict(data: seq<int>, from: nat, to: nat, whole: nat, bits: nat)
    requires Times(whole, to) + bits == Times(|data|, from) && bits < to && (bits >= from || Low(Val(data, from), bits) != 0)
    ensures !exists res, rest :: Strict(data, from, res, to, rest)
  {
    forall res, rest | Strict(data, from, res, to, rest) ensures false {
      SameGroups(|res|, rest, whole, bits, to);
      Split(Val(res, to), 0, bits);
    }
  }

  // ---------- the loops ----------

  /** Where the outer loop stands after the groups of `done`. */
  ghost predicate Midway(done: seq<int>, from: nat, acc: int, bits: nat, result: seq<int>, to: nat, w: nat) {
    && DigitsBelow(done, Pow2(from)) && DigitsBelow(result, Pow2(to))
    && Low(acc, w) == Low(Val(done, from), w)
    && bits + Times(|result|, to) == Times(|done|, from)
    && Val(result, to) == Shr(Val(done, from), bits)
  }

  /** The inner loop: all complete groups are given out. */
  method Drain(ghost done: seq<int>, ghost from: nat, acc: int, bits: nat, result: seq<int>, to: nat, ghost w: nat)
    returns (bits': nat, result': seq<int>)
    requires 0 < to && Midway(done, from, acc, bits, result, to, w) && bits <= w
    ensures Midway(done, from, acc, bits', result', to, w) && bits' < to
  {
    bits', result' := bits, result;
    while bits' >= to
      invariant Midway(done, from, acc, bits', result', to, w) && bits' <= w
      decreases bits'
    {
      bits' := bits' - to;
      var d := Low(Shr(acc, bits'), to);
      ValNonNegative(done, from);
      GiveOut(acc, Val(done, from), bits', to, w);
      ValSnoc(result', d, to);
      result' := result' + [d];
    }
  }

  /** Taking in the next group. */
  lemma MidwayStep(done: seq<int>, from: nat, acc: int, bits: nat, result: seq<int>, to: nat, w: nat, v: nat)
    requires Midway(done, from, acc, bits, result, to, w) && v < Pow2(from)
    ensures Midway(done + [v], from, Wrap(Shl(acc, from), w) + v, bits + from, result, to, w)
  {
    ValNonNegative(done, from);
    StepValues(acc, Val(done, from), v, from, bits, w, bits + from);
    ValSnoc(done, v, from);
  }

  lemma StepValues(acc: int, n: nat, v: nat, from: nat, bits: nat, w: nat, more: nat)
    requires Low(acc, w) == Low(n, w) && v < Pow2(from) && more == from + bits
    ensures Low(Wrap(Shl(acc, from), w) + v, w) == Low(Shl(n, from) + v, w)
    ensures Shr(Shl(n, from) + v, more) == Shr(n, bits)
  {
    TakeIn(acc, n, v, from, w);
    ShrShr(Shl(n, from) + v, from, bits);
  }

  lemma MidwayStart(from: nat, to: nat, w: nat)
    ensures Midway([], from, 0, 0, [], to, w)
  {
  }

  /** One round of the outer loop. */
  method TakeGroup(ghost done: seq<int>, v: int, from: nat, acc: int, bits: nat, result: seq<int>, to: nat, w: nat)
    returns (acc': int, bits': nat, result': seq<int>)
    requires 0 < to && Midway(done, from, acc, bits, result, to, w) && bits < to && from + to <= w
    requires v >= 0 && Shr(v, from) == 0
    ensures Midway(done + [v], from, acc', bits', result', to, w) && bits' < to
  {
    ValueBelow(v, from);
    MidwayStep(done, from, acc, bits, result, to, w, v);
    RoomBelow(acc, from, v, w);
    acc' := Or(Wrap(Shl(acc, from), w), v);
    bits', result' := Drain(done + [v], from, acc', bits + from, result, to, w);
  }

  /** The loops of `convertBits`, for integers of any width that holds one group of each kind. */
  method ConvertWith(data: seq<int>, from: nat, to: nat, pad: bool, w: nat) returns (r: Result<seq<int>>, ghost gap: nat)
    requires 0 < from && 0 < to && from + to <= w
    ensures !InRange(data, from) ==> r.Err?
    ensures InRange(data, from) && pad ==> r.Ok? && Extends(data, from, r.value, to, gap) && gap < to
    ensures InRange(data, from) && !pad ==>
              if r.Ok? then Strict(data, from, r.value, to, gap)
              else !exists res, rest :: Strict(data, from, res, to, rest)
  {
    var accumulator, bits: nat, result := 0, 0, [];
    gap := 0;
    MidwayStart(from, to, w);
    assert data[..0] == [];
    for i := 0 to |data|
      invariant bits < to && Midway(data[..i], from, accumulator, bits, result, to, w)
      invariant InRange(data[..i], from)
    {
      if data[i] < 0 || Shr(data[i], from) != 0 {
        return Err, 0;
      }
      assert data[..i + 1] == data[..i] + [data[i]];
      accumulator, bits, result := TakeGroup(data[..i], data[i], from, accumulator, bits, result, to, w);
    }
    assert data[..|data|] == data;
    r, gap := Finish(data, from, accumulator, bits, result, to, w, pad);
  }

  /**
   * `convertBits` on 32-bit integers. Padded, it writes the stream in groups of `to` bits, adding fewer than `to` zero
   * bits; strict, it returns the groups from which the input is the padded writing, and throws exactly when there are
   * none.
   */
  method ConvertBits(data: seq<int>, from: nat, to: nat, pad: bool) returns (r: Result<seq<int>>, ghost gap: nat)
    requires 0 < from && 0 < to && from + to <= 32
    ensures !InRange(data, from) ==> r.Err?
    ensures InRange(data, from) && pad ==> r.Ok? && Extends(data, from, r.value, to, gap) && gap < to
    ensures InRange(data, from) && !pad ==>
              if r.Ok? then Strict(data, from, r.value, to, gap)
              else !exists res, rest :: Strict(data, from, res, to, rest)
  {
    r, gap := ConvertWith(data, from, to, pad, 32);
  }

  lemma ValueBelow(v: nat, from: nat)
    requires Shr(v, from) == 0
    ensures v < Pow2(from)
  {
    Recompose(v, from);
    ShlZero(from);
  }

  /** What `convertBits` does after its loop. */
  method Finish(data: seq<int>, from: nat, acc: int, bits: nat, groups: seq<int>, to: nat, w: nat, pad: bool)
    returns (r: Result<seq<int>>, ghost gap: nat)
    requires bits < to <= w && Midway(data, from, acc, bits, groups, to, w)
    ensures pad ==> r.Ok? && Extends(data, from, r.value, to, gap) && gap < to
    ensures !pad ==> if r.Ok? then Strict(data, from, r.value, to, gap)
                     else !exists res, rest :: Strict(data, from, res, to, rest)
  {
    ValNonNegative(data, from);
    FillUp(acc, Val(data, from), bits, to, w);
    var last := Low(Wrap(Shl(acc, to - bits), w), to);
    gap := 0;
    if pad {
      var result := groups;
      if bits > 0 {
        ValSnoc(result, last, to);
        result := result + [last];
        gap := to - bits;
      }
      r := Ok(result);
    } else if bits >= from || last != 0 {
      NoStrict(data, from, to, |groups|, bits);
      r := Err;
    } else {
      gap := bits;
      Recompose(Val(data, from), bits);
      r := Ok(groups);
    }
  }

  // ---------- bytes to words and back ----------

  const OCTET := 8

  /** Eight-bit groups written as five-bit groups. */
  function Pad5(bytes: seq<int>): (words: seq<int>)
    ensures DigitsBelow(words, 32)
  {
    Pow2Values();
    var count := (8 * |bytes| + 4) / 5;
    Digits(Shl(Val(bytes, OCTET), 5 * count - 8 * |bytes|), count, WORD)
  }

  /** Five-bit groups read as eight-bit groups, or nothing. */
  function Unpad8(words: seq<int>): (r: Result<seq<int>>)
    ensures r.Ok? ==> DigitsBelow(r.value, 256)
  {
    Pow2Values();
    var count, rest := 5 * |words| / 8, 5 * |words| % 8;
    if rest >= 5 || Low(Val(words, WORD), rest) != 0 then Err else Ok(Digits(Shr(Val(words, WORD), rest), count, OCTET))
  }

  lemma {:induction false} TimesIs(n: nat, w: nat)
    requires w == 5 || w == 8
    ensures Times(n, w) == w * n
  {
    if n > 0 { TimesIs(n - 1, w); }
  }

  lemma ValBelow(ds: seq<int>, w: nat)
    requires DigitsBelow(ds, Pow2(w))
    ensures 0 <= Val(ds, w) < Pow2(Times(|ds|, w))
  {
    ValNonNegative(ds, w);
    DigitsOfVal(ds, w);
    ValueBelow(Val(ds, w), Times(|ds|, w));
  }

  /** Writing a stream with `gap` more zero bits, when that fills whole groups. */
  lemma Padded(data: seq<int>, from: nat, count: nat, to: nat, gap: nat)
    requires DigitsBelow(data, Pow2(from)) && Times(count, to) == Times(|data|, from) + gap
    ensures Extends(data, from, Digits(Shl(Val(data, from), gap), count, to), to, gap)
  {
    ValBelow(data, from);
    ShlBelow(Val(data, from), Times(|data|, from), gap);
    ValOfFittingDigits(Shl(Val(data, from), gap), count, to);
  }

  /** Reading a stream without its last `rest` bits, when these are zero. */
  lemma Unpadded(data: seq<int>, from: nat, count: nat, to: nat, rest: nat)
    requires DigitsBelow(data, Pow2(from)) && Times(|data|, from) == Times(count, to) + rest
    requires Low(Val(data, from), rest) == 0
    ensures Extends(Digits(Shr(Val(data, from), rest), count, to), to, data, from, rest)
  {
    ValBelow(data, from);
    Recompose(Val(data, from), rest);
    QuotientFits(Val(data, from), rest, Times(count, to));
    ValOfDigits(Shr(Val(data, from), rest), count, to);
  }

  lemma QuotientFits(n: nat, rest: nat, bits: nat)
    requires n < Pow2(bits + rest)
    ensures Shr(Shr(n, rest), bits) == 0
  {
    assert bits + rest == rest + bits;
    LowSmall(n, rest + bits);
    ShrShr(n, rest, bits);
  }

  lemma Pad5Extends(bytes: seq<int>) returns (gap: nat)
    requires DigitsBelow(bytes, 256)
    ensures gap < 5 && Extends(bytes, 8, Pad5(bytes), 5, gap)
  {
    var count := (8 * |bytes| + 4) / 5;
    gap := 5 * count - 8 * |bytes|;
    Pow2Values();
    TimesIs(|bytes|, 8);
    TimesIs(count, 5);
    Padded(bytes, 8, count, 5, gap);
  }

  lemma Unpad8Strict(words: seq<int>) returns (rest: nat)
    requires DigitsBelow(words, 32)
    ensures if Unpad8(words).Ok? then Strict(words, 5, Unpad8(words).value, 8, rest)
            else !exists res, r :: Strict(words, 5, res, 8, r)
  {
    var count := 5 * |words| / 8;
    rest := 5 * |words| % 8;
    Pow2Values();
    TimesIs(|words|, 5);
    TimesIs(count, 8);
    if Unpad8(words).Ok? {
      Unpadded(words, 5, count, 8, rest);
    } else {
      NoStrict(words, 5, 8, count, rest);
    }
  }

  /** Padded and read back strictly, bytes come back and nothing is thrown. */
  lemma PadThenUnpad(bytes: seq<int>)
    requires DigitsBelow(bytes, 256)
    ensures Unpad8(Pad5(bytes)) == Ok(bytes)
  {
    var gap := Pad5Extends(bytes);
    var rest := Unpad8Strict(Pad5(bytes));
    assert Strict(Pad5(bytes), 5, bytes, 8, gap);
    StrictUnique(Pad5(bytes), 5, bytes, gap, Unpad8(Pad5(bytes)).value, rest, 8);
  }

  /** Whatever is read strictly is written back as the same words. */
  lemma UnpadThenPad(words: seq<int>)
    requires DigitsBelow(words, 32) && Unpad8(words).Ok?
    ensures Pad5(Unpad8(words).value) == words
  {
    var rest := Unpad8Strict(words);
    var bytes := Unpad8(words).value;
    var gap := Pad5Extends(bytes);
    PaddedUnique(bytes, 8, words, rest, Pad5(bytes), gap, 5);
  }

  /** `convertBits(payload, 8, 5, true)` */
  method ToWords(bytes: seq<int>) returns (words: seq<int>)
    requires DigitsBelow(bytes, 256)
    ensures words == Pad5(bytes)
  {
    Pow2Values();
    InRangeIsBelow(bytes, 8);
    ghost var g := Pad5Extends(bytes);
    var r, gap := ConvertBits(bytes, 8, 5, true);
    words := r.value;
    PaddedUnique(bytes, 8, words, gap, Pad5(bytes), g, 5);
  }

  /** `convertBits(words, 5, 8, false)` */
  method FromWords(words: seq<int>) returns (r: Result<seq<int>>)
    requires DigitsBelow(words, 32)
    ensures r == Unpad8(words)
  {
    Pow2Values();
    InRangeIsBelow(words, 5);
    ghost var rest := Unpad8Strict(words);
    ghost var gap;
    r, gap := ConvertBits(words, 5, 8, false);
    if r.Ok? && Unpad8(words).Ok? { StrictUnique(words, 5, r.value, gap, Unpad8(words).value, rest, 8); }
  }
}
