/** The shortest test vector of BIP-350, worked out by long division. */
module Bip350 {
  import opened Common
  import opened Numbers
  import opened Bech32
  import opened Gf32
  import Address
  import Regroup

  // a coefficient that is there, and one that is not
  const I := true
  const O := false

  lemma ZipSix<T>(f: (T, T) -> T, a: seq<T>, b: seq<T>, r: seq<T>)
    requires |a| == |b| == |r| == 6
    requires r[0] == f(a[0], b[0]) && r[1] == f(a[1], b[1]) && r[2] == f(a[2], b[2])
    requires r[3] == f(a[3], b[3]) && r[4] == f(a[4], b[4]) && r[5] == f(a[5], b[5])
    ensures forall k :: 0 <= k < 6 ==> r[k] == f(a[k], b[k])
  {
  }

  lemma AddAllIs(a: seq<Elem>, b: seq<Elem>, r: seq<Elem>)
    requires |a| == |b| == |r| && forall k :: 0 <= k < |r| ==> r[k] == Add(a[k], b[k])
    ensures AddAll(a, b) == r
  {
  }

  lemma MapSix<T>(f: T -> T, a: seq<T>, r: seq<T>)
    requires |a| == |r| == 6
    requires r[0] == f(a[0]) && r[1] == f(a[1]) && r[2] == f(a[2]) && r[3] == f(a[3]) && r[4] == f(a[4]) && r[5] == f(a[5])
    ensures forall k :: 0 <= k < 6 ==> r[k] == f(a[k])
  {
  }

  lemma ScaledMore(i: nat, es: seq<Elem>, r: seq<Elem>)
    requires |es| == |r| == 6 && ScaledAll(GENERATOR, i) == es && forall k :: 0 <= k < 6 ==> r[k] == Twice(es[k])
    ensures ScaledAll(GENERATOR, i + 1) == r
  {
    forall k | 0 <= k < 6 ensures ScaledAll(GENERATOR, i + 1)[k] == r[k] { assert es[k] == Scaled(GENERATOR[k], i); }
  }

  /** One more bit of the factor. */
  lemma MultipleMore(a: nat, n: nat)
    ensures Bit(a, n) ==> Multiple(a, n + 1) == AddAll(Multiple(a, n), ScaledAll(GENERATOR, n))
    ensures !Bit(a, n) ==> Multiple(a, n + 1) == Multiple(a, n)
  {
    if !Bit(a, n) {
      forall k | 0 <= k < 6 ensures Multiple(a, n + 1)[k] == Multiple(a, n)[k] { AddNothing(Product(a, GENERATOR[k], n)); }
    }
  }

  lemma AddNothing(e: Elem)
    ensures Add(e, ZERO) == e && Add(ZERO, e) == e
  {
  }

  /** The first bit that is set. */
  lemma MultipleFirst(a: nat, n: nat)
    requires Multiple(a, n) == Zero6() && Bit(a, n)
    ensures Multiple(a, n + 1) == ScaledAll(GENERATOR, n)
  {
    MultipleMore(a, n);
    forall k | 0 <= k < 6 ensures Multiple(a, n + 1)[k] == ScaledAll(GENERATOR, n)[k] { AddNothing(Scaled(GENERATOR[k], n)); }
  }

  lemma MultipleZero(a: nat)
    ensures Multiple(a, 0) == Zero6()
  {
  }

  /** The bits of a word are the coefficients. */
  lemma BitsOfNum(e: Elem)
    ensures Bit(Num(e), 0) == e.b0 && Bit(Num(e), 1) == e.b1 && Bit(Num(e), 2) == e.b2
    ensures Bit(Num(e), 3) == e.b3 && Bit(Num(e), 4) == e.b4
  {
    var n4 := Push(0, e.b4);
    var n3 := Push(n4, e.b3);
    ThreeBits(n3, e.b2, e.b1, e.b0);
    HighBits(n3, e.b2, e.b1, e.b0, 0);
    HighBits(n3, e.b2, e.b1, e.b0, 1);
    PushBit(n4, e.b3, 0);
    PushBit(0, e.b4, 0);
  }

  lemma ThreeBits(n: nat, b2: bool, b1: bool, b0: bool)
    ensures var m := Push(Push(Push(n, b2), b1), b0); Bit(m, 0) == b0 && Bit(m, 1) == b1 && Bit(m, 2) == b2
  {
    var n2 := Push(n, b2);
    var n1 := Push(n2, b1);
    PushBit(n1, b0, 0);
    PushBit(n1, b0, 1);
    PushBit(n2, b1, 0);
    PushBit(n, b2, 0);
  }

  lemma HighBits(n: nat, b2: bool, b1: bool, b0: bool, k: nat)
    ensures Bit(Push(Push(Push(n, b2), b1), b0), k + 3) == Bit(n, k)
  {
    PushBit(Push(Push(n, b2), b1), b0, k + 2);
    PushBit(Push(n, b2), b1, k + 1);
    PushBit(n, b2, k);
  }

  lemma PushBit(n: nat, b: bool, k: nat)
    ensures Bit(Push(n, b), k + 1) == Bit(n, k) && Bit(Push(n, b), 0) == b
  {
    Halves(n, if b then 1 else 0);
  }

  const SCALED_1: seq<Elem> := [
    Elem(I, O, O, I, I), Elem(O, O, I, O, I), Elem(O, O, O, O, I),
    Elem(O, O, O, I, I), Elem(I, O, O, I, I), Elem(O, I, I, O, I)]

  lemma Scaled1()
    ensures ScaledAll(GENERATOR, 1) == SCALED_1
  {
    MapSix(Twice, GENERATOR, SCALED_1);
    ScaledMore(0, GENERATOR, SCALED_1);
  }

  const SCALED_2: seq<Elem> := [
    Elem(O, I, I, I, I), Elem(O, I, O, I, O), Elem(O, O, O, I, O),
    Elem(O, O, I, I, O), Elem(O, I, I, I, I), Elem(I, I, O, I, O)]

  lemma Scaled2()
    ensures ScaledAll(GENERATOR, 2) == SCALED_2
  {
    MapSix(Twice, SCALED_1, SCALED_2);
    Scaled1();
    ScaledMore(1, SCALED_1, SCALED_2);
  }

  const SCALED_3: seq<Elem> := [
    Elem(I, I, I, I, O), Elem(I, O, I, O, O), Elem(O, O, I, O, O),
    Elem(O, I, I, O, O), Elem(I, I, I, I, O), Elem(I, I, I, O, I)]

  lemma Scaled3()
    ensures ScaledAll(GENERATOR, 3) == SCALED_3
  {
    MapSix(Twice, SCALED_2, SCALED_3);
    Scaled2();
    ScaledMore(2, SCALED_2, SCALED_3);
  }

  const SCALED_4: seq<Elem> := [
    Elem(I, O, I, O, I), Elem(O, O, O, O, I), Elem(O, I, O, O, O),
    Elem(I, I, O, O, O), Elem(I, O, I, O, I), Elem(I, O, O, I, I)]

  lemma Scaled4()
    ensures ScaledAll(GENERATOR, 4) == SCALED_4
  {
    MapSix(Twice, SCALED_3, SCALED_4);
    Scaled3();
    ScaledMore(3, SCALED_3, SCALED_4);
  }

  const TIMES_6: seq<Elem> := [
    Elem(I, I, I, O, O), Elem(O, I, I, I, I), Elem(O, O, O, I, I),
    Elem(O, O, I, O, I), Elem(I, I, I, O, O), Elem(I, O, I, I, I)]

  const TIMES_14: seq<Elem> := [
    Elem(O, O, O, I, O), Elem(I, I, O, I, I), Elem(O, O, I, I, I),
    Elem(O, I, O, O, I), Elem(O, O, O, I, O), Elem(O, I, O, I, O)]

  const TIMES_30: seq<Elem> := [
    Elem(I, O, I, I, I), Elem(I, I, O, I, O), Elem(O, I, I, I, I),
    Elem(I, O, O, O, I), Elem(I, O, I, I, I), Elem(I, I, O, O, I)]

  const TIMES_18: seq<Elem> := [
    Elem(O, O, I, I, O), Elem(O, O, I, O, O), Elem(O, I, O, O, I),
    Elem(I, I, O, I, I), Elem(O, O, I, I, O), Elem(I, I, I, I, O)]

  lemma Sum6()
    ensures AddAll(SCALED_1, SCALED_2) == TIMES_6
  {
    ZipSix(Add, SCALED_1, SCALED_2, TIMES_6);
    AddAllIs(SCALED_1, SCALED_2, TIMES_6);
  }

  lemma Sum14()
    ensures AddAll(TIMES_6, SCALED_3) == TIMES_14
  {
    ZipSix(Add, TIMES_6, SCALED_3, TIMES_14);
    AddAllIs(TIMES_6, SCALED_3, TIMES_14);
  }

  lemma Sum30()
    ensures AddAll(TIMES_14, SCALED_4) == TIMES_30
  {
    ZipSix(Add, TIMES_14, SCALED_4, TIMES_30);
    AddAllIs(TIMES_14, SCALED_4, TIMES_30);
  }

  lemma Sum18()
    ensures AddAll(SCALED_1, SCALED_4) == TIMES_18
  {
    ZipSix(Add, SCALED_1, SCALED_4, TIMES_18);
    AddAllIs(SCALED_1, SCALED_4, TIMES_18);
  }

  lemma Multiple1(a: nat)
    requires Bit(a, 0) && !Bit(a, 1) && !Bit(a, 2) && !Bit(a, 3) && !Bit(a, 4)
    ensures Multiple(a, 5) == GENERATOR
  {
    MultipleZero(a);
    MultipleFirst(a, 0);
    ScaledNone();
    MultipleMore(a, 1);
    MultipleMore(a, 2);
    MultipleMore(a, 3);
    MultipleMore(a, 4);
  }

  lemma ScaledNone()
    ensures ScaledAll(GENERATOR, 0) == GENERATOR
  {
  }

  lemma Multiple30(a: nat)
    requires !Bit(a, 0) && Bit(a, 1) && Bit(a, 2) && Bit(a, 3) && Bit(a, 4)
    ensures Multiple(a, 5) == TIMES_30
  {
    MultipleZero(a);
    MultipleMore(a, 0);
    MultipleFirst(a, 1);
    Scaled1();
    MultipleMore(a, 2);
    Scaled2();
    Sum6();
    MultipleMore(a, 3);
    Scaled3();
    Sum14();
    MultipleMore(a, 4);
    Scaled4();
    Sum30();
  }

  lemma Multiple18(a: nat)
    requires !Bit(a, 0) && Bit(a, 1) && !Bit(a, 2) && !Bit(a, 3) && Bit(a, 4)
    ensures Multiple(a, 5) == TIMES_18
  {
    MultipleZero(a);
    MultipleMore(a, 0);
    MultipleFirst(a, 1);
    Scaled1();
    MultipleMore(a, 2);
    MultipleMore(a, 3);
    MultipleMore(a, 4);
    Scaled4();
    Sum18();
  }

  const STATE: seq<Elem> := [
    Elem(O, O, O, O, I), Elem(O, O, O, I, I), Elem(O, O, O, O, O),
    Elem(O, O, O, O, I), Elem(I, I, I, I, I), Elem(O, O, O, O, O)]

  const AFTER_9: seq<Elem> := [
    Elem(I, I, I, I, O), Elem(I, O, I, I, O), Elem(I, O, I, O, I),
    Elem(O, I, O, I, O), Elem(I, I, I, O, I), Elem(I, I, O, I, I)]

  lemma Round9()
    ensures Divide(STATE, Elem(O, I, O, O, I)) == AFTER_9
  {
    var next := STATE[1..] + [Elem(O, I, O, O, I)];
    BitsOfNum(STATE[0]);
    Multiple1(Num(STATE[0]));
    ZipSix(Add, next, GENERATOR, AFTER_9);
    AddAllIs(next, GENERATOR, AFTER_9);
  }

  const AFTER_19: seq<Elem> := [
    Elem(O, O, O, O, I), Elem(O, I, I, I, I), Elem(O, O, I, O, I),
    Elem(O, I, I, O, O), Elem(O, I, I, O, O), Elem(O, I, O, I, O)]

  lemma Round19()
    ensures Divide(AFTER_9, Elem(I, O, O, I, I)) == AFTER_19
  {
    var next := AFTER_9[1..] + [Elem(I, O, O, I, I)];
    BitsOfNum(AFTER_9[0]);
    Multiple30(Num(AFTER_9[0]));
    ZipSix(Add, next, TIMES_30, AFTER_19);
    AddAllIs(next, TIMES_30, AFTER_19);
  }

  const AFTER_17: seq<Elem> := [
    Elem(I, O, O, I, O), Elem(I, O, O, I, I), Elem(I, I, O, O, O),
    Elem(I, I, O, O, I), Elem(I, O, I, I, I), Elem(O, O, O, I, I)]

  lemma Round17()
    ensures Divide(AFTER_19, Elem(I, O, O, O, I)) == AFTER_17
  {
    var next := AFTER_19[1..] + [Elem(I, O, O, O, I)];
    BitsOfNum(AFTER_19[0]);
    Multiple1(Num(AFTER_19[0]));
    ZipSix(Add, next, GENERATOR, AFTER_17);
    AddAllIs(next, GENERATOR, AFTER_17);
  }

  const AFTER_29: seq<Elem> := [
    Elem(I, O, I, O, I), Elem(I, I, I, O, O), Elem(I, O, O, O, O),
    Elem(O, I, I, O, O), Elem(O, O, I, O, I), Elem(O, O, O, I, I)]

  lemma Round29()
    ensures Divide(AFTER_17, Elem(I, I, I, O, I)) == AFTER_29
  {
    var next := AFTER_17[1..] + [Elem(I, I, I, O, I)];
    BitsOfNum(AFTER_17[0]);
    Multiple18(Num(AFTER_17[0]));
    ZipSix(Add, next, TIMES_18, AFTER_29);
    AddAllIs(next, TIMES_18, AFTER_29);
  }

  lemma RoundsNext<T, U>(step: (T, U) -> T, t: T, us: seq<U>, n: nat)
    requires 0 < n <= |us|
    ensures Rounds(step, t, us[..n]) == step(Rounds(step, t, us[..n - 1]), us[n - 1])
  {
    assert us[..n][..n - 1] == us[..n - 1];
  }

  lemma FourRounds<T, U>(step: (T, U) -> T, us: seq<U>, t0: T, t1: T, t2: T, t3: T, t4: T)
    requires |us| == 4
    requires step(t0, us[0]) == t1 && step(t1, us[1]) == t2 && step(t2, us[2]) == t3 && step(t3, us[3]) == t4
    ensures Rounds(step, t0, us) == t4
  {
    RoundsNext(step, t0, us, 1);
    RoundsNext(step, t0, us, 2);
    RoundsNext(step, t0, us, 3);
    RoundsNext(step, t0, us, 4);
    assert us[..4] == us && Rounds(step, t0, us[..0]) == t0;
  }

  lemma FourDivisions(more: seq<Elem>, s0: Six, s1: Six, s2: Six, s3: Six, s4: Six)
    requires |more| == 4
    requires Divide(s0, more[0]) == s1 && Divide(s1, more[1]) == s2 && Divide(s2, more[2]) == s3 && Divide(s3, more[3]) == s4
    ensures Remainder(s0, more) == s4
  {
    FourRounds(Divide, more, s0, s1, s2, s3, s4);
  }

  const BROUGHT: seq<Elem> := [Elem(O, I, O, O, I), Elem(I, O, O, I, I), Elem(I, O, O, O, I), Elem(I, I, I, O, I)]

  lemma RemainderIs()
    ensures Remainder(STATE, BROUGHT) == AFTER_29
  {
    Round9();
    Round19();
    Round17();
    Round29();
    FourDivisions(BROUGHT, STATE, AFTER_9, AFTER_19, AFTER_17, AFTER_29);
  }

  lemma NumbersIn()
    ensures Spell(STATE) == 0x23007e0 && Nums(BROUGHT) == [9, 19, 17, 29]
  {
    SpellSix(STATE);
  }

  lemma NumberOut()
    ensures Spell(AFTER_29) == BECH32M_CONST
  {
    SpellSix(AFTER_29);
  }

  lemma LastFour(vs: seq<nat>)
    requires vs == [9, 19, 17, 29]
    ensures Fold(0x23007e0, vs) == BECH32M_CONST
  {
    NumbersIn();
    NumberOut();
    RemainderIs();
    FoldIsRemainder(STATE, BROUGHT);
  }

  lemma StartsAtOne(start: seq<nat>)
    requires start == [1]
    ensures Fold(0, start) == 1
  {
    FoldWords(start);
    ValPrefix(start, 1);
    assert start[..1] == start && Val(start[..0], 5) == 0;
  }

  /** The prefix and the first two words fill the state. */
  lemma FirstFive(vs: seq<nat>)
    requires vs == [3, 0, 1, 31, 0]
    ensures Fold(1, vs) == 0x23007e0
  {
    var start := [1];
    FoldConcat(0, start, vs);
    StartsAtOne(start);
    FoldWords(start + vs);
    ValSix(start + vs);
  }

  lemma PrefixIs()
    ensures HrpExpand("a") == [3, 0, 1]
  {
  }

  const VECTOR: seq<nat> := [31, 0, 9, 19, 17, 29]

  lemma VectorVerifies(hrp: string)
    requires hrp == "a"
    ensures VerifyChecksum(hrp, VECTOR)
  {
    var first, last := [3, 0, 1, 31, 0], [9, 19, 17, 29];
    PrefixIs();
    assert HrpExpand(hrp) + VECTOR == first + last;
    FoldConcat(1, first, last);
    FirstFive(first);
    LastFour(last);
  }

  lemma VectorChecksum(hrp: string)
    requires hrp == "a"
    ensures CreateChecksum(hrp, []) == VECTOR
  {
    VectorVerifies(hrp);
    assert [] + VECTOR == VECTOR;
    ChecksumUnique(hrp, [], VECTOR);
  }

  lemma EmptyPayload(hrp: string, payload: seq<Byte>, ws: seq<nat>)
    requires payload == [] && ws == CreateChecksum(hrp, [])
    ensures Address.EncodeBech32m(hrp, payload) == hrp + ['1'] + Address.Chars(ws)
  {
    var words := Words(Regroup.Pad5(payload));
    assert words == [];
    assert words + CreateChecksum(hrp, words) == ws;
  }

  lemma VectorSpelled(hrp: string)
    requires hrp == "a"
    ensures hrp + ['1'] + Address.Chars(VECTOR) == "a1lqfn3a"
  {
  }

  /** The prefix `a` without data has the checksum that BIP-350 lists, and is spelled as listed there. */
  lemma ShortestVector(hrp: string, payload: seq<Byte>)
    requires hrp == "a" && payload == []
    ensures CreateChecksum(hrp, []) == VECTOR && Address.EncodeBech32m(hrp, payload) == "a1lqfn3a"
  {
    VectorChecksum(hrp);
    EmptyPayload(hrp, payload, VECTOR);
    VectorSpelled(hrp);
  }
}
