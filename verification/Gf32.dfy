/** The checksum in the terms of BIP-173: a remainder by the generator polynomial over the field with 32 elements. */
module Gf32 {
  import opened Common
  import opened Numbers
  import opened Bech32

  // ---------- the field ----------

  /** A polynomial of degree below five over GF(2), by its coefficients. */
  datatype Elem = Elem(b4: bool, b3: bool, b2: bool, b1: bool, b0: bool)

  const ZERO := Elem(false, false, false, false, false)

  function Add(e: Elem, f: Elem): Elem {
    Elem(e.b4 != f.b4, e.b3 != f.b3, e.b2 != f.b2, e.b1 != f.b1, e.b0 != f.b0)
  }

  /** `x * e`, where `x^5` is `x^3 + 1` */
  function Twice(e: Elem): Elem {
    Elem(e.b3, e.b2 != e.b4, e.b1, e.b0, e.b4)
  }

  /** `x^i * e` */
  function Scaled(e: Elem, i: nat): Elem {
    if i == 0 then e else Twice(Scaled(e, i - 1))
  }

  /** The product of the lowest `n` bits of `a` with `e`: the sum of `x^i * e` over the bits that are set. */
  function Product(a: nat, e: Elem, n: nat): Elem {
    if n == 0 then ZERO else Add(Product(a, e, n - 1), if Bit(a, n - 1) then Scaled(e, n - 1) else ZERO)
  }

  /** The coefficients below `x^6` of the generator polynomial: 29, 22, 20, 21, 29, 18. */
  const GENERATOR: seq<Elem> := [
    Elem(true, true, true, false, true), Elem(true, false, true, true, false), Elem(true, false, true, false, false),
    Elem(true, false, true, false, true), Elem(true, true, true, false, true), Elem(true, false, false, true, false)]

  // ---------- elements as words ----------

  /** One more bit at the end. */
  function Push(n: nat, b: bool): nat {
    2 * n + if b then 1 else 0
  }

  function Num(e: Elem): (n: nat)
    ensures n < 32
  {
    Push(Push(Push(Push(Push(0, e.b4), e.b3), e.b2), e.b1), e.b0)
  }

  /** Names two numbers, each as its half and its last bit. */
  predicate Halved(n: nat, i: nat, m: nat, j: nat) { true }

  /** The operation works bit by bit. */
  ghost predicate BitWise(xor: (nat, nat) -> nat) {
    && xor(0, 0) == 0
    && forall n: nat, i: nat, m: nat, j: nat {:trigger Halved(n, i, m, j)} :: i < 2 && j < 2 && Halved(n, i, m, j) ==>
         xor(2 * n + i, 2 * m + j) == 2 * xor(n, m) + if i == j then 0 else 1
  }

  lemma XorBitWise()
    ensures BitWise(Xor)
  {
    forall n: nat, i: nat, m: nat, j: nat | i < 2 && j < 2 && Halved(n, i, m, j)
      ensures Xor(2 * n + i, 2 * m + j) == 2 * Xor(n, m) + if i == j then 0 else 1
    {
      XorDouble(n, i, m, j);
    }
  }

  lemma PushBy(xor: (nat, nat) -> nat, n: nat, b: bool, m: nat, c: bool)
    requires BitWise(xor)
    ensures xor(Push(n, b), Push(m, c)) == Push(xor(n, m), b != c)
  {
    assert Halved(n, if b then 1 else 0, m, if c then 1 else 0);
  }

  /** Whatever works bit by bit adds elements. */
  lemma AddsBits(xor: (nat, nat) -> nat, e: Elem, f: Elem)
    requires BitWise(xor)
    ensures xor(Num(e), Num(f)) == Num(Add(e, f))
  {
    var e4, f4 := Push(0, e.b4), Push(0, f.b4);
    var e3, f3 := Push(e4, e.b3), Push(f4, f.b3);
    var e2, f2 := Push(e3, e.b2), Push(f3, f.b2);
    var e1, f1 := Push(e2, e.b1), Push(f2, f.b1);
    PushBy(xor, 0, e.b4, 0, f.b4);
    PushBy(xor, e4, e.b3, f4, f.b3);
    PushBy(xor, e3, e.b2, f3, f.b2);
    PushBy(xor, e2, e.b1, f2, f.b1);
    PushBy(xor, e1, e.b0, f1, f.b0);
  }

  /** Exclusive or of words is addition in the field. */
  lemma NumAdd(e: Elem, f: Elem)
    ensures Xor(Num(e), Num(f)) == Num(Add(e, f))
  {
    XorBitWise();
    AddsBits(Xor, e, f);
  }

  function Nums(es: seq<Elem>): (ws: seq<nat>)
    ensures |ws| == |es| && Below(ws, 32)
  {
    seq(|es|, k requires 0 <= k < |es| => Num(es[k]))
  }

  function AddAll(es: seq<Elem>, fs: seq<Elem>): (r: seq<Elem>)
    requires |es| == |fs|
    ensures |r| == |es|
  {
    seq(|es|, k requires 0 <= k < |es| => Add(es[k], fs[k]))
  }

  lemma NumsAdd(es: seq<Elem>, fs: seq<Elem>)
    requires |es| == |fs|
    ensures XorWords(Nums(es), Nums(fs)) == Nums(AddAll(es, fs))
  {
    forall k | 0 <= k < |es| ensures XorWords(Nums(es), Nums(fs))[k] == Nums(AddAll(es, fs))[k] { NumAdd(es[k], fs[k]); }
  }

  /** Words at the end do not disturb what is above them. */
  lemma {:induction false} Above(xor: (nat, nat) -> nat, a: nat, x: nat, b: nat, y: nat, w: nat)
    requires BitWise(xor) && x < Pow2(w) && y < Pow2(w)
    ensures xor(Shl(a, w) + x, Shl(b, w) + y) == Shl(xor(a, b), w) + xor(x, y)
    decreases w
  {
    if w > 0 {
      Above(xor, a, x / 2, b, y / 2, w - 1);
      assert Halved(Shl(a, w - 1) + x / 2, x % 2, Shl(b, w - 1) + y / 2, y % 2) && Halved(x / 2, x % 2, y / 2, y % 2);
    }
  }

  /** What works bit by bit works digit by digit. */
  lemma {:induction false} DigitWise(xor: (nat, nat) -> nat, a: seq<nat>, b: seq<nat>, r: seq<nat>, w: nat)
    requires BitWise(xor) && |a| == |b| == |r| && Below(a, Pow2(w)) && Below(b, Pow2(w))
    requires forall i :: 0 <= i < |r| ==> r[i] == xor(a[i], b[i])
    ensures Val(a, w) >= 0 && Val(b, w) >= 0 && Val(r, w) == xor(Val(a, w), Val(b, w))
  {
    if r != [] {
      var n := |r| - 1;
      DigitWise(xor, a[..n], b[..n], r[..n], w);
      Above(xor, Val(a[..n], w), a[n], Val(b[..n], w), b[n], w);
    }
  }

  /** The number that a list of elements spells. */
  function Spell(es: seq<Elem>): (n: nat) {
    SpellBound(es);
    Val(Nums(es), 5)
  }

  lemma SpellBound(es: seq<Elem>)
    ensures Val(Nums(es), 5) >= 0
  {
    Pow2Values();
    ValNonNegative(Nums(es), 5);
  }

  lemma SpellAdd(es: seq<Elem>, fs: seq<Elem>)
    requires |es| == |fs|
    ensures Xor(Spell(es), Spell(fs)) == Spell(AddAll(es, fs))
  {
    Pow2Values();
    XorBitWise();
    DigitWise(Xor, Nums(es), Nums(fs), XorWords(Nums(es), Nums(fs)), 5);
    NumsAdd(es, fs);
  }

  // ---------- the constants of the source ----------

  function ScaledAll(es: seq<Elem>, i: nat): (r: seq<Elem>)
    ensures |r| == |es|
  {
    seq(|es|, k requires 0 <= k < |es| => Scaled(es[k], i))
  }

  /** The generator's coefficients times the lowest `n` bits of `a`. */
  function Multiple(a: nat, n: nat): (r: seq<Elem>)
    ensures |r| == 6
  {
    seq(6, k requires 0 <= k < 6 => Product(a, GENERATOR[k], n))
  }

  function Zero6(): (r: seq<Elem>)
    ensures |r| == 6
  {
    seq(6, _ => ZERO)
  }

  lemma SpellSix(es: seq<Elem>)
    requires |es| == 6
    ensures Spell(es) ==
            ((((Num(es[0]) * 32 + Num(es[1])) * 32 + Num(es[2])) * 32 + Num(es[3])) * 32 + Num(es[4])) * 32 + Num(es[5])
  {
    ValSix(Nums(es));
  }

  lemma ValSix(ws: seq<nat>)
    requires |ws| == 6
    ensures Val(ws, 5) == ((((ws[0] * 32 + ws[1]) * 32 + ws[2]) * 32 + ws[3]) * 32 + ws[4]) * 32 + ws[5]
  {
    ValPrefix(ws, 1);
    ValPrefix(ws, 2);
    ValPrefix(ws, 3);
    ValPrefix(ws, 4);
    ValPrefix(ws, 5);
    ValPrefix(ws, 6);
    assert ws[..6] == ws && Val(ws[..0], 5) == 0;
  }

  lemma ValPrefix(ws: seq<nat>, n: nat)
    requires 0 < n <= |ws|
    ensures Val(ws[..n], 5) == 32 * Val(ws[..n - 1], 5) + ws[n - 1]
  {
    assert ws[..n][..n - 1] == ws[..n - 1];
    ShlFive(Val(ws[..n - 1], 5));
  }

  /** The five constants of the source spell the generator times 1, x, ..., x^4. */
  lemma GeneratorIs(i: nat)
    requires i < 5
    ensures Spell(ScaledAll(GENERATOR, i)) == GENERATORS[i]
  {
    if i < 2 { FirstConstants(i); }
    if i == 2 { ThirdConstant(i); }
    if i == 3 { FourthConstant(i); }
    if i == 4 { LastConstant(i); }
  }

  lemma FirstConstants(i: nat)
    requires i < 2
    ensures Spell(ScaledAll(GENERATOR, i)) == GENERATORS[i]
  {
    SpellSix(ScaledAll(GENERATOR, i));
  }

  lemma ThirdConstant(i: nat)
    requires i == 2
    ensures Spell(ScaledAll(GENERATOR, i)) == GENERATORS[i]
  {
    SpellSix(ScaledAll(GENERATOR, i));
  }

  lemma FourthConstant(i: nat)
    requires i == 3
    ensures Spell(ScaledAll(GENERATOR, i)) == GENERATORS[i]
  {
    SpellSix(ScaledAll(GENERATOR, i));
  }

  lemma LastConstant(i: nat)
    requires i == 4
    ensures Spell(ScaledAll(GENERATOR, i)) == GENERATORS[i]
  {
    SpellSix(ScaledAll(GENERATOR, i));
  }

  lemma SpellZero()
    ensures Spell(Zero6()) == 0
  {
    SpellSix(Zero6());
  }

  /** What is fed back are the products of the bits that leave the state with the generator. */
  lemma {:induction false} FeedbackIsMultiple(top: nat, n: nat)
    requires n <= 5
    ensures Feedback(top, n) == Spell(Multiple(top, n))
  {
    if n == 0 {
      assert Multiple(top, 0) == Zero6();
      SpellZero();
    } else {
      FeedbackIsMultiple(top, n - 1);
      var more := if Bit(top, n - 1) then ScaledAll(GENERATOR, n - 1) else Zero6();
      GeneratorIs(n - 1);
      SpellZero();
      SpellAdd(Multiple(top, n - 1), more);
      assert Multiple(top, n) == AddAll(Multiple(top, n - 1), more);
    }
  }

  // ---------- the checksum as a remainder ----------

  type Six = es: seq<Elem> | |es| == 6 witness [ZERO, ZERO, ZERO, ZERO, ZERO, ZERO]

  /** One step of long division by the generator: bring down `e`, take the leading coefficient's multiple away. */
  function Divide(es: Six, e: Elem): Six {
    AddAll(es[1..] + [e], Multiple(Num(es[0]), 5))
  }

  /** The remainder after all of `more` has been brought down. */
  function Remainder(es: Six, more: seq<Elem>): Six {
    Rounds(Divide, es, more)
  }

  /** The leading digit and the number that the others spell. */
  lemma Leading(ws: seq<int>, w: nat, k: nat)
    requires ws != [] && DigitsBelow(ws, Pow2(w)) && k == Times(|ws| - 1, w)
    ensures Shr(Val(ws, w), k) == ws[0] && Low(Val(ws, w), k) == Val(ws[1..], w)
  {
    var rest := ws[1..];
    ValCons(ws, w);
    DigitsOfVal(rest, w);
    Recompose(Val(rest, w), k);
    ShlZero(k);
    Split(ws[0], Val(rest, w), k);
  }

  lemma {:induction false} ValCons(ws: seq<int>, w: nat)
    requires ws != []
    ensures Val(ws, w) == Shl(ws[0], Times(|ws| - 1, w)) + Val(ws[1..], w)
  {
    var n := |ws| - 1;
    if n == 0 {
      ShlZero(w);
    } else {
      var front := ws[..n];
      ValCons(front, w);
      assert front[1..] == ws[1..][..n - 1];
      ShlLinear(Shl(ws[0], Times(n - 1, w)), Val(front[1..], w), w);
      ShlShl(ws[0], Times(n - 1, w), w);
    }
  }

  lemma LeadingWord(ws: seq<nat>, n: nat)
    requires |ws| == n + 1 && Below(ws, 32)
    ensures Shr(Val(ws, 5), 5 * n) == ws[0] && Low(Val(ws, 5), 5 * n) == Val(ws[1..], 5)
  {
    Pow2Values();
    TimesFive(n);
    Leading(ws, WORD, 5 * n);
  }

  lemma SpellPush(es: seq<Elem>, e: Elem)
    ensures Spell(es + [e]) == Shl(Spell(es), 5) + Num(e)
  {
    assert Nums(es + [e])[..|es|] == Nums(es);
  }

  /** The bits that leave the state are its leading coefficient. */
  lemma StateParts(es: seq<Elem>)
    requires |es| == 6
    ensures Shr(Spell(es), 25) == Num(es[0]) && Low(Spell(es), 25) == Spell(es[1..])
  {
    LeadingWord(Nums(es), |es| - 1);
    assert Nums(es)[1..] == Nums(es[1..]);
  }

  lemma StepBy(c: nat, v: nat, rest: nat, top: nat, brought: nat, taken: nat)
    requires Shr(c, 25) == top && Low(c, 25) == rest && v < 32
    requires brought == Shl(rest, 5) + v && taken == Feedback(top, 5)
    ensures Step(c, v) == Xor(brought, taken)
  {
    Pow2Values();
    XorBelow(rest, v, 5);
  }

  /** One round of `polymod` is one step of the division. */
  lemma StepDivides(es: seq<Elem>, e: Elem)
    requires |es| == 6
    ensures Step(Spell(es), Num(e)) == Spell(Divide(es, e))
  {
    var brought, taken := es[1..] + [e], Multiple(Num(es[0]), 5);
    StateParts(es);
    SpellPush(es[1..], e);
    FeedbackIsMultiple(Num(es[0]), 5);
    StepBy(Spell(es), Num(e), Spell(es[1..]), Num(es[0]), Spell(brought), Spell(taken));
    SpellAdd(brought, taken);
  }

  /** Names a round. */
  predicate Round<T, U>(t: T, u: U) { true }

  /** Each round of `step` on images is the image of a round of `turn`. */
  ghost predicate Follows<T(!new), U(!new)>(step: (nat, nat) -> nat, turn: (T, U) -> T, spell: T -> nat, num: U -> nat) {
    forall t: T, u: U {:trigger Round(t, u)} :: Round(t, u) ==> step(spell(t), num(u)) == spell(turn(t, u))
  }

  lemma {:induction false} RoundsFollow<T(!new), U(!new)>(
    step: (nat, nat) -> nat, turn: (T, U) -> T, spell: T -> nat, num: U -> nat, t: T, us: seq<U>, vs: seq<nat>)
    requires Follows(step, turn, spell, num)
    requires |vs| == |us| && forall k :: 0 <= k < |us| ==> vs[k] == num(us[k])
    ensures Rounds(step, spell(t), vs) == spell(Rounds(turn, t, us))
  {
    if us != [] {
      var n := |us| - 1;
      RoundsFollow(step, turn, spell, num, t, us[..n], vs[..n]);
      assert Round(Rounds(turn, t, us[..n]), us[n]);
    }
  }

  /** `polymod` is the remainder, for any number of words. */
  lemma FoldIsRemainder(es: Six, more: seq<Elem>)
    ensures Fold(Spell(es), Nums(more)) == Spell(Remainder(es, more))
  {
    StepsDivide();
    RoundsFollow(Step, Divide, (fs: Six) => Spell(fs), Num, es, more, Nums(more));
  }

  lemma StepsDivide()
    ensures Follows(Step, Divide, (fs: Six) => Spell(fs), Num)
  {
    forall es: Six, e: Elem | Round(es, e) ensures Step(Spell(es), Num(e)) == Spell(Divide(es, e)) {
      StepDivides(es, e);
    }
  }
}
