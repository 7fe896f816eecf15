/** Numbers as the source's bit operators see them: powers of two, exclusive or, and big-endian digits. */
module Numbers {

  function Pow2(n: nat): (p: nat)
    ensures p > 0
  {
    if n == 0 then 1 else 2 * Pow2(n - 1)
  }

  lemma {:induction false} Pow2Add(m: nat, n: nat)
    ensures Pow2(m + n) == Pow2(m) * Pow2(n)
  {
    if m > 0 { Pow2Add(m - 1, n); }
  }

  lemma {:induction false} Pow2Monotone(m: nat, n: nat)
    requires m <= n
    ensures Pow2(m) <= Pow2(n)
    decreases n
  {
    if m < n { Pow2Monotone(m, n - 1); }
  }

  lemma Pow2Values()
    ensures Pow2(5) == 32 && Pow2(8) == 256 && Pow2(25) == 0x200_0000 && Pow2(30) == 0x4000_0000
    ensures Pow2(32) == 0x1_0000_0000
  {
    assert Pow2(2) == 4 && Pow2(3) == 8;
    Pow2Add(2, 3);
    Pow2Add(5, 5);
    Pow2Add(5, 3);
    Pow2Add(10, 10);
    Pow2Add(20, 5);
    Pow2Add(25, 5);
    Pow2Add(30, 2);
  }

  // ---------- shifts and masks, on two's complement integers of any width ----------

  /** `a << k` */
  function Shl(a: int, k: nat): (r: int)
    ensures a >= 0 ==> r >= a
  {
    if k == 0 then a else 2 * Shl(a, k - 1)
  }

  /** `a >> k`, rounding down */
  function Shr(a: int, k: nat): (r: int)
    ensures a >= 0 ==> 0 <= r <= a
    decreases k
  {
    if k == 0 then a else Shr(a / 2, k - 1)
  }

  /** `a & ((1 << k) - 1)` */
  function Low(a: int, k: nat): (r: nat)
    ensures r < Pow2(k)
    decreases k
  {
    if k == 0 then 0 else 2 * Low(a / 2, k - 1) + a % 2
  }

  lemma {:induction false} Recompose(a: int, k: nat)
    ensures a == Shl(Shr(a, k), k) + Low(a, k)
    decreases k
  {
    if k > 0 { Recompose(a / 2, k - 1); }
  }

  lemma {:induction false} ShlLinear(a: int, b: int, k: nat)
    ensures Shl(a + b, k) == Shl(a, k) + Shl(b, k)
  {
    if k > 0 { ShlLinear(a, b, k - 1); }
  }

  lemma {:induction false} ShlShl(a: int, m: nat, n: nat)
    ensures Shl(Shl(a, m), n) == Shl(a, m + n)
  {
    if n > 0 { ShlShl(a, m, n - 1); }
  }

  lemma {:induction false} ShlOne(k: nat)
    ensures Shl(1, k) == Pow2(k)
  {
    if k > 0 { ShlOne(k - 1); }
  }

  /** A shifted number with something below it: both parts can be read back. */
  lemma {:induction false} Split(a: int, r: nat, k: nat)
    requires r < Pow2(k)
    ensures Shr(Shl(a, k) + r, k) == a && Low(Shl(a, k) + r, k) == r
  {
    if k > 0 {
      assert (2 * Shl(a, k - 1) + r) / 2 == Shl(a, k - 1) + r / 2;
      Split(a, r / 2, k - 1);
    }
  }

  lemma {:induction false} ShrShr(a: int, m: nat, n: nat)
    ensures Shr(Shr(a, m), n) == Shr(a, m + n)
    decreases m
  {
    if m > 0 { ShrShr(a / 2, m - 1, n); }
  }

  lemma {:induction false} LowSmall(a: nat, k: nat)
    requires a < Pow2(k)
    ensures Low(a, k) == a && Shr(a, k) == 0
  {
    if k > 0 { LowSmall(a / 2, k - 1); }
  }

  /** Bits `p .. p + q` of a number are bits of its lowest `p + q`. */
  lemma {:induction false} LowOfShr(a: int, p: nat, q: nat)
    ensures Low(Shr(a, p), q) == Shr(Low(a, p + q), p)
    decreases p
  {
    if p > 0 {
      LowOfShr(a / 2, p - 1, q);
      assert Low(a, p + q) / 2 == Low(a / 2, p - 1 + q);
    } else {
      assert Low(a, q) == Shr(Low(a, q), 0);
    }
  }

  lemma {:induction false} LowLow(a: int, m: nat, n: nat)
    requires m <= n
    ensures Low(Low(a, n), m) == Low(a, m)
    decreases m
  {
    if m > 0 {
      assert Low(a, n) / 2 == Low(a / 2, n - 1) && Low(a, n) % 2 == a % 2;
      LowLow(a / 2, m - 1, n - 1);
    }
  }

  /** Numbers that agree on their lowest `n` bits agree on every field inside them. */
  lemma SameField(a: int, b: int, n: nat, p: nat, q: nat)
    requires Low(a, n) == Low(b, n) && p + q <= n
    ensures Low(Shr(a, p), q) == Low(Shr(b, p), q)
  {
    var m := p + q;
    SameLow(a, b, m, n);
    FieldOfLow(a, p, q, m, Low(a, m));
    FieldOfLow(b, p, q, m, Low(a, m));
  }

  lemma SameLow(a: int, b: int, m: nat, n: nat)
    requires Low(a, n) == Low(b, n) && m <= n
    ensures Low(a, m) == Low(b, m)
  {
    LowLow(a, m, n);
    LowLow(b, m, n);
  }

  lemma FieldOfLow(a: int, p: nat, q: nat, m: nat, low: nat)
    requires m == p + q && low == Low(a, m)
    ensures Low(Shr(a, p), q) == Shr(low, p)
  {
    LowOfShr(a, p, q);
  }

  /** The signed integer of `w` bits with the same lowest `w` bits. */
  function Wrap(x: int, w: nat): (r: int) {
    if 2 * Low(x, w) < Pow2(w) then Low(x, w) else Low(x, w) - Pow2(w)
  }

  lemma WrapLow(x: int, w: nat)
    ensures Low(Wrap(x, w), w) == Low(x, w)
  {
    var u := Low(x, w);
    LowSmall(u, w);
    LowPlusShl(u, -1, w);
    ShlOne(w);
    ShlLinear(1, -1, w);
    ShlZero(w);
  }

  /** The lowest bits of a sum depend only on the lowest bits of the summands. */
  lemma {:induction false} LowAdd(a: int, b: int, c: int, n: nat)
    requires Low(a, n) == Low(b, n)
    ensures Low(a + c, n) == Low(b + c, n)
  {
    Recompose(a, n);
    Recompose(b, n);
    var d := Shr(a, n) - Shr(b, n);
    ShlLinear(Shr(b, n), d, n);
    assert a == b + Shl(d, n);
    LowPlusShl(b + c, d, n);
  }

  lemma {:induction false} LowPlusShl(a: int, d: int, n: nat)
    ensures Low(a + Shl(d, n), n) == Low(a, n)
    decreases n
  {
    if n > 0 {
      assert (a + 2 * Shl(d, n - 1)) / 2 == a / 2 + Shl(d, n - 1);
      LowPlusShl(a / 2, d, n - 1);
    }
  }

  lemma {:induction false} LowShl(a: int, b: int, n: nat, k: nat)
    requires Low(a, n) == Low(b, n)
    ensures Low(Shl(a, k), n) == Low(Shl(b, k), n)
    decreases k
  {
    if k > 0 {
      LowShl(a, b, n, k - 1);
      var x, y := Shl(a, k - 1), Shl(b, k - 1);
      LowAdd(x, y, x, n);
      LowAdd(x, y, y, n);
      assert x + x == Shl(a, k) && y + y == Shl(b, k) && x + y == y + x;
    }
  }

  // ---------- or ----------

  /** `a | v`, on a two's complement integer `a` of any width */
  function Or(a: int, v: nat): (r: int)
    decreases v
  {
    if v == 0 then a else 2 * Or(a / 2, v / 2) + (if a % 2 == 1 || v % 2 == 1 then 1 else 0)
  }

  /** Or-ing into clear low bits is addition, whatever the sign. */
  lemma {:induction false} OrIsAdd(a: int, v: nat, k: nat)
    requires v < Pow2(k) && Low(a, k) == 0
    ensures Or(a, v) == a + v
    decreases k
  {
    if v > 0 {
      assert a % 2 == 0 && Low(a / 2, k - 1) == 0;
      OrIsAdd(a / 2, v / 2, k - 1);
    }
  }

  lemma {:induction false} LowOfShl(a: int, k: nat)
    ensures Low(Shl(a, k), k) == 0
  {
    Split(a, 0, k);
  }

  // ---------- exclusive or ----------

  function Xor(a: nat, b: nat): (r: nat)
    decreases a + b
  {
    if a == 0 then b else if b == 0 then a
    else 2 * Xor(a / 2, b / 2) + (if a % 2 == b % 2 then 0 else 1)
  }

  /** The recurrence holds without the special cases too. */
  lemma XorHalves(a: nat, b: nat)
    ensures Xor(a, b) / 2 == Xor(a / 2, b / 2)
    ensures Xor(a, b) % 2 == if a % 2 == b % 2 then 0 else 1
  {
  }

  lemma {:induction false} XorSelf(a: nat)
    ensures Xor(a, a) == 0
  {
    if a > 0 { XorSelf(a / 2); }
  }

  lemma {:induction false} XorComm(a: nat, b: nat)
    ensures Xor(a, b) == Xor(b, a)
    decreases a + b
  {
    if a > 0 && b > 0 { XorComm(a / 2, b / 2); }
  }

  lemma {:induction false} XorAssoc(a: nat, b: nat, c: nat)
    ensures Xor(Xor(a, b), c) == Xor(a, Xor(b, c))
    decreases a + b + c
  {
    if a > 0 && b > 0 && c > 0 {
      XorHalves(a, b);
      XorHalves(b, c);
      XorHalves(Xor(a, b), c);
      XorHalves(a, Xor(b, c));
      XorAssoc(a / 2, b / 2, c / 2);
    }
  }

  /** `(a ^ b) ^ (c ^ d) == (a ^ c) ^ (b ^ d)` */
  lemma XorShuffle(a: nat, b: nat, c: nat, d: nat)
    ensures Xor(Xor(a, b), Xor(c, d)) == Xor(Xor(a, c), Xor(b, d))
  {
    XorAssoc(a, b, Xor(c, d));
    XorAssoc(b, c, d);
    XorComm(b, c);
    XorAssoc(c, b, d);
    XorAssoc(a, c, Xor(b, d));
  }

  /** Equal values cancel. */
  lemma XorCancel(a: nat, b: nat)
    ensures Xor(Xor(a, b), b) == a
    ensures Xor(a, b) == 0 ==> a == b
  {
    XorAssoc(a, b, b);
    XorSelf(b);
  }

  lemma XorDouble(x: nat, i: nat, y: nat, j: nat)
    requires i < 2 && j < 2
    ensures Xor(2 * x + i, 2 * y + j) == 2 * Xor(x, y) + if i == j then 0 else 1
  {
    Halves(x, i);
    Halves(y, j);
    XorHalves(2 * x + i, 2 * y + j);
  }

  lemma Halves(x: nat, i: nat)
    requires i < 2
    ensures (2 * x + i) / 2 == x && (2 * x + i) % 2 == i
  {
  }

  lemma {:induction false} XorShl(a: nat, b: nat, k: nat)
    ensures Shl(a, k) >= 0 && Shl(b, k) >= 0 && Xor(Shl(a, k), Shl(b, k)) == Shl(Xor(a, b), k)
  {
    if k > 0 {
      XorShl(a, b, k - 1);
      XorDouble(Shl(a, k - 1), 0, Shl(b, k - 1), 0);
    }
  }

  lemma {:induction false} XorShr(a: nat, b: nat, k: nat)
    ensures Shr(Xor(a, b), k) == Xor(Shr(a, k), Shr(b, k))
    decreases k
  {
    if k > 0 {
      XorHalves(a, b);
      XorShr(a / 2, b / 2, k - 1);
    }
  }

  lemma LowHalves(a: nat, k: nat)
    requires k > 0
    ensures Low(a, k) == 2 * Low(a / 2, k - 1) + a % 2
  {
  }

  lemma {:induction false} XorLow(a: nat, b: nat, k: nat)
    ensures Low(Xor(a, b), k) == Xor(Low(a, k), Low(b, k))
    decreases k
  {
    if k > 0 {
      XorHalves(a, b);
      XorLow(a / 2, b / 2, k - 1);
      LowHalves(a, k);
      LowHalves(b, k);
      LowHalves(Xor(a, b), k);
      XorDouble(Low(a / 2, k - 1), a % 2, Low(b / 2, k - 1), b % 2);
    }
  }

  lemma XorBound(a: nat, b: nat, k: nat)
    requires a < Pow2(k) && b < Pow2(k)
    ensures Xor(a, b) < Pow2(k)
  {
    XorLow(a, b, k);
    LowSmall(a, k);
    LowSmall(b, k);
    XorShr(a, b, k);
    Recompose(Xor(a, b), k);
    ShlZero(k);
  }

  lemma {:induction false} ShlZero(k: nat)
    ensures Shl(0, k) == 0
  {
    if k > 0 { ShlZero(k - 1); }
  }

  /** Flipping bits below those of a number is addition. */
  lemma XorBelow(hi: nat, lo: nat, k: nat)
    requires lo < Pow2(k)
    ensures Shl(hi, k) >= 0 && Xor(Shl(hi, k), lo) == Shl(hi, k) + lo
  {
    var x := Xor(Shl(hi, k), lo);
    XorShr(Shl(hi, k), lo, k);
    XorLow(Shl(hi, k), lo, k);
    Split(hi, 0, k);
    LowSmall(lo, k);
    Recompose(x, k);
  }

  /** Bit `k`, counted from the least significant. */
  function Bit(a: int, k: nat): bool {
    Shr(a, k) % 2 == 1
  }

  lemma XorBit(a: nat, b: nat, k: nat)
    ensures Bit(Xor(a, b), k) == (Bit(a, k) != Bit(b, k))
  {
    XorShr(a, b, k);
    XorHalves(Shr(a, k), Shr(b, k));
  }

  // ---------- big-endian digits of `w` bits ----------

  ghost predicate DigitsBelow(ds: seq<int>, bound: nat) {
    forall i :: 0 <= i < |ds| ==> 0 <= ds[i] < bound
  }

  /** The number written by big-endian digits. */
  function Val(ds: seq<int>, w: nat): (n: int) {
    if ds == [] then 0 else Shl(Val(ds[..|ds| - 1], w), w) + ds[|ds| - 1]
  }

  /** The `count` lowest digits of `n`, big-endian. */
  function Digits(n: int, count: nat, w: nat): (ds: seq<int>)
    ensures |ds| == count && DigitsBelow(ds, Pow2(w))
    decreases count
  {
    if count == 0 then [] else Digits(Shr(n, w), count - 1, w) + [Low(n, w)]
  }

  /** `count * w`, by addition */
  function Times(count: nat, w: nat): (n: nat) {
    if count == 0 then 0 else w + Times(count - 1, w)
  }

  lemma {:induction false} ValNonNegative(ds: seq<int>, w: nat)
    requires DigitsBelow(ds, Pow2(w))
    ensures Val(ds, w) >= 0
  {
    if ds != [] { ValNonNegative(ds[..|ds| - 1], w); }
  }

  lemma {:induction false} ValOfDigits(n: nat, count: nat, w: nat)
    requires Shr(n, Times(count, w)) == 0
    ensures Val(Digits(n, count, w), w) == n
    decreases count
  {
    if count > 0 {
      ShrShr(n, w, Times(count - 1, w));
      ValOfDigits(Shr(n, w), count - 1, w);
      var ds := Digits(n, count, w);
      assert ds[..count - 1] == Digits(Shr(n, w), count - 1, w);
      Recompose(n, w);
    }
  }

  lemma ValOfFittingDigits(n: nat, count: nat, w: nat)
    requires n < Pow2(Times(count, w))
    ensures Val(Digits(n, count, w), w) == n
  {
    LowSmall(n, Times(count, w));
    ValOfDigits(n, count, w);
  }

  /** Digits are determined by their number and their value, which fits in as many bits. */
  lemma {:induction false} DigitsOfVal(ds: seq<int>, w: nat)
    requires DigitsBelow(ds, Pow2(w))
    ensures Digits(Val(ds, w), |ds|, w) == ds && Shr(Val(ds, w), Times(|ds|, w)) == 0
  {
    if ds != [] {
      var front, last := ds[..|ds| - 1], ds[|ds| - 1];
      DigitsOfVal(front, w);
      DigitsPush(Val(front, w), last, |front|, w, Times(|front|, w));
      LastApart(ds);
    }
  }

  lemma LastApart(ds: seq<int>)
    requires ds != []
    ensures ds == ds[..|ds| - 1] + [ds[|ds| - 1]]
  {
  }

  /** One more digit at the end. */
  lemma DigitsPush(n: int, d: nat, count: nat, w: nat, bits: nat)
    requires d < Pow2(w)
    ensures Digits(Shl(n, w) + d, count + 1, w) == Digits(n, count, w) + [d]
    ensures Shr(Shl(n, w) + d, w + bits) == Shr(n, bits)
  {
    Split(n, d, w);
    ShrShr(Shl(n, w) + d, w, bits);
  }

  /** Digit `i` is the field of `w` bits that has `count - 1 - i` digits below it. */
  lemma {:induction false} DigitAt(n: int, count: nat, w: nat, i: nat)
    requires i < count
    ensures Digits(n, count, w)[i] == Low(Shr(n, Times(count - 1 - i, w)), w)
    decreases count
  {
    if i < count - 1 {
      DigitAt(Shr(n, w), count - 1, w, i);
      ShrShr(n, w, Times(count - 2 - i, w));
    }
  }

  lemma SameDigits(a: seq<int>, b: seq<int>, w: nat)
    requires DigitsBelow(a, Pow2(w)) && DigitsBelow(b, Pow2(w)) && |a| == |b| && Val(a, w) == Val(b, w)
    ensures a == b
  {
    DigitsOfVal(a, w);
    DigitsOfVal(b, w);
  }
}
