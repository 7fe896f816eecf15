/** The tagged machine word in which a vector-backed `BytesMut` keeps its offset and its original capacity. */
module DataWord {
  import opened Numbers

  /** Bit 0 of the word: 1 for the vector representation, 0 for a pointer to a `Shared`. */
  const KIND_VEC := 1
  const MIN_ORIGINAL_CAPACITY := 1024
  const MAX_REPR := 7

  /** The supported pointer widths. */
  predicate PtrWidth(bits: nat) {
    bits == 32 || bits == 64
  }

  function UsizeMax(bits: nat): (m: nat)
    requires PtrWidth(bits)
  {
    if bits == 32 then 0xFFFF_FFFF else 0xFFFF_FFFF_FFFF_FFFF
  }

  /** The largest size the allocator hands out. */
  function IsizeMax(bits: nat): (m: nat)
    requires PtrWidth(bits)
  {
    UsizeMax(bits) / 2
  }

  function MaxVecPos(bits: nat): (m: nat)
    requires PtrWidth(bits)
  {
    UsizeMax(bits) / 32
  }

  /** What the word of a vector-backed handle records: the offset of its window and the original capacity class. */
  datatype Word = Word(pos: nat, repr: nat)

  predicate Packable(bits: nat, w: Word)
    requires PtrWidth(bits)
  {
    w.pos <= MaxVecPos(bits) && w.repr <= MAX_REPR
  }

  /** `pos << 5 | repr << 2 | KIND_VEC` */
  function Pack(w: Word): (raw: nat) {
    w.pos * 32 + w.repr * 4 + KIND_VEC
  }

  function Unpack(raw: nat): (w: Word) {
    Word(raw / 32, raw % 32 / 4)
  }

  /** `set_vec_pos`: the new offset over the untouched low five bits. */
  function SetVecPos(raw: nat, pos: nat): (r: nat) {
    pos * 32 + raw % 32
  }

  /** The fields of the word do not disturb one another, the tag says vector, and the word fits the machine. */
  lemma WordFields(bits: nat, w: Word, pos: nat)
    requires PtrWidth(bits) && Packable(bits, w) && pos <= MaxVecPos(bits)
    ensures Pack(w) <= UsizeMax(bits) && Pack(w) % 2 == KIND_VEC
    ensures Unpack(Pack(w)) == w
    ensures SetVecPos(Pack(w), pos) == Pack(w.(pos := pos))
  {
    Fields(w.pos, w.repr);
    Fields(pos, w.repr);
  }

  /** The fields of the word as numbers. */
  lemma Fields(pos: nat, repr: nat)
    requires repr <= 7
    ensures var raw := pos * 32 + repr * 4 + 1; raw / 32 == pos && raw % 32 == repr * 4 + 1 && raw % 2 == 1
    ensures (repr * 4 + 1) / 4 == repr
  {
    AboveFive(pos, repr * 4 + 1);
    Halves(16 * pos + 2 * repr, 1);
  }

  lemma AboveFive(pos: nat, low: nat)
    requires low < 32
    ensures (pos * 32 + low) / 32 == pos && (pos * 32 + low) % 32 == low
  {
  }

  /** Number of significant bits. */
  function BitLength(n: nat): (w: nat) {
    if n == 0 then 0 else 1 + BitLength(n / 2)
  }

  function OriginalCapacityToRepr(cap: nat): (repr: nat)
    ensures repr <= MAX_REPR
  {
    var width := BitLength(cap / MIN_ORIGINAL_CAPACITY);
    if width < MAX_REPR then width else MAX_REPR
  }

  function OriginalCapacityFromRepr(repr: nat): (cap: nat) {
    if repr == 0 then 0 else Pow2(repr + 9)
  }

  /** No recorded capacity is above 64 KiB. */
  lemma LargestRecorded(repr: nat)
    requires repr <= MAX_REPR
    ensures OriginalCapacityFromRepr(repr) <= 65536
  {
    Pow2Monotone(repr + 9, 16);
    Pow2Add(8, 8);
    Pow2Values();
  }

  lemma {:induction false} BitLengthBounds(n: nat)
    ensures n < Pow2(BitLength(n))
    ensures n > 0 ==> BitLength(n) > 0 && Pow2(BitLength(n) - 1) <= n
  {
    if n > 0 { BitLengthBounds(n / 2); }
  }

  /**
   * The recorded capacity is the largest power of two not above the true one,
   * 0 below 1 KiB and never more than 64 KiB.
   */
  lemma {:induction false} OriginalCapacity(cap: nat)
    ensures var back := OriginalCapacityFromRepr(OriginalCapacityToRepr(cap));
            && back <= cap && back <= 65536
            && (back == 0 <==> cap < 1024)
            && (1024 <= cap < 65536 ==> cap < 2 * back)
            && (cap >= 65536 ==> back == 65536)
  {
    var n := cap / MIN_ORIGINAL_CAPACITY;
    BitLengthBounds(n);
    var r := OriginalCapacityToRepr(cap);
    assert Pow2(10) == 1024 && Pow2(6) == 64 && Pow2(16) == 65536 by {
      Pow2Add(5, 5); Pow2Add(3, 3); Pow2Add(8, 8); Pow2Add(4, 4);
      assert Pow2(3) == 8 && Pow2(4) == 16 && Pow2(5) == 32;
    }
    if n > 0 {
      Pow2Add(r - 1, 10);
      if BitLength(n) < MAX_REPR {
        Pow2Monotone(BitLength(n), 6);
      } else {
        Pow2Monotone(6, BitLength(n) - 1);
      }
    }
  }
}
