/** The Molecule layouts of CKB RFC 0008, written as the wallet writes them and read back strictly. */
module Molecule {
  import opened Common
  import opened Numbers

  const BYTE_BITS: nat := 8
  const U32_BYTES: nat := 4
  const U64_BYTES: nat := 8
  const U32_MAX := 0xffff_ffff
  const U64_MAX := 0xffff_ffff_ffff_ffff

  // ---------- numbers ----------

  /** `value` in `n` bytes, least significant first. */
  function Le(value: nat, n: nat): (bs: seq<Byte>)
    ensures |bs| == n
    decreases n
  {
    if n == 0 then [] else [value % 256] + Le(value / 256, n - 1)
  }

  function FromLe(bs: seq<Byte>): (value: nat) {
    if bs == [] then 0 else bs[0] + 256 * FromLe(bs[1..])
  }

  /** The number of values that `n` bytes can hold. */
  function Span(n: nat): (s: nat)
    ensures s > 0
  {
    if n == 0 then 1 else 256 * Span(n - 1)
  }

  lemma SpanValues()
    ensures Span(4) == U32_MAX + 1 && Span(8) == U64_MAX + 1
  {
    assert Span(2) == 0x1_0000 && Span(6) == 0x1_0000_0000_0000;
  }

  /** Exactly the values below the span come back, and every byte string is the writing of its value. */
  lemma {:induction false} LeExact(value: nat, bs: seq<Byte>)
    ensures FromLe(bs) < Span(|bs|)
    ensures FromLe(bs) == value <==> value < Span(|bs|) && Le(value, |bs|) == bs
    decreases |bs|
  {
    if bs != [] {
      var rest := bs[1..];
      LeExact(value / 256, rest);
      LeExact(FromLe(rest), rest);
      assert bs == [bs[0]] + rest;
    }
  }

  /** `(value >> 8 * i) & 0xff` */
  function ByteOf(value: nat, i: nat): nat { Low(Shr(value, 8 * i), BYTE_BITS) }

  /** The least significant byte comes first. */
  lemma LeAt(value: nat, n: nat, i: nat)
    requires i < n
    ensures Le(value, n)[i] == ByteOf(value, i)
  {
    forall v: nat ensures ByteOf(v, 0) == v % 256 { FirstByte(v); }
    forall v: nat, k: nat | k > 0 ensures ByteOf(v / 256, k - 1) == ByteOf(v, k) { NextByte(v, k); }
    LeBytes(ByteOf, value, n, i);
  }

  /** Any numbering of the bytes of a number, from the least significant one on, numbers the bytes written. */
  lemma {:induction false} LeBytes(byteOf: (nat, nat) -> nat, value: nat, n: nat, i: nat)
    requires i < n && (forall v: nat :: byteOf(v, 0) == v % 256)
    requires forall v: nat, k: nat :: k > 0 ==> byteOf(v / 256, k - 1) == byteOf(v, k)
    ensures Le(value, n)[i] == byteOf(value, i)
    decreases n
  {
    if i > 0 { LeBytes(byteOf, value / 256, n - 1, i - 1); }
  }

  lemma FirstByte(value: nat)
    ensures ByteOf(value, 0) == value % 256
  {
    OneByte(value, BYTE_BITS);
  }

  lemma NextByte(value: nat, i: nat)
    requires i > 0
    ensures ByteOf(value / 256, i - 1) == ByteOf(value, i)
  {
    OneByte(value, BYTE_BITS);
    ShiftOn(value, BYTE_BITS, 8 * (i - 1), 8 * i);
  }

  lemma ShiftOn(value: nat, w: nat, at: nat, sum: nat)
    requires sum == w + at
    ensures Shr(Shr(value, w), at) == Shr(value, sum)
  {
    ShrShr(value, w, at);
  }

  lemma OneByte(value: nat, w: nat)
    requires w == 8
    ensures Shr(value, w) == value / 256 && Low(value, w) == value % 256
  {
    Recompose(value, w);
    Pow2Values();
    Times256(Shr(value, w));
  }

  lemma Times256(a: nat)
    ensures Shl(a, 8) == 256 * a
  {
    assert Shl(a, 1) == 2 * a && Shl(a, 2) == 4 * a && Shl(a, 3) == 8 * a && Shl(a, 4) == 16 * a;
    assert Shl(a, 5) == 32 * a && Shl(a, 6) == 64 * a && Shl(a, 7) == 128 * a;
  }

  function U32ToLeBytes(value: nat): (r: Result<seq<Byte>>)
    ensures r.Ok? ==> |r.value| == 4
  {
    if value > U32_MAX then Err else Ok(Le(value, U32_BYTES))
  }

  function U64ToLeBytes(value: nat): (r: Result<seq<Byte>>)
    ensures r.Ok? ==> |r.value| == 8
  {
    if value > U64_MAX then Err else Ok(Le(value, U64_BYTES))
  }

  function DecodeU32(bs: seq<Byte>): (r: Result<nat>) {
    if |bs| == 4 then Ok(FromLe(bs)) else Err
  }

  function DecodeU64(bs: seq<Byte>): (r: Result<nat>) {
    if |bs| == 8 then Ok(FromLe(bs)) else Err
  }

  lemma U32Exact(value: nat, bs: seq<Byte>)
    ensures DecodeU32(bs) == Ok(value) <==> U32ToLeBytes(value) == Ok(bs)
  {
    SpanValues();
    LeExact(value, bs);
  }

  lemma U64Exact(value: nat, bs: seq<Byte>)
    ensures DecodeU64(bs) == Ok(value) <==> U64ToLeBytes(value) == Ok(bs)
  {
    SpanValues();
    LeExact(value, bs);
  }

  // ---------- concatenation ----------

  function Flat(items: seq<seq<Byte>>): (bs: seq<Byte>) {
    if items == [] then [] else items[0] + Flat(items[1..])
  }

  lemma {:induction false} FlatConcat(a: seq<seq<Byte>>, b: seq<seq<Byte>>)
    ensures Flat(a + b) == Flat(a) + Flat(b)
  {
    if a == [] {
      assert a + b == b;
    } else {
      var rest := a[1..];
      FlatConcat(rest, b);
      assert (a + b)[1..] == rest + b;
      Associative(a[0], Flat(rest), Flat(b));
    }
  }

  lemma FlatSnoc(items: seq<seq<Byte>>, item: seq<Byte>)
    ensures Flat(items + [item]) == Flat(items) + item
  {
    FlatConcat(items, [item]);
    assert Flat([item]) == item;
  }

  /** `concatBytes`: the chunks copied one after the other into one buffer. */
  method ConcatBytes(chunks: seq<seq<Byte>>) returns (output: array<Byte>)
    ensures fresh(output) && output[..] == Flat(chunks)
  {
    var size := 0;
    for i := 0 to |chunks|
      invariant size == |Flat(chunks[..i])|
    {
      assert chunks[..i + 1] == chunks[..i] + [chunks[i]];
      FlatSnoc(chunks[..i], chunks[i]);
      size := size + |chunks[i]|;
    }
    assert chunks[..|chunks|] == chunks;
    output := new Byte[size](_ => 0);
    var offset := 0;
    for i := 0 to |chunks|
      invariant offset == |Flat(chunks[..i])| <= size
      invariant output[..offset] == Flat(chunks[..i])
    {
      assert chunks[..i + 1] == chunks[..i] + [chunks[i]];
      FlatSnoc(chunks[..i], chunks[i]);
      FlatConcat(chunks[..i + 1], chunks[i + 1..]);
      assert chunks == chunks[..i + 1] + chunks[i + 1..];
      SetBytes(output, chunks[i], offset);
      offset := offset + |chunks[i]|;
    }
  }

  // ---------- fixed-size vectors ----------

  /** `serializeFixVec` */
  function SerializeFixVec(items: seq<seq<Byte>>): (r: Result<seq<Byte>>) {
    var count :- U32ToLeBytes(|items|);
    Ok(count + Flat(items))
  }

  /** `count` items of `size` bytes each, and nothing else. */
  function Chunks(body: seq<Byte>, size: nat, count: nat): (r: Result<seq<seq<Byte>>>)
    decreases count
  {
    if count == 0 then
      if body == [] then Ok([]) else Err
    else if |body| < size then
      Err
    else
      var rest :- Chunks(body[size..], size, count - 1);
      Ok([body[..size]] + rest)
  }

  function DecodeFixVec(size: nat, bs: seq<Byte>): (r: Result<seq<seq<Byte>>>) {
    if |bs| < 4 then Err else Chunks(bs[4..], size, FromLe(bs[..4]))
  }

  ghost predicate AllOfSize(items: seq<seq<Byte>>, size: nat) {
    forall i :: 0 <= i < |items| ==> |items[i]| == size
  }

  lemma {:induction false} ChunksExact(body: seq<Byte>, size: nat, count: nat, items: seq<seq<Byte>>)
    ensures Chunks(body, size, count) == Ok(items) <==> |items| == count && AllOfSize(items, size) && Flat(items) == body
    decreases count
  {
    if count > 0 && items != [] {
      var rest := items[1..];
      assert items == [items[0]] + rest;
      if |body| >= size {
        ChunksExact(body[size..], size, count - 1, rest);
        assert body == body[..size] + body[size..];
      }
      if AllOfSize(items, size) {
        assert |items[0]| == size;
        SplitsAt(items[0], Flat(rest), body);
      }
    }
  }

  lemma SplitsAt(a: seq<Byte>, b: seq<Byte>, c: seq<Byte>)
    ensures a + b == c <==> |a| <= |c| && a == c[..|a|] && b == c[|a|..]
  {
    if a + b == c {
      assert c[..|a|] == a && c[|a|..] == b;
    }
  }

  lemma FixVecExact(size: nat, bs: seq<Byte>, items: seq<seq<Byte>>)
    ensures DecodeFixVec(size, bs) == Ok(items) <==> AllOfSize(items, size) && SerializeFixVec(items) == Ok(bs)
  {
    if |bs| >= 4 {
      ChunksExact(bs[4..], size, FromLe(bs[..4]), items);
      U32Exact(|items|, bs[..4]);
      if |items| <= U32_MAX { SplitsAt(Le(|items|, U32_BYTES), Flat(items), bs); }
    }
  }

  // ---------- byte strings ----------

  function Singletons(bytes: seq<Byte>): (items: seq<seq<Byte>>)
    ensures |items| == |bytes|
  {
    seq(|bytes|, i requires 0 <= i < |bytes| => [bytes[i]])
  }

  lemma {:induction false} FlatSingletons(bytes: seq<Byte>)
    ensures Flat(Singletons(bytes)) == bytes
  {
    if bytes != [] {
      FlatSingletons(bytes[1..]);
      assert Singletons(bytes)[1..] == Singletons(bytes[1..]);
    }
  }

  function SerializeBytes(bytes: seq<Byte>): (r: Result<seq<Byte>>) {
    SerializeFixVec(Singletons(bytes))
  }

  function DecodeBytes(bs: seq<Byte>): (r: Result<seq<Byte>>) {
    if |bs| >= 4 && FromLe(bs[..4]) == |bs| - 4 then Ok(bs[4..]) else Err
  }

  lemma BytesExact(bs: seq<Byte>, bytes: seq<Byte>)
    ensures DecodeBytes(bs) == Ok(bytes) <==> SerializeBytes(bytes) == Ok(bs)
  {
    FlatSingletons(bytes);
    if |bs| >= 4 { U32Exact(|bytes|, bs[..4]); }
    if |bytes| <= U32_MAX { SplitsAt(Le(|bytes|, U32_BYTES), bytes, bs); }
  }

  // ---------- dynamic vectors and tables ----------

  /** Where items laid out from position `at` on start. */
  function Starts(at: nat, items: seq<seq<Byte>>): (offsets: seq<nat>)
    ensures |offsets| == |items|
    decreases |items|
  {
    if items == [] then [] else [at] + Starts(at + |items[0]|, items[1..])
  }

  /** The size of a dynamic vector. */
  function DynSize(items: seq<seq<Byte>>): nat {
    4 + 4 * |items| + |Flat(items)|
  }

  function SerializeDynVec(items: seq<seq<Byte>>): (r: Result<seq<Byte>>) {
    var size :- U32ToLeBytes(DynSize(items));
    var offsets :- WriteOffsets(Starts(4 + 4 * |items|, items));
    Ok(size + offsets + Flat(items))
  }

  function WriteOffsets(offsets: seq<nat>): (r: Result<seq<Byte>>) {
    var chunks :- MapResult(U32ToLeBytes, offsets);
    Ok(Flat(chunks))
  }

  lemma {:induction false} StartsBelow(at: nat, items: seq<seq<Byte>>)
    ensures forall i :: 0 <= i < |items| ==> at <= Starts(at, items)[i] <= at + |Flat(items)|
    decreases |items|
  {
    if items != [] { StartsBelow(at + |items[0]|, items[1..]); }
  }

  /** It throws exactly when the size does not fit 32 bits. */
  lemma DynVecSize(items: seq<seq<Byte>>)
    ensures SerializeDynVec(items).Ok? <==> DynSize(items) <= U32_MAX
    ensures SerializeDynVec(items).Ok? ==> |SerializeDynVec(items).value| == DynSize(items)
  {
    StartsBelow(4 + 4 * |items|, items);
    OffsetsSize(Starts(4 + 4 * |items|, items));
  }

  lemma OffsetsSize(offsets: seq<nat>)
    ensures WriteOffsets(offsets).Ok? <==> forall i :: 0 <= i < |offsets| ==> offsets[i] <= U32_MAX
    ensures WriteOffsets(offsets).Ok? ==> |WriteOffsets(offsets).value| == 4 * |offsets|
  {
    if WriteOffsets(offsets).Ok? { FlatSize(MapResult(U32ToLeBytes, offsets).value, 4); }
  }

  lemma {:induction false} FlatSize(items: seq<seq<Byte>>, size: nat)
    requires AllOfSize(items, size)
    ensures |Flat(items)| == |items| * size
  {
    if items != [] { FlatSize(items[1..], size); }
  }

  lemma StartsUnfold(at: nat, items: seq<seq<Byte>>, i: nat)
    requires i < |items|
    ensures Starts(at, items[i..]) == [at] + Starts(at + |items[i]|, items[i + 1..])
    ensures Flat(items[i..]) == items[i] + Flat(items[i + 1..])
  {
    assert items[i..][1..] == items[i + 1..];
  }

  /** The offsets written so far, and those still to come. */
  ghost predicate OffsetsAt(items: seq<seq<Byte>>, header: nat, i: nat, offset: nat, starts: seq<nat>, offsets: seq<seq<Byte>>)
    requires i <= |items|
  {
    && offset + |Flat(items[i..])| == header + |Flat(items)|
    && starts + Starts(offset, items[i..]) == Starts(header, items)
    && MapResult(U32ToLeBytes, starts) == Ok(offsets)
  }

  lemma OffsetsStep(items: seq<seq<Byte>>, header: nat, i: nat, offset: nat, starts: seq<nat>, offsets: seq<seq<Byte>>)
    requires i < |items| && OffsetsAt(items, header, i, offset, starts, offsets) && U32ToLeBytes(offset).Ok?
    ensures OffsetsAt(items, header, i + 1, offset + |items[i]|, starts + [offset], offsets + [U32ToLeBytes(offset).value])
  {
    StartsUnfold(offset, items, i);
    MapSnoc(U32ToLeBytes, starts, offset);
    assert starts + ([offset] + Starts(offset + |items[i]|, items[i + 1..])) ==
           starts + [offset] + Starts(offset + |items[i]|, items[i + 1..]);
  }

  lemma OffsetsEnds(items: seq<seq<Byte>>, header: nat)
    ensures OffsetsAt(items, header, 0, header, [], [])
    ensures forall offset, starts, offsets :: OffsetsAt(items, header, |items|, offset, starts, offsets) ==>
              offset == header + |Flat(items)| && WriteOffsets(Starts(header, items)) == Ok(Flat(offsets))
  {
    assert items[0..] == items;
    forall offset, starts, offsets | OffsetsAt(items, header, |items|, offset, starts, offsets)
      ensures WriteOffsets(Starts(header, items)) == Ok(Flat(offsets))
    {
      assert starts == Starts(header, items);
    }
  }

  /** The running offset of `serializeDynVec`; each 32-bit encoding may throw. */
  method CollectOffsets(items: seq<seq<Byte>>, header: nat) returns (ok: bool, offset: nat, offsets: seq<seq<Byte>>)
    ensures !ok ==> header + |Flat(items)| > U32_MAX
    ensures ok ==> offset == header + |Flat(items)| && WriteOffsets(Starts(header, items)) == Ok(Flat(offsets))
  {
    ok, offset, offsets := true, header, [];
    ghost var starts := [];
    OffsetsEnds(items, header);
    for i := 0 to |items|
      invariant OffsetsAt(items, header, i, offset, starts, offsets)
    {
      if U32ToLeBytes(offset).Err? {
        return false, offset, offsets;
      }
      OffsetsStep(items, header, i, offset, starts, offsets);
      starts := starts + [offset];
      offsets := offsets + [U32ToLeBytes(offset).value];
      offset := offset + |items[i]|;
    }
  }

  /** `serializeDynVec` */
  method WriteDynVec(items: seq<seq<Byte>>) returns (r: Result<seq<Byte>>)
    ensures r == SerializeDynVec(items)
  {
    var ok, offset, offsets := CollectOffsets(items, 4 + 4 * |items|);
    if !ok || U32ToLeBytes(offset).Err? {
      return Err;
    }
    r := Ok(U32ToLeBytes(offset).value + Flat(offsets) + Flat(items));
  }

  /** Items that start at the given positions, the first one at `at`; each ends where the next one starts, the last at the end. */
  function Slices(offsets: seq<nat>, at: nat, body: seq<Byte>): (r: Result<seq<seq<Byte>>>) {
    if offsets == [] then
      if body == [] then Ok([]) else Err
    else
      var next := if |offsets| == 1 then at + |body| else offsets[1];
      if offsets[0] != at || next < at || next > at + |body| then Err
      else
        var rest :- Slices(offsets[1..], next, body[next - at..]);
        Ok([body[..next - at]] + rest)
  }

  function ReadOffsets(header: seq<Byte>, count: nat): (r: Result<seq<nat>>) {
    var chunks :- Chunks(header, 4, count);
    MapResult(DecodeU32, chunks)
  }

  function DecodeItems(header: seq<Byte>, count: nat, at: nat, body: seq<Byte>): (r: Result<seq<seq<Byte>>>) {
    var offsets :- ReadOffsets(header, count);
    Slices(offsets, at, body)
  }

  /** Reads a dynamic vector whose size and offsets must fit its bytes exactly; the first offset tells how many there are. */
  function DecodeDynVec(bs: seq<Byte>): (r: Result<seq<seq<Byte>>>) {
    if |bs| < 4 || FromLe(bs[..4]) != |bs| then Err
    else if |bs| == 4 then Ok([])
    else if |bs| < 8 then Err
    else
      var first := FromLe(bs[4..8]);
      if first < 8 || first > |bs| then Err else DecodeItems(bs[4..first], first / 4 - 1, first, bs[first..])
  }

  lemma {:induction false} SlicesExact(offsets: seq<nat>, at: nat, body: seq<Byte>, items: seq<seq<Byte>>)
    ensures Slices(offsets, at, body) == Ok(items) <==> offsets == Starts(at, items) && body == Flat(items)
    decreases |items|
  {
    if offsets != [] && items != [] {
      var n, rest := |items[0]|, items[1..];
      assert items == [items[0]] + rest && offsets == [offsets[0]] + offsets[1..];
      SplitsAt(items[0], Flat(rest), body);
      if n <= |body| { SlicesExact(offsets[1..], at + n, body[n..], rest); }
    }
  }

  /** A byte string is read as these items exactly when it is what they are written as. */
  lemma DynVecExact(bs: seq<Byte>, items: seq<seq<Byte>>)
    ensures DecodeDynVec(bs) == Ok(items) <==> SerializeDynVec(items) == Ok(bs)
  {
    if SerializeDynVec(items) == Ok(bs) { WrittenIsRead(bs, items); }
    if DecodeDynVec(bs) == Ok(items) { ReadIsWritten(bs, items); }
  }

  lemma ChunkOffsets(offsets: seq<nat>, chunks: seq<seq<Byte>>)
    ensures MapResult(DecodeU32, chunks) == Ok(offsets) <==> MapResult(U32ToLeBytes, offsets) == Ok(chunks)
  {
    if |offsets| == |chunks| {
      forall i | 0 <= i < |offsets|
        ensures DecodeU32(chunks[i]) == Ok(offsets[i]) <==> U32ToLeBytes(offsets[i]) == Ok(chunks[i])
      {
        U32Exact(offsets[i], chunks[i]);
      }
    }
    MapExact(_ => true, U32ToLeBytes, DecodeU32, offsets, chunks);
  }

  lemma OffsetsExact(header: seq<Byte>, count: nat, offsets: seq<nat>)
    ensures ReadOffsets(header, count) == Ok(offsets) <==> |offsets| == count && WriteOffsets(offsets) == Ok(header)
  {
    if Chunks(header, 4, count).Ok? {
      var chunks := Chunks(header, 4, count).value;
      ChunksExact(header, 4, count, chunks);
      ChunkOffsets(offsets, chunks);
    }
    if MapResult(U32ToLeBytes, offsets).Ok? {
      var chunks := MapResult(U32ToLeBytes, offsets).value;
      ChunksExact(header, 4, count, chunks);
      ChunkOffsets(offsets, chunks);
    }
  }

  lemma ItemsExact(header: seq<Byte>, count: nat, at: nat, body: seq<Byte>, items: seq<seq<Byte>>)
    ensures DecodeItems(header, count, at, body) == Ok(items) <==>
            |items| == count && WriteOffsets(Starts(at, items)) == Ok(header) && body == Flat(items)
  {
    OffsetsExact(header, count, Starts(at, items));
    if ReadOffsets(header, count).Ok? {
      SlicesExact(ReadOffsets(header, count).value, at, body, items);
    }
  }

  lemma WrittenIsRead(bs: seq<Byte>, items: seq<seq<Byte>>)
    requires SerializeDynVec(items) == Ok(bs)
    ensures DecodeDynVec(bs) == Ok(items)
  {
    var size, offsets := Pieces(bs, items);
    if items != [] {
      FilledIsRead(bs, size, offsets, Flat(items), |items|);
    } else {
      EmptyIsRead(bs, size);
    }
  }

  /** What a dynamic vector consists of, each piece as its reader sees it. */
  lemma Pieces(bs: seq<Byte>, items: seq<seq<Byte>>) returns (size: seq<Byte>, offsets: seq<Byte>)
    requires SerializeDynVec(items) == Ok(bs)
    ensures bs == size + offsets + Flat(items) && |size| == 4 && FromLe(size) == |bs| && |offsets| == 4 * |items|
    ensures items != [] ==> FromLe(offsets[..4]) == 4 + 4 * |items|
    ensures DecodeItems(offsets, |items|, 4 + 4 * |items|, Flat(items)) == Ok(items)
  {
    var head := 4 + 4 * |items|;
    size, offsets := Le(DynSize(items), U32_BYTES), WriteOffsets(Starts(head, items)).value;
    OffsetsSize(Starts(head, items));
    U32Exact(|bs|, size);
    if items != [] { FirstOffset(head, items, offsets); }
    ItemsExact(offsets, |items|, head, Flat(items), items);
  }

  lemma EmptyIsRead(bs: seq<Byte>, size: seq<Byte>)
    requires |size| == 4 && FromLe(size) == |bs| && bs == size + [] + Flat([])
    ensures DecodeDynVec(bs) == Ok([])
  {
    assert bs[..4] == size;
  }

  lemma FilledIsRead(bs: seq<Byte>, size: seq<Byte>, offsets: seq<Byte>, body: seq<Byte>, count: nat)
    requires bs == size + offsets + body && |size| == 4 && FromLe(size) == |bs| && count > 0
    requires |offsets| == 4 * count && FromLe(offsets[..4]) == 4 + 4 * count
    ensures DecodeDynVec(bs) == DecodeItems(offsets, count, 4 + 4 * count, body)
  {
    Parts(bs, size, offsets, body);
    FrontOfPart(bs, 4, 4 + 4 * count);
  }

  lemma FrontOfPart(bs: seq<Byte>, from: nat, to: nat)
    requires from + 4 <= to <= |bs|
    ensures bs[from..from + 4] == bs[from..to][..4]
  {
  }

  lemma FirstOffset(head: nat, items: seq<seq<Byte>>, offsets: seq<Byte>)
    requires items != [] && WriteOffsets(Starts(head, items)) == Ok(offsets)
    ensures |offsets| >= 4 && FromLe(offsets[..4]) == head
  {
    var chunks := MapResult(U32ToLeBytes, Starts(head, items)).value;
    assert U32ToLeBytes(Starts(head, items)[0]) == Ok(chunks[0]);
    assert offsets[..4] == chunks[0];
    U32Exact(head, chunks[0]);
  }

  lemma Parts(bs: seq<Byte>, a: seq<Byte>, b: seq<Byte>, c: seq<Byte>)
    requires bs == a + b + c
    ensures bs[..|a|] == a && bs[|a|..|a| + |b|] == b && bs[|a| + |b|..] == c
  {
  }

  lemma ReadIsWritten(bs: seq<Byte>, items: seq<seq<Byte>>)
    requires DecodeDynVec(bs) == Ok(items)
    ensures SerializeDynVec(items) == Ok(bs)
  {
    var size := bs[..4];
    U32Exact(|bs|, size);
    if |bs| > 4 {
      var first := FromLe(bs[4..8]);
      ReadParts(bs, items, first, size, bs[4..first], bs[first..]);
    } else {
      assert bs == size + [] + [];
      Assembled(bs, items, 4, size, [], []);
    }
  }

  lemma ReadParts(bs: seq<Byte>, items: seq<seq<Byte>>, first: nat, size: seq<Byte>, offsets: seq<Byte>, body: seq<Byte>)
    requires 8 <= first <= |bs| && U32ToLeBytes(|bs|) == Ok(size)
    requires size == bs[..4] && offsets == bs[4..first] && body == bs[first..]
    requires DecodeItems(offsets, first / 4 - 1, first, body) == Ok(items)
    ensures SerializeDynVec(items) == Ok(bs)
  {
    ItemsExact(offsets, first / 4 - 1, first, body, items);
    OffsetsSize(Starts(first, items));
    ThreeParts(bs, first);
    Assembled(bs, items, first, size, offsets, body);
  }

  lemma Assembled(bs: seq<Byte>, items: seq<seq<Byte>>, head: nat, size: seq<Byte>, offsets: seq<Byte>, body: seq<Byte>)
    requires head == 4 + 4 * |items| == 4 + |offsets| && U32ToLeBytes(|bs|) == Ok(size)
    requires bs == size + offsets + body && body == Flat(items) && WriteOffsets(Starts(head, items)) == Ok(offsets)
    ensures SerializeDynVec(items) == Ok(bs)
  {
    assert DynSize(items) == |bs|;
  }

  lemma ThreeParts(bs: seq<Byte>, at: nat)
    requires 4 <= at <= |bs|
    ensures bs == bs[..4] + bs[4..at] + bs[at..]
  {
  }
}
