/** Readers poured into the buffers of the allocator: `put` and `copy_to_bytes`, which call each other. */
module Readers {
  import opened Common
  import opened BufferHeap
  import opened BufferOps
  import opened ByteBuffers
  import C = Cursors

  type Buf = C.Buf

  /**
   * Which of the mutually recursive calls comes first: a `put` into a buffer without capacity hands over to
   * `copy_to_bytes`, which only ever calls a `put` that does not hand back.
   */
  function Phase(capacity: nat, src: Buf): nat {
    if capacity == 0 && C.Remaining(src) > 0 then 2 else 0
  }

  /** Where the loop of `put` stands once it has moved the first `n` bytes. */
  ghost predicate Moved(s: Heap, t: Heap, h: nat, src: Buf, n: nat, rest: Buf) {
    && IsMut(s, h) && IsMut(t, h) && Untouched(s, t, {h}) && t.handles.Keys == s.handles.Keys
    && n <= |C.Flat(src)| && rest == C.Drop(src, n)
    && Contents(t, h) == Contents(s, h) + C.Flat(src)[..n]
    && t.handles[h] == s.handles[h].(len := s.handles[h].len + n)
  }

  lemma MovedStart(s: Heap, h: nat, src: Buf)
    requires IsMut(s, h)
    ensures Moved(s, s, h, src, 0, src)
  {
    C.DropNothing(src);
  }

  lemma MovedStep(s: Heap, t: Heap, u: Heap, h: nat, src: Buf, n: nat, rest: Buf, chunk: seq<Byte>)
    requires Moved(s, t, h, src, n, rest) && chunk <= C.Flat(rest)
    requires IsMut(u, h) && Untouched(t, u, {h}) && u.handles.Keys == t.handles.Keys
    requires Contents(u, h) == Contents(t, h) + chunk
    requires u.handles[h] == t.handles[h].(len := t.handles[h].len + |chunk|)
    ensures n + |chunk| <= |C.Flat(src)| && |chunk| <= |C.Flat(rest)|
    ensures Moved(s, u, h, src, n + |chunk|, C.Drop(rest, |chunk|))
  {
    C.TakeNext(src, n, rest, chunk);
    Appended(Contents(s, h), C.Flat(src), n, chunk, Contents(t, h));
    Chain(s, t, u, h);
  }

  lemma Appended(front: seq<Byte>, whole: seq<Byte>, n: nat, chunk: seq<Byte>, sofar: seq<Byte>)
    requires n + |chunk| <= |whole| && whole[..n] + chunk == whole[..n + |chunk|] && sofar == front + whole[..n]
    ensures sofar + chunk == front + whole[..n + |chunk|]
  {
    Associative(front, whole[..n], chunk);
  }

  lemma RestFacts(src: Buf, n: nat, rest: Buf)
    requires C.Valid(src) && n <= |C.Flat(src)| && rest == C.Drop(src, n)
    ensures C.Valid(rest) && |C.Flat(rest)| == |C.Flat(src)| - n && C.Chunk(rest) <= C.Flat(rest)
    ensures C.Remaining(rest) == 0 <==> n == |C.Flat(src)|
    ensures C.Chunk(rest) == [] ==> n == |C.Flat(src)|
    ensures |C.Flat(src)| <= C.USIZE_MAX ==> |C.Chunk(rest)| <= C.USIZE_MAX
  {
    C.DropIsSuffix(src, n);
    C.ChunkIsPrefix(rest);
    C.RemainingIsLength(rest);
  }

  /** The loop of `put`: chunk by chunk until nothing is left, with room for all of it. */
  method PutChunks(m: Buffers, h: nat, src: Buf) returns (rest: Buf)
    requires m.Valid() && IsMut(m.S(), h) && C.Valid(src) && |C.Flat(src)| <= C.USIZE_MAX
    requires |C.Flat(src)| <= m.handles[h].cap - m.handles[h].len
    modifies m
    ensures m.Valid() && Moved(old(m.S()), m.S(), h, src, |C.Flat(src)|, rest)
  {
    rest := src;
    ghost var s, n := m.S(), 0;
    MovedStart(s, h, src);
    RestFacts(src, n, rest);
    while C.Remaining(rest) > 0
      invariant m.Valid() && Moved(s, m.S(), h, src, n, rest)
      invariant C.Valid(rest) && (C.Remaining(rest) == 0 <==> n == |C.Flat(src)|)
      decreases |C.Flat(src)| - n
    {
      RestFacts(src, n, rest);
      var chunk := C.Chunk(rest);
      ghost var t := m.S();
      var ok := m.ExtendFromSlice(h, chunk);
      MovedStep(s, t, m.S(), h, src, n, rest, chunk);
      ok, rest := C.Advance(rest, |chunk|);
      n := n + |chunk|;
      RestFacts(src, n, rest);
    }
  }

  // ---------- new buffers ----------

  /** One more handle, and everything else as it was. */
  ghost predicate Adds(s: Heap, t: Heap, b: nat) {
    b !in s.handles && b in t.handles && Untouched(s, t, {}) && t.handles.Keys == s.handles.Keys + {b}
  }

  lemma AddsThen(s: Heap, t: Heap, u: Heap, b: nat)
    requires Adds(s, t, b) && Untouched(t, u, {b}) && u.handles.Keys == t.handles.Keys
    ensures Adds(s, u, b)
  {
    UntouchedTrans(s, t, u, {}, {b});
    assert {} + {b} == {b};
    UntouchedFresh(s, u, {}, b);
  }

  /** `BytesMut::with_capacity` */
  method WithCapacity(m: Buffers, capacity: nat) returns (v: nat)
    requires m.Valid() && m.bits == 64 && capacity <= C.ISIZE_MAX
    modifies m
    ensures m.Valid() && Adds(old(m.S()), m.S(), v) && IsMut(m.S(), v) && Contents(m.S(), v) == []
    ensures m.handles[v].rep.MutVec? && m.handles[v].len == 0 && m.handles[v].cap >= capacity
  {
    var ok;
    ghost var s := m.S();
    ok, v := m.MakeVec([], capacity);
    ghost var t := m.S();
    m.ToBytesMut(v);
    AddsThen(s, t, m.S(), v);
    m.Facts(v);
  }

  /** A new buffer that is finished becomes a `Bytes` that nobody shares. */
  method FreezeNew(m: Buffers, ghost s: Heap, v: nat)
    requires m.Valid() && Adds(s, m.S(), v) && IsMut(m.S(), v) && m.handles[v].rep.MutVec?
    modifies m
    ensures m.Valid() && Adds(s, m.S(), v) && IsFrozen(m.S(), v) && Contents(m.S(), v) == old(Contents(m.S(), v))
    ensures m.handles[v].Window? ==> Unique(m.S(), m.handles[v])
  {
    ghost var t := m.S();
    m.Freeze(v);
    AddsThen(s, t, m.S(), v);
  }

  // ---------- put and copy_to_bytes ----------

  /** What the buffer can take: its spare capacity, a new buffer in place of an empty one, or what `reserve` grants. */
  ghost predicate Accepts(s: Heap, h: nat, n: nat)
    requires IsMut(s, h)
  {
    var x := s.handles[h];
    n <= x.cap - x.len || if x.cap == 0 then n <= C.ISIZE_MAX else Grants(s, h, n, true)
  }

  /** The buffer, which may go on under another number, shows what it showed before and then all of the reader. */
  ghost predicate Poured(s: Heap, t: Heap, h: nat, r: nat, src: Buf) {
    && IsMut(s, h) && IsMut(t, r) && Untouched(s, t, {h}) && t.handles.Keys == s.handles.Keys - {h} + {r}
    && (r == h || r !in s.handles) && Contents(t, r) == Contents(s, h) + C.Flat(src)
  }

  /** `put`: everything that is left of a reader goes to the end of the buffer, or it panics and nothing happens. */
  method Put(m: Buffers, h: nat, src: Buf) returns (ok: bool, r: nat, rest: Buf)
    requires m.Valid() && m.bits == 64 && IsMut(m.S(), h) && C.Valid(src)
    modifies m
    ensures m.Valid() && (ok <==> Accepts(old(m.S()), h, |C.Flat(src)|))
    ensures !ok ==> m.S() == old(m.S())
    ensures ok ==> Poured(old(m.S()), m.S(), h, r, src) && rest == C.Drop(src, |C.Flat(src)|)
    ensures |C.Flat(src)| <= old(m.handles)[h].cap - old(m.handles)[h].len ==>
              r == h && Moved(old(m.S()), m.S(), h, src, |C.Flat(src)|, rest)
    decreases Phase(m.handles[h].cap, src), src, 1
  {
    C.RemainingIsLength(src);
    m.Facts(h);
    ok, r, rest := true, h, src;
    if C.Remaining(src) == 0 {
      MovedStart(m.S(), h, src);
    } else if m.handles[h].cap == 0 {
      ok, r, rest := PutAsNew(m, h, src);
    } else {
      ok, rest := PutReserved(m, h, src);
    }
  }

  /** A buffer without capacity tries to take over the allocation of the copied bytes. */
  method PutAsNew(m: Buffers, h: nat, src: Buf) returns (ok: bool, r: nat, rest: Buf)
    requires m.Valid() && m.bits == 64 && IsMut(m.S(), h) && C.Valid(src)
    requires m.handles[h].cap == 0 && m.handles[h].len == 0 && C.Remaining(src) > 0
    modifies m
    ensures m.Valid() && (ok <==> |C.Flat(src)| <= C.ISIZE_MAX)
    ensures !ok ==> m.S() == old(m.S())
    ensures ok ==> Poured(old(m.S()), m.S(), h, r, src) && rest == C.Drop(src, |C.Flat(src)|)
    decreases 2, src, 0
  {
    C.RemainingIsLength(src);
    m.Facts(h);
    ghost var s := m.S();
    r := h;
    var copy;
    ok, copy, rest := CopyToBytes(m, src, C.Remaining(src));
    if ok {
      assert C.Flat(src)[..|C.Flat(src)|] == C.Flat(src);
      TakeOver(m, s, h, copy);
      r := copy;
    }
  }

  /** `*self = bytes_mut`: the copy becomes mutable, because nobody shares it, and the empty buffer is dropped. */
  method TakeOver(m: Buffers, ghost s: Heap, h: nat, copy: nat)
    requires m.Valid() && IsMut(s, h) && Adds(s, m.S(), copy) && IsFrozen(m.S(), copy)
    requires Contents(m.S(), copy) != [] && (m.handles[copy].Window? ==> Unique(m.S(), m.handles[copy]))
    modifies m
    ensures m.Valid() && IsMut(m.S(), copy) && Untouched(s, m.S(), {h})
    ensures m.handles.Keys == s.handles.Keys - {h} + {copy} && Contents(m.S(), copy) == old(Contents(m.S(), copy))
  {
    ghost var t := m.S();
    var mutable := m.TryIntoMut(copy);
    if !mutable {
      assert false;
    }
    ghost var u := m.S();
    AddsThen(s, t, u, copy);
    m.Drop(h);
    UntouchedTrans(s, u, m.S(), {}, {h});
    assert {} + {h} == {h};
    Kept(u, m.S(), {h}, copy);
    m.Facts(copy);
  }

  lemma TooMuch(s: Heap, h: nat, n: nat)
    requires Inv(s) && s.bits == 64 && IsMut(s, h) && n > C.ISIZE_MAX
    ensures !Grants(s, h, n, true) && n > s.handles[h].cap - s.handles[h].len
  {
    HandleFacts(s, h);
    assert WfBlock(s, s.handles[h].buf);
  }

  lemma AllMoved(s: Heap, t: Heap, u: Heap, h: nat, src: Buf, rest: Buf)
    requires IsMut(s, h) && IsMut(t, h) && Untouched(s, t, {h}) && t.handles.Keys == s.handles.Keys
    requires Contents(t, h) == Contents(s, h) && Moved(t, u, h, src, |C.Flat(src)|, rest)
    ensures Poured(s, u, h, h, src) && rest == C.Drop(src, |C.Flat(src)|)
  {
    Chain(s, t, u, h);
    assert C.Flat(src)[..|C.Flat(src)|] == C.Flat(src);
  }

  /** A buffer with capacity makes room for everything first. */
  method PutReserved(m: Buffers, h: nat, src: Buf) returns (ok: bool, rest: Buf)
    requires m.Valid() && m.bits == 64 && IsMut(m.S(), h) && C.Valid(src) && m.handles[h].cap > 0
    modifies m
    ensures m.Valid() && (ok <==> Accepts(old(m.S()), h, |C.Flat(src)|))
    ensures !ok ==> m.S() == old(m.S())
    ensures ok ==> Poured(old(m.S()), m.S(), h, h, src) && rest == C.Drop(src, |C.Flat(src)|)
    ensures |C.Flat(src)| <= old(m.handles)[h].cap - old(m.handles)[h].len ==>
              Moved(old(m.S()), m.S(), h, src, |C.Flat(src)|, rest)
  {
    C.RemainingIsLength(src);
    ghost var s := m.S();
    m.Look();
    if |C.Flat(src)| > C.ISIZE_MAX {
      TooMuch(s, h, |C.Flat(src)|);
      TooMuch(s, h, C.Remaining(src));
    }
    rest := src;
    ok := m.Reserve(h, C.Remaining(src));
    if ok {
      ghost var t := m.S();
      rest := PutChunks(m, h, src);
      AllMoved(s, t, m.S(), h, src, rest);
    }
  }

  /** The new handle holds exactly these bytes, alone. */
  ghost predicate Holds(s: Heap, t: Heap, b: nat, bytes: seq<Byte>) {
    Adds(s, t, b) && IsFrozen(t, b) && Contents(t, b) == bytes && (t.handles[b].Window? ==> Unique(t, t.handles[b]))
  }

  /** `copy_to_bytes`: the first `len` bytes in a new `Bytes`, and the reader without them; or a panic. */
  method CopyToBytes(m: Buffers, t: Buf, len: nat) returns (ok: bool, b: nat, rest: Buf)
    requires m.Valid() && m.bits == 64 && C.Valid(t) && len <= C.USIZE_MAX
    modifies m
    ensures m.Valid() && (ok <==> len <= |C.Flat(t)| && len <= C.ISIZE_MAX)
    ensures !ok ==> m.S() == old(m.S())
    ensures ok ==> Holds(old(m.S()), m.S(), b, C.Flat(t)[..len]) && rest == C.Drop(t, len)
    decreases 1, t, 1
  {
    C.RemainingIsLength(t);
    ok, b, rest := false, 0, t;
    match t
    case Slice(bytes) =>
      if |bytes| >= len {
        ok := true;
        b, rest := CopyByPut(m, t, len);
      }
    case Chain(x, y) =>
      var xRem := C.Remaining(x);
      C.RemainingIsLength(x);
      C.RemainingIsLength(y);
      if len <= |C.Flat(t)| { C.FrontOfChain(x, y, len); }
      if xRem >= len {
        ok, b, rest := CopyToBytes(m, x, len);
        rest := C.Chain(rest, y);
      } else if xRem == 0 {
        C.DropNothing(x);
        ok, b, rest := CopyToBytes(m, y, len);
        rest := C.Chain(x, rest);
      } else if len - xRem <= C.Remaining(y) && len <= C.ISIZE_MAX {
        ok := true;
        b, rest := CopyFromBoth(m, x, y, len);
      }
    case Take(inner, limit) =>
      if len <= C.Remaining(t) {
        C.RemainingIsLength(inner);
        C.FrontOfTake(inner, limit, len);
        ok, b, rest := CopyToBytes(m, inner, len);
        rest := C.Take(rest, if ok then limit - len else limit);
      }
  }

  /** The default `copy_to_bytes`, for a reader that has enough. */
  method CopyByPut(m: Buffers, t: Buf, len: nat) returns (b: nat, rest: Buf)
    requires m.Valid() && m.bits == 64 && C.Valid(t) && len <= |C.Flat(t)| && len <= C.ISIZE_MAX
    modifies m
    ensures m.Valid() && Holds(old(m.S()), m.S(), b, C.Flat(t)[..len]) && rest == C.Drop(t, len)
    decreases 1, t, 0
  {
    ghost var s := m.S();
    b := WithCapacity(m, len);
    C.TakeAll(t, len);
    var limited := PutNew(m, s, b, C.Take(t, len));
    rest := limited.inner;
    FreezeNew(m, s, b);
  }

  /** `put` into a new buffer that has the room. */
  method PutNew(m: Buffers, ghost s: Heap, b: nat, src: Buf) returns (rest: Buf)
    requires m.Valid() && m.bits == 64 && C.Valid(src) && Adds(s, m.S(), b) && IsMut(m.S(), b) && m.handles[b].rep.MutVec?
    requires |C.Flat(src)| <= m.handles[b].cap - m.handles[b].len
    modifies m
    ensures m.Valid() && Adds(s, m.S(), b) && IsMut(m.S(), b) && m.handles[b].rep.MutVec?
    ensures m.handles[b] == old(m.handles)[b].(len := old(m.handles)[b].len + |C.Flat(src)|)
    ensures Contents(m.S(), b) == old(Contents(m.S(), b)) + C.Flat(src) && rest == C.Drop(src, |C.Flat(src)|)
    decreases 0, src, 2
  {
    ghost var u := m.S();
    C.RemainingIsLength(src);
    m.Facts(b);
    var ok, r;
    ok, r, rest := Put(m, b, src);
    AddsThen(s, u, m.S(), b);
  }

  /** `copy_to_bytes` of a chain, when both readers contribute. */
  method CopyFromBoth(m: Buffers, x: Buf, y: Buf, len: nat) returns (b: nat, rest: Buf)
    requires m.Valid() && m.bits == 64 && C.Valid(x) && C.Valid(y) && len <= C.ISIZE_MAX
    requires 0 < |C.Flat(x)| < len <= |C.Flat(x)| + |C.Flat(y)|
    modifies m
    ensures m.Valid() && Holds(old(m.S()), m.S(), b, C.Flat(C.Chain(x, y))[..len])
    ensures rest == C.Drop(C.Chain(x, y), len)
    decreases 1, C.Chain(x, y), 0
  {
    ghost var s := m.S();
    var n := len - |C.Flat(x)|;
    b := WithCapacity(m, len);
    var x' := PutNew(m, s, b, x);
    C.TakeAll(y, n);
    var limited := PutNew(m, s, b, C.Take(y, n));
    rest := C.Chain(x', limited.inner);
    BothParts(x, y, len);
    FreezeNew(m, s, b);
  }

  /** All of the first reader and the front of the second are the front of the chain. */
  lemma BothParts(x: Buf, y: Buf, len: nat)
    requires |C.Flat(x)| < len <= |C.Flat(x)| + |C.Flat(y)|
    ensures var n := len - |C.Flat(x)|;
            && [] + C.Flat(x) + C.Flat(y)[..n] == C.Flat(C.Chain(x, y))[..len]
            && C.Drop(C.Chain(x, y), len) == C.Chain(C.Drop(x, |C.Flat(x)|), C.Drop(y, n))
  {
  }
}
