/** Readers of bytes, and adapters that join and limit them: each behaves like one flat byte sequence. */
module Cursors {
  import opened Common
  import DataWord

  /** Sizes on the 64-bit target. */
  const USIZE_MAX: nat := DataWord.UsizeMax(64)
  const ISIZE_MAX: nat := DataWord.IsizeMax(64)

  /** A slice, `Chain` or `Take`, nested in any way. */
  datatype Buf = Slice(bytes: seq<Byte>) | Chain(a: Buf, b: Buf) | Take(inner: Buf, limit: nat)

  /** What the types of the source guarantee: no slice is longer than `isize::MAX`, and limits are `usize`. */
  predicate Valid(t: Buf) {
    match t
    case Slice(bytes) => |bytes| <= ISIZE_MAX
    case Chain(a, b) => Valid(a) && Valid(b)
    case Take(inner, limit) => Valid(inner) && limit <= USIZE_MAX
  }

  /** The bytes a reader stands for. */
  function Flat(t: Buf): seq<Byte> {
    match t
    case Slice(bytes) => bytes
    case Chain(a, b) => Flat(a) + Flat(b)
    case Take(inner, limit) => Flat(inner)[..Min(limit, |Flat(inner)|)]
  }

  // ---------- the three primitives ----------

  function Remaining(t: Buf): nat {
    match t
    case Slice(bytes) => |bytes|
    case Chain(a, b) => Min(Remaining(a) + Remaining(b), USIZE_MAX)
    case Take(inner, limit) => Min(Remaining(inner), limit)
  }

  function Chunk(t: Buf): seq<Byte> {
    match t
    case Slice(bytes) => bytes
    case Chain(a, b) => if Remaining(a) > 0 then Chunk(a) else Chunk(b)
    case Take(inner, limit) => Chunk(inner)[..Min(|Chunk(inner)|, limit)]
  }

  /** The reader without its first `n` bytes. */
  function Drop(t: Buf, n: nat): Buf
    requires n <= |Flat(t)|
  {
    match t
    case Slice(bytes) => Slice(bytes[n..])
    case Chain(a, b) =>
      if n <= |Flat(a)| then Chain(Drop(a, n), b) else Chain(Drop(a, |Flat(a)|), Drop(b, n - |Flat(a)|))
    case Take(inner, limit) => Take(Drop(inner, n), limit - n)
  }

  /** What remains is the length, as far as `usize` can tell. */
  lemma {:induction false} RemainingIsLength(t: Buf)
    requires Valid(t)
    ensures Remaining(t) == Min(|Flat(t)|, USIZE_MAX)
  {
    match t
    case Slice(bytes) =>
    case Chain(a, b) => RemainingIsLength(a); RemainingIsLength(b);
    case Take(inner, limit) => RemainingIsLength(inner);
  }

  /** A chunk is a prefix, and empty only when nothing is left. */
  lemma {:induction false} ChunkIsPrefix(t: Buf)
    requires Valid(t)
    ensures Chunk(t) <= Flat(t) && (Chunk(t) == [] ==> Flat(t) == [])
  {
    match t
    case Slice(bytes) =>
    case Chain(a, b) => ChunkIsPrefix(a); ChunkIsPrefix(b); RemainingIsLength(a);
    case Take(inner, limit) => ChunkIsPrefix(inner);
  }

  lemma {:induction false} DropIsSuffix(t: Buf, n: nat)
    requires n <= |Flat(t)|
    ensures Flat(Drop(t, n)) == Flat(t)[n..] && (Valid(t) ==> Valid(Drop(t, n)))
  {
    match t
    case Slice(bytes) =>
    case Chain(a, b) =>
      if n <= |Flat(a)| {
        DropIsSuffix(a, n);
      } else {
        DropIsSuffix(a, |Flat(a)|);
        DropIsSuffix(b, n - |Flat(a)|);
      }
    case Take(inner, limit) => DropIsSuffix(inner, n);
  }

  lemma {:induction false} DropNothing(t: Buf)
    ensures Drop(t, 0) == t
  {
    match t
    case Slice(bytes) =>
    case Chain(a, b) => DropNothing(a);
    case Take(inner, limit) => DropNothing(inner);
  }

  /** Two advances are one. */
  lemma {:induction false} DropDrop(t: Buf, m: nat, n: nat)
    requires m + n <= |Flat(t)|
    ensures |Flat(Drop(t, m))| == |Flat(t)| - m && Drop(Drop(t, m), n) == Drop(t, m + n)
    decreases t, 1
  {
    DropIsSuffix(t, m);
    match t
    case Slice(bytes) =>
    case Chain(a, b) => DropDropChain(a, b, m, n);
    case Take(inner, limit) => DropDrop(inner, m, n);
  }

  lemma {:induction false} DropDropChain(a: Buf, b: Buf, m: nat, n: nat)
    requires m + n <= |Flat(a)| + |Flat(b)| && m <= |Flat(Chain(a, b))| && n <= |Flat(Drop(Chain(a, b), m))|
    ensures Drop(Drop(Chain(a, b), m), n) == Drop(Chain(a, b), m + n)
    decreases Chain(a, b), 0
  {
    var k := |Flat(a)|;
    if m + n <= k {
      DropDrop(a, m, n);
    } else if m <= k {
      DropDrop(a, m, k - m);
    } else {
      DropDrop(a, k, 0);
      DropNothing(Drop(a, k));
      DropDrop(b, m - k, n);
    }
  }

  /** `advance`; past the end it panics. */
  method Advance(t: Buf, cnt: nat) returns (ok: bool, t': Buf)
    requires Valid(t) && cnt <= USIZE_MAX
    ensures ok <==> cnt <= |Flat(t)|
    ensures ok ==> t' == Drop(t, cnt)
    decreases t
  {
    t' := t;
    match t
    case Slice(bytes) =>
      if |bytes| < cnt {
        return false, t;
      }
      return true, Slice(bytes[cnt..]);
    case Chain(a, b) =>
      var aRem := Remaining(a);
      RemainingIsLength(a);
      var rest, a' := cnt, a;
      DropNothing(a);
      DropNothing(b);
      if aRem != 0 {
        if aRem >= cnt {
          ok, a' := Advance(a, cnt);
          return ok, Chain(a', b);
        }
        ok, a' := Advance(a, aRem);
        rest := cnt - aRem;
      }
      var b' := b;
      ok, b' := Advance(b, rest);
      return ok, Chain(a', b');
    case Take(inner, limit) =>
      if cnt > limit {
        return false, t;
      }
      var inner' := inner;
      ok, inner' := Advance(inner, cnt);
      return ok, Take(inner', if ok then limit - cnt else limit);
  }

  // ---------- taking from the front ----------

  lemma PrefixGrows(whole: seq<Byte>, n: nat, s: seq<Byte>)
    requires n <= |whole| && s <= whole[n..]
    ensures n + |s| <= |whole| && whole[..n] + s == whole[..n + |s|]
  {
  }

  /** Taking the next bytes of a reader that has already given `n`. */
  lemma TakeNext(src: Buf, n: nat, rest: Buf, s: seq<Byte>)
    requires n <= |Flat(src)| && rest == Drop(src, n) && s <= Flat(rest)
    ensures n + |s| <= |Flat(src)| && |s| <= |Flat(rest)|
    ensures Flat(src)[..n] + s == Flat(src)[..n + |s|] && Drop(rest, |s|) == Drop(src, n + |s|)
  {
    DropIsSuffix(src, n);
    PrefixGrows(Flat(src), n, s);
    DropDrop(src, n, |s|);
  }

  /** All of a limited reader is the front of the reader behind it. */
  lemma TakeAll(t: Buf, n: nat)
    requires n <= |Flat(t)|
    ensures Flat(Take(t, n)) == Flat(t)[..n] && Drop(Take(t, n), n) == Take(Drop(t, n), 0)
  {
  }

  lemma FrontOfChain(a: Buf, b: Buf, len: nat)
    requires len <= |Flat(a)| + |Flat(b)|
    ensures len <= |Flat(a)| ==> Flat(Chain(a, b))[..len] == Flat(a)[..len]
    ensures Flat(a) == [] ==> Flat(Chain(a, b))[..len] == Flat(b)[..len]
  {
  }

  lemma FrontOfTake(inner: Buf, limit: nat, len: nat)
    requires len <= limit && len <= |Flat(inner)|
    ensures len <= |Flat(Take(inner, limit))| && Flat(Take(inner, limit))[..len] == Flat(inner)[..len]
  {
  }

  // ---------- a reader in use ----------

  datatype TryGetError = TryGetError(requested: nat, available: nat)

  datatype Outcome = Success | Failure(error: TryGetError)

  class Cursor {
    var buf: Buf

    constructor (buf: Buf)
      ensures this.buf == buf
    {
      this.buf := buf;
    }

    /** `advance` on the reader in place. */
    method Skip(cnt: nat) returns (ok: bool)
      requires Valid(buf) && cnt <= USIZE_MAX
      modifies this
      ensures ok <==> cnt <= |Flat(old(buf))|
      ensures ok ==> Valid(buf) && Flat(buf) == Flat(old(buf))[cnt..]
    {
      if cnt <= |Flat(buf)| { DropIsSuffix(buf, cnt); }
      ok, buf := Advance(buf, cnt);
    }

    /** `try_copy_to_slice`: fills the destination from the front of the reader, or changes nothing. */
    method TryCopyToSlice(dst: array<Byte>) returns (r: Outcome)
      requires Valid(buf) && dst.Length <= ISIZE_MAX
      modifies this, dst
      ensures r.Success? <==> dst.Length <= |Flat(old(buf))|
      ensures r.Success? ==> dst[..] == Flat(old(buf))[..dst.Length] && buf == Drop(old(buf), dst.Length)
      ensures r.Failure? ==> dst[..] == old(dst[..]) && buf == old(buf)
      ensures r.Failure? ==> r.error == TryGetError(dst.Length, |Flat(buf)|)
    {
      RemainingIsLength(buf);
      if Remaining(buf) < dst.Length {
        return Failure(TryGetError(dst.Length, Remaining(buf)));
      }
      ghost var src := buf;
      var filled := 0;
      DropNothing(src);
      while filled < dst.Length
        invariant filled <= dst.Length <= |Flat(src)| && buf == Drop(src, filled)
        invariant dst[..filled] == Flat(src)[..filled]
      {
        filled := FillFrom(dst, filled, src);
      }
      r := Success;
    }

    /** One round of the loop: a chunk, or what still fits of it. */
    method FillFrom(dst: array<Byte>, filled: nat, ghost src: Buf) returns (filled': nat)
      requires Valid(src) && filled < dst.Length <= |Flat(src)| && dst.Length <= ISIZE_MAX
      requires buf == Drop(src, filled) && dst[..filled] == Flat(src)[..filled]
      modifies this, dst
      ensures filled < filled' <= dst.Length && buf == Drop(src, filled') && dst[..filled'] == Flat(src)[..filled']
    {
      DropIsSuffix(src, filled);
      ChunkIsPrefix(buf);
      var chunk := Chunk(buf);
      var cnt := Min(|chunk|, dst.Length - filled);
      var piece := chunk[..cnt];
      TakeNext(src, filled, buf, piece);
      SetBytes(dst, piece, filled);
      var ok, rest := Advance(buf, cnt);
      buf := rest;
      filled' := filled + cnt;
    }
  }
}
