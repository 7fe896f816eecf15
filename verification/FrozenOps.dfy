/** The operations of `Bytes`, and the conversions between `Vec`, `BytesMut` and `Bytes`, as functions on the heap. */
module FrozenOps {
  import opened Common
  import opened DataWord
  import opened BufferHeap
  import opened BufferOps

  // ---------- vectors taken out of handles and put into them ----------

  /** `rebuild_vec`: the vector behind a handle that owns its allocation, with its first `len` bytes in use. */
  function AsVec(s: Heap, h: nat, len: nat): (t: Heap)
    requires h in s.handles && s.handles[h].Window? && s.handles[h].buf in s.mem
    ensures IsVec(t, h) && t.handles.Keys == s.handles.Keys
  {
    SetHandle(s, h, Window(s.handles[h].buf, 0, len, |s.mem[s.handles[h].buf].bytes|, OwnedVec))
  }

  lemma {:induction false} AsVecKeeps(s: Heap, h: nat, len: nat)
    requires Inv(s) && h in s.handles && Direct(s.handles[h]) && s.handles[h].buf in s.mem
    requires len <= |s.mem[s.handles[h].buf].bytes|
    ensures Inv(AsVec(s, h, len)) && Untouched(s, AsVec(s, h, len), {h})
  {
    var y := AsVec(s, h, len).handles[h];
    HandleFacts(s, h);
    UniqueMeansSole(s, h);
    SoleIsClear(s, h, y);
    RewindowKeeps(s, h, y);
  }

  lemma AsVecTail(s: Heap, h: nat, len: nat)
    requires h in s.handles && InBounds(s, s.handles[h]) && len == s.handles[h].off + s.handles[h].len
    ensures |Contents(AsVec(s, h, len), h)| == len
    ensures Contents(AsVec(s, h, len), h)[s.handles[h].off..] == Contents(s, h)
  {
  }

  /** An empty static `Bytes` takes the place of a handle that has been dropped. */
  function Emptied(s: Heap, h: nat): (t: Heap)
    requires h in s.handles
  {
    var r := Release(s, h);
    SetHandle(r, h, Empty).(next := if h < r.next then r.next else h + 1)
  }

  lemma {:induction false} EmptiedKeeps(s: Heap, h: nat)
    requires Inv(s) && h in s.handles
    ensures Inv(Emptied(s, h)) && Untouched(s, Emptied(s, h), {h})
  {
    ReleaseKeeps(s, h);
    AddEmptyKeeps(Release(s, h), h);
    UntouchedTrans(s, Release(s, h), Emptied(s, h), {h}, {});
  }

  /** One more empty static `Bytes`. */
  function WithEmpty(s: Heap): (t: Heap) {
    s.(handles := s.handles[s.next := Empty], next := s.next + 1)
  }

  lemma {:induction false} WithEmptyKeeps(s: Heap)
    requires Inv(s)
    ensures s.next !in s.handles && Inv(WithEmpty(s))
  {
    AddEmptyKeeps(s, s.next);
  }

  lemma WithEmptyLeaves(s: Heap, b: nat)
    requires b in s.handles && b < s.next && s.next !in s.handles
    ensures Untouched(s, WithEmpty(s), {b}) && Contents(WithEmpty(s), b) == Contents(s, b)
    ensures WithEmpty(s).handles.Keys == s.handles.Keys + {s.next}
  {
  }

  /** A box of its own around an allocation that is not full. */
  function Boxed(s: Heap, v: nat): (t: Heap)
    requires IsVec(s, v)
  {
    var x := s.handles[v];
    Promote(s, v, x.(cap := x.len, rep := SharedArc(s.next)), s.next, FromBox)
  }

  lemma {:induction false} BoxedKeeps(s: Heap, v: nat)
    requires Inv(s) && IsVec(s, v)
    ensures Inv(Boxed(s, v)) && Untouched(s, Boxed(s, v), {v})
  {
    var y := BoxedIs(s, v);
    HandleFacts(s, v);
    PromoteKeeps(s, v, y, s.next, FromBox);
  }

  lemma BoxedIs(s: Heap, v: nat) returns (y: Handle)
    requires IsVec(s, v)
    ensures y == s.handles[v].(cap := s.handles[v].len, rep := SharedArc(s.next))
    ensures Boxed(s, v) == Promote(s, v, y, s.next, FromBox)
    ensures Contents(Boxed(s, v), v) == Contents(s, v)
  {
    y := s.handles[v].(cap := s.handles[v].len, rep := SharedArc(s.next));
  }

  /** The same bytes under a new type. */
  function Retyped(s: Heap, h: nat, cap: nat, rep: Rep): (t: Heap)
    requires h in s.handles && s.handles[h].Window?
  {
    SetHandle(s, h, s.handles[h].(cap := cap, rep := rep))
  }

  lemma {:induction false} RetypedKeeps(s: Heap, h: nat, cap: nat, rep: Rep)
    requires Inv(s) && h in s.handles && s.handles[h].Window?
    requires var y := s.handles[h].(cap := cap, rep := rep);
             SameLink(s.handles[h], y) && Within(y, s.handles[h]) && WfHandle(s, h, y)
    ensures Inv(Retyped(s, h, cap, rep)) && Untouched(s, Retyped(s, h, cap, rep), {h})
    ensures Contents(Retyped(s, h, cap, rep), h) == Contents(s, h)
  {
    ShrinkKeeps(s, h, s.handles[h].(cap := cap, rep := rep));
  }

  /** `Bytes::from(vec)`: empty, a promotable box when the vector is full, a `Shared` otherwise. */
  function FrozenFromVec(s: Heap, v: nat): (t: Heap)
    requires IsVec(s, v)
  {
    var x := s.handles[v];
    if x.len < x.cap then Boxed(s, v)
    else if x.len == 0 then Emptied(s, v)
    else Retyped(s, v, x.cap, Promotable)
  }

  lemma {:induction false} FrozenFromVecKeeps(s: Heap, v: nat)
    requires Inv(s) && IsVec(s, v)
    ensures Inv(FrozenFromVec(s, v)) && Untouched(s, FrozenFromVec(s, v), {v})
  {
    var x := s.handles[v];
    HandleFacts(s, v);
    if x.len < x.cap {
      BoxedKeeps(s, v);
    } else if x.len == 0 {
      EmptiedKeeps(s, v);
    } else {
      RetypedKeeps(s, v, x.cap, Promotable);
    }
  }

  lemma {:induction false} FrozenFromVecContents(s: Heap, v: nat)
    requires Inv(s) && IsVec(s, v)
    ensures var t := FrozenFromVec(s, v); IsFrozen(t, v) && Contents(t, v) == Contents(s, v)
    ensures FrozenFromVec(s, v).handles[v].Window? ==> FrozenFromVec(s, v).handles[v].off == 0
  {
    HandleFacts(s, v);
    var y := BoxedIs(s, v);
  }

  // ---------- windows of a Bytes ----------

  /** The part of a frozen window from `begin`, `len` bytes long. */
  function Part(x: Handle, begin: nat, len: nat): Handle
    requires x.Window?
  {
    x.(off := x.off + begin, len := len, cap := len)
  }

  function Narrowed(s: Heap, b: nat, begin: nat, len: nat): (t: Heap)
    requires b in s.handles && s.handles[b].Window?
  {
    SetHandle(s, b, Part(s.handles[b], begin, len))
  }

  /** A `Bytes` may be narrowed freely, except that a promotable one must keep reaching to the end of its allocation. */
  lemma {:induction false} NarrowedKeeps(s: Heap, b: nat, begin: nat, len: nat)
    requires Inv(s) && b in s.handles && s.handles[b].Window? && s.handles[b].rep.Frozen()
    requires begin + len <= s.handles[b].len
    requires s.handles[b].rep.Promotable? ==> begin + len == s.handles[b].len
    ensures Inv(Narrowed(s, b, begin, len)) && Untouched(s, Narrowed(s, b, begin, len), {b})
  {
    PartFits(s, b, begin, len);
    ShrinkKeeps(s, b, Part(s.handles[b], begin, len));
  }

  lemma PartFits(s: Heap, b: nat, begin: nat, len: nat)
    requires Inv(s) && b in s.handles && s.handles[b].Window? && s.handles[b].rep.Frozen()
    requires begin + len <= s.handles[b].len
    requires s.handles[b].rep.Promotable? ==> begin + len == s.handles[b].len
    ensures var y := Part(s.handles[b], begin, len);
            SameLink(s.handles[b], y) && Within(y, s.handles[b]) && WfHandle(s, b, y)
  {
    HandleFacts(s, b);
  }

  lemma NarrowedContents(s: Heap, b: nat, begin: nat, end: nat)
    requires b in s.handles && InBounds(s, s.handles[b]) && begin <= end <= s.handles[b].len
    ensures Contents(Narrowed(s, b, begin, end - begin), b) == Contents(s, b)[begin..end]
    ensures end == s.handles[b].len ==> Contents(Narrowed(s, b, begin, end - begin), b) == Contents(s, b)[begin..]
    ensures begin == 0 ==> Contents(Narrowed(s, b, begin, end - begin), b) == Contents(s, b)[..end]
  {
    ViewPart(s, s.handles[b], Part(s.handles[b], begin, end - begin));
  }

  // ---------- clone ----------

  /** `shallow_clone_vec` without the copy: the promotable handle is moved into a box. */
  function AsArc(s: Heap, b: nat): (t: Heap)
    requires b in s.handles && s.handles[b].Window? && s.handles[b].rep.Frozen() && s.handles[b].buf in s.mem
    ensures b in t.handles && t.handles[b].Window? && t.handles[b].rep.Frozen() && !t.handles[b].rep.Direct()
    ensures t.handles[b] == s.handles[b].(rep := t.handles[b].rep)
    ensures t.handles.Keys == s.handles.Keys && s.next <= t.next
  {
    var x := s.handles[b];
    if x.rep.Promotable? then Promote(s, b, x.(rep := PromotableArc(s.next)), s.next, FromBox) else s
  }

  lemma {:induction false} AsArcKeeps(s: Heap, b: nat)
    requires Inv(s) && b in s.handles && s.handles[b].Window? && s.handles[b].rep.Frozen() && s.handles[b].buf in s.mem
    ensures Inv(AsArc(s, b)) && Untouched(s, AsArc(s, b), {b})
  {
    HandleFacts(s, b);
    var x := s.handles[b];
    if x.rep.Promotable? { PromoteKeeps(s, b, x.(rep := PromotableArc(s.next)), s.next, FromBox); }
  }

  /** The vtable of a clone: the second `Shared` keeps its own, everything else gets the first. */
  function CloneOf(x: Handle): Handle
    requires x.Window? && !x.rep.Direct()
  {
    x.(rep := if x.rep.SharedVArc? then x.rep else SharedArc(x.rep.sid))
  }

  function Cloned(s: Heap, b: nat): (t: Heap)
    requires b in s.handles && s.handles[b].Window? && s.handles[b].rep.Frozen() && s.handles[b].buf in s.mem
    requires AsArc(s, b).handles[b].rep.sid in AsArc(s, b).shareds
    ensures b in t.handles && AsArc(s, b).next in t.handles
  {
    var p := AsArc(s, b);
    Fork(p, b, p.handles[b], p.next, CloneOf(p.handles[b]))
  }

  lemma {:induction false} CanClone(s: Heap, b: nat)
    requires Inv(s) && b in s.handles && s.handles[b].Window? && s.handles[b].rep.Frozen() && s.handles[b].buf in s.mem
    ensures var p := AsArc(s, b);
            p.handles[b].rep.sid in p.shareds && CanFork(p, b, p.handles[b], p.next, CloneOf(p.handles[b]))
  {
    AsArcKeeps(s, b);
    HandleFacts(AsArc(s, b), b);
  }

  lemma {:induction false} ClonedKeeps(s: Heap, b: nat)
    requires Inv(s) && b in s.handles && s.handles[b].Window? && s.handles[b].rep.Frozen() && s.handles[b].buf in s.mem
    ensures AsArc(s, b).handles[b].rep.sid in AsArc(s, b).shareds
    ensures Inv(Cloned(s, b)) && Untouched(s, Cloned(s, b), {b})
  {
    CanClone(s, b);
    AsArcKeeps(s, b);
    var p := AsArc(s, b);
    ForkKeeps(p, b, p.handles[b], p.next, CloneOf(p.handles[b]));
    UntouchedTrans(s, p, Cloned(s, b), {b}, {b});
  }

  lemma ClonedLayout(s: Heap, b: nat)
    requires b in s.handles && s.handles[b].Window? && s.handles[b].rep.Frozen() && s.handles[b].buf in s.mem
    requires AsArc(s, b).handles[b].rep.sid in AsArc(s, b).shareds && AsArc(s, b).next !in s.handles
    ensures var t, n := Cloned(s, b), AsArc(s, b).next;
            && IsFrozen(t, b) && IsFrozen(t, n) && t.handles[n].Window? && !t.handles[n].rep.Direct()
            && !t.handles[b].rep.Direct()
            && t.handles[b] == s.handles[b].(rep := t.handles[b].rep)
            && t.handles[n] == s.handles[b].(rep := t.handles[n].rep)
            && Contents(t, b) == Contents(s, b) && Contents(t, n) == Contents(s, b)
  {
  }

  lemma ClonedJoins(s: Heap, b: nat)
    requires b in s.handles && s.handles[b].Window? && s.handles[b].rep.Frozen() && s.handles[b].buf in s.mem
    requires !s.handles[b].rep.Direct() ==> s.handles[b].rep.sid in s.shareds && s.shareds[s.handles[b].rep.sid].refCnt > 0
    requires AsArc(s, b).handles[b].rep.sid in AsArc(s, b).shareds && AsArc(s, b).next !in s.handles
    ensures Joins(s, Cloned(s, b), b, AsArc(s, b).next)
  {
  }

  /** Narrowing either handle afterwards changes nothing about the sharing. */
  lemma JoinsStill(s: Heap, t: Heap, b: nat, n: nat, u: Heap)
    requires Joins(s, t, b, n) && b in u.handles && n in u.handles && u.handles[b].Window? && u.handles[n].Window?
    requires u.handles[b].rep == t.handles[b].rep && u.handles[n].rep == t.handles[n].rep
    requires u.shareds == t.shareds && u.allocs == t.allocs && u.frees == t.frees
    ensures Joins(s, u, b, n)
  {
  }

  // ---------- back to a vector or a BytesMut ----------

  /** The only sharer moves its bytes to the front and takes the vector out of its box. */
  function Reclaimed(s: Heap, h: nat, y: Handle, bytes: seq<Byte>): (t: Heap)
    requires h in s.handles && s.handles[h].Window? && !s.handles[h].rep.Direct() && y.Window? && y.buf in s.mem
  {
    Adopt(Poke(s, y.buf, bytes), h, y, s.handles[h].rep.sid)
  }

  lemma {:induction false} ReclaimedKeeps(s: Heap, h: nat, y: Handle, bytes: seq<Byte>)
    requires Inv(s) && h in s.handles && s.handles[h].Window? && !s.handles[h].rep.Direct() && Unique(s, s.handles[h])
    requires Direct(y) && y.buf == s.handles[h].buf && y.buf in s.mem && |bytes| == |s.mem[y.buf].bytes|
    requires WfShape(s.bits, |bytes|, y)
    ensures Inv(Reclaimed(s, h, y, bytes)) && Untouched(s, Reclaimed(s, h, y, bytes), {h})
  {
    var m := Poke(s, y.buf, bytes);
    UniqueMeansSole(s, h);
    WriteSole(s, h, bytes);
    AdoptKeeps(m, h, y, s.handles[h].rep.sid);
    UntouchedTrans(s, m, Reclaimed(s, h, y, bytes), {h}, {h});
  }

  /** The whole allocation as a vector holding the bytes of the handle at its front. */
  function FrontVec(s: Heap, h: nat): (y: Handle)
    requires h in s.handles && s.handles[h].Window? && s.handles[h].buf in s.mem
  {
    Window(s.handles[h].buf, 0, s.handles[h].len, |s.mem[s.handles[h].buf].bytes|, OwnedVec)
  }

  predicate Convertible(s: Heap, h: nat) {
    h in s.handles && s.handles[h].Window? && InBounds(s, s.handles[h])
  }

  /** `Vec::from`, for both handle types; `grant` is the copy made when the allocation is shared. */
  function IntoVec(s: Heap, h: nat, grant: seq<Byte>): (t: Heap)
    requires Convertible(s, h)
  {
    if s.handles[h].rep.Direct() then CopiedBack(s, h, FrontVec(s, h))
    else if Unique(s, s.handles[h]) then
      Reclaimed(s, h, FrontVec(s, h), MovedBack(s.mem[s.handles[h].buf].bytes, s.handles[h]))
    else Depart(s, h, grant, s.handles[h].len)
  }

  lemma {:induction false} IntoVecKeeps(s: Heap, h: nat, grant: seq<Byte>)
    requires Inv(s) && Convertible(s, h)
    requires s.handles[h].len <= |grant| <= IsizeMax(s.bits) && grant[..s.handles[h].len] == Contents(s, h)
    ensures Inv(IntoVec(s, h, grant)) && Untouched(s, IntoVec(s, h, grant), {h})
  {
    HandleFacts(s, h);
    if s.handles[h].rep.Direct() {
      CopyBackKeeps(s, h, FrontVec(s, h));
    } else if Unique(s, s.handles[h]) {
      ReclaimedKeeps(s, h, FrontVec(s, h), MovedBack(s.mem[s.handles[h].buf].bytes, s.handles[h]));
    } else {
      DepartKeeps(s, h, grant, s.handles[h].len);
    }
  }

  lemma IntoVecContents(s: Heap, h: nat, grant: seq<Byte>)
    requires Convertible(s, h)
    requires s.handles[h].len <= |grant| && grant[..s.handles[h].len] == Contents(s, h)
    ensures var t := IntoVec(s, h, grant); IsVec(t, h) && Contents(t, h) == Contents(s, h)
  {
  }

  /** The sizes from which a handle without co-owners rebuilds its vector. */
  predicate CanTake(s: Heap, h: nat)
    requires Convertible(s, h)
  {
    var x, size := s.handles[h], |s.mem[s.handles[h].buf].bytes|;
    match x.rep
    case OwnedVec => x.cap == size
    case MutVec(w) => x.cap + w.pos == size
    case Promotable => x.off + x.len == size
    case _ => x.rep.sid in s.shareds && s.shareds[x.rep.sid].cap == size
  }

  lemma TakeReady(s: Heap, h: nat)
    requires Inv(s) && Convertible(s, h)
    ensures CanTake(s, h)
  {
    RebuiltSize(s, h);
  }

  lemma TakeKeeps(s: Heap, h: nat) returns (grant: seq<Byte>)
    requires Inv(s) && Convertible(s, h) && Unique(s, s.handles[h])
    ensures Inv(IntoVec(s, h, grant)) && Untouched(s, IntoVec(s, h, grant), {h})
    ensures IsVec(IntoVec(s, h, grant), h) && Contents(IntoVec(s, h, grant), h) == Contents(s, h)
  {
    grant := Contents(s, h);
    HandleFacts(s, h);
    assert WfBlock(s, s.handles[h].buf);
    IntoVecKeeps(s, h, grant);
    IntoVecContents(s, h, grant);
  }

  /** The only sharer takes the vector out of its box with everything up to the end of its window in use. */
  function Unboxed(s: Heap, h: nat): (t: Heap)
    requires Convertible(s, h) && !s.handles[h].rep.Direct()
    ensures IsVec(t, h) && s.handles[h].buf in t.mem && t.mem[s.handles[h].buf].bytes == s.mem[s.handles[h].buf].bytes
  {
    Adopt(s, h, UnboxedVec(s, h), s.handles[h].rep.sid)
  }

  function UnboxedVec(s: Heap, h: nat): (y: Handle)
    requires Convertible(s, h)
  {
    Window(s.handles[h].buf, 0, s.handles[h].off + s.handles[h].len, |s.mem[s.handles[h].buf].bytes|, OwnedVec)
  }

  lemma UnboxedTail(s: Heap, h: nat)
    requires Convertible(s, h) && !s.handles[h].rep.Direct()
    ensures |Contents(Unboxed(s, h), h)| == s.handles[h].off + s.handles[h].len
    ensures Contents(Unboxed(s, h), h)[s.handles[h].off..] == Contents(s, h)
    ensures Unboxed(s, h).handles.Keys == s.handles.Keys
  {
  }

  lemma {:induction false} UnboxedKeeps(s: Heap, h: nat)
    requires Inv(s) && Convertible(s, h) && !s.handles[h].rep.Direct() && Unique(s, s.handles[h])
    ensures Inv(Unboxed(s, h)) && Untouched(s, Unboxed(s, h), {h})
  {
    HandleFacts(s, h);
    AdoptKeeps(s, h, UnboxedVec(s, h), s.handles[h].rep.sid);
  }

  /** The whole allocation behind its window, for a handle that has it to itself. */
  function ToTheEnd(s: Heap, h: nat): (y: Handle)
    requires Convertible(s, h) && s.handles[h].rep.SharedVArc?
  {
    s.handles[h].(cap := |s.mem[s.handles[h].buf].bytes| - s.handles[h].off, rep := MutArc(s.handles[h].rep.sid))
  }

  lemma ThawedLayout(s: Heap, h: nat)
    requires Convertible(s, h) && s.handles[h].rep.SharedVArc?
    ensures var t := SetHandle(s, h, ToTheEnd(s, h));
            IsMut(t, h) && Contents(t, h) == Contents(s, h) && t.handles.Keys == s.handles.Keys
  {
  }

  lemma ToTheEndFits(s: Heap, h: nat)
    requires Inv(s) && Convertible(s, h) && s.handles[h].rep.SharedVArc?
    ensures SameLink(s.handles[h], ToTheEnd(s, h)) && WfHandle(s, h, ToTheEnd(s, h))
  {
    HandleFacts(s, h);
  }

  /** A frozen window of the second `Shared` that has its allocation to itself may use all of it again. */
  lemma {:induction false} ThawedKeeps(s: Heap, h: nat)
    requires Inv(s) && Convertible(s, h) && s.handles[h].rep.SharedVArc? && Unique(s, s.handles[h])
    ensures Inv(SetHandle(s, h, ToTheEnd(s, h))) && Untouched(s, SetHandle(s, h, ToTheEnd(s, h)), {h})
  {
    ToTheEndFits(s, h);
    UniqueMeansSole(s, h);
    SoleIsClear(s, h, ToTheEnd(s, h));
    RewindowKeeps(s, h, ToTheEnd(s, h));
  }
}
