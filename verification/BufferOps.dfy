/** The operations of `BytesMut` and `Bytes` as functions on the heap, each with the proof that it keeps the invariant. */
module BufferOps {
  import opened Common
  import opened DataWord
  import opened BufferHeap

  predicate IsMut(s: Heap, h: nat) {
    h in s.handles && s.handles[h].Window? && s.handles[h].rep.Mutable() && s.handles[h].buf in s.mem
  }

  predicate IsFrozen(s: Heap, h: nat) {
    h in s.handles && (s.handles[h].Window? ==> s.handles[h].rep.Frozen() && s.handles[h].buf in s.mem)
  }

  predicate IsVec(s: Heap, h: nat) {
    h in s.handles && s.handles[h].Window? && s.handles[h].rep.OwnedVec? && s.handles[h].buf in s.mem
  }

  function Contents(s: Heap, h: nat): seq<Byte>
    requires h in s.handles
  {
    View(s, s.handles[h])
  }

  lemma HandleFacts(s: Heap, h: nat)
    requires Inv(s) && h in s.handles && s.handles[h].Window?
    ensures WfHandle(s, h, s.handles[h]) && InBounds(s, s.handles[h])
  {
  }

  /** An untouched handle is still there, of the same type, showing the same bytes. */
  lemma Kept(s: Heap, t: Heap, touched: set<nat>, k: nat)
    requires Untouched(s, t, touched) && k in s.handles && k !in touched
    ensures k in t.handles && t.handles[k] == s.handles[k] && Contents(t, k) == Contents(s, k)
  {
  }

  lemma {:induction false} UntouchedTrans(s: Heap, t: Heap, u: Heap, a: set<nat>, b: set<nat>)
    requires Untouched(s, t, a) && Untouched(t, u, b)
    ensures Untouched(s, u, a + b)
  {
    forall k | k in s.handles && k !in a + b
      ensures k in u.handles && u.handles[k] == s.handles[k] && View(u, u.handles[k]) == View(s, s.handles[k])
    {
      assert k in t.handles && t.handles[k] == s.handles[k];
    }
  }

  /** Two steps that touch one and the same handle. */
  lemma Chain(s: Heap, t: Heap, u: Heap, k: nat)
    requires Untouched(s, t, {k}) && Untouched(t, u, {k})
    ensures Untouched(s, u, {k})
  {
    UntouchedTrans(s, t, u, {k}, {k});
    assert {k} + {k} == {k};
  }

  /** A handle that was not there before cannot have been touched. */
  lemma UntouchedNew(s: Heap, t: Heap, h: nat, other: nat)
    requires Untouched(s, t, {h} + {h, other}) && other !in s.handles
    ensures Untouched(s, t, {h})
  {
  }

  lemma UntouchedFresh(s: Heap, t: Heap, touched: set<nat>, n: nat)
    requires Untouched(s, t, touched + {n}) && n !in s.handles
    ensures Untouched(s, t, touched)
  {
  }

  // ---------- promotion and splitting of BytesMut ----------

  /** `promote_to_shared` when the handle is still a vector, nothing otherwise. */
  function AsShared(s: Heap, h: nat): (t: Heap)
    requires IsMut(s, h)
    ensures h in t.handles && t.handles[h].Window? && t.handles[h].rep.MutArc?
    ensures t.handles[h] == s.handles[h].(rep := t.handles[h].rep)
    ensures t.handles.Keys == s.handles.Keys && s.next <= t.next && t.bits == s.bits
  {
    var x := s.handles[h];
    if x.rep.MutVec? then Promote(s, h, x.(rep := MutArc(s.next)), s.next, FromVec(x.rep.word.repr)) else s
  }

  lemma {:induction false} AsSharedKeeps(s: Heap, h: nat)
    requires Inv(s) && IsMut(s, h)
    ensures Inv(AsShared(s, h))
    ensures Untouched(s, AsShared(s, h), {h})
  {
    var x := s.handles[h];
    HandleFacts(s, h);
    if x.rep.MutVec? {
      PromoteKeeps(s, h, x.(rep := MutArc(s.next)), s.next, FromVec(x.rep.word.repr));
    }
  }

  lemma AsSharedView(s: Heap, h: nat)
    requires IsMut(s, h)
    ensures Contents(AsShared(s, h), h) == Contents(s, h)
  {
  }

  /** The window after its start has moved up by `count`. */
  function Advanced(x: Handle, count: nat): Handle
    requires x.Window? && count <= x.cap
  {
    x.(off := x.off + count, len := if x.len < count then 0 else x.len - count, cap := x.cap - count)
  }

  function Front(x: Handle, at: nat): Handle
    requires x.Window?
  {
    x.(cap := at, len := Min(x.len, at))
  }

  /** Both halves of a window cut at `at`: `h` keeps the front (`split_off`) or the back (`split_to`). */
  function Split(s: Heap, h: nat, at: nat, keepFront: bool): (t: Heap)
    requires IsMut(s, h) && at <= s.handles[h].cap
    requires AsShared(s, h).handles[h].rep.sid in AsShared(s, h).shareds
    ensures h in t.handles && AsShared(s, h).next in t.handles
  {
    var p := AsShared(s, h);
    var x := p.handles[h];
    if keepFront then Fork(p, h, Front(x, at), p.next, Advanced(x, at))
    else Fork(p, h, Advanced(x, at), p.next, Front(x, at))
  }

  lemma {:induction false} CanSplit(s: Heap, h: nat, at: nat)
    requires Inv(s) && IsMut(s, h) && at <= s.handles[h].cap
    ensures var p := AsShared(s, h); var x := p.handles[h];
            && x.rep.sid in p.shareds
            && CanFork(p, h, Front(x, at), p.next, Advanced(x, at))
            && CanFork(p, h, Advanced(x, at), p.next, Front(x, at))
  {
    AsSharedKeeps(s, h);
    HandleFacts(AsShared(s, h), h);
  }

  lemma {:induction false} SplitKeeps(s: Heap, h: nat, at: nat, keepFront: bool)
    requires Inv(s) && IsMut(s, h) && at <= s.handles[h].cap
    ensures AsShared(s, h).handles[h].rep.sid in AsShared(s, h).shareds
    ensures Inv(Split(s, h, at, keepFront))
    ensures Untouched(s, Split(s, h, at, keepFront), {h})
  {
    var p := AsShared(s, h);
    var x := p.handles[h];
    CanSplit(s, h, at);
    AsSharedKeeps(s, h);
    if keepFront {
      ForkKeeps(p, h, Front(x, at), p.next, Advanced(x, at));
    } else {
      ForkKeeps(p, h, Advanced(x, at), p.next, Front(x, at));
    }
    UntouchedTrans(s, p, Split(s, h, at, keepFront), {h}, {h});
  }

  /** The front shows the first bytes, the back the rest; together they are the window that was split. */
  lemma {:induction false} SplitContents(s: Heap, h: nat, at: nat, keepFront: bool)
    requires Inv(s) && IsMut(s, h) && at <= s.handles[h].cap
    ensures AsShared(s, h).handles[h].rep.sid in AsShared(s, h).shareds
    ensures var t := Split(s, h, at, keepFront);
            var n := AsShared(s, h).next;
            var front, back := if keepFront then h else n, if keepFront then n else h;
            var was := Contents(s, h);
            && Contents(t, front) == was[..Min(at, |was|)] && Contents(t, back) == was[Min(at, |was|)..]
            && Adjacent(t.handles[front], t.handles[back])
            && t.handles[front].cap == at && t.handles[back].cap == s.handles[h].cap - at
  {
    var p := AsShared(s, h);
    CanSplit(s, h, at);
    AsSharedView(s, h);
    HalvesView(p, p.handles[h], at);
    SplitLayout(s, h, at, keepFront);
  }

  lemma HalvesView(p: Heap, x: Handle, at: nat)
    requires InBounds(p, x) && at <= x.cap
    ensures View(p, Front(x, at)) == View(p, x)[..Min(at, x.len)]
    ensures View(p, Advanced(x, at)) == View(p, x)[Min(at, x.len)..]
  {
    ViewPart(p, x, Front(x, at));
    if at <= x.len { ViewPart(p, x, Advanced(x, at)); }
  }

  lemma SplitLayout(s: Heap, h: nat, at: nat, keepFront: bool)
    requires IsMut(s, h) && at <= s.handles[h].cap && AsShared(s, h).next !in s.handles
    requires AsShared(s, h).handles[h].rep.sid in AsShared(s, h).shareds
    ensures var p, t := AsShared(s, h), Split(s, h, at, keepFront);
            var front, back := if keepFront then h else p.next, if keepFront then p.next else h;
            && t.handles[front] == Front(p.handles[h], at) && t.handles[back] == Advanced(p.handles[h], at)
            && t.mem == p.mem
  {
  }

  /** Two handles of one `Shared` such that the second starts where the capacity of the first ends. */
  predicate Adjacent(x: Handle, y: Handle) {
    x.Window? && y.Window? && x.rep.MutArc? && x.rep == y.rep && x.buf == y.buf && x.off + x.cap == y.off
  }

  // ---------- sharing ----------

  /** `y` shows `begin..end` of what `x` shows, in place. */
  predicate Shows(y: Handle, x: Handle, begin: nat, end: nat) {
    x.Window? && y.Window? && y.buf == x.buf && y.off == x.off + begin && begin + y.len == end
  }

  /** How many handles the box of a handle counts; a handle without a box counts for itself. */
  function Sharers(s: Heap, x: Handle): nat {
    if x.Window? && !x.rep.Direct() && x.rep.sid in s.shareds then s.shareds[x.rep.sid].refCnt else 1
  }

  /**
   * From `s` to `t` handle `n` came to share a box with `b`: the box `b` had, or a new one if it had none. The count
   * went up by one, neither handle is unique any more, and nothing was allocated or given back.
   */
  predicate Joins(s: Heap, t: Heap, b: nat, n: nat) {
    && b in s.handles && b in t.handles && n in t.handles
    && s.handles[b].Window? && t.handles[b].Window? && t.handles[n].Window?
    && !t.handles[b].rep.Direct() && !t.handles[n].rep.Direct() && t.handles[b].rep.sid == t.handles[n].rep.sid
    && (!s.handles[b].rep.Direct() ==> t.handles[b].rep.sid == s.handles[b].rep.sid)
    && t.handles[b].rep.sid in t.shareds
    && Sharers(t, t.handles[b]) == Sharers(s, s.handles[b]) + 1
    && !Unique(t, t.handles[b]) && !Unique(t, t.handles[n])
    && t.allocs == s.allocs && t.frees == s.frees
  }

  /** The handle starts where `b` started, in the same allocation, with as many sharers, and nothing was given back. */
  predicate Resized(s: Heap, t: Heap, b: nat, kept: nat) {
    && b in s.handles && kept in t.handles && s.handles[b].Window? && t.handles[kept].Window?
    && t.handles[kept].buf == s.handles[b].buf && t.handles[kept].off == s.handles[b].off
    && Sharers(t, t.handles[kept]) == Sharers(s, s.handles[b]) && t.frees == s.frees
  }

  /** Dropping the handle that joined brings the count back and gives nothing back. */
  lemma LeavesAgain(s: Heap, t: Heap, b: nat, n: nat)
    requires Joins(s, t, b, n) && b != n
    ensures var u := Release(t, n);
            && u.handles[b] == t.handles[b] && Sharers(u, u.handles[b]) == Sharers(s, s.handles[b])
            && u.allocs == s.allocs && u.frees == s.frees
  {
  }

  lemma SplitJoins(s: Heap, h: nat, at: nat, keepFront: bool)
    requires IsMut(s, h) && at <= s.handles[h].cap && AsShared(s, h).next !in s.handles
    requires s.handles[h].rep.MutArc? ==> s.handles[h].rep.sid in s.shareds && s.shareds[s.handles[h].rep.sid].refCnt > 0
    requires AsShared(s, h).handles[h].rep.sid in AsShared(s, h).shareds
    ensures Joins(s, Split(s, h, at, keepFront), h, AsShared(s, h).next)
  {
  }

  /** The handle still shows the same allocation, and nothing was allocated or given back. */
  predicate InPlace(s: Heap, t: Heap, h: nat) {
    && h in s.handles && h in t.handles && s.handles[h].Window? && t.handles[h].Window?
    && t.handles[h].buf == s.handles[h].buf && t.allocs == s.allocs && t.frees == s.frees
  }

  // ---------- vectors ----------

  function NewVec(s: Heap, bytes: seq<Byte>, len: nat): Heap {
    Alloc(s, s.next, bytes, s.next, Window(s.next, 0, len, |bytes|, OwnedVec))
  }

  lemma {:induction false} NewVecKeeps(s: Heap, bytes: seq<Byte>, len: nat)
    requires Inv(s) && len <= |bytes| <= IsizeMax(s.bits)
    ensures Inv(NewVec(s, bytes, len)) && Untouched(s, NewVec(s, bytes, len), {})
    ensures s.next !in s.handles && Contents(NewVec(s, bytes, len), s.next) == bytes[..len]
  {
    AllocKeeps(s, s.next, bytes, s.next, Window(s.next, 0, len, |bytes|, OwnedVec));
  }

  /** A handle gives up its place in the old allocation and moves to a new vector of its own. */
  function Depart(s: Heap, h: nat, bytes: seq<Byte>, len: nat): (t: Heap)
    requires h in s.handles
    ensures h in t.handles && t.handles[h] == Window(s.next, 0, len, |bytes|, OwnedVec)
    ensures t.handles.Keys == s.handles.Keys
  {
    var r := Release(s, h);
    Alloc(r, r.next, bytes, h, Window(r.next, 0, len, |bytes|, OwnedVec))
  }

  lemma {:induction false} DepartKeeps(s: Heap, h: nat, bytes: seq<Byte>, len: nat)
    requires Inv(s) && h in s.handles && len <= |bytes| <= IsizeMax(s.bits)
    ensures Inv(Depart(s, h, bytes, len)) && Untouched(s, Depart(s, h, bytes, len), {h})
    ensures Contents(Depart(s, h, bytes, len), h) == bytes[..len] && IsVec(Depart(s, h, bytes, len), h)
  {
    var r := Release(s, h);
    ReleaseKeeps(s, h);
    AllocKeeps(r, r.next, bytes, h, Window(r.next, 0, len, |bytes|, OwnedVec));
    UntouchedTrans(s, r, Depart(s, h, bytes, len), {h}, {});
  }

  /** `BytesMut::from_vec` */
  function MutFromVec(s: Heap, v: nat): (t: Heap)
    requires IsVec(s, v)
    ensures IsMut(t, v) && t.handles[v].rep.MutVec?
  {
    SetHandle(s, v, s.handles[v].(rep := MutVec(Word(0, OriginalCapacityToRepr(s.handles[v].cap)))))
  }

  lemma {:induction false} MutFromVecKeeps(s: Heap, v: nat)
    requires Inv(s) && IsVec(s, v)
    ensures Inv(MutFromVec(s, v)) && Untouched(s, MutFromVec(s, v), {v})
    ensures Contents(MutFromVec(s, v), v) == Contents(s, v)
  {
    HandleFacts(s, v);
    ShrinkKeeps(s, v, MutFromVec(s, v).handles[v]);
  }

  // ---------- moving the bounds of a BytesMut ----------

  /** `truncate` to a length not above the current one. */
  function Shortened(s: Heap, h: nat, len: nat): (t: Heap)
    requires IsMut(s, h)
    ensures IsMut(t, h) && t.handles.Keys == s.handles.Keys && t.handles[h] == s.handles[h].(len := len)
  {
    SetHandle(s, h, s.handles[h].(len := len))
  }

  lemma {:induction false} ShortenedKeeps(s: Heap, h: nat, len: nat)
    requires Inv(s) && IsMut(s, h) && len <= s.handles[h].len
    ensures Inv(Shortened(s, h, len)) && Untouched(s, Shortened(s, h, len), {h})
  {
    HandleFacts(s, h);
    ShrinkKeeps(s, h, Shortened(s, h, len).handles[h]);
  }

  lemma ShortenedContents(s: Heap, h: nat, len: nat)
    requires IsMut(s, h) && InBounds(s, s.handles[h]) && len <= s.handles[h].len
    ensures Contents(Shortened(s, h, len), h) == Contents(s, h)[..len]
  {
    ViewPart(s, s.handles[h], s.handles[h].(len := len));
  }

  /** `advance_unchecked` for a count above zero: a vector whose offset no longer fits its word is promoted. */
  function AdvanceMut(s: Heap, h: nat, count: nat): (t: Heap)
    requires PtrWidth(s.bits) && IsMut(s, h) && count <= s.handles[h].cap
    ensures IsMut(t, h) && t.handles.Keys == s.handles.Keys
  {
    var x := s.handles[h];
    if x.rep.MutArc? then SetHandle(s, h, Advanced(x, count))
    else if x.rep.word.pos + count <= MaxVecPos(s.bits) then
      SetHandle(s, h, Advanced(x, count).(rep := MutVec(x.rep.word.(pos := x.rep.word.pos + count))))
    else
      var p := AsShared(s, h);
      SetHandle(p, h, Advanced(p.handles[h], count))
  }

  lemma {:induction false} AdvanceMutKeeps(s: Heap, h: nat, count: nat)
    requires Inv(s) && IsMut(s, h) && count <= s.handles[h].cap
    ensures Inv(AdvanceMut(s, h, count)) && Untouched(s, AdvanceMut(s, h, count), {h})
    ensures IsMut(AdvanceMut(s, h, count), h)
  {
    HandleFacts(s, h);
    var x, t := s.handles[h], AdvanceMut(s, h, count);
    if x.rep.MutVec? && x.rep.word.pos + count > MaxVecPos(s.bits) {
      var p := AsShared(s, h);
      AsSharedKeeps(s, h);
      HandleFacts(p, h);
      ShrinkKeeps(p, h, t.handles[h]);
      UntouchedTrans(s, p, t, {h}, {h});
    } else {
      ShrinkKeeps(s, h, t.handles[h]);
    }
  }

  lemma {:induction false} AdvanceMutContents(s: Heap, h: nat, count: nat)
    requires PtrWidth(s.bits) && IsMut(s, h) && InBounds(s, s.handles[h]) && count <= s.handles[h].len <= s.handles[h].cap
    ensures Contents(AdvanceMut(s, h, count), h) == Contents(s, h)[count..]
  {
    ViewPart(s, s.handles[h], Advanced(s.handles[h], count));
  }

  // ---------- reserve ----------

  /** What `reserve_inner` decides to do. */
  datatype Plan = Overflow | Refuse | Widen | CopyBack | Grow(size: nat) | Move(size: nat)

  function SizeOrOverflow(s: Heap, plan: Plan, size: nat): Plan
    requires PtrWidth(s.bits)
  {
    if size <= IsizeMax(s.bits) then plan else Overflow
  }

  function ReservePlan(s: Heap, h: nat, additional: nat, allocate: bool): Plan
    requires PtrWidth(s.bits) && IsMut(s, h) && s.handles[h].len <= s.handles[h].cap
    requires s.handles[h].rep.MutArc? ==> s.handles[h].rep.sid in s.shareds
  {
    var x := s.handles[h];
    var noRoom := if allocate then Overflow else Refuse;
    if x.rep.MutVec? then
      if x.cap - x.len + x.rep.word.pos >= additional && x.rep.word.pos >= x.len then CopyBack
      else if !allocate then Refuse
      else
        // `Vec::reserve` grows to at least twice its capacity
        var size := Max(2 * (x.cap + x.rep.word.pos), x.len + x.rep.word.pos + additional);
        SizeOrOverflow(s, Grow(size), size)
    else
      var box := s.shareds[x.rep.sid];
      var newCap := x.len + additional;
      if newCap > UsizeMax(s.bits) then noRoom
      else if box.refCnt == 1 then
        if newCap + x.off > UsizeMax(s.bits) then noRoom
        else if box.cap >= newCap + x.off then Widen
        else if box.cap >= newCap && x.off >= x.len then CopyBack
        else if !allocate then Refuse
        else var size := Max(2 * box.cap, newCap + x.off); SizeOrOverflow(s, Grow(size), size)
      else if !allocate then Refuse
      else var size := Max(newCap, OriginalCapacityFromRepr(if box.origin.FromVec? then box.origin.repr else 0));
           SizeOrOverflow(s, Move(size), size)
  }

  /** Nothing was refused and nothing overflowed. */
  predicate Serves(plan: Plan) {
    !plan.Overflow? && !plan.Refuse?
  }

  /** What a plan relies on. */
  ghost predicate Fits(s: Heap, h: nat, additional: nat, plan: Plan) {
    && PtrWidth(s.bits) && IsMut(s, h)
    && InBounds(s, s.handles[h]) && s.handles[h].len <= s.handles[h].cap
    && var x, size := s.handles[h], |s.mem[s.handles[h].buf].bytes|;
       match plan
       case Widen => x.rep.MutArc? && Unique(s, x) && x.off + x.len + additional <= size
       case CopyBack => Unique(s, x) && x.len + additional <= size && x.off >= x.len
       case Grow(n) => Unique(s, x) && !Reclaims(s, h, additional) && NewSize(s, h, additional) <= n <= IsizeMax(s.bits)
       case Move(n) => x.rep.MutArc? && x.rep.sid in s.shareds && !Unique(s, x)
                       && Max(x.len + additional, OriginalCapacityFromRepr(ClassOf(s, x))) <= n <= IsizeMax(s.bits)
       case _ => true
  }

  /** A handle for which `ReservePlan` is defined. */
  predicate Plannable(s: Heap, h: nat) {
    && PtrWidth(s.bits) && IsMut(s, h) && InBounds(s, s.handles[h]) && s.handles[h].len <= s.handles[h].cap
    && (s.handles[h].rep.MutArc? ==> s.handles[h].rep.sid in s.shareds)
  }

  /** There is room in the allocation itself: it is not shared, and the bytes stay or are copied to its front. */
  predicate Reclaims(s: Heap, h: nat, additional: nat) {
    && IsMut(s, h)
    && var x, size := s.handles[h], |s.mem[s.handles[h].buf].bytes|;
       && Unique(s, x) && x.len + additional <= size
       && (x.off >= x.len || (x.rep.MutArc? && x.off + x.len + additional <= size))
  }

  /** How large a new allocation has to be. */
  function NewSize(s: Heap, h: nat, additional: nat): nat
    requires IsMut(s, h)
  {
    var x, size := s.handles[h], |s.mem[s.handles[h].buf].bytes|;
    if Unique(s, x) then Max(2 * size, x.off + x.len + additional) else x.len + additional
  }

  /** The original-capacity class that a `BytesMut` carries in its word or its box carries for it. */
  function ClassOf(s: Heap, x: Handle): nat {
    if x.Window? && x.rep.MutVec? then x.rep.word.repr
    else if x.Window? && x.rep.MutArc? && x.rep.sid in s.shareds && s.shareds[x.rep.sid].origin.FromVec? then
      s.shareds[x.rep.sid].origin.repr
    else 0
  }

  /**
   * How a request is met: in place whenever the allocation has the room; else by an allocation for the same owner, at
   * least twice as large, with the bytes where they were; else, if others use the old one, by an allocation of its own,
   * at least as large as the recorded original capacity. The class is kept.
   */
  ghost predicate Reserved(s: Heap, t: Heap, h: nat, additional: nat) {
    && IsMut(s, h) && IsMut(t, h)
    && var x, y := s.handles[h], t.handles[h];
       && ClassOf(t, y) == ClassOf(s, x)
       && if Reclaims(s, h, additional) then InPlace(s, t, h) && y.rep.MutVec? == x.rep.MutVec?
          else if Unique(s, x) then
            y == x.(buf := y.buf, cap := y.cap) && y.buf !in s.mem && y.off + y.cap >= NewSize(s, h, additional)
          else
            && y == Window(y.buf, 0, x.len, y.cap, MutVec(Word(0, ClassOf(s, x)))) && y.buf !in s.mem
            && y.cap >= Max(x.len + additional, OriginalCapacityFromRepr(ClassOf(s, x)))
  }

  /** A request that the spare capacity does not meet is granted in place, or by an allocation that is not too large. */
  predicate Grants(s: Heap, h: nat, additional: nat, allocate: bool) {
    && PtrWidth(s.bits) && IsMut(s, h)
    && (Reclaims(s, h, additional) || (allocate && NewSize(s, h, additional) <= IsizeMax(s.bits)))
  }

  lemma VecPlanServes(s: Heap, h: nat, additional: nat, allocate: bool, size: nat)
    requires Plannable(s, h) && s.handles[h].rep.MutVec? && size == |s.mem[s.handles[h].buf].bytes| <= IsizeMax(s.bits)
    requires s.handles[h].off == s.handles[h].rep.word.pos && s.handles[h].cap + s.handles[h].rep.word.pos == size
    ensures Serves(ReservePlan(s, h, additional, allocate)) <==> Grants(s, h, additional, allocate)
  {
  }

  lemma ArcPlanServes(s: Heap, h: nat, additional: nat, allocate: bool, size: nat)
    requires Plannable(s, h) && s.handles[h].rep.MutArc? && size == |s.mem[s.handles[h].buf].bytes| <= IsizeMax(s.bits)
    requires var box := s.shareds[s.handles[h].rep.sid];
             box.cap == size && OriginalCapacityFromRepr(if box.origin.FromVec? then box.origin.repr else 0) <= 65536
    ensures Serves(ReservePlan(s, h, additional, allocate)) <==> Grants(s, h, additional, allocate)
  {
  }

  /** The branches of `reserve_inner` refuse or overflow exactly when the request cannot be granted. */
  lemma {:induction false} PlanServes(s: Heap, h: nat, additional: nat, allocate: bool)
    requires Inv(s) && IsMut(s, h)
    ensures Plannable(s, h) && (Serves(ReservePlan(s, h, additional, allocate)) <==> Grants(s, h, additional, allocate))
  {
    var x := s.handles[h];
    HandleFacts(s, h);
    RebuiltSize(s, h);
    assert WfBlock(s, x.buf);
    if x.rep.MutArc? {
      assert WfShared(s, x.rep.sid);
      ReprBound(s, h);
      ArcPlanServes(s, h, additional, allocate, |s.mem[x.buf].bytes|);
    } else {
      VecPlanServes(s, h, additional, allocate, |s.mem[x.buf].bytes|);
    }
  }

  /** In particular, when twice the allocation, and the window with the request, stay within the largest size. */
  lemma SmallRequestGranted(s: Heap, h: nat, additional: nat)
    requires Inv(s) && IsMut(s, h) && 2 * |s.mem[s.handles[h].buf].bytes| <= IsizeMax(s.bits)
    requires s.handles[h].off + s.handles[h].len + additional <= IsizeMax(s.bits)
    ensures Grants(s, h, additional, true)
  {
  }

  lemma ReprBound(s: Heap, h: nat)
    requires IsMut(s, h)
    ensures s.handles[h].rep.MutArc? && s.handles[h].rep.sid in s.shareds && WfShared(s, s.handles[h].rep.sid) ==>
              var box := s.shareds[s.handles[h].rep.sid];
              OriginalCapacityFromRepr(if box.origin.FromVec? then box.origin.repr else 0) <= 65536
  {
    if s.handles[h].rep.MutArc? && s.handles[h].rep.sid in s.shareds && WfShared(s, s.handles[h].rep.sid) {
      var box := s.shareds[s.handles[h].rep.sid];
      LargestRecorded(if box.origin.FromVec? then box.origin.repr else 0);
    }
  }

  /** Whatever `ReservePlan` chooses has what it relies on; only a request that may not allocate is refused. */
  lemma {:induction false} PlanFits(s: Heap, h: nat, additional: nat, allocate: bool)
    requires Inv(s) && IsMut(s, h)
    ensures Plannable(s, h) && Fits(s, h, additional, ReservePlan(s, h, additional, allocate))
    ensures var plan := ReservePlan(s, h, additional, allocate);
            if allocate then !plan.Refuse? else plan.Refuse? || plan.Widen? || plan.CopyBack?
  {
    HandleFacts(s, h);
    RebuiltSize(s, h);
  }

  // each of the four ways to make room, with the bytes of the handle unchanged

  function Widened(s: Heap, h: nat, additional: nat): (t: Heap)
    requires IsMut(s, h)
  {
    SetHandle(s, h, s.handles[h].(cap := s.handles[h].len + additional))
  }

  lemma {:induction false} WidenKeeps(s: Heap, h: nat, additional: nat)
    requires Inv(s) && Fits(s, h, additional, Widen)
    ensures Inv(Widened(s, h, additional)) && Untouched(s, Widened(s, h, additional), {h})
  {
    var y := WidenIs(s, h, additional);
    WidenFits(s, h, additional, y);
    UniqueMeansSole(s, h);
    SoleIsClear(s, h, y);
    RewindowKeeps(s, h, y);
  }

  lemma WidenIs(s: Heap, h: nat, additional: nat) returns (y: Handle)
    requires IsMut(s, h)
    ensures y == s.handles[h].(cap := s.handles[h].len + additional) && Widened(s, h, additional) == SetHandle(s, h, y)
    ensures Contents(Widened(s, h, additional), h) == Contents(s, h)
  {
    y := s.handles[h].(cap := s.handles[h].len + additional);
  }

  lemma WidenFits(s: Heap, h: nat, additional: nat, y: Handle)
    requires Inv(s) && Fits(s, h, additional, Widen) && y == s.handles[h].(cap := s.handles[h].len + additional)
    ensures SameLink(s.handles[h], y) && WfHandle(s, h, y)
  {
    HandleFacts(s, h);
  }

  /** The bytes of a window copied to the start of its allocation. */
  function MovedBack(bytes: seq<Byte>, x: Handle): (r: seq<Byte>)
    requires x.Window? && x.off + x.len <= |bytes|
    ensures |r| == |bytes| && r[..x.len] == bytes[x.off..x.off + x.len]
  {
    bytes[x.off..x.off + x.len] + bytes[x.len..]
  }

  /** The window moved to the start of its allocation, all of which it may use from now on. */
  function CopiedBack(s: Heap, h: nat, y: Handle): (t: Heap)
    requires h in s.handles && s.handles[h].Window? && y.Window? && y.buf == s.handles[h].buf && InBounds(s, s.handles[h])
  {
    SetHandle(Poke(s, y.buf, MovedBack(s.mem[y.buf].bytes, s.handles[h])), h, y)
  }

  lemma {:induction false} CopyBackKeeps(s: Heap, h: nat, y: Handle)
    requires Inv(s) && h in s.handles && Unique(s, s.handles[h]) && InBounds(s, s.handles[h])
    requires y.Window? && y.off == 0 && y.len == s.handles[h].len
    requires SameLink(s.handles[h], y) && WfHandle(s, h, y)
    ensures Inv(CopiedBack(s, h, y)) && Untouched(s, CopiedBack(s, h, y), {h})
    ensures Contents(CopiedBack(s, h, y), h) == Contents(s, h)
  {
    var bytes := MovedBack(s.mem[y.buf].bytes, s.handles[h]);
    var m := Poke(s, y.buf, bytes);
    UniqueMeansSole(s, h);
    WriteSole(s, h, bytes);
    SoleIsClear(m, h, y);
    RewindowKeeps(m, h, y);
    UntouchedTrans(s, m, CopiedBack(s, h, y), {h}, {h});
  }

  /** The window a reserving handle has after its bytes were copied back. */
  function WholeBlock(s: Heap, h: nat): (y: Handle)
    requires IsMut(s, h)
  {
    var x := s.handles[h];
    x.(off := 0, cap := |s.mem[x.buf].bytes|, rep := if x.rep.MutVec? then MutVec(x.rep.word.(pos := 0)) else x.rep)
  }

  lemma WholeBlockFits(s: Heap, h: nat)
    requires Inv(s) && IsMut(s, h)
    ensures SameLink(s.handles[h], WholeBlock(s, h)) && WfHandle(s, h, WholeBlock(s, h))
  {
    HandleFacts(s, h);
  }

  function Grown(s: Heap, h: nat, grant: seq<Byte>): (t: Heap)
    requires IsMut(s, h) && s.handles[h].off <= |grant|
    ensures h in t.handles && t.handles[h] == s.handles[h].(buf := s.next, cap := |grant| - s.handles[h].off)
    ensures s.next in t.mem && t.mem[s.next].bytes == grant && IsMut(t, h)
    ensures t.handles.Keys == s.handles.Keys
  {
    Relocate(s, h, s.handles[h].(buf := s.next, cap := |grant| - s.handles[h].off), grant)
  }

  lemma {:induction false} GrowKeeps(s: Heap, h: nat, grant: seq<Byte>)
    requires Inv(s) && IsMut(s, h) && Unique(s, s.handles[h])
    requires s.handles[h].off + s.handles[h].len <= |grant| <= IsizeMax(s.bits)
    ensures Inv(Grown(s, h, grant)) && Untouched(s, Grown(s, h, grant), {h})
  {
    HandleFacts(s, h);
    UniqueMeansSole(s, h);
    RelocateKeeps(s, h, Grown(s, h, grant).handles[h], grant);
  }

  /** What the vector of a handle needs for moving to a new allocation. */
  lemma GrowReady(s: Heap, h: nat)
    requires Inv(s) && IsMut(s, h)
    ensures s.next !in s.mem
    ensures var x, size := s.handles[h], |s.mem[s.handles[h].buf].bytes|;
            && (x.rep.MutVec? ==> x.off == x.rep.word.pos && x.cap + x.rep.word.pos == size)
            && (x.rep.MutArc? ==> x.rep.sid in s.shareds && s.shareds[x.rep.sid].cap == size)
  {
    RebuiltSize(s, h);
    NewIsClear(s, Window(s.next, 0, 0, 0, OwnedVec));
  }

  lemma GrowContents(s: Heap, h: nat, grant: seq<Byte>)
    requires IsMut(s, h) && InBounds(s, s.handles[h])
    requires var x := s.handles[h]; x.off + x.len <= |grant| && grant[..x.off + x.len] == s.mem[x.buf].bytes[..x.off + x.len]
    ensures Contents(Grown(s, h, grant), h) == Contents(s, h)
  {
    var x := s.handles[h];
    assert grant[x.off..x.off + x.len] == grant[..x.off + x.len][x.off..];
    assert s.mem[x.buf].bytes[x.off..x.off + x.len] == s.mem[x.buf].bytes[..x.off + x.len][x.off..];
  }

  /** A sharer leaves with a copy of its bytes. */
  function Moved(s: Heap, h: nat, grant: seq<Byte>, repr: nat): (t: Heap)
    requires IsMut(s, h)
    ensures IsMut(t, h) && t.handles[h] == Window(s.next, 0, s.handles[h].len, |grant|, MutVec(Word(0, repr)))
    ensures t.handles.Keys == s.handles.Keys
  {
    var d := Depart(s, h, grant, s.handles[h].len);
    SetHandle(d, h, d.handles[h].(rep := MutVec(Word(0, repr))))
  }

  lemma {:induction false} MoveKeeps(s: Heap, h: nat, grant: seq<Byte>, repr: nat)
    requires Inv(s) && IsMut(s, h) && repr <= MAX_REPR
    requires s.handles[h].len <= |grant| <= IsizeMax(s.bits) && grant[..s.handles[h].len] == Contents(s, h)
    ensures Inv(Moved(s, h, grant, repr)) && Untouched(s, Moved(s, h, grant, repr), {h})
    ensures Contents(Moved(s, h, grant, repr), h) == Contents(s, h)
  {
    var d := Depart(s, h, grant, s.handles[h].len);
    DepartKeeps(s, h, grant, s.handles[h].len);
    RetaggedKeeps(d, h, d.handles[h].(rep := MutVec(Word(0, repr))));
    Chain(s, d, Moved(s, h, grant, repr), h);
  }

  /** A vector of its own may be held as a `BytesMut`. */
  lemma RetaggedKeeps(d: Heap, h: nat, y: Handle)
    requires Inv(d) && IsVec(d, h) && y.Window? && y.rep.MutVec? && y.rep.word.pos == 0 && y.rep.word.repr <= MAX_REPR
    requires y == d.handles[h].(rep := y.rep)
    ensures Inv(SetHandle(d, h, y)) && Untouched(d, SetHandle(d, h, y), {h})
  {
    HandleFacts(d, h);
    ShrinkKeeps(d, h, y);
  }

  lemma BoxRepr(s: Heap, h: nat)
    requires Inv(s) && IsMut(s, h) && s.handles[h].rep.MutArc?
    ensures s.handles[h].rep.sid in s.shareds
    ensures s.shareds[s.handles[h].rep.sid].origin.FromVec? && s.shareds[s.handles[h].rep.sid].origin.repr <= MAX_REPR
  {
    HandleFacts(s, h);
    assert WfShared(s, s.handles[h].rep.sid);
  }

  // ---------- writing and joining ----------

  function Overwritten(bytes: seq<Byte>, at: nat, data: seq<Byte>): (r: seq<Byte>)
    requires at + |data| <= |bytes|
    ensures |r| == |bytes|
  {
    bytes[..at] + data + bytes[at + |data|..]
  }

  lemma OverwrittenInside(x: Handle, bytes: seq<Byte>, data: seq<Byte>)
    requires x.Window? && x.len + |data| <= x.cap && x.off + x.cap <= |bytes|
    ensures InsideOnly(x, bytes, Overwritten(bytes, x.off + x.len, data))
  {
  }

  lemma OverwrittenView(x: Handle, bytes: seq<Byte>, data: seq<Byte>)
    requires x.Window? && x.len + |data| <= x.cap && x.off + x.cap <= |bytes|
    ensures Overwritten(bytes, x.off + x.len, data)[x.off..x.off + x.len + |data|] == bytes[x.off..x.off + x.len] + data
  {
  }

  /** New bytes under a handle whose bounds change too. */
  function Rewritten(s: Heap, h: nat, bytes: seq<Byte>, y: Handle): (t: Heap)
    requires y.Window? && y.buf in s.mem
  {
    SetHandle(Poke(s, y.buf, bytes), h, y)
  }

  /** A write inside the own window followed by a change of its bounds. */
  lemma {:induction false} RewriteKeeps(s: Heap, h: nat, bytes: seq<Byte>, y: Handle)
    requires Inv(s) && IsMut(s, h) && InsideOnly(s.handles[h], s.mem[s.handles[h].buf].bytes, bytes)
    requires SameLink(s.handles[h], y) && Within(y, s.handles[h]) && WfHandle(s, h, y)
    ensures Inv(Rewritten(s, h, bytes, y)) && Untouched(s, Rewritten(s, h, bytes, y), {h})
  {
    var m := Poke(s, y.buf, bytes);
    WriteInside(s, h, bytes);
    ShrinkKeeps(m, h, y);
    UntouchedTrans(s, m, Rewritten(s, h, bytes, y), {h}, {h});
  }

  predicate HasRoom(s: Heap, h: nat, n: nat) {
    IsMut(s, h) && s.handles[h].len + n <= s.handles[h].cap
    && s.handles[h].off + s.handles[h].cap <= |s.mem[s.handles[h].buf].bytes|
  }

  /** `extend_from_slice` once there is room. */
  function Extended(s: Heap, h: nat, data: seq<Byte>): (t: Heap)
    requires HasRoom(s, h, |data|)
    ensures IsMut(t, h) && t.handles.Keys == s.handles.Keys
    ensures t.handles[h] == s.handles[h].(len := s.handles[h].len + |data|)
  {
    Rewritten(s, h, Overwritten(s.mem[s.handles[h].buf].bytes, s.handles[h].off + s.handles[h].len, data),
              s.handles[h].(len := s.handles[h].len + |data|))
  }

  lemma {:induction false} OverwriteKeeps(s: Heap, h: nat, bytes: seq<Byte>, data: seq<Byte>, y: Handle)
    requires Inv(s) && HasRoom(s, h, |data|) && y == s.handles[h].(len := s.handles[h].len + |data|)
    requires bytes == Overwritten(s.mem[s.handles[h].buf].bytes, s.handles[h].off + s.handles[h].len, data)
    ensures y.buf in s.mem && Inv(Rewritten(s, h, bytes, y)) && Untouched(s, Rewritten(s, h, bytes, y), {h})
  {
    OverwrittenInside(s.handles[h], s.mem[s.handles[h].buf].bytes, data);
    ExtendFits(s, h, |data|);
    RewriteKeeps(s, h, bytes, y);
  }

  /** Appending to one handle keeps the heap and is invisible to every other handle. */
  lemma {:induction false} ExtendKeeps(s: Heap, h: nat, data: seq<Byte>)
    requires Inv(s) && HasRoom(s, h, |data|)
    ensures Inv(Extended(s, h, data)) && Untouched(s, Extended(s, h, data), {h})
  {
    var bytes, y := ExtendIs(s, h, data);
    OverwriteKeeps(s, h, bytes, data, y);
  }

  lemma ExtendIs(s: Heap, h: nat, data: seq<Byte>) returns (bytes: seq<Byte>, y: Handle)
    requires HasRoom(s, h, |data|)
    ensures bytes == Overwritten(s.mem[s.handles[h].buf].bytes, s.handles[h].off + s.handles[h].len, data)
    ensures y == s.handles[h].(len := s.handles[h].len + |data|) && Extended(s, h, data) == Rewritten(s, h, bytes, y)
  {
    bytes := Overwritten(s.mem[s.handles[h].buf].bytes, s.handles[h].off + s.handles[h].len, data);
    y := s.handles[h].(len := s.handles[h].len + |data|);
  }

  lemma ExtendFits(s: Heap, h: nat, n: nat)
    requires Inv(s) && HasRoom(s, h, n)
    ensures var y := s.handles[h].(len := s.handles[h].len + n);
            SameLink(s.handles[h], y) && Within(y, s.handles[h]) && WfHandle(s, h, y)
  {
    HandleFacts(s, h);
  }

  lemma ExtendContents(s: Heap, h: nat, data: seq<Byte>)
    requires HasRoom(s, h, |data|)
    ensures IsMut(Extended(s, h, data), h) && Contents(Extended(s, h, data), h) == Contents(s, h) + data
  {
    OverwrittenView(s.handles[h], s.mem[s.handles[h].buf].bytes, data);
  }

  /** The fast path of `unsplit`: the second window begins where the contents of the first end. */
  predicate Contiguous(x: Handle, y: Handle) {
    x.Window? && y.Window? && y.cap > 0 && x.rep.MutArc? && x.rep == y.rep && x.buf == y.buf && x.off + x.len == y.off
  }

  /** Disjointness leaves the first window no spare capacity, which is why the capacities may be added. */
  lemma ContiguousIsFull(s: Heap, h: nat, other: nat)
    requires Inv(s) && h in s.handles && other in s.handles && h != other
    requires Contiguous(s.handles[h], s.handles[other])
    ensures s.handles[h].len == s.handles[h].cap
  {
    assert Separate(s.handles[h], s.handles[other]) && WfHandle(s, h, s.handles[h]);
  }

  function Joined(s: Heap, h: nat, other: nat): (t: Heap)
    requires h in s.handles && other in s.handles && h != other && Contiguous(s.handles[h], s.handles[other])
    ensures h in t.handles && t.handles.Keys == s.handles.Keys - {other}
    ensures t.handles[h] == s.handles[h].(len := s.handles[h].len + s.handles[other].len,
                                          cap := s.handles[h].cap + s.handles[other].cap)
  {
    var x, y := s.handles[h], s.handles[other];
    SetHandle(Release(s, other), h, x.(len := x.len + y.len, cap := x.cap + y.cap))
  }

  /** Two sharers mean a count of at least two. */
  lemma {:induction false} TwoRefs(handles: map<nat, Handle>, j: nat, k: nat, i: nat)
    requires j in handles && k in handles && j != k && Via(handles[j], i) && Via(handles[k], i)
    ensures Refs(handles, i) >= 2
  {
    var a := RefSet(handles, i);
    assert {j, k} <= a;
    assert a == {j, k} + (a - {j, k});
  }

  lemma JoinIsClear(handles: map<nat, Handle>, h: nat, other: nat)
    requires PairsOk(handles) && h in handles && other in handles && h != other
    requires Contiguous(handles[h], handles[other]) && handles[h].len == handles[h].cap
    ensures ClearOfOthers(handles - {other}, h,
                          handles[h].(len := handles[h].len + handles[other].len, cap := handles[h].cap + handles[other].cap))
  {
    var x, y := handles[h], handles[other];
    var z := x.(len := x.len + y.len, cap := x.cap + y.cap);
    forall j | j in handles && j != other && j != h ensures Separate(handles[j], z) {
      assert Separate(handles[j], x) && Separate(handles[j], y);
    }
  }

  lemma {:induction false} JoinRelease(s: Heap, h: nat, other: nat)
    requires Inv(s) && h in s.handles && other in s.handles && h != other
    requires Contiguous(s.handles[h], s.handles[other])
    ensures var r := Release(s, other); r.mem == s.mem && h in r.handles && r.handles[h] == s.handles[h]
  {
    TwoRefs(s.handles, h, other, s.handles[h].rep.sid);
    HandleFacts(s, h);
    assert WfShared(s, s.handles[h].rep.sid);
  }

  /** Joining gives nothing back: the box still has the handle that was extended. */
  lemma JoinInPlace(s: Heap, h: nat, other: nat)
    requires Inv(s) && h in s.handles && other in s.handles && h != other && Contiguous(s.handles[h], s.handles[other])
    ensures InPlace(s, Joined(s, h, other), h)
  {
    HandleFacts(s, h);
    assert WfShared(s, s.handles[h].rep.sid);
    TwoRefs(s.handles, h, other, s.handles[h].rep.sid);
  }

  lemma JoinFits(s: Heap, h: nat, other: nat, z: Handle)
    requires Inv(s) && h in s.handles && other in s.handles && h != other
    requires Contiguous(s.handles[h], s.handles[other]) && Inv(Release(s, other))
    requires z == s.handles[h].(len := s.handles[h].len + s.handles[other].len, cap := s.handles[h].cap + s.handles[other].cap)
    ensures WfHandle(Release(s, other), h, z)
  {
    ContiguousIsFull(s, h, other);
    JoinRelease(s, h, other);
    HandleFacts(s, other);
    HandleFacts(Release(s, other), h);
  }

  lemma JoinClears(s: Heap, h: nat, other: nat, z: Handle)
    requires Inv(s) && h in s.handles && other in s.handles && h != other
    requires Contiguous(s.handles[h], s.handles[other])
    requires z == s.handles[h].(len := s.handles[h].len + s.handles[other].len, cap := s.handles[h].cap + s.handles[other].cap)
    ensures ClearOfOthers(Release(s, other).handles, h, z)
  {
    ContiguousIsFull(s, h, other);
    JoinIsClear(s.handles, h, other);
  }

  lemma JoinFinish(s: Heap, r: Heap, h: nat, z: Handle, other: nat)
    requires Inv(r) && Untouched(s, r, {other}) && h in r.handles && SameLink(r.handles[h], z)
    requires WfHandle(r, h, z) && ClearOfOthers(r.handles, h, z)
    ensures Inv(SetHandle(r, h, z)) && Untouched(s, SetHandle(r, h, z), {h, other})
  {
    RewindowKeeps(r, h, z);
    UntouchedTrans(s, r, SetHandle(r, h, z), {other}, {h});
    assert {other} + {h} == {h, other};
  }

  lemma {:induction false} JoinKeeps(s: Heap, h: nat, other: nat)
    requires Inv(s) && h in s.handles && other in s.handles && h != other
    requires Contiguous(s.handles[h], s.handles[other])
    ensures Inv(Joined(s, h, other)) && Untouched(s, Joined(s, h, other), {h, other})
  {
    var z := JoinIs(s, h, other);
    ReleaseKeeps(s, other);
    JoinClears(s, h, other, z);
    JoinFits(s, h, other, z);
    JoinFinish(s, Release(s, other), h, z, other);
  }

  lemma JoinIs(s: Heap, h: nat, other: nat) returns (z: Handle)
    requires h in s.handles && other in s.handles && h != other && Contiguous(s.handles[h], s.handles[other])
    ensures z == s.handles[h].(len := s.handles[h].len + s.handles[other].len, cap := s.handles[h].cap + s.handles[other].cap)
    ensures Joined(s, h, other) == SetHandle(Release(s, other), h, z)
    ensures h in Release(s, other).handles && SameLink(Release(s, other).handles[h], z)
  {
    z := s.handles[h].(len := s.handles[h].len + s.handles[other].len, cap := s.handles[h].cap + s.handles[other].cap);
  }

  lemma {:induction false} JoinContents(s: Heap, h: nat, other: nat)
    requires Inv(s) && h in s.handles && other in s.handles && h != other
    requires Contiguous(s.handles[h], s.handles[other])
    ensures IsMut(Joined(s, h, other), h)
    ensures Contents(Joined(s, h, other), h) == Contents(s, h) + Contents(s, other)
  {
    HandleFacts(s, h);
    HandleFacts(s, other);
    ContiguousIsFull(s, h, other);
    JoinRelease(s, h, other);
    JoinedView(s, Release(s, other), s.handles[h], s.handles[other]);
  }

  lemma JoinedView(s: Heap, r: Heap, x: Handle, y: Handle)
    requires Contiguous(x, y) && x.len == x.cap && InBounds(s, x) && InBounds(s, y) && r.mem == s.mem
    ensures View(r, x.(len := x.len + y.len, cap := x.cap + y.cap)) == View(s, x) + View(s, y)
  {
  }
}
