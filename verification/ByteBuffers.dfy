/**
 * `BytesMut` and `Bytes` over one heap, operation by operation and in the order of the source's own updates.
 * A handle number names one live value; an operation that turns a value into another type keeps its number.
 * An operation that would panic returns `ok == false` and has changed nothing.
 */
module ByteBuffers {
  import opened Common
  import opened DataWord
  import opened BufferHeap
  import opened BufferOps
  import opened FrozenOps

  /** How `reserve_inner` ends. */
  datatype Outcome = Panic | Done(granted: bool)

  /** Names a heap whose invariant a proof looks into. */
  predicate Seen(s: Heap) { true }

  class Buffers {
    const bits: nat
    var mem: map<nat, Block>
    var shareds: map<nat, Shared>
    var handles: map<nat, Handle>
    var allocs: map<nat, nat>
    var frees: seq<Dealloc>
    var next: nat

    ghost function S(): Heap
      reads this
    {
      Heap(bits, mem, shareds, handles, allocs, frees, next)
    }

    /** The invariant of the present heap; `Look` brings it into a proof. */
    ghost predicate Valid()
      reads this
    {
      PtrWidth(bits) && forall s: Heap {:trigger Seen(s)} :: s == S() && Seen(s) ==> Inv(s)
    }

    lemma Look()
      requires Valid()
      ensures Inv(S())
    {
      assert Seen(S());
    }

    /** What a method needs to know about one window. */
    lemma Facts(h: nat)
      requires Valid() && h in handles && handles[h].Window?
      ensures InBounds(S(), handles[h]) && |Contents(S(), h)| == handles[h].len <= handles[h].cap
      ensures handles[h].off + handles[h].cap <= |mem[handles[h].buf].bytes|
      ensures handles[h].rep.Frozen() ==> handles[h].len == handles[h].cap
    {
      Look();
      HandleFacts(S(), h);
    }

    constructor (bits: nat)
      requires PtrWidth(bits)
      ensures Valid() && handles == map[] && this.bits == bits
    {
      this.bits := bits;
      mem, shareds, handles, allocs, frees, next := map[], map[], map[], map[], [], 0;
    }

    // ---------- memory and boxes: exact effects, no invariant needed ----------

    /** The allocator: at least `wanted` bytes, starting with `data`; callers learn nothing about the rest. */
    method FreshBytes(data: seq<Byte>, wanted: nat) returns (bytes: seq<Byte>)
      requires PtrWidth(bits) && |data| <= wanted <= IsizeMax(bits)
      ensures wanted <= |bytes| <= IsizeMax(bits)
      ensures bytes[..|data|] == data
    {
      bytes := data + seq(wanted - |data|, _ => 0);
    }

    /** `ptr::copy` of a window to the start of its allocation */
    method CopyToFront(x: Handle)
      requires x.Window? && x.buf in mem && x.off + x.len <= |mem[x.buf].bytes|
      modifies this`mem
      ensures S() == Poke(old(S()), x.buf, MovedBack(old(mem)[x.buf].bytes, x))
    {
      mem := mem[x.buf := mem[x.buf].(bytes := MovedBack(mem[x.buf].bytes, x))];
    }

    /** The allocator's own contract: an allocation is given back at its start, with its size, while it is live. */
    method GiveBack(b: nat, start: int, size: nat)
      requires b in mem && start == 0 && size == |mem[b].bytes|
      modifies this`mem, this`frees
      ensures mem == old(mem) - {b} && frees == old(frees) + [Dealloc(b, start, size)]
    {
      mem := mem - {b};
      frees := frees + [Dealloc(b, start, size)];
    }

    /** `release_shared`: `fetch_sub`, and the one that took the count from one drops the box and its allocation. */
    method ReleaseShared(i: nat)
      requires i in shareds && shareds[i].refCnt > 0
      requires shareds[i].buf in mem && shareds[i].cap == |mem[shareds[i].buf].bytes|
      modifies this`shareds, this`mem, this`frees
      ensures var box := old(shareds)[i];
              if box.refCnt == 1 then
                shareds == old(shareds) - {i} && mem == old(mem) - {box.buf} &&
                frees == old(frees) + [Dealloc(box.buf, 0, box.cap)]
              else
                shareds == old(shareds)[i := box.(refCnt := box.refCnt - 1)] && mem == old(mem) && frees == old(frees)
    {
      var box := shareds[i];
      shareds := shareds[i := box.(refCnt := box.refCnt - 1)];
      if box.refCnt != 1 {
        return;
      }
      shareds := shareds - {i};
      GiveBack(box.buf, 0, box.cap);
    }

    method FreeDirect(h: nat)
      requires h in handles && Direct(handles[h]) && handles[h].buf in mem
      requires var x, size := handles[h], |mem[handles[h].buf].bytes|;
               match x.rep
               case OwnedVec => x.cap == size
               case MutVec(w) => x.off - w.pos == 0 && x.cap + w.pos == size
               case _ => x.off + x.len == size
      modifies this
      ensures S() == Release(old(S()), h)
    {
      var x := handles[h];
      handles := handles - {h};
      if x.rep.OwnedVec? {
        GiveBack(x.buf, 0, x.cap);
      } else if x.rep.MutVec? {
        // rebuild_vec: the allocation starts `pos` bytes before the window and is `cap + pos` long
        GiveBack(x.buf, x.off - x.rep.word.pos, x.cap + x.rep.word.pos);
      } else {
        // free_boxed_slice: a promotable window reaches to the end of its allocation
        GiveBack(x.buf, 0, x.off + x.len);
      }
    }

    method FreeShared(h: nat)
      requires h in handles && handles[h].Window? && !handles[h].rep.Direct() && handles[h].rep.sid in shareds
      requires var x, box := handles[h], shareds[handles[h].rep.sid];
               box.buf == x.buf && x.buf in mem && box.refCnt > 0 && box.cap == |mem[x.buf].bytes|
      modifies this
      ensures S() == Release(old(S()), h)
    {
      var x := handles[h];
      handles := handles - {h};
      ReleaseShared(x.rep.sid);
    }

    /** A new allocation for a handle without one. */
    method AllocFor(h: nat, bytes: seq<Byte>, len: nat)
      requires h <= next
      modifies this
      ensures S() == Alloc(old(S()), old(next), bytes, h, Window(old(next), 0, len, |bytes|, OwnedVec))
    {
      mem := mem[next := Block(bytes, ByHandle(h))];
      allocs := allocs[next := |bytes|];
      handles := handles[h := Window(next, 0, len, |bytes|, OwnedVec)];
      next := next + 1;
    }

    /** `promote_to_shared`: the vector moves into a `Shared` whose count starts at `refCnt`. */
    method PromoteToShared(h: nat, refCnt: nat)
      requires IsMut(S(), h) && handles[h].rep.MutVec?
      requires handles[h].cap + handles[h].rep.word.pos == |mem[handles[h].buf].bytes|
      modifies this
      ensures var p := AsShared(old(S()), h); var i := old(next);
              i in p.shareds && S() == p.(shareds := p.shareds[i := p.shareds[i].(refCnt := refCnt)])
    {
      var x := handles[h];
      var i := next;
      next := next + 1;
      shareds := shareds[i := Shared(x.buf, x.cap + x.rep.word.pos, refCnt, FromVec(x.rep.word.repr))];
      mem := mem[x.buf := mem[x.buf].(owner := ByShared(i))];
      handles := handles[h := x.(rep := MutArc(i))];
    }

    /** `shallow_clone`: a second handle with the same window; the caller must separate the two. */
    method ShallowClone(h: nat) returns (other: nat)
      requires IsMut(S(), h)
      requires handles[h].rep.MutVec? ==> handles[h].cap + handles[h].rep.word.pos == |mem[handles[h].buf].bytes|
      requires handles[h].rep.MutArc? ==> handles[h].rep.sid in shareds
      requires forall k :: k in handles ==> k < next
      modifies this
      ensures var p := AsShared(old(S()), h);
              && p.handles[h].rep.sid in p.shareds && other == p.next && other !in p.handles
              && S() == Fork(p, h, p.handles[h], other, p.handles[h])
    {
      if handles[h].rep.MutArc? {
        var i := handles[h].rep.sid;
        shareds := shareds[i := shareds[i].(refCnt := shareds[i].refCnt + 1)];
      } else {
        PromoteToShared(h, 2);
      }
      other := next;
      handles := handles[other := handles[h]];
      next := next + 1;
      ghost var p := AsShared(old(S()), h);
      assert handles == p.handles[h := p.handles[h]][other := p.handles[h]];
    }

    /** `advance_unchecked` */
    method AdvanceUnchecked(h: nat, count: nat)
      requires PtrWidth(bits) && IsMut(S(), h) && count <= handles[h].cap
      requires handles[h].rep.MutVec? ==> handles[h].cap + handles[h].rep.word.pos == |mem[handles[h].buf].bytes|
      requires handles[h].rep.MutVec? ==> handles[h].rep.word.pos <= MaxVecPos(bits)
      modifies this
      ensures S() == AdvanceMut(old(S()), h, count)
    {
      if count == 0 {
        assert handles == handles[h := handles[h]];
        return;
      }
      if handles[h].rep.MutVec? {
        var pos := handles[h].rep.word.pos + count;
        if pos <= MaxVecPos(bits) {
          handles := handles[h := handles[h].(rep := MutVec(handles[h].rep.word.(pos := pos)))];
        } else {
          PromoteToShared(h, 1);
        }
      }
      handles := handles[h := Advanced(handles[h], count)];
    }

    /** The body of `split_off` after its assertion. */
    method SplitOffCore(h: nat, at: nat) returns (other: nat)
      requires PtrWidth(bits) && IsMut(S(), h) && at <= handles[h].cap
      requires handles[h].rep.MutVec? ==> handles[h].cap + handles[h].rep.word.pos == |mem[handles[h].buf].bytes|
      requires handles[h].rep.MutArc? ==> handles[h].rep.sid in shareds
      requires forall k :: k in handles ==> k < next
      modifies this
      ensures AsShared(old(S()), h).handles[h].rep.sid in AsShared(old(S()), h).shareds
      ensures other == AsShared(old(S()), h).next && S() == Split(old(S()), h, at, true)
    {
      other := ShallowClone(h);
      AdvanceUnchecked(other, at);
      handles := handles[h := handles[h].(cap := at, len := Min(handles[h].len, at))];
      assert handles == Split(old(S()), h, at, true).handles;
    }

    /** The body of `split_to` after its assertion. */
    method SplitToCore(h: nat, at: nat) returns (other: nat)
      requires PtrWidth(bits) && IsMut(S(), h) && at <= handles[h].len <= handles[h].cap
      requires handles[h].rep.MutVec? ==> handles[h].cap + handles[h].rep.word.pos == |mem[handles[h].buf].bytes|
      requires handles[h].rep.MutArc? ==> handles[h].rep.sid in shareds
      requires forall k :: k in handles ==> k < next
      modifies this
      ensures AsShared(old(S()), h).handles[h].rep.sid in AsShared(old(S()), h).shareds
      ensures other == AsShared(old(S()), h).next && S() == Split(old(S()), h, at, false)
    {
      other := ShallowClone(h);
      AdvanceUnchecked(h, at);
      handles := handles[other := handles[other].(cap := at, len := at)];
      assert handles == Split(old(S()), h, at, false).handles;
    }

    /** `Vec::reserve` on the vector of a handle that has its allocation to itself, and the handle's new bounds. */
    method RelocateCore(h: nat, grant: seq<Byte>)
      requires IsMut(S(), h) && handles[h].off <= |grant| && next !in mem
      requires handles[h].rep.MutVec? ==> handles[h].off == handles[h].rep.word.pos
      requires handles[h].rep.MutVec? ==> handles[h].cap + handles[h].rep.word.pos == |mem[handles[h].buf].bytes|
      requires handles[h].rep.MutArc? ==> handles[h].rep.sid in shareds
      requires handles[h].rep.MutArc? ==> shareds[handles[h].rep.sid].cap == |mem[handles[h].buf].bytes|
      modifies this
      ensures S() == Grown(old(S()), h, grant)
    {
      var x := handles[h];
      var owner := mem[x.buf].owner;
      if x.rep.MutVec? {
        GiveBack(x.buf, x.off - x.rep.word.pos, x.cap + x.rep.word.pos);
      } else {
        GiveBack(x.buf, 0, shareds[x.rep.sid].cap);
      }
      mem := mem[next := Block(grant, owner)];
      allocs := allocs[next := |grant|];
      if x.rep.MutArc? {
        shareds := shareds[x.rep.sid := shareds[x.rep.sid].(buf := next, cap := |grant|)];
      }
      handles := handles[h := x.(buf := next, cap := |grant| - x.off)];
      next := next + 1;
    }

    // ---------- Vec<u8> ----------

    /** `Vec::with_capacity` with room for the data, followed by `extend_from_slice` */
    method MakeVec(data: seq<Byte>, capacity: nat) returns (ok: bool, v: nat)
      requires Valid()
      modifies this
      ensures Valid() && Untouched(old(S()), S(), {})
      ensures ok <==> Max(|data|, capacity) <= IsizeMax(bits)
      ensures !ok ==> S() == old(S())
      ensures ok ==> v !in old(handles) && IsVec(S(), v) && Contents(S(), v) == data && handles[v].cap >= capacity
      ensures ok ==> handles.Keys == old(handles.Keys) + {v}
    {
      Look();
      v := next;
      var wanted := Max(|data|, capacity);
      ok := wanted <= IsizeMax(bits);
      if ok {
        var bytes := FreshBytes(data, wanted);
        NewVecKeeps(S(), bytes, |data|);
        AllocFor(next, bytes, |data|);
      }
    }

    /** `drop`, for every kind of handle */
    method Drop(h: nat)
      requires Valid() && h in handles
      modifies this
      ensures Valid() && S() == Release(old(S()), h)
      ensures handles.Keys == old(handles.Keys) - {h}
      ensures Untouched(old(S()), S(), {h})
    {
      Look();
      ReleaseKeeps(S(), h);
      var x := handles[h];
      if x.Window? { RebuiltSize(S(), h); }
      if x.Empty? {
        handles := handles - {h};
      } else if x.rep.Direct() {
        FreeDirect(h);
      } else {
        FreeShared(h);
      }
    }

    /** `as_slice` */
    method AsSlice(h: nat) returns (data: seq<Byte>)
      requires h in handles && (handles[h].Window? ==> InBounds(S(), handles[h]))
      ensures data == Contents(S(), h)
    {
      var x := handles[h];
      data := if x.Empty? then [] else mem[x.buf].bytes[x.off..x.off + x.len];
    }

    // ---------- BytesMut ----------

    /** `BytesMut::from_vec` */
    method ToBytesMut(v: nat)
      requires Valid() && IsVec(S(), v)
      modifies this`handles
      ensures Valid() && Untouched(old(S()), S(), {v}) && S() == MutFromVec(old(S()), v)
      ensures IsMut(S(), v) && Contents(S(), v) == old(Contents(S(), v))
      ensures handles[v].cap == old(handles)[v].cap && handles.Keys == old(handles.Keys)
      ensures handles[v].rep == MutVec(Word(0, OriginalCapacityToRepr(old(handles)[v].cap)))
    {
      Look();
      MutFromVecKeeps(S(), v);
      var x := handles[v];
      handles := handles[v := x.(rep := MutVec(Word(0, OriginalCapacityToRepr(x.cap))))];
    }

    /** `truncate` */
    method Truncate(h: nat, len: nat)
      requires Valid() && IsMut(S(), h)
      modifies this`handles
      ensures Valid() && IsMut(S(), h) && Untouched(old(S()), S(), {h})
      ensures handles.Keys == old(handles.Keys)
      ensures Contents(S(), h) == old(Contents(S(), h))[..Min(len, |old(Contents(S(), h))|)]
      ensures handles[h].cap == old(handles)[h].cap
    {
      Facts(h);
      if len <= handles[h].len {
        ShortenedHere(h, len);
        SetLen(h, len);
      }
    }

    lemma ShortenedHere(h: nat, len: nat)
      requires Valid() && IsMut(S(), h) && InBounds(S(), handles[h]) && len <= handles[h].len
      ensures Inv(Shortened(S(), h, len)) && Untouched(S(), Shortened(S(), h, len), {h})
      ensures Contents(Shortened(S(), h, len), h) == Contents(S(), h)[..len]
    {
      Look();
      ShortenedKeeps(S(), h, len);
      ShortenedContents(S(), h, len);
    }

    /** `set_len` */
    method SetLen(h: nat, len: nat)
      requires IsMut(S(), h)
      modifies this`handles
      ensures S() == Shortened(old(S()), h, len)
    {
      handles := handles[h := handles[h].(len := len)];
    }

    /** `split_off`: `h` ends at `at`, the new handle holds what was behind it; the bytes and the capacity are divided. */
    method SplitOff(h: nat, at: nat) returns (ok: bool, other: nat)
      requires Valid() && IsMut(S(), h)
      modifies this
      ensures Valid() && IsMut(S(), h) && Untouched(old(S()), S(), {h})
      ensures ok <==> at <= old(handles)[h].cap
      ensures !ok ==> S() == old(S())
      ensures ok ==> other !in old(handles) && IsMut(S(), other)
      ensures ok ==> var was := old(Contents(S(), h)); var cut := Min(at, |was|);
                     Contents(S(), h) == was[..cut] && Contents(S(), other) == was[cut..]
      ensures ok ==> handles[h].cap == at && handles[other].cap == old(handles)[h].cap - at
      ensures ok ==> handles[h].len == Min(at, old(handles)[h].len) && handles[other].len == old(handles)[h].len - handles[h].len
      ensures ok ==> Adjacent(handles[h], handles[other]) && handles[h].off == old(handles)[h].off
      ensures ok ==> Joins(old(S()), S(), h, other) && InPlace(old(S()), S(), h)
      ensures ok ==> ClassOf(S(), handles[h]) == ClassOf(S(), handles[other]) == ClassOf(old(S()), old(handles)[h])
    {
      Look();
      ok, other := at <= handles[h].cap, 0;
      if ok {
        HandleFacts(S(), h);
        RebuiltSize(S(), h);
        SplitKeeps(S(), h, at, true);
        SplitContents(S(), h, at, true);
        SplitLayout(S(), h, at, true);
        SplitJoins(S(), h, at, true);
        other := SplitOffCore(h, at);
      }
    }

    /** `split_to`: the new handle holds the first `at` bytes, `h` the rest. */
    method SplitTo(h: nat, at: nat) returns (ok: bool, other: nat)
      requires Valid() && IsMut(S(), h)
      modifies this
      ensures Valid() && IsMut(S(), h) && Untouched(old(S()), S(), {h})
      ensures ok <==> at <= |old(Contents(S(), h))|
      ensures !ok ==> S() == old(S())
      ensures ok ==> other !in old(handles) && IsMut(S(), other)
      ensures ok ==> var was := old(Contents(S(), h)); Contents(S(), other) == was[..at] && Contents(S(), h) == was[at..]
      ensures ok ==> handles[other].cap == at && handles[h].cap == old(handles)[h].cap - at
      ensures ok ==> Adjacent(handles[other], handles[h]) && handles[other].off == old(handles)[h].off
      ensures ok ==> Joins(old(S()), S(), h, other) && InPlace(old(S()), S(), h)
      ensures ok ==> ClassOf(S(), handles[h]) == ClassOf(S(), handles[other]) == ClassOf(old(S()), old(handles)[h])
    {
      Look();
      HandleFacts(S(), h);
      ok, other := at <= handles[h].len, 0;
      if ok {
        RebuiltSize(S(), h);
        SplitKeeps(S(), h, at, false);
        SplitContents(S(), h, at, false);
        SplitJoins(S(), h, at, false);
        other := SplitToCore(h, at);
      }
    }

    /** `advance` */
    method Advance(h: nat, cnt: nat) returns (ok: bool)
      requires Valid() && IsMut(S(), h)
      modifies this
      ensures Valid() && IsMut(S(), h) && Untouched(old(S()), S(), {h})
      ensures handles.Keys == old(handles.Keys)
      ensures ok <==> cnt <= |old(Contents(S(), h))|
      ensures !ok ==> S() == old(S())
      ensures ok ==> Contents(S(), h) == old(Contents(S(), h))[cnt..] && InPlace(old(S()), S(), h)
      ensures ok ==> handles[h].off == old(handles)[h].off + cnt && handles[h].cap == old(handles)[h].cap - cnt
      ensures ok ==> ClassOf(S(), handles[h]) == ClassOf(old(S()), old(handles)[h])
    {
      Look();
      HandleFacts(S(), h);
      ok := cnt <= handles[h].len;
      if ok {
        RebuiltSize(S(), h);
        AdvanceMutKeeps(S(), h, cnt);
        AdvanceMutContents(S(), h, cnt);
        AdvanceUnchecked(h, cnt);
      }
    }

    /** `reserve_inner`, which is only called when the spare capacity does not meet the request. */
    method ReserveInner(h: nat, additional: nat, allocate: bool) returns (r: Outcome)
      requires Valid() && IsMut(S(), h) && additional > handles[h].cap - handles[h].len
      modifies this
      ensures Valid() && IsMut(S(), h) && Untouched(old(S()), S(), {h})
      ensures handles.Keys == old(handles.Keys)
      ensures Contents(S(), h) == old(Contents(S(), h))
      ensures r == Done(true) ==> handles[h].cap - handles[h].len >= additional && handles[h].len == old(handles)[h].len
      ensures r == Done(true) <==> Grants(old(S()), h, additional, allocate)
      ensures r != Done(true) ==> S() == old(S())
      ensures allocate ==> r != Done(false)
      ensures !allocate ==> r != Panic
      ensures !allocate ==> handles[h].buf == old(handles)[h].buf && allocs == old(allocs) && frees == old(frees)
      ensures r == Done(true) ==> Reserved(old(S()), S(), h, additional)
    {
      Look();
      PlanFits(S(), h, additional, allocate);
      PlanServes(S(), h, additional, allocate);
      var plan := ReservePlan(Heap(bits, mem, shareds, handles, allocs, frees, next), h, additional, allocate);
      match plan {
        case Overflow => r := Panic;
        case Refuse => r := Done(false);
        case Widen => Widen(h, additional); r := Done(true);
        case CopyBack => CopyBack(h, additional); r := Done(true);
        case Grow(size) => Grow(h, additional, size); r := Done(true);
        case Move(size) => Move(h, additional, size); r := Done(true);
      }
    }

    /** The box is ours alone and reaches far enough: the window grows in place. */
    method Widen(h: nat, additional: nat)
      requires Valid() && Fits(S(), h, additional, Plan.Widen)
      modifies this`handles
      ensures Valid() && IsMut(S(), h) && Untouched(old(S()), S(), {h})
      ensures handles.Keys == old(handles.Keys)
      ensures Contents(S(), h) == old(Contents(S(), h))
      ensures handles[h].cap - handles[h].len == additional && handles[h].len == old(handles)[h].len
      ensures handles[h].buf == old(handles)[h].buf && Reserved(old(S()), S(), h, additional)
    {
      Look();
      WidenKeeps(S(), h, additional);
      ghost var y := WidenIs(S(), h, additional);
      WidenCore(h, additional);
    }

    method WidenCore(h: nat, additional: nat)
      requires IsMut(S(), h)
      modifies this`handles
      ensures S() == Widened(old(S()), h, additional)
    {
      handles := handles[h := handles[h].(cap := handles[h].len + additional)];
    }

    /** `copy_nonoverlapping` to the start of the allocation, whose every byte becomes capacity. */
    method CopyBack(h: nat, additional: nat)
      requires Valid() && Fits(S(), h, additional, Plan.CopyBack)
      modifies this`mem, this`handles
      ensures Valid() && IsMut(S(), h) && Untouched(old(S()), S(), {h})
      ensures handles.Keys == old(handles.Keys)
      ensures Contents(S(), h) == old(Contents(S(), h))
      ensures handles[h].cap - handles[h].len >= additional && handles[h].len == old(handles)[h].len
      ensures handles[h].buf == old(handles)[h].buf && Reserved(old(S()), S(), h, additional)
    {
      Look();
      WholeBlockFits(S(), h);
      CopyBackKeeps(S(), h, WholeBlock(S(), h));
      RebuiltSize(S(), h);
      CopyBackCore(h);
    }

    method CopyBackCore(h: nat)
      requires IsMut(S(), h) && InBounds(S(), handles[h]) && handles[h].off >= handles[h].len
      requires handles[h].rep.MutVec? ==> handles[h].off == handles[h].rep.word.pos
      requires handles[h].rep.MutVec? ==> handles[h].cap + handles[h].rep.word.pos == |mem[handles[h].buf].bytes|
      requires handles[h].rep.MutArc? ==> handles[h].rep.sid in shareds
      requires handles[h].rep.MutArc? ==> shareds[handles[h].rep.sid].cap == |mem[handles[h].buf].bytes|
      modifies this`mem, this`handles
      ensures S() == CopiedBack(old(S()), h, WholeBlock(old(S()), h))
    {
      var x := handles[h];
      CopyToFront(x);
      if x.rep.MutVec? {
        handles := handles[h := x.(off := x.off - x.rep.word.pos, cap := x.cap + x.rep.word.pos,
                                   rep := MutVec(x.rep.word.(pos := 0)))];
      } else {
        handles := handles[h := x.(off := 0, cap := shareds[x.rep.sid].cap)];
      }
    }

    /** `Vec::reserve` on the underlying vector */
    method Grow(h: nat, additional: nat, size: nat)
      requires Valid() && Fits(S(), h, additional, Plan.Grow(size))
      modifies this
      ensures Valid() && IsMut(S(), h) && Untouched(old(S()), S(), {h})
      ensures handles.Keys == old(handles.Keys)
      ensures Contents(S(), h) == old(Contents(S(), h))
      ensures handles[h].cap - handles[h].len >= additional && handles[h].len == old(handles)[h].len
      ensures Reserved(old(S()), S(), h, additional)
    {
      Look();
      var grant := BytesUpTo(h, size);
      GrowKeeps(S(), h, grant);
      GrowReady(S(), h);
      RelocateCore(h, grant);
    }

    /** At least `size` bytes that begin with everything up to the end of the contents. */
    method BytesUpTo(h: nat, size: nat) returns (grant: seq<Byte>)
      requires PtrWidth(bits) && IsMut(S(), h) && InBounds(S(), handles[h])
      requires handles[h].off + handles[h].len <= size <= IsizeMax(bits)
      ensures size <= |grant| <= IsizeMax(bits)
      ensures Contents(Grown(S(), h, grant), h) == Contents(S(), h)
    {
      var x := handles[h];
      grant := FreshBytes(mem[x.buf].bytes[..x.off + x.len], size);
      GrowContents(S(), h, grant);
    }

    /** Others still use the box: the handle leaves it with a copy of its own bytes. */
    method Move(h: nat, additional: nat, size: nat)
      requires Valid() && Fits(S(), h, additional, Plan.Move(size))
      modifies this
      ensures Valid() && IsMut(S(), h) && Untouched(old(S()), S(), {h})
      ensures handles.Keys == old(handles.Keys)
      ensures Contents(S(), h) == old(Contents(S(), h))
      ensures handles[h].cap - handles[h].len >= additional && handles[h].len == old(handles)[h].len
      ensures Reserved(old(S()), S(), h, additional)
    {
      Look();
      GrowReady(S(), h);
      BoxRepr(S(), h);
      RebuiltSize(S(), h);
      var x := handles[h];
      var repr := shareds[x.rep.sid].origin.repr;
      var grant := FreshBytes(mem[x.buf].bytes[x.off..x.off + x.len], size);
      MoveKeeps(S(), h, grant, repr);
      assert h < next;
      MoveCore(h, grant, repr);
    }

    method MoveCore(h: nat, grant: seq<Byte>, repr: nat)
      requires IsMut(S(), h) && handles[h].rep.MutArc? && handles[h].rep.sid in shareds && h < next
      requires var x, box := handles[h], shareds[handles[h].rep.sid];
               box.buf == x.buf && box.refCnt > 0 && box.cap == |mem[x.buf].bytes|
      modifies this
      ensures S() == Moved(old(S()), h, grant, repr)
    {
      var len := handles[h].len;
      FreeShared(h);
      AllocFor(h, grant, len);
      handles := handles[h := handles[h].(rep := MutVec(Word(0, repr)))];
    }

    /** `reserve`: afterwards there is room for `additional` more bytes, unless it panicked. */
    method Reserve(h: nat, additional: nat) returns (ok: bool)
      requires Valid() && IsMut(S(), h)
      modifies this
      ensures Valid() && IsMut(S(), h) && Untouched(old(S()), S(), {h})
      ensures handles.Keys == old(handles.Keys)
      ensures Contents(S(), h) == old(Contents(S(), h))
      ensures ok ==> handles[h].cap - handles[h].len >= additional && handles[h].len == old(handles)[h].len
      ensures ok <==> additional <= old(handles)[h].cap - old(handles)[h].len || Grants(old(S()), h, additional, true)
      ensures !ok ==> S() == old(S())
      ensures if additional <= old(handles)[h].cap - old(handles)[h].len then S() == old(S())
              else ok ==> Reserved(old(S()), S(), h, additional)
    {
      if additional <= handles[h].cap - handles[h].len {
        ok := true;
        return;
      }
      var r := ReserveInner(h, additional, true);
      ok := r == Done(true);
    }

    /** `try_reclaim`: room in the same allocation, or nothing happened. */
    method TryReclaim(h: nat, additional: nat) returns (reclaimed: bool)
      requires Valid() && IsMut(S(), h)
      modifies this
      ensures Valid() && IsMut(S(), h) && Untouched(old(S()), S(), {h})
      ensures handles.Keys == old(handles.Keys)
      ensures Contents(S(), h) == old(Contents(S(), h))
      ensures handles[h].buf == old(handles)[h].buf && allocs == old(allocs) && frees == old(frees)
      ensures reclaimed <==> additional <= old(handles)[h].cap - old(handles)[h].len || Grants(old(S()), h, additional, false)
      ensures reclaimed ==> handles[h].cap - handles[h].len >= additional && handles[h].len == old(handles)[h].len
      ensures !reclaimed ==> S() == old(S())
    {
      if additional <= handles[h].cap - handles[h].len {
        reclaimed := true;
        return;
      }
      var r := ReserveInner(h, additional, false);
      reclaimed := r == Done(true);
    }

    /** `extend_from_slice` */
    method ExtendFromSlice(h: nat, data: seq<Byte>) returns (ok: bool)
      requires Valid() && IsMut(S(), h)
      modifies this
      ensures Valid() && IsMut(S(), h) && Untouched(old(S()), S(), {h})
      ensures handles.Keys == old(handles.Keys)
      ensures ok <==> |data| <= old(handles)[h].cap - old(handles)[h].len || Grants(old(S()), h, |data|, true)
      ensures !ok ==> S() == old(S())
      ensures ok ==> Contents(S(), h) == old(Contents(S(), h)) + data
      ensures |data| <= old(handles)[h].cap - old(handles)[h].len ==>
                handles[h] == old(handles)[h].(len := old(handles)[h].len + |data|)
    {
      ok := Reserve(h, |data|);
      if ok {
        Facts(h);
        ExtendKeepsHere(h, data);
        ExtendContents(S(), h, data);
        Chain(old(S()), S(), Extended(S(), h, data), h);
        ExtendCore(h, data);
      }
    }

    lemma ExtendKeepsHere(h: nat, data: seq<Byte>)
      requires Valid() && HasRoom(S(), h, |data|)
      ensures Inv(Extended(S(), h, data)) && Untouched(S(), Extended(S(), h, data), {h})
    {
      Look();
      ExtendKeeps(S(), h, data);
    }

    method ExtendCore(h: nat, data: seq<Byte>)
      requires HasRoom(S(), h, |data|)
      modifies this`mem, this`handles
      ensures S() == Extended(old(S()), h, data)
    {
      var x := handles[h];
      mem := mem[x.buf := mem[x.buf].(bytes := Overwritten(mem[x.buf].bytes, x.off + x.len, data))];
      handles := handles[h := x.(len := x.len + |data|)];
    }

    /**
     * `unsplit`: the result, which lives on under the number `r`, shows both contents one after the other.
     * When `h` is empty it is dropped and `other` takes its place.
     */
    method Unsplit(h: nat, other: nat) returns (ok: bool, r: nat)
      requires Valid() && IsMut(S(), h) && IsMut(S(), other) && h != other
      modifies this
      ensures Valid() && Untouched(old(S()), S(), {h, other})
      ensures !ok ==> S() == old(S())
      ensures ok ==> (r == h || r == other) && IsMut(S(), r)
      ensures ok ==> handles.Keys == old(handles.Keys) - {if r == h then other else h}
      ensures ok ==> Contents(S(), r) == old(Contents(S(), h)) + old(Contents(S(), other))
      ensures var x, y := old(handles)[h], old(handles)[other];
              && (x.len == 0 ==> ok && r == other && handles[r] == y)
              && (x.len > 0 && Contiguous(x, y) ==> ok && r == h && handles[r].cap == x.cap + y.cap && InPlace(old(S()), S(), r))
              && (x.len > 0 && !Contiguous(x, y) && y.len <= x.cap - x.len ==>
                    ok && r == h && handles[r] == x.(len := x.len + y.len))
              && (x.len > 0 && !Contiguous(x, y) && y.cap > 0 ==>
                    (ok <==> y.len <= x.cap - x.len || Grants(old(S()), h, y.len, true)))
    {
      var x, y := handles[h], handles[other];
      if x.len == 0 {
        ok, r := true, other;
        YieldTo(h, other);
      } else if y.cap == 0 {
        ok, r := true, h;
        Facts(other);
        YieldTo(other, h);
      } else if x.off + x.len == y.off && x.buf == y.buf && x.rep.MutArc? && x.rep == y.rep {
        ok, r := true, h;
        Join(h, other);
      } else {
        r := h;
        ok := AppendOther(h, other);
      }
    }

    /** An empty handle is dropped and the other one stays. */
    method YieldTo(gone: nat, stays: nat)
      requires Valid() && IsMut(S(), gone) && IsMut(S(), stays) && gone != stays && handles[gone].len == 0
      modifies this
      ensures Valid() && IsMut(S(), stays) && Untouched(old(S()), S(), {gone})
      ensures handles.Keys == old(handles.Keys) - {gone} && handles[stays] == old(handles)[stays]
      ensures Contents(S(), stays) == old(Contents(S(), stays)) && old(Contents(S(), gone)) == []
    {
      Facts(gone);
      ghost var s := S();
      Drop(gone);
      Kept(s, S(), {gone}, stays);
      Facts(stays);
    }

    /** The fast path of `try_unsplit`, after which the second handle is dropped. */
    method Join(h: nat, other: nat)
      requires Valid() && IsMut(S(), h) && IsMut(S(), other) && h != other && Contiguous(handles[h], handles[other])
      modifies this
      ensures Valid() && IsMut(S(), h) && Untouched(old(S()), S(), {h, other})
      ensures Contents(S(), h) == old(Contents(S(), h)) + old(Contents(S(), other))
      ensures handles[h].cap == old(handles)[h].cap + old(handles)[other].cap && InPlace(old(S()), S(), h)
      ensures handles.Keys == old(handles.Keys) - {other}
    {
      Look();
      JoinInPlace(S(), h, other);
      JoinKeeps(S(), h, other);
      JoinContents(S(), h, other);
      RebuiltSize(S(), other);
      JoinCore(h, other);
    }

    method JoinCore(h: nat, other: nat)
      requires h in handles && other in handles && h != other && Contiguous(handles[h], handles[other])
      requires handles[other].rep.sid in shareds
      requires var y, box := handles[other], shareds[handles[other].rep.sid];
               box.buf == y.buf && y.buf in mem && box.refCnt > 0 && box.cap == |mem[y.buf].bytes|
      modifies this
      ensures S() == Joined(old(S()), h, other)
    {
      var x, y := handles[h], handles[other];
      FreeShared(other);
      handles := handles[h := x.(len := x.len + y.len, cap := x.cap + y.cap)];
    }

    /** The slow path of `unsplit` */
    method AppendOther(h: nat, other: nat) returns (ok: bool)
      requires Valid() && IsMut(S(), h) && IsMut(S(), other) && h != other
      modifies this
      ensures Valid() && Untouched(old(S()), S(), {h, other})
      ensures !ok ==> S() == old(S())
      ensures ok ==> IsMut(S(), h) && handles.Keys == old(handles.Keys) - {other}
      ensures ok ==> Contents(S(), h) == old(Contents(S(), h)) + old(Contents(S(), other))
      ensures var n, spare := old(handles)[other].len, old(handles)[h].cap - old(handles)[h].len;
              && (ok <==> n <= spare || Grants(old(S()), h, n, true))
              && (n <= spare ==> handles[h] == old(handles)[h].(len := old(handles)[h].len + n))
    {
      Facts(other);
      ghost var both := Contents(S(), h) + Contents(S(), other);
      var data := AsSlice(other);
      ok := ExtendFromSlice(h, data);
      if ok {
        ghost var s := S();
        assert Contents(s, h) == both;
        Drop(other);
        UntouchedTrans(old(S()), s, S(), {h}, {other});
        assert {h} + {other} == {h, other};
        Kept(s, S(), {other}, h);
        Facts(h);
      }
    }

    /**
     * `split_off` followed by `unsplit`: the bytes always come back; the capacity comes back exactly when the cut
     * was inside the contents, or at the very end of a handle that was not empty.
     */
    method SplitThenUnsplit(h: nat, at: nat) returns (r: nat)
      requires Valid() && IsMut(S(), h) && at <= handles[h].cap
      modifies this
      ensures Valid() && IsMut(S(), r) && Untouched(old(S()), S(), {h})
      ensures Contents(S(), r) == old(Contents(S(), h))
      ensures var x := old(handles)[h];
              handles[r].cap == x.cap <==> at <= x.len || (0 < x.len && at == x.cap)
    {
      Facts(h);
      ghost var was := Contents(S(), h);
      var ok, other := SplitOff(h, at);
      ghost var s := S();
      assert Contents(s, h) + Contents(s, other) == was;
      ok, r := Unsplit(h, other);
      Facts(r);
      UntouchedTrans(old(S()), s, S(), {h}, {h, other});
      UntouchedNew(old(S()), S(), h, other);
    }

    // ---------- Bytes ----------

    /** `Bytes::from(vec)` */
    method ToBytes(v: nat)
      requires Valid() && IsVec(S(), v)
      modifies this
      ensures Valid() && IsFrozen(S(), v) && Untouched(old(S()), S(), {v})
      ensures Contents(S(), v) == old(Contents(S(), v)) && S() == FrozenFromVec(old(S()), v)
      ensures handles.Keys == old(handles.Keys) && (handles[v].Window? ==> Unique(S(), handles[v]))
      ensures handles[v].Window? ==> Shows(handles[v], old(handles)[v], 0, old(handles)[v].len) && InPlace(old(S()), S(), v)
      ensures allocs == old(allocs)
    {
      Look();
      FrozenFromVecKeeps(S(), v);
      FrozenFromVecContents(S(), v);
      RebuiltSize(S(), v);
      HandleFacts(S(), v);
      assert v < next;
      ToBytesCore(v);
    }

    method ToBytesCore(v: nat)
      requires IsVec(S(), v) && handles[v].len <= handles[v].cap == |mem[handles[v].buf].bytes| && v < next
      modifies this
      ensures S() == FrozenFromVec(old(S()), v)
    {
      var x := handles[v];
      if x.len == x.cap {
        if x.len == 0 {
          FreeDirect(v);
          handles := handles[v := Empty];
        } else {
          handles := handles[v := x.(rep := Promotable)];
        }
      } else {
        var i := next;
        next := next + 1;
        shareds := shareds[i := Shared(x.buf, x.cap, 1, FromBox)];
        mem := mem[x.buf := mem[x.buf].(owner := ByShared(i))];
        handles := handles[v := x.(cap := x.len, rep := SharedArc(i))];
      }
    }

    /** `advance` of a `Bytes` */
    method BytesAdvance(b: nat, cnt: nat) returns (ok: bool)
      requires Valid() && IsFrozen(S(), b)
      modifies this`handles
      ensures Valid() && IsFrozen(S(), b) && Untouched(old(S()), S(), {b})
      ensures ok <==> cnt <= |old(Contents(S(), b))|
      ensures !ok ==> S() == old(S())
      ensures ok ==> Contents(S(), b) == old(Contents(S(), b))[cnt..]
      ensures handles.Keys == old(handles.Keys)
      ensures handles[b].Window? ==> old(handles)[b].Window? && handles[b].rep == old(handles)[b].rep
      ensures ok && old(handles)[b].Window? ==> Shows(handles[b], old(handles)[b], cnt, old(handles)[b].len)
    {
      if handles[b].Empty? {
        ok := cnt == 0;
        return;
      }
      Facts(b);
      ok := cnt <= handles[b].len;
      if ok {
        IncStart(b, cnt);
      }
    }

    /** `inc_start` */
    method IncStart(b: nat, count: nat)
      requires Valid() && IsFrozen(S(), b) && handles[b].Window? && count <= handles[b].len
      modifies this`handles
      ensures Valid() && IsFrozen(S(), b) && Untouched(old(S()), S(), {b}) && handles.Keys == old(handles.Keys)
      ensures |old(Contents(S(), b))| == old(handles)[b].len && Contents(S(), b) == old(Contents(S(), b))[count..]
      ensures handles == old(handles)[b := Part(old(handles)[b], count, old(handles)[b].len - count)]
    {
      Look();
      HandleFacts(S(), b);
      NarrowedKeeps(S(), b, count, handles[b].len - count);
      NarrowedContents(S(), b, count, handles[b].len);
      NarrowCore(b, count, handles[b].len - count);
    }

    method NarrowCore(b: nat, begin: nat, len: nat)
      requires b in handles && handles[b].Window? && handles[b].rep.Frozen() && handles[b].buf in mem
      modifies this`handles
      ensures S() == Narrowed(old(S()), b, begin, len) && IsFrozen(S(), b)
      ensures handles == old(handles)[b := Part(old(handles)[b], begin, len)]
    {
      handles := handles[b := Part(handles[b], begin, len)];
    }

    /** `freeze`; bytes that were not shared before are not shared afterwards. */
    method Freeze(h: nat)
      requires Valid() && IsMut(S(), h)
      modifies this
      ensures Valid() && IsFrozen(S(), h) && Untouched(old(S()), S(), {h}) && handles.Keys == old(handles.Keys)
      ensures Contents(S(), h) == old(Contents(S(), h))
      ensures Unique(old(S()), old(handles)[h]) && handles[h].Window? ==> Unique(S(), handles[h])
      ensures handles[h].Window? ==> Shows(handles[h], old(handles)[h], 0, old(handles)[h].len) && InPlace(old(S()), S(), h)
      ensures allocs == old(allocs)
    {
      if handles[h].rep.MutVec? {
        FreezeVec(h);
      } else {
        FreezeArc(h);
      }
    }

    /** The `KIND_ARC` branch: only the type changes. */
    method FreezeArc(h: nat)
      requires Valid() && IsMut(S(), h) && handles[h].rep.MutArc?
      modifies this`handles
      ensures Valid() && IsFrozen(S(), h) && Untouched(old(S()), S(), {h}) && handles.Keys == old(handles.Keys)
      ensures Contents(S(), h) == old(Contents(S(), h))
      ensures Unique(old(S()), old(handles)[h]) ==> Unique(S(), handles[h])
      ensures Shows(handles[h], old(handles)[h], 0, old(handles)[h].len)
    {
      Look();
      HandleFacts(S(), h);
      var x := handles[h];
      RetypedKeeps(S(), h, x.len, SharedVArc(x.rep.sid));
      handles := handles[h := x.(cap := x.len, rep := SharedVArc(x.rep.sid))];
      assert S() == Retyped(old(S()), h, x.len, SharedVArc(x.rep.sid));
    }

    /** The `KIND_VEC` branch: rebuild the vector, make it a `Bytes`, skip the bytes before the window. */
    method FreezeVec(h: nat)
      requires Valid() && IsMut(S(), h) && handles[h].rep.MutVec?
      modifies this
      ensures Valid() && IsFrozen(S(), h) && Untouched(old(S()), S(), {h}) && handles.Keys == old(handles.Keys)
      ensures Contents(S(), h) == old(Contents(S(), h)) && (handles[h].Window? ==> Unique(S(), handles[h]))
      ensures handles[h].Window? ==> Shows(handles[h], old(handles)[h], 0, old(handles)[h].len) && InPlace(old(S()), S(), h)
      ensures allocs == old(allocs)
    {
      Look();
      Facts(h);
      ghost var was := Contents(S(), h);
      var x := handles[h];
      RebuildVec(h);
      ghost var s1 := S();
      assert Contents(s1, h)[x.off..] == was;
      FreezeFrom(h, x.off);
      Chain(old(S()), s1, S(), h);
    }

    /** `Bytes::from(vec)` followed by `advance` */
    method FreezeFrom(v: nat, off: nat)
      requires Valid() && IsVec(S(), v) && off <= handles[v].len == |Contents(S(), v)|
      modifies this
      ensures Valid() && IsFrozen(S(), v) && Untouched(old(S()), S(), {v}) && handles.Keys == old(handles.Keys)
      ensures Contents(S(), v) == old(Contents(S(), v))[off..] && (handles[v].Window? ==> Unique(S(), handles[v]))
      ensures handles[v].Window? ==> Shows(handles[v], old(handles)[v], off, old(handles)[v].len) && InPlace(old(S()), S(), v)
      ensures allocs == old(allocs)
    {
      ToBytes(v);
      ghost var s := S();
      assert Contents(s, v) == old(Contents(S(), v));
      var ok := BytesAdvance(v, off);
      Chain(old(S()), s, S(), v);
    }

    /** `rebuild_vec`, with everything up to the end of the window in use; skipping `off` bytes gives the contents back. */
    method RebuildVec(h: nat)
      requires Valid() && h in handles && Direct(handles[h]) && InBounds(S(), handles[h])
      modifies this`handles
      ensures Valid() && IsVec(S(), h) && Untouched(old(S()), S(), {h}) && handles.Keys == old(handles.Keys)
      ensures |Contents(S(), h)| == old(handles)[h].off + old(handles)[h].len
      ensures Contents(S(), h)[old(handles)[h].off..] == old(Contents(S(), h))
      ensures handles[h].buf == old(handles)[h].buf && handles[h].off == 0
      ensures handles[h].len == old(handles)[h].off + old(handles)[h].len
    {
      Look();
      var len := handles[h].off + handles[h].len;
      AsVecKeeps(S(), h, len);
      AsVecTail(S(), h, len);
      RebuiltSize(S(), h);
      AsVecCore(h, len);
    }

    method AsVecCore(h: nat, len: nat)
      requires h in handles && Direct(handles[h]) && handles[h].buf in mem
      requires var x, size := handles[h], |mem[handles[h].buf].bytes|;
               match x.rep
               case OwnedVec => x.cap == size
               case MutVec(w) => x.off - w.pos == 0 && x.cap + w.pos == size
               case _ => x.off + x.len == size
      modifies this`handles
      ensures S() == AsVec(old(S()), h, len)
    {
      var x := handles[h];
      var cap := if x.rep.OwnedVec? then x.cap else if x.rep.MutVec? then x.cap + x.rep.word.pos else x.off + x.len;
      handles := handles[h := Window(x.buf, 0, len, cap, OwnedVec)];
    }

    /** `new_empty_with_ptr`: a new empty static `Bytes` next to an unchanged handle */
    method EmptyBeside(b: nat) returns (n: nat)
      requires Valid() && IsFrozen(S(), b)
      modifies this`handles, this`next
      ensures Valid() && n !in old(handles) && IsFrozen(S(), n) && handles[n].Empty?
      ensures IsFrozen(S(), b) && handles[b] == old(handles)[b] && Contents(S(), b) == old(Contents(S(), b))
      ensures Untouched(old(S()), S(), {b}) && handles.Keys == old(handles.Keys) + {n}
    {
      Look();
      WithEmptyKeeps(S());
      assert b < next && next !in handles;
      WithEmptyLeaves(S(), b);
      n := next;
      AddEmptyCore();
    }

    method AddEmptyCore()
      modifies this`handles, this`next
      ensures S() == WithEmpty(old(S()))
    {
      handles := handles[next := Empty];
      next := next + 1;
    }

    /** `clone`: the promotable handle is first moved into a `Shared`; then the count goes up by one. */
    method Clone(b: nat) returns (n: nat)
      requires Valid() && IsFrozen(S(), b)
      modifies this
      ensures Valid() && IsFrozen(S(), b) && Untouched(old(S()), S(), {b})
      ensures n !in old(handles) && IsFrozen(S(), n) && handles.Keys == old(handles.Keys) + {n}
      ensures Contents(S(), b) == old(Contents(S(), b)) && Contents(S(), n) == old(Contents(S(), b))
      ensures old(handles)[b].Empty? ==> handles[b].Empty? && handles[n].Empty?
      ensures var x := old(handles)[b];
              x.Window? ==> Joins(old(S()), S(), b, n) && Shows(handles[b], x, 0, x.len) && Shows(handles[n], x, 0, x.len)
      ensures allocs == old(allocs) && frees == old(frees)
    {
      if handles[b].Empty? {
        n := EmptyBeside(b);
      } else {
        n := CloneWindow(b);
      }
    }

    method CloneWindow(b: nat) returns (n: nat)
      requires Valid() && IsFrozen(S(), b) && handles[b].Window?
      modifies this
      ensures Valid() && IsFrozen(S(), b) && Untouched(old(S()), S(), {b})
      ensures n !in old(handles) && IsFrozen(S(), n) && handles.Keys == old(handles.Keys) + {n}
      ensures Contents(S(), b) == old(Contents(S(), b)) && Contents(S(), n) == old(Contents(S(), b))
      ensures Joins(old(S()), S(), b, n)
      ensures var x := old(handles)[b]; Shows(handles[b], x, 0, x.len) && Shows(handles[n], x, 0, x.len)
    {
      Look();
      CanClone(S(), b);
      ClonedKeeps(S(), b);
      ClonedLayout(S(), b);
      HandleFacts(S(), b);
      ClonedJoins(S(), b);
      n := CloneCore(b);
    }

    method CloneCore(b: nat) returns (n: nat)
      requires b in handles && handles[b].Window? && handles[b].rep.Frozen() && handles[b].buf in mem && b < next
      requires handles[b].rep.Promotable? ==> handles[b].off + handles[b].len == |mem[handles[b].buf].bytes|
      requires !handles[b].rep.Direct() ==> handles[b].rep.sid in shareds
      modifies this
      ensures AsArc(old(S()), b).handles[b].rep.sid in AsArc(old(S()), b).shareds
      ensures n == AsArc(old(S()), b).next && S() == Cloned(old(S()), b)
      ensures handles.Keys == old(handles.Keys) + {n}
    {
      var x := handles[b];
      ghost var p := AsArc(S(), b);
      if x.rep.Promotable? {
        // shallow_clone_vec; with nobody else running, the compare_exchange succeeds
        var i := next;
        next := next + 1;
        shareds := shareds[i := Shared(x.buf, x.off + x.len, 2, FromBox)];
        mem := mem[x.buf := mem[x.buf].(owner := ByShared(i))];
        handles := handles[b := x.(rep := PromotableArc(i))];
      } else {
        var i := x.rep.sid;
        shareds := shareds[i := shareds[i].(refCnt := shareds[i].refCnt + 1)];
      }
      n := next;
      handles := handles[n := CloneOf(handles[b])];
      next := next + 1;
      assert handles == p.handles[b := p.handles[b]][n := CloneOf(p.handles[b])];
    }

    /** `slice(begin..end)` */
    method Slice(b: nat, begin: nat, end: nat) returns (ok: bool, n: nat)
      requires Valid() && IsFrozen(S(), b)
      modifies this
      ensures Valid() && IsFrozen(S(), b) && Untouched(old(S()), S(), {b})
      ensures ok <==> begin <= end <= |old(Contents(S(), b))|
      ensures !ok ==> S() == old(S())
      ensures ok ==> n !in old(handles) && IsFrozen(S(), n) && Contents(S(), b) == old(Contents(S(), b))
      ensures ok ==> Contents(S(), n) == old(Contents(S(), b))[begin..end]
      ensures ok && begin == end ==> handles[b] == old(handles)[b] && handles[n].Empty?
      ensures var x := old(handles)[b];
              ok && begin < end ==>
                Joins(old(S()), S(), b, n) && Shows(handles[b], x, 0, x.len) && Shows(handles[n], x, begin, end)
      ensures allocs == old(allocs) && frees == old(frees)
    {
      Look();
      n := 0;
      var len := LenOf(b);
      ok := begin <= end <= len;
      if ok {
        assert begin == end ==> Contents(S(), b)[begin..end] == [];
        if begin == end {
          n := EmptyBeside(b);
        } else {
          n := CloneRange(b, begin, end);
        }
      }
    }

    /** A clone narrowed to `begin..end`. */
    method CloneRange(b: nat, begin: nat, end: nat) returns (n: nat)
      requires Valid() && IsFrozen(S(), b) && handles[b].Window? && begin <= end <= handles[b].len == |Contents(S(), b)|
      modifies this
      ensures Valid() && IsFrozen(S(), b) && Untouched(old(S()), S(), {b})
      ensures n !in old(handles) && IsFrozen(S(), n) && handles.Keys == old(handles.Keys) + {n}
      ensures Joins(old(S()), S(), b, n)
      ensures var x := old(handles)[b]; Shows(handles[b], x, 0, x.len) && Shows(handles[n], x, begin, end)
      ensures Contents(S(), b) == old(Contents(S(), b))
      ensures Contents(S(), n) == old(Contents(S(), b))[begin..end]
      ensures end == old(handles)[b].len ==> Contents(S(), n) == old(Contents(S(), b))[begin..]
    {
      n := CloneWindow(b);
      ghost var s := S();
      NarrowClone(b, n, begin, end);
      JoinsStill(old(S()), s, b, n, S());
      UntouchedTrans(old(S()), s, S(), {b}, {n});
      UntouchedFresh(old(S()), S(), {b}, n);
    }

    method NarrowClone(b: nat, n: nat, begin: nat, end: nat)
      requires Valid() && IsFrozen(S(), b) && IsFrozen(S(), n) && b != n && handles[n].Window? && !handles[n].rep.Direct()
      requires begin <= end <= handles[n].len
      modifies this`handles
      ensures Valid() && IsFrozen(S(), b) && IsFrozen(S(), n) && handles[b] == old(handles)[b]
      ensures Untouched(old(S()), S(), {n}) && handles == old(handles)[n := Part(old(handles)[n], begin, end - begin)]
      ensures Contents(S(), b) == old(Contents(S(), b)) && |old(Contents(S(), n))| == old(handles)[n].len
      ensures Contents(S(), n) == old(Contents(S(), n))[begin..end]
      ensures end == old(handles)[n].len ==> Contents(S(), n) == old(Contents(S(), n))[begin..]
    {
      ghost var s := S();
      if handles[b].Window? { Facts(b); }
      NarrowTo(n, begin, end);
      Kept(s, S(), {n}, b);
    }

    /** A shared `Bytes` is narrowed to `begin..end`. */
    method NarrowTo(n: nat, begin: nat, end: nat)
      requires Valid() && IsFrozen(S(), n) && handles[n].Window? && !handles[n].rep.Direct()
      requires begin <= end <= handles[n].len
      modifies this`handles
      ensures Valid() && IsFrozen(S(), n) && Untouched(old(S()), S(), {n})
      ensures handles == old(handles)[n := Part(old(handles)[n], begin, end - begin)]
      ensures |old(Contents(S(), n))| == old(handles)[n].len && Contents(S(), n) == old(Contents(S(), n))[begin..end]
      ensures end == old(handles)[n].len ==> Contents(S(), n) == old(Contents(S(), n))[begin..]
    {
      Look();
      HandleFacts(S(), n);
      NarrowedKeeps(S(), n, begin, end - begin);
      NarrowedContents(S(), n, begin, end);
      NarrowCore(n, begin, end - begin);
    }

    /** `split_off` of a `Bytes`: `first` is what `self` holds afterwards, `rest` what is returned. */
    method BytesSplitOff(b: nat, at: nat) returns (ok: bool, first: nat, rest: nat)
      requires Valid() && IsFrozen(S(), b)
      modifies this
      ensures Valid() && Untouched(old(S()), S(), {b})
      ensures ok <==> at <= |old(Contents(S(), b))|
      ensures !ok ==> S() == old(S())
      ensures ok ==> first != rest && IsFrozen(S(), first) && IsFrozen(S(), rest) && (first == b || first !in old(handles))
      ensures ok ==> rest == b || rest !in old(handles)
      ensures ok ==> Contents(S(), first) == old(Contents(S(), b))[..at] && Contents(S(), rest) == old(Contents(S(), b))[at..]
      ensures ok && at == |old(Contents(S(), b))| ==> first == b && handles[b] == old(handles)[b] && handles[rest].Empty?
      ensures ok && at == 0 < |old(Contents(S(), b))| ==> rest == b && handles[b] == old(handles)[b] && handles[first].Empty?
      ensures var x := old(handles)[b];
              0 < at < |old(Contents(S(), b))| ==>
                first == b && Joins(old(S()), S(), b, rest)
                && Shows(handles[first], x, 0, at) && Shows(handles[rest], x, at, x.len)
      ensures allocs == old(allocs) && frees == old(frees)
    {
      var len := LenOf(b);
      ok, first, rest := at <= len, b, b;
      if at == len {
        rest := EmptyBeside(b);
      } else if at == 0 {
        first := EmptyBeside(b);
      } else if ok {
        rest := SplitOffInside(b, at);
      }
    }

    method LenOf(b: nat) returns (len: nat)
      requires Valid() && IsFrozen(S(), b)
      ensures len == |Contents(S(), b)| && (handles[b].Window? ==> handles[b].len == len)
      ensures handles[b].Empty? ==> len == 0
    {
      if handles[b].Empty? {
        len := 0;
      } else {
        Facts(b);
        len := handles[b].len;
      }
    }

    method SplitOffInside(b: nat, at: nat) returns (rest: nat)
      requires Valid() && IsFrozen(S(), b) && handles[b].Window? && at <= handles[b].len == |Contents(S(), b)|
      modifies this
      ensures Valid() && IsFrozen(S(), b) && IsFrozen(S(), rest) && rest !in old(handles) && Untouched(old(S()), S(), {b})
      ensures Contents(S(), b) == old(Contents(S(), b))[..at] && Contents(S(), rest) == old(Contents(S(), b))[at..]
      ensures Joins(old(S()), S(), b, rest)
      ensures var x := old(handles)[b]; Shows(handles[b], x, 0, at) && Shows(handles[rest], x, at, x.len)
    {
      rest := CloneRange(b, at, handles[b].len);
      ghost var s := S();
      CutTo(b, at);
      JoinsStill(old(S()), s, b, rest, S());
      Kept(s, S(), {b}, rest);
      Chain(old(S()), s, S(), b);
    }

    /** `self.len = at` on a handle in its shared form */
    method CutTo(b: nat, at: nat)
      requires Valid() && IsFrozen(S(), b) && handles[b].Window? && !handles[b].rep.Direct() && at <= handles[b].len
      modifies this`handles
      ensures Valid() && IsFrozen(S(), b) && Untouched(old(S()), S(), {b})
      ensures handles == old(handles)[b := Part(old(handles)[b], 0, at)]
      ensures |old(Contents(S(), b))| == old(handles)[b].len && Contents(S(), b) == old(Contents(S(), b))[..at]
    {
      Look();
      HandleFacts(S(), b);
      NarrowedKeeps(S(), b, 0, at);
      NarrowedContents(S(), b, 0, at);
      NarrowCore(b, 0, at);
    }

    method SplitToInside(b: nat, at: nat) returns (first: nat)
      requires Valid() && IsFrozen(S(), b) && handles[b].Window? && at <= handles[b].len == |Contents(S(), b)|
      modifies this
      ensures Valid() && IsFrozen(S(), b) && IsFrozen(S(), first) && first !in old(handles) && Untouched(old(S()), S(), {b})
      ensures Contents(S(), first) == old(Contents(S(), b))[..at] && Contents(S(), b) == old(Contents(S(), b))[at..]
      ensures Joins(old(S()), S(), b, first)
      ensures var x := old(handles)[b]; Shows(handles[first], x, 0, at) && Shows(handles[b], x, at, x.len)
    {
      first := CloneRange(b, 0, at);
      ghost var s := S();
      IncStart(b, at);
      JoinsStill(old(S()), s, b, first, S());
      Kept(s, S(), {b}, first);
      Chain(old(S()), s, S(), b);
    }

    /** `split_to` of a `Bytes`: `first` is what is returned, `rest` what `self` holds afterwards. */
    method BytesSplitTo(b: nat, at: nat) returns (ok: bool, first: nat, rest: nat)
      requires Valid() && IsFrozen(S(), b)
      modifies this
      ensures Valid() && Untouched(old(S()), S(), {b})
      ensures ok <==> at <= |old(Contents(S(), b))|
      ensures !ok ==> S() == old(S())
      ensures ok ==> first != rest && IsFrozen(S(), first) && IsFrozen(S(), rest) && (first == b || first !in old(handles))
      ensures ok ==> rest == b || rest !in old(handles)
      ensures ok ==> Contents(S(), first) == old(Contents(S(), b))[..at] && Contents(S(), rest) == old(Contents(S(), b))[at..]
      ensures ok && at == |old(Contents(S(), b))| ==> first == b && handles[b] == old(handles)[b] && handles[rest].Empty?
      ensures ok && at == 0 < |old(Contents(S(), b))| ==> rest == b && handles[b] == old(handles)[b] && handles[first].Empty?
      ensures var x := old(handles)[b];
              0 < at < |old(Contents(S(), b))| ==>
                rest == b && Joins(old(S()), S(), b, first)
                && Shows(handles[first], x, 0, at) && Shows(handles[rest], x, at, x.len)
      ensures allocs == old(allocs) && frees == old(frees)
    {
      var len := LenOf(b);
      ok, first, rest := at <= len, b, b;
      if at == len {
        rest := EmptyBeside(b);
      } else if at == 0 {
        first := EmptyBeside(b);
      } else if ok {
        first := SplitToInside(b, at);
      }
    }

    /** `truncate` of a `Bytes`: a promotable one is split, and the part cut off is dropped. */
    method BytesTruncate(b: nat, len: nat) returns (kept: nat)
      requires Valid() && IsFrozen(S(), b)
      modifies this
      ensures Valid() && Untouched(old(S()), S(), {b}) && (kept == b || kept !in old(handles)) && IsFrozen(S(), kept)
      ensures Contents(S(), kept) == old(Contents(S(), b))[..Min(len, |old(Contents(S(), b))|)] && allocs == old(allocs)
      ensures handles[kept].Window? ==> Resized(old(S()), S(), b, kept)
    {
      kept := b;
      var was := LenOf(b);
      if len < was {
        if handles[b].rep.Promotable? || handles[b].rep.PromotableArc? {
          kept := TruncatePromotable(b, len);
        } else {
          CutTo(b, len);
        }
      }
    }

    method TruncatePromotable(b: nat, len: nat) returns (kept: nat)
      requires Valid() && IsFrozen(S(), b) && len < |Contents(S(), b)|
      modifies this
      ensures Valid() && Untouched(old(S()), S(), {b}) && (kept == b || kept !in old(handles)) && IsFrozen(S(), kept)
      ensures Contents(S(), kept) == old(Contents(S(), b))[..len] && allocs == old(allocs)
      ensures handles[kept].Window? ==> Resized(old(S()), S(), b, kept)
    {
      var ok, first, rest := BytesSplitOff(b, len);
      ghost var s := S();
      kept := first;
      Drop(rest);
      if len > 0 { LeavesAgain(old(S()), s, b, rest); }
      Kept(s, S(), {rest}, first);
      if handles[first].Window? { Facts(first); }
      UntouchedTrans(old(S()), s, S(), {b}, {rest});
      if rest == b {
        assert {b} + {rest} == {b};
      } else {
        UntouchedFresh(old(S()), S(), {b}, rest);
      }
    }

    /** `is_unique`: true means that no other handle shows any byte of the same allocation. */
    method IsUnique(b: nat) returns (u: bool)
      requires Valid() && IsFrozen(S(), b)
      ensures u <==> Unique(S(), handles[b])
      ensures u ==> Sole(S(), b)
    {
      Look();
      var x := handles[b];
      if x.Empty? {
        return false;
      }
      HandleFacts(S(), b);
      u := x.rep.Direct() || shareds[x.rep.sid].refCnt == 1;
      if u { UniqueMeansSole(S(), b); }
    }

    /** `Vec::from` for `BytesMut` and `Bytes`: the same bytes, at the front of a vector. */
    method ToVec(h: nat)
      requires Valid() && h in handles
      modifies this
      ensures Valid() && IsVec(S(), h) && Untouched(old(S()), S(), {h})
      ensures Contents(S(), h) == old(Contents(S(), h)) && handles.Keys == old(handles.Keys)
      ensures Unique(old(S()), old(handles)[h]) ==> InPlace(old(S()), S(), h)
    {
      if handles[h].Empty? {
        var grant := FreshBytes([], 0);
        LeaveFor(h, grant, 0);
      } else {
        Facts(h);
        var x := handles[h];
        var direct := x.rep.Direct();
        var alone := SharedAlone(h);
        if direct || alone {
          TakeVec(h);
        } else {
          var grant := CopyOf(h);
          LeaveFor(h, grant, x.len);
        }
      }
    }

    /** Whether a shared handle is the only one of its box. */
    method SharedAlone(h: nat) returns (alone: bool)
      requires Valid() && h in handles && handles[h].Window?
      ensures alone <==> !handles[h].rep.Direct() && Unique(S(), handles[h])
    {
      Look();
      HandleFacts(S(), h);
      alone := !handles[h].rep.Direct() && shareds[handles[h].rep.sid].refCnt == 1;
    }

    /** `to_vec` of the bytes of a handle */
    method CopyOf(h: nat) returns (grant: seq<Byte>)
      requires Valid() && h in handles && handles[h].Window? && InBounds(S(), handles[h])
      ensures handles[h].len <= |grant| <= IsizeMax(bits) && grant[..handles[h].len] == Contents(S(), h)
    {
      Look();
      var x := handles[h];
      HandleFacts(S(), h);
      assert WfBlock(S(), x.buf);
      grant := FreshBytes(mem[x.buf].bytes[x.off..x.off + x.len], x.len);
    }

    /** The handle releases what it had and becomes a vector of its own over `grant`. */
    method LeaveFor(h: nat, grant: seq<Byte>, len: nat)
      requires Valid() && h in handles && len <= |grant| <= IsizeMax(bits)
      modifies this
      ensures Valid() && IsVec(S(), h) && Untouched(old(S()), S(), {h})
      ensures Contents(S(), h) == grant[..len] && handles.Keys == old(handles.Keys)
    {
      Look();
      DepartKeeps(S(), h, grant, len);
      assert h < next;
      Drop(h);
      AllocFor(h, grant, len);
    }

    /** The vector behind a handle that has its allocation to itself, with the contents copied to its front. */
    method TakeVec(h: nat)
      requires Valid() && h in handles && InBounds(S(), handles[h]) && Unique(S(), handles[h])
      modifies this
      ensures Valid() && IsVec(S(), h) && Untouched(old(S()), S(), {h})
      ensures Contents(S(), h) == old(Contents(S(), h)) && handles.Keys == old(handles.Keys)
      ensures InPlace(old(S()), S(), h)
    {
      Look();
      TakeReady(S(), h);
      ghost var grant := TakeKeeps(S(), h);
      TakeVecCore(h);
    }

    method TakeVecCore(h: nat)
      requires Convertible(S(), h) && Unique(S(), handles[h]) && CanTake(S(), h)
      modifies this
      ensures forall grant :: S() == IntoVec(old(S()), h, grant)
      ensures handles.Keys == old(handles.Keys)
    {
      var x := handles[h];
      CopyToFront(x);
      var cap;
      if x.rep.OwnedVec? {
        cap := x.cap;
      } else if x.rep.MutVec? {
        cap := x.cap + x.rep.word.pos;
      } else if x.rep.Promotable? {
        cap := x.off + x.len;
      } else {
        // the box goes away without its destructor; its vector is ours
        cap := shareds[x.rep.sid].cap;
        shareds := shareds - {x.rep.sid};
        mem := mem[x.buf := mem[x.buf].(owner := ByHandle(h))];
      }
      handles := handles[h := Window(x.buf, 0, x.len, cap, OwnedVec)];
    }

    /** `BytesMut::from(bytes)` */
    method ToMut(b: nat)
      requires Valid() && IsFrozen(S(), b)
      modifies this
      ensures Valid() && IsMut(S(), b) && Untouched(old(S()), S(), {b})
      ensures Contents(S(), b) == old(Contents(S(), b)) && handles.Keys == old(handles.Keys)
      ensures Unique(old(S()), old(handles)[b]) ==> InPlace(old(S()), S(), b) && handles[b].off == old(handles)[b].off
    {
      var shared := handles[b].Window? && !handles[b].rep.Direct();
      var alone := false;
      if handles[b].Window? { Facts(b); alone := SharedAlone(b); }
      if handles[b].Empty? || (shared && !alone) {
        CopyToMut(b);
      } else if handles[b].rep.SharedVArc? {
        Thaw(b);
      } else {
        VecToMut(b);
      }
    }

    /** Static bytes and bytes still shared are copied. */
    method CopyToMut(b: nat)
      requires Valid() && IsFrozen(S(), b) && (handles[b].Window? ==> !handles[b].rep.Direct() && !Unique(S(), handles[b]))
      modifies this
      ensures Valid() && IsMut(S(), b) && Untouched(old(S()), S(), {b})
      ensures Contents(S(), b) == old(Contents(S(), b)) && handles.Keys == old(handles.Keys)
    {
      ToVec(b);
      ghost var s := S();
      ToBytesMut(b);
      Chain(old(S()), s, S(), b);
    }

    /** `shared_v_to_mut` when the box is not shared any more */
    method Thaw(b: nat)
      requires Valid() && IsFrozen(S(), b) && Convertible(S(), b) && handles[b].rep.SharedVArc? && Unique(S(), handles[b])
      modifies this`handles
      ensures Valid() && IsMut(S(), b) && Untouched(old(S()), S(), {b})
      ensures Contents(S(), b) == old(Contents(S(), b)) && handles.Keys == old(handles.Keys)
      ensures InPlace(old(S()), S(), b) && handles[b].off == old(handles)[b].off
    {
      Look();
      RebuiltSize(S(), b);
      ThawedKeeps(S(), b);
      ThawedLayout(S(), b);
      ThawCore(b);
    }

    method ThawCore(b: nat)
      requires Convertible(S(), b) && handles[b].rep.SharedVArc? && handles[b].rep.sid in shareds
      requires shareds[handles[b].rep.sid].cap == |mem[handles[b].buf].bytes|
      modifies this`handles
      ensures S() == SetHandle(old(S()), b, ToTheEnd(old(S()), b))
    {
      var x := handles[b];
      handles := handles[b := x.(cap := shareds[x.rep.sid].cap - x.off, rep := MutArc(x.rep.sid))];
    }

    /** `promotable_to_mut` and `shared_to_mut_impl`: rebuild the vector, then skip to the old start. */
    method VecToMut(b: nat)
      requires Valid() && Convertible(S(), b) && Unique(S(), handles[b])
      requires handles[b].rep.Promotable? || handles[b].rep.PromotableArc? || handles[b].rep.SharedArc?
      modifies this
      ensures Valid() && IsMut(S(), b) && Untouched(old(S()), S(), {b})
      ensures Contents(S(), b) == old(Contents(S(), b)) && handles.Keys == old(handles.Keys)
      ensures InPlace(old(S()), S(), b) && handles[b].off == old(handles)[b].off
    {
      var off := handles[b].off;
      if handles[b].rep.Promotable? {
        RebuildVec(b);
      } else {
        Unbox(b);
      }
      ghost var s1 := S();
      ToBytesMut(b);
      ghost var s2 := S();
      var ok := Advance(b, off);
      Chain(old(S()), s1, s2, b);
      Chain(old(S()), s2, S(), b);
    }

    /** The box goes away without its destructor; its vector is ours, in use up to the end of the window. */
    method Unbox(b: nat)
      requires Valid() && Convertible(S(), b) && !handles[b].rep.Direct() && Unique(S(), handles[b])
      modifies this
      ensures Valid() && IsVec(S(), b) && Untouched(old(S()), S(), {b}) && handles.Keys == old(handles.Keys)
      ensures |Contents(S(), b)| == old(handles)[b].off + old(handles)[b].len
      ensures Contents(S(), b)[old(handles)[b].off..] == old(Contents(S(), b))
      ensures InPlace(old(S()), S(), b) && handles[b].off == 0
    {
      Look();
      UnboxedKeeps(S(), b);
      UnboxedTail(S(), b);
      RebuiltSize(S(), b);
      UnboxCore(b);
    }

    method UnboxCore(b: nat)
      requires Convertible(S(), b) && !handles[b].rep.Direct() && handles[b].rep.sid in shareds
      requires shareds[handles[b].rep.sid].cap == |mem[handles[b].buf].bytes|
      modifies this
      ensures S() == Unboxed(old(S()), b)
    {
      var x := handles[b];
      var cap := shareds[x.rep.sid].cap;
      shareds := shareds - {x.rep.sid};
      mem := mem[x.buf := mem[x.buf].(owner := ByHandle(b))];
      handles := handles[b := Window(x.buf, 0, x.off + x.len, cap, OwnedVec)];
    }

    /** `try_into_mut`: a `BytesMut` over the same bytes if nobody shares them, the same `Bytes` otherwise. */
    method TryIntoMut(b: nat) returns (ok: bool)
      requires Valid() && IsFrozen(S(), b)
      modifies this
      ensures Valid() && b in handles && Untouched(old(S()), S(), {b})
      ensures Contents(S(), b) == old(Contents(S(), b)) && handles.Keys == old(handles.Keys)
      ensures ok <==> Unique(old(S()), old(handles)[b])
      ensures if ok then IsMut(S(), b) && InPlace(old(S()), S(), b) else S() == old(S())
    {
      ok := IsUnique(b);
      if ok {
        ToMut(b);
      }
    }

    // ---------- runs ----------

    /** One operation of a program; it does nothing when the numbers do not name values of the right type. */
    method Perform(op: Op)
      requires Valid()
      modifies this
      ensures Valid()
    {
      match op {
        case Make(data, capacity) => var _, _ := MakeVec(data, capacity);
        case OnMut(h, c) => if h in handles && handles[h].Window? && handles[h].rep.Mutable() { PerformMut(h, c); }
        case OnBytes(b, c) => if b in handles && (handles[b].Window? ==> handles[b].rep.Frozen()) { PerformBytes(b, c); }
        case VecToBytesMut(v) => if IsOwned(v) { Facts(v); ToBytesMut(v); }
        case VecToBytes(v) => if IsOwned(v) { Facts(v); ToBytes(v); }
        case AnyToVec(h) => if h in handles { ToVec(h); }
        case AnyDrop(h) => if h in handles { Drop(h); }
        case Join(h, other) =>
          if h in handles && other in handles && h != other && handles[h].Window? && handles[other].Window?
             && handles[h].rep.Mutable() && handles[other].rep.Mutable()
          {
            Facts(h);
            Facts(other);
            var _, _ := Unsplit(h, other);
          }
      }
    }

    predicate IsOwned(v: nat)
      reads this
    {
      v in handles && handles[v].Window? && handles[v].rep.OwnedVec?
    }

    method PerformMut(h: nat, c: MutCall)
      requires Valid() && h in handles && handles[h].Window? && handles[h].rep.Mutable()
      modifies this
      ensures Valid()
    {
      Facts(h);
      match c {
        case SplitOff(at) => var _, _ := SplitOff(h, at);
        case SplitTo(at) => var _, _ := SplitTo(h, at);
        case Truncate(len) => Truncate(h, len);
        case Advance(cnt) => var _ := Advance(h, cnt);
        case Reserve(n) => var _ := Reserve(h, n);
        case TryReclaim(n) => var _ := TryReclaim(h, n);
        case Extend(data) => var _ := ExtendFromSlice(h, data);
        case Freeze => Freeze(h);
      }
    }

    method PerformBytes(b: nat, c: BytesCall)
      requires Valid() && b in handles && (handles[b].Window? ==> handles[b].rep.Frozen())
      modifies this
      ensures Valid()
    {
      if handles[b].Window? { Facts(b); }
      match c {
        case Clone => var _ := Clone(b);
        case Slice(begin, end) => var _, _ := Slice(b, begin, end);
        case SplitOffB(at) => var _, _, _ := BytesSplitOff(b, at);
        case SplitToB(at) => var _, _, _ := BytesSplitTo(b, at);
        case TruncateB(len) => var _ := BytesTruncate(b, len);
        case AdvanceB(cnt) => var _ := BytesAdvance(b, cnt);
        case IntoMut => ToMut(b);
        case TryIntoMut => var _ := TryIntoMut(b);
      }
    }

    /**
     * Any program that ends by dropping what it still holds: every allocation it ever made has been given back,
     * once, at its start and with its size.
     */
    method RunToTheEnd(ops: seq<Op>)
      requires Valid()
      modifies this
      ensures Valid() && handles == map[] && mem == map[] && shareds == map[]
      ensures forall b :: b in allocs ==> Dealloc(b, 0, allocs[b]) in frees
      ensures forall i, j :: 0 <= i < j < |frees| ==> frees[i].buf != frees[j].buf
    {
      for i := 0 to |ops|
        invariant Valid()
      {
        Perform(ops[i]);
      }
      while handles.Keys != {}
        invariant Valid()
        decreases handles.Keys
      {
        var h :| h in handles.Keys;
        Drop(h);
      }
      assert handles == map[];
      Look();
      NothingLeaks(S());
    }
  }

  datatype MutCall =
    | SplitOff(at: nat) | SplitTo(at: nat) | Truncate(len: nat) | Advance(cnt: nat)
    | Reserve(n: nat) | TryReclaim(n: nat) | Extend(data: seq<Byte>) | Freeze

  datatype BytesCall =
    | Clone | Slice(begin: nat, end: nat) | SplitOffB(at: nat) | SplitToB(at: nat)
    | TruncateB(len: nat) | AdvanceB(cnt: nat) | IntoMut | TryIntoMut

  datatype Op =
    | Make(data: seq<Byte>, capacity: nat)
    | OnMut(h: nat, mutCall: MutCall)
    | OnBytes(b: nat, bytesCall: BytesCall)
    | VecToBytesMut(v: nat) | VecToBytes(v: nat) | AnyToVec(h: nat) | AnyDrop(h: nat)
    | Join(h: nat, other: nat)
}
