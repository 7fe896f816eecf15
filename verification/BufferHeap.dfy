/**
 * The heap behind `Bytes` and `BytesMut`: allocations, reference-counted `Shared` boxes and the handles that
 * point at them, with the whole-heap invariant and the transitions that keep it.
 */
module BufferHeap {
  import opened Common
  import opened DataWord

  /** Who is responsible for giving an allocation back. */
  datatype Owner = ByHandle(hid: nat) | ByShared(sid: nat)

  datatype Block = Block(bytes: seq<Byte>, owner: Owner)

  /** The two `Shared` structs: one wraps a `Vec` (bytes_mut.rs), the other a raw buffer (bytes.rs). */
  datatype Origin = FromVec(repr: nat) | FromBox

  datatype Shared = Shared(buf: nat, cap: nat, refCnt: nat, origin: Origin)

  /** How a handle holds on to its allocation: the type, vtable and `data` word of the source. */
  datatype Rep =
    | OwnedVec                    // a plain Vec<u8>
    | MutVec(word: Word)          // BytesMut, KIND_VEC
    | MutArc(sid: nat)            // BytesMut, KIND_ARC
    | Promotable                  // Bytes, promotable vtable, KIND_VEC
    | PromotableArc(sid: nat)     // Bytes, promotable vtable, KIND_ARC
    | SharedArc(sid: nat)         // Bytes, SHARED_VTABLE of bytes.rs
    | SharedVArc(sid: nat)        // Bytes, SHARED_VTABLE of bytes_mut.rs
  {
    predicate Direct() { OwnedVec? || MutVec? || Promotable? }
    predicate Exclusive() { OwnedVec? || MutVec? || MutArc? }
    predicate Mutable() { MutVec? || MutArc? }
    predicate Frozen() { !Exclusive() }
  }

  /**
   * A live value: a window `[off, off + cap)` of one allocation whose first `len` bytes are readable.
   * `Bytes` has no capacity of its own; its window ends where its contents end. `Empty` is an empty static `Bytes`.
   */
  datatype Handle = Empty | Window(buf: nat, off: nat, len: nat, cap: nat, rep: Rep)

  /** Arguments of one deallocation. */
  datatype Dealloc = Dealloc(buf: nat, start: int, size: nat)

  /** `allocs` records the size of every allocation ever made, `frees` every deallocation. */
  datatype Heap = Heap(
    bits: nat,
    mem: map<nat, Block>,
    shareds: map<nat, Shared>,
    handles: map<nat, Handle>,
    allocs: map<nat, nat>,
    frees: seq<Dealloc>,
    next: nat)

  // ---------- the invariant ----------

  predicate Via(x: Handle, i: nat) {
    x.Window? && !x.rep.Direct() && x.rep.sid == i
  }

  predicate Direct(x: Handle) {
    x.Window? && x.rep.Direct()
  }

  predicate On(x: Handle, b: nat) {
    x.Window? && x.buf == b
  }

  ghost function RefSet(handles: map<nat, Handle>, i: nat): set<nat> {
    set k | k in handles && Via(handles[k], i)
  }

  /** The number of live handles that share box `i`. */
  ghost function Refs(handles: map<nat, Handle>, i: nat): nat {
    |RefSet(handles, i)|
  }

  /** The two windows have no byte in common. */
  predicate Apart(x: Handle, y: Handle)
    requires x.Window? && y.Window?
  {
    x.cap == 0 || y.cap == 0 || x.off + x.cap <= y.off || y.off + y.cap <= x.off
  }

  /** Windows on one allocation may overlap only when both are frozen. */
  predicate Separate(x: Handle, y: Handle) {
    x.Window? && y.Window? && x.buf == y.buf && (x.rep.Exclusive() || y.rep.Exclusive()) ==> Apart(x, y)
  }

  ghost predicate WfShape(bits: nat, size: nat, x: Handle) {
    && x.Window? && x.len <= x.cap && x.off + x.cap <= size
    && match x.rep
       case OwnedVec => x.off == 0 && x.cap == size
       case MutVec(w) => PtrWidth(bits) && Packable(bits, w) && w.pos == x.off && x.off + x.cap == size
       case MutArc(i) => true
       case Promotable => x.len == x.cap && x.off + x.len == size
       case _ => x.len == x.cap
  }

  /** The box a shared handle points at wraps the handle's own allocation, in the form its type expects. */
  ghost predicate WfLink(shareds: map<nat, Shared>, x: Handle) {
    && x.Window? && !x.rep.Direct() && x.rep.sid in shareds
    && shareds[x.rep.sid].buf == x.buf
    && (shareds[x.rep.sid].origin.FromVec? <==> x.rep.MutArc? || x.rep.SharedVArc?)
  }

  ghost predicate WfHandle(s: Heap, k: nat, x: Handle) {
    x.Window? ==>
      && x.buf in s.mem
      && WfShape(s.bits, |s.mem[x.buf].bytes|, x)
      && if x.rep.Direct() then s.mem[x.buf].owner == ByHandle(k) else WfLink(s.shareds, x)
  }

  ghost predicate WfShared(s: Heap, i: nat) {
    && i in s.shareds
    && s.shareds[i].buf in s.mem
    && s.mem[s.shareds[i].buf].owner == ByShared(i)
    && s.shareds[i].cap == |s.mem[s.shareds[i].buf].bytes|
    && s.shareds[i].refCnt == Refs(s.handles, i)
    && s.shareds[i].refCnt > 0
    && (s.shareds[i].origin.FromVec? ==> s.shareds[i].origin.repr <= MAX_REPR)
  }

  ghost predicate WfOwner(s: Heap, b: nat, owner: Owner) {
    match owner
    case ByHandle(k) => k in s.handles && Direct(s.handles[k]) && s.handles[k].buf == b
    case ByShared(i) => i in s.shareds && s.shareds[i].buf == b
  }

  ghost predicate WfBlock(s: Heap, b: nat) {
    && b in s.mem && PtrWidth(s.bits) && |s.mem[b].bytes| <= IsizeMax(s.bits)
    && b in s.allocs && s.allocs[b] == |s.mem[b].bytes|
    && WfOwner(s, b, s.mem[b].owner)
  }

  ghost predicate HandlesOk(s: Heap) {
    forall k :: k in s.handles ==> WfHandle(s, k, s.handles[k])
  }

  ghost predicate SharedsOk(s: Heap) {
    forall i :: i in s.shareds ==> WfShared(s, i)
  }

  ghost predicate BlocksOk(s: Heap) {
    forall b :: b in s.mem ==> WfBlock(s, b)
  }

  ghost predicate PairsOk(handles: map<nat, Handle>) {
    forall j, k :: j in handles && k in handles && j != k ==> Separate(handles[j], handles[k])
  }

  /** Every allocation is live or was given back once, with its own start and size. */
  ghost predicate Ledger(s: Heap) {
    && (forall d :: d in s.frees ==> d.buf in s.allocs && d.buf !in s.mem && d.start == 0 && d.size == s.allocs[d.buf])
    && (forall i, j :: 0 <= i < j < |s.frees| ==> s.frees[i].buf != s.frees[j].buf)
    && (forall b :: b in s.allocs && b !in s.mem ==> exists d :: d in s.frees && d.buf == b)
  }

  ghost predicate FreshAbove(s: Heap) {
    && (forall k :: k in s.handles ==> k < s.next)
    && (forall i :: i in s.shareds ==> i < s.next)
    && (forall b :: b in s.allocs ==> b < s.next)
  }

  ghost predicate Inv(s: Heap) {
    && PtrWidth(s.bits)
    && HandlesOk(s) && SharedsOk(s) && BlocksOk(s) && PairsOk(s.handles)
    && Ledger(s) && FreshAbove(s)
  }

  predicate InBounds(s: Heap, x: Handle) {
    x.Window? && x.buf in s.mem && x.off + x.len <= |s.mem[x.buf].bytes|
  }

  /** The readable bytes of a handle. */
  function View(s: Heap, x: Handle): (v: seq<Byte>)
    ensures InBounds(s, x) ==> |v| == x.len
  {
    if InBounds(s, x) then s.mem[x.buf].bytes[x.off..x.off + x.len] else []
  }

  /** A window shortened at either end shows the same part of its bytes. */
  lemma ViewPart(s: Heap, x: Handle, y: Handle)
    requires InBounds(s, x) && y.Window? && y.buf == x.buf && x.off <= y.off && y.off + y.len <= x.off + x.len
    ensures View(s, y) == View(s, x)[y.off - x.off..y.off - x.off + y.len]
  {
  }

  /** All handles outside `touched` are the same handles with the same bytes. */
  ghost predicate Untouched(s: Heap, t: Heap, touched: set<nat>) {
    forall k :: k in s.handles && k !in touched ==>
      k in t.handles && t.handles[k] == s.handles[k] && View(t, t.handles[k]) == View(s, s.handles[k])
  }

  /** Handles that keep their bounds over unchanged memory keep their bytes. */
  lemma SameMemory(s: Heap, t: Heap, touched: set<nat>)
    requires t.mem == s.mem
    requires forall k :: k in s.handles && k !in touched ==> k in t.handles && t.handles[k] == s.handles[k]
    ensures Untouched(s, t, touched)
  {
  }

  // ---------- counting ----------

  lemma {:induction false} RefsUpdate(handles: map<nat, Handle>, k: nat, x: Handle, i: nat)
    ensures Refs(handles[k := x], i) == Refs(handles, i)
            - (if k in handles && Via(handles[k], i) then 1 else 0) + (if Via(x, i) then 1 else 0)
  {
    var a, b := RefSet(handles, i), RefSet(handles[k := x], i);
    assert a - {k} == b - {k};
    assert |a - {k}| == |a| - (if k in a then 1 else 0);
    assert |b - {k}| == |b| - (if k in b then 1 else 0);
  }

  lemma {:induction false} RefsRemove(handles: map<nat, Handle>, k: nat, i: nat)
    requires k in handles
    ensures Refs(handles - {k}, i) == Refs(handles, i) - (if Via(handles[k], i) then 1 else 0)
  {
    var a, b := RefSet(handles, i), RefSet(handles - {k}, i);
    assert b == a - {k};
    if k in a { assert a == b + {k}; }
  }

  /** A count of one means there is no other handle. */
  lemma {:induction false} SoleRef(handles: map<nat, Handle>, k: nat, i: nat)
    requires k in handles && Via(handles[k], i) && Refs(handles, i) == 1
    ensures forall j :: j in handles && j != k ==> !Via(handles[j], i)
  {
    var a := RefSet(handles, i);
    assert k in a;
    assert a - {k} == {} by { assert |a - {k}| == |a| - 1; }
    assert forall j :: j in handles && Via(handles[j], i) ==> j in a;
  }

  /** The handle is the only one on its allocation. */
  ghost predicate Sole(s: Heap, k: nat) {
    k in s.handles && s.handles[k].Window? &&
    forall j :: j in s.handles && j != k ==> !On(s.handles[j], s.handles[k].buf)
  }

  /** Every handle on an allocation agrees with its owner. */
  lemma OwnerDecides(s: Heap, j: nat, b: nat)
    requires Inv(s) && j in s.handles && On(s.handles[j], b)
    ensures b in s.mem
    ensures s.mem[b].owner == if Direct(s.handles[j]) then ByHandle(j) else ByShared(s.handles[j].rep.sid)
  {
    assert WfHandle(s, j, s.handles[j]);
    if !Direct(s.handles[j]) { assert WfShared(s, s.handles[j].rep.sid); }
  }

  predicate Unique(s: Heap, x: Handle) {
    x.Window? && (!x.rep.Direct() ==> x.rep.sid in s.shareds && s.shareds[x.rep.sid].refCnt == 1)
  }

  /** What `is_unique` learns: a direct handle, or a shared one whose count is one, has its allocation to itself. */
  lemma {:induction false} UniqueMeansSole(s: Heap, k: nat)
    requires Inv(s) && k in s.handles && Unique(s, s.handles[k])
    ensures Sole(s, k)
  {
    var x := s.handles[k];
    OwnerDecides(s, k, x.buf);
    if !x.rep.Direct() {
      assert WfShared(s, x.rep.sid);
      SoleRef(s.handles, k, x.rep.sid);
    }
    forall j | j in s.handles && On(s.handles[j], x.buf) ensures j == k {
      OwnerDecides(s, j, x.buf);
    }
  }

  // ---------- transitions ----------

  function SetHandle(s: Heap, k: nat, x: Handle): Heap {
    s.(handles := s.handles[k := x])
  }

  ghost predicate SameLink(x: Handle, y: Handle) {
    x.Window? && y.Window? && x.buf == y.buf &&
    (x.rep.Direct() <==> y.rep.Direct()) && (!x.rep.Direct() ==> x.rep.sid == y.rep.sid)
  }

  ghost predicate ClearOfOthers(handles: map<nat, Handle>, k: nat, x: Handle) {
    forall j :: j in handles && j != k ==> Separate(handles[j], x)
  }

  lemma PairsReplace(handles: map<nat, Handle>, k: nat, x: Handle)
    requires PairsOk(handles) && ClearOfOthers(handles, k, x)
    ensures PairsOk(handles[k := x])
  {
    var after := handles[k := x];
    forall i, j | i in after && j in after && i != j ensures Separate(after[i], after[j]) {
      if i != k && j != k { assert Separate(handles[i], handles[j]); }
    }
  }

  lemma PairsRemove(handles: map<nat, Handle>, k: nat)
    requires PairsOk(handles)
    ensures PairsOk(handles - {k})
  {
    var after := handles - {k};
    forall i, j | i in after && j in after && i != j ensures Separate(after[i], after[j]) {
      assert Separate(handles[i], handles[j]);
    }
  }

  ghost predicate NoneOn(handles: map<nat, Handle>, b: nat) {
    forall j :: j in handles ==> !On(handles[j], b)
  }

  lemma SoleIsClear(s: Heap, k: nat, x: Handle)
    requires Sole(s, k) && x.Window? && (x.buf == s.handles[k].buf || NoneOn(s.handles, x.buf))
    ensures ClearOfOthers(s.handles, k, x)
  {
    forall j | j in s.handles && j != k ensures Separate(s.handles[j], x) {
      assert !On(s.handles[j], x.buf);
    }
  }

  /** Nothing points at an allocation that does not exist yet. */
  lemma NewIsClear(s: Heap, x: Handle)
    requires Inv(s) && x.Window? && s.next <= x.buf
    ensures x.buf !in s.mem && NoneOn(s.handles, x.buf)
  {
    assert forall c :: c in s.mem ==> WfBlock(s, c) && c < s.next;
    forall j | j in s.handles ensures !On(s.handles[j], x.buf) {
      assert WfHandle(s, j, s.handles[j]);
    }
  }

  lemma SharedsSurvive(s: Heap, k: nat, x: Handle)
    requires SharedsOk(s) && k in s.handles && SameLink(s.handles[k], x)
    ensures SharedsOk(SetHandle(s, k, x))
  {
    var t := SetHandle(s, k, x);
    forall i | i in t.shareds ensures WfShared(t, i) {
      assert WfShared(s, i);
      RefsUpdate(s.handles, k, x, i);
    }
  }

  lemma BlocksSurvive(s: Heap, k: nat, x: Handle)
    requires BlocksOk(s) && k in s.handles && SameLink(s.handles[k], x)
    ensures BlocksOk(SetHandle(s, k, x))
  {
    forall b | b in s.mem ensures WfBlock(SetHandle(s, k, x), b) { assert WfBlock(s, b); }
  }

  lemma RestSurvives(s: Heap, k: nat, x: Handle)
    requires Inv(s) && k in s.handles && SameLink(s.handles[k], x) && WfHandle(s, k, x)
    requires ClearOfOthers(s.handles, k, x)
    ensures var t := SetHandle(s, k, x); HandlesOk(t) && PairsOk(t.handles) && FreshAbove(t) && Ledger(t)
  {
    var t := SetHandle(s, k, x);
    PairsReplace(s.handles, k, x);
    forall j | j in t.handles ensures WfHandle(t, j, t.handles[j]) {
      if j != k { assert WfHandle(s, j, s.handles[j]); }
    }
  }

  /** Moving the bounds (or the type) of one handle keeps the invariant if it stays clear of all others. */
  lemma {:induction false} RewindowKeeps(s: Heap, k: nat, x: Handle)
    requires Inv(s) && k in s.handles && SameLink(s.handles[k], x) && WfHandle(s, k, x)
    requires ClearOfOthers(s.handles, k, x)
    ensures Inv(SetHandle(s, k, x))
    ensures Untouched(s, SetHandle(s, k, x), {k})
  {
    SharedsSurvive(s, k, x);
    BlocksSurvive(s, k, x);
    RestSurvives(s, k, x);
    SameMemory(s, SetHandle(s, k, x), {k});
  }

  /** A smaller window is still clear of the others. */
  predicate Within(x: Handle, y: Handle) {
    x.Window? && y.Window? && x.buf == y.buf && y.off <= x.off && x.off + x.cap <= y.off + y.cap &&
    (x.rep.Exclusive() ==> y.rep.Exclusive())
  }

  lemma WithinIsClear(handles: map<nat, Handle>, k: nat, x: Handle)
    requires PairsOk(handles) && k in handles && Within(x, handles[k])
    ensures ClearOfOthers(handles, k, x)
  {
    forall j | j in handles && j != k ensures Separate(handles[j], x) {
      assert Separate(handles[j], handles[k]);
    }
  }

  lemma ShrinkKeeps(s: Heap, k: nat, x: Handle)
    requires Inv(s) && k in s.handles && SameLink(s.handles[k], x) && Within(x, s.handles[k]) && WfHandle(s, k, x)
    ensures Inv(SetHandle(s, k, x))
    ensures Untouched(s, SetHandle(s, k, x), {k})
  {
    WithinIsClear(s.handles, k, x);
    RewindowKeeps(s, k, x);
  }

  function Bump(s: Heap, i: nat, step: int): Heap
    requires i in s.shareds && s.shareds[i].refCnt + step >= 0
  {
    s.(shareds := s.shareds[i := s.shareds[i].(refCnt := s.shareds[i].refCnt + step)])
  }

  /** A shared handle has been duplicated and both copies have been given windows. */
  function Fork(s: Heap, k: nat, x: Handle, n: nat, y: Handle): Heap
    requires y.Window? && !y.rep.Direct() && y.rep.sid in s.shareds
  {
    var t := Bump(s, y.rep.sid, 1);
    t.(handles := t.handles[k := x][n := y], next := if n < t.next then t.next else n + 1)
  }

  ghost predicate CanFork(s: Heap, k: nat, x: Handle, n: nat, y: Handle) {
    && Inv(s) && k in s.handles && n !in s.handles
    && SameLink(s.handles[k], x) && SameLink(s.handles[k], y) && !y.rep.Direct()
    && Within(x, s.handles[k]) && Within(y, s.handles[k]) && Separate(x, y)
    && WfHandle(s, k, x) && WfHandle(s, n, y)
  }

  lemma {:induction false} ForkShareds(s: Heap, k: nat, x: Handle, n: nat, y: Handle)
    requires CanFork(s, k, x, n, y)
    ensures SharedsOk(Fork(s, k, x, n, y))
  {
    var t := Fork(s, k, x, n, y);
    forall i | i in t.shareds ensures WfShared(t, i) {
      assert WfShared(s, i);
      RefsUpdate(s.handles, k, x, i);
      RefsUpdate(s.handles[k := x], n, y, i);
    }
  }

  lemma {:induction false} ForkBlocks(s: Heap, k: nat, x: Handle, n: nat, y: Handle)
    requires CanFork(s, k, x, n, y)
    ensures BlocksOk(Fork(s, k, x, n, y)) && HandlesOk(Fork(s, k, x, n, y))
  {
    var t := Fork(s, k, x, n, y);
    forall b | b in t.mem ensures WfBlock(t, b) { assert WfBlock(s, b); }
    forall j | j in t.handles ensures WfHandle(t, j, t.handles[j]) {
      if j != k && j != n { assert WfHandle(s, j, s.handles[j]); }
    }
  }

  lemma {:induction false} ForkPairs(handles: map<nat, Handle>, k: nat, x: Handle, n: nat, y: Handle)
    requires PairsOk(handles) && k in handles && n !in handles
    requires Within(x, handles[k]) && Within(y, handles[k]) && Separate(x, y)
    ensures PairsOk(handles[k := x][n := y])
  {
    WithinIsClear(handles, k, x);
    WithinIsClear(handles, k, y);
    PairsReplace(handles, k, x);
    PairsReplace(handles[k := x], n, y);
  }

  lemma ForkRest(s: Heap, k: nat, x: Handle, n: nat, y: Handle)
    requires CanFork(s, k, x, n, y)
    ensures PairsOk(Fork(s, k, x, n, y).handles) && FreshAbove(Fork(s, k, x, n, y)) && Ledger(Fork(s, k, x, n, y))
  {
    ForkPairs(s.handles, k, x, n, y);
  }

  lemma ForkUntouched(s: Heap, k: nat, x: Handle, n: nat, y: Handle)
    requires CanFork(s, k, x, n, y)
    ensures Untouched(s, Fork(s, k, x, n, y), {k})
  {
    SameMemory(s, Fork(s, k, x, n, y), {k});
  }

  lemma {:induction false} ForkKeeps(s: Heap, k: nat, x: Handle, n: nat, y: Handle)
    requires CanFork(s, k, x, n, y)
    ensures Inv(Fork(s, k, x, n, y))
    ensures Untouched(s, Fork(s, k, x, n, y), {k})
  {
    ForkShareds(s, k, x, n, y);
    ForkBlocks(s, k, x, n, y);
    ForkRest(s, k, x, n, y);
    ForkUntouched(s, k, x, n, y);
  }

  /** A direct handle moves its allocation into a new `Shared` box with a count of one. */
  function Promote(s: Heap, k: nat, x: Handle, i: nat, origin: Origin): Heap
    requires x.Window? && x.buf in s.mem
  {
    s.(mem := s.mem[x.buf := s.mem[x.buf].(owner := ByShared(i))],
       shareds := s.shareds[i := Shared(x.buf, |s.mem[x.buf].bytes|, 1, origin)],
       handles := s.handles[k := x],
       next := if i < s.next then s.next else i + 1)
  }

  ghost predicate CanPromote(s: Heap, k: nat, x: Handle, i: nat, origin: Origin) {
    && Inv(s) && k in s.handles && Direct(s.handles[k]) && Via(x, i) && x.buf == s.handles[k].buf
    && i !in s.shareds && (origin.FromVec? ==> origin.repr <= MAX_REPR)
    && (origin.FromVec? <==> x.rep.MutArc? || x.rep.SharedVArc?)
    && x.buf in s.mem && WfShape(s.bits, |s.mem[x.buf].bytes|, x)
  }

  lemma {:induction false} PromoteShareds(s: Heap, k: nat, x: Handle, i: nat, origin: Origin)
    requires CanPromote(s, k, x, i, origin)
    ensures SharedsOk(Promote(s, k, x, i, origin))
  {
    var t := Promote(s, k, x, i, origin);
    assert RefSet(s.handles, i) == {} by {
      forall j | j in s.handles ensures !Via(s.handles[j], i) { assert WfHandle(s, j, s.handles[j]); }
    }
    OwnerDecides(s, k, x.buf);
    forall m | m in t.shareds ensures WfShared(t, m) {
      RefsUpdate(s.handles, k, x, m);
      if m != i { assert WfShared(s, m); }
    }
  }

  lemma {:induction false} PromoteBlocks(s: Heap, k: nat, x: Handle, i: nat, origin: Origin)
    requires CanPromote(s, k, x, i, origin)
    ensures BlocksOk(Promote(s, k, x, i, origin))
  {
    var t := Promote(s, k, x, i, origin);
    OwnerDecides(s, k, x.buf);
    forall b | b in t.mem ensures WfBlock(t, b) { assert WfBlock(s, b); }
  }

  lemma {:induction false} PromoteHandles(s: Heap, k: nat, x: Handle, i: nat, origin: Origin)
    requires CanPromote(s, k, x, i, origin)
    ensures HandlesOk(Promote(s, k, x, i, origin))
  {
    var t := Promote(s, k, x, i, origin);
    UniqueMeansSole(s, k);
    OwnerDecides(s, k, x.buf);
    forall j | j in t.handles ensures WfHandle(t, j, t.handles[j]) {
      if j != k { assert WfHandle(s, j, s.handles[j]); }
    }
  }

  lemma PromoteRest(s: Heap, k: nat, x: Handle, i: nat, origin: Origin)
    requires CanPromote(s, k, x, i, origin)
    ensures var t := Promote(s, k, x, i, origin); PairsOk(t.handles) && FreshAbove(t) && Ledger(t)
  {
    UniqueMeansSole(s, k);
    SoleIsClear(s, k, x);
    PairsReplace(s.handles, k, x);
  }

  lemma PromoteUntouched(s: Heap, k: nat, x: Handle, i: nat, origin: Origin)
    requires CanPromote(s, k, x, i, origin)
    ensures Untouched(s, Promote(s, k, x, i, origin), {k})
  {
  }

  lemma {:induction false} PromoteKeeps(s: Heap, k: nat, x: Handle, i: nat, origin: Origin)
    requires CanPromote(s, k, x, i, origin)
    ensures Inv(Promote(s, k, x, i, origin))
    ensures Untouched(s, Promote(s, k, x, i, origin), {k})
  {
    PromoteShareds(s, k, x, i, origin);
    PromoteBlocks(s, k, x, i, origin);
    PromoteHandles(s, k, x, i, origin);
    PromoteRest(s, k, x, i, origin);
    PromoteUntouched(s, k, x, i, origin);
  }

  /** The last user of a `Shared` box takes the allocation out of it and drops the box. */
  function Adopt(s: Heap, k: nat, x: Handle, i: nat): Heap
    requires x.Window? && x.buf in s.mem
  {
    s.(mem := s.mem[x.buf := s.mem[x.buf].(owner := ByHandle(k))],
       shareds := s.shareds - {i},
       handles := s.handles[k := x])
  }

  ghost predicate CanAdopt(s: Heap, k: nat, x: Handle, i: nat) {
    && Inv(s) && k in s.handles && Via(s.handles[k], i) && Unique(s, s.handles[k])
    && Direct(x) && x.buf == s.handles[k].buf
    && x.buf in s.mem && WfShape(s.bits, |s.mem[x.buf].bytes|, x)
  }

  lemma {:induction false} AdoptParts(s: Heap, k: nat, x: Handle, i: nat)
    requires CanAdopt(s, k, x, i)
    ensures SharedsOk(Adopt(s, k, x, i)) && BlocksOk(Adopt(s, k, x, i))
  {
    var t := Adopt(s, k, x, i);
    assert WfShared(s, i);
    OwnerDecides(s, k, x.buf);
    forall m | m in t.shareds ensures WfShared(t, m) {
      assert WfShared(s, m);
      RefsUpdate(s.handles, k, x, m);
    }
    forall b | b in t.mem ensures WfBlock(t, b) { assert WfBlock(s, b); }
  }

  lemma {:induction false} AdoptHandles(s: Heap, k: nat, x: Handle, i: nat)
    requires CanAdopt(s, k, x, i)
    ensures HandlesOk(Adopt(s, k, x, i))
  {
    var t := Adopt(s, k, x, i);
    UniqueMeansSole(s, k);
    assert WfShared(s, i);
    SoleRef(s.handles, k, i);
    forall j | j in t.handles ensures WfHandle(t, j, t.handles[j]) {
      if j != k { assert WfHandle(s, j, s.handles[j]); }
    }
  }

  lemma AdoptRest(s: Heap, k: nat, x: Handle, i: nat)
    requires CanAdopt(s, k, x, i)
    ensures var t := Adopt(s, k, x, i); PairsOk(t.handles) && FreshAbove(t) && Ledger(t)
  {
    UniqueMeansSole(s, k);
    SoleIsClear(s, k, x);
    PairsReplace(s.handles, k, x);
  }

  lemma AdoptUntouched(s: Heap, k: nat, x: Handle, i: nat)
    requires CanAdopt(s, k, x, i)
    ensures Untouched(s, Adopt(s, k, x, i), {k})
  {
    UniqueMeansSole(s, k);
    AdoptFrame(s, k, x, i);
  }

  lemma AdoptFrame(s: Heap, k: nat, x: Handle, i: nat)
    requires Sole(s, k) && x.Window? && x.buf == s.handles[k].buf && x.buf in s.mem
    ensures Untouched(s, Adopt(s, k, x, i), {k})
  {
  }

  lemma {:induction false} AdoptKeeps(s: Heap, k: nat, x: Handle, i: nat)
    requires CanAdopt(s, k, x, i)
    ensures Inv(Adopt(s, k, x, i))
    ensures Untouched(s, Adopt(s, k, x, i), {k})
  {
    AdoptParts(s, k, x, i);
    AdoptHandles(s, k, x, i);
    AdoptRest(s, k, x, i);
    AdoptUntouched(s, k, x, i);
  }

  function Free(s: Heap, b: nat, start: int, size: nat): Heap {
    s.(mem := s.mem - {b}, frees := s.frees + [Dealloc(b, start, size)])
  }

  /** Dropping a handle: the last one on an allocation gives it back. */
  function Release(s: Heap, k: nat): (t: Heap)
    requires k in s.handles
    ensures t.handles == s.handles - {k} && t.shareds.Keys <= s.shareds.Keys
    ensures t.bits == s.bits && t.next == s.next && t.allocs == s.allocs
  {
    var x := s.handles[k];
    var t := s.(handles := s.handles - {k});
    if x.Empty? then t
    else if x.rep.Direct() then (if x.buf in s.mem then Free(t, x.buf, 0, |s.mem[x.buf].bytes|) else t)
    else if x.rep.sid !in s.shareds then t
    else if s.shareds[x.rep.sid].refCnt == 1 then
      Free(t.(shareds := s.shareds - {x.rep.sid}), x.buf, 0, s.shareds[x.rep.sid].cap)
    else if s.shareds[x.rep.sid].refCnt > 1 then Bump(t, x.rep.sid, -1)
    else t
  }

  /** The arguments each kind of handle rebuilds for the deallocator are the true start and size. */
  lemma RebuiltSize(s: Heap, k: nat)
    requires Inv(s) && k in s.handles && s.handles[k].Window?
    ensures s.handles[k].buf in s.mem
    ensures var x := s.handles[k]; var size := |s.mem[x.buf].bytes|;
            match x.rep
            case OwnedVec => x.cap == size
            case MutVec(w) => x.off - w.pos == 0 && x.cap + w.pos == size
            case Promotable => x.off + x.len == size
            case _ => x.rep.sid in s.shareds && s.shareds[x.rep.sid].buf == x.buf
                      && s.shareds[x.rep.sid].refCnt > 0 && s.shareds[x.rep.sid].cap == size
  {
    var x := s.handles[k];
    assert WfHandle(s, k, x);
    if !x.rep.Direct() { assert WfShared(s, x.rep.sid); }
  }

  lemma {:induction false} FreeLedger(s: Heap, t: Heap, b: nat)
    requires Ledger(s) && b in s.mem && b in s.allocs
    requires t.mem.Keys == s.mem.Keys - {b} && t.allocs == s.allocs
    requires t.frees == s.frees + [Dealloc(b, 0, s.allocs[b])]
    ensures Ledger(t)
  {
    assert t.frees[|s.frees|] == Dealloc(b, 0, s.allocs[b]);
    forall c | c in t.allocs && c !in t.mem ensures exists d :: d in t.frees && d.buf == c {
      if c != b {
        var d :| d in s.frees && d.buf == c;
        assert d in t.frees;
      }
    }
  }

  lemma {:induction false} ReleaseBox(s: Heap, k: nat, i: nat)
    requires k in s.handles && WfHandle(s, k, s.handles[k]) && WfShared(s, i) && i in Release(s, k).shareds
    requires s.handles[k].Window? && !s.handles[k].rep.Direct() ==> WfShared(s, s.handles[k].rep.sid)
    ensures WfShared(Release(s, k), i)
  {
    var x := s.handles[k];
    RefsRemove(s.handles, k, i);
    if x.Window? {
      if Direct(x) {
        assert s.shareds[i].buf != x.buf;
      } else if i != x.rep.sid {
        assert s.shareds[i].buf != x.buf;
      }
    }
  }

  lemma ReleaseShareds(s: Heap, k: nat)
    requires Inv(s) && k in s.handles
    ensures SharedsOk(Release(s, k))
  {
    assert WfHandle(s, k, s.handles[k]);
    forall i | i in Release(s, k).shareds ensures WfShared(Release(s, k), i) {
      assert WfShared(s, i);
      ReleaseBox(s, k, i);
    }
  }

  lemma {:induction false} ReleaseBlocks(s: Heap, k: nat)
    requires Inv(s) && k in s.handles
    ensures BlocksOk(Release(s, k))
  {
    var x, t := s.handles[k], Release(s, k);
    assert WfHandle(s, k, x);
    if x.Window? {
      OwnerDecides(s, k, x.buf);
      if !x.rep.Direct() { assert WfShared(s, x.rep.sid); }
    }
    forall b | b in t.mem ensures WfBlock(t, b) { ReleaseBlock(s, k, b); }
  }

  /** An allocation that is still there is owned as before. */
  lemma ReleaseBlock(s: Heap, k: nat, b: nat)
    requires BlocksOk(s) && k in s.handles && WfHandle(s, k, s.handles[k]) && b in Release(s, k).mem
    requires var x := s.handles[k];
             x.Window? ==> s.mem[x.buf].owner == (if x.rep.Direct() then ByHandle(k) else ByShared(x.rep.sid)) &&
                           (!x.rep.Direct() ==> WfShared(s, x.rep.sid))
    ensures WfBlock(Release(s, k), b)
  {
    assert b in s.mem && Release(s, k).mem[b] == s.mem[b];
    assert WfBlock(s, b);
  }

  lemma {:induction false} ReleaseLedger(s: Heap, k: nat)
    requires Inv(s) && k in s.handles
    ensures Ledger(Release(s, k))
  {
    var x, t := s.handles[k], Release(s, k);
    if x.Window? {
      assert WfHandle(s, k, x) && WfBlock(s, x.buf);
      if !x.rep.Direct() { assert WfShared(s, x.rep.sid); }
      if Unique(s, x) { FreeLedger(s, t, x.buf); }
    }
  }

  /** Dropping a handle leaves every other one with its allocation in place. */
  lemma {:induction false} ReleaseFrame(s: Heap, k: nat)
    requires Inv(s) && k in s.handles
    ensures forall j :: j in s.handles && j != k && s.handles[j].Window? ==>
                          s.handles[j].buf in Release(s, k).mem && s.handles[j].buf in s.mem
                          && Release(s, k).mem[s.handles[j].buf] == s.mem[s.handles[j].buf]
  {
    if Unique(s, s.handles[k]) { UniqueMeansSole(s, k); }
    forall j | j in s.handles && j != k && s.handles[j].Window? ensures s.handles[j].buf in s.mem {
      assert WfHandle(s, j, s.handles[j]);
    }
    if s.handles[k].Window? {
      assert WfHandle(s, k, s.handles[k]);
      if !s.handles[k].rep.Direct() { assert WfShared(s, s.handles[k].rep.sid); }
    }
  }

  lemma {:induction false} ReleaseHandles(s: Heap, k: nat)
    requires Inv(s) && k in s.handles
    ensures HandlesOk(Release(s, k))
  {
    var t := Release(s, k);
    ReleaseFrame(s, k);
    forall j | j in t.handles ensures WfHandle(t, j, t.handles[j]) {
      assert WfHandle(s, j, s.handles[j]);
      if s.handles[j].Window? && !s.handles[j].rep.Direct() { ReleaseLink(s, k, j); }
    }
  }

  /** The box of every other handle is still there, around the same allocation. */
  lemma {:induction false} ReleaseLink(s: Heap, k: nat, j: nat)
    requires Inv(s) && k in s.handles && j in s.handles && j != k && s.handles[j].Window? && !s.handles[j].rep.Direct()
    ensures WfLink(Release(s, k).shareds, s.handles[j])
  {
    var x := s.handles[k];
    assert WfHandle(s, j, s.handles[j]);
    if x.Window? && !x.rep.Direct() {
      assert WfHandle(s, k, x) && WfShared(s, x.rep.sid);
      if Unique(s, x) { SoleRef(s.handles, k, x.rep.sid); }
    }
  }

  lemma ReleaseUntouched(s: Heap, k: nat)
    requires Inv(s) && k in s.handles
    ensures Untouched(s, Release(s, k), {k})
  {
    ReleaseFrame(s, k);
  }

  lemma {:induction false} ReleaseKeeps(s: Heap, k: nat)
    requires Inv(s) && k in s.handles
    ensures Inv(Release(s, k))
    ensures Untouched(s, Release(s, k), {k})
  {
    ReleaseShareds(s, k);
    ReleaseBlocks(s, k);
    ReleaseLedger(s, k);
    ReleaseHandles(s, k);
    ReleaseUntouched(s, k);
    PairsRemove(s.handles, k);
  }

  /** The bytes of one allocation are replaced by others of the same number. */
  function Poke(s: Heap, b: nat, bytes: seq<Byte>): Heap
    requires b in s.mem
  {
    s.(mem := s.mem[b := s.mem[b].(bytes := bytes)])
  }

  lemma {:induction false} PokeKeeps(s: Heap, b: nat, bytes: seq<Byte>)
    requires Inv(s) && b in s.mem && |bytes| == |s.mem[b].bytes|
    ensures Inv(Poke(s, b, bytes))
  {
    var t := Poke(s, b, bytes);
    forall i | i in t.shareds ensures WfShared(t, i) { assert WfShared(s, i); }
    forall c | c in t.mem ensures WfBlock(t, c) { assert WfBlock(s, c); }
    forall j | j in t.handles ensures WfHandle(t, j, t.handles[j]) { assert WfHandle(s, j, s.handles[j]); }
  }

  /** Only bytes inside the window differ. */
  ghost predicate InsideOnly(x: Handle, before: seq<Byte>, after: seq<Byte>) {
    x.Window? && |after| == |before| &&
    forall i :: 0 <= i < |after| && !(x.off <= i < x.off + x.cap) ==> after[i] == before[i]
  }

  /** Writing inside one's own exclusive window is invisible to every other handle. */
  lemma {:induction false} WriteInside(s: Heap, k: nat, bytes: seq<Byte>)
    requires Inv(s) && k in s.handles && s.handles[k].Window? && s.handles[k].rep.Exclusive()
    requires s.handles[k].buf in s.mem && InsideOnly(s.handles[k], s.mem[s.handles[k].buf].bytes, bytes)
    ensures Inv(Poke(s, s.handles[k].buf, bytes))
    ensures Untouched(s, Poke(s, s.handles[k].buf, bytes), {k})
  {
    PokeKeeps(s, s.handles[k].buf, bytes);
    WriteUntouched(s, k, bytes);
  }

  lemma WriteUntouched(s: Heap, k: nat, bytes: seq<Byte>)
    requires HandlesOk(s) && PairsOk(s.handles)
    requires k in s.handles && s.handles[k].Window? && s.handles[k].rep.Exclusive()
    requires s.handles[k].buf in s.mem && InsideOnly(s.handles[k], s.mem[s.handles[k].buf].bytes, bytes)
    ensures Untouched(s, Poke(s, s.handles[k].buf, bytes), {k})
  {
    var x := s.handles[k];
    var t := Poke(s, x.buf, bytes);
    forall j | j in s.handles && j != k ensures View(t, t.handles[j]) == View(s, s.handles[j]) {
      assert Separate(s.handles[j], x) && WfHandle(s, j, s.handles[j]);
    }
  }

  lemma WriteSole(s: Heap, k: nat, bytes: seq<Byte>)
    requires Inv(s) && Sole(s, k) && s.handles[k].buf in s.mem
    requires |bytes| == |s.mem[s.handles[k].buf].bytes|
    ensures Inv(Poke(s, s.handles[k].buf, bytes))
    ensures Untouched(s, Poke(s, s.handles[k].buf, bytes), {k})
  {
    PokeKeeps(s, s.handles[k].buf, bytes);
  }

  /** A new allocation owned by a handle that had nothing before. */
  function Alloc(s: Heap, b: nat, bytes: seq<Byte>, k: nat, x: Handle): Heap {
    s.(mem := s.mem[b := Block(bytes, ByHandle(k))],
       allocs := s.allocs[b := |bytes|],
       handles := s.handles[k := x],
       next := b + 1)
  }

  ghost predicate CanAlloc(s: Heap, b: nat, bytes: seq<Byte>, k: nat, x: Handle) {
    && Inv(s) && s.next <= b && k !in s.handles && k <= b && |bytes| <= IsizeMax(s.bits)
    && x.Window? && x.buf == b && x.rep.OwnedVec? && x.off == 0 && x.len <= x.cap == |bytes|
  }

  lemma {:induction false} AllocParts(s: Heap, b: nat, bytes: seq<Byte>, k: nat, x: Handle)
    requires CanAlloc(s, b, bytes, k, x)
    ensures b !in s.mem
    ensures SharedsOk(Alloc(s, b, bytes, k, x)) && BlocksOk(Alloc(s, b, bytes, k, x))
  {
    var t := Alloc(s, b, bytes, k, x);
    assert forall c :: c in s.mem ==> WfBlock(s, c) && c < s.next;
    forall i | i in t.shareds ensures WfShared(t, i) {
      assert WfShared(s, i);
      RefsUpdate(s.handles, k, x, i);
    }
    forall c | c in t.mem ensures WfBlock(t, c) {
      if c != b { assert WfBlock(s, c); }
    }
  }

  lemma AllocRest(s: Heap, b: nat, bytes: seq<Byte>, k: nat, x: Handle)
    requires CanAlloc(s, b, bytes, k, x)
    ensures var t := Alloc(s, b, bytes, k, x); HandlesOk(t) && PairsOk(t.handles)
  {
    var t := Alloc(s, b, bytes, k, x);
    NewIsClear(s, x);
    assert ClearOfOthers(s.handles, k, x);
    PairsReplace(s.handles, k, x);
    forall j | j in t.handles ensures WfHandle(t, j, t.handles[j]) {
      if j != k { assert WfHandle(s, j, s.handles[j]); }
    }
  }

  lemma AllocLedger(s: Heap, b: nat, bytes: seq<Byte>, k: nat, x: Handle)
    requires CanAlloc(s, b, bytes, k, x)
    ensures var t := Alloc(s, b, bytes, k, x); FreshAbove(t) && Ledger(t) && Untouched(s, t, {})
  {
    NewIsClear(s, x);
  }

  lemma {:induction false} AllocKeeps(s: Heap, b: nat, bytes: seq<Byte>, k: nat, x: Handle)
    requires CanAlloc(s, b, bytes, k, x)
    ensures Inv(Alloc(s, b, bytes, k, x))
    ensures Untouched(s, Alloc(s, b, bytes, k, x), {})
  {
    AllocParts(s, b, bytes, k, x);
    AllocRest(s, b, bytes, k, x);
    AllocLedger(s, b, bytes, k, x);
  }

  lemma {:induction false} AddEmptyKeeps(s: Heap, k: nat)
    requires Inv(s) && k !in s.handles
    ensures var t := SetHandle(s, k, Empty).(next := if k < s.next then s.next else k + 1);
            Inv(t) && Untouched(s, t, {})
  {
    var t := SetHandle(s, k, Empty).(next := if k < s.next then s.next else k + 1);
    forall i | i in t.shareds ensures WfShared(t, i) {
      assert WfShared(s, i);
      RefsUpdate(s.handles, k, Empty, i);
    }
    forall b | b in t.mem ensures WfBlock(t, b) { assert WfBlock(s, b); }
    forall j | j in t.handles ensures WfHandle(t, j, t.handles[j]) {
      if j != k { assert WfHandle(s, j, s.handles[j]); }
    }
    PairsReplace(s.handles, k, Empty);
    SameMemory(s, t, {});
  }

  /** `Vec::reserve` moves an allocation with a single user: the old block is given back, a longer one replaces it. */
  function Relocate(s: Heap, k: nat, x: Handle, bytes: seq<Byte>): Heap
    requires k in s.handles && s.handles[k].Window? && s.handles[k].buf in s.mem && x.Window?
  {
    var y := s.handles[k];
    var was := s.mem[y.buf];
    var t := Free(s, y.buf, 0, |was.bytes|);
    t.(mem := t.mem[x.buf := Block(bytes, was.owner)],
       allocs := t.allocs[x.buf := |bytes|],
       shareds := if y.rep.Direct() || y.rep.sid !in s.shareds then s.shareds
                  else s.shareds[y.rep.sid := s.shareds[y.rep.sid].(buf := x.buf, cap := |bytes|)],
       handles := s.handles[k := x],
       next := x.buf + 1)
  }

  ghost predicate CanRelocate(s: Heap, k: nat, x: Handle, bytes: seq<Byte>) {
    && Inv(s) && Sole(s, k) && s.handles[k].buf in s.mem
    && x.Window? && s.next <= x.buf && |bytes| <= IsizeMax(s.bits)
    && x.rep == s.handles[k].rep && x.rep.Mutable()
    && WfShape(s.bits, |bytes|, x)
  }

  lemma {:induction false} RelocateShareds(s: Heap, k: nat, x: Handle, bytes: seq<Byte>)
    requires CanRelocate(s, k, x, bytes)
    ensures SharedsOk(Relocate(s, k, x, bytes))
  {
    var y, t := s.handles[k], Relocate(s, k, x, bytes);
    OwnerDecides(s, k, y.buf);
    assert WfHandle(s, k, y);
    NewIsClear(s, x);
    forall i | i in t.shareds ensures WfShared(t, i) {
      assert WfShared(s, i);
      RefsUpdate(s.handles, k, x, i);
    }
  }

  lemma {:induction false} RelocateBlocks(s: Heap, k: nat, x: Handle, bytes: seq<Byte>)
    requires CanRelocate(s, k, x, bytes)
    ensures BlocksOk(Relocate(s, k, x, bytes))
  {
    var y, t := s.handles[k], Relocate(s, k, x, bytes);
    OwnerDecides(s, k, y.buf);
    assert WfHandle(s, k, y) && WfBlock(s, y.buf);
    forall c | c in t.mem ensures WfBlock(t, c) {
      if c != x.buf { assert WfBlock(s, c); }
    }
  }

  lemma {:induction false} RelocateHandles(s: Heap, k: nat, x: Handle, bytes: seq<Byte>)
    requires CanRelocate(s, k, x, bytes)
    ensures HandlesOk(Relocate(s, k, x, bytes))
  {
    var y, t := s.handles[k], Relocate(s, k, x, bytes);
    OwnerDecides(s, k, y.buf);
    assert WfHandle(s, k, y);
    assert forall c :: c in s.mem ==> WfBlock(s, c) && c < s.next;
    forall j | j in t.handles ensures WfHandle(t, j, t.handles[j]) {
      if j != k {
        assert WfHandle(s, j, s.handles[j]);
        if s.handles[j].Window? { OwnerDecides(s, j, s.handles[j].buf); }
      }
    }
  }

  lemma {:induction false} RelocateRest(s: Heap, k: nat, x: Handle, bytes: seq<Byte>)
    requires CanRelocate(s, k, x, bytes)
    ensures var t := Relocate(s, k, x, bytes); PairsOk(t.handles) && FreshAbove(t)
  {
    NewIsClear(s, x);
    SoleIsClear(s, k, x);
    PairsReplace(s.handles, k, x);
  }

  lemma RelocateUntouched(s: Heap, k: nat, x: Handle, bytes: seq<Byte>)
    requires CanRelocate(s, k, x, bytes)
    ensures Untouched(s, Relocate(s, k, x, bytes), {k})
  {
    NewIsClear(s, x);
    RelocateFrame(s, k, x, bytes);
  }

  lemma RelocateFrame(s: Heap, k: nat, x: Handle, bytes: seq<Byte>)
    requires Sole(s, k) && s.handles[k].buf in s.mem && x.Window? && NoneOn(s.handles, x.buf)
    ensures Untouched(s, Relocate(s, k, x, bytes), {k})
  {
  }

  lemma {:induction false} RelocateKeeps(s: Heap, k: nat, x: Handle, bytes: seq<Byte>)
    requires CanRelocate(s, k, x, bytes)
    ensures Inv(Relocate(s, k, x, bytes))
    ensures Untouched(s, Relocate(s, k, x, bytes), {k})
  {
    RelocateShareds(s, k, x, bytes);
    RelocateBlocks(s, k, x, bytes);
    RelocateHandles(s, k, x, bytes);
    RelocateRest(s, k, x, bytes);
    RelocateUntouched(s, k, x, bytes);
    RelocateLedger(s, k, x, bytes);
  }

  lemma {:induction false} RelocateLedger(s: Heap, k: nat, x: Handle, bytes: seq<Byte>)
    requires Inv(s) && k in s.handles && s.handles[k].Window?
    requires x.Window? && s.next <= x.buf
    ensures Ledger(Relocate(s, k, x, bytes))
  {
    var y, t := s.handles[k], Relocate(s, k, x, bytes);
    assert WfHandle(s, k, y) && WfBlock(s, y.buf);
    FreeLedger(s, Free(s, y.buf, 0, |s.mem[y.buf].bytes|), y.buf);
    assert x.buf !in s.allocs;
  }

  // ---------- what the invariant says at the end of a run ----------

  /** When the last handle is gone nothing is left, and each allocation was given back once with its true size. */
  lemma {:induction false} NothingLeaks(s: Heap)
    requires Inv(s) && s.handles == map[]
    ensures s.mem == map[] && s.shareds == map[]
    ensures forall b :: b in s.allocs ==> Dealloc(b, 0, s.allocs[b]) in s.frees
  {
    assert forall i :: RefSet(s.handles, i) == {};
    assert forall i :: i in s.shareds ==> WfShared(s, i) && Refs(s.handles, i) == 0;
    assert forall b :: b in s.mem ==> WfBlock(s, b);
    forall b | b in s.allocs ensures Dealloc(b, 0, s.allocs[b]) in s.frees {
      var d :| d in s.frees && d.buf == b;
      assert d == Dealloc(b, 0, s.allocs[b]);
    }
  }

  /**
   * What the invariant says about any two handles and any box: a count is the number of live handles of its box and never
   * zero, a live window lies inside an allocation that has not been given back, and no other window, mutable or frozen,
   * shares a byte with a mutable one.
   */
  lemma Guarantees(s: Heap, j: nat, k: nat, i: nat)
    requires Inv(s)
    ensures i in s.shareds ==> s.shareds[i].refCnt == Refs(s.handles, i) > 0
    ensures k in s.handles && s.handles[k].Window? ==>
              var x := s.handles[k];
              && x.buf in s.mem && x.len <= x.cap && x.off + x.cap <= |s.mem[x.buf].bytes|
              && forall d :: d in s.frees ==> d.buf != x.buf
    ensures (j in s.handles && k in s.handles && j != k && s.handles[j].Window? && s.handles[k].Window? &&
             s.handles[j].buf == s.handles[k].buf && s.handles[k].rep.Mutable()) ==> Apart(s.handles[j], s.handles[k])
  {
    if i in s.shareds { assert WfShared(s, i); }
    if k in s.handles {
      assert WfHandle(s, k, s.handles[k]);
      if j in s.handles && j != k { assert Separate(s.handles[j], s.handles[k]); }
    }
  }
}
