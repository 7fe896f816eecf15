/**
 * The atomic types of single-threaded targets, which are plain cells, and the operations of a promotable `Bytes` and its
 * clones on them. Whatever program is run, it is a run of the racing system in which no swap is ever lost.
 */
module SingleThread {
  import opened CloneRace

  const USIZE_SPAN: nat := 0x1_0000_0000_0000_0000

  /** `usize::MAX >> 1`: a clone that finds more handles than this aborts. */
  const MAX_COUNT: nat := 0x7FFF_FFFF_FFFF_FFFF

  // ---------- one thread on its own ----------

  /** No thread is in the middle of anything. */
  ghost predicate AllIdle(s: State, t: nat) {
    t in s.threads && forall k :: k in s.threads ==> s.threads[k].Idle?
  }

  /** The state after one more clone of a handle: the first one of the original installs box `b`. */
  function Cloned(s: State, who: Holder, b: nat, h: nat): State {
    match BoxOf(s, who)
    case Arc(i) => s.(boxes := s.boxes[i := (if i in s.boxes then s.boxes[i] else 0) + 1], clones := s.clones[h := i])
    case Vec => s.(data := Arc(b), boxes := s.boxes[b := 2], clones := s.clones[h := b], installs := s.installs + 1)
  }

  /** The state after a handle has been dropped: the last one frees. */
  function Dropped(s: State, who: Holder): State {
    match BoxOf(s, who)
    case Vec => Without(s, who).(frees := s.frees + 1)
    case Arc(i) => Without(Released(s, i), who)
  }

  /** One count less, or no box any more. */
  function Released(s: State, i: nat): State {
    if i in s.boxes && s.boxes[i] > 1 then s.(boxes := s.boxes[i := s.boxes[i] - 1])
    else s.(boxes := s.boxes - {i}, frees := s.frees + 1)
  }

  /** The state after a handle has become a vector or a mutable buffer: the last one takes the allocation along. */
  function Converted(s: State, who: Holder): State {
    if BoxOf(s, who) == Vec || CountIsOne(s, who) then Emptied(s, who) else Dropped(s, who)
  }

  lemma IdleIsAvailable(s: State, t: nat, who: Holder)
    requires AllIdle(s, t) && Exists(s, who)
    ensures Available(s, who) && Unborrowed(s) && !Held(s, who)
  {
  }

  /** The count behind a live handle is the number of all of them. */
  lemma HolderCounted(s: State, who: Holder)
    requires Inv(s) && Exists(s, who) && BoxOf(s, who).Arc?
    ensures BoxOf(s, who) == s.data && s.data.box in s.boxes && s.boxes[s.data.box] == Live(s) >= 1
  {
    if who.Clone? { ClonesCounted(s, who.c); }
  }

  // ---------- each operation is a run ----------

  /** Cloning a handle that has a box: one `fetch_add`, after a load for the original. */
  lemma {:induction false} ArcCloneRuns(s: State, t: nat, who: Holder, b: nat, h: nat) returns (actions: seq<Action>)
    requires Inv(s) && AllIdle(s, t) && Exists(s, who) && BoxOf(s, who).Arc? && h !in s.clones
    ensures WinningRun(s, actions, Cloned(s, who, b, h)) && Inv(Cloned(s, who, b, h))
  {
    IdleIsAvailable(s, t, who);
    HolderCounted(s, who);
    if who.Clone? {
      actions := [CloneClone(t, who.c, h)];
      OneStep(s, CloneClone(t, who.c, h), Cloned(s, who, b, h));
    } else {
      actions := [Load(t), Bump(t, h)];
      var u := SetPc(s, t, Loaded(s.data));
      assert u.threads[t := Idle] == s.threads;
      TwoSteps(s, Load(t), u, Bump(t, h), Cloned(s, who, b, h));
    }
  }

  /** The first two accesses of the first clone. */
  lemma AllocatedAlone(s: State, t: nat, b: nat) returns (u: State)
    requires Inv(s) && AllIdle(s, t) && s.original && s.data == Vec && b !in s.boxes
    ensures u == SetPc(s.(boxes := s.boxes[b := 2]), t, Allocated(b)) && Inv(u)
    ensures WinningRun(s, [Load(t), Allocate(t, b)], u)
  {
    IdleIsAvailable(s, t, Original);
    u := SetPc(s.(boxes := s.boxes[b := 2]), t, Allocated(b));
    assert s.threads[t := Loaded(Vec)][t := Allocated(b)] == s.threads[t := Allocated(b)];
    TwoSteps(s, Load(t), SetPc(s, t, Loaded(Vec)), Allocate(t, b), u);
  }

  /** The first clone: load, allocate a box, swap it in. */
  lemma {:induction false} VecCloneRuns(s: State, t: nat, b: nat, h: nat) returns (actions: seq<Action>)
    requires Inv(s) && AllIdle(s, t) && s.original && s.data == Vec && h !in s.clones && b !in s.boxes
    ensures WinningRun(s, actions, Cloned(s, Original, b, h)) && Inv(Cloned(s, Original, b, h))
  {
    IdleIsAvailable(s, t, Original);
    var v := Cloned(s, Original, b, h);
    var u := AllocatedAlone(s, t, b);
    assert u.threads[t := Idle] == s.threads;
    OneStep(u, Swap(t, h), v);
    RunsJoin(s, [Load(t), Allocate(t, b)], u, [Swap(t, h)], v);
    actions := [Load(t), Allocate(t, b)] + [Swap(t, h)];
  }

  function DropAction(t: nat, who: Holder): Action {
    if who.Clone? then DropClone(t, who.c) else DropOriginal(t)
  }

  /** Without its handle, before any count is changed. */
  function Without(s: State, who: Holder): State {
    if who.Original? then s.(original := false) else s.(clones := s.clones - {who.c})
  }

  /** What the first access of a drop does. */
  lemma DropStep(s: State, t: nat, who: Holder)
    requires AllIdle(s, t) && Exists(s, who)
    requires BoxOf(s, who).Arc? ==> BoxOf(s, who).box in s.boxes && s.boxes[BoxOf(s, who).box] > 0
    ensures Enabled(s, DropAction(t, who)) && Safe(s, DropAction(t, who))
    ensures Apply(s, DropAction(t, who)) ==
            match BoxOf(s, who)
            case Vec => Without(s, who).(frees := s.frees + 1)
            case Arc(i) => Release(Without(s, who), t, i)
  {
    IdleIsAvailable(s, t, who);
  }

  lemma FreeStep(s: State, t: nat, i: nat)
    requires t in s.threads && s.threads[t].Idle? && i in s.boxes && s.boxes[i] == 1
    ensures Leads(Release(s, t, i), Free(t), s.(boxes := s.boxes - {i}, frees := s.frees + 1))
  {
    assert s.threads[t := Freeing(i)][t := Idle] == s.threads;
    assert s.boxes[i := 0] - {i} == s.boxes - {i};
  }

  lemma {:induction false} LastDropRuns(s: State, t: nat, who: Holder)
    requires Inv(s) && AllIdle(s, t) && Exists(s, who) && CountIsOne(s, who)
    ensures var a := DropAction(t, who);
            WinningRun(s, [a, Free(t)], Dropped(s, who)) && Inv(Dropped(s, who))
  {
    DropStep(s, t, who);
    var i := BoxOf(s, who).box;
    var u := Release(Without(s, who), t, i);
    FreeStep(Without(s, who), t, i);
    TwoSteps(s, DropAction(t, who), u, Free(t), Dropped(s, who));
  }

  /** Dropping: one `fetch_sub`, and the one that took the count from one frees. */
  lemma {:induction false} DropRuns(s: State, t: nat, who: Holder) returns (actions: seq<Action>)
    requires Inv(s) && AllIdle(s, t) && Exists(s, who)
    ensures WinningRun(s, actions, Dropped(s, who)) && Inv(Dropped(s, who))
  {
    if BoxOf(s, who).Arc? { HolderCounted(s, who); }
    if CountIsOne(s, who) {
      LastDropRuns(s, t, who);
      actions := [DropAction(t, who), Free(t)];
    } else {
      DropStep(s, t, who);
      assert s.threads[t := Idle] == s.threads;
      OneStep(s, DropAction(t, who), Dropped(s, who));
      actions := [DropAction(t, who)];
    }
  }

  /** `into_vec`: the swap of the count from one to zero, or a copy and a drop. */
  lemma {:induction false} IntoVecRuns(s: State, t: nat, who: Holder) returns (actions: seq<Action>)
    requires Inv(s) && AllIdle(s, t) && Exists(s, who)
    ensures WinningRun(s, actions, Converted(s, who)) && Inv(Converted(s, who))
  {
    IdleIsAvailable(s, t, who);
    if CountIsOne(s, who) {
      OneStep(s, Take(t, who), Emptied(s, who));
      actions := [Take(t, who)];
    } else if BoxOf(s, who) == Vec {
      OneStep(s, TakeVec(t), Emptied(s, who));
      actions := [TakeVec(t)];
    } else {
      actions := DropRuns(s, t, who);
    }
  }

  /** `into_mut`: the count is read and the box taken in a second step, or a copy and a drop. */
  lemma {:induction false} IntoMutRuns(s: State, t: nat, who: Holder) returns (actions: seq<Action>)
    requires Inv(s) && AllIdle(s, t) && Exists(s, who)
    ensures WinningRun(s, actions, Converted(s, who)) && Inv(Converted(s, who))
  {
    if CountIsOne(s, who) {
      IdleIsAvailable(s, t, who);
      actions := [Check(t, who), TakeAlone(t)];
      var u := SetPc(s, t, Alone(who));
      assert u.threads[t := Idle] == s.threads;
      TwoSteps(s, Check(t, who), u, TakeAlone(t), Emptied(s, who));
    } else {
      actions := IntoVecRuns(s, t, who);
    }
  }

  /** A box that is taken away may as well have been set to zero first. */
  lemma EmptiedAnyway(s: State, who: Holder, box: nat)
    requires BoxOf(s, who) == Arc(box)
    ensures Emptied(s.(boxes := s.boxes[box := 0]), who) == Emptied(s, who)
  {
    assert s.boxes[box := 0] - {box} == s.boxes - {box};
  }

  // ---------- the cells ----------

  /** `AtomicUsize` over an `UnsafeCell`: the wrapping arithmetic of a 64-bit word. */
  class AtomicUsize {
    var v: nat
    ghost const box: nat   // the box whose count it is

    ghost predicate Valid()
      reads this
    {
      v < USIZE_SPAN
    }

    constructor (v: nat, ghost box: nat)
      requires v < USIZE_SPAN
      ensures Valid() && this.v == v && this.box == box
    {
      this.v := v;
      this.box := box;
    }

    method Load() returns (w: nat)
      ensures w == v
    {
      w := v;
    }

    method FetchAdd(n: nat) returns (prev: nat)
      requires Valid() && n < USIZE_SPAN
      modifies this
      ensures Valid() && prev == old(v)
      ensures old(v) + n < USIZE_SPAN ==> v == old(v) + n
      ensures old(v) + n >= USIZE_SPAN ==> v == old(v) + n - USIZE_SPAN
    {
      prev := v;
      v := (prev + n) % USIZE_SPAN;
    }

    method FetchSub(n: nat) returns (prev: nat)
      requires Valid() && n < USIZE_SPAN
      modifies this
      ensures Valid() && prev == old(v)
      ensures n <= old(v) ==> v == old(v) - n
      ensures n > old(v) ==> v == old(v) - n + USIZE_SPAN
    {
      prev := v;
      v := (prev - n) % USIZE_SPAN;
    }

    method CompareExchange(current: nat, new_: nat) returns (ok: bool, actual: nat)
      requires Valid() && new_ < USIZE_SPAN
      modifies this
      ensures Valid() && actual == old(v) && ok == (old(v) == current)
      ensures v == if ok then new_ else old(v)
    {
      actual := v;
      ok := actual == current;
      if ok { v := new_; }
    }
  }

  /** `AtomicPtr` over an `UnsafeCell` */
  class AtomicPtr {
    var v: Word

    constructor (v: Word)
      ensures this.v == v
    {
      this.v := v;
    }

    method Load() returns (w: Word)
      ensures w == v
    {
      w := v;
    }

    method CompareExchange(current: Word, new_: Word) returns (ok: bool, actual: Word)
      modifies this
      ensures actual == old(v) && ok == (old(v) == current)
      ensures v == if ok then new_ else old(v)
    {
      actual := v;
      ok := actual == current;
      if ok { v := new_; }
    }
  }

  // ---------- the operations on the cells ----------

  /** Names a state that a proof looks into. */
  predicate Seen(s: State) { true }

  /** A promotable `Bytes`, its clones and their boxes, with the cells that the source keeps in them. */
  class Handles {
    const data: AtomicPtr
    var counts: map<nat, AtomicUsize>
    var original: bool
    var clones: map<nat, nat>
    var nextBox: nat
    var nextClone: nat
    ghost var installs: nat
    ghost var frees: nat
    ghost var taken: nat

    ghost function Repr(): set<object>
      reads this
    {
      {this, data} + counts.Values
    }

    ghost function Counts(): map<nat, nat>
      reads this, counts.Values
    {
      map i | i in counts :: counts[i].v
    }

    /** The state of the racing system that the cells stand for, between two operations. */
    ghost function Abstract(): State
      reads this, data, counts.Values
    {
      State(data.v, original, Counts(), clones, Init({0}).threads, installs, frees, taken)
    }

    /** Cells are not shared, numbers not used yet are free, and no count has passed the threshold unnoticed. */
    ghost predicate Numbered()
      reads this, data, counts.Values
    {
      && (forall i :: i in counts ==> counts[i].box == i < nextBox && counts[i].v <= MAX_COUNT + 1)
      && (data.v.Arc? ==> data.v.box < nextBox)
      && (forall c :: c in clones ==> c < nextClone)
    }

    /** The cells are in order; `Open` brings the details into a proof. */
    ghost predicate Valid()
      reads this, data, counts.Values
    {
      forall s: State {:trigger Seen(s)} :: s == Abstract() && Seen(s) ==> Numbered()
    }

    lemma Open()
      requires Valid()
      ensures Numbered()
    {
      assert Seen(Abstract());
    }

    /** The handle exists, and its box, if it has one, is allocated and counts it. */
    ghost predicate Backed(who: Holder)
      reads this, data, counts.Values
    {
      var s := Abstract();
      Exists(s, who) && (BoxOf(s, who).Arc? ==> BoxOf(s, who).box in counts && counts[BoxOf(s, who).box].v > 0)
    }

    constructor ()
      ensures Valid() && Abstract() == Init({0}) && fresh(Repr())
    {
      data := new AtomicPtr(Vec);
      counts, clones, original := map[], map[], true;
      nextBox, nextClone := 0, 0;
      installs, frees, taken := 0, 0, 0;
    }

    /** `shallow_clone_arc`: one more for the count, or an abort. */
    method ShallowCloneArc(box: nat) returns (ok: bool, h: nat)
      requires Valid() && box in counts
      modifies this, counts[box]
      ensures counts == old(counts) && ok == (old(counts[box].v) <= MAX_COUNT)
      ensures ok ==> Valid() && h == old(nextClone) && h !in old(clones)
      ensures ok ==> var s := old(Abstract());
                     Abstract() == s.(boxes := s.boxes[box := s.boxes[box] + 1], clones := s.clones[h := box])
    {
      Open();
      h := nextClone;
      var prev := counts[box].FetchAdd(1);
      if prev > MAX_COUNT {
        return false, h;
      }
      ok := true;
      clones := clones[h := box];
      nextClone := nextClone + 1;
    }

    /** `Box::new(Shared { ref_cnt: 2 })` */
    method NewBox() returns (b: nat)
      requires Valid()
      modifies this`counts, this`nextBox
      ensures Valid() && b == old(nextBox) < nextBox && fresh(Repr() - old(Repr()))
      ensures Abstract() == old(Abstract()).(boxes := old(Abstract()).boxes[b := 2])
    {
      Open();
      b := nextBox;
      nextBox := nextBox + 1;
      var shared := new AtomicUsize(2, b);
      counts := counts[b := shared];
      assert Counts() == old(Counts())[b := 2];
    }

    /** `compare_exchange` of the data word, and the handle that the winner returns; nobody can have been faster. */
    method Install(seen: Word, b: nat) returns (h: nat)
      requires Valid() && seen == data.v && b < nextBox
      modifies this`clones, this`nextClone, this`installs, data
      ensures Valid() && h == old(nextClone) && h !in old(clones)
      ensures var s := old(Abstract());
              Abstract() == s.(data := Arc(b), clones := s.clones[h := b], installs := s.installs + 1)
    {
      Open();
      h := nextClone;
      var ok, actual := data.CompareExchange(seen, Arc(b));
      if !ok {
        assert false;
      }
      clones := clones[h := b];
      nextClone := nextClone + 1;
      installs := installs + 1;
    }

    /** `shallow_clone_vec`: a box that counts two is swapped in. */
    method ShallowCloneVec(seen: Word) returns (h: nat)
      requires Valid() && seen == data.v == Vec
      modifies this, data
      ensures Valid() && h == old(nextClone) && h !in old(clones) && fresh(Repr() - old(Repr()))
      ensures Abstract() == Cloned(old(Abstract()), Original, old(nextBox), h)
    {
      var b := NewBox();
      h := Install(seen, b);
    }

    /** `clone` of the original or of a clone */
    method Clone(who: Holder) returns (ok: bool, h: nat)
      requires Valid() && Backed(who)
      modifies Repr()
      ensures fresh(Repr() - old(Repr()))
      ensures ok ==> Valid() && h == old(nextClone) && h !in old(clones)
      ensures ok ==> Abstract() == Cloned(old(Abstract()), who, old(nextBox), h)
      ensures !ok <==> var s := old(Abstract()); BoxOf(s, who).Arc? && s.boxes[BoxOf(s, who).box] > MAX_COUNT
    {
      var seen := LoadWord(who);
      if seen.Arc? {
        ok, h := ShallowCloneArc(seen.box);
      } else {
        ok := true;
        h := ShallowCloneVec(seen);
      }
    }

    /** The `data` word of the original, or the one that a clone was made with. */
    method LoadWord(who: Holder) returns (seen: Word)
      requires Exists(Abstract(), who)
      ensures seen == BoxOf(Abstract(), who) && (who.Clone? ==> seen.Arc?)
    {
      if who.Clone? {
        seen := Arc(clones[who.c]);
      } else {
        seen := data.Load();
      }
    }

    /** The value of the handle goes out of scope. */
    method Forget(who: Holder)
      requires Valid()
      modifies this`original, this`clones
      ensures Valid() && Abstract() == Without(old(Abstract()), who)
    {
      Open();
      if who.Original? {
        original := false;
      } else {
        clones := clones - {who.c};
      }
    }

    /** The buffer has been given to the deallocator, or has moved out. */
    ghost method Dispose(freed: bool)
      requires Valid()
      modifies this`frees, this`taken
      ensures Valid()
      ensures var s := old(Abstract());
              Abstract() == if freed then s.(frees := s.frees + 1) else s.(taken := s.taken + 1)
    {
      Open();
      if freed { frees := frees + 1; } else { taken := taken + 1; }
    }

    /** `Box::from_raw`: the box is deallocated. */
    method RemoveBox(box: nat)
      requires Valid()
      modifies this`counts
      ensures Valid() && Repr() <= old(Repr())
      ensures Abstract() == old(Abstract()).(boxes := old(Abstract()).boxes - {box})
    {
      Open();
      counts := counts - {box};
      assert Counts() == old(Counts()) - {box};
    }

    /** `fetch_sub(1)` */
    method CountDown(box: nat) returns (prev: nat)
      requires Valid() && box in counts && counts[box].v > 0
      modifies counts[box]
      ensures Valid() && prev == old(counts[box].v)
      ensures Abstract() == old(Abstract()).(boxes := old(Abstract()).boxes[box := prev - 1])
    {
      Open();
      prev := counts[box].FetchSub(1);
      assert Counts() == old(Counts())[box := prev - 1];
    }

    /** `release_shared`: `fetch_sub`, and the one that took the count from one drops the box. */
    method ReleaseShared(box: nat)
      requires Valid() && box in counts && counts[box].v > 0
      modifies this`counts, this`frees, this`taken, counts[box]
      ensures Valid() && Repr() <= old(Repr())
      ensures Abstract() == Released(old(Abstract()), box)
    {
      ghost var boxes := Counts();
      var prev := CountDown(box);
      if prev != 1 {
        return;
      }
      RemoveBox(box);
      Dispose(true);
      assert boxes[box := 0] - {box} == boxes - {box};
    }

    /** `drop` of the original or of a clone */
    method Drop(who: Holder)
      requires Valid() && Backed(who)
      modifies Repr()
      ensures Valid() && Repr() <= old(Repr()) && Abstract() == Dropped(old(Abstract()), who)
    {
      var word := LoadWord(who);
      if word.Arc? {
        ReleaseShared(word.box);
      } else {
        Dispose(true);
      }
      Forget(who);
    }

    /** The allocation moves out of the handle; its box, if it has one, goes away without its destructor. */
    method MoveOut(who: Holder, word: Word)
      requires Valid() && word == BoxOf(Abstract(), who) && (word.Arc? ==> word.box in counts)
      modifies this
      ensures Valid() && Repr() <= old(Repr()) && Abstract() == Emptied(old(Abstract()), who)
    {
      if word.Arc? { RemoveBox(word.box); }
      Dispose(false);
      Forget(who);
    }

    /** `ref_cnt.compare_exchange(1, 0)` */
    method TakeCount(box: nat) returns (alone: bool)
      requires Valid() && box in counts
      modifies counts[box]
      ensures Valid() && alone == (old(counts[box].v) == 1) && (!alone ==> counts[box].v == old(counts[box].v))
      ensures var s := old(Abstract()); Abstract() == if alone then s.(boxes := s.boxes[box := 0]) else s
    {
      Open();
      var actual;
      alone, actual := counts[box].CompareExchange(1, 0);
    }

    /** `promotable_to_vec` and `shared_to_vec`: the count goes from one to zero, or the bytes are copied. */
    method IntoVec(who: Holder)
      requires Valid() && Backed(who)
      modifies Repr()
      ensures Valid() && Repr() <= old(Repr()) && Abstract() == Converted(old(Abstract()), who)
    {
      var word := LoadWord(who);
      var alone := true;
      if word.Arc? {
        EmptiedAnyway(Abstract(), who, word.box);
        alone := TakeCount(word.box);
      }
      if alone {
        MoveOut(who, word);
      } else {
        Drop(who);
      }
    }

    /** `promotable_to_mut` and `shared_to_mut`: the count is read, and the box taken afterwards, or the bytes are copied. */
    method IntoMut(who: Holder)
      requires Valid() && Backed(who)
      modifies Repr()
      ensures Valid() && Repr() <= old(Repr()) && Abstract() == Converted(old(Abstract()), who)
    {
      var word := LoadWord(who);
      var count := 1;
      if word.Arc? {
        count := counts[word.box].Load();
      }
      if count == 1 {
        MoveOut(who, word);
      } else {
        Drop(who);
      }
    }
  }

  // ---------- whole programs ----------

  /** What a program may do with a handle; a number that names no live handle is ignored. */
  datatype Op = CloneOf(who: Holder) | DropOf(who: Holder) | IntoVec(who: Holder) | IntoMut(who: Holder)

  /** The state after an operation that is not ignored; `b` and `h` are the next free numbers. */
  function After(s: State, op: Op, b: nat, h: nat): State {
    match op
    case CloneOf(who) => Cloned(s, who, b, h)
    case DropOf(who) => Dropped(s, who)
    case IntoVec(who) => Converted(s, who)
    case IntoMut(who) => Converted(s, who)
  }

  /** Every operation is a run that loses no swap. */
  lemma OpRuns(s: State, op: Op, b: nat, h: nat) returns (actions: seq<Action>)
    requires Inv(s) && AllIdle(s, 0) && Exists(s, op.who) && h !in s.clones && b !in s.boxes
    ensures WinningRun(s, actions, After(s, op, b, h)) && Inv(After(s, op, b, h))
  {
    match op {
      case CloneOf(who) =>
        if BoxOf(s, who).Arc? {
          actions := ArcCloneRuns(s, 0, who, b, h);
        } else {
          actions := VecCloneRuns(s, 0, b, h);
        }
      case DropOf(who) => actions := DropRuns(s, 0, who);
      case IntoVec(who) => actions := IntoVecRuns(s, 0, who);
      case IntoMut(who) => actions := IntoMutRuns(s, 0, who);
    }
  }

  /** One operation on the cells. */
  method Perform(p: Handles, op: Op) returns (ok: bool)
    requires p.Valid() && p.Backed(op.who)
    modifies p.Repr()
    ensures fresh(p.Repr() - old(p.Repr()))
    ensures ok ==> p.Valid() && p.Abstract() == After(old(p.Abstract()), op, old(p.nextBox), old(p.nextClone))
    ensures !ok ==> var s := old(p.Abstract()); BoxOf(s, op.who).Arc? && s.boxes[BoxOf(s, op.who).box] > MAX_COUNT
  {
    ok := true;
    match op {
      case CloneOf(who) =>
        var h;
        ok, h := p.Clone(who);
      case DropOf(who) => p.Drop(who);
      case IntoVec(who) => p.IntoVec(who);
      case IntoMut(who) => p.IntoMut(who);
    }
  }

  method Alive(p: Handles, who: Holder) returns (alive: bool)
    ensures alive == Exists(p.Abstract(), who)
  {
    alive := if who.Clone? then who.c in p.clones else p.original;
  }

  /** The actions are a run that loses no swap, and end in this state; `Look` brings that into a proof. */
  ghost predicate Reached(actions: seq<Action>, end: State) {
    forall s: State {:trigger Seen(s)} :: s == end && Seen(s) ==>
      WinningRun(Init({0}), actions, s) && Inv(s)
  }

  lemma Look(actions: seq<Action>, end: State)
    requires Reached(actions, end)
    ensures WinningRun(Init({0}), actions, end) && Inv(end)
  {
    assert Seen(end);
  }

  lemma ReachedFirst()
    ensures Reached([], Init({0}))
  {
    InitOk({0});
  }

  lemma ReachedNext(actions: seq<Action>, s: State, op: Op, b: nat, h: nat) returns (more: seq<Action>)
    requires Reached(actions, s) && AllIdle(s, 0) && Exists(s, op.who) && h !in s.clones && b !in s.boxes
    ensures Reached(actions + more, After(s, op, b, h))
  {
    Look(actions, s);
    more := OpRuns(s, op, b, h);
    RunsJoin(Init({0}), actions, s, more, After(s, op, b, h));
  }

  lemma ReachedFacts(p: Handles, actions: seq<Action>, s: State, who: Holder)
    requires Reached(actions, s) && s == p.Abstract() && p.Valid() && Exists(s, who)
    ensures p.Backed(who) && AllIdle(s, 0) && p.nextBox !in s.boxes && p.nextClone !in s.clones
    ensures BoxOf(s, who).Arc? ==> s.boxes[BoxOf(s, who).box] == Live(s)
  {
    p.Open();
    Look(actions, s);
    if BoxOf(s, who).Arc? { HolderCounted(s, who); }
  }

  lemma ReachedEnd(p: Handles, actions: seq<Action>, s: State)
    requires Reached(actions, s) && s == p.Abstract()
    ensures IsRun(Init({0}), actions, s) && WinningRun(Init({0}), actions, s)
    ensures !p.original && p.clones == map[] ==> p.frees + p.taken == 1 && p.counts == map[]
  {
    Look(actions, s);
    WinningIsRun(Init({0}), actions, s);
    RaceIsSafe({0}, actions, s);
    assert Quiet(s);
  }

  /**
   * Any program on the shims is a run of the racing system by a single thread in which no swap is ever lost; between its
   * operations the cells stand for the state that the run has reached. It goes through to its end unless some clone
   * finds more live handles than the threshold, and once all handles are gone the buffer has been disposed of once.
   */
  method RunOnShims(ops: seq<Op>) returns (p: Handles, aborted: bool, ghost actions: seq<Action>, ghost end: State)
    ensures IsRun(Init({0}), actions, end) && WinningRun(Init({0}), actions, end)
    ensures if aborted then Live(end) > MAX_COUNT else p.Valid() && p.Abstract() == end
    ensures !aborted && !p.original && p.clones == map[] ==> p.frees + p.taken == 1 && p.counts == map[]
  {
    p := new Handles();
    aborted, actions, end := false, [], Init({0});
    ReachedFirst();
    for i := 0 to |ops|
      invariant fresh(p.Repr()) && p.Valid() && p.Abstract() == end && Reached(actions, end)
    {
      var ok;
      ok, actions, end := StepOnShims(p, ops[i], actions, end);
      if !ok {
        aborted := true;
        Look(actions, end);
        WinningIsRun(Init({0}), actions, end);
        return;
      }
    }
    ReachedEnd(p, actions, end);
  }

  /** One operation, if its handle exists. */
  method StepOnShims(p: Handles, op: Op, ghost actions: seq<Action>, ghost s: State)
    returns (ok: bool, ghost actions': seq<Action>, ghost s': State)
    requires p.Valid() && p.Abstract() == s && Reached(actions, s)
    modifies p.Repr()
    ensures Reached(actions', s') && fresh(p.Repr() - old(p.Repr()))
    ensures if ok then p.Valid() && p.Abstract() == s' else Live(s') > MAX_COUNT
  {
    ok, actions', s' := true, actions, s;
    var alive := Alive(p, op.who);
    if alive {
      ReachedFacts(p, actions, s, op.who);
      ghost var more := ReachedNext(actions, s, op, p.nextBox, p.nextClone);
      ghost var next := After(s, op, p.nextBox, p.nextClone);
      ok := Perform(p, op);
      if ok {
        actions', s' := actions + more, next;
      }
    }
  }
}
