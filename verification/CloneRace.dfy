/**
 * Threads cloning one promotable `Bytes` at the same time, while clones are cloned, dropped and turned into vectors or
 * mutable buffers. Each action is one atomic access of the source, and any thread may act next. A conversion that finds
 * the count above one copies the bytes and drops its handle; its failed access changes nothing.
 */
module CloneRace {

  /** The `data` word of the cloned handle: the tagged buffer pointer, or a pointer to a `Shared` box. */
  datatype Word = Vec | Arc(box: nat)

  /** The promotable handle itself, or one of its clones. */
  datatype Holder = Original | Clone(c: nat)

  /**
   * Where a thread stands inside `clone`, inside `release_shared` after it took the count from one to zero, or inside
   * `shared_to_mut_impl` after it read a count of one.
   */
  datatype Pc =
    | Idle | Loaded(seen: Word) | Allocated(box: nat) | Lost(actual: nat) | Freeing(box: nat) | Alone(who: Holder)

  datatype State = State(
    data: Word,
    original: bool,            // the promotable handle is alive
    boxes: map<nat, nat>,      // live `Shared` boxes and their counts
    clones: map<nat, nat>,     // live clones and the box each points at
    threads: map<nat, Pc>,
    installs: nat,             // boxes ever installed in the data word
    frees: nat,                // times the buffer was given to the deallocator
    taken: nat)                // times the buffer was moved out into a vector

  datatype Action =
    | Load(t: nat)                          // data.load
    | Bump(t: nat, h: nat)                  // shallow_clone_arc on the loaded box: fetch_add
    | Allocate(t: nat, nb: nat)             // Box::new(Shared { ref_cnt: 2 })
    | Swap(t: nat, h: nat)                  // compare_exchange; the loser forgets its box
    | BumpLost(t: nat, h: nat)              // the loser's shallow_clone_arc: fetch_add
    | CloneClone(t: nat, c: nat, h: nat)    // shared_clone: fetch_add
    | DropClone(t: nat, c: nat)             // shared_drop: fetch_sub
    | DropOriginal(t: nat)                  // promotable_drop, which needs the handle exclusively
    | Free(t: nat)                          // drop(Box::from_raw(ptr))
    | Take(t: nat, who: Holder)             // shared_to_vec_impl: compare_exchange(1, 0) succeeded
    | TakeVec(t: nat)                       // promotable_to_vec or promotable_to_mut of a handle not yet promoted
    | Check(t: nat, who: Holder)            // shared_to_mut_impl: ref_cnt.load() == 1
    | TakeAlone(t: nat)                     // shared_to_mut_impl: Box::from_raw(shared)

  predicate InClone(pc: Pc) {
    pc.Loaded? || pc.Allocated? || pc.Lost?
  }

  /** Some thread is consuming the handle. */
  ghost predicate Held(s: State, who: Holder) {
    exists t :: t in s.threads && s.threads[t] == Alone(who)
  }

  /** The handle exists and may be consumed: nobody else is consuming it, and no clone call borrows it. */
  ghost predicate Available(s: State, who: Holder) {
    !Held(s, who) && if who.Clone? then who.c in s.clones else s.original && Unborrowed(s)
  }

  /** The box a handle points at, if it has one. */
  function BoxOf(s: State, who: Holder): Word {
    if who.Original? then s.data else if who.c in s.clones then Arc(s.clones[who.c]) else Vec
  }

  /** No clone call is borrowing the original. */
  ghost predicate Unborrowed(s: State) {
    forall t :: t in s.threads ==> !InClone(s.threads[t])
  }

  /** The box whose count the action reads or writes, if any. */
  function Touched(s: State, a: Action): (box: Word)
    requires a.t in s.threads
  {
    var pc := s.threads[a.t];
    match a
    case Bump(_, _) => if pc.Loaded? then pc.seen else Vec
    case BumpLost(_, _) => if pc.Lost? then Arc(pc.actual) else Vec
    case CloneClone(_, c, _) => BoxOf(s, Clone(c))
    case DropClone(_, c) => BoxOf(s, Clone(c))
    case Take(_, who) => BoxOf(s, who)
    case Check(_, who) => BoxOf(s, who)
    case TakeAlone(_) => if pc.Alone? then BoxOf(s, pc.who) else Vec
    case DropOriginal(_) => s.data
    case Free(_) => if pc.Freeing? then Arc(pc.box) else Vec
    case _ => Vec
  }

  predicate CountIsOne(s: State, who: Holder) {
    BoxOf(s, who).Arc? && BoxOf(s, who).box in s.boxes && s.boxes[BoxOf(s, who).box] == 1
  }

  ghost predicate Enabled(s: State, a: Action) {
    && a.t in s.threads
    && var pc := s.threads[a.t];
       match a
       case Load(_) => pc.Idle? && s.original && !Held(s, Original)
       case Bump(_, h) => pc.Loaded? && pc.seen.Arc? && h !in s.clones
       case Allocate(_, nb) => pc == Loaded(Vec) && nb !in s.boxes && s.data != Arc(nb)
       case Swap(_, h) => pc.Allocated? && h !in s.clones
       case BumpLost(_, h) => pc.Lost? && h !in s.clones
       case CloneClone(_, c, h) => pc.Idle? && Available(s, Clone(c)) && h !in s.clones
       case DropClone(_, c) => pc.Idle? && Available(s, Clone(c))
       case DropOriginal(_) => pc.Idle? && Available(s, Original)
       case Free(_) => pc.Freeing?
       case Take(_, who) => pc.Idle? && Available(s, who) && CountIsOne(s, who)
       case TakeVec(_) => pc.Idle? && Available(s, Original) && s.data == Vec
       case Check(_, who) => pc.Idle? && Available(s, who) && CountIsOne(s, who)
       case TakeAlone(_) => pc.Alone?
  }

  function SetPc(s: State, t: nat, pc: Pc): State {
    s.(threads := s.threads[t := pc])
  }

  function Add(boxes: map<nat, nat>, b: nat): map<nat, nat>
    requires b in boxes
  {
    boxes[b := boxes[b] + 1]
  }

  /** `fetch_sub`, and what the thread has to do next. */
  function Release(s: State, t: nat, b: nat): State
    requires b in s.boxes && s.boxes[b] > 0
  {
    SetPc(s.(boxes := s.boxes[b := s.boxes[b] - 1]), t, if s.boxes[b] == 1 then Freeing(b) else Idle)
  }

  /** Every access goes to a box that is still allocated. */
  ghost predicate Safe(s: State, a: Action) {
    a.t in s.threads && (Touched(s, a).Arc? ==> Touched(s, a).box in s.boxes)
    && ((a.DropClone? || a.DropOriginal?) && Touched(s, a).Arc? ==> s.boxes[Touched(s, a).box] > 0)
  }

  ghost function Apply(s: State, a: Action): State
    requires Enabled(s, a) && Safe(s, a)
  {
    var pc := s.threads[a.t];
    match a
    case Load(t) => SetPc(s, t, Loaded(s.data))
    case Bump(t, h) => SetPc(s.(boxes := Add(s.boxes, pc.seen.box), clones := s.clones[h := pc.seen.box]), t, Idle)
    case Allocate(t, nb) => SetPc(s.(boxes := s.boxes[nb := 2]), t, Allocated(nb))
    case Swap(t, h) =>
      if s.data == Vec then
        SetPc(s.(data := Arc(pc.box), clones := s.clones[h := pc.box], installs := s.installs + 1), t, Idle)
      else
        SetPc(s.(boxes := s.boxes - {pc.box}), t, Lost(s.data.box))
    case BumpLost(t, h) => SetPc(s.(boxes := Add(s.boxes, pc.actual), clones := s.clones[h := pc.actual]), t, Idle)
    case CloneClone(t, c, h) => s.(boxes := Add(s.boxes, s.clones[c]), clones := s.clones[h := s.clones[c]])
    case DropClone(t, c) => Release(s, t, s.clones[c]).(clones := s.clones - {c})
    case DropOriginal(t) =>
      if s.data == Vec then s.(original := false, frees := s.frees + 1)
      else Release(s, t, s.data.box).(original := false)
    case Free(t) => SetPc(s.(boxes := s.boxes - {pc.box}, frees := s.frees + 1), t, Idle)
    case Take(t, who) => Emptied(s, who)
    case TakeVec(t) => s.(original := false, taken := s.taken + 1)
    case Check(t, who) => SetPc(s, t, Alone(who))
    case TakeAlone(t) => SetPc(Emptied(s, pc.who), t, Idle)
  }

  /** The handle and its box are gone and the buffer has moved out. */
  function Emptied(s: State, who: Holder): State {
    var u := if who.Original? then s.(original := false) else s.(clones := s.clones - {who.c});
    u.(boxes := if BoxOf(s, who).Arc? then s.boxes - {BoxOf(s, who).box} else s.boxes, taken := s.taken + 1)
  }

  // ---------- the invariant ----------

  function Live(s: State): nat {
    (if s.original then 1 else 0) + |s.clones|
  }

  ghost predicate ThreadOk(s: State, pc: Pc) {
    match pc
    case Idle => true
    case Loaded(w) => s.original && (w.Arc? ==> s.data == w)
    case Allocated(b) => s.original && b in s.boxes && s.boxes[b] == 2 && s.data != Arc(b)
    case Lost(a) => s.original && s.data == Arc(a)
    case Freeing(b) => s.data == Arc(b) && Live(s) == 0 && b in s.boxes && s.boxes[b] == 0
    case Alone(who) => s.data.Arc? && Live(s) == 1 && if who.Clone? then who.c in s.clones else s.original
  }

  /** Two threads never own the same box, only one frees, and a handle being consumed is used by nobody else. */
  ghost predicate ThreadsApart(threads: map<nat, Pc>) {
    forall t, u :: t in threads && u in threads && t != u ==>
      !(threads[t].Allocated? && threads[u].Allocated? && threads[t].box == threads[u].box)
      && !(threads[t].Freeing? && threads[u].Freeing?)
      && !(threads[t].Alone? && (threads[u].Alone? || InClone(threads[u])))
  }

  ghost predicate Owned(s: State, b: nat) {
    s.data == Arc(b) || exists t :: t in s.threads && s.threads[t] == Allocated(b)
  }

  ghost predicate SomeoneFrees(s: State) {
    exists t :: t in s.threads && s.threads[t].Freeing?
  }

  /** The installed box counts the live handles; the buffer is disposed of when, and only when, none is left. */
  ghost predicate CountOk(s: State) {
    if s.data.Arc? then
      && (forall c :: c in s.clones ==> s.clones[c] == s.data.box)
      && s.installs == 1
      && (Live(s) > 0 ==> s.data.box in s.boxes && s.boxes[s.data.box] == Live(s))
      && (Live(s) > 0 || SomeoneFrees(s) ==> s.frees + s.taken == 0)
      && (Live(s) == 0 && !SomeoneFrees(s) ==> s.data.box !in s.boxes && s.frees + s.taken == 1)
    else
      && s.clones == map[] && s.installs == 0 && s.frees + s.taken == if s.original then 0 else 1
  }

  ghost predicate Inv(s: State) {
    && (forall t :: t in s.threads ==> ThreadOk(s, s.threads[t]))
    && ThreadsApart(s.threads)
    && (forall b :: b in s.boxes ==> Owned(s, b))
    && CountOk(s)
  }

  function Init(threads: set<nat>): State {
    State(Vec, true, map[], map[], map t | t in threads :: Idle, 0, 0, 0)
  }

  lemma InitOk(threads: set<nat>)
    ensures Inv(Init(threads))
  {
  }

  /** No thread ever touches a box that has been freed, and no count is taken below zero. */
  lemma NoUseAfterFree(s: State, a: Action)
    requires Inv(s) && Enabled(s, a)
    ensures Safe(s, a)
  {
    assert ThreadOk(s, s.threads[a.t]);
    if a.DropClone? || a.CloneClone? { ClonesCounted(s, a.c); }
    if s.threads[a.t].Alone? { AloneCounted(s, a.t); }
  }

  ghost predicate Exists(s: State, who: Holder) {
    if who.Clone? then who.c in s.clones else s.original
  }

  ghost predicate NobodyAlone(s: State) {
    forall t :: t in s.threads ==> !s.threads[t].Alone?
  }

  lemma OneClone(m: map<nat, nat>, c: nat, d: nat)
    requires c in m && d in m && |m| <= 1
    ensures c == d
  {
    assert m.Keys == {c} by { assert |m.Keys - {c}| == |m.Keys| - 1; }
  }

  /** While a handle exists that nobody is consuming, nobody is consuming any handle. */
  lemma {:induction false} UnheldIsFree(s: State, who: Holder)
    requires Inv(s) && Exists(s, who) && !Held(s, who)
    ensures NobodyAlone(s)
  {
    forall t | t in s.threads ensures !s.threads[t].Alone? {
      if s.threads[t].Alone? {
        assert ThreadOk(s, s.threads[t]);
        SameHolder(s, who, s.threads[t].who);
        assert false;
      }
    }
  }

  lemma SameHolder(s: State, who: Holder, other: Holder)
    requires Live(s) == 1 && Exists(s, who) && Exists(s, other)
    ensures who == other
  {
    if who.Clone? && other.Clone? { OneClone(s.clones, who.c, other.c); }
    if who.Clone? || other.Clone? { assert s.clones != map[]; }
  }

  lemma CloningIsFree(s: State, t: nat)
    requires Inv(s) && t in s.threads && (InClone(s.threads[t]) || s.threads[t].Freeing?)
    ensures NobodyAlone(s)
  {
    assert ThreadOk(s, s.threads[t]);
    forall u | u in s.threads ensures !s.threads[u].Alone? { assert ThreadOk(s, s.threads[u]); }
  }

  /**
   * Nothing can happen between reading a count of one and taking the box: the count still is one, and the handle is the
   * only one there is.
   */
  lemma AloneCounted(s: State, t: nat)
    requires Inv(s) && t in s.threads && s.threads[t].Alone?
    ensures Exists(s, s.threads[t].who) && CountIsOne(s, s.threads[t].who) && BoxOf(s, s.threads[t].who) == s.data
    ensures s.frees + s.taken == 0
  {
    assert ThreadOk(s, s.threads[t]);
    if s.threads[t].who.Clone? { ClonesCounted(s, s.threads[t].who.c); }
  }

  lemma ClonesCounted(s: State, c: nat)
    requires Inv(s) && c in s.clones
    ensures s.data == Arc(s.clones[c]) && Live(s) >= 1 && s.clones[c] in s.boxes && s.boxes[s.clones[c]] == Live(s)
  {
    assert c in s.clones.Keys && |s.clones| == |s.clones.Keys|;
    assert s.clones != map[];
  }

  // ---------- every action keeps the invariant ----------

  lemma CardAdd(m: map<nat, nat>, h: nat, b: nat)
    requires h !in m
    ensures |m[h := b]| == |m| + 1
  {
    assert m[h := b].Keys == m.Keys + {h};
  }

  lemma CardRemove(m: map<nat, nat>, c: nat)
    requires c in m
    ensures |m - {c}| == |m| - 1
    ensures |m| == 1 ==> m - {c} == map[]
  {
    assert (m - {c}).Keys == m.Keys - {c};
    assert |m.Keys - {c}| == |m.Keys| - 1;
  }

  /** The four ways to a new clone of the installed box: only the count and the clones change. */
  lemma NewCloneKeeps(s: State, t: nat, h: nat, b: nat)
    requires Inv(s) && t in s.threads && !s.threads[t].Allocated? && !s.threads[t].Freeing?
    requires s.data == Arc(b) && Live(s) > 0 && h !in s.clones && NobodyAlone(s)
    ensures b in s.boxes && Inv(SetPc(s.(boxes := Add(s.boxes, b), clones := s.clones[h := b]), t, Idle))
  {
    var u := SetPc(s.(boxes := Add(s.boxes, b), clones := s.clones[h := b]), t, Idle);
    CardAdd(s.clones, h, b);
    forall k | k in u.threads ensures ThreadOk(u, u.threads[k]) { assert ThreadOk(s, s.threads[k]); }
    forall x | x in u.boxes ensures Owned(u, x) { KeepOwned(s, u, x, t); }
    assert !SomeoneFrees(u) by { assert forall k :: k in s.threads ==> ThreadOk(s, s.threads[k]); }
  }

  /** A box stays owned when only thread `t`, which did not hold it, moves on. */
  lemma KeepOwned(s: State, u: State, b: nat, t: nat)
    requires Owned(s, b) && t in s.threads && s.threads[t] != Allocated(b)
    requires u.data == s.data && forall k :: k in s.threads && k != t ==> k in u.threads && u.threads[k] == s.threads[k]
    ensures Owned(u, b)
  {
    if s.data != Arc(b) {
      var k :| k in s.threads && s.threads[k] == Allocated(b);
      assert u.threads[k] == Allocated(b);
    }
  }

  lemma LoadKeeps(s: State, t: nat)
    requires Inv(s) && Enabled(s, Load(t))
    ensures Inv(SetPc(s, t, Loaded(s.data)))
  {
    var u := SetPc(s, t, Loaded(s.data));
    UnheldIsFree(s, Original);
    forall k | k in u.threads ensures ThreadOk(u, u.threads[k]) { if k != t { assert ThreadOk(s, s.threads[k]); } }
    forall b | b in u.boxes ensures Owned(u, b) { KeepOwned(s, u, b, t); }
    assert !SomeoneFrees(u) by { assert forall k :: k in s.threads ==> ThreadOk(s, s.threads[k]); }
  }

  lemma AllocateKeeps(s: State, t: nat, b: nat)
    requires Inv(s) && Enabled(s, Allocate(t, b))
    ensures Inv(Apply(s, Allocate(t, b)))
  {
    var u := Apply(s, Allocate(t, b));
    CloningIsFree(s, t);
    AllocateThreads(s, t, b);
    forall x | x in u.boxes ensures Owned(u, x) {
      if x == b { assert u.threads[t] == Allocated(b); } else { KeepOwned(s, u, x, t); }
    }
    assert ThreadOk(s, s.threads[t]);
    assert !SomeoneFrees(u) by { assert forall k :: k in s.threads ==> ThreadOk(s, s.threads[k]); }
  }

  lemma AllocateThreads(s: State, t: nat, b: nat)
    requires Inv(s) && Enabled(s, Allocate(t, b))
    ensures var u := Apply(s, Allocate(t, b)); forall k :: k in u.threads ==> ThreadOk(u, u.threads[k])
  {
    var u := Apply(s, Allocate(t, b));
    CloningIsFree(s, t);
    assert ThreadOk(s, s.threads[t]);
    forall k | k in u.threads ensures ThreadOk(u, u.threads[k]) { assert ThreadOk(s, s.threads[k]); }
  }

  /** The winner installs its box: it counts the original and the new clone. */
  lemma SwapWins(s: State, t: nat, h: nat)
    requires Inv(s) && Enabled(s, Swap(t, h)) && s.data == Vec
    ensures Inv(Apply(s, Swap(t, h)))
  {
    var u := Apply(s, Swap(t, h));
    CloningIsFree(s, t);
    var b := s.threads[t].box;
    assert ThreadOk(s, s.threads[t]);
    forall k | k in u.threads ensures ThreadOk(u, u.threads[k]) { assert ThreadOk(s, s.threads[k]); }
    forall x | x in u.boxes ensures Owned(u, x) {
      if x != b {
        var k :| k in s.threads && s.threads[k] == Allocated(x);
        assert u.threads[k] == Allocated(x);
      }
    }
    CardAdd(s.clones, h, b);
    assert !SomeoneFrees(u) by { assert forall k :: k in s.threads ==> ThreadOk(s, s.threads[k]); }
  }

  /** A loser gives up its own box only: the buffer, the other handles and the installed count are untouched. */
  lemma LoserLeavesBuffer(s: State, t: nat, h: nat)
    requires Inv(s) && Enabled(s, Swap(t, h)) && s.data.Arc?
    ensures var u := Apply(s, Swap(t, h));
            && u.frees == s.frees && u.taken == s.taken && u.clones == s.clones && u.data == s.data
            && s.data.box in u.boxes && s.data.box in s.boxes && u.boxes[s.data.box] == s.boxes[s.data.box] == Live(s)
  {
    assert ThreadOk(s, s.threads[t]);
  }

  lemma SwapLoses(s: State, t: nat, h: nat)
    requires Inv(s) && Enabled(s, Swap(t, h)) && s.data.Arc?
    ensures Inv(Apply(s, Swap(t, h)))
  {
    var u := Apply(s, Swap(t, h));
    CloningIsFree(s, t);
    assert ThreadOk(s, s.threads[t]);
    LoserThreads(s, t, u);
    forall x | x in u.boxes ensures Owned(u, x) { KeepOwned(s, u, x, t); }
    assert !SomeoneFrees(u) by { assert forall k :: k in s.threads ==> ThreadOk(s, s.threads[k]); }
  }

  /** No other thread needs the box that a loser gives up. */
  lemma LoserThreads(s: State, t: nat, u: State)
    requires (forall k :: k in s.threads ==> ThreadOk(s, s.threads[k])) && ThreadsApart(s.threads) && s.data.Arc?
    requires t in s.threads && s.threads[t].Allocated?
    requires u == SetPc(s.(boxes := s.boxes - {s.threads[t].box}), t, Lost(s.data.box))
    ensures forall k :: k in u.threads ==> ThreadOk(u, u.threads[k])
  {
    forall k | k in u.threads ensures ThreadOk(u, u.threads[k]) { assert ThreadOk(s, s.threads[k]); }
  }

  /** One handle of the installed box goes away; the last one leaves its thread to free. */
  lemma ReleaseKeeps(s: State, t: nat, u: State)
    requires Inv(s) && t in s.threads && s.threads[t].Idle? && s.data.Arc? && Live(s) > 0
    requires s.data.box in s.boxes && s.boxes[s.data.box] > 0
    requires u == Release(s, t, s.data.box).(original := u.original, clones := u.clones)
    requires Live(u) == Live(s) - 1 && (forall c :: c in u.clones ==> c in s.clones && u.clones[c] == s.clones[c])
    requires NobodyAlone(s) && (u.original != s.original ==> Unborrowed(s))
    ensures Inv(u)
  {
    forall k | k in u.threads ensures ThreadOk(u, u.threads[k]) { assert ThreadOk(s, s.threads[k]); }
    forall x | x in u.boxes ensures Owned(u, x) { KeepOwned(s, u, x, t); }
    assert forall k :: k in s.threads ==> ThreadOk(s, s.threads[k]) && !s.threads[k].Freeing?;
    if Live(u) == 0 { assert u.threads[t].Freeing? && SomeoneFrees(u); } else { assert !SomeoneFrees(u); }
  }

  lemma DropOriginalKeeps(s: State, t: nat)
    requires Inv(s) && Enabled(s, DropOriginal(t)) && Safe(s, DropOriginal(t))
    ensures Inv(Apply(s, DropOriginal(t)))
  {
    var u := Apply(s, DropOriginal(t));
    UnheldIsFree(s, Original);
    if s.data == Vec {
      forall k | k in u.threads ensures ThreadOk(u, u.threads[k]) {
        assert ThreadOk(s, s.threads[k]) && !InClone(s.threads[k]);
      }
      assert forall b :: b in u.boxes ==> Owned(s, b);
    } else {
      ReleaseKeeps(s, t, u);
    }
  }

  /** The thread that counted down to zero frees the buffer, for the first time. */
  lemma FreeKeeps(s: State, t: nat)
    requires Inv(s) && Enabled(s, Free(t))
    ensures Safe(s, Free(t)) && Inv(Apply(s, Free(t))) && s.frees + s.taken == 0
  {
    assert ThreadOk(s, s.threads[t]);
    CloningIsFree(s, t);
    var u := Apply(s, Free(t));
    forall k | k in u.threads ensures ThreadOk(u, u.threads[k]) { assert ThreadOk(s, s.threads[k]); }
    assert forall x :: x in u.boxes ==> Owned(s, x);
    assert SomeoneFrees(s) && !SomeoneFrees(u);
  }

  /** The last handle takes the buffer out, whatever else its thread did before. */
  lemma EmptiedKeeps(s: State, t: nat, who: Holder)
    requires Inv(s) && t in s.threads && (s.threads[t].Idle? || s.threads[t] == Alone(who))
    requires Exists(s, who) && CountIsOne(s, who) && BoxOf(s, who) == s.data
    requires forall k :: k in s.threads && k != t ==> !s.threads[k].Alone? && !InClone(s.threads[k])
    ensures Inv(SetPc(Emptied(s, who), t, Idle)) && s.frees + s.taken == 0
  {
    var u := SetPc(Emptied(s, who), t, Idle);
    if who.Clone? { CardRemove(s.clones, who.c); }
    EmptiedLeaves(s, who);
    forall k | k in u.threads ensures ThreadOk(u, u.threads[k]) { assert ThreadOk(s, s.threads[k]); }
    forall x | x in s.boxes ensures Arc(x) == s.data { assert Owned(s, x); }
    assert !SomeoneFrees(u) by { assert forall k :: k in s.threads ==> ThreadOk(s, s.threads[k]); }
  }

  lemma EmptiedLeaves(s: State, who: Holder)
    requires Inv(s) && Exists(s, who) && CountIsOne(s, who) && BoxOf(s, who) == s.data
    ensures Live(s) == 1 && Live(Emptied(s, who)) == 0 && s.frees + s.taken == 0 && Emptied(s, who).clones == map[]
  {
    if who.Clone? {
      ClonesCounted(s, who.c);
      CardRemove(s.clones, who.c);
    }
  }

  /** Only one handle is left, so no clone of the original is under way. */
  lemma LastIsUnborrowed(s: State, t: nat, who: Holder)
    requires Inv(s) && t in s.threads && s.threads[t].Idle? && Available(s, who) && CountIsOne(s, who)
    ensures Exists(s, who) && BoxOf(s, who) == s.data && Live(s) == 1
    ensures forall k :: k in s.threads ==> !s.threads[k].Alone? && !InClone(s.threads[k])
  {
    UnheldIsFree(s, who);
    if who.Clone? { ClonesCounted(s, who.c); }
    forall k | k in s.threads ensures !InClone(s.threads[k]) {
      assert ThreadOk(s, s.threads[k]);
      if who.Clone? { assert s.clones != map[]; }
    }
  }

  /** A count of one lets the last handle take the buffer out in one step. */
  lemma TakeKeeps(s: State, t: nat, who: Holder)
    requires Inv(s) && Enabled(s, Take(t, who))
    ensures Safe(s, Take(t, who)) && Inv(Apply(s, Take(t, who))) && s.frees + s.taken == 0
  {
    LastIsUnborrowed(s, t, who);
    EmptiedKeeps(s, t, who);
    assert s.threads[t := Idle] == s.threads;
  }

  lemma CheckKeeps(s: State, t: nat, who: Holder)
    requires Inv(s) && Enabled(s, Check(t, who))
    ensures Safe(s, Check(t, who)) && Inv(Apply(s, Check(t, who)))
  {
    LastIsUnborrowed(s, t, who);
    var u := SetPc(s, t, Alone(who));
    forall k | k in u.threads ensures ThreadOk(u, u.threads[k]) { if k != t { assert ThreadOk(s, s.threads[k]); } }
    forall x | x in u.boxes ensures Owned(u, x) { KeepOwned(s, u, x, t); }
    assert !SomeoneFrees(u) by { assert forall k :: k in s.threads ==> ThreadOk(s, s.threads[k]); }
  }

  /** The box is taken in a second step, for the first time and by its only handle. */
  lemma TakeAloneKeeps(s: State, t: nat)
    requires Inv(s) && Enabled(s, TakeAlone(t))
    ensures Safe(s, TakeAlone(t)) && Inv(Apply(s, TakeAlone(t))) && s.frees + s.taken == 0
  {
    AloneCounted(s, t);
    EmptiedKeeps(s, t, s.threads[t].who);
  }

  lemma TakeVecKeeps(s: State, t: nat)
    requires Inv(s) && Enabled(s, TakeVec(t))
    ensures Inv(Apply(s, TakeVec(t))) && s.frees + s.taken == 0
  {
    var u := Apply(s, TakeVec(t));
    UnheldIsFree(s, Original);
    forall k | k in u.threads ensures ThreadOk(u, u.threads[k]) {
      assert ThreadOk(s, s.threads[k]) && !InClone(s.threads[k]);
    }
    assert forall b :: b in u.boxes ==> Owned(s, b);
  }

  /** Actions that add a clone to the installed box. */
  lemma CountUpKeeps(s: State, a: Action)
    requires Inv(s) && Enabled(s, a) && Safe(s, a) && (a.Bump? || a.BumpLost? || a.CloneClone?)
    ensures Inv(Apply(s, a))
  {
    assert ThreadOk(s, s.threads[a.t]);
    if a.CloneClone? {
      ClonesCounted(s, a.c);
      UnheldIsFree(s, Clone(a.c));
      NewCloneKeeps(s, a.t, a.h, s.clones[a.c]);
      assert s.threads[a.t := Idle] == s.threads;
    } else {
      CloningIsFree(s, a.t);
      NewCloneKeeps(s, a.t, a.h, s.data.box);
    }
  }

  lemma DropCloneKeeps(s: State, t: nat, c: nat)
    requires Inv(s) && Enabled(s, DropClone(t, c)) && Safe(s, DropClone(t, c))
    ensures Inv(Apply(s, DropClone(t, c)))
  {
    ClonesCounted(s, c);
    CardRemove(s.clones, c);
    UnheldIsFree(s, Clone(c));
    ReleaseKeeps(s, t, Apply(s, DropClone(t, c)));
  }

  lemma {:induction false} ActionKeeps(s: State, a: Action)
    requires Inv(s) && Enabled(s, a)
    ensures Safe(s, a) && Inv(Apply(s, a))
  {
    NoUseAfterFree(s, a);
    match a {
      case Load(t) => LoadKeeps(s, t);
      case Bump(_, _) => CountUpKeeps(s, a);
      case Allocate(t, b) => AllocateKeeps(s, t, b);
      case Swap(t, h) => if s.data == Vec { SwapWins(s, t, h); } else { SwapLoses(s, t, h); }
      case BumpLost(_, _) => CountUpKeeps(s, a);
      case CloneClone(_, _, _) => CountUpKeeps(s, a);
      case DropClone(t, c) => DropCloneKeeps(s, t, c);
      case DropOriginal(t) => DropOriginalKeeps(s, t);
      case Free(t) => FreeKeeps(s, t);
      case Take(t, who) => TakeKeeps(s, t, who);
      case TakeVec(t) => TakeVecKeeps(s, t);
      case Check(t, who) => CheckKeeps(s, t, who);
      case TakeAlone(t) => TakeAloneKeeps(s, t);
    }
  }

  // ---------- whole runs ----------

  /** Actions that each can happen where the ones before them have led. */
  ghost predicate Chained<S, A>(can: (S, A) -> bool, next: (S, A) -> S, s: S, actions: seq<A>, end: S)
    decreases |actions|
  {
    if actions == [] then end == s
    else can(s, actions[0]) && Chained(can, next, next(s, actions[0]), actions[1..], end)
  }

  lemma {:induction false} ChainedJoin<S, A>(can: (S, A) -> bool, next: (S, A) -> S, s: S, first: seq<A>, mid: S,
                                             second: seq<A>, end: S)
    requires Chained(can, next, s, first, mid) && Chained(can, next, mid, second, end)
    ensures Chained(can, next, s, first + second, end)
    decreases |first|
  {
    if first == [] {
      assert first + second == second;
    } else {
      ChainedJoin(can, next, next(s, first[0]), first[1..], mid, second, end);
      assert (first + second)[1..] == first[1..] + second;
    }
  }

  ghost predicate Can(s: State, a: Action) {
    Enabled(s, a) && Safe(s, a)
  }

  ghost function Next(s: State, a: Action): State {
    if Can(s, a) then Apply(s, a) else s
  }

  ghost predicate IsRun(s: State, actions: seq<Action>, end: State) {
    Chained(Can, Next, s, actions, end)
  }

  lemma {:induction false} RunKeeps(s: State, actions: seq<Action>, end: State)
    requires Inv(s) && IsRun(s, actions, end)
    ensures Inv(end)
    decreases |actions|
  {
    if actions != [] {
      ActionKeeps(s, actions[0]);
      RunKeeps(Next(s, actions[0]), actions[1..], end);
    }
  }

  ghost predicate Quiet(s: State) {
    forall t :: t in s.threads ==> s.threads[t].Idle?
  }

  /**
   * After any interleaving: at most one box was ever installed; while a handle lives the count is the number of live
   * handles and the buffer is still there; and when all are gone and all threads are idle, the buffer was disposed of
   * exactly once and no box is left.
   */
  lemma RaceIsSafe(threads: set<nat>, actions: seq<Action>, end: State)
    requires IsRun(Init(threads), actions, end)
    ensures end.installs <= 1 && end.frees + end.taken <= 1
    ensures Live(end) > 0 ==> end.frees + end.taken == 0
    ensures Live(end) > 0 && end.data.Arc? ==> end.data.box in end.boxes && end.boxes[end.data.box] == Live(end)
    ensures Live(end) == 0 && Quiet(end) ==> end.frees + end.taken == 1 && end.boxes == map[]
    ensures forall a :: Enabled(end, a) ==> Safe(end, a)
  {
    InitOk(threads);
    RunKeeps(Init(threads), actions, end);
    SafeState(end);
  }

  /** What the invariant says about installs, counts and the disposal of the buffer. */
  lemma SafeState(s: State)
    requires Inv(s)
    ensures s.installs <= 1 && s.frees + s.taken <= 1
    ensures Live(s) > 0 ==> s.frees + s.taken == 0
    ensures Live(s) > 0 && s.data.Arc? ==> s.data.box in s.boxes && s.boxes[s.data.box] == Live(s)
    ensures Live(s) == 0 && Quiet(s) ==> s.frees + s.taken == 1 && s.boxes == map[]
    ensures forall a :: Enabled(s, a) ==> Safe(s, a)
  {
    forall a | Enabled(s, a) ensures Safe(s, a) { NoUseAfterFree(s, a); }
    if Live(s) == 0 && Quiet(s) {
      assert !SomeoneFrees(s);
      assert forall b :: b in s.boxes ==> Owned(s, b);
    }
  }

  // ---------- every clone call finishes, with a handle ----------

  /** The last step of a clone call. */
  predicate Finishes(s: State, a: Action) {
    a.Bump? || a.BumpLost? || a.CloneClone? || (a.Swap? && s.data == Vec)
  }

  /** It hands out exactly one new handle, on the installed box, whose count is again the number of live handles. */
  lemma HandsOut(s: State, a: Action)
    requires Inv(s) && Enabled(s, a) && Finishes(s, a)
    ensures Safe(s, a) && a.h !in s.clones
    ensures var u := Apply(s, a);
            && u.data.Arc? && u.clones == s.clones[a.h := u.data.box] && u.original == s.original
            && Live(u) == Live(s) + 1 && u.data.box in u.boxes && u.boxes[u.data.box] == Live(u)
            && (s.data.Arc? ==> u.data == s.data && s.data.box in s.boxes && s.boxes[s.data.box] == Live(s))
            && u.threads == s.threads[a.t := Idle]
  {
    ActionKeeps(s, a);
    assert ThreadOk(s, s.threads[a.t]);
    if a.CloneClone? { ClonesCounted(s, a.c); }
    var u := Apply(s, a);
    assert u.clones.Keys == s.clones.Keys + {a.h};
    assert |u.clones| == |u.clones.Keys| && |s.clones| == |s.clones.Keys|;
    ClonesCounted(u, a.h);
    if a.CloneClone? { assert u.threads == s.threads[a.t := Idle]; }
  }

  /** How many actions of its own a thread is away from being idle, at most. */
  function Left(pc: Pc): (n: nat)
    ensures n <= 3 && (n == 0 <==> pc.Idle?)
  {
    match pc
    case Idle => 0
    case Loaded(w) => if w == Vec then 3 else 1
    case Allocated(_) => 2
    case _ => 1
  }

  /** No finite set uses up all numbers. */
  lemma {:induction false} SomeUnused(used: set<nat>) returns (n: nat)
    ensures n !in used && forall k :: k in used ==> k < n
    decreases |used|
  {
    n := 0;
    if used != {} {
      var k :| k in used;
      var rest := used - {k};
      var above := SomeUnused(rest);
      n := if above > k then above else k + 1;
      forall j | j in used ensures j < n { assert j == k || j in rest; }
    }
  }

  /** A thread in the middle of something can always go on, whatever the others are doing. */
  lemma Progress(s: State, t: nat) returns (a: Action)
    requires Inv(s) && t in s.threads && !s.threads[t].Idle?
    ensures a.t == t && Enabled(s, a) && Safe(s, a)
  {
    var h := SomeUnused(s.clones.Keys);
    var nb := SomeUnused(s.boxes.Keys + if s.data.Arc? then {s.data.box} else {});
    a := match s.threads[t]
         case Loaded(w) => if w == Vec then Allocate(t, nb) else Bump(t, h)
         case Allocated(_) => Swap(t, h)
         case Lost(_) => BumpLost(t, h)
         case Freeing(_) => Free(t)
         case _ => TakeAlone(t);
    NoUseAfterFree(s, a);
  }

  /** Nobody else's action moves a thread, and its own brings it closer to the end. */
  lemma StepCloser(s: State, a: Action, t: nat)
    requires Can(s, a) && t in s.threads
    ensures t in Apply(s, a).threads
    ensures a.t != t ==> Apply(s, a).threads[t] == s.threads[t]
    ensures a.t == t && !s.threads[t].Idle? ==> Left(Apply(s, a).threads[t]) < Left(s.threads[t])
  {
  }

  /** The thread is busy when each of the actions begins. */
  ghost predicate Busy(s: State, actions: seq<Action>, t: nat)
    decreases |actions|
  {
    actions != [] ==> t in s.threads && !s.threads[t].Idle? && Busy(Next(s, actions[0]), actions[1..], t)
  }

  function OwnSteps(actions: seq<Action>, t: nat): nat {
    if actions == [] then 0 else (if actions[0].t == t then 1 else 0) + OwnSteps(actions[1..], t)
  }

  /** Wait-free: whatever the interleaving, a thread that stays busy takes at most three actions of its own. */
  lemma {:induction false} WaitFree(s: State, actions: seq<Action>, end: State, t: nat)
    requires IsRun(s, actions, end) && t in s.threads && Busy(s, actions, t)
    ensures t in end.threads && OwnSteps(actions, t) + Left(end.threads[t]) <= Left(s.threads[t]) <= 3
    decreases |actions|
  {
    if actions != [] {
      StepCloser(s, actions[0], t);
      WaitFree(Next(s, actions[0]), actions[1..], end, t);
    }
  }

  // ---------- runs without interference ----------

  /** An action that is not the loss of a swap, nor what follows one. */
  ghost predicate CanWin(s: State, a: Action) {
    Can(s, a) && (a.Swap? ==> s.data == Vec) && !a.BumpLost?
  }

  /** A run in which every swap finds the word it expects, so that nobody ever loses. */
  ghost predicate WinningRun(s: State, actions: seq<Action>, end: State) {
    Chained(CanWin, Next, s, actions, end)
  }

  lemma {:induction false} WinningIsRun(s: State, actions: seq<Action>, end: State)
    requires WinningRun(s, actions, end)
    ensures IsRun(s, actions, end)
    decreases |actions|
  {
    if actions != [] { WinningIsRun(Next(s, actions[0]), actions[1..], end); }
  }

  lemma RunsJoin(s: State, first: seq<Action>, mid: State, second: seq<Action>, end: State)
    requires WinningRun(s, first, mid) && WinningRun(mid, second, end)
    ensures WinningRun(s, first + second, end)
  {
    ChainedJoin(CanWin, Next, s, first, mid, second, end);
  }

  /** What the action does to the state, and that it loses nothing. */
  ghost predicate Leads(s: State, a: Action, u: State) {
    Enabled(s, a) && Safe(s, a) && (a.Swap? ==> s.data == Vec) && !a.BumpLost? && u == Apply(s, a)
  }

  /** A run of one action. */
  lemma OneStep(s: State, a: Action, u: State)
    requires Inv(s) && Leads(s, a, u)
    ensures WinningRun(s, [a], u) && Inv(u)
  {
    ActionKeeps(s, a);
    assert [a][1..] == [] && u == Next(s, a);
    assert WinningRun(u, [], u);
  }

  /** A run of two actions. */
  lemma TwoSteps(s: State, a: Action, u: State, b: Action, v: State)
    requires Inv(s) && Leads(s, a, u) && Leads(u, b, v)
    ensures WinningRun(s, [a, b], v) && Inv(u) && Inv(v)
  {
    OneStep(s, a, u);
    OneStep(u, b, v);
    RunsJoin(s, [a], u, [b], v);
    assert [a] + [b] == [a, b];
  }
}
