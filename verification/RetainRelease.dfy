/** The retain/release protocol of an object with a nonpointer isa.

    Any number of threads run rootRetain, rootTryRetain, rootRelease and
    rootRetainCount on one object, one shared-memory access at a time. The shared
    state is the isa word, the object's refcount word in its side table, and the
    side table's lock. */
module RetainRelease {
  import opened Bits
  import opened IsaWord

  type Tid = nat
  type Ref = nat

  // ------------------------------------------------------------------ the side table

  // The refcount word keeps two flag bits at the bottom, so a count of one is four.
  const SIDE_TABLE_RC_ONE: nat := 4

  function SideTablePinned(l: Layout): nat { l.WordSize() / 2 }

  /** sidetable_addExtraRC_nolock: a pinned count stays, a carry pins it. */
  function AddExtraRc(l: Layout, refcnt: nat, delta: nat): nat {
    if refcnt >= SideTablePinned(l) then refcnt
    else if refcnt + SIDE_TABLE_RC_ONE * delta >= l.WordSize() then SideTablePinned(l) + refcnt % SIDE_TABLE_RC_ONE
    else refcnt + SIDE_TABLE_RC_ONE * delta
  }

  /** sidetable_subExtraRC_nolock: the new word and the count taken. The
      subtraction itself is unchecked and wraps. */
  function SubExtraRc(l: Layout, refcnt: nat, delta: nat): (nat, nat)
    requires l.Valid()
  {
    if refcnt == 0 then (0, 0)
    else ((refcnt - SIDE_TABLE_RC_ONE * delta) % l.WordSize(), delta)
  }

  function GetExtraRc(refcnt: nat): nat { refcnt / SIDE_TABLE_RC_ONE }

  // ------------------------------------------------------------------ thread programs

  datatype Outcome =
    | Retained(ref: Ref)
    | RetainFailed
    | Released(shouldDealloc: bool)
    | Counted(rc: nat, owned: nat, deallocating: bool)

  /** Where a thread is, with its local variables. `locked` is sideTableLocked;
      `handle` is handleOverflow or handleUnderflow; `seen` is oldisa. A try-retain
      runs under the side table lock, which its caller took. */
  datatype Thread =
    | TryRetainLock
    | RetainLoad(tryRetain: bool, handle: bool, locked: bool)
    | RetainStore(tryRetain: bool, handle: bool, locked: bool, seen: Isa)
    | RetainOverflowLock(seen: Isa)
    | RetainOverflowStore(tryRetain: bool, seen: Isa)
    | RetainTranscribe(ref: Ref)
    | ReleaseLoad(ref: Ref, handle: bool, locked: bool)
    | ReleaseStore(ref: Ref, handle: bool, locked: bool, seen: Isa)
    | ReleaseUnderflowLock(ref: Ref)
    | ReleaseBorrow(ref: Ref, seen: Isa)
    | ReleaseBorrowStore(ref: Ref, seen: Isa, borrowed: nat)
    | ReleaseSecondLoad(ref: Ref, borrowed: nat)
    | ReleaseSecondStore(ref: Ref, borrowed: nat, seen: Isa)
    | ReleasePutBack(ref: Ref, borrowed: nat)
    | ReleaseDealloc(ref: Ref, handle: bool, locked: bool, seen: Isa)
    | Overrelease(locked: bool)
    | CountLock
    | CountLoad
    | CountRead(seen: Isa, owned: nat)
    | Return(locked: bool, outcome: Outcome)
    | OtherObjectLock
    | OtherObjectUnlock

  predicate HoldsLock(th: Thread) {
    match th
    case RetainLoad(tryRetain, _, locked) => tryRetain || locked
    case RetainStore(tryRetain, _, locked, _) => tryRetain || locked
    case RetainOverflowStore(_, _) => true
    case RetainTranscribe(_) => true
    case ReleaseLoad(_, _, locked) => locked
    case ReleaseStore(_, _, locked, _) => locked
    case ReleaseBorrow(_, _) => true
    case ReleaseBorrowStore(_, _, _) => true
    case ReleaseSecondLoad(_, _) => true
    case ReleaseSecondStore(_, _, _) => true
    case ReleasePutBack(_, _) => true
    case ReleaseDealloc(_, _, locked, _) => locked
    case Overrelease(locked) => locked
    case CountLoad => true
    case CountRead(_, _) => true
    case Return(locked, _) => locked
    case OtherObjectUnlock => true
    case _ => false
  }

  predicate WaitsForLock(th: Thread) {
    th.TryRetainLock? || th.RetainOverflowLock? || th.ReleaseUnderflowLock? || th.CountLock? || th.OtherObjectLock?
  }

  /** A release that has not yet taken effect still owns the reference it gives up. */
  predicate Releasing(th: Thread) {
    th.ReleaseLoad? || th.ReleaseStore? || th.ReleaseUnderflowLock? || th.ReleaseBorrow? || th.ReleaseBorrowStore?
    || th.ReleaseSecondLoad? || th.ReleaseSecondStore? || th.ReleasePutBack? || th.ReleaseDealloc?
  }

  /** Counts that have left one half of the split count and not yet reached the other. */
  function CountsInFlight(l: Layout, th: Thread): nat {
    match th
    case RetainTranscribe(_) => l.half
    case ReleaseBorrowStore(_, _, borrowed) => borrowed
    case ReleaseSecondLoad(_, borrowed) => borrowed
    case ReleaseSecondStore(_, borrowed, _) => borrowed
    case ReleasePutBack(_, borrowed) => borrowed
    case _ => 0
  }

  // ------------------------------------------------------------------ the machine

  datatype Lock = Free | HeldBy(owner: Tid)

  /** `refs` is the set of owned references and `deallocs` counts the releases that
      set `deallocating`. */
  datatype State = State(
    isa: Isa, side: nat, lock: Lock,
    refs: set<Ref>, deallocs: nat,
    threads: map<Tid, Thread>)

  /** A new object: inline count zero, owned once. */
  ghost predicate Init(l: Layout, s: State) {
    && InRange(l, s.isa) && s.isa.extraRc == 0 && !s.isa.deallocating && !s.isa.hasSidetableRc
    && s.side == 0 && s.lock.Free? && |s.refs| == 1 && s.deallocs == 0 && s.threads == map[]
  }

  /** `Run` lets a thread do its next access; `storeOk` false makes a store-exclusive
      fail spuriously, and `newRef` names the reference a retain would create.
      `ChangeOtherBits` is a successful store by code that sets other bits of the word. */
  datatype Action =
    | StartRetain(t: Tid)
    | StartTryRetain(t: Tid)
    | StartRelease(t: Tid, ref: Ref)
    | StartCount(t: Tid)
    | StartOtherObject(t: Tid)
    | Run(t: Tid, storeOk: bool, newRef: Ref)
    | ChangeOtherBits(low: nat)

  /** Each release is matched by an owned reference that no other release is giving up. */
  ghost predicate Enabled(l: Layout, s: State, a: Action) {
    match a
    case StartRelease(t, ref) =>
      && t !in s.threads && ref in s.refs
      && forall u :: u in s.threads && Releasing(s.threads[u]) ==> s.threads[u].ref != ref
    case Run(t, _, newRef) =>
      t in s.threads && !s.threads[t].Overrelease? && newRef !in s.refs
      && (WaitsForLock(s.threads[t]) ==> s.lock.Free?)
    case ChangeOtherBits(low) => low < l.flagUnit
    case _ => a.t !in s.threads
  }

  function Goto(s: State, t: Tid, th: Thread): State {
    s.(threads := s.threads[t := th])
  }

  function Acquire(s: State, t: Tid, th: Thread): State {
    Goto(s, t, th).(lock := HeldBy(t))
  }

  /** A store-exclusive: it may fail spuriously and succeeds only on an unchanged word. */
  predicate StoreSucceeds(s: State, seen: Isa, storeOk: bool) {
    storeOk && s.isa == seen
  }

  function RunRetain(l: Layout, s: State, t: Tid, storeOk: bool, newRef: Ref): State
    requires t in s.threads
  {
    match s.threads[t]
    case TryRetainLock => Acquire(s, t, RetainLoad(true, false, false))
    case RetainLoad(tryRetain, handle, locked) =>
      if tryRetain && s.isa.deallocating then Goto(s, t, Return(true, RetainFailed))
      else if s.isa.extraRc + 1 < l.ExtraRcLimit() then Goto(s, t, RetainStore(tryRetain, handle, locked, s.isa))
      else if !handle then Goto(s, t, RetainLoad(tryRetain, true, false))
      else if !tryRetain && !locked then Goto(s, t, RetainOverflowLock(s.isa))
      else Goto(s, t, RetainOverflowStore(tryRetain, s.isa))
    case RetainStore(tryRetain, handle, locked, seen) =>
      if StoreSucceeds(s, seen, storeOk) then
        Goto(s, t, Return(tryRetain || locked, Retained(newRef)))
          .(isa := seen.(extraRc := seen.extraRc + 1), refs := s.refs + {newRef})
      else Goto(s, t, RetainLoad(tryRetain, handle, locked))
    case RetainOverflowLock(seen) => Acquire(s, t, RetainOverflowStore(false, seen))
    case RetainOverflowStore(tryRetain, seen) =>
      if StoreSucceeds(s, seen, storeOk) then
        Goto(s, t, RetainTranscribe(newRef))
          .(isa := seen.(extraRc := l.half, hasSidetableRc := true), refs := s.refs + {newRef})
      else Goto(s, t, RetainLoad(tryRetain, true, true))
    case RetainTranscribe(ref) =>
      Goto(s, t, Return(true, Retained(ref))).(side := AddExtraRc(l, s.side, l.half))
    case _ => s
  }

  /** A value stored in the extra_rc bit field is truncated to its width. */
  function ExtraRcField(l: Layout, value: int): (field: nat)
    requires l.Valid()
    ensures 0 <= value < l.ExtraRcLimit() ==> field == value
  {
    value % l.ExtraRcLimit()
  }

  function RunRelease(l: Layout, s: State, t: Tid, storeOk: bool): State
    requires l.Valid() && t in s.threads
  {
    match s.threads[t]
    case ReleaseLoad(ref, handle, locked) =>
      if s.isa.extraRc > 0 then Goto(s, t, ReleaseStore(ref, handle, locked, s.isa))
      else if !s.isa.hasSidetableRc then Goto(s, t, CheckDeallocating(ref, handle, locked, s.isa))
      else if !handle then Goto(s, t, ReleaseLoad(ref, true, false))
      else if !locked then Goto(s, t, ReleaseUnderflowLock(ref))
      else Goto(s, t, ReleaseBorrow(ref, s.isa))
    case ReleaseStore(ref, handle, locked, seen) =>
      if StoreSucceeds(s, seen, storeOk) then
        Goto(s, t, Return(locked, Released(false)))
          .(isa := seen.(extraRc := ExtraRcField(l, seen.extraRc - 1)), refs := s.refs - {ref})
      else Goto(s, t, ReleaseLoad(ref, handle, locked))
    case ReleaseUnderflowLock(ref) => Acquire(s, t, ReleaseLoad(ref, true, true))
    case ReleaseBorrow(ref, seen) =>
      var (rest, borrowed) := SubExtraRc(l, s.side, l.half);
      Goto(s, t, if borrowed > 0 then ReleaseBorrowStore(ref, seen, borrowed)
                 else CheckDeallocating(ref, true, true, seen)).(side := rest)
    case ReleaseBorrowStore(ref, seen, borrowed) =>
      if StoreSucceeds(s, seen, storeOk) then
        Goto(s, t, Return(true, Released(false)))
          .(isa := seen.(extraRc := ExtraRcField(l, borrowed - 1)), refs := s.refs - {ref})
      else Goto(s, t, ReleaseSecondLoad(ref, borrowed))
    case ReleaseSecondLoad(ref, borrowed) =>
      if s.isa.extraRc + borrowed - 1 >= l.ExtraRcLimit() then Goto(s, t, ReleasePutBack(ref, borrowed))
      else Goto(s, t, ReleaseSecondStore(ref, borrowed, s.isa))
    case ReleaseSecondStore(ref, borrowed, seen) =>
      if StoreSucceeds(s, seen, storeOk) then
        Goto(s, t, Return(true, Released(false)))
          .(isa := seen.(extraRc := ExtraRcField(l, seen.extraRc + borrowed - 1)), refs := s.refs - {ref})
      else Goto(s, t, ReleasePutBack(ref, borrowed))
    case ReleasePutBack(ref, borrowed) =>
      Goto(s, t, ReleaseLoad(ref, true, true)).(side := AddExtraRc(l, s.side, borrowed))
    case ReleaseDealloc(ref, handle, locked, seen) =>
      if StoreSucceeds(s, seen, storeOk) then
        Goto(s, t, Return(locked, Released(true)))
          .(isa := seen.(deallocating := true), refs := s.refs - {ref}, deallocs := s.deallocs + 1)
      else Goto(s, t, ReleaseLoad(ref, handle, locked))
    case _ => s
  }

  function CheckDeallocating(ref: Ref, handle: bool, locked: bool, seen: Isa): Thread {
    if seen.deallocating then Overrelease(locked) else ReleaseDealloc(ref, handle, locked, seen)
  }

  function RunOther(s: State, t: Tid): State
    requires t in s.threads
  {
    match s.threads[t]
    case CountLock => Acquire(s, t, CountLoad)
    case CountLoad => Goto(s, t, CountRead(s.isa, |s.refs|))
    case CountRead(seen, owned) =>
      var rc := 1 + seen.extraRc + if seen.hasSidetableRc then GetExtraRc(s.side) else 0;
      Goto(s, t, Return(true, Counted(rc, owned, seen.deallocating)))
    case Return(locked, _) => s.(threads := s.threads - {t}, lock := if locked then Free else s.lock)
    case OtherObjectLock => Acquire(s, t, OtherObjectUnlock)
    case OtherObjectUnlock => s.(threads := s.threads - {t}, lock := Free)
    case _ => s
  }

  predicate RetainPhase(th: Thread) {
    th.TryRetainLock? || th.RetainLoad? || th.RetainStore? || th.RetainOverflowLock?
    || th.RetainOverflowStore? || th.RetainTranscribe?
  }

  function Apply(l: Layout, s: State, a: Action): State
    requires l.Valid() && (a.Run? ==> a.t in s.threads)
  {
    match a
    case StartRetain(t) => Goto(s, t, RetainLoad(false, false, false))
    case StartTryRetain(t) => Goto(s, t, TryRetainLock)
    case StartRelease(t, ref) => Goto(s, t, ReleaseLoad(ref, false, false))
    case StartCount(t) => Goto(s, t, CountLock)
    case StartOtherObject(t) => Goto(s, t, OtherObjectLock)
    case ChangeOtherBits(low) => s.(isa := s.isa.(low := low))
    case Run(t, storeOk, newRef) =>
      var th := s.threads[t];
      if RetainPhase(th) then RunRetain(l, s, t, storeOk, newRef)
      else if Releasing(th) then RunRelease(l, s, t, storeOk)
      else RunOther(s, t)
  }

  // ------------------------------------------------------------------ the invariant

  /** One until the object starts deallocating: the reference the count leaves out. */
  function ImplicitCount(s: State): nat { if s.isa.deallocating then 0 else 1 }

  /** What the lock holder carries between the two halves of the split count. */
  function InFlight(l: Layout, s: State): nat {
    if s.lock.HeldBy? && s.lock.owner in s.threads then CountsInFlight(l, s.threads[s.lock.owner]) else 0
  }

  function TotalCount(l: Layout, s: State): nat {
    ImplicitCount(s) + s.isa.extraRc + GetExtraRc(s.side) + InFlight(l, s)
  }

  function Batches(l: Layout, n: nat): nat { SIDE_TABLE_RC_ONE * l.half * n }

  /** The side table holds whole batches of RC_HALF. */
  ghost predicate WholeBatches(l: Layout, side: nat) {
    exists n: nat :: side == Batches(l, n)
  }

  ghost predicate LockDiscipline(s: State) {
    forall t :: s.lock == HeldBy(t) <==> t in s.threads && HoldsLock(s.threads[t])
  }

  ghost predicate ThreadOk(l: Layout, s: State, th: Thread) {
    && (Releasing(th) ==> th.ref in s.refs)
    && match th
       case RetainLoad(_, handle, locked) => locked ==> handle
       case RetainStore(tryRetain, handle, locked, seen) =>
         (locked ==> handle) && (tryRetain ==> !seen.deallocating) && seen.extraRc + 1 < l.ExtraRcLimit()
       case RetainOverflowLock(seen) => seen.extraRc == l.ExtraRcLimit() - 1
       case RetainOverflowStore(tryRetain, seen) =>
         (tryRetain ==> !seen.deallocating) && seen.extraRc == l.ExtraRcLimit() - 1
       case RetainTranscribe(_) => s.isa.hasSidetableRc
       case ReleaseLoad(_, handle, locked) => locked ==> handle
       case ReleaseStore(_, handle, locked, seen) => (locked ==> handle) && seen.extraRc > 0
       case ReleaseBorrow(_, seen) =>
         seen.extraRc == 0 && seen.hasSidetableRc && s.isa.hasSidetableRc && (seen.deallocating ==> s.side > 0)
       case ReleaseBorrowStore(_, seen, borrowed) =>
         seen.extraRc == 0 && s.isa.hasSidetableRc && borrowed == l.half
       case ReleaseSecondLoad(_, borrowed) => s.isa.hasSidetableRc && borrowed == l.half
       case ReleaseSecondStore(_, borrowed, seen) =>
         s.isa.hasSidetableRc && borrowed == l.half && seen.extraRc + borrowed - 1 < l.ExtraRcLimit()
       case ReleasePutBack(_, borrowed) => s.isa.hasSidetableRc && borrowed == l.half
       case ReleaseDealloc(_, handle, locked, seen) =>
         && (locked ==> handle) && seen.extraRc == 0 && !seen.deallocating
         && (seen.hasSidetableRc ==> locked && s.side == 0)
       case Overrelease(_) => false
       case CountRead(seen, owned) =>
         owned == (if seen.deallocating then 0 else 1) + seen.extraRc
                  + (if seen.hasSidetableRc then GetExtraRc(s.side) else 0)
       case Return(_, Counted(rc, owned, deallocating)) => rc == owned + if deallocating then 1 else 0
       case _ => true
  }

  ghost predicate DistinctReleases(s: State) {
    forall t, u :: t in s.threads && u in s.threads && t != u && Releasing(s.threads[t]) && Releasing(s.threads[u])
      ==> s.threads[t].ref != s.threads[u].ref
  }

  ghost predicate Inv(l: Layout, s: State)
    requires l.Valid()
  {
    && InRange(l, s.isa)
    && s.deallocs == (if s.isa.deallocating then 1 else 0)
    && s.side < l.WordSize() && WholeBatches(l, s.side)
    && (!s.isa.hasSidetableRc ==> s.side == 0)
    && LockDiscipline(s)
    && |s.refs| == TotalCount(l, s)
    && DistinctReleases(s)
    && (forall t :: t in s.threads ==> ThreadOk(l, s, s.threads[t]))
  }

  // ------------------------------------------------------------------ preservation

  lemma BatchesAddSub(l: Layout, side: nat)
    requires l.Valid() && WholeBatches(l, side)
    ensures WholeBatches(l, side + SIDE_TABLE_RC_ONE * l.half)
    ensures side > 0 ==> side >= SIDE_TABLE_RC_ONE * l.half && WholeBatches(l, side - SIDE_TABLE_RC_ONE * l.half)
    ensures side % SIDE_TABLE_RC_ONE == 0
  {
    var n: nat :| side == Batches(l, n);
    var batch := SIDE_TABLE_RC_ONE * l.half;
    MulAssociative(SIDE_TABLE_RC_ONE, l.half, n);
    DivModUnique(side, SIDE_TABLE_RC_ONE, l.half * n, 0);
    MulDistributes(batch, n, 1);
    assert Batches(l, n + 1) == side + batch;
    if n > 0 {
      MulDistributes(batch, n - 1, 1);
      MulMonotone(batch, 1, n);
      assert Batches(l, n - 1) == side - batch;
    }
  }

  /** No more owned references than an unpinned side table word can count. */
  predicate Bounded(l: Layout, s: State) {
    SIDE_TABLE_RC_ONE * |s.refs| <= SideTablePinned(l)
  }

  ghost predicate Scalars(l: Layout, s: State) {
    && InRange(l, s.isa)
    && s.deallocs == (if s.isa.deallocating then 1 else 0)
    && s.side < l.WordSize() && WholeBatches(l, s.side)
    && (!s.isa.hasSidetableRc ==> s.side == 0)
  }

  /** What one thread's step may change without disturbing the rest. */
  ghost predicate LocalChange(s: State, s': State, t: Tid) {
    && (s'.lock == s.lock || (s.lock in {Free, HeldBy(t)} && s'.lock in {Free, HeldBy(t)}))
    && (s.isa.hasSidetableRc ==> s'.isa.hasSidetableRc)
    && (s'.side != s.side ==> s.lock == HeldBy(t))
    && (forall r :: r in s.refs && r !in s'.refs ==> t in s.threads && Releasing(s.threads[t]) && s.threads[t].ref == r)
  }

  /** Another thread's step does not disturb what a thread knows: the side table
      word changes only under the lock, has_sidetable_rc is never cleared, and a
      release removes only its own reference. */
  lemma OtherThreadOk(l: Layout, s: State, s': State, t: Tid, u: Tid)
    requires l.Valid() && Inv(l, s)
    requires u in s.threads && u != t
    requires s.isa.hasSidetableRc ==> s'.isa.hasSidetableRc
    requires s'.side != s.side ==> s.lock == HeldBy(t)
    requires Releasing(s.threads[u]) ==> s.threads[u].ref in s'.refs
    ensures ThreadOk(l, s', s.threads[u])
  {
    assert s.lock == HeldBy(u) <==> HoldsLock(s.threads[u]);
    assert ThreadOk(l, s, s.threads[u]);
  }

  lemma GotoKeepsLock(l: Layout, s: State, s': State, t: Tid, th: Thread)
    requires LockDiscipline(s) && LocalChange(s, s', t) && s'.threads == s.threads[t := th]
    requires HoldsLock(th) <==> s'.lock == HeldBy(t)
    ensures LockDiscipline(s')
  {
    forall u
      ensures s'.lock == HeldBy(u) <==> u in s'.threads && HoldsLock(s'.threads[u])
    {
      if u != t {
        assert s.lock == HeldBy(u) <==> u in s.threads && HoldsLock(s.threads[u]);
      }
    }
  }

  /** No other release gives up the reference that th gives up. */
  ghost predicate AloneAt(s: State, t: Tid, th: Thread) {
    Releasing(th) ==>
      forall u :: u in s.threads && u != t && Releasing(s.threads[u]) ==> s.threads[u].ref != th.ref
  }

  lemma GotoKeepsDistinct(s: State, s': State, t: Tid, th: Thread)
    requires DistinctReleases(s) && AloneAt(s, t, th) && s'.threads == s.threads[t := th]
    ensures DistinctReleases(s')
  {
  }

  lemma GotoKeepsThreads(l: Layout, s: State, s': State, t: Tid, th: Thread)
    requires l.Valid() && Inv(l, s) && LocalChange(s, s', t) && s'.threads == s.threads[t := th]
    requires ThreadOk(l, s', th)
    ensures forall u :: u in s'.threads ==> ThreadOk(l, s', s'.threads[u])
  {
    forall u | u in s'.threads
      ensures ThreadOk(l, s', s'.threads[u])
    {
      if u != t {
        if Releasing(s.threads[u]) {
          KeepsItsReference(l, s, s', t, u);
        }
        OtherThreadOk(l, s, s', t, u);
      }
    }
  }

  /** A release of another thread keeps the reference that it is giving up. */
  lemma KeepsItsReference(l: Layout, s: State, s': State, t: Tid, u: Tid)
    requires l.Valid() && Inv(l, s) && LocalChange(s, s', t)
    requires u in s.threads && u != t && Releasing(s.threads[u])
    ensures s.threads[u].ref in s'.refs
  {
    assert ThreadOk(l, s, s.threads[u]);
  }

  /** A local change that leaves the thread at `th` keeps the invariant. */
  lemma GotoKeepsInv(l: Layout, s: State, s': State, t: Tid, th: Thread)
    requires l.Valid() && Inv(l, s)
    requires s'.threads == s.threads[t := th] && LocalChange(s, s', t)
    requires Scalars(l, s') && |s'.refs| == TotalCount(l, s')
    requires HoldsLock(th) <==> s'.lock == HeldBy(t)
    requires ThreadOk(l, s', th) && AloneAt(s, t, th)
    ensures Inv(l, s')
  {
    GotoKeepsLock(l, s, s', t, th);
    GotoKeepsDistinct(s, s', t, th);
    GotoKeepsThreads(l, s, s', t, th);
  }

  /** A thread that returns leaves the invariant as it is. */
  lemma LeaveKeepsInv(l: Layout, s: State, s': State, t: Tid)
    requires l.Valid() && Inv(l, s)
    requires t in s.threads && !Releasing(s.threads[t]) && CountsInFlight(l, s.threads[t]) == 0
    requires s' == s.(threads := s.threads - {t}, lock := if HoldsLock(s.threads[t]) then Free else s.lock)
    ensures Inv(l, s')
  {
    forall u | u in s'.threads
      ensures ThreadOk(l, s', s'.threads[u])
    {
      OtherThreadOk(l, s, s', t, u);
    }
  }

  /** A step that changes no shared word, only where the thread is. */
  lemma StayKeepsInv(l: Layout, s: State, t: Tid, th: Thread)
    requires l.Valid() && Inv(l, s) && t in s.threads && ThreadOk(l, s, th)
    requires HoldsLock(th) == HoldsLock(s.threads[t]) && CountsInFlight(l, th) == CountsInFlight(l, s.threads[t])
    requires Releasing(th) ==> Releasing(s.threads[t]) && th.ref == s.threads[t].ref
    ensures Inv(l, Goto(s, t, th))
  {
    assert s.lock == HeldBy(t) <==> HoldsLock(s.threads[t]);
    GotoKeepsInv(l, s, Goto(s, t, th), t, th);
  }

  /** A successful store of a release: it gives up one reference and returns. */
  lemma GiveUpKeepsInv(l: Layout, s: State, s': State, t: Tid, th: Thread)
    requires l.Valid() && Inv(l, s) && t in s.threads && Releasing(s.threads[t])
    requires th.Return? && th.outcome.Released? && th.locked == HoldsLock(s.threads[t])
    requires s' == Goto(s, t, th).(isa := s'.isa, refs := s.refs - {s.threads[t].ref}, deallocs := s'.deallocs)
    requires InRange(l, s'.isa) && s'.isa.hasSidetableRc == s.isa.hasSidetableRc
    requires s'.deallocs == if s'.isa.deallocating then 1 else 0
    requires ImplicitCount(s') + s'.isa.extraRc + 1
             == ImplicitCount(s) + s.isa.extraRc + CountsInFlight(l, s.threads[t])
    ensures Inv(l, s')
  {
    assert ThreadOk(l, s, s.threads[t]);
    assert s.lock == HeldBy(t) <==> HoldsLock(s.threads[t]);
    assert |s'.refs| == |s.refs| - 1;
    InFlightAfter(l, s, s', t, th);
    GotoKeepsInv(l, s, s', t, th);
  }

  /** A successful store of a retain: it creates one reference. */
  lemma CreateKeepsInv(l: Layout, s: State, s': State, t: Tid, th: Thread, newRef: Ref)
    requires l.Valid() && Inv(l, s) && t in s.threads && RetainPhase(s.threads[t]) && newRef !in s.refs
    requires !Releasing(th) && HoldsLock(th) == HoldsLock(s.threads[t]) && CountsInFlight(l, s.threads[t]) == 0
    requires s' == Goto(s, t, th).(isa := s'.isa, refs := s.refs + {newRef}) && ThreadOk(l, s', th)
    requires InRange(l, s'.isa) && (s.isa.hasSidetableRc ==> s'.isa.hasSidetableRc)
    requires s'.isa.deallocating == s.isa.deallocating
    requires s'.isa.extraRc + CountsInFlight(l, th) == s.isa.extraRc + 1
    ensures Inv(l, s')
  {
    assert s.lock == HeldBy(t) <==> HoldsLock(s.threads[t]);
    assert |s'.refs| == |s.refs| + 1;
    InFlightAfter(l, s, s', t, th);
    GotoKeepsInv(l, s, s', t, th);
  }

  /** Only the lock holder's step changes what is in flight. */
  lemma InFlightAfter(l: Layout, s: State, s': State, t: Tid, th: Thread)
    requires LockDiscipline(s) && t in s.threads && s'.threads == s.threads[t := th] && s'.lock == s.lock
    requires HoldsLock(th) == HoldsLock(s.threads[t])
    ensures InFlight(l, s') - CountsInFlight(l, th) == InFlight(l, s) - CountsInFlight(l, s.threads[t])
  {
    assert s.lock == HeldBy(t) <==> HoldsLock(s.threads[t]);
  }

  lemma OtherBitsKeepInv(l: Layout, s: State, low: nat)
    requires l.Valid() && Inv(l, s) && Enabled(l, s, ChangeOtherBits(low))
    ensures Inv(l, Apply(l, s, ChangeOtherBits(low)))
  {
    var s' := Apply(l, s, ChangeOtherBits(low));
    assert s'.threads == s.threads;
    forall t | t in s'.threads
      ensures ThreadOk(l, s', s'.threads[t])
    {
      assert ThreadOk(l, s, s.threads[t]);
    }
  }

  lemma StartKeepsInv(l: Layout, s: State, a: Action)
    requires l.Valid() && Inv(l, s) && Enabled(l, s, a) && !a.Run?
    ensures Inv(l, Apply(l, s, a))
  {
    match a
    case ChangeOtherBits(low) => OtherBitsKeepInv(l, s, low);
    case StartRetain(t) => BeginKeepsInv(l, s, t, RetainLoad(false, false, false));
    case StartTryRetain(t) => BeginKeepsInv(l, s, t, TryRetainLock);
    case StartRelease(t, ref) => BeginKeepsInv(l, s, t, ReleaseLoad(ref, false, false));
    case StartCount(t) => BeginKeepsInv(l, s, t, CountLock);
    case StartOtherObject(t) => BeginKeepsInv(l, s, t, OtherObjectLock);
  }

  lemma BeginKeepsInv(l: Layout, s: State, t: Tid, th: Thread)
    requires l.Valid() && Inv(l, s) && t !in s.threads
    requires !HoldsLock(th) && ThreadOk(l, s, th)
    requires Releasing(th) ==>
               forall u :: u in s.threads && Releasing(s.threads[u]) ==> s.threads[u].ref != th.ref
    ensures Inv(l, Goto(s, t, th))
  {
    GotoKeepsInv(l, s, Goto(s, t, th), t, th);
  }

  /** While the lock holder carries a batch of a bounded count, putting it in the
      side table neither wraps nor pins the word. */
  lemma AddBatchIsExact(l: Layout, s: State)
    requires l.Valid() && Inv(l, s) && Bounded(l, s) && InFlight(l, s) == l.half
    ensures AddExtraRc(l, s.side, l.half) == s.side + SIDE_TABLE_RC_ONE * l.half < l.WordSize()
    ensures WholeBatches(l, AddExtraRc(l, s.side, l.half))
    ensures GetExtraRc(AddExtraRc(l, s.side, l.half)) == GetExtraRc(s.side) + l.half
  {
    BatchesAddSub(l, s.side);
    assert SIDE_TABLE_RC_ONE * (GetExtraRc(s.side) + l.half) <= SIDE_TABLE_RC_ONE * |s.refs|;
    WordSizePositive(l);
  }

  lemma WordSizePositive(l: Layout)
    requires l.Valid()
    ensures l.WordSize() >= 2
  {
    assert l.WordSize() == 2 * (l.RcOne() * l.half);
    MulMonotone(l.RcOne(), 1, l.half);
  }

  /** Taking a batch from a nonempty side table takes exactly RC_HALF and does not wrap. */
  lemma TakeBatchIsExact(l: Layout, side: nat)
    requires l.Valid() && WholeBatches(l, side) && side < l.WordSize()
    ensures side == 0 ==> SubExtraRc(l, side, l.half) == (0, 0)
    ensures side > 0 ==>
              && SubExtraRc(l, side, l.half) == (side - SIDE_TABLE_RC_ONE * l.half, l.half)
              && WholeBatches(l, side - SIDE_TABLE_RC_ONE * l.half)
              && GetExtraRc(side) == GetExtraRc(side - SIDE_TABLE_RC_ONE * l.half) + l.half
  {
    BatchesAddSub(l, side);
    if side > 0 {
      SmallMod(side - SIDE_TABLE_RC_ONE * l.half, l.WordSize());
    }
  }

  lemma RetainKeepsInv(l: Layout, s: State, t: Tid, storeOk: bool, newRef: Ref)
    requires l.Valid() && Inv(l, s) && Bounded(l, s) && Enabled(l, s, Run(t, storeOk, newRef))
    requires RetainPhase(s.threads[t])
    ensures Inv(l, RunRetain(l, s, t, storeOk, newRef))
  {
    match s.threads[t]
    case RetainStore(_, _, _, _) => RetainStoreKeepsInv(l, s, t, storeOk, newRef);
    case RetainOverflowStore(_, _) => RetainOverflowStoreKeepsInv(l, s, t, storeOk, newRef);
    case RetainTranscribe(_) => RetainTranscribeKeepsInv(l, s, t, storeOk, newRef);
    case RetainLoad(_, _, _) => RetainLoadKeepsInv(l, s, t, storeOk, newRef);
    case TryRetainLock => AcquireKeepsInv(l, s, t, RetainLoad(true, false, false));
    case RetainOverflowLock(seen) => AcquireKeepsInv(l, s, t, RetainOverflowStore(false, seen));
  }

  /** Taking the free lock keeps the invariant. */
  lemma AcquireKeepsInv(l: Layout, s: State, t: Tid, th: Thread)
    requires l.Valid() && Inv(l, s) && t in s.threads && s.lock.Free?
    requires HoldsLock(th) && CountsInFlight(l, th) == 0 && ThreadOk(l, s, th)
    requires Releasing(th) ==> Releasing(s.threads[t]) && th.ref == s.threads[t].ref
    ensures Inv(l, Acquire(s, t, th))
  {
    GotoKeepsInv(l, s, Acquire(s, t, th), t, th);
  }

  lemma RetainLoadStays(l: Layout, s: State, t: Tid, storeOk: bool, newRef: Ref)
    requires l.Valid() && InRange(l, s.isa)
    requires t in s.threads && s.threads[t].RetainLoad? && ThreadOk(l, s, s.threads[t])
    ensures var th := RunRetain(l, s, t, storeOk, newRef).threads[t];
            && RunRetain(l, s, t, storeOk, newRef) == Goto(s, t, th)
            && ThreadOk(l, s, th) && !Releasing(th)
            && HoldsLock(th) == HoldsLock(s.threads[t]) && CountsInFlight(l, th) == CountsInFlight(l, s.threads[t])
  {
  }

  lemma RetainLoadKeepsInv(l: Layout, s: State, t: Tid, storeOk: bool, newRef: Ref)
    requires l.Valid() && Inv(l, s) && t in s.threads && newRef !in s.refs && s.threads[t].RetainLoad?
    ensures Inv(l, RunRetain(l, s, t, storeOk, newRef))
  {
    assert ThreadOk(l, s, s.threads[t]);
    RetainLoadStays(l, s, t, storeOk, newRef);
    StayKeepsInv(l, s, t, RunRetain(l, s, t, storeOk, newRef).threads[t]);
  }

  lemma RetainTranscribeKeepsInv(l: Layout, s: State, t: Tid, storeOk: bool, newRef: Ref)
    requires l.Valid() && Inv(l, s) && Bounded(l, s) && t in s.threads && s.threads[t].RetainTranscribe?
    ensures Inv(l, RunRetain(l, s, t, storeOk, newRef))
  {
    var s' := RunRetain(l, s, t, storeOk, newRef);
    assert ThreadOk(l, s, s.threads[t]);
    assert s.lock == HeldBy(t);
    AddBatchIsExact(l, s);
    GotoKeepsInv(l, s, s', t, s'.threads[t]);
  }

  lemma RetainStoreKeepsInv(l: Layout, s: State, t: Tid, storeOk: bool, newRef: Ref)
    requires l.Valid() && Inv(l, s) && t in s.threads && newRef !in s.refs && s.threads[t].RetainStore?
    ensures Inv(l, RunRetain(l, s, t, storeOk, newRef))
  {
    var s' := RunRetain(l, s, t, storeOk, newRef);
    var th := s.threads[t];
    assert ThreadOk(l, s, th);
    if StoreSucceeds(s, th.seen, storeOk) {
      CreateKeepsInv(l, s, s', t, Return(th.tryRetain || th.locked, Retained(newRef)), newRef);
    } else {
      StayKeepsInv(l, s, t, RetainLoad(th.tryRetain, th.handle, th.locked));
    }
  }

  lemma RetainOverflowStoreKeepsInv(l: Layout, s: State, t: Tid, storeOk: bool, newRef: Ref)
    requires l.Valid() && Inv(l, s) && t in s.threads && newRef !in s.refs && s.threads[t].RetainOverflowStore?
    ensures Inv(l, RunRetain(l, s, t, storeOk, newRef))
  {
    var s' := RunRetain(l, s, t, storeOk, newRef);
    var th := s.threads[t];
    assert ThreadOk(l, s, th);
    if StoreSucceeds(s, th.seen, storeOk) {
      CreateKeepsInv(l, s, s', t, RetainTranscribe(newRef), newRef);
    } else {
      StayKeepsInv(l, s, t, RetainLoad(th.tryRetain, true, true));
    }
  }

  lemma ReleaseKeepsInv(l: Layout, s: State, t: Tid, storeOk: bool)
    requires l.Valid() && Inv(l, s) && Bounded(l, s) && t in s.threads && Releasing(s.threads[t])
    requires WaitsForLock(s.threads[t]) ==> s.lock.Free?
    ensures Inv(l, RunRelease(l, s, t, storeOk))
  {
    var th := s.threads[t];
    var s' := RunRelease(l, s, t, storeOk);
    assert ThreadOk(l, s, th);
    match th
    case ReleaseLoad(_, _, _) => ReleaseLoadKeepsInv(l, s, t, storeOk);
    case ReleaseStore(_, _, _, _) => ReleaseStoreKeepsInv(l, s, t, storeOk);
    case ReleaseUnderflowLock(ref) => AcquireKeepsInv(l, s, t, ReleaseLoad(ref, true, true));
    case ReleaseBorrow(_, _) => ReleaseBorrowKeepsInv(l, s, t, storeOk);
    case ReleasePutBack(_, _) =>
      AddBatchIsExact(l, s);
      GotoKeepsInv(l, s, s', t, s'.threads[t]);
    case ReleaseDealloc(_, _, _, _) => ReleaseDeallocKeepsInv(l, s, t, storeOk);
    case _ => ReleaseBorrowedKeepsInv(l, s, t, storeOk);
  }

  /** What a release knows of the counts when the loaded word underflows: with nothing in
      flight and nothing in the side table, the object is not deallocating yet. */
  lemma UnderflowIsLast(l: Layout, s: State, t: Tid)
    requires l.Valid() && Inv(l, s) && t in s.threads && s.threads[t].ReleaseLoad?
    ensures s.isa.extraRc == 0 && !s.isa.hasSidetableRc ==> !s.isa.deallocating
    ensures s.isa.extraRc == 0 && s.threads[t].locked && s.isa.deallocating ==> s.side > 0
  {
    assert ThreadOk(l, s, s.threads[t]);
    assert s.threads[t].ref in s.refs;
    assert s.lock == HeldBy(t) <==> s.threads[t].locked;
    if !s.isa.hasSidetableRc && s.lock.HeldBy? {
      assert ThreadOk(l, s, s.threads[s.lock.owner]);
    }
  }

  /** A loaded word that underflows was not deallocating, unless the side table has counts. */
  lemma ReleaseLoadKeepsInv(l: Layout, s: State, t: Tid, storeOk: bool)
    requires l.Valid() && Inv(l, s) && t in s.threads && s.threads[t].ReleaseLoad?
    ensures Inv(l, RunRelease(l, s, t, storeOk))
  {
    var th := s.threads[t];
    assert ThreadOk(l, s, th);
    UnderflowIsLast(l, s, t);
    StayKeepsInv(l, s, t, RunRelease(l, s, t, storeOk).threads[t]);
  }

  lemma ReleaseStoreKeepsInv(l: Layout, s: State, t: Tid, storeOk: bool)
    requires l.Valid() && Inv(l, s) && t in s.threads && s.threads[t].ReleaseStore?
    ensures Inv(l, RunRelease(l, s, t, storeOk))
  {
    var s' := RunRelease(l, s, t, storeOk);
    var th := s.threads[t];
    assert ThreadOk(l, s, th);
    if StoreSucceeds(s, th.seen, storeOk) {
      GiveUpKeepsInv(l, s, s', t, Return(th.locked, Released(false)));
    } else {
      StayKeepsInv(l, s, t, ReleaseLoad(th.ref, th.handle, th.locked));
    }
  }

  lemma ReleaseBorrowKeepsInv(l: Layout, s: State, t: Tid, storeOk: bool)
    requires l.Valid() && Inv(l, s) && t in s.threads && s.threads[t].ReleaseBorrow?
    ensures Inv(l, RunRelease(l, s, t, storeOk))
  {
    var s' := RunRelease(l, s, t, storeOk);
    assert ThreadOk(l, s, s.threads[t]);
    assert s.lock == HeldBy(t);
    TakeBatchIsExact(l, s.side);
    GotoKeepsInv(l, s, s', t, s'.threads[t]);
  }

  lemma SecondLoadKeepsInv(l: Layout, s: State, t: Tid, storeOk: bool)
    requires l.Valid() && Inv(l, s) && t in s.threads && s.threads[t].ReleaseSecondLoad?
    ensures Inv(l, RunRelease(l, s, t, storeOk))
  {
    assert ThreadOk(l, s, s.threads[t]);
    StayKeepsInv(l, s, t, RunRelease(l, s, t, storeOk).threads[t]);
  }

  /** The steps between borrowing a batch and storing it or giving up. */
  lemma ReleaseBorrowedKeepsInv(l: Layout, s: State, t: Tid, storeOk: bool)
    requires l.Valid() && Inv(l, s) && t in s.threads
    requires s.threads[t].ReleaseBorrowStore? || s.threads[t].ReleaseSecondLoad? || s.threads[t].ReleaseSecondStore?
    ensures Inv(l, RunRelease(l, s, t, storeOk))
  {
    var s' := RunRelease(l, s, t, storeOk);
    var th := s.threads[t];
    assert ThreadOk(l, s, th);
    if th.ReleaseSecondLoad? {
      SecondLoadKeepsInv(l, s, t, storeOk);
    } else if StoreSucceeds(s, th.seen, storeOk) {
      GiveUpKeepsInv(l, s, s', t, Return(true, Released(false)));
    } else {
      StayKeepsInv(l, s, t, s'.threads[t]);
    }
  }

  lemma ReleaseDeallocKeepsInv(l: Layout, s: State, t: Tid, storeOk: bool)
    requires l.Valid() && Inv(l, s) && t in s.threads && s.threads[t].ReleaseDealloc?
    ensures Inv(l, RunRelease(l, s, t, storeOk))
  {
    var s' := RunRelease(l, s, t, storeOk);
    var th := s.threads[t];
    assert ThreadOk(l, s, th);
    if StoreSucceeds(s, th.seen, storeOk) {
      GiveUpKeepsInv(l, s, s', t, Return(th.locked, Released(true)));
    } else {
      StayKeepsInv(l, s, t, ReleaseLoad(th.ref, th.handle, th.locked));
    }
  }

  lemma CountKeepsInv(l: Layout, s: State, t: Tid)
    requires l.Valid() && Inv(l, s) && t in s.threads && (s.threads[t].CountLoad? || s.threads[t].CountRead?)
    ensures Inv(l, RunOther(s, t))
  {
    assert ThreadOk(l, s, s.threads[t]);
    StayKeepsInv(l, s, t, RunOther(s, t).threads[t]);
  }

  lemma OtherKeepsInv(l: Layout, s: State, t: Tid)
    requires l.Valid() && Inv(l, s) && t in s.threads && !RetainPhase(s.threads[t]) && !Releasing(s.threads[t])
    requires WaitsForLock(s.threads[t]) ==> s.lock.Free?
    ensures Inv(l, RunOther(s, t))
  {
    var s' := RunOther(s, t);
    assert ThreadOk(l, s, s.threads[t]);
    if s.threads[t].CountLoad? || s.threads[t].CountRead? {
      CountKeepsInv(l, s, t);
    } else if t in s'.threads {
      GotoKeepsInv(l, s, s', t, s'.threads[t]);
    } else {
      LeaveKeepsInv(l, s, s', t);
    }
  }

  lemma StepKeepsInv(l: Layout, s: State, a: Action)
    requires l.Valid() && Inv(l, s) && Bounded(l, s) && Enabled(l, s, a)
    ensures Inv(l, Apply(l, s, a))
  {
    if a.Run? {
      if RetainPhase(s.threads[a.t]) {
        RetainKeepsInv(l, s, a.t, a.storeOk, a.newRef);
      } else if Releasing(s.threads[a.t]) {
        ReleaseKeepsInv(l, s, a.t, a.storeOk);
      } else {
        OtherKeepsInv(l, s, a.t);
      }
    } else {
      StartKeepsInv(l, s, a);
    }
  }

  // ------------------------------------------------------------------ whole runs

  /** Every action of the run is enabled in turn, from a state with a bounded count. */
  ghost predicate IsRun(l: Layout, s: State, actions: seq<Action>)
    requires l.Valid()
    decreases |actions|
  {
    actions == [] || (Bounded(l, s) && Enabled(l, s, actions[0]) && IsRun(l, Apply(l, s, actions[0]), actions[1..]))
  }

  function Final(l: Layout, s: State, actions: seq<Action>): State
    requires l.Valid() && IsRun(l, s, actions)
    decreases |actions|
  {
    if actions == [] then s else Final(l, Apply(l, s, actions[0]), actions[1..])
  }

  lemma {:induction false} RunKeepsInv(l: Layout, s: State, actions: seq<Action>)
    requires l.Valid() && Inv(l, s) && IsRun(l, s, actions)
    ensures Inv(l, Final(l, s, actions))
    decreases |actions|
  {
    if actions != [] {
      StepKeepsInv(l, s, actions[0]);
      RunKeepsInv(l, Apply(l, s, actions[0]), actions[1..]);
    }
  }

  lemma InitInv(l: Layout, s: State)
    requires l.Valid() && Init(l, s)
    ensures Inv(l, s)
  {
    assert s.side == Batches(l, 0);
    WordSizePositive(l);
  }

  ghost predicate Reachable(l: Layout, s: State)
    requires l.Valid()
  {
    exists s0, actions :: Init(l, s0) && IsRun(l, s0, actions) && Final(l, s0, actions) == s
  }

  lemma ReachableInv(l: Layout, s: State)
    requires l.Valid() && Reachable(l, s)
    ensures Inv(l, s)
  {
    var s0, actions :| Init(l, s0) && IsRun(l, s0, actions) && Final(l, s0, actions) == s;
    InitInv(l, s0);
    RunKeepsInv(l, s0, actions);
  }

  /** Conservation: in every reachable state the owned references are one (until
      dealloc starts), plus the inline count, plus the side count, plus the counts
      the lock holder is moving between them. */
  lemma CountIsConserved(l: Layout, s: State)
    requires l.Valid() && Reachable(l, s)
    ensures |s.refs| == (if s.isa.deallocating then 0 else 1) + s.isa.extraRc + GetExtraRc(s.side) + InFlight(l, s)
    ensures s.lock.Free? ==> InFlight(l, s) == 0
    ensures forall t :: t in s.threads && CountsInFlight(l, s.threads[t]) > 0 ==> s.lock == HeldBy(t)
  {
    ReachableInv(l, s);
  }

  /** No reachable thread is at the overrelease exit, and `deallocating` was set by
      exactly as many releases as it is set. */
  lemma NoOverreleaseOneDealloc(l: Layout, s: State)
    requires l.Valid() && Reachable(l, s)
    ensures forall t :: t in s.threads ==> !s.threads[t].Overrelease?
    ensures s.deallocs == if s.isa.deallocating then 1 else 0
  {
    ReachableInv(l, s);
    forall t | t in s.threads
      ensures !s.threads[t].Overrelease?
    {
      assert ThreadOk(l, s, s.threads[t]);
    }
  }

  /** Only a successful store on the dealloc path counts as a dealloc. */
  lemma DeallocStep(l: Layout, s: State, a: Action)
    requires l.Valid() && Enabled(l, s, a) && Apply(l, s, a).deallocs != s.deallocs
    ensures a.Run? && s.threads[a.t].ReleaseDealloc? && s.isa == s.threads[a.t].seen
    ensures Apply(l, s, a).refs == s.refs - {s.threads[a.t].ref} && Apply(l, s, a).isa.deallocating
  {
  }

  /** On the dealloc path nothing is counted anywhere. */
  lemma NothingLeft(l: Layout, s: State, t: Tid)
    requires l.Valid() && Inv(l, s) && t in s.threads && s.threads[t].ReleaseDealloc? && s.isa == s.threads[t].seen
    ensures s.isa.extraRc == 0 && s.side == 0 && InFlight(l, s) == 0 && !s.isa.deallocating
    ensures s.threads[t].ref in s.refs && |s.refs| == 1
  {
    assert ThreadOk(l, s, s.threads[t]);
    assert s.lock == HeldBy(t) <==> s.threads[t].locked;
    if s.lock.HeldBy? {
      assert ThreadOk(l, s, s.threads[s.lock.owner]);
    }
  }

  /** The step that sets `deallocating` is a release of the only reference left, with
      both halves of the count zero and nothing in flight. */
  lemma DeallocIsLastRelease(l: Layout, s: State, a: Action)
    requires l.Valid() && Reachable(l, s) && Enabled(l, s, a)
    requires Apply(l, s, a).deallocs != s.deallocs
    ensures a.Run? && Releasing(s.threads[a.t])
    ensures s.refs == {s.threads[a.t].ref} && Apply(l, s, a).refs == {}
    ensures !s.isa.deallocating && Apply(l, s, a).isa.deallocating
    ensures s.isa.extraRc == 0 && s.side == 0 && InFlight(l, s) == 0
  {
    ReachableInv(l, s);
    DeallocStep(l, s, a);
    NothingLeft(l, s, a.t);
    OnlyElement(s.refs, s.threads[a.t].ref);
  }

  lemma OnlyElement(refs: set<Ref>, ref: Ref)
    requires ref in refs && |refs| == 1
    ensures refs == {ref}
  {
    assert |refs - {ref}| == 0;
  }

  /** Conversely the last reference before dealloc is never given up any other way:
      a step that leaves no references leaves the object deallocating. */
  lemma NoReferenceMeansDeallocating(l: Layout, s: State)
    requires l.Valid() && Reachable(l, s) && s.refs == {}
    ensures s.isa.deallocating && s.deallocs == 1
    ensures s.isa.extraRc == 0 && GetExtraRc(s.side) == 0
  {
    ReachableInv(l, s);
  }

  /** A step in which a try-retain creates a reference starts from a word that is not deallocating. */
  lemma TryRetainNeedsLiveObject(l: Layout, s: State, a: Action)
    requires l.Valid() && Reachable(l, s) && Enabled(l, s, a) && a.Run? && RetainPhase(s.threads[a.t])
    requires Apply(l, s, a).refs != s.refs
    requires match s.threads[a.t]
             case RetainStore(tryRetain, _, _, _) => tryRetain
             case RetainOverflowStore(tryRetain, _) => tryRetain
             case _ => false
    ensures !s.isa.deallocating && s.refs != {}
  {
    ReachableInv(l, s);
    assert ThreadOk(l, s, s.threads[a.t]);
  }

  /** rootRetainCount returns the number of references owned at the instant it read
      the isa word, plus one if the object was deallocating then. */
  lemma RetainCountIsLinearizable(l: Layout, s: State, t: Tid)
    requires l.Valid() && Reachable(l, s) && t in s.threads
    requires s.threads[t].Return? && s.threads[t].outcome.Counted?
    ensures var c := s.threads[t].outcome; c.rc == c.owned + if c.deallocating then 1 else 0
  {
    ReachableInv(l, s);
    assert ThreadOk(l, s, s.threads[t]);
  }

  /** A release that borrowed from the side table never gives up the last reference,
      even of an object that is already deallocating. */
  lemma BorrowLeavesReferences(l: Layout, s: State, a: Action)
    requires l.Valid() && Reachable(l, s) && Bounded(l, s) && Enabled(l, s, a) && a.Run?
    requires s.threads[a.t].ReleaseBorrowStore? || s.threads[a.t].ReleaseSecondStore?
    ensures Apply(l, s, a).refs != {}
  {
    ReachableInv(l, s);
    assert ThreadOk(l, s, s.threads[a.t]);
    assert s.lock == HeldBy(a.t);
    assert |s.refs - {s.threads[a.t].ref}| == |s.refs| - 1;
  }

  /** Only a thread inside a call holds the lock, and whenever some thread is inside
      a call, some thread can take its next step. */
  lemma NoDeadlock(l: Layout, s: State, newRef: Ref)
    requires l.Valid() && Reachable(l, s) && newRef !in s.refs
    ensures s.lock.HeldBy? ==> s.lock.owner in s.threads
    ensures s.threads != map[] ==> exists t, storeOk :: Enabled(l, s, Run(t, storeOk, newRef))
  {
    ReachableInv(l, s);
    if s.threads != map[] {
      var u :| u in s.threads;
      var t := if s.lock.HeldBy? then s.lock.owner else u;
      assert s.lock.HeldBy? ==> HoldsLock(s.threads[t]);
      assert ThreadOk(l, s, s.threads[t]);
      assert Enabled(l, s, Run(t, true, newRef));
    }
  }

  /** The bound on owned references is needed: adding to the side table keeps the
      count exactly when the word is not pinned and does not carry. */
  lemma AddExtraRcIsExactIff(l: Layout, refcnt: nat, delta: nat)
    requires l.Valid() && refcnt < l.WordSize() && delta > 0
    ensures GetExtraRc(AddExtraRc(l, refcnt, delta)) == GetExtraRc(refcnt) + delta
            <==> refcnt < SideTablePinned(l) && refcnt + SIDE_TABLE_RC_ONE * delta < l.WordSize()
  {
    WordSizePositive(l);
    assert l.WordSize() == 8 * (l.flagUnit * l.half);
  }

  // ------------------------------------------------------------------ the word underneath

  /** The retain paths follow the carry of adding RC_ONE to the word, and a plain
      retain stores the sum. */
  lemma RetainIsWordArithmetic(l: Layout, s: State, a: Action)
    requires l.Valid() && Reachable(l, s) && Enabled(l, s, a) && a.Run?
    ensures var th, s' := s.threads[a.t], Apply(l, s, a);
            && (th.RetainLoad? && !(th.tryRetain && s.isa.deallocating) ==>
                  (Carries(l, s.isa, 1) <==> !s'.threads[a.t].RetainStore?))
            && (th.RetainStore? && s'.refs != s.refs ==> AddsToWord(l, s.isa, s'.isa, 1))
  {
    ReachableInv(l, s);
    assert ThreadOk(l, s, s.threads[a.t]);
    AddcIsExtraRc(l, s.isa, 1);
  }

  /** The release paths follow the borrow of subtracting RC_ONE from the word, and a
      plain release stores the difference. */
  lemma ReleaseIsWordArithmetic(l: Layout, s: State, a: Action)
    requires l.Valid() && Reachable(l, s) && Enabled(l, s, a) && a.Run?
    ensures var th, s' := s.threads[a.t], Apply(l, s, a);
            && (th.ReleaseLoad? ==> (Borrows(l, s.isa) <==> !s'.threads[a.t].ReleaseStore?))
            && (th.ReleaseStore? && s'.refs != s.refs ==> SubtractsFromWord(l, s.isa, s'.isa))
  {
    ReachableInv(l, s);
    var th := s.threads[a.t];
    assert ThreadOk(l, s, th);
    if th.ReleaseLoad? || th.ReleaseStore? {
      SubcIsExtraRc(l, s.isa);
      assert Apply(l, s, a) == RunRelease(l, s, a.t, a.storeOk);
    }
  }

  lemma SecondLoadFollowsCarry(l: Layout, s: State, t: Tid, storeOk: bool)
    requires l.Valid() && InRange(l, s.isa) && t in s.threads && ThreadOk(l, s, s.threads[t])
    requires s.threads[t].ReleaseSecondLoad?
    ensures s.threads[t].borrowed > 0
    ensures Carries(l, s.isa, s.threads[t].borrowed - 1)
            <==> !RunRelease(l, s, t, storeOk).threads[t].ReleaseSecondStore?
  {
    AddcIsExtraRc(l, s.isa, s.threads[t].borrowed - 1);
  }

  lemma SecondStoreAddsToWord(l: Layout, s: State, t: Tid, storeOk: bool)
    requires l.Valid() && InRange(l, s.isa) && t in s.threads && ThreadOk(l, s, s.threads[t])
    requires s.threads[t].ReleaseSecondStore?
    ensures s.threads[t].borrowed > 0
    ensures var s' := RunRelease(l, s, t, storeOk);
            s'.refs != s.refs ==> AddsToWord(l, s.isa, s'.isa, s.threads[t].borrowed - 1)
  {
    AddcIsExtraRc(l, s.isa, s.threads[t].borrowed - 1);
  }

  /** The second chance to store borrowed counts follows the carry of adding all of
      them but one to the word, and stores the sum. */
  lemma SecondChanceIsWordArithmetic(l: Layout, s: State, a: Action)
    requires l.Valid() && Reachable(l, s) && Enabled(l, s, a) && a.Run?
    requires s.threads[a.t].ReleaseSecondLoad? || s.threads[a.t].ReleaseSecondStore?
    ensures s.threads[a.t].borrowed > 0
    ensures var th, s' := s.threads[a.t], Apply(l, s, a);
            && (th.ReleaseSecondLoad? ==>
                  (Carries(l, s.isa, th.borrowed - 1) <==> !s'.threads[a.t].ReleaseSecondStore?))
            && (th.ReleaseSecondStore? && s'.refs != s.refs ==> AddsToWord(l, s.isa, s'.isa, th.borrowed - 1))
  {
    ReachableInv(l, s);
    assert ThreadOk(l, s, s.threads[a.t]);
    assert Apply(l, s, a) == RunRelease(l, s, a.t, a.storeOk);
    if s.threads[a.t].ReleaseSecondLoad? {
      SecondLoadFollowsCarry(l, s, a.t, a.storeOk);
    } else {
      SecondStoreAddsToWord(l, s, a.t, a.storeOk);
    }
  }
}
