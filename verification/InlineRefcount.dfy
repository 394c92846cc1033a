/** The inline reference count that a class keeps in a signed ivar, with
    deallocation decided by a logic block that may resurrect the object.

    The ivar is even while the object lives: 2n - 2 for n owned references, so -2
    is the logical zero. One compare-and-swap from -2 to 1 starts deallocation. */
module InlineRefcount {

  type Tid = nat
  type Ref = nat

  datatype Fate = Resurrect | DeallocNow | DeallocLater | Bogus

  /** A thread inside release after the count reached zero, or inside _tryRetain.
      `resurrected` records that the running logic block has called -retain. `Tried` returns
      from _tryRetain, and `Disposing` deallocates the object, now or on the main queue. */
  datatype Thread =
    | LogicBlock(resurrected: bool)
    | MarkDeallocating(fate: Fate)
    | TryRetainLoad
    | TryRetainSwap(prev: int)
    | Tried(answer: bool)
    | Disposing(fate: Fate)
    | Trap

  /** `refs` are the owned references; `deallocs` counts deallocations started. */
  datatype State = State(rc: int, refs: set<Ref>, deallocs: nat, threads: map<Tid, Thread>)

  datatype Action =
    | Retain(t: Tid, newRef: Ref)
    | Release(t: Tid, ref: Ref)
    | BlockRetain(t: Tid, newRef: Ref)
    | BlockReturn(t: Tid, fate: Fate)
    | Mark(t: Tid)
    | StartTryRetain(t: Tid)
    | TryLoad(t: Tid)
    | TrySwap(t: Tid, newRef: Ref)
    | Finish(t: Tid)

  // ------------------------------------------------------------------ arithmetic of the ivar

  /** `limit` is one past the largest value of the ivar's signed type. */
  ghost predicate ValidLimit(limit: int) { limit >= 4 && limit % 2 == 0 }

  /** Signed wrap-around of an ivar in -limit..limit-1. */
  function Wrap(limit: int, x: int): int {
    if x >= limit then x - 2 * limit else if x < -limit then x + 2 * limit else x
  }

  predicate Odd(x: int) { x % 2 == 1 }

  /** -retainCount shifts right by one, rounding down. */
  function RetainCount(rc: int): int { (rc + 2) / 2 }

  datatype Answer = Yes | No | Trapped

  function IsDeallocating(rc: int): Answer {
    if rc == -2 then Yes else if rc < -2 then Trapped else if Odd(rc) then Yes else No
  }

  // ------------------------------------------------------------------ the machine

  ghost predicate Init(s: State) {
    s.rc == 0 && |s.refs| == 1 && s.deallocs == 0 && s.threads == map[]
  }

  /** What can happen at all: any caller may retain or release at any time. */
  ghost predicate Enabled(s: State, a: Action) {
    match a
    case Retain(t, newRef) => t !in s.threads && newRef !in s.refs
    case Release(t, _) => t !in s.threads
    case BlockRetain(t, newRef) => t in s.threads && s.threads[t].LogicBlock? && newRef !in s.refs
    case BlockReturn(t, _) => t in s.threads && s.threads[t].LogicBlock?
    case Mark(t) => t in s.threads && s.threads[t].MarkDeallocating?
    case StartTryRetain(t) => t !in s.threads
    case TryLoad(t) => t in s.threads && s.threads[t].TryRetainLoad?
    case TrySwap(t, newRef) => t in s.threads && s.threads[t].TryRetainSwap? && newRef !in s.refs
    case Finish(t) => t in s.threads && (s.threads[t].Tried? || s.threads[t].Disposing?)
  }

  /** The calling discipline: a retain needs some owned reference, the running dealloc,
      or the logic block deciding to resurrect; a release gives up an owned
      reference; and the block resurrects exactly when it has called -retain. */
  ghost predicate Matched(s: State, a: Action) {
    match a
    case Retain(_, _) => s.refs != {} || Odd(s.rc)
    case Release(_, ref) => ref in s.refs
    case BlockRetain(t, _) => t in s.threads && s.threads[t] == LogicBlock(false)
    case BlockReturn(t, fate) =>
      t in s.threads && fate != Bogus && (fate == Resurrect <==> s.threads[t] == LogicBlock(true))
    case _ => true
  }

  function Goto(s: State, t: Tid, th: Thread): State { s.(threads := s.threads[t := th]) }

  function Leave(s: State, t: Tid): State { s.(threads := s.threads - {t}) }

  /** __sync_fetch_and_add(&ivar, 2) by a retain that creates `newRef`. */
  function FetchAddTwo(limit: int, s: State, newRef: Ref): State {
    s.(rc := Wrap(limit, s.rc + 2), refs := s.refs + {newRef})
  }

  function Apply(limit: int, s: State, a: Action): State
    requires Enabled(s, a)
  {
    match a
    case Retain(t, newRef) =>
      var s' := FetchAddTwo(limit, s, newRef);
      if s.rc < -2 then Goto(s', t, Trap) else s'
    case Release(t, ref) =>
      var s' := s.(rc := Wrap(limit, s.rc - 2), refs := s.refs - {ref});
      if s.rc > 0 then s' else if s.rc < 0 then Goto(s', t, Trap) else Goto(s', t, LogicBlock(false))
    case BlockRetain(t, newRef) =>
      var s' := FetchAddTwo(limit, s, newRef);
      if s.rc < -2 then Goto(s', t, Trap) else Goto(s', t, LogicBlock(true))
    case BlockReturn(t, fate) =>
      if fate == Resurrect then Leave(s, t) else Goto(s, t, MarkDeallocating(fate))
    case Mark(t) =>
      if s.rc != -2 then Goto(s, t, Trap)
      else
        var s' := s.(rc := 1, deallocs := s.deallocs + 1);
        if s.threads[t].fate == Bogus then Goto(s', t, Trap) else Goto(s', t, Disposing(s.threads[t].fate))
    case StartTryRetain(t) => Goto(s, t, TryRetainLoad)
    case TryLoad(t) =>
      if Odd(s.rc) || s.rc == -2 then Goto(s, t, Tried(false))
      else if s.rc < -2 then Goto(s, t, Trap)
      else Goto(s, t, TryRetainSwap(s.rc))
    case TrySwap(t, newRef) =>
      if s.rc == s.threads[t].prev then Goto(FetchAddTwo(limit, s, newRef), t, Tried(true))
      else Goto(s, t, TryRetainLoad)
    case Finish(t) => Leave(s, t)
  }

  ghost predicate IsRun(limit: int, s: State, actions: seq<Action>)
    decreases |actions|
  {
    actions == [] || (Enabled(s, actions[0]) && IsRun(limit, Apply(limit, s, actions[0]), actions[1..]))
  }

  ghost function Final(limit: int, s: State, actions: seq<Action>): State
    requires IsRun(limit, s, actions)
    decreases |actions|
  {
    if actions == [] then s else Final(limit, Apply(limit, s, actions[0]), actions[1..])
  }

  /** A run in which every call is matched and the count stays within the ivar's type. */
  ghost predicate IsMatchedRun(limit: int, s: State, actions: seq<Action>)
    decreases |actions|
  {
    actions == [] || (&& 2 * |s.refs| + 3 < limit && Enabled(s, actions[0]) && Matched(s, actions[0])
                      && IsMatchedRun(limit, Apply(limit, s, actions[0]), actions[1..]))
  }

  // ------------------------------------------------------------------ every run, matched or not

  ghost predicate ParityTracksDealloc(s: State) {
    s.deallocs == (if Odd(s.rc) then 1 else 0)
  }

  ghost predicate SwapsAreOfLiveCounts(s: State) {
    forall t :: t in s.threads && s.threads[t].TryRetainSwap? ==>
                  s.threads[t].prev >= 0 && !Odd(s.threads[t].prev)
  }

  ghost predicate ParityInv(s: State) {
    ParityTracksDealloc(s) && SwapsAreOfLiveCounts(s)
  }

  lemma AddEven(x: int, d: int)
    ensures Odd(x + 2 * d) <==> Odd(x)
  {
  }

  lemma WrapKeepsParity(limit: int, x: int)
    ensures Odd(Wrap(limit, x + 2)) <==> Odd(x)
    ensures Odd(Wrap(limit, x - 2)) <==> Odd(x)
  {
    AddEven(x, 1);
    AddEven(x, -1);
    AddEven(x + 2, limit);
    AddEven(x + 2, -limit);
    AddEven(x - 2, limit);
    AddEven(x - 2, -limit);
  }

  lemma StepKeepsCountParity(limit: int, s: State, a: Action)
    requires ParityTracksDealloc(s) && Enabled(s, a)
    ensures ParityTracksDealloc(Apply(limit, s, a))
    ensures Odd(s.rc) ==> Odd(Apply(limit, s, a).rc)
  {
    WrapKeepsParity(limit, s.rc);
  }

  lemma StepKeepsSwaps(limit: int, s: State, a: Action)
    requires SwapsAreOfLiveCounts(s) && Enabled(s, a)
    ensures SwapsAreOfLiveCounts(Apply(limit, s, a))
  {
  }

  lemma StepKeepsParity(limit: int, s: State, a: Action)
    requires ValidLimit(limit) && ParityInv(s) && Enabled(s, a)
    ensures ParityInv(Apply(limit, s, a))
    ensures Odd(s.rc) ==> Odd(Apply(limit, s, a).rc)
  {
    StepKeepsCountParity(limit, s, a);
    StepKeepsSwaps(limit, s, a);
  }

  lemma {:induction false} RunKeepsParity(limit: int, s: State, actions: seq<Action>)
    requires ValidLimit(limit) && ParityInv(s) && IsRun(limit, s, actions)
    ensures ParityInv(Final(limit, s, actions))
    ensures Odd(s.rc) ==> Odd(Final(limit, s, actions).rc)
    decreases |actions|
  {
    if actions != [] {
      StepKeepsParity(limit, s, actions[0]);
      RunKeepsParity(limit, Apply(limit, s, actions[0]), actions[1..]);
    }
  }

  lemma InitParity(s: State)
    requires Init(s)
    ensures ParityInv(s)
  {
  }

  /** Some run of any callers, matched or not, leads to the state. */
  ghost predicate ReachedByAny(limit: int, s: State) {
    exists s0, actions :: Init(s0) && IsRun(limit, s0, actions) && s == Final(limit, s0, actions)
  }

  lemma ReachedParity(limit: int, s: State)
    requires ValidLimit(limit) && ReachedByAny(limit, s)
    ensures ParityInv(s)
  {
    var s0, actions :| Init(s0) && IsRun(limit, s0, actions) && s == Final(limit, s0, actions);
    InitParity(s0);
    RunKeepsParity(limit, s0, actions);
  }

  /** Over every interleaving, over-releases, resurrections and wrap-around included:
      the ivar is even until deallocation starts and odd ever after, and deallocation
      starts at most once. */
  lemma DeallocStartsAtMostOnce(limit: int, s: State, later: seq<Action>)
    requires ValidLimit(limit) && ReachedByAny(limit, s) && IsRun(limit, s, later)
    ensures s.deallocs <= 1 && (s.deallocs == 1 <==> Odd(s.rc))
    ensures var s' := Final(limit, s, later);
            s.deallocs <= s'.deallocs <= 1 && (Odd(s.rc) ==> Odd(s'.rc))
  {
    ReachedParity(limit, s);
    RunKeepsParity(limit, s, later);
  }

  /** A try-retain that creates a reference found the ivar even and not at logical
      zero, before any deallocation, in every run. */
  lemma TryRetainNeverRevives(limit: int, s: State, t: Tid, newRef: Ref)
    requires ValidLimit(limit) && ReachedByAny(limit, s) && Enabled(s, TrySwap(t, newRef))
    requires Apply(limit, s, TrySwap(t, newRef)).refs != s.refs
    ensures s.rc >= 0 && !Odd(s.rc) && s.deallocs == 0
  {
    ReachedParity(limit, s);
    assert s.threads[t].TryRetainSwap?;
  }

  /** What _tryRetain answers, in every run: a load fails exactly if the ivar it read is
      odd or logical zero, and traps below that; a swap answers yes exactly if it creates
      the reference, and else the loop goes on. */
  lemma TryRetainAnswers(limit: int, s: State, a: Action)
    requires ValidLimit(limit) && ReachedByAny(limit, s) && Enabled(s, a) && (a.TryLoad? || a.TrySwap?)
    ensures var s' := Apply(limit, s, a);
            && a.t in s'.threads && s'.deallocs == s.deallocs
            && (s'.threads[a.t] == Tried(true) <==> s'.refs != s.refs)
            && (s'.refs != s.refs ==>
                  && a.TrySwap? && s.rc == s.threads[a.t].prev
                  && s'.refs == s.refs + {a.newRef} && s'.rc == Wrap(limit, s.rc + 2))
            && (s'.refs == s.refs ==> s'.rc == s.rc)
            && (s'.threads[a.t] == Tried(false) <==> a.TryLoad? && (Odd(s.rc) || s.rc == -2))
            && (s'.threads[a.t] == Trap <==> a.TryLoad? && !Odd(s.rc) && s.rc < -2)
            && (a.TryLoad? && !Odd(s.rc) && s.rc >= 0 ==> s'.threads[a.t] == TryRetainSwap(s.rc))
            && (a.TrySwap? && s'.refs == s.refs ==> s'.threads[a.t] == TryRetainLoad)
  {
  }

  // ------------------------------------------------------------------ matched runs

  /** A thread that acts on the logical zero it produced. */
  predicate AtZero(th: Thread) { th == LogicBlock(false) || th.MarkDeallocating? }

  ghost predicate Inv(s: State) {
    && ParityInv(s)
    && s.rc == (if Odd(s.rc) then 2 * |s.refs| + 1 else 2 * |s.refs| - 2)
    && (forall t :: t in s.threads ==> !s.threads[t].Trap? && s.threads[t] != MarkDeallocating(Bogus))
    && (forall t :: t in s.threads && AtZero(s.threads[t]) ==> s.rc == -2)
    && (forall t, u :: t in s.threads && u in s.threads && AtZero(s.threads[t]) && AtZero(s.threads[u]) ==> t == u)
  }

  lemma NoRefs(s: State)
    ensures |s.refs| == 0 <==> s.refs == {}
  {
  }

  lemma RetainKeepsInv(limit: int, s: State, a: Action)
    requires ValidLimit(limit) && Inv(s) && 2 * |s.refs| + 3 < limit && Enabled(s, a) && Matched(s, a)
    requires a.Retain?
    ensures Inv(Apply(limit, s, a))
  {
    StepKeepsParity(limit, s, a);
    NoRefs(s);
    assert |s.refs + {a.newRef}| == |s.refs| + 1;
  }

  lemma BlockRetainKeepsInv(limit: int, s: State, a: Action)
    requires ValidLimit(limit) && Inv(s) && 2 * |s.refs| + 3 < limit && Enabled(s, a) && Matched(s, a)
    requires a.BlockRetain?
    ensures Inv(Apply(limit, s, a))
  {
    StepKeepsParity(limit, s, a);
    assert AtZero(s.threads[a.t]);
    assert |s.refs + {a.newRef}| == |s.refs| + 1;
  }

  lemma TrySwapKeepsInv(limit: int, s: State, a: Action)
    requires ValidLimit(limit) && Inv(s) && 2 * |s.refs| + 3 < limit && Enabled(s, a) && Matched(s, a)
    requires a.TrySwap?
    ensures Inv(Apply(limit, s, a))
  {
    StepKeepsParity(limit, s, a);
    assert |s.refs + {a.newRef}| == |s.refs| + 1;
  }

  lemma ReleaseKeepsInv(limit: int, s: State, a: Action)
    requires ValidLimit(limit) && Inv(s) && 2 * |s.refs| + 3 < limit && Enabled(s, a) && Matched(s, a)
    requires a.Release?
    ensures Inv(Apply(limit, s, a))
  {
    StepKeepsParity(limit, s, a);
    NoRefs(s);
    assert |s.refs - {a.ref}| == |s.refs| - 1;
  }

  lemma LocalStepKeepsInv(limit: int, s: State, a: Action)
    requires ValidLimit(limit) && Inv(s) && Enabled(s, a) && Matched(s, a)
    requires a.BlockReturn? || a.Mark? || a.StartTryRetain? || a.TryLoad? || a.Finish?
    ensures Inv(Apply(limit, s, a))
  {
    StepKeepsParity(limit, s, a);
    NoRefs(s);
    if a.Mark? {
      assert AtZero(s.threads[a.t]);
    }
  }

  lemma StepKeepsInv(limit: int, s: State, a: Action)
    requires ValidLimit(limit) && Inv(s) && 2 * |s.refs| + 3 < limit && Enabled(s, a) && Matched(s, a)
    ensures Inv(Apply(limit, s, a))
  {
    match a
    case Retain(_, _) => RetainKeepsInv(limit, s, a);
    case Release(_, _) => ReleaseKeepsInv(limit, s, a);
    case BlockRetain(_, _) => BlockRetainKeepsInv(limit, s, a);
    case TrySwap(_, _) => TrySwapKeepsInv(limit, s, a);
    case _ => LocalStepKeepsInv(limit, s, a);
  }

  ghost predicate Reachable(limit: int, s: State) {
    exists s0, actions :: Init(s0) && IsMatchedRun(limit, s0, actions) && s == MatchedFinal(limit, s0, actions)
  }

  ghost function MatchedFinal(limit: int, s: State, actions: seq<Action>): State
    requires IsMatchedRun(limit, s, actions)
    decreases |actions|
  {
    if actions == [] then s else MatchedFinal(limit, Apply(limit, s, actions[0]), actions[1..])
  }

  lemma {:induction false} RunKeepsInv(limit: int, s: State, actions: seq<Action>)
    requires ValidLimit(limit) && Inv(s) && IsMatchedRun(limit, s, actions)
    ensures Inv(MatchedFinal(limit, s, actions))
    decreases |actions|
  {
    if actions != [] {
      StepKeepsInv(limit, s, actions[0]);
      RunKeepsInv(limit, Apply(limit, s, actions[0]), actions[1..]);
    }
  }

  lemma ReachableInv(limit: int, s: State)
    requires ValidLimit(limit) && Reachable(limit, s)
    ensures Inv(s)
  {
    var s0, actions :| Init(s0) && IsMatchedRun(limit, s0, actions) && s == MatchedFinal(limit, s0, actions);
    RunKeepsInv(limit, s0, actions);
  }

  /** In every state of every matched run no thread has trapped, the reported retain
      count is the number of owned references (one more while deallocating), and the
      object reports deallocating exactly when nothing owns it or dealloc has begun. */
  lemma MatchedRunsAreExact(limit: int, s: State)
    requires ValidLimit(limit) && Reachable(limit, s)
    ensures forall t :: t in s.threads ==> !s.threads[t].Trap?
    ensures RetainCount(s.rc) == |s.refs| + s.deallocs
    ensures IsDeallocating(s.rc) == if s.refs == {} || s.deallocs == 1 then Yes else No
  {
    ReachableInv(limit, s);
    NoRefs(s);
  }

  /** The step that starts deallocation happens at logical zero with no owned reference,
      by the only thread still acting on that zero. */
  lemma DeallocStartsUnowned(limit: int, s: State, a: Action)
    requires ValidLimit(limit) && Reachable(limit, s) && Enabled(s, a)
    requires Apply(limit, s, a).deallocs != s.deallocs
    ensures a.Mark? && s.refs == {} && s.rc == -2
    ensures forall u :: u in s.threads && u != a.t ==> !AtZero(s.threads[u])
  {
    ReachableInv(limit, s);
    NoRefs(s);
  }

  ghost predicate MatchedStep(limit: int, s: State, a: Action) {
    2 * |s.refs| + 3 < limit && Enabled(s, a) && Matched(s, a)
  }

  lemma TwoMatchedSteps(limit: int, s: State, a: Action, b: Action)
    requires MatchedStep(limit, s, a) && MatchedStep(limit, Apply(limit, s, a), b)
    ensures IsMatchedRun(limit, s, [a, b])
    ensures MatchedFinal(limit, s, [a, b]) == Apply(limit, Apply(limit, s, a), b)
  {
    var next := Apply(limit, s, a);
    OneMatchedStep(limit, next, b);
    assert [a, b][1..] == [b];
  }

  lemma OneMatchedStep(limit: int, s: State, a: Action)
    requires MatchedStep(limit, s, a)
    ensures IsMatchedRun(limit, s, [a]) && MatchedFinal(limit, s, [a]) == Apply(limit, s, a)
  {
    assert [a][1..] == [];
    assert MatchedFinal(limit, Apply(limit, s, a), []) == Apply(limit, s, a);
  }

  /** The discipline is needed: a matched run reaches logical zero with a deallocation
      pending, and there one retain by a caller that owns nothing makes it trap. */
  lemma UnownedRetainTraps(limit: int)
    requires ValidLimit(limit) && limit > 4
    ensures var s := State(-2, {}, 0, map[0 := MarkDeallocating(DeallocNow)]);
            && Reachable(limit, s) && Enabled(s, Retain(1, 7)) && !Matched(s, Retain(1, 7))
            && var s' := Apply(limit, s, Retain(1, 7));
               Enabled(s', Mark(0)) && Apply(limit, s', Mark(0)).threads[0] == Trap
  {
    var s0 := State(0, {5}, 0, map[]);
    var release, block := Release(0, 5), BlockReturn(0, DeallocNow);
    var s1 := Apply(limit, s0, release);
    assert s1 == State(-2, {}, 0, map[0 := LogicBlock(false)]);
    var s2 := Apply(limit, s1, block);
    assert s2 == State(-2, {}, 0, map[0 := MarkDeallocating(DeallocNow)]);
    TwoMatchedSteps(limit, s0, release, block);
    assert Init(s0) && MatchedFinal(limit, s0, [release, block]) == s2;
  }

  // ------------------------------------------------------------------ calls that run alone

  /** -retain creates its reference and returns. */
  lemma RetainCreates(limit: int, s: State, t: Tid, newRef: Ref)
    requires ValidLimit(limit) && Reachable(limit, s) && MatchedStep(limit, s, Retain(t, newRef))
    ensures var s' := Apply(limit, s, Retain(t, newRef));
            && s'.refs == s.refs + {newRef} && RetainCount(s'.rc) == RetainCount(s.rc) + 1
            && s'.threads == s.threads && s'.deallocs == s.deallocs
  {
    ReachableInv(limit, s);
    NoRefs(s);
  }

  /** A _tryRetain that runs alone answers yes exactly if the object is owned and not yet
      deallocating; then it has created its reference, and else changed nothing. */
  lemma TryRetainAlone(limit: int, s: State, t: Tid, newRef: Ref)
    requires ValidLimit(limit) && Reachable(limit, s) && 2 * |s.refs| + 3 < limit
    requires t !in s.threads && newRef !in s.refs
    ensures var s1 := Apply(limit, s, StartTryRetain(t));
            var s2 := Apply(limit, s1, TryLoad(t));
            if s.refs != {} && s.deallocs == 0 then
              && Enabled(s2, TrySwap(t, newRef))
              && var s3 := Apply(limit, s2, TrySwap(t, newRef));
                 s3.threads[t] == Tried(true) && s3.refs == s.refs + {newRef} && s3.rc == s.rc + 2
            else
              s2.threads[t] == Tried(false) && s2.refs == s.refs && s2.rc == s.rc
  {
    ReachableInv(limit, s);
    NoRefs(s);
  }

  /** So a load fails exactly if nothing owns the object or deallocation began. */
  lemma TryRetainFailsIff(limit: int, s: State, t: Tid)
    requires ValidLimit(limit) && Reachable(limit, s) && Enabled(s, TryLoad(t))
    ensures Apply(limit, s, TryLoad(t)).threads[t] == Tried(false) <==> s.refs == {} || s.deallocs == 1
    ensures Apply(limit, s, TryLoad(t)).threads[t] != Tried(false) ==>
              Apply(limit, s, TryLoad(t)).threads[t] == TryRetainSwap(s.rc)
  {
    ReachableInv(limit, s);
    NoRefs(s);
  }

  /** -release gives up its reference. If that was the only one and deallocation has not
      begun, the logic block runs; an answer that deallocates marks the object and disposes
      of it as answered. Otherwise -release returns. */
  lemma ReleaseAlone(limit: int, s: State, t: Tid, ref: Ref, fate: Fate)
    requires ValidLimit(limit) && Reachable(limit, s) && MatchedStep(limit, s, Release(t, ref))
    requires fate in {DeallocNow, DeallocLater}
    ensures var s1 := Apply(limit, s, Release(t, ref));
            && s1.refs == s.refs - {ref} && s1.deallocs == s.deallocs
            && if s.refs == {ref} && s.deallocs == 0 then
                 && s1.threads == s.threads[t := LogicBlock(false)]
                 && var s2 := Apply(limit, s1, BlockReturn(t, fate));
                    && Enabled(s2, Mark(t))
                    && var s3 := Apply(limit, s2, Mark(t));
                       s3.threads[t] == Disposing(fate) && s3.deallocs == 1 && s3.rc == 1 && s3.refs == {}
               else
                 s1.threads == s.threads
  {
    ReachableInv(limit, s);
    NoRefs(s);
    assert |s.refs - {ref}| == |s.refs| - 1;
  }

  /** A logic block that retains the object and says so keeps it alive. */
  lemma ResurrectAlone(limit: int, s: State, t: Tid, newRef: Ref)
    requires ValidLimit(limit) && limit > 4 && Reachable(limit, s)
    requires t in s.threads && s.threads[t] == LogicBlock(false) && newRef !in s.refs
    ensures var s1 := Apply(limit, s, BlockRetain(t, newRef));
            && Enabled(s1, BlockReturn(t, Resurrect))
            && var s2 := Apply(limit, s1, BlockReturn(t, Resurrect));
               t !in s2.threads && s2.refs == {newRef} && s2.rc == 0 && s2.deallocs == 0
  {
    ReachableInv(limit, s);
    NoRefs(s);
    assert AtZero(s.threads[t]);
  }
}
