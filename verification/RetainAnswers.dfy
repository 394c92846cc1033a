/** What the calls of the retain/release protocol answer: over every interleaving, over
    whole runs, and for a call that runs alone. */
module RetainAnswers {
  import opened Bits
  import opened IsaWord
  import opened RetainRelease
  import opened Wrappers

  // ------------------------------------------------------------------ the answer of one step

  /** What a step of a release does: it gives up nothing, and the release goes on with the
      same reference; or it gives up exactly that reference and returns, and the answer
      says whether this very step set `deallocating` and left no reference. */
  ghost predicate GoesOnOrAnswers(s: State, s': State, t: Tid)
    requires t in s.threads && Releasing(s.threads[t])
  {
    && t in s'.threads
    && var ref, th := s.threads[t].ref, s'.threads[t];
       && ref in s.refs
       && if th.Return? then
            && th.outcome.Released? && s'.refs == s.refs - {ref}
            && (th.outcome.shouldDealloc <==> s'.deallocs == s.deallocs + 1)
            && (th.outcome.shouldDealloc <==> !s.isa.deallocating && s'.isa.deallocating)
            && (th.outcome.shouldDealloc <==> !s.isa.deallocating && s'.refs == {})
            && (!th.outcome.shouldDealloc ==> s'.deallocs == s.deallocs)
          else
            Releasing(th) && th.ref == ref && s'.refs == s.refs && s'.deallocs == s.deallocs && s'.isa == s.isa
  }

  /** Every release answers right, in every reachable state. */
  lemma ReleaseAnswers(l: Layout, s: State, a: Action)
    requires l.Valid() && Reachable(l, s) && Enabled(l, s, a) && a.Run? && Releasing(s.threads[a.t])
    ensures GoesOnOrAnswers(s, Apply(l, s, a), a.t)
  {
    hide RunRetain, RunRelease, Inv;
    ReachableInv(l, s);
    var th := s.threads[a.t];
    assert Apply(l, s, a) == RunRelease(l, s, a.t, a.storeOk);
    if th.ReleaseLoad? || th.ReleaseBorrow? {
      UnderflowGoesOn(l, s, a.t, a.storeOk);
    } else {
      StoreAnswers(l, s, a.t, a.storeOk);
    }
  }

  lemma UnderflowGoesOn(l: Layout, s: State, t: Tid, storeOk: bool)
    requires l.Valid() && Inv(l, s) && t in s.threads
    requires s.threads[t].ReleaseLoad? || s.threads[t].ReleaseBorrow?
    ensures GoesOnOrAnswers(s, RunRelease(l, s, t, storeOk), t)
  {
    assert ThreadOk(l, s, s.threads[t]);
    if s.threads[t].ReleaseLoad? {
      UnderflowIsLast(l, s, t);
    } else {
      TakeBatchIsExact(l, s.side);
    }
  }

  lemma StoreAnswers(l: Layout, s: State, t: Tid, storeOk: bool)
    requires l.Valid() && Inv(l, s) && t in s.threads && Releasing(s.threads[t])
    requires !s.threads[t].ReleaseLoad? && !s.threads[t].ReleaseBorrow?
    ensures GoesOnOrAnswers(s, RunRelease(l, s, t, storeOk), t)
  {
    var th := s.threads[t];
    assert ThreadOk(l, s, th);
    assert |s.refs - {th.ref}| == |s.refs| - 1;
    if th.ReleaseDealloc? && s.isa == th.seen {
      NothingLeft(l, s, t);
    } else {
      StoreLeavesReferences(l, s, t);
    }
  }

  /** A store that takes counts out of the inline half or out of a borrowed batch leaves a
      reference, unless the object is deallocating already. */
  lemma StoreLeavesReferences(l: Layout, s: State, t: Tid)
    requires l.Valid() && Inv(l, s) && t in s.threads
    ensures var th := s.threads[t];
            && (th.ReleaseStore? && s.isa == th.seen && !s.isa.deallocating ==> |s.refs| >= 2)
            && (th.ReleaseBorrowStore? && !s.isa.deallocating ==> |s.refs| >= 2)
            && (th.ReleaseSecondStore? && !s.isa.deallocating ==> |s.refs| >= 2)
  {
    assert ThreadOk(l, s, s.threads[t]);
    assert s.lock == HeldBy(t) <==> HoldsLock(s.threads[t]);
  }

  /** The reference that a retain has created, as it stands in the thread. */
  function Created(th: Thread): Option<Ref> {
    match th
    case RetainTranscribe(ref) => Some(ref)
    case Return(_, Retained(ref)) => Some(ref)
    case _ => None
  }

  /** What a retain answers: it returns the reference that this very call created, by one
      step and just once; only a try-retain fails, exactly when the word that it loads is
      deallocating, and then it created nothing. */
  lemma RetainAnswers(l: Layout, s: State, a: Action)
    requires l.Valid() && Enabled(l, s, a) && a.Run? && RetainPhase(s.threads[a.t])
    ensures var th, s' := s.threads[a.t], Apply(l, s, a);
            && a.t in s'.threads && s'.deallocs == s.deallocs
            && (RetainPhase(s'.threads[a.t]) || s'.threads[a.t].Return?)
            && (if Created(th) == None && Created(s'.threads[a.t]).Some? then
                  Created(s'.threads[a.t]) == Some(a.newRef) && s'.refs == s.refs + {a.newRef} && s'.refs != s.refs
                else
                  Created(s'.threads[a.t]) == Created(th) && s'.refs == s.refs)
            && (s'.threads[a.t].Return? ==> s'.threads[a.t].outcome.Retained? || s'.threads[a.t].outcome.RetainFailed?)
            && (s'.threads[a.t].Return? && s'.threads[a.t].outcome.RetainFailed?
                <==> th.RetainLoad? && th.tryRetain && s.isa.deallocating)
  {
  }

  /** What a retain count answers is what was owned when it loaded the word. */
  lemma CountAnswers(l: Layout, s: State, a: Action)
    requires l.Valid() && Reachable(l, s) && Enabled(l, s, a) && a.Run?
    requires s.threads[a.t].CountLoad? || s.threads[a.t].CountRead?
    ensures var th, s' := s.threads[a.t], Apply(l, s, a);
            && a.t in s'.threads && s'.refs == s.refs && s'.deallocs == s.deallocs
            && (th.CountLoad? ==> s'.threads[a.t] == CountRead(s.isa, |s.refs|))
            && (th.CountRead? ==>
                  s'.threads[a.t].Return? && s'.threads[a.t].outcome ==
                  Counted(th.owned + if th.seen.deallocating then 1 else 0, th.owned, th.seen.deallocating))
  {
    ReachableInv(l, s);
    assert ThreadOk(l, s, s.threads[a.t]);
  }

  ghost predicate OtherBitsSame(s: State, s': State) {
    && s'.isa.low == s.isa.low && (s.isa.deallocating ==> s'.isa.deallocating)
    && (s.isa.hasSidetableRc ==> s'.isa.hasSidetableRc)
  }

  lemma RetainLeavesOtherBits(l: Layout, s: State, t: Tid, storeOk: bool, newRef: Ref)
    requires t in s.threads
    ensures OtherBitsSame(s, RunRetain(l, s, t, storeOk, newRef))
  {
  }

  lemma ReleaseLeavesOtherBits(l: Layout, s: State, t: Tid, storeOk: bool)
    requires l.Valid() && t in s.threads
    ensures OtherBitsSame(s, RunRelease(l, s, t, storeOk))
  {
  }

  /** No step of a call changes the bits below `deallocating`, and neither `deallocating`
      nor has_sidetable_rc is ever cleared. */
  lemma OtherBitsStay(l: Layout, s: State, a: Action)
    requires l.Valid() && Enabled(l, s, a) && !a.ChangeOtherBits?
    ensures OtherBitsSame(s, Apply(l, s, a))
  {
    hide RunRetain, RunRelease;
    if a.Run? {
      RetainLeavesOtherBits(l, s, a.t, a.storeOk, a.newRef);
      ReleaseLeavesOtherBits(l, s, a.t, a.storeOk);
    }
  }

  // ------------------------------------------------------------------ the answers of a run

  /** The answer that an action gives, if it ends a call. */
  function Answer(l: Layout, s: State, a: Action): Option<Outcome>
    requires l.Valid() && (a.Run? ==> a.t in s.threads)
  {
    if a.Run? && !s.threads[a.t].Return? then
      var s' := Apply(l, s, a);
      if a.t in s'.threads && s'.threads[a.t].Return? then Some(s'.threads[a.t].outcome) else None
    else None
  }

  /** The answers of a run, one after another. */
  ghost function Answers(l: Layout, s: State, actions: seq<Action>): seq<Outcome>
    requires l.Valid() && IsRun(l, s, actions)
    decreases |actions|
  {
    if actions == [] then []
    else
      var later := Answers(l, Apply(l, s, actions[0]), actions[1..]);
      match Answer(l, s, actions[0])
      case None => later
      case Some(o) => [o] + later
  }

  function Tally(answers: seq<Outcome>, kind: Outcome -> bool): nat {
    if answers == [] then 0 else One(answers[0], kind) + Tally(answers[1..], kind)
  }

  function One(o: Outcome, kind: Outcome -> bool): nat { if kind(o) then 1 else 0 }

  function ToDealloc(): Outcome -> bool { (o: Outcome) => o == Released(true) }
  function ToReleased(): Outcome -> bool { (o: Outcome) => o.Released? }
  function ToRetained(): Outcome -> bool { (o: Outcome) => o.Retained? }

  function OneOf(answer: Option<Outcome>, kind: Outcome -> bool): nat {
    match answer
    case None => 0
    case Some(o) => One(o, kind)
  }

  /** One if a retain has created its reference and not returned it yet. */
  function Unreturned(s: State): nat {
    if s.lock.HeldBy? && s.lock.owner in s.threads && s.threads[s.lock.owner].RetainTranscribe? then 1 else 0
  }

  predicate IsUnreturned(s: State, t: Tid) { t in s.threads && s.threads[t].RetainTranscribe? }

  /** No other thread is anywhere else. */
  ghost predicate OthersStay(s: State, s': State, t: Tid) {
    forall u :: u != t ==>
                  && (u in s'.threads <==> u in s.threads)
                  && (u in s.threads ==> s'.threads[u] == s.threads[u])
  }

  lemma UnreturnedAfter(l: Layout, s: State, s': State, t: Tid)
    requires l.Valid() && LockDiscipline(s) && LockDiscipline(s')
    requires OthersStay(s, s', t)
    ensures Unreturned(s') + (if IsUnreturned(s, t) then 1 else 0)
            == Unreturned(s) + (if IsUnreturned(s', t) then 1 else 0)
  {
    assert s.lock == HeldBy(t) <==> t in s.threads && HoldsLock(s.threads[t]);
    assert s'.lock == HeldBy(t) <==> t in s'.threads && HoldsLock(s'.threads[t]);
    if s.lock.HeldBy? {
      var u := s.lock.owner;
      assert s'.lock == HeldBy(u) <==> u in s'.threads && HoldsLock(s'.threads[u]);
    }
    if s'.lock.HeldBy? {
      var u := s'.lock.owner;
      assert s.lock == HeldBy(u) <==> u in s.threads && HoldsLock(s.threads[u]);
    }
  }

  /** The step's answer accounts for what the step does to the references. */
  ghost predicate IsAnswered(l: Layout, s: State, a: Action)
    requires l.Valid() && (a.Run? ==> a.t in s.threads)
  {
    var s', answer := Apply(l, s, a), Answer(l, s, a);
    && s'.deallocs == s.deallocs + OneOf(answer, ToDealloc())
    && |s'.refs| + Unreturned(s) + OneOf(answer, ToReleased())
       == |s.refs| + Unreturned(s') + OneOf(answer, ToRetained())
  }

  lemma ReleaseIsAnswered(l: Layout, s: State, a: Action)
    requires l.Valid() && Reachable(l, s) && Enabled(l, s, a) && a.Run? && Releasing(s.threads[a.t])
    requires Unreturned(Apply(l, s, a)) == Unreturned(s)
    ensures IsAnswered(l, s, a)
  {
    ReleaseAnswers(l, s, a);
    assert |s.refs - {s.threads[a.t].ref}| == |s.refs| - 1;
  }

  lemma RetainIsAnswered(l: Layout, s: State, a: Action)
    requires l.Valid() && Enabled(l, s, a) && a.Run? && RetainPhase(s.threads[a.t])
    requires Unreturned(Apply(l, s, a)) + (if IsUnreturned(s, a.t) then 1 else 0)
             == Unreturned(s) + (if IsUnreturned(Apply(l, s, a), a.t) then 1 else 0)
    ensures IsAnswered(l, s, a)
  {
    RetainAnswers(l, s, a);
    assert |s.refs + {a.newRef}| == |s.refs| + 1;
  }

  lemma OtherIsAnswered(l: Layout, s: State, a: Action)
    requires l.Valid() && Enabled(l, s, a)
    requires a.Run? ==> !RetainPhase(s.threads[a.t]) && !Releasing(s.threads[a.t])
    requires Unreturned(Apply(l, s, a)) == Unreturned(s)
    ensures IsAnswered(l, s, a)
  {
  }

  lemma LocksRight(l: Layout, s: State, a: Action)
    requires l.Valid() && Reachable(l, s) && Bounded(l, s) && Enabled(l, s, a)
    ensures LockDiscipline(s) && LockDiscipline(Apply(l, s, a))
  {
    hide Apply;
    ReachableInv(l, s);
    StepKeepsInv(l, s, a);
  }

  lemma StepIsAnswered(l: Layout, s: State, a: Action)
    requires l.Valid() && Reachable(l, s) && Bounded(l, s) && Enabled(l, s, a)
    ensures IsAnswered(l, s, a)
  {
    hide Apply, IsAnswered, LockDiscipline, Reachable, Unreturned;
    LocksRight(l, s, a);
    var s' := Apply(l, s, a);
    if a.ChangeOtherBits? {
      BitsAreNoAnswer(l, s, a);
    } else {
      OnlyItsThread(l, s, a);
      UnreturnedAfter(l, s, s', a.t);
      if a.Run? && Releasing(s.threads[a.t]) {
        ReleaseAnswers(l, s, a);
        ReleaseIsAnswered(l, s, a);
      } else if a.Run? && RetainPhase(s.threads[a.t]) {
        RetainIsAnswered(l, s, a);
      } else {
        if IsUnreturned(s', a.t) {
          OnlyRetainsTranscribe(l, s, a);
        }
        OtherIsAnswered(l, s, a);
      }
    }
  }

  lemma BitsAreNoAnswer(l: Layout, s: State, a: Action)
    requires l.Valid() && a.ChangeOtherBits?
    ensures IsAnswered(l, s, a)
  {
  }

  lemma RetainsOnlyItsThread(l: Layout, s: State, t: Tid, storeOk: bool, newRef: Ref)
    requires t in s.threads
    ensures OthersStay(s, RunRetain(l, s, t, storeOk, newRef), t)
  {
  }

  lemma ReleasesOnlyItsThread(l: Layout, s: State, t: Tid, storeOk: bool)
    requires l.Valid() && t in s.threads
    ensures t in RunRelease(l, s, t, storeOk).threads
    ensures RunRelease(l, s, t, storeOk).threads == s.threads[t := RunRelease(l, s, t, storeOk).threads[t]]
  {
  }

  lemma OnlyItsThread(l: Layout, s: State, a: Action)
    requires l.Valid() && Enabled(l, s, a) && !a.ChangeOtherBits?
    ensures OthersStay(s, Apply(l, s, a), a.t)
  {
    hide RunRetain, RunRelease;
    if a.Run? {
      RetainsOnlyItsThread(l, s, a.t, a.storeOk, a.newRef);
      ReleasesOnlyItsThread(l, s, a.t, a.storeOk);
    }
  }

  lemma OnlyRetainsTranscribe(l: Layout, s: State, a: Action)
    requires l.Valid() && Enabled(l, s, a) && !a.ChangeOtherBits? && IsUnreturned(Apply(l, s, a), a.t)
    ensures a.Run? && RetainPhase(s.threads[a.t])
  {
  }

  lemma TallyNext(answer: Option<Outcome>, later: seq<Outcome>, kind: Outcome -> bool)
    ensures answer.Some? ==> Tally([answer.value] + later, kind) == OneOf(answer, kind) + Tally(later, kind)
  {
    if answer.Some? {
      assert ([answer.value] + later)[1..] == later;
    }
  }

  lemma {:induction false} RunIsAnswered(l: Layout, s: State, actions: seq<Action>)
    requires l.Valid() && Reachable(l, s) && IsRun(l, s, actions)
    ensures var s', answers := Final(l, s, actions), Answers(l, s, actions);
            && s'.deallocs == s.deallocs + Tally(answers, ToDealloc())
            && |s'.refs| + Unreturned(s) + Tally(answers, ToReleased())
               == |s.refs| + Unreturned(s') + Tally(answers, ToRetained())
    decreases |actions|
  {
    if actions != [] {
      var next := Apply(l, s, actions[0]);
      StepIsAnswered(l, s, actions[0]);
      ReachableNext(l, s, actions[0]);
      RunIsAnswered(l, next, actions[1..]);
      var answer, later := Answer(l, s, actions[0]), Answers(l, next, actions[1..]);
      TallyNext(answer, later, ToDealloc());
      TallyNext(answer, later, ToReleased());
      TallyNext(answer, later, ToRetained());
    }
  }

  lemma ReachableNext(l: Layout, s: State, a: Action)
    requires l.Valid() && Reachable(l, s) && Bounded(l, s) && Enabled(l, s, a)
    ensures Reachable(l, Apply(l, s, a))
  {
    var s0, actions :| Init(l, s0) && IsRun(l, s0, actions) && Final(l, s0, actions) == s;
    OneMore(l, s0, actions, a);
  }

  lemma {:induction false} OneMore(l: Layout, s0: State, actions: seq<Action>, a: Action)
    requires l.Valid() && IsRun(l, s0, actions)
    requires Bounded(l, Final(l, s0, actions)) && Enabled(l, Final(l, s0, actions), a)
    ensures IsRun(l, s0, actions + [a])
    ensures Final(l, s0, actions + [a]) == Apply(l, Final(l, s0, actions), a)
    decreases |actions|
  {
    if actions == [] {
      assert ([] + [a])[1..] == [];
      assert IsRun(l, Apply(l, s0, a), []);
    } else {
      OneMore(l, Apply(l, s0, actions[0]), actions[1..], a);
      assert (actions + [a])[1..] == actions[1..] + [a];
    }
  }

  /** Over the run of a new object: as many releases answered that the object should be
      deallocated as deallocations began, so at most one; and the references are the first
      one, those that retains answered with or are about to, less those given up by the
      releases that answered. */
  lemma AnswersAddUp(l: Layout, s0: State, actions: seq<Action>)
    requires l.Valid() && Init(l, s0) && IsRun(l, s0, actions)
    ensures var s, answers := Final(l, s0, actions), Answers(l, s0, actions);
            && Tally(answers, ToDealloc()) == s.deallocs == (if s.isa.deallocating then 1 else 0)
            && |s.refs| == 1 + Tally(answers, ToRetained()) + Unreturned(s) - Tally(answers, ToReleased())
  {
    assert IsRun(l, s0, []) && Final(l, s0, []) == s0;
    RunIsAnswered(l, s0, actions);
    NoOverreleaseOneDealloc(l, Final(l, s0, actions));
  }

  // ------------------------------------------------------------------ a call that runs alone

  /** Up to n steps of one thread with no other thread in between and no store failing
      without cause, until the call returns. A step that could create a reference gets the
      name newRef, or `spare` once that is taken. */
  function Alone(l: Layout, s: State, t: Tid, newRef: Ref, spare: Ref, n: nat): State
    requires l.Valid()
    decreases n
  {
    if n == 0 || t !in s.threads || s.threads[t].Return? then s
    else Alone(l, Apply(l, s, Run(t, true, if newRef in s.refs then spare else newRef)), t, newRef, spare, n - 1)
  }

  /** A state in which the thread t is about to begin a call, and nobody is in the way. */
  ghost predicate Quiet(l: Layout, s: State, t: Tid, newRef: Ref, spare: Ref)
    requires l.Valid()
  {
    Reachable(l, s) && t !in s.threads && s.lock.Free? && newRef !in s.refs && spare !in s.refs && newRef != spare
  }

  /** A retain that runs alone creates its reference and returns it. */
  lemma RetainAlone(l: Layout, s: State, t: Tid, newRef: Ref, spare: Ref)
    requires l.Valid() && Quiet(l, s, t, newRef, spare)
    ensures var s' := Alone(l, Apply(l, s, StartRetain(t)), t, newRef, spare, 6);
            && t in s'.threads && s'.threads[t].Return? && s'.threads[t].outcome == Retained(newRef)
            && s'.refs == s.refs + {newRef} && s'.deallocs == s.deallocs
  {
    ReachableInv(l, s);
    var s1 := Apply(l, s, StartRetain(t));
    RetainFromLoad(l, s1, t, newRef, spare, false);
  }

  /** From its first load on. */
  lemma RetainFromLoad(l: Layout, s: State, t: Tid, newRef: Ref, spare: Ref, tryRetain: bool)
    requires l.Valid() && InRange(l, s.isa) && newRef !in s.refs && spare !in s.refs && newRef != spare
    requires t in s.threads && s.threads[t] == RetainLoad(tryRetain, false, false)
    requires !(tryRetain && s.isa.deallocating)
    ensures var s' := Alone(l, s, t, newRef, spare, 6);
            && t in s'.threads && s'.threads[t].Return? && s'.threads[t].outcome == Retained(newRef)
            && s'.refs == s.refs + {newRef} && s'.deallocs == s.deallocs
  {
    var s1 := Apply(l, s, Run(t, true, newRef));
    assert Alone(l, s, t, newRef, spare, 6) == Alone(l, s1, t, newRef, spare, 5);
    var s2 := Apply(l, s1, Run(t, true, newRef));
    assert Alone(l, s1, t, newRef, spare, 5) == Alone(l, s2, t, newRef, spare, 4);
    if !s2.threads[t].Return? {
      var s3 := Apply(l, s2, Run(t, true, newRef));
      assert Alone(l, s2, t, newRef, spare, 4) == Alone(l, s3, t, newRef, spare, 3);
      if s3.threads[t].RetainTranscribe? {
        var s4 := Apply(l, s3, Run(t, true, spare));
        assert Alone(l, s3, t, newRef, spare, 3) == Alone(l, s4, t, newRef, spare, 2);
      } else {
        var s4 := Apply(l, s3, Run(t, true, newRef));
        assert Alone(l, s3, t, newRef, spare, 3) == Alone(l, s4, t, newRef, spare, 2);
        var s5 := Apply(l, s4, Run(t, true, spare));
        assert Alone(l, s4, t, newRef, spare, 2) == Alone(l, s5, t, newRef, spare, 1);
      }
    }
  }

  /** A try-retain that runs alone fails exactly if the object is deallocating, and else
      creates its reference and returns it. */
  lemma TryRetainAlone(l: Layout, s: State, t: Tid, newRef: Ref, spare: Ref)
    requires l.Valid() && Quiet(l, s, t, newRef, spare)
    ensures var s' := Alone(l, Apply(l, s, StartTryRetain(t)), t, newRef, spare, 7);
            && t in s'.threads && s'.threads[t].Return? && s'.deallocs == s.deallocs
            && (if s.isa.deallocating then s'.threads[t].outcome == RetainFailed && s'.refs == s.refs
                else s'.threads[t].outcome == Retained(newRef) && s'.refs == s.refs + {newRef})
  {
    ReachableInv(l, s);
    var s1 := Apply(l, s, StartTryRetain(t));
    var s2 := Apply(l, s1, Run(t, true, newRef));
    assert Alone(l, s1, t, newRef, spare, 7) == Alone(l, s2, t, newRef, spare, 6);
    if s.isa.deallocating {
      var s3 := Apply(l, s2, Run(t, true, newRef));
      assert Alone(l, s2, t, newRef, spare, 6) == Alone(l, s3, t, newRef, spare, 5);
    } else {
      RetainFromLoad(l, s2, t, newRef, spare, true);
    }
  }

  /** The call returned with that answer, with those references and that `deallocating`. */
  predicate Returned(s: State, t: Tid, outcome: Outcome, refs: set<Ref>, deallocating: bool) {
    && t in s.threads && s.threads[t].Return? && s.threads[t].outcome == outcome
    && s.refs == refs && s.isa.deallocating == deallocating
  }

  /** A release that runs alone gives up its reference, and answers that the object should
      be deallocated exactly if that was the only one and deallocation had not begun. */
  lemma ReleaseAlone(l: Layout, s: State, t: Tid, ref: Ref, newRef: Ref, spare: Ref)
    requires l.Valid() && Quiet(l, s, t, newRef, spare) && Enabled(l, s, StartRelease(t, ref))
    ensures var last := s.refs == {ref} && !s.isa.deallocating;
            Returned(Alone(l, Apply(l, s, StartRelease(t, ref)), t, newRef, spare, 6), t,
                     Released(last), s.refs - {ref}, s.isa.deallocating || last)
  {
    ReachableInv(l, s);
    var s1 := Apply(l, s, StartRelease(t, ref));
    StartKeepsInv(l, s, StartRelease(t, ref));
    if |s.refs| == 1 {
      OnlyElement(s.refs, ref);
    }
    if s.isa.extraRc == 0 && s.isa.hasSidetableRc {
      ReleaseFromSideTable(l, s1, t, ref, newRef, spare);
    } else {
      ReleaseInline(l, s1, t, ref, newRef, spare);
    }
  }

  /** A count in the word itself, or nothing counted anywhere. */
  lemma ReleaseInline(l: Layout, s: State, t: Tid, ref: Ref, newRef: Ref, spare: Ref)
    requires l.Valid() && Inv(l, s) && s.lock.Free? && newRef !in s.refs
    requires t in s.threads && s.threads[t] == ReleaseLoad(ref, false, false)
    requires s.isa.extraRc > 0 || !s.isa.hasSidetableRc
    ensures var last := |s.refs| == 1 && !s.isa.deallocating;
            Returned(Alone(l, s, t, newRef, spare, 6), t,
                     Released(last), s.refs - {ref}, s.isa.deallocating || last)
  {
    UnderflowIsLast(l, s, t);
    var s2 := Apply(l, s, Run(t, true, newRef));
    assert s2 == Goto(s, t, if s.isa.extraRc > 0 then ReleaseStore(ref, false, false, s.isa)
                            else ReleaseDealloc(ref, false, false, s.isa));
    assert Alone(l, s, t, newRef, spare, 6) == Alone(l, s2, t, newRef, spare, 5);
    ReleaseEnds(l, s2, t, ref, newRef, spare, 5);
  }

  /** The underflow: takes the lock, starts over, borrows a batch, and deallocates if there
      is none. */
  lemma ReleaseFromSideTable(l: Layout, s: State, t: Tid, ref: Ref, newRef: Ref, spare: Ref)
    requires l.Valid() && Inv(l, s) && s.lock.Free? && newRef !in s.refs
    requires t in s.threads && s.threads[t] == ReleaseLoad(ref, false, false)
    requires s.isa.extraRc == 0 && s.isa.hasSidetableRc
    ensures var last := |s.refs| == 1 && !s.isa.deallocating;
            Returned(Alone(l, s, t, newRef, spare, 6), t,
                     Released(last), s.refs - {ref}, s.isa.deallocating || last)
  {
    var s2 := Apply(l, s, Run(t, true, newRef));
    assert s2 == Goto(s, t, ReleaseLoad(ref, true, false));
    assert Alone(l, s, t, newRef, spare, 6) == Alone(l, s2, t, newRef, spare, 5);
    var s3 := Apply(l, s2, Run(t, true, newRef));
    assert s3 == Goto(s2, t, ReleaseUnderflowLock(ref));
    assert Alone(l, s2, t, newRef, spare, 5) == Alone(l, s3, t, newRef, spare, 4);
    var s4 := Apply(l, s3, Run(t, true, newRef));
    assert s4 == Acquire(s3, t, ReleaseLoad(ref, true, true));
    assert Alone(l, s3, t, newRef, spare, 4) == Alone(l, s4, t, newRef, spare, 3);
    assert s4.threads == s.threads[t := ReleaseLoad(ref, true, true)];
    AcquireKeepsInv(l, s, t, ReleaseLoad(ref, true, true));
    assert s4 == Acquire(s, t, ReleaseLoad(ref, true, true));
    ReleaseBorrowing(l, s4, t, ref, newRef, spare);
  }

  lemma ReleaseBorrowing(l: Layout, s: State, t: Tid, ref: Ref, newRef: Ref, spare: Ref)
    requires l.Valid() && Inv(l, s) && newRef !in s.refs
    requires t in s.threads && s.threads[t] == ReleaseLoad(ref, true, true)
    requires s.isa.extraRc == 0 && s.isa.hasSidetableRc
    ensures var last := |s.refs| == 1 && !s.isa.deallocating;
            Returned(Alone(l, s, t, newRef, spare, 3), t,
                     Released(last), s.refs - {ref}, s.isa.deallocating || last)
  {
    assert s.lock == HeldBy(t) <==> HoldsLock(s.threads[t]);
    UnderflowIsLast(l, s, t);
    TakeBatchIsExact(l, s.side);
    var s5 := Apply(l, s, Run(t, true, newRef));
    assert s5 == Goto(s, t, ReleaseBorrow(ref, s.isa));
    assert Alone(l, s, t, newRef, spare, 3) == Alone(l, s5, t, newRef, spare, 2);
    var s6 := Apply(l, s5, Run(t, true, newRef));
    assert Alone(l, s5, t, newRef, spare, 2) == Alone(l, s6, t, newRef, spare, 1);
    ReleaseEnds(l, s6, t, ref, newRef, spare, 1);
  }

  /** The last store: of a count, of a borrowed batch, or of `deallocating`. */
  lemma ReleaseEnds(l: Layout, s: State, t: Tid, ref: Ref, newRef: Ref, spare: Ref, n: nat)
    requires l.Valid() && t in s.threads && Releasing(s.threads[t]) && s.threads[t].ref == ref && n > 0
    requires s.threads[t].ReleaseStore? || s.threads[t].ReleaseBorrowStore? || s.threads[t].ReleaseDealloc?
    requires s.threads[t].seen == s.isa
    ensures var last := s.threads[t].ReleaseDealloc?;
            Returned(Alone(l, s, t, newRef, spare, n), t,
                     Released(last), s.refs - {ref}, s.isa.deallocating || last)
  {
    var s' := Apply(l, s, Run(t, true, if newRef in s.refs then spare else newRef));
    assert Alone(l, s, t, newRef, spare, n) == Alone(l, s', t, newRef, spare, n - 1);
  }

  /** A retain count that runs alone answers with the number of references, and one more
      while the object deallocates. */
  lemma CountAlone(l: Layout, s: State, t: Tid, newRef: Ref, spare: Ref)
    requires l.Valid() && Quiet(l, s, t, newRef, spare)
    ensures var s' := Alone(l, Apply(l, s, StartCount(t)), t, newRef, spare, 3);
            && t in s'.threads && s'.threads[t].Return? && s'.refs == s.refs && s'.threads[t].outcome.Counted?
            && s'.threads[t].outcome.rc == |s.refs| + if s.isa.deallocating then 1 else 0
  {
    QuietCount(l, s);
    var s1 := Apply(l, s, StartCount(t));
    var s2 := Apply(l, s1, Run(t, true, newRef));
    assert s2 == Acquire(s1, t, CountLoad);
    assert Alone(l, s1, t, newRef, spare, 3) == Alone(l, s2, t, newRef, spare, 2);
    CountFromLoad(l, s2, t, newRef, spare);
  }

  lemma QuietCount(l: Layout, s: State)
    requires l.Valid() && Reachable(l, s) && s.lock.Free?
    ensures |s.refs| == (if s.isa.deallocating then 0 else 1) + s.isa.extraRc
                        + (if s.isa.hasSidetableRc then GetExtraRc(s.side) else 0)
  {
    ReachableInv(l, s);
  }

  lemma CountFromLoad(l: Layout, s: State, t: Tid, newRef: Ref, spare: Ref)
    requires l.Valid() && t in s.threads && s.threads[t].CountLoad?
    ensures var s' := Alone(l, s, t, newRef, spare, 2);
            && t in s'.threads && s'.threads[t].Return? && s'.refs == s.refs && s'.threads[t].outcome.Counted?
            && s'.threads[t].outcome.rc ==
               1 + s.isa.extraRc + (if s.isa.hasSidetableRc then GetExtraRc(s.side) else 0)
  {
    var r := if newRef in s.refs then spare else newRef;
    var s3 := Apply(l, s, Run(t, true, r));
    assert s3 == Goto(s, t, CountRead(s.isa, |s.refs|));
    assert Alone(l, s, t, newRef, spare, 2) == Alone(l, s3, t, newRef, spare, 1);
    var s4 := Apply(l, s3, Run(t, true, r));
    assert Alone(l, s3, t, newRef, spare, 1) == Alone(l, s4, t, newRef, spare, 0);
  }

  // ------------------------------------------------------------------ from anywhere inside a call

  /** How many steps a thread that runs alone takes at most until its call returns. */
  function Rank(l: Layout, s: State, th: Thread): nat {
    match th
    case TryRetainLock => 6
    case RetainLoad(tryRetain, handle, locked) =>
      if tryRetain && s.isa.deallocating then 1
      else if s.isa.extraRc + 1 < l.ExtraRcLimit() then 2
      else if !handle then 5
      else if !tryRetain && !locked then 4
      else 3
    case RetainStore(_, _, _, seen) => if seen == s.isa then 1 else 6
    case RetainOverflowLock(seen) => if seen == s.isa then 3 else 5
    case RetainOverflowStore(_, seen) => if seen == s.isa then 2 else 4
    case RetainTranscribe(_) => 1
    case ReleaseLoad(_, handle, locked) =>
      if s.isa.extraRc > 0 || !s.isa.hasSidetableRc then 2 else if !handle then 6 else if !locked then 5 else 3
    case ReleaseStore(_, _, _, seen) => if seen == s.isa then 1 else 7
    case ReleaseUnderflowLock(_) => 4
    case ReleaseBorrow(_, seen) => if seen == s.isa then 2 else 8
    case ReleaseBorrowStore(_, seen, _) => if seen == s.isa then 1 else 6
    case ReleaseSecondLoad(_, _) => 5
    case ReleaseSecondStore(_, _, seen) => if seen == s.isa then 1 else 5
    case ReleasePutBack(_, _) => 4
    case ReleaseDealloc(_, _, _, seen) => if seen == s.isa then 1 else 7
    case CountLock => 3
    case CountLoad => 2
    case CountRead(_, _) => 1
    case _ => 0
  }

  predicate InCall(th: Thread) {
    RetainPhase(th) || Releasing(th) || th.CountLock? || th.CountLoad? || th.CountRead?
  }

  /** The thread is in a call and may run alone: nobody else holds the lock, and there is
      room for the reference that the call may yet create. */
  ghost predicate MayRun(l: Layout, s: State, t: Tid, newRef: Ref, spare: Ref)
    requires l.Valid()
  {
    && Reachable(l, s) && t in s.threads && (s.threads[t].Return? || InCall(s.threads[t]))
    && s.lock in {Free, HeldBy(t)} && spare !in s.refs && newRef != spare
    && (if Created(s.threads[t]).Some? then Bounded(l, s)
        else newRef !in s.refs && SIDE_TABLE_RC_ONE * (|s.refs| + 1) <= SideTablePinned(l))
  }

  lemma RetainRankFalls(l: Layout, s: State, t: Tid, newRef: Ref)
    requires t in s.threads && RetainPhase(s.threads[t])
    ensures var s' := RunRetain(l, s, t, true, newRef);
            && t in s'.threads && Rank(l, s', s'.threads[t]) < Rank(l, s, s.threads[t])
            && (s'.threads[t].Return? || RetainPhase(s'.threads[t]))
            && s'.lock in {s.lock, HeldBy(t)}
  {
  }

  lemma ReleaseRankFalls(l: Layout, s: State, t: Tid)
    requires l.Valid() && Inv(l, s) && t in s.threads && Releasing(s.threads[t])
    ensures var s' := RunRelease(l, s, t, true);
            && t in s'.threads && Rank(l, s', s'.threads[t]) < Rank(l, s, s.threads[t])
            && s'.lock in {s.lock, HeldBy(t)}
  {
    var th := s.threads[t];
    if th.ReleaseLoad? || th.ReleaseBorrow? {
      UnderflowRankFalls(l, s, t);
    } else {
      StoreRankFalls(l, s, t);
    }
  }

  lemma StoreRankFalls(l: Layout, s: State, t: Tid)
    requires l.Valid() && t in s.threads && Releasing(s.threads[t])
    requires !s.threads[t].ReleaseLoad? && !s.threads[t].ReleaseBorrow?
    ensures var s' := RunRelease(l, s, t, true);
            && t in s'.threads && Rank(l, s', s'.threads[t]) < Rank(l, s, s.threads[t])
            && s'.lock in {s.lock, HeldBy(t)}
  {
  }

  lemma UnderflowRankFalls(l: Layout, s: State, t: Tid)
    requires l.Valid() && Inv(l, s) && t in s.threads
    requires s.threads[t].ReleaseLoad? || s.threads[t].ReleaseBorrow?
    ensures var s' := RunRelease(l, s, t, true);
            && t in s'.threads && Rank(l, s', s'.threads[t]) < Rank(l, s, s.threads[t])
            && s'.lock in {s.lock, HeldBy(t)}
  {
    if s.threads[t].ReleaseLoad? {
      UnderflowIsLast(l, s, t);
      LoadRankFalls(l, s, t);
    } else {
      assert ThreadOk(l, s, s.threads[t]);
      TakeBatchIsExact(l, s.side);
    }
  }

  lemma LoadRankFalls(l: Layout, s: State, t: Tid)
    requires l.Valid() && t in s.threads && s.threads[t].ReleaseLoad?
    requires s.isa.extraRc == 0 && !s.isa.hasSidetableRc ==> !s.isa.deallocating
    ensures var s' := RunRelease(l, s, t, true);
            && t in s'.threads && Rank(l, s', s'.threads[t]) < Rank(l, s, s.threads[t]) && s'.lock == s.lock
  {
  }

  lemma MayStep(l: Layout, s: State, t: Tid, newRef: Ref, spare: Ref)
    requires l.Valid() && MayRun(l, s, t, newRef, spare)
    ensures Bounded(l, s) && Enabled(l, s, Run(t, true, if newRef in s.refs then spare else newRef))
  {
    ReachableInv(l, s);
    assert s.lock == HeldBy(t) <==> HoldsLock(s.threads[t]);
  }

  lemma StepsOn(l: Layout, s: State, t: Tid, newRef: Ref, spare: Ref)
    requires l.Valid() && MayRun(l, s, t, newRef, spare) && !s.threads[t].Return?
    ensures var s' := Apply(l, s, Run(t, true, if newRef in s.refs then spare else newRef));
            MayRun(l, s', t, newRef, spare) && Rank(l, s', s'.threads[t]) < Rank(l, s, s.threads[t])
  {
    hide RunRetain, RunRelease, RunOther, Inv, Rank, Reachable;
    var ref := if newRef in s.refs then spare else newRef;
    var a := Run(t, true, ref);
    ReachableInv(l, s);
    MayStep(l, s, t, newRef, spare);
    ReachableNext(l, s, a);
    if RetainPhase(s.threads[t]) {
      RetainAnswers(l, s, a);
      RetainRankFalls(l, s, t, ref);
      assert |s.refs + {ref}| <= |s.refs| + 1;
    } else if Releasing(s.threads[t]) {
      ReleaseAnswers(l, s, a);
      ReleaseRankFalls(l, s, t);
      assert |s.refs - {s.threads[t].ref}| <= |s.refs|;
    } else {
      CountRankFalls(l, s, t);
    }
  }

  lemma CountRankFalls(l: Layout, s: State, t: Tid)
    requires t in s.threads && (s.threads[t].CountLock? || s.threads[t].CountLoad? || s.threads[t].CountRead?)
    ensures var s' := RunOther(s, t);
            && t in s'.threads && Rank(l, s', s'.threads[t]) < Rank(l, s, s.threads[t])
            && (s'.threads[t].Return? || InCall(s'.threads[t])) && Created(s'.threads[t]) == None
            && s'.refs == s.refs && s'.lock in {s.lock, HeldBy(t)}
  {
  }

  lemma RankIsSmall(l: Layout, s: State, th: Thread)
    ensures Rank(l, s, th) <= 8
  {
  }

  /** Nobody livelocks alone: from anywhere inside a call, however often its stores failed
      before, a thread that runs alone returns within eight steps. */
  lemma {:induction false} AloneReturns(l: Layout, s: State, t: Tid, newRef: Ref, spare: Ref, n: nat)
    requires l.Valid() && MayRun(l, s, t, newRef, spare) && n >= Rank(l, s, s.threads[t])
    ensures var s' := Alone(l, s, t, newRef, spare, n); t in s'.threads && s'.threads[t].Return?
    ensures Rank(l, s, s.threads[t]) <= 8
    decreases n
  {
    hide Rank, Apply, Reachable, Bounded, Created;
    RankIsSmall(l, s, s.threads[t]);
    if !s.threads[t].Return? {
      StepsOn(l, s, t, newRef, spare);
      AloneReturns(l, Apply(l, s, Run(t, true, if newRef in s.refs then spare else newRef)), t, newRef, spare, n - 1);
    }
  }
}
