/** Threads that take several locks only in the order of their addresses: pairs through
    lockTwo, and all stripes of a striped map through lockAll. */
module LockOrder {
  import opened Bits
  import opened Pigeonholes

  /** A pair of locks by their 64-bit addresses, or all stripes of a map, which lie a cache line apart. */
  datatype Request = Two(lock1: nat, lock2: nat) | All(base: nat, stripes: nat)

  const CACHE_LINE: nat := 64

  ghost predicate ValidRequest(r: Request) {
    match r
    case Two(lock1, lock2) => lock1 < WORD64 && lock2 < WORD64
    case All(base, stripes) => stripes > 0 && base + CACHE_LINE * stripes <= WORD64
  }

  // ------------------------------------------------------------------ the two orders

  /** The locks in the order in which lockTwo or lockAll takes them. */
  function Taken(r: Request): seq<nat> {
    match r
    case Two(lock1, lock2) =>
      if lock1 < lock2 then [lock1, lock2] else if lock2 != lock1 then [lock2, lock1] else [lock2]
    case All(base, stripes) => seq(stripes, i requires 0 <= i => base + CACHE_LINE * i)
  }

  /** The locks in the order in which unlockTwo or unlockAll releases them. */
  function Released(r: Request): seq<nat> {
    match r
    case Two(lock1, lock2) => if lock2 != lock1 then [lock1, lock2] else [lock1]
    case All(base, stripes) => seq(stripes, i requires 0 <= i => base + CACHE_LINE * i)
  }

  ghost predicate Ascending(s: seq<nat>) {
    forall i, j :: 0 <= i < j < |s| ==> s[i] < s[j]
  }

  /** Locks are taken in ascending order, and exactly those are released, each once. */
  lemma OrdersAgree(r: Request)
    requires ValidRequest(r)
    ensures Taken(r) != [] && Ascending(Taken(r)) && forall l :: l in Taken(r) ==> l < WORD64
    ensures Distinct(Released(r)) && |Released(r)| == |Taken(r)|
    ensures forall l :: l in Released(r) <==> l in Taken(r)
  {
    if r.Two? {
      assert Taken(r)[0] in Taken(r);
      assert r.lock1 in Released(r) && r.lock2 in Released(r);
      assert r.lock1 in Taken(r) && r.lock2 in Taken(r) by {
        assert Taken(r)[|Taken(r)| - 1] in Taken(r);
      }
    }
  }

  /** The locks that a request is for. */
  ghost predicate IsLockOf(r: Request, l: nat) {
    match r
    case Two(lock1, lock2) => l == lock1 || l == lock2
    case All(base, stripes) => exists i: nat :: i < stripes && l == base + CACHE_LINE * i
  }

  /** Exactly the locks of the request are taken, and exactly those are released. */
  lemma TakesItsLocks(r: Request, l: nat)
    requires ValidRequest(r)
    ensures l in Taken(r) <==> IsLockOf(r, l)
    ensures l in Released(r) <==> IsLockOf(r, l)
  {
    OrdersAgree(r);
    match r
    case Two(lock1, lock2) =>
      assert Released(r)[0] == lock1;
      if lock1 != lock2 {
        assert Released(r)[1] == lock2;
      }
    case All(base, stripes) =>
      if i: nat :| i < stripes && l == base + CACHE_LINE * i {
        assert Taken(r)[i] == l;
      }
  }

  // ------------------------------------------------------------------ threads

  /** A thread works off its requests; of the first one it has taken and released so many
      locks. */
  datatype Thread = Thread(requests: seq<Request>, taken: nat, released: nat)

  /** All threads, and the owner of every lock that is held. */
  datatype State = State(threads: seq<Thread>, owner: map<nat, nat>)

  ghost predicate Finished(t: Thread) { t.requests == [] }

  ghost predicate Locking(t: Thread) {
    t.requests != [] && t.taken < |Taken(t.requests[0])|
  }

  ghost function Wanted(t: Thread): nat
    requires Locking(t)
  {
    Taken(t.requests[0])[t.taken]
  }

  /** The thread once it has released one more lock. */
  ghost function AfterRelease(t: Thread): Thread
    requires t.requests != []
  {
    if t.released + 1 < |Released(t.requests[0])| then t.(released := t.released + 1)
    else Thread(t.requests[1..], 0, 0)
  }

  ghost predicate Step(s: State, s': State, n: nat)
    requires n < |s.threads|
  {
    var t := s.threads[n];
    if Finished(t) then false
    else if Locking(t) then
      Wanted(t) !in s.owner
      && s' == State(s.threads[n := t.(taken := t.taken + 1)], s.owner[Wanted(t) := n])
    else
      t.released < |Released(t.requests[0])|
      && s' == State(s.threads[n := AfterRelease(t)], s.owner - {Released(t.requests[0])[t.released]})
  }

  ghost predicate CanStep(s: State, n: nat)
    requires n < |s.threads|
  {
    exists s' :: Step(s, s', n)
  }

  // ------------------------------------------------------------------ the invariant

  ghost predicate ThreadOk(t: Thread) {
    && (forall i :: 0 <= i < |t.requests| ==> ValidRequest(t.requests[i]))
    && (t.requests == [] ==> t.taken == 0 && t.released == 0)
    && (t.requests != [] ==> t.taken <= |Taken(t.requests[0])| && t.released < |Released(t.requests[0])|)
    && (t.released > 0 ==> !Locking(t))
  }

  /** The thread has taken the lock and not released it yet. */
  ghost predicate Holds(t: Thread, l: nat)
    requires ThreadOk(t)
  {
    t.requests != [] && l in Taken(t.requests[0])[..t.taken] && l !in Released(t.requests[0])[..t.released]
  }

  ghost predicate OwnedRight(s: State, n: nat, l: nat)
    requires n < |s.threads| && ThreadOk(s.threads[n])
  {
    Holds(s.threads[n], l) <==> Owns(s, n, l)
  }

  ghost predicate Owns(s: State, n: nat, l: nat) {
    l in s.owner && s.owner[l] == n
  }

  ghost predicate Inv(s: State) {
    && (forall n :: 0 <= n < |s.threads| ==> ThreadOk(s.threads[n]))
    && (forall n, l :: 0 <= n < |s.threads| ==> OwnedRight(s, n, l))
    && (forall l :: l in s.owner ==> s.owner[l] < |s.threads|)
  }

  /** In the beginning no lock is held. */
  ghost predicate Start(s: State) {
    && s.owner == map[]
    && forall n :: 0 <= n < |s.threads| ==>
         && s.threads[n].taken == 0 && s.threads[n].released == 0
         && forall i :: 0 <= i < |s.threads[n].requests| ==> ValidRequest(s.threads[n].requests[i])
  }

  lemma StartHasInv(s: State)
    requires Start(s)
    ensures Inv(s)
  {
    forall n | 0 <= n < |s.threads|
      ensures ThreadOk(s.threads[n])
    {
      if s.threads[n].requests != [] {
        OrdersAgree(s.threads[n].requests[0]);
      }
    }
  }

  lemma TakingHolds(t: Thread, l: nat)
    requires ThreadOk(t) && Locking(t)
    ensures ThreadOk(t.(taken := t.taken + 1))
    ensures Holds(t.(taken := t.taken + 1), l) <==> Holds(t, l) || l == Wanted(t)
  {
    var r := t.requests[0];
    assert Taken(r)[..t.taken + 1] == Taken(r)[..t.taken] + [Wanted(t)];
    assert Released(r)[..0] == [];
  }

  lemma ReleasingHolds(t: Thread, l: nat)
    requires ThreadOk(t) && !Finished(t) && !Locking(t)
    ensures ThreadOk(AfterRelease(t))
    ensures Holds(AfterRelease(t), l) <==> Holds(t, l) && l != Released(t.requests[0])[t.released]
  {
    var r := t.requests[0];
    OrdersAgree(r);
    assert Released(r)[..t.released + 1] == Released(r)[..t.released] + [Released(r)[t.released]];
    if t.released + 1 == |Released(r)| {
      LastRelease(t, l);
      if |t.requests| > 1 {
        OrdersAgree(t.requests[1]);
      }
    }
  }

  /** The lock that a thread releases next is one that it holds. */
  lemma HoldsNextRelease(t: Thread)
    requires ThreadOk(t) && !Finished(t) && !Locking(t)
    ensures Holds(t, Released(t.requests[0])[t.released])
  {
    var r := t.requests[0];
    OrdersAgree(r);
    assert Taken(r)[..t.taken] == Taken(r);
    assert Released(r)[t.released] in Released(r);
  }

  /** After the last release a thread holds nothing. */
  lemma LastRelease(t: Thread, l: nat)
    requires ThreadOk(t) && !Finished(t) && !Locking(t) && t.released + 1 == |Released(t.requests[0])|
    ensures !(Holds(t, l) && l != Released(t.requests[0])[t.released])
  {
    var r := t.requests[0];
    OrdersAgree(r);
    if Holds(t, l) {
      assert l in Taken(r);
      assert Released(r) == Released(r)[..t.released] + [Released(r)[t.released]];
    }
  }

  lemma TakeKeepsInv(s: State, s': State, n: nat)
    requires Inv(s) && n < |s.threads| && Step(s, s', n) && Locking(s.threads[n])
    ensures Inv(s') && |s'.threads| == |s.threads|
  {
    var t := s.threads[n];
    TakingHolds(t, 0);
    forall m, l | 0 <= m < |s'.threads|
      ensures OwnedRight(s', m, l)
    {
      assert OwnedRight(s, m, l) && OwnedRight(s, m, Wanted(t));
      TakingHolds(t, l);
    }
  }

  lemma ReleaseKeepsInv(s: State, s': State, n: nat)
    requires Inv(s) && n < |s.threads| && Step(s, s', n) && !Locking(s.threads[n])
    ensures Inv(s') && |s'.threads| == |s.threads|
  {
    var t := s.threads[n];
    var released := Released(t.requests[0])[t.released];
    assert s'.threads == s.threads[n := AfterRelease(t)] && s'.owner == s.owner - {released};
    HoldsNextRelease(t);
    assert OwnedRight(s, n, released);
    ReleasingHolds(t, 0);
    forall m, l | 0 <= m < |s'.threads|
      ensures OwnedRight(s', m, l)
    {
      assert OwnedRight(s, m, l);
      ReleasingHolds(t, l);
    }
  }

  // ------------------------------------------------------------------ runs

  ghost predicate IsRun(run: seq<State>, who: seq<nat>) {
    && |run| == |who| + 1 && Start(run[0])
    && forall i :: 0 <= i < |who| ==> who[i] < |run[i].threads| && Step(run[i], run[i + 1], who[i])
  }

  lemma {:induction false} RunHasInv(run: seq<State>, who: seq<nat>, i: nat)
    requires IsRun(run, who) && i < |run|
    ensures Inv(run[i]) && |run[i].threads| == |run[0].threads|
  {
    if i > 0 {
      RunHasInv(run, who, i - 1);
      if Locking(run[i - 1].threads[who[i - 1]]) {
        TakeKeepsInv(run[i - 1], run[i], who[i - 1]);
      } else {
        ReleaseKeepsInv(run[i - 1], run[i], who[i - 1]);
      }
    } else {
      StartHasInv(run[0]);
    }
  }

  // ------------------------------------------------------------------ waiting

  /** Thread n waits for a lock that thread m holds. */
  ghost predicate WaitsFor(s: State, n: nat, m: nat)
    requires n < |s.threads| && m < |s.threads|
  {
    Locking(s.threads[n]) && Wanted(s.threads[n]) in s.owner && s.owner[Wanted(s.threads[n])] == m
  }

  /** A thread that holds a lock wants only higher ones. */
  lemma WantsHigher(t: Thread, l: nat)
    requires ThreadOk(t) && Holds(t, l) && Locking(t)
    ensures l < Wanted(t) < WORD64
  {
    OrdersAgree(t.requests[0]);
    assert Wanted(t) in Taken(t.requests[0]);
  }

  /** A chain of waiting threads wants higher and higher locks. */
  lemma {:induction false} WaitingGoesUp(s: State, path: seq<nat>, i: nat)
    requires Inv(s) && IsWaitPath(s, path) && 0 < i < |path| - 1
    ensures Locking(s.threads[path[0]]) && Locking(s.threads[path[i]])
    ensures Wanted(s.threads[path[0]]) < Wanted(s.threads[path[i]])
  {
    if i > 1 {
      WaitingGoesUp(s, path, i - 1);
    }
    assert WaitsFor(s, path[i - 1], path[i]) && WaitsFor(s, path[i], path[i + 1]);
    assert OwnedRight(s, path[i], Wanted(s.threads[path[i - 1]]));
    WantsHigher(s.threads[path[i]], Wanted(s.threads[path[i - 1]]));
  }

  ghost predicate IsWaitPath(s: State, path: seq<nat>) {
    && (forall i :: 0 <= i < |path| ==> path[i] < |s.threads|)
    && forall i :: 0 <= i < |path| - 1 ==> WaitsFor(s, path[i], path[i + 1])
  }

  /** No thread ever waits for itself, directly or through others: the wait-for relation
      is acyclic in every state of every run. */
  lemma WaitForIsAcyclic(run: seq<State>, who: seq<nat>, i: nat, path: seq<nat>)
    requires IsRun(run, who) && i < |run| && |path| >= 2 && IsWaitPath(run[i], path)
    ensures path[0] != path[|path| - 1]
  {
    RunHasInv(run, who, i);
    var s := run[i];
    var n, last := |path| - 2, path[|path| - 1];
    assert WaitsFor(s, path[0], path[1]) && WaitsFor(s, path[n], last);
    if path[0] == last {
      if n > 0 {
        WaitingGoesUp(s, path, n);
      }
      assert OwnedRight(s, last, Wanted(s.threads[path[n]]));
      WantsHigher(s.threads[last], Wanted(s.threads[path[n]]));
      assert false;
    }
  }

  /** Whoever waits, some thread can step: follow the chain of waiting threads. */
  lemma {:induction false} SomeoneCanStep(s: State, n: nat) returns (m: nat)
    requires Inv(s) && n < |s.threads| && !Finished(s.threads[n])
    ensures m < |s.threads| && CanStep(s, m)
    decreases WORD64 - (if Locking(s.threads[n]) then Wanted(s.threads[n]) else WORD64)
  {
    var t := s.threads[n];
    m := n;
    if !Locking(t) {
      var s' := State(s.threads[n := AfterRelease(t)], s.owner - {Released(t.requests[0])[t.released]});
      assert Step(s, s', n);
    } else if Wanted(t) !in s.owner {
      var s' := State(s.threads[n := t.(taken := t.taken + 1)], s.owner[Wanted(t) := n]);
      assert Step(s, s', n);
    } else {
      var o := s.owner[Wanted(t)];
      assert OwnedRight(s, o, Wanted(t));
      if Locking(s.threads[o]) {
        WantsHigher(s.threads[o], Wanted(t));
      } else {
        OrdersAgree(t.requests[0]);
        assert Wanted(t) in Taken(t.requests[0]);
      }
      m := SomeoneCanStep(s, o);
    }
  }

  /** No deadlock: in every state of every run, if some thread is unfinished then some
      thread can step. */
  lemma NoDeadlock(run: seq<State>, who: seq<nat>, i: nat, n: nat) returns (m: nat)
    requires IsRun(run, who) && i < |run| && n < |run[i].threads| && !Finished(run[i].threads[n])
    ensures m < |run[i].threads| && CanStep(run[i], m)
  {
    RunHasInv(run, who, i);
    m := SomeoneCanStep(run[i], n);
  }

  // ------------------------------------------------------------------ runs end

  /** The steps that a thread still has to take. */
  ghost function StepsLeft(t: Thread): int {
    if t.requests == [] then 0 else LocksOf(t.requests) - t.taken - t.released
  }

  ghost function LocksOf(requests: seq<Request>): nat {
    if requests == [] then 0 else |Taken(requests[0])| + |Released(requests[0])| + LocksOf(requests[1..])
  }

  ghost function AllStepsLeft(threads: seq<Thread>): int {
    if threads == [] then 0 else StepsLeft(threads[0]) + AllStepsLeft(threads[1..])
  }

  lemma {:induction false} OneThreadChanges(threads: seq<Thread>, n: nat, t: Thread)
    requires n < |threads|
    ensures AllStepsLeft(threads[n := t]) == AllStepsLeft(threads) - StepsLeft(threads[n]) + StepsLeft(t)
  {
    if n == 0 {
      assert threads[n := t][1..] == threads[1..];
    } else {
      OneThreadChanges(threads[1..], n - 1, t);
      assert threads[n := t][1..] == threads[1..][n - 1 := t];
    }
  }

  lemma {:induction false} StepsLeftNotNegative(threads: seq<Thread>)
    requires forall n :: 0 <= n < |threads| ==> ThreadOk(threads[n])
    ensures AllStepsLeft(threads) >= 0
  {
    if threads != [] {
      StepsLeftNotNegative(threads[1..]);
    }
  }

  lemma StepIsOneLess(s: State, s': State, n: nat)
    requires Inv(s) && n < |s.threads| && Step(s, s', n)
    ensures AllStepsLeft(s'.threads) == AllStepsLeft(s.threads) - 1
  {
    var t, t' := s.threads[n], s'.threads[n];
    OneThreadChanges(s.threads, n, t');
    assert s'.threads == s.threads[n := t'];
    OrdersAgree(t.requests[0]);
    if !Locking(t) && t.released + 1 == |Released(t.requests[0])| {
      assert t'.requests == t.requests[1..];
    }
  }

  /** Every step is one step nearer to the end, so every run that goes on while some
      thread can step ends with all threads finished and no lock held. */
  lemma {:induction false} RunsAreBounded(run: seq<State>, who: seq<nat>, i: nat)
    requires IsRun(run, who) && i < |run|
    ensures i + AllStepsLeft(run[i].threads) == AllStepsLeft(run[0].threads)
    ensures i <= AllStepsLeft(run[0].threads)
  {
    RunHasInv(run, who, i);
    StepsLeftNotNegative(run[i].threads);
    if i > 0 {
      RunsAreBounded(run, who, i - 1);
      RunHasInv(run, who, i - 1);
      StepIsOneLess(run[i - 1], run[i], who[i - 1]);
    }
  }

  lemma AllFinishedMeansFree(run: seq<State>, who: seq<nat>, i: nat)
    requires IsRun(run, who) && i < |run|
    requires forall n :: 0 <= n < |run[i].threads| ==> !CanStep(run[i], n)
    ensures forall n :: 0 <= n < |run[i].threads| ==> Finished(run[i].threads[n])
    ensures run[i].owner == map[]
  {
    RunHasInv(run, who, i);
    forall n | 0 <= n < |run[i].threads|
      ensures Finished(run[i].threads[n])
    {
      if !Finished(run[i].threads[n]) {
        var m := NoDeadlock(run, who, i, n);
      }
    }
    forall n, l | 0 <= n < |run[i].threads|
      ensures !Owns(run[i], n, l)
    {
      assert OwnedRight(run[i], n, l);
    }
    assert forall l :: l in run[i].owner ==> Owns(run[i], run[i].owner[l], l);
  }
}
