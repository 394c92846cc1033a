/** The lock-free installation of chained hook functions: any number of calls of set,
    in any interleaving, each with its own retry loop. */
module HookChain {
  import opened Pigeonholes
  import opened Wrappers

  type Fn = nat

  /** One call set(newValue, &oldVariable). */
  datatype Call = Call(newValue: Fn, oldVariable: nat)

  /** Where a call is: it loaded the hook, stored it to its variable, or is done. */
  datatype Progress = NotStarted | Loaded(oldValue: Fn) | Stored(oldValue: Fn) | Done

  /** The shared hook, the variables that were written, and the calls' progress. The
      order in which calls succeeded is recorded for the statements below. */
  datatype State = State(hook: Fn, vars: map<nat, Fn>, progress: seq<Progress>, installed: seq<nat>)

  /** No hook is installed twice or is the initial one, and no variable is shared. */
  ghost predicate AllDifferent(calls: seq<Call>, first: Fn) {
    && (forall i :: 0 <= i < |calls| ==> calls[i].newValue != first)
    && (forall i, j :: 0 <= i < j < |calls| ==>
          calls[i].newValue != calls[j].newValue && calls[i].oldVariable != calls[j].oldVariable)
  }

  // ------------------------------------------------------------------ steps

  ghost predicate Start(calls: seq<Call>, first: Fn, s: State) {
    && s.hook == first && s.vars == map[] && s.installed == []
    && |s.progress| == |calls| && forall c :: 0 <= c < |calls| ==> s.progress[c] == NotStarted
  }

  ghost predicate Load(s: State, s': State, c: nat)
    requires c < |s.progress|
  {
    s.progress[c].NotStarted? && s' == s.(progress := s.progress[c := Loaded(s.hook)])
  }

  ghost predicate StoreOld(calls: seq<Call>, s: State, s': State, c: nat)
    requires c < |s.progress| == |calls|
  {
    && s.progress[c].Loaded?
    && s' == s.(progress := s.progress[c := Stored(s.progress[c].oldValue)],
                vars := s.vars[calls[c].oldVariable := s.progress[c].oldValue])
  }

  ghost predicate Exchange(calls: seq<Call>, s: State, s': State, c: nat)
    requires c < |s.progress| == |calls|
  {
    && s.progress[c].Stored? && s.progress[c].oldValue == s.hook
    && s' == s.(progress := s.progress[c := Done], hook := calls[c].newValue, installed := s.installed + [c])
  }

  /** The weak exchange may fail even when the hook is the expected one. */
  ghost predicate FailExchange(s: State, s': State, c: nat)
    requires c < |s.progress|
  {
    s.progress[c].Stored? && s' == s.(progress := s.progress[c := Loaded(s.hook)])
  }

  ghost predicate CallStep(calls: seq<Call>, s: State, s': State, c: nat)
    requires c < |s.progress| == |calls|
  {
    Load(s, s', c) || StoreOld(calls, s, s', c) || Exchange(calls, s, s', c) || FailExchange(s, s', c)
  }

  ghost predicate IsRun(calls: seq<Call>, first: Fn, run: seq<State>, who: seq<nat>) {
    && |run| == |who| + 1 && Start(calls, first, run[0])
    && (forall i :: 0 <= i < |run| ==> |run[i].progress| == |calls|)
    && (forall i :: 0 <= i < |who| ==> who[i] < |calls| && CallStep(calls, run[i], run[i + 1], who[i]))
  }

  // ------------------------------------------------------------------ the invariant

  /** The hook that was current before the k-th installation. */
  function HookBefore(calls: seq<Call>, first: Fn, installed: seq<nat>, k: nat): Fn
    requires k <= |installed| && forall i :: 0 <= i < |installed| ==> installed[i] < |calls|
  {
    if k == 0 then first else calls[installed[k - 1]].newValue
  }

  ghost predicate Inv(calls: seq<Call>, first: Fn, s: State) {
    && |s.progress| == |calls|
    && (forall k :: 0 <= k < |s.installed| ==> s.installed[k] < |calls|)
    && s.hook == HookBefore(calls, first, s.installed, |s.installed|)
    && (forall i, j :: 0 <= i < j < |s.installed| ==> s.installed[i] != s.installed[j])
    && (forall c :: 0 <= c < |calls| ==> (s.progress[c].Done? <==> c in s.installed))
    && (forall k :: 0 <= k < |s.installed| ==> Written(calls, first, s, k))
    && (forall c :: 0 <= c < |calls| && s.progress[c].Stored? ==>
          calls[c].oldVariable in s.vars && s.vars[calls[c].oldVariable] == s.progress[c].oldValue)
  }

  /** The variable of the k-th installed call holds the hook before it. */
  ghost predicate Written(calls: seq<Call>, first: Fn, s: State, k: nat)
    requires k < |s.installed| && forall i :: 0 <= i < |s.installed| ==> s.installed[i] < |calls|
  {
    var v := calls[s.installed[k]].oldVariable;
    v in s.vars && s.vars[v] == HookBefore(calls, first, s.installed, k)
  }

  lemma StartHasInv(calls: seq<Call>, first: Fn, s: State)
    requires Start(calls, first, s)
    ensures Inv(calls, first, s)
  {
  }

  /** An exchange makes its call the newest one. */
  lemma ExchangeKeepsInv(calls: seq<Call>, first: Fn, s: State, s': State, c: nat)
    requires Inv(calls, first, s) && c < |calls| && Exchange(calls, s, s', c)
    ensures Inv(calls, first, s') && s'.installed == s.installed + [c]
  {
    assert c !in s.installed;
    forall k | 0 <= k < |s'.installed|
      ensures Written(calls, first, s', k)
    {
      if k < |s.installed| {
        assert Written(calls, first, s, k);
      }
    }
  }

  /** Any other step leaves the chain alone: it writes no variable but its own. */
  lemma OtherStepKeepsInv(calls: seq<Call>, first: Fn, s: State, s': State, c: nat)
    requires AllDifferent(calls, first) && Inv(calls, first, s) && c < |calls|
    requires Load(s, s', c) || StoreOld(calls, s, s', c) || FailExchange(s, s', c)
    ensures Inv(calls, first, s') && s'.installed == s.installed
  {
    forall k | 0 <= k < |s'.installed|
      ensures Written(calls, first, s', k)
    {
      assert Written(calls, first, s, k);
      assert s.installed[k] != c;
    }
  }

  lemma StepKeepsInv(calls: seq<Call>, first: Fn, s: State, s': State, c: nat)
    requires AllDifferent(calls, first) && Inv(calls, first, s) && c < |calls| && CallStep(calls, s, s', c)
    ensures Inv(calls, first, s') && s.installed <= s'.installed
  {
    if Exchange(calls, s, s', c) {
      ExchangeKeepsInv(calls, first, s, s', c);
    } else {
      OtherStepKeepsInv(calls, first, s, s', c);
    }
  }

  lemma {:induction false} RunHasInv(calls: seq<Call>, first: Fn, run: seq<State>, who: seq<nat>, i: nat)
    requires AllDifferent(calls, first) && IsRun(calls, first, run, who) && i < |run|
    ensures Inv(calls, first, run[i])
  {
    if i > 0 {
      RunHasInv(calls, first, run, who, i - 1);
      StepKeepsInv(calls, first, run[i - 1], run[i], who[i - 1]);
    } else {
      StartHasInv(calls, first, run[0]);
    }
  }

  // ------------------------------------------------------------------ following the chain

  /** A call that installed the hook and has written its variable. */
  ghost function CallOf(calls: seq<Call>, vars: map<nat, Fn>, hook: Fn): (call: Option<nat>)
    ensures call.Some? ==> Installs(calls, vars, hook, call.value)
    ensures call.None? ==> forall c :: !Installs(calls, vars, hook, c)
  {
    if c: nat :| Installs(calls, vars, hook, c) then Some(c) else None
  }

  ghost predicate Installs(calls: seq<Call>, vars: map<nat, Fn>, hook: Fn, c: nat) {
    c < |calls| && calls[c].newValue == hook && calls[c].oldVariable in vars
  }

  /** The hooks met by following old-value variables, as a caller of the hook would: each
      hook's function goes on to what the variable of its own call holds. */
  ghost function Follow(calls: seq<Call>, vars: map<nat, Fn>, hook: Fn, steps: nat): seq<Fn>
    decreases steps
  {
    var call := CallOf(calls, vars, hook);
    if steps == 0 || call.None? then [hook]
    else [hook] + Follow(calls, vars, vars[calls[call.value].oldVariable], steps - 1)
  }

  /** The first k installed hooks, the newest first, and then the initial one. */
  function NewestFirst(calls: seq<Call>, first: Fn, installed: seq<nat>, k: nat): (hooks: seq<Fn>)
    requires k <= |installed| && forall i :: 0 <= i < |installed| ==> installed[i] < |calls|
    ensures |hooks| == k + 1
  {
    if k == 0 then [first] else [calls[installed[k - 1]].newValue] + NewestFirst(calls, first, installed, k - 1)
  }

  /** The hook of the k-th installed call goes on to the hook before it. */
  ghost predicate GoesOn(calls: seq<Call>, first: Fn, vars: map<nat, Fn>, installed: seq<nat>, k: nat)
    requires k < |installed| && forall i :: 0 <= i < |installed| ==> installed[i] < |calls|
  {
    var call := CallOf(calls, vars, calls[installed[k]].newValue);
    call.Some? && vars[calls[call.value].oldVariable] == HookBefore(calls, first, installed, k)
  }

  lemma ChainGoesOn(calls: seq<Call>, first: Fn, s: State, k: nat)
    requires AllDifferent(calls, first) && Inv(calls, first, s) && k < |s.installed|
    ensures GoesOn(calls, first, s.vars, s.installed, k)
  {
    assert Written(calls, first, s, k);
    assert Installs(calls, s.vars, calls[s.installed[k]].newValue, s.installed[k]);
  }

  lemma FirstGoesNowhere(calls: seq<Call>, first: Fn, vars: map<nat, Fn>)
    requires AllDifferent(calls, first)
    ensures CallOf(calls, vars, first).None?
  {
    assert forall c :: !Installs(calls, vars, first, c);
  }

  lemma {:induction false} FollowFrom(calls: seq<Call>, first: Fn, vars: map<nat, Fn>, installed: seq<nat>, k: nat,
                                      steps: nat)
    requires k <= |installed| && forall i :: 0 <= i < |installed| ==> installed[i] < |calls|
    requires CallOf(calls, vars, first).None?
    requires forall i :: 0 <= i < |installed| ==> GoesOn(calls, first, vars, installed, i)
    requires steps >= k
    ensures Follow(calls, vars, HookBefore(calls, first, installed, k), steps)
            == NewestFirst(calls, first, installed, k)
    decreases k
  {
    if k > 0 {
      assert GoesOn(calls, first, vars, installed, k - 1);
      FollowFrom(calls, first, vars, installed, k - 1, steps - 1);
    }
  }

  /** Following the chain from the current hook for at least as many steps as there are
      installed hooks meets the hooks of exactly the calls that are done, each once and the
      newest first, and ends at the initial hook. */
  ghost predicate Complete(calls: seq<Call>, first: Fn, s: State, steps: nat)
    requires |s.progress| == |calls|
  {
    && (forall k :: 0 <= k < |s.installed| ==> s.installed[k] < |calls|)
    && (forall c :: 0 <= c < |calls| ==> (s.progress[c].Done? <==> c in s.installed))
    && Distinct(s.installed)
    && Follow(calls, s.vars, s.hook, steps) == NewestFirst(calls, first, s.installed, |s.installed|)
  }

  /** Nothing is lost: the chain is complete in every state of every run. */
  lemma ChainIsComplete(calls: seq<Call>, first: Fn, run: seq<State>, who: seq<nat>, i: nat, steps: nat)
    requires AllDifferent(calls, first) && IsRun(calls, first, run, who) && i < |run|
    requires steps >= |run[i].installed|
    ensures Complete(calls, first, run[i], steps)
  {
    RunHasInv(calls, first, run, who, i);
    var s := run[i];
    forall k | 0 <= k < |s.installed|
      ensures GoesOn(calls, first, s.vars, s.installed, k)
    {
      ChainGoesOn(calls, first, s, k);
    }
    FirstGoesNowhere(calls, first, s.vars);
    FollowFrom(calls, first, s.vars, s.installed, |s.installed|, steps);
  }

  lemma {:induction false} InstalledGrows(calls: seq<Call>, first: Fn, run: seq<State>, who: seq<nat>, i: nat, j: nat)
    requires AllDifferent(calls, first) && IsRun(calls, first, run, who) && i <= j < |run|
    ensures run[i].installed <= run[j].installed
  {
    if i < j {
      InstalledGrows(calls, first, run, who, i, j - 1);
      RunHasInv(calls, first, run, who, j - 1);
      StepKeepsInv(calls, first, run[j - 1], run[j], who[j - 1]);
    }
  }

  /** get is safe: the hook it returns is the initial one or that of a call whose variable
      already holds the hook it replaced, and keeps holding it however long the caller
      waits before it reads the variable. */
  lemma GetIsSafe(calls: seq<Call>, first: Fn, run: seq<State>, who: seq<nat>, i: nat, j: nat)
    requires AllDifferent(calls, first) && IsRun(calls, first, run, who) && i <= j < |run|
    ensures run[i].hook == first <==> run[i].installed == []
    ensures run[i].installed != [] ==>
              var c := run[i].installed[|run[i].installed| - 1];
              && c < |calls| && run[i].hook == calls[c].newValue
              && calls[c].oldVariable in run[i].vars && calls[c].oldVariable in run[j].vars
              && run[j].vars[calls[c].oldVariable] == run[i].vars[calls[c].oldVariable]
  {
    RunHasInv(calls, first, run, who, i);
    RunHasInv(calls, first, run, who, j);
    InstalledGrows(calls, first, run, who, i, j);
    if run[i].installed != [] {
      var k := |run[i].installed| - 1;
      assert Written(calls, first, run[i], k) && Written(calls, first, run[j], k);
      assert run[j].installed[..k + 1] == run[i].installed;
      if k > 0 {
        assert run[j].installed[k - 1] == run[i].installed[k - 1];
      }
      assert run[j].installed[k] == run[i].installed[k];
    }
  }

  // ------------------------------------------------------------------ why the calls must differ

  /** No run of the calls ever loses a hook. */
  ghost predicate NeverLosesHooks(calls: seq<Call>, first: Fn) {
    forall run: seq<State>, who: seq<nat>, i: nat, steps: nat
      {:trigger IsRun(calls, first, run, who), Complete(calls, first, run[i], steps)} ::
      IsRun(calls, first, run, who) && i < |run| && steps >= |run[i].installed| ==>
        Complete(calls, first, run[i], steps)
  }

  /** The condition on the calls is exact: if it fails, some run loses a hook. */
  lemma NeverLosesHooksIff(calls: seq<Call>, first: Fn)
    ensures NeverLosesHooks(calls, first) <==> AllDifferent(calls, first)
  {
    if AllDifferent(calls, first) {
      forall run: seq<State>, who: seq<nat>, i: nat, steps: nat
        | IsRun(calls, first, run, who) && i < |run| && steps >= |run[i].installed|
        ensures Complete(calls, first, run[i], steps)
      {
        ChainIsComplete(calls, first, run, who, i, steps);
      }
    } else if c :| 0 <= c < |calls| && calls[c].newValue == first {
      FirstHookAgain(calls, first, c);
    } else if c, d :| 0 <= c < d < |calls| && calls[c].newValue == calls[d].newValue {
      SameHookTwice(calls, first, c, d);
    } else {
      var c, d :| 0 <= c < d < |calls| && calls[c].oldVariable == calls[d].oldVariable;
      SharedVariable(calls, first, c, d);
    }
  }

  /** The state after a call has run from beginning to end undisturbed. */
  function Installed(calls: seq<Call>, s: State, c: nat): State
    requires c < |calls| == |s.progress|
  {
    State(calls[c].newValue, s.vars[calls[c].oldVariable := s.hook], s.progress[c := Done], s.installed + [c])
  }

  lemma InstallNext(calls: seq<Call>, first: Fn, run: seq<State>, who: seq<nat>, c: nat)
    returns (run': seq<State>, who': seq<nat>)
    requires IsRun(calls, first, run, who) && c < |calls| && run[|run| - 1].progress[c].NotStarted?
    ensures IsRun(calls, first, run', who')
    ensures run'[|run'| - 1] == Installed(calls, run[|run| - 1], c)
  {
    var s := run[|run| - 1];
    var s1 := s.(progress := s.progress[c := Loaded(s.hook)]);
    var s2 := s1.(progress := s1.progress[c := Stored(s.hook)], vars := s.vars[calls[c].oldVariable := s.hook]);
    var s3 := Installed(calls, s, c);
    assert Load(s, s1, c) && StoreOld(calls, s1, s2, c);
    assert s3.progress == s2.progress[c := Done];
    assert Exchange(calls, s2, s3, c);
    run', who' := run + [s1, s2, s3], who + [c, c, c];
  }

  lemma InstallFirst(calls: seq<Call>, first: Fn, c: nat) returns (run: seq<State>, who: seq<nat>)
    requires c < |calls|
    ensures IsRun(calls, first, run, who)
    ensures run[|run| - 1].progress == seq(|calls|, i => NotStarted)[c := Done]
    ensures var s := run[|run| - 1];
            s.hook == calls[c].newValue && s.vars == map[calls[c].oldVariable := first] && s.installed == [c]
  {
    var s := State(first, map[], seq(|calls|, i => NotStarted), []);
    assert IsRun(calls, first, [s], []);
    run, who := InstallNext(calls, first, [s], [], c);
  }

  /** One call after another. */
  lemma InstallBoth(calls: seq<Call>, first: Fn, c: nat, d: nat) returns (run: seq<State>, who: seq<nat>)
    requires c < |calls| && d < |calls| && c != d
    ensures IsRun(calls, first, run, who)
    ensures var s := run[|run| - 1];
            && s.hook == calls[d].newValue && s.installed == [c, d]
            && s.vars == map[calls[c].oldVariable := first][calls[d].oldVariable := calls[c].newValue]
  {
    run, who := InstallFirst(calls, first, c);
    run, who := InstallNext(calls, first, run, who, d);
  }

  /** Installing the initial hook again chains it to itself. */
  lemma FirstHookAgain(calls: seq<Call>, first: Fn, c: nat)
    requires c < |calls| && calls[c].newValue == first
    ensures !NeverLosesHooks(calls, first)
  {
    var run, who := InstallFirst(calls, first, c);
    var s := run[|run| - 1];
    assert Installs(calls, s.vars, first, c);
    assert Follow(calls, s.vars, first, 0) == [first];
    assert Follow(calls, s.vars, first, 1) == [first, first];
    assert |Follow(calls, s.vars, first, 2)| == 3;
    assert !Complete(calls, first, run[|run| - 1], 2);
  }

  /** Installing one hook twice chains it to itself, or drops its first installation. */
  lemma SameHookTwice(calls: seq<Call>, first: Fn, c: nat, d: nat)
    requires c < d < |calls| && calls[c].newValue == calls[d].newValue
    requires forall e :: 0 <= e < |calls| ==> calls[e].newValue != first
    ensures !NeverLosesHooks(calls, first)
  {
    var run, who := InstallBoth(calls, first, c, d);
    var s, hook := run[|run| - 1], calls[c].newValue;
    assert Installs(calls, s.vars, hook, d);
    var next := s.vars[calls[CallOf(calls, s.vars, hook).value].oldVariable];
    assert next == hook || next == first;
    assert Follow(calls, s.vars, next, 0) == [next];
    assert Follow(calls, s.vars, first, 1) == [first];
    assert Follow(calls, s.vars, hook, 1) == [hook, next];
    assert Follow(calls, s.vars, hook, 2) == [hook] + Follow(calls, s.vars, next, 1);
    assert NewestFirst(calls, first, s.installed, 1) == [hook, first];
    assert NewestFirst(calls, first, s.installed, 2) == [hook, hook, first];
    assert |Follow(calls, s.vars, hook, 2)| == 2 || Follow(calls, s.vars, hook, 2)[2] != first;
    assert !Complete(calls, first, run[|run| - 1], 2);
  }

  /** Two calls that share a variable chain the older hook to itself. */
  lemma SharedVariable(calls: seq<Call>, first: Fn, c: nat, d: nat)
    requires c < d < |calls| && calls[c].oldVariable == calls[d].oldVariable
    requires forall e :: 0 <= e < |calls| ==> calls[e].newValue != first
    requires forall e, f :: 0 <= e < f < |calls| ==> calls[e].newValue != calls[f].newValue
    ensures !NeverLosesHooks(calls, first)
  {
    var run, who := InstallBoth(calls, first, c, d);
    var s, older, newer := run[|run| - 1], calls[c].newValue, calls[d].newValue;
    assert Installs(calls, s.vars, newer, d) && Installs(calls, s.vars, older, c);
    assert Follow(calls, s.vars, older, 0) == [older];
    assert Follow(calls, s.vars, older, 1) == [older, older];
    assert Follow(calls, s.vars, newer, 2) == [newer, older, older];
    assert NewestFirst(calls, first, s.installed, 1) == [older, first];
    assert NewestFirst(calls, first, s.installed, 2) == [newer, older, first];
    assert Follow(calls, s.vars, newer, 2)[2] != first;
    assert !Complete(calls, first, run[|run| - 1], 2);
  }

  // ------------------------------------------------------------------ a call that runs alone

  /** The next step of a call when nobody else steps and the exchange fails only for cause. */
  function Next(calls: seq<Call>, s: State, c: nat): State
    requires c < |s.progress| == |calls|
  {
    match s.progress[c]
    case NotStarted => s.(progress := s.progress[c := Loaded(s.hook)])
    case Loaded(oldValue) =>
      s.(progress := s.progress[c := Stored(oldValue)], vars := s.vars[calls[c].oldVariable := oldValue])
    case Stored(oldValue) =>
      if oldValue == s.hook then
        State(calls[c].newValue, s.vars, s.progress[c := Done], s.installed + [c])
      else s.(progress := s.progress[c := Loaded(s.hook)])
    case Done => s
  }

  function Alone(calls: seq<Call>, s: State, c: nat, n: nat): State
    requires c < |s.progress| == |calls|
    decreases n
  {
    if n == 0 then s else Alone(calls, Next(calls, s, c), c, n - 1)
  }

  lemma NextIsStep(calls: seq<Call>, s: State, c: nat)
    requires c < |s.progress| == |calls| && s.progress[c] != Done
    ensures CallStep(calls, s, Next(calls, s, c), c)
  {
  }

  /** What a call that installed its hook leaves behind. */
  ghost predicate JustInstalled(calls: seq<Call>, s: State, s': State, c: nat)
    requires c < |s.progress| == |calls|
  {
    && s'.progress == s.progress[c := Done] && s'.installed == s.installed + [c] && s'.hook == calls[c].newValue
    && s'.vars == if s.progress[c] == Stored(s.hook) then s.vars else s.vars[calls[c].oldVariable := s.hook]
  }

  lemma InstallsFromStored(calls: seq<Call>, s: State, c: nat, n: nat)
    requires c < |s.progress| == |calls| && n > 0 && s.progress[c] == Stored(s.hook)
    ensures JustInstalled(calls, s, Alone(calls, s, c, n), c)
    decreases n
  {
    var s' := Next(calls, s, c);
    assert Alone(calls, s, c, n) == Alone(calls, s', c, n - 1);
    DoneStays(calls, s', c, n - 1);
  }

  lemma {:induction false} DoneStays(calls: seq<Call>, s: State, c: nat, n: nat)
    requires c < |s.progress| == |calls| && s.progress[c] == Done
    ensures Alone(calls, s, c, n) == s
    decreases n
  {
    if n > 0 {
      DoneStays(calls, s, c, n - 1);
    }
  }

  lemma InstallsFromLoaded(calls: seq<Call>, s: State, c: nat, n: nat)
    requires c < |s.progress| == |calls| && n > 1 && s.progress[c] == Loaded(s.hook)
    ensures JustInstalled(calls, s, Alone(calls, s, c, n), c)
  {
    var s' := Next(calls, s, c);
    assert Alone(calls, s, c, n) == Alone(calls, s', c, n - 1);
    InstallsFromStored(calls, s', c, n - 1);
    assert s'.progress[c := Done] == s.progress[c := Done];
  }

  /** From a step behind: not started, or holding a hook that others have replaced. */
  lemma InstallsFromBehind(calls: seq<Call>, s: State, c: nat, n: nat)
    requires c < |s.progress| == |calls| && n > 2
    requires s.progress[c].NotStarted? || (s.progress[c].Stored? && s.progress[c].oldValue != s.hook)
    ensures JustInstalled(calls, s, Alone(calls, s, c, n), c)
  {
    var s' := Next(calls, s, c);
    assert Alone(calls, s, c, n) == Alone(calls, s', c, n - 1);
    InstallsFromLoaded(calls, s', c, n - 1);
    assert s'.progress[c := Done] == s.progress[c := Done];
  }

  /** Every retry reads the hook again: from any state of any run, also after others have
      overtaken it, a call that runs alone installs its hook within four steps. Its
      variable then holds the hook that it replaced. */
  lemma AloneInstalls(calls: seq<Call>, first: Fn, run: seq<State>, who: seq<nat>, i: nat, c: nat)
    requires AllDifferent(calls, first) && IsRun(calls, first, run, who) && i < |run|
    requires c < |calls| && run[i].progress[c] != Done
    ensures var s, s' := run[i], Alone(calls, run[i], c, 4);
            && s'.progress == s.progress[c := Done] && s'.installed == s.installed + [c]
            && s'.hook == calls[c].newValue
            && calls[c].oldVariable in s'.vars && s'.vars[calls[c].oldVariable] == s.hook
            && forall v :: v in s.vars && v != calls[c].oldVariable ==> v in s'.vars && s'.vars[v] == s.vars[v]
  {
    var s := run[i];
    RunHasInv(calls, first, run, who, i);
    if s.progress[c].Loaded? && s.progress[c].oldValue != s.hook {
      var s' := Next(calls, s, c);
      assert Alone(calls, s, c, 4) == Alone(calls, s', c, 3);
      InstallsFromBehind(calls, s', c, 3);
      assert s'.progress[c := Done] == s.progress[c := Done];
    } else if s.progress[c].Loaded? {
      InstallsFromLoaded(calls, s, c, 4);
    } else if s.progress[c] == Stored(s.hook) {
      InstallsFromStored(calls, s, c, 4);
    } else {
      InstallsFromBehind(calls, s, c, 4);
    }
  }
}
