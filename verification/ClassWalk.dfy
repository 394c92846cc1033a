/** The walk over a class and its subclasses that needs no stack: it follows child,
    sibling and superclass links, and counts its steps down against corrupt links. */
module ClassWalk {
  import opened Bits
  import opened Pigeonholes

  class Class {
    var firstSubclass: Class?
    var nextSiblingClass: Class?
    var superclass: Class?
  }

  // ------------------------------------------------------------------ the tree behind the links

  /** Sibling classes, each with its subclasses. */
  datatype Forest = Nil | Cons(cls: Class, subs: Forest, rest: Forest)

  function Nodes(f: Forest): set<Class> {
    if f.Nil? then {} else {f.cls} + Nodes(f.subs) + Nodes(f.rest)
  }

  /** The links spell out the forest, for siblings below a class, or for the roots. */
  ghost predicate Linked(f: Forest, first: Class?, super: Class?)
    reads Nodes(f)
  {
    if f.Nil? then first == null
    else
      && first == f.cls && f.cls.superclass == super
      && Linked(f.subs, f.cls.firstSubclass, f.cls)
      && Linked(f.rest, f.cls.nextSiblingClass, super)
  }

  /** The classes in preorder. */
  function Preorder(f: Forest): seq<Class> {
    if f.Nil? then [] else [f.cls] + Preorder(f.subs) + Preorder(f.rest)
  }

  /** How many classes have a subclass. */
  function Parents(f: Forest): nat {
    if f.Nil? then 0 else (if f.subs.Nil? then 0 else 1) + Parents(f.subs) + Parents(f.rest)
  }

  ghost predicate Lacks(f: Forest, cls: Class) {
    cls !in Nodes(f)
  }

  lemma {:induction false} PreorderHasNodes(f: Forest, cls: Class)
    ensures cls in Preorder(f) <==> cls in Nodes(f)
  {
    if f.Cons? {
      PreorderHasNodes(f.subs, cls);
      PreorderHasNodes(f.rest, cls);
    }
  }

  // ------------------------------------------------------------------ no class comes twice

  function Size(f: Forest): nat {
    if f.Nil? then 0 else 1 + Size(f.subs) + Size(f.rest)
  }

  /** The links leave no choice of the forest. */
  lemma {:induction false} ForestIsUnique(f: Forest, g: Forest, first: Class?, super: Class?, super': Class?)
    requires Linked(f, first, super) && Linked(g, first, super')
    ensures f == g
  {
    if f.Cons? {
      ForestIsUnique(f.subs, g.subs, f.cls.firstSubclass, f.cls, f.cls);
      ForestIsUnique(f.rest, g.rest, f.cls.nextSiblingClass, super, super');
    }
  }

  /** A class is not among its own subclasses: its subclasses would contain themselves. */
  lemma {:induction false} NotBelowItself(f: Forest, first: Class?, super: Class?, cls: Class, subs: Forest)
    requires Linked(f, first, super) && Linked(subs, cls.firstSubclass, cls) && Size(f) <= Size(subs)
    ensures Lacks(f, cls)
  {
    if f.Cons? {
      if f.cls == cls {
        ForestIsUnique(f.subs, subs, cls.firstSubclass, cls, cls);
        assert false;
      } else {
        NotBelowItself(f.subs, f.cls.firstSubclass, f.cls, cls, subs);
        NotBelowItself(f.rest, f.cls.nextSiblingClass, super, cls, subs);
      }
    }
  }

  lemma {:induction false} NotAfterItself(f: Forest, first: Class?, super: Class?,
                                          cls: Class, rest: Forest, super': Class?)
    requires Linked(f, first, super) && Linked(rest, cls.nextSiblingClass, super') && Size(f) <= Size(rest)
    ensures Lacks(f, cls)
  {
    if f.Cons? {
      if f.cls == cls {
        ForestIsUnique(f.rest, rest, cls.nextSiblingClass, super, super');
        assert false;
      } else {
        NotAfterItself(f.subs, f.cls.firstSubclass, f.cls, cls, rest, super');
        NotAfterItself(f.rest, f.cls.nextSiblingClass, super, cls, rest, super');
      }
    }
  }

  lemma {:induction false} SuperclassInside(f: Forest, first: Class?, super: Class?, cls: Class)
    requires Linked(f, first, super) && cls in Nodes(f)
    ensures cls.superclass == super || cls.superclass in Nodes(f)
  {
    if f.cls != cls {
      if cls in Nodes(f.subs) {
        SuperclassInside(f.subs, f.cls.firstSubclass, f.cls, cls);
      } else {
        SuperclassInside(f.rest, f.cls.nextSiblingClass, super, cls);
      }
    }
  }

  /** Classes below a class that is outside a forest are outside it too. */
  lemma {:induction false} OutsideStaysOutside(g: Forest, first: Class?, cls: Class,
                                               f: Forest, first': Class?, super: Class?)
    requires Linked(g, first, cls) && Linked(f, first', super)
    requires Lacks(f, cls) && cls != super && (super != null ==> Lacks(g, super))
    ensures Nodes(g) !! Nodes(f)
  {
    if g.Cons? {
      if g.cls in Nodes(f) {
        SuperclassInside(f, first', super, g.cls);
        assert false;
      }
      OutsideStaysOutside(g.subs, g.cls.firstSubclass, g.cls, f, first', super);
      OutsideStaysOutside(g.rest, g.cls.nextSiblingClass, cls, f, first', super);
    }
  }

  /** So the preorder of linked classes lists each of them once. */
  lemma {:induction false} EachClassOnce(f: Forest, first: Class?, super: Class?)
    requires Linked(f, first, super) && (super != null ==> Lacks(f, super))
    ensures Distinct(Preorder(f))
  {
    if f.Cons? {
      NotBelowItself(f.subs, f.cls.firstSubclass, f.cls, f.cls, f.subs);
      NotAfterItself(f.rest, f.cls.nextSiblingClass, super, f.cls, f.rest, super);
      OutsideStaysOutside(f.subs, f.cls.firstSubclass, f.cls, f.rest, f.cls.nextSiblingClass, super);
      EachClassOnce(f.subs, f.cls.firstSubclass, f.cls);
      EachClassOnce(f.rest, f.cls.nextSiblingClass, super);
      PreorderHasNodes(f.subs, f.cls);
      PreorderHasNodes(f.rest, f.cls);
      forall c | c in Preorder(f.subs)
        ensures c !in Preorder(f.rest)
      {
        PreorderHasNodes(f.subs, c);
        PreorderHasNodes(f.rest, c);
      }
      JoinWithoutRepeats(f.cls, Preorder(f.subs), Preorder(f.rest));
    }
  }

  /** The same of the tree below one class, which may have siblings. */
  lemma TreeOnce(top: Class, subs: Forest)
    requires Linked(subs, top.firstSubclass, top)
    ensures Distinct(Preorder(Cons(top, subs, Nil)))
  {
    NotBelowItself(subs, top.firstSubclass, top, top, subs);
    EachClassOnce(subs, top.firstSubclass, top);
    PreorderHasNodes(subs, top);
    JoinWithoutRepeats(top, Preorder(subs), []);
  }

  lemma JoinWithoutRepeats(cls: Class, a: seq<Class>, b: seq<Class>)
    requires Distinct(a) && Distinct(b) && cls !in a && cls !in b && forall c :: c in a ==> c !in b
    ensures Distinct([cls] + a + b)
  {
    var s := [cls] + a + b;
    assert forall i :: 1 <= i <= |a| ==> s[i] in a;
    assert forall i :: |a| < i < |s| ==> s[i] in b;
    assert s[1..|a| + 1] == a && s[|a| + 1..] == b;
    forall i, j | 0 <= i < j < |s|
      ensures s[i] != s[j]
    {
      if 1 <= i && j <= |a| {
        assert s[i] == a[i - 1] && s[j] == a[j - 1];
      } else if |a| < i {
        assert s[i] == b[i - |a| - 1] && s[j] == b[j - |a| - 1];
      }
    }
  }

  // ------------------------------------------------------------------ the recursive walk

  /** The callback: whether to go on, given the classes it was called with so far. */
  type Code = seq<Class> -> bool

  /** The plain recursive preorder walk that stops at the first false. */
  ghost function Recurse(f: Forest, code: Code, visited: seq<Class>): (r: (seq<Class>, bool)) {
    if f.Nil? then (visited, true)
    else
      var now := visited + [f.cls];
      if !code(now) then (now, false)
      else
        var below := Recurse(f.subs, code, now);
        if !below.1 then below else Recurse(f.rest, code, below.0)
  }

  // ------------------------------------------------------------------ the steps that count

  /** The walk's steps: a call of the callback, or a climb to the superclass. */
  datatype Event = Visit(cls: Class) | Climb

  function ClimbIf(subs: Forest): seq<Event> {
    if subs.Nil? then [] else [Climb]
  }

  function Events(f: Forest): seq<Event> {
    if f.Nil? then [] else [Visit(f.cls)] + (Events(f.subs) + (ClimbIf(f.subs) + Events(f.rest)))
  }

  /** How many steps are taken when the callback can stop the walk. */
  ghost function Steps(es: seq<Event>, code: Code, visited: seq<Class>): (n: nat)
    ensures n <= |es|
  {
    if es == [] then 0
    else if es[0].Climb? then 1 + Steps(es[1..], code, visited)
    else if !code(visited + [es[0].cls]) then 1
    else 1 + Steps(es[1..], code, visited + [es[0].cls])
  }

  /** The classes visited by those steps. */
  ghost function Run(es: seq<Event>, code: Code, visited: seq<Class>): seq<Class> {
    if es == [] then visited
    else if es[0].Climb? then Run(es[1..], code, visited)
    else if !code(visited + [es[0].cls]) then visited + [es[0].cls]
    else Run(es[1..], code, visited + [es[0].cls])
  }

  lemma StepVisit(cls: Class, rem: seq<Event>, code: Code, visited: seq<Class>)
    ensures code(visited + [cls]) ==>
              && Steps([Visit(cls)] + rem, code, visited) == 1 + Steps(rem, code, visited + [cls])
              && Run([Visit(cls)] + rem, code, visited) == Run(rem, code, visited + [cls])
    ensures !code(visited + [cls]) ==>
              && Steps([Visit(cls)] + rem, code, visited) == 1
              && Run([Visit(cls)] + rem, code, visited) == visited + [cls]
  {
    assert ([Visit(cls)] + rem)[1..] == rem;
  }

  lemma StepClimb(rem: seq<Event>, code: Code, visited: seq<Class>)
    ensures Steps([Climb] + rem, code, visited) == 1 + Steps(rem, code, visited)
    ensures Run([Climb] + rem, code, visited) == Run(rem, code, visited)
  {
    assert ([Climb] + rem)[1..] == rem;
  }

  /** The steps visit what the recursive walk visits. */
  lemma {:induction false} RunIsRecursion(f: Forest, code: Code, visited: seq<Class>, tail: seq<Event>)
    ensures var r := Recurse(f, code, visited);
            Run(Events(f) + tail, code, visited) == if r.1 then Run(tail, code, r.0) else r.0
  {
    if f.Nil? {
      assert Events(f) + tail == tail;
    } else {
      var now := visited + [f.cls];
      var after := ClimbIf(f.subs) + (Events(f.rest) + tail);
      assert Events(f) + tail == [Visit(f.cls)] + (Events(f.subs) + after);
      StepVisit(f.cls, Events(f.subs) + after, code, visited);
      if code(now) {
        RunIsRecursion(f.subs, code, now, after);
        var below := Recurse(f.subs, code, now);
        if below.1 {
          StepClimbIf(f.subs, Events(f.rest) + tail, code, below.0);
          RunIsRecursion(f.rest, code, below.0, tail);
        }
      }
    }
  }

  lemma StepClimbIf(subs: Forest, rem: seq<Event>, code: Code, visited: seq<Class>)
    ensures Run(ClimbIf(subs) + rem, code, visited) == Run(rem, code, visited)
    ensures Steps(ClimbIf(subs) + rem, code, visited) == |ClimbIf(subs)| + Steps(rem, code, visited)
  {
    if subs.Nil? {
      assert ClimbIf(subs) + rem == rem;
    } else {
      StepClimb(rem, code, visited);
    }
  }

  /** A walk that is never stopped takes a step for every class and one more for every
      class with a subclass, and visits the classes in preorder. */
  lemma {:induction false} FullWalk(f: Forest, code: Code, visited: seq<Class>)
    requires forall v :: code(v)
    ensures |Events(f)| == |Preorder(f)| + Parents(f)
    ensures Recurse(f, code, visited) == (visited + Preorder(f), true)
  {
    if f.Nil? {
      assert visited + Preorder(f) == visited;
    } else {
      var now := visited + [f.cls];
      var below := now + Preorder(f.subs);
      FullWalk(f.subs, code, now);
      FullWalk(f.rest, code, below);
      assert Recurse(f, code, visited) == Recurse(f.rest, code, below);
      JoinPreorder(f, visited);
    }
  }

  lemma JoinPreorder(f: Forest, visited: seq<Class>)
    requires f.Cons?
    ensures (visited + [f.cls]) + Preorder(f.subs) + Preorder(f.rest) == visited + Preorder(f)
  {
  }

  lemma {:induction false} NeverStopped(es: seq<Event>, code: Code, visited: seq<Class>)
    requires forall v :: code(v)
    ensures Steps(es, code, visited) == |es|
  {
    if es != [] {
      NeverStopped(es[1..], code, if es[0].Climb? then visited else visited + [es[0].cls]);
    }
  }

  // ------------------------------------------------------------------ where the walk is

  /** The superclasses above the current class, each with its remaining siblings; the
      last one is where the walk started. */
  datatype Stack = Bottom | Above(cls: Class, rest: Forest, below: Stack)

  function StackNodes(s: Stack): set<Class> {
    if s.Bottom? then {} else {s.cls} + Nodes(s.rest) + StackNodes(s.below)
  }

  /** The class `cls` with the siblings `rest` after it is below the stack. */
  ghost predicate At(cls: Class, rest: Forest, s: Stack, top: Class)
    reads {cls} + Nodes(rest) + StackNodes(s)
    decreases s
  {
    if s.Bottom? then cls == top && rest.Nil?
    else
      && cls != top && cls.superclass == s.cls && Lacks(rest, top)
      && Linked(rest, cls.nextSiblingClass, s.cls)
      && At(s.cls, s.rest, s.below, top)
  }

  /** What remains to be done above the current siblings. */
  function Pending(s: Stack): seq<Event> {
    if s.Bottom? then [] else [Climb] + (Events(s.rest) + Pending(s.below))
  }

  // ------------------------------------------------------------------ the walk

  /** The number of decrements until a count reaches zero. */
  function Budget(count: nat): nat { if count == 0 then WORD32 else count }

  function Visits(es: seq<Event>): seq<Class> {
    if es == [] then []
    else if es[0].Climb? then Visits(es[1..])
    else [es[0].cls] + Visits(es[1..])
  }

  lemma {:induction false} VisitsOfOneMore(es: seq<Event>, e: Event)
    ensures Visits(es + [e]) == Visits(es) + if e.Climb? then [] else [e.cls]
  {
    if es == [] {
      assert es + [e] == [e];
    } else {
      assert (es + [e])[1..] == es[1..] + [e];
      VisitsOfOneMore(es[1..], e);
    }
  }

  /** Between two steps: what is done, what remains, and what is left of the count. */
  ghost predicate Here(all: seq<Event>, done: seq<Event>, rem: seq<Event>, count0: nat, count: nat,
                       code: Code, visited: seq<Class>) {
    && all == done + rem && visited == Visits(done) && count0 < WORD32 && count < WORD32
    && |done| < Budget(count0) && Budget(count) == Budget(count0) - |done|
    && Steps(all, code, []) == |done| + Steps(rem, code, visited) && Run(all, code, []) == Run(rem, code, visited)
  }

  /** The count reached zero: the callback saw the classes up to there. */
  ghost predicate RanOut(all: seq<Event>, count0: nat, code: Code, visited: seq<Class>) {
    Steps(all, code, []) >= Budget(count0) && visited == Visits(all[..Budget(count0) - 1])
  }

  ghost predicate Ended(all: seq<Event>, count0: nat, count: nat, code: Code, visited: seq<Class>) {
    && Steps(all, code, []) < Budget(count0) && count == Budget(count0) - Steps(all, code, [])
    && visited == Run(all, code, [])
  }

  /** An unsigned count wraps around below zero. */
  function Decrement(count: nat): nat { if count == 0 then WORD32 - 1 else count - 1 }

  lemma NotStarted(all: seq<Event>, count0: nat, code: Code)
    requires count0 < WORD32
    ensures Here(all, [], all, count0, count0, code, [])
  {
  }

  lemma CountRunsOut(all: seq<Event>, done: seq<Event>, e: Event, rem: seq<Event>, count0: nat, count: nat,
                     code: Code, visited: seq<Class>)
    requires Here(all, done, [e] + rem, count0, count, code, visited) && Decrement(count) == 0
    ensures RanOut(all, count0, code, visited)
  {
    assert all[..|done|] == done;
  }

  lemma AfterVisit(all: seq<Event>, done: seq<Event>, cls: Class, rem: seq<Event>, count0: nat, count: nat,
                   code: Code, visited: seq<Class>)
    requires Here(all, done, [Visit(cls)] + rem, count0, count, code, visited) && Decrement(count) != 0
    ensures code(visited + [cls]) ==>
              Here(all, done + [Visit(cls)], rem, count0, Decrement(count), code, visited + [cls])
    ensures !code(visited + [cls]) ==> Ended(all, count0, Decrement(count), code, visited + [cls])
  {
    StepVisit(cls, rem, code, visited);
    VisitsOfOneMore(done, Visit(cls));
    assert done + ([Visit(cls)] + rem) == (done + [Visit(cls)]) + rem;
  }

  lemma AfterClimb(all: seq<Event>, done: seq<Event>, rem: seq<Event>, count0: nat, count: nat,
                   code: Code, visited: seq<Class>)
    requires Here(all, done, [Climb] + rem, count0, count, code, visited) && Decrement(count) != 0
    ensures Here(all, done + [Climb], rem, count0, Decrement(count), code, visited)
  {
    StepClimb(rem, code, visited);
    VisitsOfOneMore(done, Climb);
    assert done + ([Climb] + rem) == (done + [Climb]) + rem;
  }

  /** The loop of foreach_realized_class_and_subclass_2: every turn calls the callback and
      moves on to the next class. */
  method WalkFrom(top: Class, count0: nat, code: Code, ghost subs: Forest)
    returns (count: nat, visited: seq<Class>, fatal: bool)
    requires count0 < WORD32
    requires Linked(subs, top.firstSubclass, top)
    ensures fatal ==> RanOut(Events(Cons(top, subs, Nil)), count0, code, visited)
    ensures !fatal ==> Ended(Events(Cons(top, subs, Nil)), count0, count, code, visited)
  {
    hide Steps, Run, Visits, Events, Pending;
    ghost var all := Events(Cons(top, subs, Nil));
    NotBelowItself(subs, top.firstSubclass, top, top, subs);
    ghost var done: seq<Event> := [];
    ghost var stack, kids, rest := Bottom, subs, Nil;
    var cls: Class := top;
    count, visited, fatal := count0, [], false;
    WholeWalk(top, subs);
    NotStarted(all, count0, code);
    while true
      invariant Here(all, done, [Visit(cls)] + Below(kids, rest, stack), count0, count, code, visited)
      invariant Linked(kids, cls.firstSubclass, cls) && Lacks(kids, top) && At(cls, rest, stack, top)
      decreases |all| - |done|
    {
      ghost var rem := Below(kids, rest, stack);
      ghost var before := visited;
      ghost var was := count;
      count := Decrement(count);
      if count == 0 {
        CountRunsOut(all, done, Visit(cls), rem, count0, was, code, visited);
        return count, visited, true;
      }
      visited := visited + [cls];
      AfterVisit(all, done, cls, rem, count0, was, code, before);
      if !code(visited) {
        return count, visited, false;
      }
      done := done + [Visit(cls)];
      if cls.firstSubclass != null {
        FirstBelow(kids, rest, stack);
        cls, kids, rest, stack := cls.firstSubclass, kids.subs, kids.rest, Above(cls, rest, stack);
      } else {
        NothingBelow(kids, rest, stack);
        cls, count, fatal, rest, stack, done :=
          ClimbBack(cls, top, count, rest, stack, all, done, count0, code, visited);
        if fatal {
          return;
        }
        if cls == top {
          return;
        }
        NextSibling(rest, stack);
        cls, kids, rest := cls.nextSiblingClass, rest.subs, rest.rest;
      }
    }
  }

  /** What remains after the visit of a class: its subclasses, its siblings, and what is
      above. */
  ghost function Below(kids: Forest, rest: Forest, s: Stack): seq<Event> {
    Events(kids) + (ClimbIf(kids) + (Events(rest) + Pending(s)))
  }

  lemma WholeWalk(top: Class, subs: Forest)
    ensures Events(Cons(top, subs, Nil)) == [Visit(top)] + Below(subs, Nil, Bottom)
  {
    assert Events(Nil) + Pending(Bottom) == [];
  }

  lemma NothingBelow(kids: Forest, rest: Forest, s: Stack)
    requires kids.Nil?
    ensures Below(kids, rest, s) == Events(rest) + Pending(s)
  {
  }

  lemma FirstBelow(kids: Forest, rest: Forest, s: Stack)
    requires kids.Cons?
    ensures forall cls :: Below(kids, rest, s) == [Visit(kids.cls)] + Below(kids.subs, kids.rest, Above(cls, rest, s))
  {
  }

  lemma NextSibling(rest: Forest, s: Stack)
    requires rest.Cons?
    ensures Events(rest) + Pending(s) == [Visit(rest.cls)] + Below(rest.subs, rest.rest, s)
  {
    Regroup([Visit(rest.cls)], Events(rest.subs), ClimbIf(rest.subs), Events(rest.rest), Pending(s));
  }

  lemma Regroup<T>(a: seq<T>, b: seq<T>, c: seq<T>, d: seq<T>, e: seq<T>)
    ensures (a + (b + (c + d))) + e == a + (b + (c + (d + e)))
  {
  }

  /** The climb to the next class that has a sibling, or to the top. */
  method ClimbBack(cls0: Class, top: Class, count1: nat, ghost rest0: Forest, ghost stack0: Stack,
                   ghost all: seq<Event>, ghost done0: seq<Event>, ghost count0: nat, ghost code: Code,
                   ghost visited: seq<Class>)
    returns (cls: Class, count: nat, fatal: bool, ghost rest: Forest, ghost stack: Stack, ghost done: seq<Event>)
    requires At(cls0, rest0, stack0, top) && done0 != []
    requires Here(all, done0, Events(rest0) + Pending(stack0), count0, count1, code, visited)
    ensures fatal ==> RanOut(all, count0, code, visited)
    ensures !fatal && cls == top ==> Ended(all, count0, count, code, visited)
    ensures !fatal && cls != top ==>
              && At(cls, rest, stack, top) && rest.Cons? && |done| >= |done0|
              && Here(all, done, Events(rest) + Pending(stack), count0, count, code, visited)
  {
    cls, count, rest, stack, done := cls0, count1, rest0, stack0, done0;
    while cls.nextSiblingClass == null && cls != top
      invariant At(cls, rest, stack, top) && done != [] && |done| >= |done0|
      invariant Here(all, done, Events(rest) + Pending(stack), count0, count, code, visited)
      decreases stack
    {
      ghost var rem := Events(stack.rest) + Pending(stack.below);
      assert Events(rest) + Pending(stack) == [Climb] + rem;
      cls := cls.superclass;
      ghost var was := count;
      count := Decrement(count);
      if count == 0 {
        CountRunsOut(all, done, Climb, rem, count0, was, code, visited);
        fatal := true;
        return;
      }
      AfterClimb(all, done, rem, count0, was, code, visited);
      done, rest, stack := done + [Climb], stack.rest, stack.below;
    }
    fatal := false;
    if cls == top {
      assert Events(rest) + Pending(stack) == [];
    }
  }

  // ------------------------------------------------------------------ what the walk means

  lemma {:induction false} VisitsOfConcat(a: seq<Event>, b: seq<Event>)
    ensures Visits(a + b) == Visits(a) + Visits(b)
  {
    if a == [] {
      assert a + b == b;
    } else {
      assert (a + b)[1..] == a[1..] + b;
      VisitsOfConcat(a[1..], b);
    }
  }

  lemma {:induction false} VisitsOfEvents(f: Forest)
    ensures Visits(Events(f)) == Preorder(f)
  {
    if f.Cons? {
      var tail := ClimbIf(f.subs) + Events(f.rest);
      assert Visits(tail) == Preorder(f.rest) by {
        VisitsOfEvents(f.rest);
        VisitsOfConcat(ClimbIf(f.subs), Events(f.rest));
      }
      assert Visits(Events(f.subs) + tail) == Preorder(f.subs) + Preorder(f.rest) by {
        VisitsOfEvents(f.subs);
        VisitsOfConcat(Events(f.subs), tail);
      }
      assert ([Visit(f.cls)] + (Events(f.subs) + tail))[1..] == Events(f.subs) + tail;
    }
  }

  /** A walk that ended visited exactly what the recursive walk visits, whatever the
      callback decides on the way. */
  lemma WalkIsRecursion(top: Class, subs: Forest, count0: nat, count: nat, code: Code, visited: seq<Class>)
    requires Ended(Events(Cons(top, subs, Nil)), count0, count, code, visited)
    ensures visited == Recurse(Cons(top, subs, Nil), code, []).0
  {
    var all := Events(Cons(top, subs, Nil));
    RunIsRecursion(Cons(top, subs, Nil), code, [], []);
    assert all + [] == all;
  }

  /** A walk that ran out of count saw a beginning of the preorder. */
  lemma RanOutEarly(f: Forest, count0: nat, code: Code, visited: seq<Class>)
    requires RanOut(Events(f), count0, code, visited)
    ensures visited <= Preorder(f)
  {
    VisitsOfEvents(f);
    VisitsOfPrefix(Events(f), Budget(count0) - 1);
  }

  lemma VisitsOfPrefix(es: seq<Event>, n: nat)
    requires n <= |es|
    ensures Visits(es[..n]) <= Visits(es)
  {
    VisitsOfConcat(es[..n], es[n..]);
    assert es[..n] + es[n..] == es;
  }

  lemma {:induction false} RunIsPrefix(es: seq<Event>, code: Code, visited: seq<Class>)
    ensures Run(es, code, visited) <= visited + Visits(es)
  {
    if es == [] {
    } else if es[0].Climb? {
      RunIsPrefix(es[1..], code, visited);
    } else {
      RunIsPrefix(es[1..], code, visited + [es[0].cls]);
      Associative(visited, [es[0].cls], Visits(es[1..]));
    }
  }

  lemma Associative<T>(a: seq<T>, b: seq<T>, c: seq<T>)
    ensures (a + b) + c == a + (b + c) && a + b <= a + (b + c)
  {
  }

  /** However the walk ends, and whatever the callback decides: it was called with a
      beginning of the preorder, so with no class twice. */
  lemma CalledOnce(top: Class, subs: Forest, count0: nat, count: nat, code: Code, visited: seq<Class>)
    requires Distinct(Preorder(Cons(top, subs, Nil)))
    requires var all := Events(Cons(top, subs, Nil));
             RanOut(all, count0, code, visited) || Ended(all, count0, count, code, visited)
    ensures visited <= Preorder(Cons(top, subs, Nil)) && Distinct(visited)
  {
    var tree := Cons(top, subs, Nil);
    if RanOut(Events(tree), count0, code, visited) {
      RanOutEarly(tree, count0, code, visited);
    } else {
      VisitsOfEvents(tree);
      RunIsPrefix(Events(tree), code, []);
    }
  }

  /** foreach_realized_class_and_subclass_2: below `top`, calls `code` as the recursive
      walk does, unless the count runs out first, and never twice for one class. */
  method ForeachClassAndSubclass(top: Class, count0: nat, code: Code, ghost subs: Forest)
    returns (count: nat, visited: seq<Class>, fatal: bool)
    requires count0 < WORD32
    requires Linked(subs, top.firstSubclass, top)
    ensures fatal ==> RanOut(Events(Cons(top, subs, Nil)), count0, code, visited)
    ensures !fatal ==> Ended(Events(Cons(top, subs, Nil)), count0, count, code, visited)
    ensures visited <= Preorder(Cons(top, subs, Nil)) && Distinct(visited)
  {
    TreeOnce(top, subs);
    count, visited, fatal := WalkFrom(top, count0, code, subs);
    CalledOnce(top, subs, count0, count, code, visited);
  }

  /** A callback that never stops the walk is called once for every class, in preorder,
      at the cost of one count for every class and one for every class with a subclass.
      So the fatal exit is taken exactly when the count is not above that. */
  lemma FullWalkCost(f: Forest, count0: nat, count: nat, code: Code, visited: seq<Class>)
    requires forall v :: code(v)
    ensures RanOut(Events(f), count0, code, visited) ==> |Preorder(f)| + Parents(f) >= Budget(count0)
    ensures Ended(Events(f), count0, count, code, visited) ==>
              visited == Preorder(f) && count == Budget(count0) - (|Preorder(f)| + Parents(f)) > 0
  {
    FullWalk(f, code, []);
    NeverStopped(Events(f), code, []);
    RunIsRecursion(f, code, [], []);
    assert Events(f) + [] == Events(f);
  }

  // ------------------------------------------------------------------ the walk over all roots

  lemma {:induction false} NodesAllocated(f: Forest)
    ensures forall c :: c in Nodes(f) ==> allocated(c)
  {
    if f.Cons? {
      NodesAllocated(f.subs);
      NodesAllocated(f.rest);
    }
  }

  /** foreach_realized_class_and_subclass: the walk with a callback that never stops it. */
  method ForeachClassBelow(top: Class, count0: nat, ghost subs: Forest)
    returns (count: nat, visited: seq<Class>, fatal: bool)
    requires count0 < WORD32 && Linked(subs, top.firstSubclass, top)
    ensures fatal <==> |Preorder(Cons(top, subs, Nil))| + Parents(Cons(top, subs, Nil)) >= Budget(count0)
    ensures !fatal ==>
              && visited == Preorder(Cons(top, subs, Nil))
              && count == Budget(count0) - (|Preorder(Cons(top, subs, Nil))| + Parents(Cons(top, subs, Nil)))
    ensures visited <= Preorder(Cons(top, subs, Nil)) && Distinct(visited)
  {
    var goOn: Code := v => true;
    count, visited, fatal := ForeachClassAndSubclass(top, count0, goOn, subs);
    FullWalkCost(Cons(top, subs, Nil), count0, count, goOn, visited);
  }

  lemma TreeByTree(f: Forest)
    requires f.Cons?
    ensures Preorder(f) == Preorder(Cons(f.cls, f.subs, Nil)) + Preorder(f.rest)
  {
    assert Preorder(Cons(f.cls, f.subs, Nil)) == [f.cls] + Preorder(f.subs);
  }

  /** foreach_realized_class_and_metaclass: every root's tree in turn, on one shared
      count. */
  method ForeachClassAndMetaclass(first: Class?, count0: nat, ghost f: Forest)
    returns (count: nat, visited: seq<Class>, fatal: bool)
    requires count0 < WORD32 && Linked(f, first, null)
    ensures fatal <==> |Preorder(f)| + Parents(f) >= Budget(count0)
    ensures !fatal ==> visited == Preorder(f) && Budget(count) == Budget(count0) - (|Preorder(f)| + Parents(f))
    ensures visited <= Preorder(f) && Distinct(visited)
  {
    EachClassOnce(f, first, null);
    hide Distinct;
    ghost var left := f;
    count, visited, fatal := count0, [], false;
    var top: Class? := first;
    assert [] + Preorder(f) == Preorder(f);
    while top != null
      invariant Linked(left, top, null) && count < WORD32 && !fatal
      invariant visited + Preorder(left) == Preorder(f)
      invariant Budget(count) - (|Preorder(left)| + Parents(left)) == Budget(count0) - (|Preorder(f)| + Parents(f))
      decreases left
    {
      ghost var tree := Cons(top, left.subs, Nil);
      var seen;
      NodesAllocated(left);
      count, seen, fatal := ForeachClassBelow(top, count, left.subs);
      assert Linked(left, top, null);
      TreeByTree(left);
      ghost var before := visited;
      visited := visited + seen;
      if fatal {
        assert before + Preorder(left) == (before + Preorder(tree)) + Preorder(left.rest);
        PrefixOfDistinct(visited, Preorder(f));
        return;
      }
      assert before + Preorder(left) == visited + Preorder(left.rest);
      top, left := top.nextSiblingClass, left.rest;
    }
    assert visited + [] == visited;
  }

  lemma PrefixOfDistinct<T>(s: seq<T>, whole: seq<T>)
    requires Distinct(whole) && s <= whole
    ensures Distinct(s)
  {
  }

  /** The last class of a nonempty forest has no subclass. */
  lemma {:induction false} FewerParents(f: Forest)
    requires f.Cons?
    ensures Parents(f) < |Preorder(f)|
  {
    if f.subs.Cons? {
      FewerParents(f.subs);
    }
    if f.rest.Cons? {
      FewerParents(f.rest);
    }
  }

  /** unreasonableClassCount is enough for any forest of at most eight classes for each
      class that is named. */
  lemma UnreasonableCountIsEnough(f: Forest, base: nat)
    requires (base + 1) * 16 < WORD32 && |Preorder(f)| <= (base + 1) * 8
    ensures |Preorder(f)| + Parents(f) < Budget((base + 1) * 16)
  {
    if f.Cons? {
      FewerParents(f);
    }
  }
}
