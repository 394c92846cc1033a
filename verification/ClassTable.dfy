/** The precomputed class table: a string table whose every slot also leads to the
    classes of that name. */
module ClassTable {
  import opened Bits
  import opened KeyBuckets
  import opened HashHeader
  import opened Scramble
  import opened StringTable
  import opened Wrappers
  import opened Pigeonholes
  import MakePerfect

  /** A class of the shared cache: its name, its address and its header's address. */
  datatype ClassEntry = ClassEntry(name: Str, cls: nat, hi: nat)

  /** A slot: the offsets of a class and its header or, for a name with duplicates,
      twice their number plus one and the index of the first. */
  datatype ClassHeader = ClassHeader(clsOffset: int, hiOffset: int)

  predicate IsDuplicate(c: ClassHeader) { c.clsOffset % 2 == 1 }

  function DuplicateCount(c: ClassHeader): nat { (c.clsOffset / 2) % WORD32 }

  function DuplicateIndex(c: ClassHeader): nat { c.hiOffset % WORD32 }

  /** An unsigned number stored as a signed 32-bit word. */
  function Int32(n: nat): int {
    var w := n % WORD32;
    if w < WORD32 / 2 then w else w - WORD32
  }

  /** What a reader gets: a number of classes and, if it is one, perhaps the class. */
  datatype Answer = Answer(count: nat, found: Option<ClassHeader>)

  // ------------------------------------------------------------------ the classes of a name

  function OffsetsOf(c: ClassEntry, base: nat): ClassHeader {
    ClassHeader(Offset(c.cls, base), Offset(c.hi, base))
  }

  /** The offsets of the first n classes that have the name, in their order. */
  function ClassesNamed(classes: seq<ClassEntry>, n: nat, name: Str, base: nat): seq<ClassHeader>
    requires n <= |classes|
  {
    if n == 0 then []
    else if classes[n - 1].name == name then
      ClassesNamed(classes, n - 1, name, base) + [OffsetsOf(classes[n - 1], base)]
    else ClassesNamed(classes, n - 1, name, base)
  }

  lemma {:induction false} ClassesNamedBound(classes: seq<ClassEntry>, n: nat, name: Str, base: nat)
    requires n <= |classes|
    ensures |ClassesNamed(classes, n, name, base)| <= n
    ensures |ClassesNamed(classes, n, name, base)| > 0 <==> exists j :: 0 <= j < n && classes[j].name == name
  {
    if n > 0 {
      ClassesNamedBound(classes, n - 1, name, base);
    }
  }

  lemma {:induction false} ClassesNamedGrows(classes: seq<ClassEntry>, m: nat, n: nat, name: Str, base: nat)
    requires m <= n <= |classes|
    ensures ClassesNamed(classes, m, name, base) <= ClassesNamed(classes, n, name, base)
  {
    if m < n {
      ClassesNamedGrows(classes, m, n - 1, name, base);
    }
  }

  /** A class that is met again is not the only one of its name. */
  lemma SecondMeeting(classes: seq<ClassEntry>, j: nat, c: nat, base: nat)
    requires j < c < |classes| && classes[j].name == classes[c].name
    ensures |ClassesNamed(classes, |classes|, classes[c].name, base)| >= 2
  {
    var name := classes[c].name;
    ClassesNamedBound(classes, c, name, base);
    ClassesNamedGrows(classes, c + 1, |classes|, name, base);
  }

  lemma OnlyMeeting(classes: seq<ClassEntry>, c: nat, base: nat)
    requires c < |classes| && |ClassesNamed(classes, |classes|, classes[c].name, base)| == 1
    ensures ClassesNamed(classes, |classes|, classes[c].name, base) == [OffsetsOf(classes[c], base)]
  {
    var name := classes[c].name;
    ClassesNamedGrows(classes, c + 1, |classes|, name, base);
  }

  // ------------------------------------------------------------------ where the offsets lead

  /** The positions of the classes that have the name, in ascending order. */
  ghost function Positions(classes: seq<ClassEntry>, n: nat, name: Str): (js: seq<nat>)
    requires n <= |classes|
    ensures forall i :: 0 <= i < |js| ==> js[i] < n && classes[js[i]].name == name
    ensures forall i, k :: 0 <= i < k < |js| ==> js[i] < js[k]
    ensures forall c :: 0 <= c < n && classes[c].name == name ==> c in js
  {
    if n == 0 then []
    else if classes[n - 1].name == name then Positions(classes, n - 1, name) + [n - 1]
    else Positions(classes, n - 1, name)
  }

  /** The addresses of the table, the classes and their headers are 64-bit words. */
  ghost predicate Addresses(classes: seq<ClassEntry>, base: nat) {
    base < WORD64 && forall c :: 0 <= c < |classes| ==> classes[c].cls < WORD64 && classes[c].hi < WORD64
  }

  /** Added to the table's own address, the offsets give the class and its header. */
  ghost predicate LeadsBack(x: ClassHeader, c: ClassEntry, base: nat) {
    (base + x.clsOffset) % WORD64 == c.cls && (base + x.hiOffset) % WORD64 == c.hi
  }

  /** So do these, for the classes at these positions. */
  ghost predicate AllLeadBack(xs: seq<ClassHeader>, classes: seq<ClassEntry>, js: seq<nat>, base: nat) {
    && |xs| == |js|
    && forall i :: 0 <= i < |js| ==> js[i] < |classes| && LeadsBack(xs[i], classes[js[i]], base)
  }

  lemma OffsetsLeadBack(c: ClassEntry, base: nat)
    requires base < WORD64 && c.cls < WORD64 && c.hi < WORD64
    ensures LeadsBack(OffsetsOf(c, base), c, base)
  {
    OffsetLeadsBack(c.cls, base);
    OffsetLeadsBack(c.hi, base);
  }

  lemma {:induction false} NamedLeadBack(classes: seq<ClassEntry>, n: nat, name: Str, base: nat)
    requires n <= |classes| && Addresses(classes, base)
    ensures AllLeadBack(ClassesNamed(classes, n, name, base), classes, Positions(classes, n, name), base)
  {
    hide LeadsBack, OffsetsOf, Offset;
    if n > 0 {
      NamedLeadBack(classes, n - 1, name, base);
      OffsetsLeadBack(classes[n - 1], base);
    }
  }

  /** An offset is even exactly when the two addresses agree in their lowest bit. */
  lemma OffsetParity(offset: int, base: nat, address: nat)
    requires (base + offset) % WORD64 == address
    ensures offset % 2 == 0 <==> address % 2 == base % 2
  {
    SameParity(base + offset, address, 0x8000_0000_0000_0000 * ((base + offset) / WORD64));
    SameParity(base + offset, base, offset / 2);
  }

  lemma SameParity(a: int, b: int, half: int)
    ensures a == 2 * half + b ==> a % 2 == b % 2
    ensures a == 2 * half + 1 + b ==> a % 2 != b % 2
  {
  }

  // ------------------------------------------------------------------ how many are duplicates

  ghost predicate Met(classes: seq<ClassEntry>, n: nat, name: Str)
    requires n <= |classes|
  {
    exists j :: 0 <= j < n && classes[j].name == name
  }

  /** The class shares its name with another. */
  ghost predicate SharesName(classes: seq<ClassEntry>, c: nat)
    requires c < |classes|
  {
    exists d :: 0 <= d < |classes| && d != c && classes[d].name == classes[c].name
  }

  ghost function Shared(classes: seq<ClassEntry>): set<nat> {
    set c: nat | c < |classes| && SharesName(classes, c)
  }

  /** Those whose name is among the first n. */
  ghost function SharedMet(classes: seq<ClassEntry>, n: nat): set<nat>
    requires n <= |classes|
  {
    set c: nat | c < |classes| && SharesName(classes, c) && Met(classes, n, classes[c].name)
  }

  /** How many duplicates a turn adds. */
  ghost function Added(classes: seq<ClassEntry>, c: nat, base: nat): nat
    requires c < |classes|
  {
    var count := |ClassesNamed(classes, |classes|, classes[c].name, base)|;
    if ClassesNamed(classes, c, classes[c].name, base) == [] && count >= 2 then count else 0
  }

  lemma {:induction false} PositionsCount(classes: seq<ClassEntry>, n: nat, name: Str, base: nat)
    requires n <= |classes|
    ensures |Positions(classes, n, name)| == |ClassesNamed(classes, n, name, base)|
  {
    if n > 0 {
      PositionsCount(classes, n - 1, name, base);
    }
  }

  lemma SharesIff(classes: seq<ClassEntry>, c: nat)
    requires c < |classes|
    ensures var js := Positions(classes, |classes|, classes[c].name);
            c in js && (SharesName(classes, c) <==> |js| >= 2)
  {
    var js := Positions(classes, |classes|, classes[c].name);
    if |js| >= 2 {
      assert js[0] < js[1];
      assert js[if js[0] == c then 1 else 0] != c;
    } else {
      forall d | 0 <= d < |classes| && classes[d].name == classes[c].name
        ensures d == c
      {
        assert d in js && c in js;
      }
    }
  }

  lemma SharedMetNext(classes: seq<ClassEntry>, c: nat, base: nat)
    requires c < |classes|
    ensures |SharedMet(classes, c + 1)| == |SharedMet(classes, c)| + Added(classes, c, base)
  {
    var name := classes[c].name;
    var js := Positions(classes, |classes|, name);
    PositionsCount(classes, |classes|, name, base);
    ClassesNamedBound(classes, c, name, base);
    SharesIff(classes, c);
    if Met(classes, c, name) || |js| < 2 {
      SharedMetSame(classes, c);
    } else {
      SharedMetMore(classes, c);
      ElementsSize(js);
    }
  }

  lemma MetNextIff(classes: seq<ClassEntry>, c: nat, name: Str)
    requires c < |classes|
    ensures Met(classes, c + 1, name) <==> Met(classes, c, name) || name == classes[c].name
  {
  }

  lemma SharedMetSame(classes: seq<ClassEntry>, c: nat)
    requires c < |classes| && (Met(classes, c, classes[c].name) || !SharesName(classes, c))
    ensures SharedMet(classes, c + 1) == SharedMet(classes, c)
  {
    forall d: nat | d < |classes|
      ensures d in SharedMet(classes, c + 1) <==> d in SharedMet(classes, c)
    {
      MetNextIff(classes, c, classes[d].name);
      if classes[d].name == classes[c].name {
        SharesIff(classes, d);
        SharesIff(classes, c);
      }
    }
  }

  lemma SharedMetMore(classes: seq<ClassEntry>, c: nat)
    requires c < |classes| && !Met(classes, c, classes[c].name) && SharesName(classes, c)
    ensures var more := Elements(Positions(classes, |classes|, classes[c].name));
            SharedMet(classes, c + 1) == SharedMet(classes, c) + more && SharedMet(classes, c) !! more
  {
    hide Met, SharesName;
    forall d: nat | d < |classes|
      ensures d in SharedMet(classes, c + 1) <==> d in SharedMet(classes, c) || classes[d].name == classes[c].name
    {
      MetNextIff(classes, c, classes[d].name);
      if classes[d].name == classes[c].name {
        SharesIff(classes, d);
        SharesIff(classes, c);
      }
    }
  }

  lemma SharedMetSizes(classes: seq<ClassEntry>, n: nat)
    requires n <= |classes|
    ensures |SharedMet(classes, n)| <= |Shared(classes)|
    ensures n == |classes| ==> SharedMet(classes, n) == Shared(classes)
    ensures n == 0 ==> |SharedMet(classes, n)| == 0
  {
    SubsetSize(SharedMet(classes, n), Shared(classes));
  }

  // ------------------------------------------------------------------ what a slot must hold

  /** The slot leads to exactly these classes. */
  ghost predicate LeadsTo(slot: ClassHeader, dups: seq<ClassHeader>, all: seq<ClassHeader>) {
    if |all| == 0 then slot == ClassHeader(0, 0)
    else if |all| == 1 then slot == all[0]
    else
      && slot.clsOffset == 2 * |all| + 1
      && 0 <= slot.hiOffset && slot.hiOffset + |all| <= |dups|
      && dups[slot.hiOffset..slot.hiOffset + |all|] == all
  }

  /** More duplicates at the end do not disturb a slot. */
  lemma StillLeadsTo(slot: ClassHeader, dups: seq<ClassHeader>, more: seq<ClassHeader>, all: seq<ClassHeader>)
    requires LeadsTo(slot, dups, all)
    ensures LeadsTo(slot, dups + more, all)
  {
    if |all| >= 2 {
      assert (dups + more)[slot.hiOffset..slot.hiOffset + |all|] == dups[slot.hiOffset..slot.hiOffset + |all|];
    }
  }

  /** Two slots with m and n duplicates do not share any. */
  ghost predicate Apart(slot: ClassHeader, m: nat, slot': ClassHeader, n: nat) {
    m >= 2 && n >= 2 ==> slot.hiOffset + m <= slot'.hiOffset || slot'.hiOffset + n <= slot.hiOffset
  }

  /** The classes that the first c turns of the writer have dealt with: all of a name's
      classes as soon as the first of them is met. */
  ghost function Handled(classes: seq<ClassEntry>, c: nat, name: Str, base: nat): seq<ClassHeader>
    requires c <= |classes|
  {
    if ClassesNamed(classes, c, name, base) == [] then [] else ClassesNamed(classes, |classes|, name, base)
  }

  lemma HandledAtEnd(classes: seq<ClassEntry>, name: Str, base: nat)
    ensures Handled(classes, |classes|, name, base) == ClassesNamed(classes, |classes|, name, base)
  {
  }

  lemma HandledOthers(classes: seq<ClassEntry>, c: nat, name: Str, base: nat)
    requires c < |classes| && classes[c].name != name
    ensures Handled(classes, c + 1, name, base) == Handled(classes, c, name, base)
  {
  }

  /** Every string's slot leads to the handled classes of that name, and no two names
      share duplicates. */
  ghost predicate Indexed(h: PerfectHash, slots: seq<ClassHeader>, dups: seq<ClassHeader>, strings: seq<Entry>,
                          classes: seq<ClassEntry>, c: nat, base: nat, lookup: Lookup)
    requires c <= |classes| && WellFormed(h)
  {
    && (forall i {:trigger SlotLeads(h, slots, dups, strings[i].name, classes, c, base, lookup)} ::
          0 <= i < |strings| ==> SlotLeads(h, slots, dups, strings[i].name, classes, c, base, lookup))
    && (forall i, j {:trigger SlotsApart(h, slots, strings[i].name, strings[j].name, classes, c, base, lookup)} ::
          0 <= i < |strings| && 0 <= j < |strings| && strings[i].name != strings[j].name ==>
          SlotsApart(h, slots, strings[i].name, strings[j].name, classes, c, base, lookup))
  }

  ghost predicate SlotLeads(h: PerfectHash, slots: seq<ClassHeader>, dups: seq<ClassHeader>, name: Str,
                            classes: seq<ClassEntry>, c: nat, base: nat, lookup: Lookup)
    requires c <= |classes| && WellFormed(h)
  {
    Hash(h, lookup, name) < |slots| && LeadsTo(slots[Hash(h, lookup, name)], dups, Handled(classes, c, name, base))
  }

  ghost predicate SlotsApart(h: PerfectHash, slots: seq<ClassHeader>, name: Str, name': Str,
                             classes: seq<ClassEntry>, c: nat, base: nat, lookup: Lookup)
    requires c <= |classes| && WellFormed(h)
  {
    && Hash(h, lookup, name) < |slots| && Hash(h, lookup, name') < |slots|
    && Apart(slots[Hash(h, lookup, name)], |Handled(classes, c, name, base)|,
             slots[Hash(h, lookup, name')], |Handled(classes, c, name', base)|)
  }

  /** Before the first turn all slots are clear. */
  lemma IndexedAtStart(h: PerfectHash, slots: seq<ClassHeader>, dups: seq<ClassHeader>, strings: seq<Entry>,
                       classes: seq<ClassEntry>, base: nat, lookup: Lookup)
    requires WellFormed(h) && |slots| == h.capacity
    requires forall s :: 0 <= s < |slots| ==> slots[s] == ClassHeader(0, 0)
    ensures Indexed(h, slots, dups, strings, classes, 0, base, lookup)
  {
    forall i | 0 <= i < |strings|
      ensures Hash(h, lookup, strings[i].name) < |slots|
      ensures SlotLeads(h, slots, dups, strings[i].name, classes, 0, base, lookup)
    {
      HashInBounds(h, lookup, strings[i].name);
    }
  }

  /** A turn that handles a new name. */
  lemma TurnWrites(h: PerfectHash, slots: seq<ClassHeader>, dups: seq<ClassHeader>, slot: ClassHeader,
                   more: seq<ClassHeader>, strings: seq<Entry>, k: nat,
                   classes: seq<ClassEntry>, c: nat, base: nat, lookup: Lookup)
    requires PerfectFor(h, lookup, Names(strings))
    requires c < |classes| && Indexed(h, slots, dups, strings, classes, c, base, lookup)
    requires k < |strings| && strings[k].name == classes[c].name && Hash(h, lookup, classes[c].name) < |slots|
    requires LeadsTo(slot, dups + more, ClassesNamed(classes, |classes|, classes[c].name, base))
    requires |ClassesNamed(classes, |classes|, classes[c].name, base)| >= 2 ==> slot.hiOffset == |dups|
    ensures Indexed(h, slots[Hash(h, lookup, classes[c].name) := slot], dups + more, strings, classes, c + 1, base,
                    lookup)
  {
    var name := classes[c].name;
    var slots' := slots[Hash(h, lookup, name) := slot];
    assert Handled(classes, c + 1, name, base) == ClassesNamed(classes, |classes|, name, base);
    forall i | 0 <= i < |strings|
      ensures SlotLeads(h, slots', dups + more, strings[i].name, classes, c + 1, base, lookup)
    {
      assert SlotLeads(h, slots, dups, strings[i].name, classes, c, base, lookup);
      if strings[i].name != name {
        SlotsDiffer(h, strings, i, k, lookup);
        HandledOthers(classes, c, strings[i].name, base);
        StillLeadsTo(slots[Hash(h, lookup, strings[i].name)], dups, more, Handled(classes, c, strings[i].name, base));
      }
    }
    forall i, j | 0 <= i < |strings| && 0 <= j < |strings| && strings[i].name != strings[j].name
      ensures SlotsApart(h, slots', strings[i].name, strings[j].name, classes, c + 1, base, lookup)
    {
      TurnKeepsApart(h, slots, dups, slot, strings, i, j, k, classes, c, base, lookup);
    }
  }

  lemma TurnKeepsApart(h: PerfectHash, slots: seq<ClassHeader>, dups: seq<ClassHeader>, slot: ClassHeader,
                       strings: seq<Entry>, i: nat, j: nat, k: nat,
                       classes: seq<ClassEntry>, c: nat, base: nat, lookup: Lookup)
    requires PerfectFor(h, lookup, Names(strings))
    requires c < |classes| && Indexed(h, slots, dups, strings, classes, c, base, lookup)
    requires k < |strings| && strings[k].name == classes[c].name && Hash(h, lookup, classes[c].name) < |slots|
    requires |ClassesNamed(classes, |classes|, classes[c].name, base)| >= 2 ==> slot.hiOffset == |dups|
    requires i < |strings| && j < |strings| && strings[i].name != strings[j].name
    ensures SlotsApart(h, slots[Hash(h, lookup, classes[c].name) := slot], strings[i].name, strings[j].name,
                       classes, c + 1, base, lookup)
  {
    assert SlotLeads(h, slots, dups, strings[i].name, classes, c, base, lookup);
    assert SlotLeads(h, slots, dups, strings[j].name, classes, c, base, lookup);
    assert SlotsApart(h, slots, strings[i].name, strings[j].name, classes, c, base, lookup);
    if strings[i].name != classes[c].name {
      SlotsDiffer(h, strings, i, k, lookup);
      HandledOthers(classes, c, strings[i].name, base);
    }
    if strings[j].name != classes[c].name {
      SlotsDiffer(h, strings, j, k, lookup);
      HandledOthers(classes, c, strings[j].name, base);
    }
  }

  /** A turn that meets a name again. */
  lemma TurnSkips(h: PerfectHash, slots: seq<ClassHeader>, dups: seq<ClassHeader>, strings: seq<Entry>,
                  classes: seq<ClassEntry>, c: nat, base: nat, lookup: Lookup)
    requires PerfectFor(h, lookup, Names(strings))
    requires c < |classes| && Indexed(h, slots, dups, strings, classes, c, base, lookup)
    requires ClassesNamed(classes, c, classes[c].name, base) != []
    ensures Indexed(h, slots, dups, strings, classes, c + 1, base, lookup)
  {
    forall name: Str
      ensures Handled(classes, c + 1, name, base) == Handled(classes, c, name, base)
    {
      if name != classes[c].name {
        HandledOthers(classes, c, name, base);
      }
    }
    assert forall i :: 0 <= i < |strings| ==>
        SlotLeads(h, slots, dups, strings[i].name, classes, c, base, lookup)
        == SlotLeads(h, slots, dups, strings[i].name, classes, c + 1, base, lookup);
    assert forall i, j :: 0 <= i < |strings| && 0 <= j < |strings| ==>
        SlotsApart(h, slots, strings[i].name, strings[j].name, classes, c, base, lookup)
        == SlotsApart(h, slots, strings[i].name, strings[j].name, classes, c + 1, base, lookup);
  }

  /** A slot is clear exactly as long as its name has not been met. */
  lemma ClearMeansNew(slot: ClassHeader, dups: seq<ClassHeader>, classes: seq<ClassEntry>, c: nat, base: nat)
    requires c < |classes| && LeadsTo(slot, dups, Handled(classes, c, classes[c].name, base))
    ensures slot.clsOffset == 0 <==> ClassesNamed(classes, c, classes[c].name, base) == []
  {
    var name := classes[c].name;
    if ClassesNamed(classes, c, name, base) != [] {
      ClassesNamedBound(classes, c, name, base);
      var j :| 0 <= j < c && classes[j].name == name;
      SecondMeeting(classes, j, c, base);
    }
  }

  // ------------------------------------------------------------------ what a reader makes of a slot

  /** The slot names no duplicates, or duplicates that are there. */
  ghost predicate Readable(slot: ClassHeader, dups: seq<ClassHeader>) {
    IsDuplicate(slot) ==> DuplicateIndex(slot) + DuplicateCount(slot) <= |dups|
  }

  function AnswerOf(slot: ClassHeader): Answer {
    if !IsDuplicate(slot) then Answer(1, Some(slot)) else Answer(DuplicateCount(slot), None)
  }

  /** The classes that getClassesAndHeaders lists. */
  function Listed(slot: ClassHeader, dups: seq<ClassHeader>): seq<ClassHeader>
    requires Readable(slot, dups)
  {
    if !IsDuplicate(slot) then [slot]
    else dups[DuplicateIndex(slot)..DuplicateIndex(slot) + DuplicateCount(slot)]
  }

  /** The right answer: how many classes there are and, if just one, which. */
  function RightAnswer(all: seq<ClassHeader>): Answer {
    Answer(|all|, if |all| == 1 then Some(all[0]) else None)
  }

  /** A slot that leads to some classes is read back right exactly when there are
      several, or one at an even offset. Several are then listed exactly. */
  lemma SlotReadsBack(slot: ClassHeader, dups: seq<ClassHeader>, all: seq<ClassHeader>)
    requires LeadsTo(slot, dups, all) && |all| < 0x4000_0000 && |dups| < 0x8000_0000
    ensures AnswerOf(slot) == RightAnswer(all) <==> |all| >= 2 || (|all| == 1 && all[0].clsOffset % 2 == 0)
    ensures AnswerOf(slot) == RightAnswer(all) ==> Readable(slot, dups) && Listed(slot, dups) == all
    ensures |all| == 0 ==> AnswerOf(slot) == Answer(1, Some(ClassHeader(0, 0)))
  {
    if |all| >= 2 {
      assert (2 * |all| + 1) / 2 == |all|;
    }
  }

  /** A single class at an odd offset is taken for duplicates: at offset 7, for three. */
  lemma OddOffsetMisread(hi: int)
    ensures LeadsTo(ClassHeader(7, hi), [], [ClassHeader(7, hi)])
    ensures AnswerOf(ClassHeader(7, hi)) == Answer(3, None) != RightAnswer([ClassHeader(7, hi)])
  {
  }

  /** The duplicates that a reader finds through the two slots are disjoint ranges. */
  ghost predicate RangesApart(s: ClassHeader, t: ClassHeader, dups: seq<ClassHeader>) {
    && IsDuplicate(s) && IsDuplicate(t)
    && DuplicateIndex(s) + DuplicateCount(s) <= |dups| && DuplicateIndex(t) + DuplicateCount(t) <= |dups|
    && (DuplicateIndex(s) + DuplicateCount(s) <= DuplicateIndex(t)
        || DuplicateIndex(t) + DuplicateCount(t) <= DuplicateIndex(s))
  }

  lemma SlotsToRanges(s: ClassHeader, t: ClassHeader, dups: seq<ClassHeader>, a: seq<ClassHeader>, b: seq<ClassHeader>)
    requires LeadsTo(s, dups, a) && LeadsTo(t, dups, b) && Apart(s, |a|, t, |b|) && |a| >= 2 && |b| >= 2
    requires |dups| < 0x4000_0000
    ensures RangesApart(s, t, dups)
  {
    RangeOfSlot(s, dups, a);
    RangeOfSlot(t, dups, b);
  }

  lemma RangeOfSlot(s: ClassHeader, dups: seq<ClassHeader>, a: seq<ClassHeader>)
    requires LeadsTo(s, dups, a) && |a| >= 2 && |dups| < 0x4000_0000
    ensures IsDuplicate(s) && DuplicateCount(s) == |a| && DuplicateIndex(s) == s.hiOffset
    ensures DuplicateIndex(s) + DuplicateCount(s) <= |dups|
  {
    assert (2 * |a| + 1) / 2 == |a|;
  }

  /** A reader of one class's slot gets that class exactly when the offset is even. */
  lemma SingleLeadsBack(all: seq<ClassHeader>, classes: seq<ClassEntry>, js: seq<nat>, base: nat, answer: Answer)
    requires AllLeadBack(all, classes, js, base) && |js| == 1
    requires answer == RightAnswer(all) <==> all[0].clsOffset % 2 == 0
    requires answer.found.Some? ==> answer.found.value.clsOffset % 2 == 0
    ensures AnswersWith(answer, classes[js[0]], base) <==> classes[js[0]].cls % 2 == base % 2
    ensures classes[js[0]].cls % 2 == base % 2 ==> answer == RightAnswer(all)
  {
    OffsetParity(all[0].clsOffset, base, classes[js[0]].cls);
    if AnswersWith(answer, classes[js[0]], base) {
      OffsetParity(answer.found.value.clsOffset, base, classes[js[0]].cls);
    }
  }

  /** The answer is one class, and leads back to this one. */
  ghost predicate AnswersWith(answer: Answer, c: ClassEntry, base: nat) {
    answer.count == 1 && answer.found.Some? && LeadsBack(answer.found.value, c, base)
  }

  lemma FilledLeadBack(cls: seq<int>, hi: seq<int>, list: seq<ClassHeader>, classes: seq<ClassEntry>, js: seq<nat>,
                       base: nat, i: nat)
    requires Filled(cls, hi, list, |list|) && AllLeadBack(list, classes, js, base) && i < |js|
    ensures i < |cls| && i < |hi| && js[i] < |classes|
    ensures (base + cls[i]) % WORD64 == classes[js[i]].cls && (base + hi[i]) % WORD64 == classes[js[i]].hi
  {
    assert ClassHeader(cls[i], hi[i]) == list[i] && LeadsBack(list[i], classes[js[i]], base);
  }

  // ------------------------------------------------------------------ the table

  /** Sections are smaller than 8 GiB, so no 32-bit count of their entries wraps. */
  const SECTION_LIMIT: nat := 0x2_0000_0000

  lemma Int32Small(n: nat)
    requires n < WORD32 / 2
    ensures Int32(n) == n && n % WORD32 == n
  {
  }

  ghost predicate AllFindable(strings: seq<Entry>, classes: seq<ClassEntry>, n: nat, base: nat)
    requires n <= |classes|
  {
    forall c {:trigger Findable(strings, base, classes[c].name)} ::
      0 <= c < n ==> Findable(strings, base, classes[c].name)
  }

  predicate BothFit(c: ClassEntry, base: nat) {
    FitsOffset(Offset(c.cls, base)) && FitsOffset(Offset(c.hi, base))
  }

  /** What the errors of the class loop report: a section that the tables exceed, or an
      offset that does not fit. */
  ghost predicate Reports(err: WriteError, classes: seq<ClassEntry>, base: nat, size: nat, remaining: nat) {
    match err
    case SectionTooSmall => remaining < size
    case ClassOffsetTooBig => exists c :: 0 <= c < |classes| && !FitsOffset(Offset(classes[c].cls, base))
    case HeaderOffsetTooBig => exists c :: 0 <= c < |classes| && !FitsOffset(Offset(classes[c].hi, base))
    case _ => false
  }

  ghost predicate NameFits(classes: seq<ClassEntry>, n: nat, name: Str, base: nat)
    requires n <= |classes|
  {
    forall d :: 0 <= d < n && classes[d].name == name ==> BothFit(classes[d], base)
  }

  /** The names of the first c classes can be found, and all their classes fit. */
  ghost predicate MetWell(strings: seq<Entry>, classes: seq<ClassEntry>, c: nat, base: nat)
    requires c <= |classes|
  {
    forall d {:trigger NameMet(strings, classes, d, base)} :: 0 <= d < c ==> NameMet(strings, classes, d, base)
  }

  ghost predicate NameMet(strings: seq<Entry>, classes: seq<ClassEntry>, d: nat, base: nat)
    requires d < |classes|
  {
    Findable(strings, base, classes[d].name) && NameFits(classes, |classes|, classes[d].name, base)
  }

  lemma MetNext(strings: seq<Entry>, classes: seq<ClassEntry>, c: nat, base: nat)
    requires c < |classes| && MetWell(strings, classes, c, base) && NameMet(strings, classes, c, base)
    ensures MetWell(strings, classes, c + 1, base)
  {
  }

  /** A name that was met before was met well. */
  lemma MetAgain(strings: seq<Entry>, classes: seq<ClassEntry>, c: nat, base: nat)
    requires c < |classes| && MetWell(strings, classes, c, base)
    requires ClassesNamed(classes, c, classes[c].name, base) != []
    ensures MetWell(strings, classes, c + 1, base)
  {
    ClassesNamedBound(classes, c, classes[c].name, base);
    var d :| 0 <= d < c && classes[d].name == classes[c].name;
    assert NameMet(strings, classes, d, base);
    MetNext(strings, classes, c, base);
  }

  lemma AllMet(strings: seq<Entry>, classes: seq<ClassEntry>, base: nat)
    requires MetWell(strings, classes, |classes|, base)
    ensures AllFindable(strings, classes, |classes|, base) && AllFit(classes, base)
  {
    forall c | 0 <= c < |classes|
      ensures Findable(strings, base, classes[c].name) && BothFit(classes[c], base)
    {
      assert NameMet(strings, classes, c, base);
    }
  }

  ghost predicate AllFit(classes: seq<ClassEntry>, base: nat) {
    forall c :: 0 <= c < |classes| ==> BothFit(classes[c], base)
  }

  lemma MisfitReported(err: WriteError, classes: seq<ClassEntry>, base: nat, size: nat, remaining: nat)
    requires Reports(err, classes, base, size, remaining)
    ensures err.SectionTooSmall? || !AllFit(classes, base)
  {
    if err.ClassOffsetTooBig? {
      var c :| 0 <= c < |classes| && !FitsOffset(Offset(classes[c].cls, base));
      assert !BothFit(classes[c], base);
    } else if err.HeaderOffsetTooBig? {
      var c :| 0 <= c < |classes| && !FitsOffset(Offset(classes[c].hi, base));
      assert !BothFit(classes[c], base);
    }
  }

  ghost predicate Filled(cls: seq<int>, hi: seq<int>, list: seq<ClassHeader>, n: nat) {
    n <= |list| && n <= |cls| && n <= |hi| && forall i :: 0 <= i < n ==> ClassHeader(cls[i], hi[i]) == list[i]
  }

  /** The loop of getClassesAndHeaders. */
  method FillFrom(list: seq<ClassHeader>, cls: array<int>, hi: array<int>)
    requires cls != hi && |list| <= cls.Length && |list| <= hi.Length
    modifies cls, hi
    ensures Filled(cls[..], hi[..], list, |list|)
    ensures cls[|list|..] == old(cls[..])[|list|..] && hi[|list|..] == old(hi[..])[|list|..]
  {
    var i := 0;
    while i < |list|
      invariant i <= |list| && Filled(cls[..], hi[..], list, i)
      invariant cls[|list|..] == old(cls[..])[|list|..] && hi[|list|..] == old(hi[..])[|list|..]
    {
      cls[i] := list[i].clsOffset;
      hi[i] := list[i].hiOffset;
      i := i + 1;
    }
  }

  class Table {
    const names: StringTable.Table
    var classOffsets: seq<ClassHeader>
    var duplicateCount: nat
    var duplicateOffsets: seq<ClassHeader>

    /** The section may already hold some duplicates. */
    constructor (duplicates: seq<ClassHeader>)
      ensures duplicateOffsets == duplicates && duplicateCount == |duplicates| && fresh(names)
    {
      names := new StringTable.Table();
      classOffsets, duplicateCount, duplicateOffsets := [], |duplicates|, duplicates;
    }

    ghost predicate Valid()
      reads this, names
    {
      names.Valid() && |classOffsets| == names.header.capacity && duplicateCount == |duplicateOffsets|
    }

    function Size(): nat
      reads this, names
    {
      names.Size() + 8 * names.header.capacity + 4 + 8 * duplicateCount
    }

    /** The size is that of the string table, the slots, the count and the duplicates. */
    lemma SizeOfParts()
      requires Valid()
      ensures Size() == 6 * 4 + 8 + 4 * |names.header.scramble| + |names.header.tab| + |names.checkbytes|
                        + 4 * |names.offsets| + 2 * 4 * |classOffsets| + 4 + 2 * 4 * |duplicateOffsets|
    {
      names.SizeOfParts();
    }

    /** The size with all slots and the duplicates of all classes that share their names. */
    ghost function FullSize(older: nat, classes: seq<ClassEntry>): nat
      reads this, names
    {
      names.Size() + 8 * names.header.capacity + 4 + 8 * (older + |Shared(classes)|)
    }

    // ---------------------------------------------------------------- reading

    /** getClassAndHeader. */
    function GetClassAndHeader(key: Str, image: Image, lookup: Lookup): Answer
      requires Valid()
      reads this, names
    {
      match names.GetIndex(key, image, lookup)
      case None => Answer(0, None)
      case Some(h) => AnswerOf(classOffsets[h])
    }

    /** What getClassesAndHeaders lists for a key. */
    ghost function ListedFor(key: Str, image: Image, lookup: Lookup): seq<ClassHeader>
      requires Valid()
      reads this, names
    {
      match names.GetIndex(key, image, lookup)
      case None => []
      case Some(h) =>
        if Readable(classOffsets[h], duplicateOffsets) then Listed(classOffsets[h], duplicateOffsets) else []
    }

    ghost predicate ReadableFor(key: Str, image: Image, lookup: Lookup)
      requires Valid()
      reads this, names
    {
      var index := names.GetIndex(key, image, lookup);
      index.Some? ==> Readable(classOffsets[index.value], duplicateOffsets)
    }

    /** getClassesAndHeaders: fills the front of the caller's arrays. */
    method GetClassesAndHeaders(key: Str, cls: array<int>, hi: array<int>, image: Image, lookup: Lookup)
      requires Valid() && ReadableFor(key, image, lookup) && cls != hi
      requires |ListedFor(key, image, lookup)| <= cls.Length && |ListedFor(key, image, lookup)| <= hi.Length
      modifies cls, hi
      ensures var all := ListedFor(key, image, lookup);
              && Filled(cls[..], hi[..], all, |all|)
              && cls[|all|..] == old(cls[..])[|all|..] && hi[|all|..] == old(hi[..])[|all|..]
    {
      var index := names.GetIndex(key, image, lookup);
      if index.None? {
        return;
      }
      var clshi := classOffsets[index.value];
      if !IsDuplicate(clshi) {
        cls[0] := clshi.clsOffset;
        hi[0] := clshi.hiOffset;
      } else {
        var count := DuplicateCount(clshi);
        var list := duplicateOffsets[DuplicateIndex(clshi)..DuplicateIndex(clshi) + count];
        FillFrom(list, cls, hi);
      }
    }

    // ---------------------------------------------------------------- writing

    /** write: the string table, and then the classes of every name. */
    method Write(base: nat, remaining: nat, strings: seq<Entry>, classes: seq<ClassEntry>,
                 image: Image, lookup: Lookup, fuel: nat)
      returns (err: Option<WriteError>)
      requires |strings| != 1 && |strings| <= 0x4000_0000 && (strings == [] ==> classes == [])
      requires Present(image, strings, base) && duplicateCount == |duplicateOffsets| < WORD32
      requires |classes| < WORD32 / 2 && remaining < SECTION_LIMIT
      modifies this, names
      ensures err.None? && strings != [] ==>
                InProgress(strings, classes, |classes|, base, remaining, lookup)
      ensures err.None? ==> AllFindable(strings, classes, |classes|, base) && AllFit(classes, base)
      ensures err == Some(ClassListBusted) ==> !AllFindable(strings, classes, |classes|, base)
      ensures err.None? && strings != [] ==> |duplicateOffsets| == |old(duplicateOffsets)| + |Shared(classes)|
      ensures err == Some(SectionTooSmall) ==>
                remaining < HEADER_SIZE ||
                (remaining < FullSize(|old(duplicateOffsets)|, classes) && Dimensioned(names.header, strings, lookup))
      ensures err == Some(OffsetTooBig) ==> !OffsetsFit(strings, |strings|, base)
      ensures err.None? && strings != [] ==> MakePerfect.FirstHash(names.header, Names(strings), lookup)
      ensures err == Some(HashFailed) ==> MakePerfect.NoHash(Names(strings), lookup)
      ensures err == Some(HashNotFinished) ==> MakePerfect.Unfinished(Names(strings), lookup, fuel)
      ensures err.Some? && (err.value.ClassOffsetTooBig? || err.value.HeaderOffsetTooBig?) ==>
                Reports(err.value, classes, base, Size(), remaining) && !AllFit(classes, base)
      ensures old(duplicateOffsets) <= duplicateOffsets
    {
      hide MakePerfect.FirstHash, MakePerfect.NoHash, MakePerfect.Unfinished;
      err := names.Write(base, remaining, strings, lookup, fuel);
      if err.Some? {
        return;
      }
      if Size() > remaining {
        return Some(SectionTooSmall);
      }
      classOffsets := seq(names.header.capacity, _ => ClassHeader(0, 0));
      if strings == [] {
        return None;
      }
      IndexedAtStart(names.header, classOffsets, duplicateOffsets, strings, classes, base, lookup);
      SharedMetSizes(classes, |classes|);
      err := WriteClasses(base, remaining, strings, classes, image, lookup);
      if err.None? {
        AllMet(strings, classes, base);
      } else if !err.value.ClassListBusted? {
        MisfitReported(err.value, classes, base, Size(), remaining);
      }
    }

    /** The loop over the classes. */
    method WriteClasses(base: nat, remaining: nat, ghost strings: seq<Entry>, classes: seq<ClassEntry>,
                        image: Image, lookup: Lookup)
      returns (err: Option<WriteError>)
      requires InProgress(strings, classes, 0, base, remaining, lookup) && Present(image, strings, base)
      requires |classes| < WORD32 / 2 && remaining < SECTION_LIMIT
      modifies this
      ensures old(duplicateOffsets) <= duplicateOffsets
      ensures err.None? ==> InProgress(strings, classes, |classes|, base, remaining, lookup)
      ensures err.None? ==> MetWell(strings, classes, |classes|, base)
      ensures err.None? ==> |duplicateOffsets| == |old(duplicateOffsets)| + |Shared(classes)|
      ensures err == Some(SectionTooSmall) ==> Size() <= FullSize(|old(duplicateOffsets)|, classes)
      ensures err == Some(ClassListBusted) ==> !AllFindable(strings, classes, |classes|, base)
      ensures err.Some? ==> err.value.ClassListBusted? || Reports(err.value, classes, base, Size(), remaining)
    {
      hide InProgress, Present, SharedMet, Shared;
      SharedMetSizes(classes, 0);
      SharedMetSizes(classes, |classes|);
      var c := 0;
      err := None;
      while c < |classes|
        invariant c <= |classes| && err.None? && old(duplicateOffsets) <= duplicateOffsets
        invariant InProgress(strings, classes, c, base, remaining, lookup)
        invariant MetWell(strings, classes, c, base)
        invariant |duplicateOffsets| == |old(duplicateOffsets)| + |SharedMet(classes, c)|
      {
        SharedMetNext(classes, c, base);
        SharedMetSizes(classes, c + 1);
        err := WriteOne(base, remaining, strings, classes, c, image, lookup);
        if err.Some? {
          return;
        }
        c := c + 1;
      }
    }

    /** One turn: a name that was met before is skipped, a single class is entered, and
        duplicates are written all at once. */
    method WriteOne(base: nat, remaining: nat, ghost strings: seq<Entry>, classes: seq<ClassEntry>, c: nat,
                    image: Image, lookup: Lookup)
      returns (err: Option<WriteError>)
      requires c < |classes| < WORD32 / 2 && remaining < SECTION_LIMIT
      requires InProgress(strings, classes, c, base, remaining, lookup) && Present(image, strings, base)
      requires MetWell(strings, classes, c, base)
      modifies this
      ensures old(duplicateOffsets) <= duplicateOffsets
      ensures err.None? ==> InProgress(strings, classes, c + 1, base, remaining, lookup)
      ensures err.None? ==> MetWell(strings, classes, c + 1, base)
      ensures err.None? ==> |duplicateOffsets| == |old(duplicateOffsets)| + Added(classes, c, base)
      ensures err == Some(SectionTooSmall) ==> duplicateCount == |old(duplicateOffsets)| + Added(classes, c, base)
      ensures err == Some(ClassListBusted) ==> !AllFindable(strings, classes, |classes|, base)
      ensures err.Some? ==> err.value.ClassListBusted? || Reports(err.value, classes, base, Size(), remaining)
    {
      var name := classes[c].name;
      names.ReadsBack(strings, base, name, image, lookup);
      var index := names.GetIndex(name, image, lookup);
      if index.None? {
        assert !Findable(strings, base, classes[c].name);
        return Some(ClassListBusted);
      }
      var h := index.value;
      ghost var k :| 0 <= k < |strings| && strings[k].name == name;
      ghost var slots, dups := classOffsets, duplicateOffsets;
      assert SlotLeads(names.header, slots, dups, strings[k].name, classes, c, base, lookup);
      ClearMeansNew(slots[h], dups, classes, c, base);
      if classOffsets[h].clsOffset != 0 {
        MetAgain(strings, classes, c, base);
        TurnSkips(names.header, slots, dups, strings, classes, c, base, lookup);
        return None;
      }
      err := WriteNew(base, remaining, strings, k, classes, c, h, lookup);
      if err.None? {
        MetNext(strings, classes, c, base);
      }
    }

    /** A turn for a name that was not met before. */
    method WriteNew(base: nat, remaining: nat, ghost strings: seq<Entry>, ghost k: nat, classes: seq<ClassEntry>,
                    c: nat, h: nat, ghost lookup: Lookup)
      returns (err: Option<WriteError>)
      requires c < |classes| < WORD32 / 2 && remaining < SECTION_LIMIT
      requires InProgress(strings, classes, c, base, remaining, lookup)
      requires k < |strings| && strings[k].name == classes[c].name
      requires h == Hash(names.header, lookup, classes[c].name) < |classOffsets|
      requires ClassesNamed(classes, c, classes[c].name, base) == []
      modifies this
      ensures old(duplicateOffsets) <= duplicateOffsets
      ensures err.None? ==> InProgress(strings, classes, c + 1, base, remaining, lookup)
      ensures err.None? ==> NameFits(classes, |classes|, classes[c].name, base)
      ensures err.None? ==> |duplicateOffsets| == |old(duplicateOffsets)| + Added(classes, c, base)
      ensures err == Some(SectionTooSmall) ==> duplicateCount == |old(duplicateOffsets)| + Added(classes, c, base)
      ensures err.Some? ==> Reports(err.value, classes, base, Size(), remaining)
    {
      var name := classes[c].name;
      ghost var slots, dups := classOffsets, duplicateOffsets;
      ghost var all := ClassesNamed(classes, |classes|, name, base);
      ClassesNamedBound(classes, |classes|, name, base);
      var count := |ClassesNamed(classes, |classes|, name, base)|;
      if count == 1 {
        err := WriteSingle(base, classes, c, h);
        OnlyMeeting(classes, c, base);
        ghost var none: seq<ClassHeader> := [];
        assert dups + none == dups;
        if err.None? {
          ghost var slot := OffsetsOf(classes[c], base);
          TurnWrites(names.header, slots, dups, slot, none, strings, k, classes, c, base, lookup);
        }
      } else {
        err := WriteDuplicates(base, remaining, classes, name, h, count);
        if err.None? {
          ghost var slot := ClassHeader(2 * count + 1, |dups|);
          assert (dups + all)[|dups|..|dups| + count] == all;
          TurnWrites(names.header, slots, dups, slot, all, strings, k, classes, c, base, lookup);
        }
      }
    }

    method WriteSingle(base: nat, classes: seq<ClassEntry>, c: nat, h: nat) returns (err: Option<WriteError>)
      requires c < |classes| && h < |classOffsets|
      requires |ClassesNamed(classes, |classes|, classes[c].name, base)| == 1
      modifies this`classOffsets
      ensures err.None? ==> NameFits(classes, |classes|, classes[c].name, base)
      ensures err.None? ==> classOffsets == old(classOffsets)[h := OffsetsOf(classes[c], base)]
      ensures err.Some? ==> Reports(err.value, classes, base, 0, 0)
    {
      var coff := Offset(classes[c].cls, base);
      var hoff := Offset(classes[c].hi, base);
      if !FitsOffset(coff) {
        return Some(ClassOffsetTooBig);
      }
      if !FitsOffset(hoff) {
        return Some(HeaderOffsetTooBig);
      }
      classOffsets := classOffsets[h := ClassHeader(coff, hoff)];
      forall d | 0 <= d < |classes| && classes[d].name == classes[c].name
        ensures d == c
      {
        if d < c {
          SecondMeeting(classes, d, c, base);
        } else if d > c {
          SecondMeeting(classes, c, d, base);
        }
      }
      return None;
    }

    /** Makes room for a name's duplicates, points the slot at them and writes them. */
    method WriteDuplicates(base: nat, remaining: nat, classes: seq<ClassEntry>, name: Str, h: nat, count: nat)
      returns (err: Option<WriteError>)
      requires Valid() && Size() <= remaining < SECTION_LIMIT && h < |classOffsets|
      requires 2 <= count == |ClassesNamed(classes, |classes|, name, base)| < WORD32 / 2
      modifies this
      ensures old(duplicateOffsets) <= duplicateOffsets
      ensures err.None? ==> Valid() && Size() <= remaining && NameFits(classes, |classes|, name, base)
      ensures err.None? ==> duplicateOffsets == old(duplicateOffsets) + ClassesNamed(classes, |classes|, name, base)
      ensures err.None? ==>
                classOffsets == old(classOffsets)[h := ClassHeader(2 * count + 1, |old(duplicateOffsets)|)]
      ensures err == Some(SectionTooSmall) ==> duplicateCount == |old(duplicateOffsets)| + count
      ensures err.Some? ==> Reports(err.value, classes, base, Size(), remaining)
    {
      hide ClassesNamed, NameFits, WellFormed;
      var dest := duplicateCount;
      SmallMod(dest + count, WORD32);
      duplicateCount := (duplicateCount + count) % WORD32;
      duplicateOffsets := duplicateOffsets + seq(count, _ => ClassHeader(0, 0));
      if Size() > remaining {
        return Some(SectionTooSmall);
      }
      PointTo(h, count, dest);
      assert duplicateOffsets[..dest] == old(duplicateOffsets);
      err := FillDuplicates(base, classes, name, dest);
    }

    /** Points a slot at `count` duplicates from `dest` on. */
    method PointTo(h: nat, count: nat, dest: nat)
      requires h < |classOffsets| && 2 * count + 1 < WORD32 / 2 && dest < WORD32 / 2
      modifies this`classOffsets
      ensures classOffsets == old(classOffsets)[h := ClassHeader(2 * count + 1, dest)]
    {
      Int32Small(count * 2 + 1);
      Int32Small(dest);
      classOffsets := classOffsets[h := ClassHeader(Int32(count * 2 + 1), Int32(dest))];
    }

    /** The inner loop of write. */
    method FillDuplicates(base: nat, classes: seq<ClassEntry>, name: Str, dest0: nat) returns (err: Option<WriteError>)
      requires dest0 + |ClassesNamed(classes, |classes|, name, base)| == |duplicateOffsets|
      modifies this`duplicateOffsets
      ensures |duplicateOffsets| == |old(duplicateOffsets)| && old(duplicateOffsets)[..dest0] <= duplicateOffsets
      ensures err.None? ==> NameFits(classes, |classes|, name, base)
      ensures err.None? ==>
                duplicateOffsets == old(duplicateOffsets)[..dest0] + ClassesNamed(classes, |classes|, name, base)
      ensures err.Some? ==> Reports(err.value, classes, base, 0, 0)
    {
      ghost var kept := duplicateOffsets[..dest0];
      var dest, d := dest0, 0;
      while d < |classes|
        invariant d <= |classes| && NameFits(classes, d, name, base)
        invariant |duplicateOffsets| == |old(duplicateOffsets)|
        invariant dest == dest0 + |ClassesNamed(classes, d, name, base)| <= |duplicateOffsets|
        invariant duplicateOffsets[..dest] == kept + ClassesNamed(classes, d, name, base)
      {
        if classes[d].name == name {
          var coff := Offset(classes[d].cls, base);
          var hoff := Offset(classes[d].hi, base);
          if !FitsOffset(coff) {
            return Some(ClassOffsetTooBig);
          }
          if !FitsOffset(hoff) {
            return Some(HeaderOffsetTooBig);
          }
          ClassesNamedGrows(classes, d + 1, |classes|, name, base);
          ghost var before := duplicateOffsets;
          duplicateOffsets := duplicateOffsets[dest := ClassHeader(coff, hoff)];
          dest := dest + 1;
          assert duplicateOffsets[..dest] == before[..dest - 1] + [ClassHeader(coff, hoff)];
        }
        d := d + 1;
      }
      return None;
    }

    /** The state between two turns. */
    ghost predicate InProgress(strings: seq<Entry>, classes: seq<ClassEntry>, c: nat, base: nat, remaining: nat,
                               lookup: Lookup)
      requires c <= |classes|
      reads this, names
    {
      && names.Holds(strings, |strings|, base, lookup)
      && |classOffsets| == names.header.capacity && duplicateCount == |duplicateOffsets| && Size() <= remaining
      && Indexed(names.header, classOffsets, duplicateOffsets, strings, classes, c, base, lookup)
    }

    /** The class table reads back as the multimap it was written from. A name that cannot
        be found has no classes. A name that can be found gets the right number, and the
        class itself if there is just one, exactly when it has several classes or one at an
        even offset; getClassesAndHeaders then lists exactly its classes. A string without
        classes reads as one class at the table's own address. */
    lemma ReadsBack(strings: seq<Entry>, classes: seq<ClassEntry>, base: nat, remaining: nat, key: Str,
                    image: Image, lookup: Lookup)
      requires InProgress(strings, classes, |classes|, base, remaining, lookup) && remaining < SECTION_LIMIT
      requires Present(image, strings, base) && AllFindable(strings, classes, |classes|, base)
      ensures var all := ClassesNamed(classes, |classes|, key, base);
              var answer := GetClassAndHeader(key, image, lookup);
              && (!Findable(strings, base, key) ==> all == [] && answer == RightAnswer([]))
              && (Findable(strings, base, key) ==>
                    (answer == RightAnswer(all) <==> |all| >= 2 || (|all| == 1 && all[0].clsOffset % 2 == 0)))
              && (Findable(strings, base, key) && all == [] ==> answer == Answer(1, Some(ClassHeader(0, 0))))
              && (answer == RightAnswer(all) ==>
                    ReadableFor(key, image, lookup) && ListedFor(key, image, lookup) == all)
    {
      var all := ClassesNamed(classes, |classes|, key, base);
      names.ReadsBack(strings, base, key, image, lookup);
      ClassesNamedBound(classes, |classes|, key, base);
      if Findable(strings, base, key) {
        var h := names.GetIndex(key, image, lookup).value;
        var k :| 0 <= k < |strings| && strings[k].name == key;
        HandledAtEnd(classes, key, base);
        var name := strings[k].name;
        assert SlotLeads(names.header, classOffsets, duplicateOffsets, name, classes, |classes|, base, lookup);
        SlotReadsBack(classOffsets[h], duplicateOffsets, all);
      }
    }

    lemma InProgressIsValid(strings: seq<Entry>, classes: seq<ClassEntry>, base: nat, remaining: nat, lookup: Lookup)
      requires InProgress(strings, classes, |classes|, base, remaining, lookup)
      ensures Valid()
    {
    }

    /** What a caller gets are the classes themselves. The number is right and the offsets
        lead back to the classes of that name and to their headers, in order, exactly when
        there are several, or one whose address agrees with the table's in the lowest bit. */
    lemma ClassesLeadBack(strings: seq<Entry>, classes: seq<ClassEntry>, base: nat, remaining: nat, key: Str,
                          image: Image, lookup: Lookup)
      requires InProgress(strings, classes, |classes|, base, remaining, lookup) && remaining < SECTION_LIMIT
      requires Present(image, strings, base) && AllFindable(strings, classes, |classes|, base)
      requires Addresses(classes, base)
      ensures var js := Positions(classes, |classes|, key);
              var answer := GetClassAndHeader(key, image, lookup);
              var list := ListedFor(key, image, lookup);
              && (!Findable(strings, base, key) ==> js == [] && answer == Answer(0, None) && list == [])
              && (|js| == 1 ==>
                    (AnswersWith(answer, classes[js[0]], base) <==> classes[js[0]].cls % 2 == base % 2))
              && (|js| >= 2 ==> answer == Answer(|js|, None))
              && (|js| >= 2 || (|js| == 1 && classes[js[0]].cls % 2 == base % 2) ==>
                    ReadableFor(key, image, lookup) && AllLeadBack(list, classes, js, base))
    {
      hide LeadsBack, InProgress, Offset;
      InProgressIsValid(strings, classes, base, remaining, lookup);
      var js := Positions(classes, |classes|, key);
      var all := ClassesNamed(classes, |classes|, key, base);
      var answer := GetClassAndHeader(key, image, lookup);
      ReadsBack(strings, classes, base, remaining, key, image, lookup);
      NamedLeadBack(classes, |classes|, key, base);
      if |js| >= 1 {
        assert Findable(strings, base, classes[js[0]].name);
      }
      if |js| == 1 {
        SingleLeadsBack(all, classes, js, base, answer);
      }
    }

    /** The same for the caller's arrays that getClassesAndHeaders has filled. */
    lemma ArraysLeadBack(strings: seq<Entry>, classes: seq<ClassEntry>, base: nat, remaining: nat, key: Str,
                         image: Image, lookup: Lookup, cls: seq<int>, hi: seq<int>, i: nat)
      requires InProgress(strings, classes, |classes|, base, remaining, lookup) && remaining < SECTION_LIMIT
      requires Present(image, strings, base) && AllFindable(strings, classes, |classes|, base)
      requires Addresses(classes, base)
      requires var js := Positions(classes, |classes|, key);
               i < |js| && (|js| == 1 ==> classes[js[0]].cls % 2 == base % 2)
      requires Filled(cls, hi, ListedFor(key, image, lookup), |ListedFor(key, image, lookup)|)
      ensures var c := classes[Positions(classes, |classes|, key)[i]];
              && i < |cls| && (base + cls[i]) % WORD64 == c.cls
              && i < |hi| && (base + hi[i]) % WORD64 == c.hi
    {
      hide LeadsBack, AllLeadBack, InProgress, Present, Filled, Offset;
      InProgressIsValid(strings, classes, base, remaining, lookup);
      ClassesLeadBack(strings, classes, base, remaining, key, image, lookup);
      FilledLeadBack(cls, hi, ListedFor(key, image, lookup), classes, Positions(classes, |classes|, key), base, i);
    }

    /** The duplicates of different names are kept apart. */
    lemma DuplicatesApart(strings: seq<Entry>, classes: seq<ClassEntry>, base: nat, remaining: nat, i: nat, j: nat,
                          lookup: Lookup)
      requires InProgress(strings, classes, |classes|, base, remaining, lookup) && remaining < SECTION_LIMIT
      requires i < |strings| && j < |strings| && strings[i].name != strings[j].name
      requires |ClassesNamed(classes, |classes|, strings[i].name, base)| >= 2
      requires |ClassesNamed(classes, |classes|, strings[j].name, base)| >= 2
      ensures Hash(names.header, lookup, strings[i].name) < |classOffsets|
      ensures Hash(names.header, lookup, strings[j].name) < |classOffsets|
      ensures RangesApart(classOffsets[Hash(names.header, lookup, strings[i].name)],
                          classOffsets[Hash(names.header, lookup, strings[j].name)], duplicateOffsets)
    {
      var m, n := strings[i].name, strings[j].name;
      HandledAtEnd(classes, m, base);
      HandledAtEnd(classes, n, base);
      assert SlotLeads(names.header, classOffsets, duplicateOffsets, m, classes, |classes|, base, lookup);
      assert SlotLeads(names.header, classOffsets, duplicateOffsets, n, classes, |classes|, base, lookup);
      assert SlotsApart(names.header, classOffsets, m, n, classes, |classes|, base, lookup);
      SlotsToRanges(classOffsets[Hash(names.header, lookup, m)], classOffsets[Hash(names.header, lookup, n)],
                    duplicateOffsets,
                    ClassesNamed(classes, |classes|, m, base), ClassesNamed(classes, |classes|, n, base));
    }
  }
}
