/** The rewriting of a Mach-O image in place: sections of initializers and terminators
    become ordinary sections under other names. */
module MarkGC {
  import opened Wrappers

  type Byte = x: nat | x < 256

  /** The byte order, and the word size: 32 bits or 64. */
  datatype Layout = Layout(big: bool, wide: bool)

  const LC_SEGMENT: nat := 0x1
  const LC_SEGMENT_64: nat := 0x19
  const NAME_SIZE: nat := 16

  // The offsets and sizes of Mach-O's header, segment and section structures.
  const NCMDS: nat := 16
  const CMDSIZE: nat := 4
  const LOAD_COMMAND_SIZE: nat := 8

  function HeaderSize(l: Layout): nat { if l.wide then 32 else 28 }
  function SegmentSize(l: Layout): nat { if l.wide then 72 else 56 }
  function SectionSize(l: Layout): nat { if l.wide then 80 else 68 }
  function NsectsAt(l: Layout): nat { if l.wide then 64 else 48 }
  function FlagsAt(l: Layout): nat { if l.wide then 64 else 56 }

  /** Where the type byte of a section's flags is. */
  function TypeAt(l: Layout): nat { FlagsAt(l) + if l.big then 3 else 0 }

  // ------------------------------------------------------------------ words

  function Word(b0: Byte, b1: Byte, b2: Byte, b3: Byte, big: bool): nat {
    if big then ((b0 * 256 + b1) * 256 + b2) * 256 + b3 else ((b3 * 256 + b2) * 256 + b1) * 256 + b0
  }

  function Get32(b: seq<Byte>, at: nat, big: bool): nat
    requires at + 4 <= |b|
  {
    Word(b[at], b[at + 1], b[at + 2], b[at + 3], big)
  }

  method Split(value: nat) returns (b0: Byte, b1: Byte, b2: Byte, b3: Byte)
    requires value < 0x1_0000_0000
    ensures Word(b0, b1, b2, b3, false) == value && Word(b3, b2, b1, b0, true) == value
  {
    var rest := value / 256;
    b0 := value % 256;
    b1, rest := rest % 256, rest / 256;
    b2, b3 := rest % 256, rest / 256;
  }

  method Set32(a: array<Byte>, at: nat, value: nat, big: bool)
    requires at + 4 <= a.Length && value < 0x1_0000_0000
    modifies a
    ensures Get32(a[..], at, big) == value
    ensures forall i :: 0 <= i < a.Length && !(at <= i < at + 4) ==> a[i] == old(a[i])
  {
    var b0, b1, b2, b3 := Split(value);
    if big {
      a[at], a[at + 1], a[at + 2], a[at + 3] := b3, b2, b1, b0;
    } else {
      a[at], a[at + 1], a[at + 2], a[at + 3] := b0, b1, b2, b3;
    }
  }

  /** The bytes of a word are determined by its value. */
  lemma WordIsInjective(b0: Byte, b1: Byte, b2: Byte, b3: Byte, c0: Byte, c1: Byte, c2: Byte, c3: Byte, big: bool)
    requires Word(b0, b1, b2, b3, big) == Word(c0, c1, c2, c3, big)
    ensures b0 == c0 && b1 == c1 && b2 == c2 && b3 == c3
  {
    if big {
      DigitsAreUnique(b0, b1, b2, b3, c0, c1, c2, c3);
    } else {
      DigitsAreUnique(b3, b2, b1, b0, c3, c2, c1, c0);
    }
  }

  lemma DigitIsUnique(high: nat, low: Byte, high': nat, low': Byte)
    requires high * 256 + low == high' * 256 + low'
    ensures high == high' && low == low'
  {
  }

  lemma DigitsAreUnique(b0: Byte, b1: Byte, b2: Byte, b3: Byte, c0: Byte, c1: Byte, c2: Byte, c3: Byte)
    requires Word(b0, b1, b2, b3, true) == Word(c0, c1, c2, c3, true)
    ensures b0 == c0 && b1 == c1 && b2 == c2 && b3 == c3
  {
    var b, c: int := (b0 as int * 256 + b1), (c0 as int * 256 + c1);
    DigitIsUnique(b * 256 + b2, b3, c * 256 + c2, c3);
    DigitIsUnique(b, b2, c, c2);
    DigitIsUnique(b0, b1, c0, c1);
  }

  /** Reading the same bytes in the other order gives the byte-swapped word. */
  lemma SwappedWord(b: seq<Byte>, c0: Byte, c1: Byte, c2: Byte, c3: Byte)
    requires |b| >= 4
    ensures Get32(b, 0, true) == Word(c0, c1, c2, c3, true) <==> Get32(b, 0, false) == Word(c0, c1, c2, c3, false)
  {
    if Get32(b, 0, true) == Word(c0, c1, c2, c3, true) {
      WordIsInjective(b[0], b[1], b[2], b[3], c0, c1, c2, c3, true);
    }
    if Get32(b, 0, false) == Word(c0, c1, c2, c3, false) {
      WordIsInjective(b[0], b[1], b[2], b[3], c0, c1, c2, c3, false);
    }
  }

  // ------------------------------------------------------------------ names

  /** strncmp of at most n bytes says equal. */
  predicate SameName(a: seq<Byte>, b: seq<Byte>, n: nat)
    requires n <= |a| && n <= |b|
  {
    n == 0 || (a[0] == b[0] && (a[0] == 0 || SameName(a[1..], b[1..], n - 1)))
  }

  const DATA: seq<Byte> := [0x5f, 0x5f, 0x44, 0x41, 0x54, 0x41]
  const MOD_INIT: seq<Byte> :=
    [0x5f, 0x5f, 0x6d, 0x6f, 0x64, 0x5f, 0x69, 0x6e, 0x69, 0x74, 0x5f, 0x66, 0x75, 0x6e, 0x63, 0]
  const MOD_TERM: seq<Byte> :=
    [0x5f, 0x5f, 0x6d, 0x6f, 0x64, 0x5f, 0x74, 0x65, 0x72, 0x6d, 0x5f, 0x66, 0x75, 0x6e, 0x63, 0]
  const OBJC_INIT: seq<Byte> :=
    [0x5f, 0x5f, 0x6f, 0x62, 0x6a, 0x63, 0x5f, 0x69, 0x6e, 0x69, 0x74, 0x5f, 0x66, 0x75, 0x6e, 0x63]
  const OBJC_TERM: seq<Byte> :=
    [0x5f, 0x5f, 0x6f, 0x62, 0x6a, 0x63, 0x5f, 0x74, 0x65, 0x72, 0x6d, 0x5f, 0x66, 0x75, 0x6e, 0x63]

  // ------------------------------------------------------------------ one section

  /** The section's record is in a data segment and has the name. */
  predicate DataNamed(rec: seq<Byte>, name: seq<Byte>)
    requires |rec| >= 2 * NAME_SIZE && |name| == NAME_SIZE
  {
    SameName(rec[NAME_SIZE..], DATA, |DATA|) && SameName(rec, name, NAME_SIZE)
  }

  /** The record with another name and the type of an ordinary section. */
  function Renamed(rec: seq<Byte>, name: seq<Byte>, l: Layout): (r: seq<Byte>)
    requires |rec| == SectionSize(l) && |name| == NAME_SIZE
    ensures |r| == |rec|
  {
    (name + rec[NAME_SIZE..])[TypeAt(l) := 0]
  }

  function Marked(rec: seq<Byte>, l: Layout): (r: seq<Byte>)
    requires |rec| == SectionSize(l)
    ensures |r| == |rec|
  {
    if DataNamed(rec, MOD_INIT) then Renamed(rec, OBJC_INIT, l)
    else if DataNamed(rec, MOD_TERM) then Renamed(rec, OBJC_TERM, l)
    else rec
  }

  /** Names that differ at their third letter, after the same two. */
  lemma ThirdLetterDiffers(a: seq<Byte>, b: seq<Byte>, n: nat)
    requires 3 <= n <= |a| && n <= |b| && a[0] == b[0] == 0x5f && a[1] == b[1] == 0x5f && a[2] != b[2]
    ensures !SameName(a, b, n)
  {
    assert a[1..][1..][0] == a[2] && b[1..][1..][0] == b[2];
    assert !SameName(a[1..][1..], b[1..][1..], n - 2);
    assert a[1..][0] == a[1] && b[1..][0] == b[1];
    assert !SameName(a[1..], b[1..], n - 1);
  }

  /** A renamed section has neither old name. */
  lemma RenamedIsNew(rec: seq<Byte>, name: seq<Byte>, l: Layout)
    requires |rec| == SectionSize(l) && (name == OBJC_INIT || name == OBJC_TERM)
    ensures !DataNamed(Renamed(rec, name, l), MOD_INIT) && !DataNamed(Renamed(rec, name, l), MOD_TERM)
  {
    ThirdLetterDiffers(Renamed(rec, name, l), MOD_INIT, NAME_SIZE);
    ThirdLetterDiffers(Renamed(rec, name, l), MOD_TERM, NAME_SIZE);
  }

  /** A marked section has neither old name, so marking it again changes nothing. Only the
      name and the type byte of a section with an old name differ. */
  lemma MarkedSection(rec: seq<Byte>, l: Layout)
    requires |rec| == SectionSize(l)
    ensures !DataNamed(Marked(rec, l), MOD_INIT) && !DataNamed(Marked(rec, l), MOD_TERM)
    ensures Marked(Marked(rec, l), l) == Marked(rec, l)
    ensures forall i :: 0 <= i < |rec| && Marked(rec, l)[i] != rec[i] ==>
              (i < NAME_SIZE || i == TypeAt(l)) && (DataNamed(rec, MOD_INIT) || DataNamed(rec, MOD_TERM))
  {
    RenamedIsNew(rec, OBJC_INIT, l);
    RenamedIsNew(rec, OBJC_TERM, l);
  }

  // ------------------------------------------------------------------ dosect

  function Record(b: seq<Byte>, s: nat, l: Layout): (rec: seq<Byte>)
    requires s + SectionSize(l) <= |b|
    ensures |rec| == SectionSize(l)
  {
    b[s..s + SectionSize(l)]
  }

  /** Only the record at s may differ. */
  ghost predicate SameOutside(b: seq<Byte>, b': seq<Byte>, s: nat, l: Layout) {
    |b'| == |b| && forall i :: 0 <= i < |b| && !(s <= i < s + SectionSize(l)) ==> b'[i] == b[i]
  }

  /** set_flags(flags() & ~SECTION_TYPE): zeroes the type byte and leaves the others. */
  method ClearType(a: array<Byte>, s: nat, l: Layout)
    requires s + SectionSize(l) <= a.Length
    modifies a
    ensures a[..] == old(a[..])[s + TypeAt(l) := 0]
  {
    var at := s + FlagsAt(l);
    var flags := Get32(a[..], at, l.big);
    ghost var b := a[..];
    Set32(a, at, flags / 256 * 256, l.big);
    TypeByteCleared(b, a[..], at, l.big);
  }

  lemma LowByteCleared(high: nat, low: Byte)
    ensures (high * 256 + low) / 256 * 256 == high * 256
  {
  }

  lemma WordCleared(b0: Byte, b1: Byte, b2: Byte, b3: Byte, big: bool)
    ensures Word(b0, b1, b2, b3, big) / 256 * 256 == if big then Word(b0, b1, b2, 0, big) else Word(0, b1, b2, b3, big)
  {
    if big {
      var high: int := (b0 as int * 256 + b1) * 256 + b2;
      LowByteCleared(high, b3);
    } else {
      var high: int := (b3 as int * 256 + b2) * 256 + b1;
      LowByteCleared(high, b0);
    }
  }

  lemma TypeByteCleared(b: seq<Byte>, b': seq<Byte>, at: nat, big: bool)
    requires at + 4 <= |b| == |b'| && Get32(b', at, big) == Get32(b, at, big) / 256 * 256
    ensures var t := at + if big then 3 else 0;
            b'[t] == 0 && forall i :: at <= i < at + 4 && i != t ==> b'[i] == b[i]
  {
    WordCleared(b[at], b[at + 1], b[at + 2], b[at + 3], big);
    if big {
      WordIsInjective(b'[at], b'[at + 1], b'[at + 2], b'[at + 3], b[at], b[at + 1], b[at + 2], 0, big);
    } else {
      WordIsInjective(b'[at], b'[at + 1], b'[at + 2], b'[at + 3], 0, b[at + 1], b[at + 2], b[at + 3], big);
    }
  }

  /** set_sectname: strncpy of a name of 16 letters. */
  method SetName(a: array<Byte>, s: nat, name: seq<Byte>)
    requires |name| == NAME_SIZE && s + NAME_SIZE <= a.Length
    modifies a
    ensures a[..] == old(a[..s]) + name + old(a[s + NAME_SIZE..])
  {
    var i := 0;
    while i < NAME_SIZE
      invariant i <= NAME_SIZE && a[..s] == old(a[..s]) && a[s..s + i] == name[..i]
      invariant a[s + NAME_SIZE..] == old(a[s + NAME_SIZE..])
    {
      a[s + i] := name[i];
      i := i + 1;
    }
    assert a[..] == a[..s] + a[s..s + NAME_SIZE] + a[s + NAME_SIZE..];
  }

  method Disable(a: array<Byte>, s: nat, name: seq<Byte>, l: Layout)
    requires |name| == NAME_SIZE && s + SectionSize(l) <= a.Length
    modifies a
    ensures Record(a[..], s, l) == Renamed(Record(old(a[..]), s, l), name, l)
    ensures SameOutside(old(a[..]), a[..], s, l)
  {
    ClearType(a, s, l);
    ghost var b := a[..];
    SetName(a, s, name);
    assert a[..s] == b[..s];
    DisabledRecord(old(a[..]), b, a[..], s, name, l);
  }

  lemma DisabledRecord(b: seq<Byte>, b': seq<Byte>, b'': seq<Byte>, s: nat, name: seq<Byte>, l: Layout)
    requires |name| == NAME_SIZE && s + SectionSize(l) <= |b| && b' == b[s + TypeAt(l) := 0]
    requires b'' == b'[..s] + name + b'[s + NAME_SIZE..]
    ensures Record(b'', s, l) == Renamed(Record(b, s, l), name, l)
    ensures SameOutside(b, b'', s, l)
  {
    var r, r' := Record(b'', s, l), Renamed(Record(b, s, l), name, l);
    forall i | 0 <= i < |r|
      ensures r[i] == r'[i]
    {
      assert r[i] == b''[s + i];
      if i >= NAME_SIZE {
        assert b''[s + i] == b'[s + i];
      }
    }
  }

  /** dosect: the second test sees the name that the first one may have written. */
  method DoSect(a: array<Byte>, s: nat, l: Layout)
    requires s + SectionSize(l) <= a.Length
    modifies a
    ensures Record(a[..], s, l) == Marked(Record(old(a[..]), s, l), l)
    ensures SameOutside(old(a[..]), a[..], s, l)
  {
    if DataNamed(a[s..s + SectionSize(l)], MOD_INIT) {
      RenamedIsNew(Record(a[..], s, l), OBJC_INIT, l);
      Disable(a, s, OBJC_INIT, l);
    }
    if DataNamed(a[s..s + SectionSize(l)], MOD_TERM) {
      Disable(a, s, OBJC_TERM, l);
    }
  }

  // ------------------------------------------------------------------ the image

  function Ncmds(b: seq<Byte>, l: Layout): nat
    requires HeaderSize(l) <= |b|
  {
    Get32(b, NCMDS, l.big)
  }

  /** The size of the load command at p. */
  function CommandSize(b: seq<Byte>, l: Layout, p: nat): nat {
    if p + LOAD_COMMAND_SIZE <= |b| then Get32(b, p + CMDSIZE, l.big) else 0
  }

  /** Where the c-th load command is. */
  function CommandAt(b: seq<Byte>, l: Layout, c: nat): nat {
    if c == 0 then HeaderSize(l) else CommandAt(b, l, c - 1) + CommandSize(b, l, CommandAt(b, l, c - 1))
  }

  predicate IsSegment(b: seq<Byte>, l: Layout, p: nat)
    requires p + LOAD_COMMAND_SIZE <= |b|
  {
    Get32(b, p, l.big) == LC_SEGMENT || Get32(b, p, l.big) == LC_SEGMENT_64
  }

  /** The room that n sections take. */
  function Room(l: Layout, n: nat): nat { if l.wide then 80 * n else 68 * n }

  function Nsects(b: seq<Byte>, l: Layout, p: nat): nat
    requires p + SegmentSize(l) <= |b|
  {
    Get32(b, p + NsectsAt(l), l.big)
  }

  /** The command lies in the image, and a segment command has room for its sections. */
  ghost predicate CommandOk(b: seq<Byte>, l: Layout, c: nat) {
    var p := CommandAt(b, l, c);
    && p + LOAD_COMMAND_SIZE <= p + CommandSize(b, l, p) <= |b|
    && (IsSegment(b, l, p) ==>
          && SegmentSize(l) <= CommandSize(b, l, p)
          && SegmentSize(l) + Room(l, Nsects(b, l, p)) <= CommandSize(b, l, p))
  }

  ghost predicate WellFormed(b: seq<Byte>, l: Layout) {
    HeaderSize(l) <= |b| && forall c :: 0 <= c < Ncmds(b, l) ==> CommandOk(b, l, c)
  }

  /** Command c is a segment with more than j sections. */
  ghost predicate HasSection(b: seq<Byte>, l: Layout, c: nat, j: nat)
    requires WellFormed(b, l)
  {
    && c < Ncmds(b, l) && CommandOk(b, l, c) && IsSegment(b, l, CommandAt(b, l, c))
    && j < Nsects(b, l, CommandAt(b, l, c))
  }

  ghost function SectionAt(b: seq<Byte>, l: Layout, c: nat, j: nat): nat {
    CommandAt(b, l, c) + SegmentSize(l) + Room(l, j)
  }

  lemma {:induction false} CommandsAscend(b: seq<Byte>, l: Layout, c: nat, d: nat)
    requires WellFormed(b, l) && c <= d <= Ncmds(b, l)
    ensures CommandAt(b, l, c) <= CommandAt(b, l, d)
    ensures c < d ==> CommandAt(b, l, c) + CommandSize(b, l, CommandAt(b, l, c)) <= CommandAt(b, l, d)
    ensures HeaderSize(l) <= CommandAt(b, l, c)
    decreases d
  {
    if c < d {
      CommandsAscend(b, l, c, d - 1);
      assert CommandOk(b, l, d - 1);
    } else if c > 0 {
      CommandsAscend(b, l, c - 1, d - 1);
    }
  }

  /** A section lies behind its segment command and before the next command. */
  lemma SectionInside(b: seq<Byte>, l: Layout, c: nat, j: nat)
    requires WellFormed(b, l) && HasSection(b, l, c, j)
    ensures CommandAt(b, l, c) + SegmentSize(l) <= SectionAt(b, l, c, j)
    ensures SectionAt(b, l, c, j) + SectionSize(l) <= CommandAt(b, l, c + 1) <= |b|
  {
  }

  ghost predicate Before(c: nat, j: nat, d: nat, k: nat) {
    c < d || (c == d && j < k)
  }

  /** Sections do not overlap. */
  lemma SectionsApart(b: seq<Byte>, l: Layout, c: nat, j: nat, d: nat, k: nat)
    requires WellFormed(b, l) && HasSection(b, l, c, j) && HasSection(b, l, d, k) && Before(c, j, d, k)
    ensures SectionAt(b, l, c, j) + SectionSize(l) <= SectionAt(b, l, d, k)
  {
    SectionInside(b, l, c, j);
    if c < d {
      CommandsAscend(b, l, c + 1, d);
    }
  }

  /** The part of a command that is not sections. */
  ghost function HeadOf(b: seq<Byte>, l: Layout, c: nat): nat
    requires WellFormed(b, l) && c < Ncmds(b, l)
  {
    assert CommandOk(b, l, c);
    if IsSegment(b, l, CommandAt(b, l, c)) then SegmentSize(l) else LOAD_COMMAND_SIZE
  }

  /** The byte i is in the image's header or in the head of a command. */
  ghost predicate InHeads(b: seq<Byte>, l: Layout, i: nat)
    requires WellFormed(b, l)
  {
    i < HeaderSize(l)
    || exists e: nat :: e < Ncmds(b, l) && CommandAt(b, l, e) <= i < CommandAt(b, l, e) + HeadOf(b, l, e)
  }

  lemma HeadFits(b: seq<Byte>, l: Layout, c: nat)
    requires WellFormed(b, l) && c < Ncmds(b, l)
    ensures CommandAt(b, l, c) + HeadOf(b, l, c) <= CommandAt(b, l, c + 1)
  {
    assert CommandOk(b, l, c);
  }

  lemma HeadBeforeSections(b: seq<Byte>, l: Layout, c: nat, j: nat)
    requires WellFormed(b, l) && HasSection(b, l, c, j)
    ensures CommandAt(b, l, c) + HeadOf(b, l, c) <= SectionAt(b, l, c, j)
  {
  }

  lemma EarlierHeadBeforeSections(b: seq<Byte>, l: Layout, c: nat, j: nat, e: nat)
    requires WellFormed(b, l) && HasSection(b, l, c, j) && e < c
    ensures CommandAt(b, l, e) + HeadOf(b, l, e) <= SectionAt(b, l, c, j)
  {
    HeadFits(b, l, e);
    CommandsAscend(b, l, e + 1, c);
  }

  lemma LaterHeadAfterSections(b: seq<Byte>, l: Layout, c: nat, j: nat, e: nat)
    requires WellFormed(b, l) && HasSection(b, l, c, j) && c < e < Ncmds(b, l)
    ensures SectionAt(b, l, c, j) + SectionSize(l) <= CommandAt(b, l, e)
  {
    SectionInside(b, l, c, j);
    CommandsAscend(b, l, c + 1, e);
  }

  lemma HeadsAreNotSections(b: seq<Byte>, l: Layout, c: nat, j: nat, i: nat)
    requires WellFormed(b, l) && HasSection(b, l, c, j) && InHeads(b, l, i)
    ensures !(SectionAt(b, l, c, j) <= i < SectionAt(b, l, c, j) + SectionSize(l))
  {
    if i < HeaderSize(l) {
      SectionInside(b, l, c, j);
      CommandsAscend(b, l, 0, c);
    } else {
      var e: nat :| e < Ncmds(b, l) && CommandAt(b, l, e) <= i < CommandAt(b, l, e) + HeadOf(b, l, e);
      if e < c {
        EarlierHeadBeforeSections(b, l, c, j, e);
      } else if e == c {
        HeadBeforeSections(b, l, c, j);
      } else {
        LaterHeadAfterSections(b, l, c, j, e);
      }
    }
  }

  // ------------------------------------------------------------------ marked images

  ghost predicate InSection(b: seq<Byte>, l: Layout, c: nat, j: nat, i: nat) {
    SectionAt(b, l, c, j) <= i < SectionAt(b, l, c, j) + SectionSize(l)
  }

  /** The record of one section of b is marked in b'. */
  ghost predicate SectionMarked(b: seq<Byte>, b': seq<Byte>, l: Layout, c: nat, j: nat)
    requires WellFormed(b, l) && HasSection(b, l, c, j) && |b'| == |b|
  {
    SectionInside(b, l, c, j);
    Record(b', SectionAt(b, l, c, j), l) == Marked(Record(b, SectionAt(b, l, c, j), l), l)
  }

  /** The byte i is in a section before the j-th of command c. */
  ghost predicate Reached(b: seq<Byte>, l: Layout, c: nat, j: nat, i: nat)
    requires WellFormed(b, l)
  {
    exists d: nat, k: nat :: HasSection(b, l, d, k) && Before(d, k, c, j) && InSection(b, l, d, k, i)
  }

  /** The sections before the j-th of command c are marked; all else is as in b. */
  ghost predicate MarkedUpTo(b: seq<Byte>, b': seq<Byte>, l: Layout, c: nat, j: nat)
    requires WellFormed(b, l)
  {
    |b'| == |b| && SectionsDone(b, b', l, c, j) && OthersKept(b, b', l, c, j)
  }

  ghost predicate SectionsDone(b: seq<Byte>, b': seq<Byte>, l: Layout, c: nat, j: nat)
    requires WellFormed(b, l) && |b'| == |b|
  {
    forall d: nat, k: nat :: HasSection(b, l, d, k) && Before(d, k, c, j) ==> SectionMarked(b, b', l, d, k)
  }

  ghost predicate OthersKept(b: seq<Byte>, b': seq<Byte>, l: Layout, c: nat, j: nat)
    requires WellFormed(b, l) && |b'| == |b|
  {
    forall i: nat :: i < |b| && !Reached(b, l, c, j, i) ==> b'[i] == b[i]
  }

  /** All sections are marked, and all else is as in b. */
  ghost predicate AllMarked(b: seq<Byte>, b': seq<Byte>, l: Layout)
    requires WellFormed(b, l)
  {
    MarkedUpTo(b, b', l, Ncmds(b, l), 0)
  }

  lemma HeadsKept(b: seq<Byte>, b': seq<Byte>, l: Layout, c: nat, j: nat, i: nat)
    requires WellFormed(b, l) && MarkedUpTo(b, b', l, c, j) && InHeads(b, l, i) && i < |b|
    ensures b'[i] == b[i]
  {
    if Reached(b, l, c, j, i) {
      var d: nat, k: nat :| HasSection(b, l, d, k) && Before(d, k, c, j) && InSection(b, l, d, k, i);
      HeadsAreNotSections(b, l, d, k, i);
    }
  }

  /** The head of a command reads the same in b'. */
  ghost predicate HeadAgrees(b: seq<Byte>, b': seq<Byte>, l: Layout, e: nat) {
    var p := CommandAt(b, l, e);
    && |b'| == |b| && CommandOk(b, l, e)
    && IsSegment(b', l, p) == IsSegment(b, l, p) && CommandSize(b', l, p) == CommandSize(b, l, p)
    && (IsSegment(b, l, p) ==> Nsects(b', l, p) == Nsects(b, l, p))
  }

  lemma HeadKept(b: seq<Byte>, b': seq<Byte>, l: Layout, c: nat, j: nat, e: nat)
    requires WellFormed(b, l) && MarkedUpTo(b, b', l, c, j) && e < Ncmds(b, l)
    ensures HeadAgrees(b, b', l, e)
  {
    var p := CommandAt(b, l, e);
    assert CommandOk(b, l, e);
    forall i: nat | p <= i < p + HeadOf(b, l, e)
      ensures b'[i] == b[i]
    {
      assert InHeads(b, l, i);
      HeadsKept(b, b', l, c, j, i);
    }
  }

  lemma NcmdsKept(b: seq<Byte>, b': seq<Byte>, l: Layout, c: nat, j: nat)
    requires WellFormed(b, l) && MarkedUpTo(b, b', l, c, j)
    ensures Ncmds(b', l) == Ncmds(b, l) && b'[..HeaderSize(l)] == b[..HeaderSize(l)]
  {
    forall i: nat | i < HeaderSize(l)
      ensures b'[i] == b[i]
    {
      HeadsKept(b, b', l, c, j, i);
    }
  }

  /** A section that was not reached yet is as in b. */
  lemma NotReachedYet(b: seq<Byte>, l: Layout, c: nat, j: nat, i: nat)
    requires WellFormed(b, l) && HasSection(b, l, c, j) && InSection(b, l, c, j, i)
    ensures !Reached(b, l, c, j, i)
  {
    if Reached(b, l, c, j, i) {
      var d: nat, k: nat :| HasSection(b, l, d, k) && Before(d, k, c, j) && InSection(b, l, d, k, i);
      SectionsApart(b, l, d, k, c, j);
    }
  }

  lemma RecordKept(b: seq<Byte>, b': seq<Byte>, l: Layout, c: nat, j: nat)
    requires WellFormed(b, l) && HasSection(b, l, c, j) && MarkedUpTo(b, b', l, c, j)
    ensures SectionAt(b, l, c, j) + SectionSize(l) <= |b|
    ensures Record(b', SectionAt(b, l, c, j), l) == Record(b, SectionAt(b, l, c, j), l)
  {
    SectionInside(b, l, c, j);
    var s := SectionAt(b, l, c, j);
    forall i: nat | s <= i < s + SectionSize(l)
      ensures b'[i] == b[i]
    {
      NotReachedYet(b, l, c, j, i);
    }
  }

  /** b'' is b' with the j-th section of command c marked. */
  ghost predicate MarksNext(b: seq<Byte>, b': seq<Byte>, b'': seq<Byte>, l: Layout, c: nat, j: nat) {
    var s := SectionAt(b, l, c, j);
    && |b''| == |b'| == |b| && s + SectionSize(l) <= |b|
    && Record(b'', s, l) == Marked(Record(b', s, l), l) && SameOutside(b', b'', s, l)
  }

  /** Marking the next section. */
  lemma MarkOneMore(b: seq<Byte>, b': seq<Byte>, b'': seq<Byte>, l: Layout, c: nat, j: nat)
    requires WellFormed(b, l) && HasSection(b, l, c, j)
    requires MarkedUpTo(b, b', l, c, j) && MarksNext(b, b', b'', l, c, j)
    ensures MarkedUpTo(b, b'', l, c, j + 1)
  {
    NextIsMarked(b, b', b'', l, c, j);
    SectionsMarked(b, b', b'', l, c, j);
    OthersStayAsTheyWere(b, b', b'', l, c, j);
  }

  lemma SectionsMarked(b: seq<Byte>, b': seq<Byte>, b'': seq<Byte>, l: Layout, c: nat, j: nat)
    requires WellFormed(b, l) && HasSection(b, l, c, j) && |b''| == |b'| == |b|
    requires SectionsDone(b, b', l, c, j) && SectionMarked(b, b'', l, c, j)
    requires SameOutside(b', b'', SectionAt(b, l, c, j), l)
    ensures SectionsDone(b, b'', l, c, j + 1)
  {
    forall d: nat, k: nat | HasSection(b, l, d, k) && Before(d, k, c, j + 1)
      ensures SectionMarked(b, b'', l, d, k)
    {
      if Before(d, k, c, j) {
        EarlierStaysMarked(b, b', b'', l, c, j, d, k);
      }
    }
  }

  lemma NextIsMarked(b: seq<Byte>, b': seq<Byte>, b'': seq<Byte>, l: Layout, c: nat, j: nat)
    requires WellFormed(b, l) && HasSection(b, l, c, j)
    requires MarkedUpTo(b, b', l, c, j) && MarksNext(b, b', b'', l, c, j)
    ensures SectionMarked(b, b'', l, c, j)
  {
    RecordKept(b, b', l, c, j);
  }

  lemma OthersStayAsTheyWere(b: seq<Byte>, b': seq<Byte>, b'': seq<Byte>, l: Layout, c: nat, j: nat)
    requires WellFormed(b, l) && HasSection(b, l, c, j) && |b''| == |b'| == |b|
    requires OthersKept(b, b', l, c, j) && SameOutside(b', b'', SectionAt(b, l, c, j), l)
    ensures OthersKept(b, b'', l, c, j + 1)
  {
    forall i: nat | i < |b| && !Reached(b, l, c, j + 1, i)
      ensures b''[i] == b[i]
    {
      StillNotReached(b, l, c, j, i);
    }
  }

  lemma EarlierStaysMarked(b: seq<Byte>, b': seq<Byte>, b'': seq<Byte>, l: Layout, c: nat, j: nat, d: nat, k: nat)
    requires WellFormed(b, l) && HasSection(b, l, c, j) && HasSection(b, l, d, k) && Before(d, k, c, j)
    requires |b'| == |b| && SectionMarked(b, b', l, d, k) && SameOutside(b', b'', SectionAt(b, l, c, j), l)
    ensures SectionMarked(b, b'', l, d, k)
  {
    SectionInside(b, l, d, k);
    SectionsApart(b, l, d, k, c, j);
    var s := SectionAt(b, l, d, k);
    assert Record(b'', s, l) == Record(b', s, l);
  }

  lemma StillNotReached(b: seq<Byte>, l: Layout, c: nat, j: nat, i: nat)
    requires WellFormed(b, l) && HasSection(b, l, c, j) && !Reached(b, l, c, j + 1, i)
    ensures !InSection(b, l, c, j, i) && !Reached(b, l, c, j, i)
  {
    assert Before(c, j, c, j + 1);
    if d: nat, k: nat :| HasSection(b, l, d, k) && Before(d, k, c, j) && InSection(b, l, d, k, i) {
      assert Before(d, k, c, j + 1);
    }
  }

  /** A command without further sections is done. */
  lemma NextCommand(b: seq<Byte>, b': seq<Byte>, l: Layout, c: nat, j: nat)
    requires WellFormed(b, l) && MarkedUpTo(b, b', l, c, j)
    requires forall k: nat :: HasSection(b, l, c, k) ==> k < j
    ensures MarkedUpTo(b, b', l, c + 1, 0)
  {
    forall i: nat | i < |b| && !Reached(b, l, c + 1, 0, i)
      ensures b'[i] == b[i]
    {
      if d: nat, k: nat :| HasSection(b, l, d, k) && Before(d, k, c, j) && InSection(b, l, d, k, i) {
        assert Before(d, k, c + 1, 0);
      }
    }
  }

  // ------------------------------------------------------------------ the walk over the image

  /** One turn of doseg. */
  method DoNext(a: array<Byte>, s: nat, l: Layout, ghost b: seq<Byte>, ghost c: nat, ghost j: nat)
    requires WellFormed(b, l) && HasSection(b, l, c, j) && s == SectionAt(b, l, c, j)
    requires MarkedUpTo(b, a[..], l, c, j)
    modifies a
    ensures MarkedUpTo(b, a[..], l, c, j + 1)
  {
    ghost var b' := a[..];
    SectionInside(b, l, c, j);
    DoSect(a, s, l);
    assert MarksNext(b, b', a[..], l, c, j);
    MarkOneMore(b, b', a[..], l, c, j);
  }

  /** doseg: the sections of one segment. */
  method DoSeg(a: array<Byte>, p: nat, l: Layout, ghost b: seq<Byte>, ghost c: nat)
    requires WellFormed(b, l) && c < Ncmds(b, l) && p == CommandAt(b, l, c) && CommandOk(b, l, c) && IsSegment(b, l, p)
    requires MarkedUpTo(b, a[..], l, c, 0)
    modifies a
    ensures MarkedUpTo(b, a[..], l, c + 1, 0)
  {
    var i := 0;
    HeadKept(b, a[..], l, c, 0, c);
    while i < Nsects(a[..], l, p)
      invariant i <= Nsects(b, l, p) == Nsects(a[..], l, p)
      invariant MarkedUpTo(b, a[..], l, c, i)
    {
      DoNext(a, p + SegmentSize(l) + Room(l, i), l, b, c, i);
      HeadKept(b, a[..], l, c, i + 1, c);
      i := i + 1;
    }
    NextCommand(b, a[..], l, c, i);
  }

  /** parse_macho of one layout: every load command. The pointer moves on before the
      command is rewritten, and the counts are read again on every turn. */
  method ParseCommands(a: array<Byte>, l: Layout)
    requires WellFormed(a[..], l)
    modifies a
    ensures AllMarked(old(a[..]), a[..], l)
  {
    ghost var b := a[..];
    var cmds := HeaderSize(l);
    var c := 0;
    while c < Ncmds(a[..], l)
      invariant Ncmds(a[..], l) == Ncmds(b, l)
      invariant c <= Ncmds(b, l) && cmds == CommandAt(b, l, c) && MarkedUpTo(b, a[..], l, c, 0)
    {
      cmds := DoCommand(a, cmds, l, b, c);
      NcmdsKept(b, a[..], l, c + 1, 0);
      c := c + 1;
    }
  }

  /** One turn of parse_macho. */
  method DoCommand(a: array<Byte>, cmd: nat, l: Layout, ghost b: seq<Byte>, ghost c: nat) returns (cmds: nat)
    requires WellFormed(b, l) && c < Ncmds(b, l) && cmd == CommandAt(b, l, c) && MarkedUpTo(b, a[..], l, c, 0)
    modifies a
    ensures cmds == CommandAt(b, l, c + 1) && MarkedUpTo(b, a[..], l, c + 1, 0)
  {
    HeadKept(b, a[..], l, c, 0, c);
    cmds := cmd + CommandSize(a[..], l, cmd);
    if IsSegment(a[..], l, cmd) {
      DoSeg(a, cmd, l, b, c);
    } else {
      NextCommand(b, a[..], l, c, 0);
    }
  }

  // ------------------------------------------------------------------ what marking means

  lemma {:induction false} SkeletonKept(b: seq<Byte>, b': seq<Byte>, l: Layout, c: nat)
    requires forall e :: 0 <= e < c ==> HeadAgrees(b, b', l, e)
    ensures CommandAt(b', l, c) == CommandAt(b, l, c)
  {
    if c > 0 {
      SkeletonKept(b, b', l, c - 1);
      assert HeadAgrees(b, b', l, c - 1);
    }
  }

  lemma CommandKept(b: seq<Byte>, b': seq<Byte>, l: Layout, c: nat)
    requires forall e :: 0 <= e <= c ==> HeadAgrees(b, b', l, e)
    ensures CommandAt(b', l, c) == CommandAt(b, l, c) && CommandOk(b', l, c)
  {
    SkeletonKept(b, b', l, c);
    assert HeadAgrees(b, b', l, c);
  }

  /** A marked image is well formed and has the same sections in the same places. */
  lemma MarkedIsWellFormed(b: seq<Byte>, b': seq<Byte>, l: Layout)
    requires WellFormed(b, l) && AllMarked(b, b', l)
    ensures WellFormed(b', l) && Ncmds(b', l) == Ncmds(b, l)
    ensures forall c: nat, j: nat {:trigger HasSection(b', l, c, j)} ::
              HasSection(b', l, c, j) <==> HasSection(b, l, c, j)
    ensures forall c: nat, j: nat :: HasSection(b', l, c, j) ==> SectionAt(b', l, c, j) == SectionAt(b, l, c, j)
  {
    NcmdsKept(b, b', l, Ncmds(b, l), 0);
    forall e | 0 <= e < Ncmds(b, l)
      ensures HeadAgrees(b, b', l, e)
    {
      HeadKept(b, b', l, Ncmds(b, l), 0, e);
    }
    forall c | 0 <= c < Ncmds(b, l)
      ensures CommandOk(b', l, c) && CommandAt(b', l, c) == CommandAt(b, l, c)
    {
      CommandKept(b, b', l, c);
    }
    assert forall c: nat, j: nat :: c < Ncmds(b, l) ==>
        HeadAgrees(b, b', l, c) && (HasSection(b', l, c, j) <==> HasSection(b, l, c, j));
  }

  /** Afterwards no section of a data segment has either old name. */
  lemma NoOldNamesRemain(b: seq<Byte>, b': seq<Byte>, l: Layout, c: nat, j: nat)
    requires WellFormed(b, l) && AllMarked(b, b', l) && WellFormed(b', l) && HasSection(b', l, c, j)
    ensures SectionAt(b', l, c, j) + SectionSize(l) <= |b'|
    ensures !DataNamed(Record(b', SectionAt(b', l, c, j), l), MOD_INIT)
    ensures !DataNamed(Record(b', SectionAt(b', l, c, j), l), MOD_TERM)
  {
    SectionInside(b', l, c, j);
    MarkedIsWellFormed(b, b', l);
    assert Before(c, j, Ncmds(b, l), 0);
    assert SectionMarked(b, b', l, c, j);
    MarkedSection(Record(b, SectionAt(b, l, c, j), l), l);
  }

  /** A byte that changed is in the name or is the type byte of a section with an old
      name. */
  lemma OnlyOldSectionsChange(b: seq<Byte>, b': seq<Byte>, l: Layout, i: nat)
    requires WellFormed(b, l) && AllMarked(b, b', l) && i < |b| && b'[i] != b[i]
    ensures exists c: nat, j: nat :: HasSection(b, l, c, j) && IsRewritten(b, l, SectionAt(b, l, c, j), i)
  {
    var c: nat, j: nat :| HasSection(b, l, c, j) && Before(c, j, Ncmds(b, l), 0) && InSection(b, l, c, j, i);
    SectionInside(b, l, c, j);
    assert SectionMarked(b, b', l, c, j);
    ChangedByte(b, b', SectionAt(b, l, c, j), l, i);
  }

  lemma ChangedByte(b: seq<Byte>, b': seq<Byte>, s: nat, l: Layout, i: nat)
    requires s <= i < s + SectionSize(l) <= |b| == |b'| && Record(b', s, l) == Marked(Record(b, s, l), l)
    requires b'[i] != b[i]
    ensures IsRewritten(b, l, s, i)
  {
    MarkedSection(Record(b, s, l), l);
    assert Record(b', s, l)[i - s] == b'[i] && Record(b, s, l)[i - s] == b[i];
  }

  /** The section at s has an old name, and the byte i is in the name or is the type. */
  ghost predicate IsRewritten(b: seq<Byte>, l: Layout, s: nat, i: nat) {
    && s + SectionSize(l) <= |b| && (s <= i < s + NAME_SIZE || i == s + TypeAt(l))
    && (DataNamed(Record(b, s, l), MOD_INIT) || DataNamed(Record(b, s, l), MOD_TERM))
  }

  // ------------------------------------------------------------------ in letters and numbers

  /** The bytes of letters that are ASCII characters. */
  function Ascii(letters: string): (b: seq<Byte>)
    ensures |b| == |letters| && forall i :: 0 <= i < |b| && letters[i] < 128 as char ==> b[i] == letters[i] as int
  {
    seq(|letters|, i requires 0 <= i < |letters| => letters[i] as int % 256)
  }

  /** The C string in a field of n bytes: its bytes up to the first zero. */
  function CString(b: seq<Byte>, n: nat): seq<Byte>
    requires n <= |b|
  {
    if n == 0 || b[0] == 0 then [] else [b[0]] + CString(b[1..], n - 1)
  }

  lemma {:induction false} SameNameIff(a: seq<Byte>, b: seq<Byte>, n: nat)
    requires n <= |a| && n <= |b|
    ensures SameName(a, b, n) <==> CString(a, n) == CString(b, n)
    decreases n
  {
    if n > 0 && a[0] == b[0] && a[0] != 0 {
      SameNameIff(a[1..], b[1..], n - 1);
      assert CString(a, n)[1..] == CString(a[1..], n - 1) && CString(b, n)[1..] == CString(b[1..], n - 1);
    } else if n > 0 && a[0] != b[0] && a[0] != 0 && b[0] != 0 {
      assert CString(a, n)[0] == a[0] && CString(b, n)[0] == b[0];
    }
  }

  lemma {:induction false} CStringOfLetters(b: seq<Byte>, n: nat, k: nat)
    requires k <= n <= |b| && (forall i :: 0 <= i < k ==> b[i] != 0) && (k < n ==> b[k] == 0)
    ensures CString(b, n) == b[..k]
    decreases n
  {
    if k > 0 {
      CStringOfLetters(b[1..], n - 1, k - 1);
      assert b[..k] == [b[0]] + b[1..][..k - 1];
    }
  }

  lemma {:induction false} CStringPrefix(b: seq<Byte>, n: nat)
    requires n <= |b|
    ensures |CString(b, n)| <= n && CString(b, n) == b[..|CString(b, n)|]
    decreases n
  {
    if n > 0 && b[0] != 0 {
      CStringPrefix(b[1..], n - 1);
      assert CString(b, n) == [b[0]] + b[1..][..|CString(b[1..], n - 1)|];
    }
  }

  /** The record's segment name begins with __DATA, and its section name is that one. */
  ghost predicate IsInitializer(rec: seq<Byte>, name: string)
    requires |rec| >= 2 * NAME_SIZE
  {
    rec[NAME_SIZE..NAME_SIZE + 6] == Ascii("__DATA") && CString(rec, NAME_SIZE) == Ascii(name)
  }

  lemma DataIff(rec: seq<Byte>)
    requires |rec| >= 2 * NAME_SIZE
    ensures SameName(rec[NAME_SIZE..], DATA, |DATA|) <==> rec[NAME_SIZE..NAME_SIZE + 6] == Ascii("__DATA")
  {
    var seg := rec[NAME_SIZE..];
    assert DATA == Ascii("__DATA");
    SameNameIff(seg, DATA, 6);
    CStringOfLetters(DATA, 6, 6);
    CStringPrefix(seg, 6);
    assert seg[..6] == rec[NAME_SIZE..NAME_SIZE + 6] && DATA[..6] == DATA;
    if seg[..6] == DATA {
      assert forall i :: 0 <= i < 6 ==> seg[i] == seg[..6][i];
      CStringOfLetters(seg, 6, 6);
    }
  }

  /** The bytes spell the letters, followed by a zero if there is room. */
  ghost predicate Spells(name: seq<Byte>, letters: string) {
    && |name| == NAME_SIZE && 0 < |letters| <= NAME_SIZE
    && (forall i :: 0 <= i < |letters| ==> 0 as char < letters[i] < 128 as char && name[i] == letters[i] as int)
    && (|letters| < NAME_SIZE ==> name[|letters|] == 0)
  }

  lemma NamesSpelled()
    ensures Spells(MOD_INIT, "__mod_init_func") && Spells(MOD_TERM, "__mod_term_func")
    ensures Spells(OBJC_INIT, "__objc_init_func") && Spells(OBJC_TERM, "__objc_term_func")
  {
  }

  lemma NamedIff(rec: seq<Byte>, name: seq<Byte>, letters: string)
    requires |rec| >= 2 * NAME_SIZE && Spells(name, letters)
    ensures DataNamed(rec, name) <==> IsInitializer(rec, letters)
  {
    DataIff(rec);
    SameNameIff(rec, name, NAME_SIZE);
    CStringOfLetters(name, NAME_SIZE, |letters|);
    assert name[..|letters|] == Ascii(letters);
  }

  /** The section at s has the new name in b', no type, and is otherwise as in b. */
  ghost predicate IsDisabled(b: seq<Byte>, b': seq<Byte>, s: nat, name: string, l: Layout)
    requires s + SectionSize(l) <= |b| == |b'|
  {
    && b'[s..s + NAME_SIZE] == Ascii(name)
    && Get32(b', s + FlagsAt(l), l.big) % 256 == 0
    && Get32(b', s + FlagsAt(l), l.big) / 256 == Get32(b, s + FlagsAt(l), l.big) / 256
    && forall i :: s + NAME_SIZE <= i < s + SectionSize(l) && !(s + FlagsAt(l) <= i < s + FlagsAt(l) + 4) ==>
                     b'[i] == b[i]
  }

  lemma RenamedIsDisabled(b: seq<Byte>, b': seq<Byte>, s: nat, name: seq<Byte>, letters: string, l: Layout)
    requires s + SectionSize(l) <= |b| == |b'| && Spells(name, letters) && |letters| == NAME_SIZE
    requires Record(b', s, l) == Renamed(Record(b, s, l), name, l)
    ensures IsDisabled(b, b', s, letters, l)
  {
    var r, r' := Record(b, s, l), Record(b', s, l);
    assert forall i :: 0 <= i < |r| ==> r[i] == b[s + i] && r'[i] == b'[s + i];
    forall i | 0 <= i < NAME_SIZE
      ensures b'[s..s + NAME_SIZE][i] == Ascii(letters)[i]
    {
      assert r'[i] == name[i];
    }
    assert forall i :: NAME_SIZE <= i < |r| ==> r'[i] == if i == TypeAt(l) then 0 else r[i];
    assert forall i :: s + NAME_SIZE <= i < s + SectionSize(l) ==> b'[i] == r'[i - s] && b[i] == r[i - s];
    FlagsCleared(b, b', s + FlagsAt(l), l.big);
  }

  lemma FlagsCleared(b: seq<Byte>, b': seq<Byte>, at: nat, big: bool)
    requires at + 4 <= |b| == |b'|
    requires forall i :: at <= i < at + 4 ==> b'[i] == if i == at + (if big then 3 else 0) then 0 else b[i]
    ensures Get32(b', at, big) % 256 == 0 && Get32(b', at, big) / 256 == Get32(b, at, big) / 256
  {
    WordCleared(b[at], b[at + 1], b[at + 2], b[at + 3], big);
    CutToBytes(Get32(b, at, big), Get32(b', at, big));
  }

  lemma CutToBytes(word: nat, cut: nat)
    requires cut == word / 256 * 256
    ensures cut % 256 == 0 && cut / 256 == word / 256
  {
  }

  /** The section at s came out right: one that holds initializers is named
      __objc_init_func, one that holds terminators __objc_term_func, both are ordinary
      sections with the other bits of their flags kept, and any other is as it was. */
  ghost predicate IsRight(b: seq<Byte>, b': seq<Byte>, s: nat, l: Layout)
    requires s + SectionSize(l) <= |b| == |b'|
  {
    var rec := b[s..s + SectionSize(l)];
    if IsInitializer(rec, "__mod_init_func") then IsDisabled(b, b', s, "__objc_init_func", l)
    else if IsInitializer(rec, "__mod_term_func") then IsDisabled(b, b', s, "__objc_term_func", l)
    else b'[s..s + SectionSize(l)] == rec
  }

  /** So every section of an image comes out right. */
  lemma SectionsRenamed(b: seq<Byte>, b': seq<Byte>, l: Layout, c: nat, j: nat)
    requires WellFormed(b, l) && AllMarked(b, b', l) && HasSection(b, l, c, j)
    ensures |b'| == |b| && SectionAt(b, l, c, j) + SectionSize(l) <= |b|
    ensures IsRight(b, b', SectionAt(b, l, c, j), l)
  {
    var s := SectionAt(b, l, c, j);
    SectionInside(b, l, c, j);
    assert Before(c, j, Ncmds(b, l), 0);
    assert SectionMarked(b, b', l, c, j);
    RecordRenamed(b, b', s, l);
  }

  lemma RecordRenamed(b: seq<Byte>, b': seq<Byte>, s: nat, l: Layout)
    requires s + SectionSize(l) <= |b| == |b'| && Record(b', s, l) == Marked(Record(b, s, l), l)
    ensures IsRight(b, b', s, l)
  {
    hide Spells, IsInitializer, IsDisabled, DataNamed, Renamed;
    var rec := Record(b, s, l);
    NamesSpelled();
    NamedIff(rec, MOD_INIT, "__mod_init_func");
    NamedIff(rec, MOD_TERM, "__mod_term_func");
    if DataNamed(rec, MOD_INIT) {
      RenamedIsDisabled(b, b', s, OBJC_INIT, "__objc_init_func", l);
    } else if DataNamed(rec, MOD_TERM) {
      RenamedIsDisabled(b, b', s, OBJC_TERM, "__objc_term_func", l);
    }
  }

  /** Marking a marked image changes nothing. */
  lemma MarkingIsIdempotent(b: seq<Byte>, b': seq<Byte>, b'': seq<Byte>, l: Layout)
    requires WellFormed(b, l) && AllMarked(b, b', l) && WellFormed(b', l) && AllMarked(b', b'', l)
    ensures b'' == b'
  {
    forall i: nat | i < |b'|
      ensures b''[i] == b'[i]
    {
      if b''[i] != b'[i] {
        OnlyOldSectionsChange(b', b'', l, i);
        var c: nat, j: nat :| HasSection(b', l, c, j) && IsRewritten(b', l, SectionAt(b', l, c, j), i);
        NoOldNamesRemain(b, b', l, c, j);
      }
    }
  }

  // ------------------------------------------------------------------ parse_macho

  const MH_MAGIC: nat := 0xfeedface
  const MH_MAGIC_64: nat := 0xfeedfacf
  const MH_CIGAM: nat := 0xcefaedfe
  const MH_CIGAM_64: nat := 0xcffaedfe

  /** The layout that the magic number stands for, read in the host's byte order. */
  function LayoutOf(b: seq<Byte>, hostBig: bool): Option<Layout>
    requires |b| >= 4
  {
    var magic := Get32(b, 0, hostBig);
    if magic == MH_MAGIC_64 then Some(Layout(hostBig, true))
    else if magic == MH_MAGIC then Some(Layout(hostBig, false))
    else if magic == MH_CIGAM_64 then Some(Layout(!hostBig, true))
    else if magic == MH_CIGAM then Some(Layout(!hostBig, false))
    else None
  }

  /** A file's magic number is one and the same layout on hosts of both byte orders. */
  lemma LayoutIsTheFilesOwn(b: seq<Byte>)
    requires |b| >= 4
    ensures LayoutOf(b, true) == LayoutOf(b, false)
  {
    SwappedWord(b, 0xfe, 0xed, 0xfa, 0xce);
    SwappedWord(b, 0xfe, 0xed, 0xfa, 0xcf);
    SwappedWord(b, 0xce, 0xfa, 0xed, 0xfe);
    SwappedWord(b, 0xcf, 0xfa, 0xed, 0xfe);
  }

  /** It is the one layout in which the file's first word is the magic number of its word
      size, and a file that reads as neither in any order has none. */
  lemma LayoutReadsMagic(b: seq<Byte>, hostBig: bool, l: Layout)
    requires |b| >= 4
    ensures LayoutOf(b, hostBig) == Some(l) <==> Get32(b, 0, l.big) == if l.wide then MH_MAGIC_64 else MH_MAGIC
  {
    LayoutIsTheFilesOwn(b);
    SwappedWord(b, 0xfe, 0xed, 0xfa, 0xce);
    SwappedWord(b, 0xfe, 0xed, 0xfa, 0xcf);
    SwappedWord(b, 0xce, 0xfa, 0xed, 0xfe);
    SwappedWord(b, 0xcf, 0xfa, 0xed, 0xfe);
    if Get32(b, 0, true) == MH_MAGIC || Get32(b, 0, true) == MH_MAGIC_64 {
      OneMagicOnly(b);
    }
    if Get32(b, 0, false) == MH_MAGIC || Get32(b, 0, false) == MH_MAGIC_64 {
      OneMagicOnly(b);
    }
  }

  lemma OneMagicOnly(b: seq<Byte>)
    requires |b| >= 4
    ensures !(Get32(b, 0, true) in {MH_MAGIC, MH_MAGIC_64} && Get32(b, 0, false) in {MH_MAGIC, MH_MAGIC_64})
  {
  }

  /** parse_macho: rewrites an image of any of the four layouts, and no other file. */
  method ParseMacho(a: array<Byte>, hostBig: bool) returns (ok: bool)
    requires a.Length >= 4
    requires LayoutOf(a[..], hostBig).Some? ==> WellFormed(a[..], LayoutOf(a[..], hostBig).value)
    modifies a
    ensures ok <==> LayoutOf(old(a[..]), hostBig).Some?
    ensures !ok ==> a[..] == old(a[..])
    ensures ok ==>
              && AllMarked(old(a[..]), a[..], LayoutOf(old(a[..]), hostBig).value)
              && LayoutOf(a[..], hostBig) == LayoutOf(old(a[..]), hostBig)
  {
    var layout := LayoutOf(a[..], hostBig);
    if layout.None? {
      return false;
    }
    ghost var b := a[..];
    ParseCommands(a, layout.value);
    NcmdsKept(b, a[..], layout.value, Ncmds(b, layout.value), 0);
    assert forall i :: 0 <= i < 4 ==> a[..][i] == a[..][..HeaderSize(layout.value)][i];
    assert forall i :: 0 <= i < 4 ==> b[i] == b[..HeaderSize(layout.value)][i];
    return true;
  }
}
