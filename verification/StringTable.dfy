/** The precomputed string table: written with a perfect hash of its strings, and read
    back through the same hash. */
module StringTable {
  import opened Bits
  import opened KeyBuckets
  import opened Scramble
  import opened HashHeader
  import opened Wrappers
  import MakePerfect

  /** A string and its address. */
  datatype Entry = Entry(name: Str, address: nat)

  /** The C string found at each distance from the table, in the writer's and in every
      reader's view of the image. */
  type Image = int -> Str

  datatype WriteError =
    | SectionTooSmall
    | HashFailed
    | HashNotFinished
    | OffsetTooBig
    | ClassListBusted
    | ClassOffsetTooBig
    | HeaderOffsetTooBig

  const HEADER_SIZE: nat := 1056

  // ------------------------------------------------------------------ offsets

  /** The difference of two addresses, as a signed 64-bit word. */
  function Offset(address: nat, base: nat): (offset: int) {
    var d := (address as int - base) % WORD64;
    if d < WORD64 / 2 then d else d - WORD64
  }

  predicate FitsOffset(offset: int) {
    -0x8000_0000 <= offset < 0x8000_0000
  }

  /** An offset from the table leads back to the address it was computed from. */
  lemma OffsetLeadsBack(address: nat, base: nat)
    requires address < WORD64 && base < WORD64
    ensures (base + Offset(address, base)) % WORD64 == address
    ensures Offset(address, base) == 0 <==> address == base
  {
    var d := (address as int - base) % WORD64;
    if address >= base {
      DivModUnique(address - base, WORD64, 0, address - base);
      DivModUnique(address, WORD64, 0, address);
      DivModUnique(address - WORD64, WORD64, -1, address);
    } else {
      DivModUnique(address - base, WORD64, -1, address - base + WORD64);
      DivModUnique(address, WORD64, 0, address);
      DivModUnique(address + WORD64, WORD64, 1, address);
    }
  }

  ghost predicate OffsetsFit(strings: seq<Entry>, n: nat, base: nat)
    requires n <= |strings|
  {
    forall i :: 0 <= i < n ==> FitsOffset(Offset(strings[i].address, base))
  }

  function Names(strings: seq<Entry>): (names: seq<Str>)
    ensures |names| == |strings|
    ensures forall i :: 0 <= i < |strings| ==> names[i] == strings[i].name
  {
    seq(|strings|, i requires 0 <= i < |strings| => strings[i].name)
  }

  /** The image holds every string where its address says. */
  ghost predicate Present(image: Image, strings: seq<Entry>, base: nat) {
    forall i {:trigger PresentAt(image, strings[i], base)} :: 0 <= i < |strings| ==> PresentAt(image, strings[i], base)
  }

  ghost predicate PresentAt(image: Image, s: Entry, base: nat) {
    image(Offset(s.address, base)) == s.name
  }

  /** checkbyte: a byte that rejects most strings without looking at the image. */
  function CheckByte(key: Str): nat {
    var first := if key == [] then 0 else key[0];
    Or(And(first, 7) * 32, And(|key| % 256, 31)) % 256
  }

  /** It is three bits of the first character above five of the length. */
  lemma CheckByteIs(key: Str)
    ensures CheckByte(key) < 256 && CheckByte(key) % 32 == |key| % 32
    ensures CheckByte(key) / 32 == if key == [] then 0 else key[0] % 8
  {
    var first := if key == [] then 0 else key[0];
    LowBits(first, |key|);
    JoinedBits(first % 8, |key| % 32);
  }

  lemma LowBits(first: nat, length: nat)
    ensures And(first, 7) == first % 8 && And(length % 256, 31) == length % 32
  {
    assert Pow2(3) == 8 && Pow2(5) == 32;
    AndMask(first, 3);
    AndMask(length % 256, 5);
    ModOfProduct(length, 32, 8);
  }

  lemma JoinedBits(high: nat, low: nat)
    requires high < 8 && low < 32
    ensures var byte := Or(high * 32, low) % 256;
            byte < 256 && byte % 32 == low && byte / 32 == high
  {
    assert Pow2(5) == 32;
    OrBelow(high, low, 5);
    SmallMod(high * 32 + low, 256);
    DivModUnique(high * 32 + low, 32, high, low);
  }

  /** The string is one of them, and not stored at the table's own address. */
  ghost predicate Findable(strings: seq<Entry>, base: nat, name: Str) {
    exists i :: 0 <= i < |strings| && strings[i].name == name && Offset(strings[i].address, base) != 0
  }

  // ------------------------------------------------------------------ what the slots hold

  /** The string is at its slot. */
  ghost predicate Stored(h: PerfectHash, offsets: seq<int>, checkbytes: seq<nat>, s: Entry, base: nat, lookup: Lookup)
    requires WellFormed(h)
  {
    var slot := Hash(h, lookup, s.name);
    && slot < |offsets| == |checkbytes|
    && offsets[slot] == Offset(s.address, base) && checkbytes[slot] == CheckByte(s.name)
  }

  /** The slot is that of one of the first n strings. */
  ghost predicate IsSlotOf(h: PerfectHash, strings: seq<Entry>, n: nat, slot: nat, lookup: Lookup)
    requires WellFormed(h) && n <= |strings|
  {
    exists i :: 0 <= i < n && Hash(h, lookup, strings[i].name) == slot
  }

  /** The first n strings are at their slots, and the other slots are clear. */
  ghost predicate Placed(h: PerfectHash, offsets: seq<int>, checkbytes: seq<nat>, strings: seq<Entry>, n: nat,
                         base: nat, lookup: Lookup)
    requires WellFormed(h) && n <= |strings|
  {
    && (forall i {:trigger Stored(h, offsets, checkbytes, strings[i], base, lookup)} ::
          0 <= i < n ==> Stored(h, offsets, checkbytes, strings[i], base, lookup))
    && (forall slot {:trigger IsSlotOf(h, strings, n, slot, lookup)} ::
          0 <= slot < |offsets| && offsets[slot] != 0 ==> IsSlotOf(h, strings, n, slot, lookup))
  }

  /** Placing one more string disturbs none of those placed before. */
  lemma PlaceOneMore(h: PerfectHash, offsets: seq<int>, checkbytes: seq<nat>, strings: seq<Entry>, n: nat,
                     base: nat, lookup: Lookup)
    requires PerfectFor(h, lookup, Names(strings)) && n < |strings| && |offsets| == |checkbytes| == h.capacity
    requires Placed(h, offsets, checkbytes, strings, n, base, lookup)
    ensures var slot := Hash(h, lookup, strings[n].name);
            && slot < h.capacity
            && Placed(h, offsets[slot := Offset(strings[n].address, base)],
                      checkbytes[slot := CheckByte(strings[n].name)], strings, n + 1, base, lookup)
  {
    HashInBounds(h, lookup, strings[n].name);
    var slot := Hash(h, lookup, strings[n].name);
    var offsets' := offsets[slot := Offset(strings[n].address, base)];
    var checkbytes' := checkbytes[slot := CheckByte(strings[n].name)];
    forall i | 0 <= i < n + 1
      ensures Stored(h, offsets', checkbytes', strings[i], base, lookup)
    {
      if i < n {
        assert Stored(h, offsets, checkbytes, strings[i], base, lookup);
        SlotsDiffer(h, strings, i, n, lookup);
      }
    }
    forall s | 0 <= s < |offsets'| && offsets'[s] != 0
      ensures IsSlotOf(h, strings, n + 1, s, lookup)
    {
      if s != slot {
        assert IsSlotOf(h, strings, n, s, lookup);
      }
    }
  }

  lemma SlotsDiffer(h: PerfectHash, strings: seq<Entry>, i: nat, j: nat, lookup: Lookup)
    requires PerfectFor(h, lookup, Names(strings)) && i < |strings| && j < |strings| && i != j
    ensures Hash(h, lookup, strings[i].name) != Hash(h, lookup, strings[j].name)
  {
    assert Names(strings)[i] == strings[i].name && Names(strings)[j] == strings[j].name;
  }

  /** The header has the dimensions of the first hash that the search comes to, or none if
      there are no strings. */
  ghost predicate Dimensioned(header: PerfectHash, strings: seq<Entry>, lookup: Lookup) {
    if strings == [] then header.capacity == header.mask == 0
    else exists h ::
      MakePerfect.FirstHash(h, Names(strings), lookup) && header.capacity == h.capacity && header.mask == h.mask
  }

  // ------------------------------------------------------------------ the table

  class Table {
    var header: PerfectHash
    var checkbytes: seq<nat>
    var offsets: seq<int>

    constructor ()
    {
      header := PerfectHash(0, 0, 0, 0, 0, [], []);
      checkbytes, offsets := [], [];
    }

    /** What a reader needs in order to stay in bounds for every key. */
    ghost predicate Valid()
      reads this
    {
      WellFormed(header) && header.shift < 64 && |checkbytes| == |offsets| == header.capacity
    }

    function Size(): nat
      reads this
    {
      HEADER_SIZE + header.mask + 1 + header.capacity + 4 * header.capacity
    }

    /** The size is that of the header's words, its scramble table and the three arrays
        behind it, so a section of that size holds them all. */
    lemma SizeOfParts()
      requires Valid()
      ensures Size() == 6 * 4 + 8 + 4 * |header.scramble| + |header.tab| + |checkbytes| + 4 * |offsets|
    {
      var m: nat, a: nat, k: nat :| Shape(header, m, a, k);
    }

    /** getIndex: the slot of a string, unless the check byte, the offset or the string
        stored there says that it is not in the table. */
    function GetIndex(key: Str, image: Image, lookup: Lookup): (index: Option<nat>)
      requires Valid()
      reads this
      ensures index.Some? ==>
                && index.value == Hash(header, lookup, key) < header.capacity
                && offsets[index.value] != 0 && image(offsets[index.value]) == key
    {
      HashInBounds(header, lookup, key);
      var h := Hash(header, lookup, key);
      if checkbytes[h] != CheckByte(key) then None
      else if offsets[h] == 0 then None
      else if image(offsets[h]) != key then None
      else Some(h)
    }

    /** objc_selopt_t::get: the offset of the table's own copy of a string. */
    function Get(key: Str, image: Image, lookup: Lookup): Option<int>
      requires Valid()
      reads this
    {
      match GetIndex(key, image, lookup)
      case None => None
      case Some(h) => Some(offsets[h])
    }

    /** The first n strings are at their slots and the other slots are clear. */
    ghost predicate Holds(strings: seq<Entry>, n: nat, base: nat, lookup: Lookup)
      requires n <= |strings|
      reads this
    {
      && Valid() && PerfectFor(header, lookup, Names(strings))
      && Placed(header, offsets, checkbytes, strings, n, base, lookup)
    }

    /** A table that was written reads back as the set of its strings: a string is found
        exactly when it is one of them and is not stored at the table's own address. The
        slot found is its own, and so is the offset there. */
    lemma ReadsBack(strings: seq<Entry>, base: nat, key: Str, image: Image, lookup: Lookup)
      requires Holds(strings, |strings|, base, lookup) && Present(image, strings, base)
      ensures GetIndex(key, image, lookup).Some? <==> Findable(strings, base, key)
      ensures GetIndex(key, image, lookup).Some? ==> GetIndex(key, image, lookup).value == Hash(header, lookup, key)
      ensures forall i :: 0 <= i < |strings| && strings[i].name == key && Offset(strings[i].address, base) != 0 ==>
                Get(key, image, lookup) == Some(Offset(strings[i].address, base))
    {
      HashInBounds(header, lookup, key);
      var h := Hash(header, lookup, key);
      forall i | 0 <= i < |strings| && strings[i].name == key && Offset(strings[i].address, base) != 0
        ensures GetIndex(key, image, lookup) == Some(h) && offsets[h] == Offset(strings[i].address, base)
      {
        assert Stored(header, offsets, checkbytes, strings[i], base, lookup) && PresentAt(image, strings[i], base);
      }
      if GetIndex(key, image, lookup).Some? {
        assert IsSlotOf(header, strings, |strings|, h, lookup);
        var i :| 0 <= i < |strings| && Hash(header, lookup, strings[i].name) == h;
        assert Stored(header, offsets, checkbytes, strings[i], base, lookup) && PresentAt(image, strings[i], base);
      }
    }

    /** write: an empty table is a zero header; any other gets a perfect hash, and then
        every string its slot. */
    method Write(base: nat, remaining: nat, strings: seq<Entry>, lookup: Lookup, fuel: nat)
      returns (err: Option<WriteError>)
      requires |strings| != 1 && |strings| <= 0x4000_0000
      modifies this
      ensures remaining < HEADER_SIZE ==>
                err == Some(SectionTooSmall) && header == old(header) && offsets == old(offsets)
      ensures err == Some(SectionTooSmall) ==>
                remaining < HEADER_SIZE || (remaining < Size() && Dimensioned(header, strings, lookup))
      ensures err.None? && strings != [] ==> Holds(strings, |strings|, base, lookup) && Size() <= remaining
      ensures err.None? && strings == [] ==> header.capacity == header.mask == header.occupied == 0
      ensures err.None? ==> OffsetsFit(strings, |strings|, base)
      ensures err == Some(OffsetTooBig) ==> !OffsetsFit(strings, |strings|, base)
      ensures err.None? && strings != [] ==> MakePerfect.FirstHash(header, Names(strings), lookup)
      ensures err == Some(HashFailed) ==> MakePerfect.NoHash(Names(strings), lookup)
      ensures err == Some(HashNotFinished) ==> MakePerfect.Unfinished(Names(strings), lookup, fuel)
      ensures err == None || err.value in {SectionTooSmall, HashFailed, HashNotFinished, OffsetTooBig}
    {
      hide MakePerfect.FirstHash, MakePerfect.NoHash, MakePerfect.Unfinished;
      if HEADER_SIZE > remaining {
        return Some(SectionTooSmall);
      }
      if |strings| == 0 {
        header := PerfectHash(0, 0, 0, 0, 0, seq(256, _ => 0), header.tab);
        return None;
      }
      var outcome, phash := MakePerfect.MakePerfect(Names(strings), lookup, fuel);
      if outcome.OutOfFuel? {
        return Some(HashNotFinished);
      }
      if outcome.GaveUp? {
        return Some(HashFailed);
      }
      header := phash.(scramble := header.scramble, tab := header.tab);
      if Size() > remaining {
        return Some(SectionTooSmall);
      }
      header := header.(scramble := phash.scramble, tab := phash.tab);
      assert header == phash;
      offsets := seq(header.capacity, _ => 0);
      checkbytes := seq(header.capacity, _ => 0);
      err := PlaceStrings(base, strings, lookup);
    }

    /** The last loop of write: the real offsets and check bytes. */
    method PlaceStrings(base: nat, strings: seq<Entry>, lookup: Lookup) returns (err: Option<WriteError>)
      requires Holds(strings, 0, base, lookup)
      modifies this`offsets, this`checkbytes
      ensures err.None? ==> Holds(strings, |strings|, base, lookup)
      ensures err.None? ==> OffsetsFit(strings, |strings|, base)
      ensures err.Some? ==> err == Some(OffsetTooBig) && !OffsetsFit(strings, |strings|, base)
    {
      var i := 0;
      while i < |strings|
        invariant i <= |strings| && Holds(strings, i, base, lookup)
        invariant OffsetsFit(strings, i, base)
      {
        var offset := Offset(strings[i].address, base);
        if !FitsOffset(offset) {
          return Some(OffsetTooBig);
        }
        PlaceOne(base, strings, i, lookup);
        i := i + 1;
      }
      return None;
    }

    method PlaceOne(base: nat, strings: seq<Entry>, i: nat, lookup: Lookup)
      requires i < |strings| && Holds(strings, i, base, lookup)
      modifies this`offsets, this`checkbytes
      ensures Holds(strings, i + 1, base, lookup)
    {
      PlaceOneMore(header, offsets, checkbytes, strings, i, base, lookup);
      var h := Hash(header, lookup, strings[i].name);
      offsets := offsets[h := Offset(strings[i].address, base)];
      checkbytes := checkbytes[h := CheckByte(strings[i].name)];
    }
  }
}
