/** The nonpointer isa word: its bit-field view, the word itself, and the carry
    arithmetic that the retain and release paths do on the word.

    The three hardware layouts put the same four fields at the top of the word,
    from the most significant bit down: extra_rc, has_sidetable_rc, deallocating,
    and then everything else. */
module IsaWord {
  import opened Bits

  /** The bit-field view of the word. `low` is every bit below `deallocating`
      (nonpointer, has_assoc, has_cxx_dtor, the class, magic, weakly_referenced). */
  datatype Isa = Isa(low: nat, deallocating: bool, hasSidetableRc: bool, extraRc: nat)

  /** `flagUnit` is the weight of the deallocating bit and `half` is RC_HALF. */
  datatype Layout = Layout(flagUnit: nat, half: nat) {
    ghost predicate Valid() { flagUnit > 0 && half >= 2 }

    function RcOne(): nat { 4 * flagUnit }

    function ExtraRcLimit(): nat { 2 * half }

    /** Two to the number of bits in the word. */
    function WordSize(): nat { RcOne() * ExtraRcLimit() }
  }

  const PACKED_ARM64 := Layout(0x800_0000_0000, 0x4_0000)
  const PACKED_X86_64 := Layout(0x40_0000_0000_0000, 0x80)
  const INDEXED := Layout(0x80_0000, 0x40)

  /** With so many bits below `deallocating` and in extra_rc: RC_ONE is the weight of the
      lowest bit of extra_rc, RC_HALF half its range, and the fields fill the word. */
  lemma LayoutOfWidths(l: Layout, low: nat, extra: nat)
    requires l.flagUnit == Pow2(low) && extra >= 2 && l.half == Pow2(extra - 1)
    ensures l.Valid() && l.RcOne() == Pow2(low + 2) && l.ExtraRcLimit() == Pow2(extra)
    ensures l.WordSize() == Pow2(low + 2 + extra)
  {
    assert Pow2(2) == 4 && Pow2(1) == 2;
    Pow2Add(low, 2);
    Pow2Add(low + 2, extra);
    Pow2Monotone(1, extra - 1);
  }

  lemma FieldWeights()
    ensures Pow2(6) == 0x40 && Pow2(7) == 0x80 && Pow2(18) == 0x4_0000
    ensures Pow2(23) == 0x80_0000 && Pow2(43) == 0x800_0000_0000 && Pow2(54) == 0x40_0000_0000_0000
  {
    WordSizes();
    assert Pow2(11) == 0x800;
    Pow2Add(11, 7);
    Pow2Add(11, 11);
    Pow2Add(32, 11);
    Pow2Add(32, 22);
  }

  /** The hardware layouts fill a 64-bit or a 32-bit word exactly, with the widths that
      the bit fields declare and the shifts that RC_ONE and RC_HALF use. */
  lemma HardwareLayouts()
    ensures var l := PACKED_ARM64;
            && l.Valid() && l.flagUnit == Pow2(1 + 1 + 1 + 33 + 6 + 1) && l.ExtraRcLimit() == Pow2(19)
            && l.RcOne() == Pow2(45) && l.half == Pow2(18) && l.WordSize() == WORD64
    ensures var l := PACKED_X86_64;
            && l.Valid() && l.flagUnit == Pow2(1 + 1 + 1 + 44 + 6 + 1) && l.ExtraRcLimit() == Pow2(8)
            && l.RcOne() == Pow2(56) && l.half == Pow2(7) && l.WordSize() == WORD64
    ensures var l := INDEXED;
            && l.Valid() && l.flagUnit == Pow2(1 + 1 + 15 + 4 + 1 + 1) && l.ExtraRcLimit() == Pow2(7)
            && l.RcOne() == Pow2(25) && l.half == Pow2(6) && l.WordSize() == WORD32
  {
    WordSizes();
    FieldWeights();
    LayoutOfWidths(PACKED_ARM64, 43, 19);
    LayoutOfWidths(PACKED_X86_64, 54, 8);
    LayoutOfWidths(INDEXED, 23, 7);
  }

  ghost predicate InRange(l: Layout, i: Isa) {
    i.low < l.flagUnit && i.extraRc < l.ExtraRcLimit()
  }

  function Bit(b: bool): nat { if b then 1 else 0 }

  /** The word that holds the fields. */
  function Encode(l: Layout, i: Isa): nat {
    i.low + l.flagUnit * Bit(i.deallocating) + 2 * l.flagUnit * Bit(i.hasSidetableRc)
    + l.RcOne() * i.extraRc
  }

  /** `addc` and `subc` without a carry in: the wrapped result and the carry out. */
  function Addc(l: Layout, lhs: nat, rhs: nat): (nat, bool)
    requires l.Valid()
  {
    ((lhs + rhs) % l.WordSize(), lhs + rhs >= l.WordSize())
  }

  function Subc(l: Layout, lhs: nat, rhs: nat): (int, bool)
    requires l.Valid()
  {
    ((lhs - rhs) % l.WordSize(), lhs < rhs)
  }

  lemma EncodeBelowRcOne(l: Layout, i: Isa)
    requires l.Valid() && InRange(l, i)
    ensures l.RcOne() * i.extraRc <= Encode(l, i) < l.RcOne() * (i.extraRc + 1) <= l.WordSize()
  {
    MulMonotone(l.RcOne(), i.extraRc + 1, l.ExtraRcLimit());
  }

  /** Moving extra_rc by k moves the word by k * RC_ONE. */
  lemma EncodeShift(l: Layout, i: Isa, j: Isa, k: nat)
    requires j == i.(extraRc := i.extraRc + k)
    ensures Encode(l, j) == Encode(l, i) + k * l.RcOne()
  {
    MulDistributes(l.RcOne(), i.extraRc, k);
  }

  /** Adding k * RC_ONE to the word carries out exactly when extra_rc overflows, and
      otherwise adds k to extra_rc and changes no other field. */
  lemma AddcAddsToExtraRc(l: Layout, i: Isa, k: nat)
    requires l.Valid() && InRange(l, i)
    ensures Addc(l, Encode(l, i), k * l.RcOne()).1 <==> i.extraRc + k >= l.ExtraRcLimit()
    ensures i.extraRc + k < l.ExtraRcLimit() ==>
              Addc(l, Encode(l, i), k * l.RcOne()).0 == Encode(l, i.(extraRc := i.extraRc + k))
  {
    var j := i.(extraRc := i.extraRc + k);
    var word, one, size := Encode(l, i), l.RcOne(), l.WordSize();
    assert Encode(l, j) == word + k * one by { EncodeShift(l, i, j, k); }
    if i.extraRc + k >= l.ExtraRcLimit() {
      assert word + k * one >= size by {
        EncodeBelowRcOne(l, i);
        MulDistributes(one, i.extraRc, k);
        MulMonotone(one, l.ExtraRcLimit(), i.extraRc + k);
      }
    } else {
      assert Encode(l, j) < size by { EncodeBelowRcOne(l, j); }
      SmallMod(Encode(l, j), size);
    }
  }

  /** Subtracting RC_ONE from the word borrows exactly when extra_rc is zero, and
      otherwise subtracts one from extra_rc and changes no other field. */
  lemma SubcTakesFromExtraRc(l: Layout, i: Isa)
    requires l.Valid() && InRange(l, i)
    ensures Subc(l, Encode(l, i), l.RcOne()).1 <==> i.extraRc == 0
    ensures i.extraRc > 0 ==>
              Subc(l, Encode(l, i), l.RcOne()).0 == Encode(l, i.(extraRc := i.extraRc - 1))
  {
    var word, one, size := Encode(l, i), l.RcOne(), l.WordSize();
    if i.extraRc == 0 {
      assert word < one by { EncodeBelowRcOne(l, i); }
    } else {
      var j := i.(extraRc := i.extraRc - 1);
      assert word == Encode(l, j) + one by { EncodeShift(l, j, i, 1); }
      assert Encode(l, j) < size by { EncodeBelowRcOne(l, j); }
      SmallMod(Encode(l, j), size);
    }
  }

  /** Adding k * RC_ONE to the word of `i` carries out. */
  ghost predicate Carries(l: Layout, i: Isa, k: nat)
    requires l.Valid()
  {
    Addc(l, Encode(l, i), k * l.RcOne()).1
  }

  /** Adding k * RC_ONE to the word of `i` gives the word of `j`, without a carry. */
  ghost predicate AddsToWord(l: Layout, i: Isa, j: Isa, k: nat)
    requires l.Valid()
  {
    Addc(l, Encode(l, i), k * l.RcOne()) == (Encode(l, j), false)
  }

  ghost predicate Borrows(l: Layout, i: Isa)
    requires l.Valid()
  {
    Subc(l, Encode(l, i), l.RcOne()).1
  }

  /** Subtracting RC_ONE from the word of `i` gives the word of `j`, without a borrow. */
  ghost predicate SubtractsFromWord(l: Layout, i: Isa, j: Isa)
    requires l.Valid()
  {
    Subc(l, Encode(l, i), l.RcOne()) == (Encode(l, j), false)
  }

  lemma AddcIsExtraRc(l: Layout, i: Isa, k: nat)
    requires l.Valid() && InRange(l, i)
    ensures Carries(l, i, k) <==> i.extraRc + k >= l.ExtraRcLimit()
    ensures i.extraRc + k < l.ExtraRcLimit() ==> AddsToWord(l, i, i.(extraRc := i.extraRc + k), k)
  {
    AddcAddsToExtraRc(l, i, k);
  }

  lemma SubcIsExtraRc(l: Layout, i: Isa)
    requires l.Valid() && InRange(l, i)
    ensures Borrows(l, i) <==> i.extraRc == 0
    ensures i.extraRc > 0 ==> SubtractsFromWord(l, i, i.(extraRc := i.extraRc - 1))
  {
    SubcTakesFromExtraRc(l, i);
  }

  /** Two field views with the same word are equal, so comparing words, as a
      store-exclusive does, compares all fields. */
  lemma EncodeInjective(l: Layout, i: Isa, j: Isa)
    requires l.Valid() && InRange(l, i) && InRange(l, j)
    requires Encode(l, i) == Encode(l, j)
    ensures i == j
  {
    EncodeBelowRcOne(l, i);
    EncodeBelowRcOne(l, j);
    if i.extraRc < j.extraRc {
      MulMonotone(l.RcOne(), i.extraRc + 1, j.extraRc);
    } else if j.extraRc < i.extraRc {
      MulMonotone(l.RcOne(), j.extraRc + 1, i.extraRc);
    }
  }
}
