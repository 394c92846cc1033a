/** The 32-bit sizing arithmetic of llvm-MathExtras.h. */
module MathExtras {
  import opened Bits

  // ------------------------------------------------------------------ smearing

  /** The word after the first j smearing steps: each step ors in the word shifted
      right by the next of 1, 2, 4, 8, 16. */
  function Smear(x: nat, j: nat): nat {
    if j == 0 then x else Or(Smear(x, j - 1), Shr(Smear(x, j - 1), Pow2(j - 1)))
  }

  lemma {:induction false} SmearShr(x: nat, j: nat, n: nat)
    ensures Shr(Smear(x, j), n) == Smear(Shr(x, n), j)
  {
    if j > 0 {
      SmearShr(x, j - 1, n);
      var y, m := Smear(x, j - 1), Pow2(j - 1);
      OrShr(y, Shr(y, m), n);
      ShrShr(y, m, n);
      ShrShr(y, n, m);
    }
  }

  lemma {:induction false} LowBitsSplit(x: nat, m: nat, n: nat)
    ensures LowBitsClear(x, m + n) <==> LowBitsClear(x, m) && LowBitsClear(Shr(x, m), n)
  {
    if m > 0 {
      LowBitsSplit(x / 2, m - 1, n);
    }
  }

  lemma {:induction false} LowBitsOfSmall(x: nat, n: nat)
    requires x < Pow2(n)
    ensures LowBitsClear(x, n) <==> x == 0
  {
    if n > 0 {
      LowBitsOfSmall(x / 2, n - 1);
    }
  }

  /** After j steps the lowest bit says whether any of the low 2^j bits was set. */
  lemma {:induction false} SmearLowBit(x: nat, j: nat)
    ensures Smear(x, j) % 2 == if LowBitsClear(x, Pow2(j)) then 0 else 1
    decreases j
  {
    if j == 0 {
      assert LowBitsClear(x, 1) <==> x % 2 == 0;
    } else {
      var m, y := Pow2(j - 1), Smear(x, j - 1);
      SmearLowBit(x, j - 1);
      SmearLowBit(Shr(x, m), j - 1);
      SmearShr(x, j - 1, m);
      OrLowBit(y, Shr(y, m));
      LowBitsSplit(x, m, m);
    }
  }

  /** Enough steps set every bit below the top bit. */
  lemma {:induction false} SmearFills(x: nat, j: nat)
    requires x < Pow2(Pow2(j))
    ensures Smear(x, j) == Pow2(BitLength(x)) - 1
  {
    SmearShr(x, j, 1);
    SmearLowBit(x, j);
    LowBitsOfSmall(x, Pow2(j));
    assert Shr(x, 1) == x / 2 && Shr(Smear(x, j), 1) == Smear(x, j) / 2;
    if x > 0 {
      SmearFills(x / 2, j);
    } else {
      SmearZero(j);
    }
  }

  lemma {:induction false} SmearZero(j: nat)
    ensures Smear(0, j) == 0
  {
    if j > 0 {
      SmearZero(j - 1);
      ShrZero(Pow2(j - 1));
    }
  }

  lemma {:induction false} ShrZero(n: nat)
    ensures Shr(0, n) == 0
  {
    if n > 0 {
      ShrZero(n - 1);
    }
  }

  lemma {:induction false} ZeroIsClear(n: nat)
    ensures LowBitsClear(0, n)
  {
    if n > 0 {
      ZeroIsClear(n - 1);
    }
  }

  // ------------------------------------------------------------------ NextPowerOf2

  /** The least power of two strictly greater than x. */
  function PowerAbove(x: nat): nat { Pow2(BitLength(x)) }

  lemma PowerAboveIsLeast(x: nat, k: nat)
    ensures x < PowerAbove(x) && PowerAbove(x) <= 2 * x + 1
    ensures x < Pow2(k) ==> PowerAbove(x) <= Pow2(k)
  {
    BitLengthBounds(x);
    if x < Pow2(k) {
      if k < BitLength(x) {
        Pow2Monotone(k, BitLength(x) - 1);
      } else {
        Pow2Monotone(BitLength(x), k);
      }
    }
  }

  /** The least power of two above x as a 32-bit word: zero on overflow. */
  function NextPowerOf2Word(x: nat): nat { PowerAbove(x) % WORD32 }

  method NextPowerOf2(value: nat) returns (a: nat)
    requires value < WORD32
    ensures a == NextPowerOf2Word(value)
  {
    WordSizes();
    a := value;
    a := Or(a, Shr(a, 1));
    a := Or(a, Shr(a, 2));
    a := Or(a, Shr(a, 4));
    a := Or(a, Shr(a, 8));
    a := Or(a, Shr(a, 16));
    assert a == Smear(value, 5) by {
      assert Pow2(0) == 1 && Pow2(1) == 2 && Pow2(2) == 4 && Pow2(3) == 8 && Pow2(4) == 16;
      assert Smear(value, 1) == Or(value, Shr(value, 1));
      assert Smear(value, 2) == Or(Smear(value, 1), Shr(Smear(value, 1), 2));
      assert Smear(value, 3) == Or(Smear(value, 2), Shr(Smear(value, 2), 4));
    }
    SmearFills(value, 5);
    a := (a + 1) % WORD32;
  }

  /** The result overflows to zero exactly when the top bit of the word is set. */
  lemma NextPowerOf2OverflowIff(x: nat)
    requires x < WORD32
    ensures NextPowerOf2Word(x) == 0 <==> x >= WORD32 / 2
    ensures x < WORD32 / 2 ==> NextPowerOf2Word(x) == PowerAbove(x)
  {
    WordSizes();
    PowerAboveIsLeast(x, 31);
    PowerAboveIsLeast(x, 32);
    if x >= WORD32 / 2 {
      BitLengthUnique(x, 32);
    }
  }

  // ------------------------------------------------------------------ logarithms

  lemma {:induction false} BitLengthShr(x: nat, n: nat)
    requires x >= Pow2(n)
    ensures Shr(x, n) > 0 && BitLength(Shr(x, n)) + n == BitLength(x)
  {
    if n > 0 {
      BitLengthShr(x / 2, n - 1);
    }
  }

  /** Half of a word of width 2n: the high half if it is not zero, else the low half. */
  lemma HalvesOf(x: nat, n: nat)
    requires x < Pow2(n) * Pow2(n)
    ensures Shr(x, n) < Pow2(n)
    ensures Shr(x, n) == 0 <==> x < Pow2(n)
  {
    ShrIsDiv(x, n);
    DivBelow(x, Pow2(n), Pow2(n));
    DivZero(x, Pow2(n));
  }

  /** One bisection step: either the high half is nonzero and replaces the word, or
      only the low half is left. */
  lemma BisectWord(v: nat, k: nat)
    requires 0 < v < Pow2(Pow2(k + 1))
    ensures var shift := Pow2(k);
            && Shr(v, shift) < Pow2(shift)
            && (Shr(v, shift) == 0 ==> v < Pow2(shift))
            && (Shr(v, shift) > 0 ==> BitLength(Shr(v, shift)) + shift == BitLength(v))
  {
    var shift := Pow2(k);
    Pow2Add(shift, shift);
    HalvesOf(v, shift);
    if Shr(v, shift) > 0 {
      BitLengthShr(v, shift);
    }
  }

  /** With 2^k bits of the word left to search, `count` zeros are accounted for. */
  ghost predicate Bisecting(value: nat, v: nat, k: nat, count: nat) {
    && 0 < v < Pow2(Pow2(k)) && LowBitsClear(count, k)
    && BitLength(v) + 32 - Pow2(k) - count == BitLength(value)
  }

  lemma BisectionStep(value: nat, v: nat, k: nat, count: nat)
    requires Bisecting(value, v, k + 1, count)
    ensures Shr(v, Pow2(k)) != 0 ==> Bisecting(value, Shr(v, Pow2(k)), k, count)
    ensures Shr(v, Pow2(k)) == 0 ==> Bisecting(value, v, k, Or(count, Pow2(k)))
  {
    BisectWord(v, k);
    OrDisjoint(count, k);
  }

  /** The zeros counted once the remaining 2^k bits are searched. */
  function Bisect(v: nat, k: nat, count: nat): nat
    decreases k
  {
    if k == 0 then count
    else if Shr(v, Pow2(k - 1)) != 0 then Bisect(Shr(v, Pow2(k - 1)), k - 1, count)
    else Bisect(v, k - 1, Or(count, Pow2(k - 1)))
  }

  lemma {:induction false} BisectCountsZeros(value: nat, v: nat, k: nat, count: nat)
    requires Bisecting(value, v, k, count)
    ensures Bisect(v, k, count) == 32 - BitLength(value)
    decreases k
  {
    if k == 0 {
      assert Pow2(1) == 2;
      assert v == 1 && BitLength(1) == 1;
    } else {
      BisectionStep(value, v, k - 1, count);
      if Shr(v, Pow2(k - 1)) != 0 {
        BisectCountsZeros(value, Shr(v, Pow2(k - 1)), k - 1, count);
      } else {
        BisectCountsZeros(value, v, k - 1, Or(count, Pow2(k - 1)));
      }
    }
  }

  lemma BisectionStart(value: nat) returns (k: nat)
    requires 0 < value < WORD32
    ensures Pow2(k) / 2 == 16 && Bisect(value, k, 0) == 32 - BitLength(value)
  {
    k := 5;
    WordSizes();
    ZeroIsClear(k);
    BisectCountsZeros(value, value, k, 0);
  }

  lemma BisectNext(v: nat, k: nat, count: nat)
    requires Pow2(k) / 2 != 0
    ensures k > 0 && Pow2(k) / 2 / 2 == Pow2(k - 1) / 2
    ensures var tmp := Shr(v, Pow2(k) / 2);
            Bisect(v, k, count) ==
            if tmp != 0 then Bisect(tmp, k - 1, count) else Bisect(v, k - 1, Or(count, Pow2(k) / 2))
  {
    if k > 0 {
      assert Pow2(k) / 2 == Pow2(k - 1);
    }
  }

  /** Leading zeros by bisection: the shifts 16, 8, 4, 2, 1. */
  method CountLeadingZeros(value: nat) returns (count: nat)
    requires value < WORD32
    ensures count == 32 - BitLength(value)
  {
    if value == 0 {
      return 32;
    }
    ghost var k := BisectionStart(value);
    var v := value;
    count := 0;
    var shift := 16;
    while shift != 0
      invariant shift == Pow2(k) / 2 && Bisect(v, k, count) == 32 - BitLength(value)
      decreases k
    {
      BisectNext(v, k, count);
      var tmp := Shr(v, shift);
      if tmp != 0 {
        v := tmp;
      } else {
        count := Or(count, shift);
      }
      k := k - 1;
      shift := shift / 2;
    }
  }

  /** Ceiling of the base-two logarithm; 32 for zero, whose predecessor wraps. */
  method Log2Ceil(value: nat) returns (log: nat)
    requires value < WORD32
    ensures value == 0 ==> log == 32
    ensures value > 0 ==> value <= Pow2(log) && (log > 0 ==> Pow2(log - 1) < value)
  {
    var before := if value == 0 then WORD32 - 1 else value - 1;
    assert before == (value - 1) % WORD32;
    var count := CountLeadingZeros(before);
    log := 32 - count;
    BitLengthBounds(before);
    if value == 0 {
      assert Pow2(32) == WORD32 == 2 * Pow2(31) by { WordSizes(); }
      BitLengthUnique(before, 32);
    }
  }
}
