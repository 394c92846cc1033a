/** The permutation behind the perfect hash's scramble table. */
module Scramble {
  import opened Bits
  import opened Pigeonholes

  const SCRAMBLE_LEN: nat := 256
  const ROUNDS: nat := 20

  // ------------------------------------------------------------------ one round

  /** x + (x << c), kept to n bits. */
  function Spread(x: nat, c: nat, n: nat): nat {
    And((x + x * Pow2(c)) % WORD32, Pow2(n) - 1)
  }

  /** x ^ (x >> c). */
  function Fold(x: nat, c: nat): nat {
    Xor(x, Shr(x, c))
  }

  function HalfRound(x: nat, c: nat, d: nat, n: nat): nat {
    Fold(Spread(x, c, n), d)
  }

  function Round(x: nat, n: nat): nat {
    HalfRound(HalfRound(x, 1 + n / 2, 1 + n / 3, n), 1 + n / 4, 1 + n / 5, n)
  }

  function Iterate(f: nat -> nat, x: nat, i: nat): nat {
    if i == 0 then x else f(Iterate(f, x, i - 1))
  }

  function RoundOf(n: nat): nat -> nat {
    x => Round(x, n)
  }

  function Rounds(x: nat, n: nat, i: nat): nat {
    Iterate(RoundOf(n), x, i)
  }

  /** permute: twenty rounds of mixing an n-bit value. */
  method Permute(x0: nat, nbits: nat) returns (x: nat)
    requires nbits <= 31
    ensures x == Rounds(x0, nbits, ROUNDS)
  {
    x := x0;
    var mask := Pow2(nbits) - 1;
    var i := 0;
    while i < ROUNDS
      invariant i <= ROUNDS && x == Rounds(x0, nbits, i)
    {
      x := MixHalf(x, mask, 1 + nbits / 2, 1 + nbits / 3, nbits);
      x := MixHalf(x, mask, 1 + nbits / 4, 1 + nbits / 5, nbits);
      i := i + 1;
    }
  }

  /** The two statements of a half round. */
  method MixHalf(x0: nat, mask: nat, c: nat, d: nat, ghost nbits: nat) returns (x: nat)
    requires mask == Pow2(nbits) - 1
    ensures x == HalfRound(x0, c, d, nbits)
  {
    x := And((x0 + x0 * Pow2(c)) % WORD32, mask);
    x := Xor(x, Shr(x, d));
  }

  // ------------------------------------------------------------------ each step is injective

  lemma SpreadIsMasked(x: nat, c: nat, n: nat, shifted: nat)
    requires n <= 32 && shifted == x * Pow2(c)
    ensures Spread(x, c, n) == (x + shifted) % Pow2(n)
    ensures Spread(x, c, n) < Pow2(n)
  {
    MaskWord(x + shifted, n);
    ModBelow(x + shifted, Pow2(n));
  }

  lemma SpreadIsProduct(x: nat, c: nat, n: nat)
    requires n <= 32
    ensures Spread(x, c, n) == (x * (1 + Pow2(c))) % Pow2(n)
    ensures Spread(x, c, n) < Pow2(n)
  {
    var shifted := x * Pow2(c);
    SpreadIsMasked(x, c, n, shifted);
    TimesOnePlus(x, Pow2(c));
    assert x + shifted == x * (1 + Pow2(c));
  }

  lemma ModBelow(x: nat, m: nat)
    requires m > 0
    ensures x % m < m
  {
  }

  lemma TimesOnePlus(x: nat, m: nat)
    ensures x + x * m == x * (1 + m)
  {
  }

  lemma DifferenceTimes(x: int, y: int, m: int)
    ensures (x - y) * m == x * m - y * m
  {
  }

  lemma OddFromShift(c: nat)
    requires 0 < c
    ensures (1 + Pow2(c)) % 2 == 1
  {
    SuccessorOfEven(Pow2(c), Pow2(c - 1));
  }

  lemma SuccessorOfEven(x: nat, half: nat)
    requires x == half + half
    ensures (1 + x) % 2 == 1
  {
  }

  /** Multiplying by an odd number modulo a power of two is injective. */
  lemma OddProductInjective(x: nat, y: nat, odd: nat, n: nat)
    requires odd % 2 == 1 && x < Pow2(n) && y < Pow2(n)
    requires x * odd % Pow2(n) == y * odd % Pow2(n)
    ensures x == y
    decreases y > x
  {
    if x > y {
      var k := ModEqual(x * odd, y * odd, Pow2(n));
      DifferenceTimes(x, y, odd);
      var d := OddFactor(x - y, odd, n, k);
      PositiveMultiple(x - y, Pow2(n), d);
    } else if x < y {
      OddProductInjective(y, x, odd, n);
    }
  }

  lemma SpreadInjective(x: nat, y: nat, c: nat, n: nat)
    requires 0 < c && n <= 32 && x < Pow2(n) && y < Pow2(n)
    requires Spread(x, c, n) == Spread(y, c, n)
    ensures x == y
  {
    SpreadIsProduct(x, c, n);
    SpreadIsProduct(y, c, n);
    OddFromShift(c);
    OddProductInjective(x, y, 1 + Pow2(c), n);
  }

  lemma {:induction false} ShrBelow(x: nat, c: nat)
    ensures Shr(x, c) <= x
    ensures c > 0 && x > 0 ==> Shr(x, c) < x
  {
    if c > 0 {
      ShrBelow(x / 2, c - 1);
    }
  }

  /** Folding is undone from the top bits down. */
  lemma {:induction false} FoldInjective(x: nat, y: nat, c: nat)
    requires c > 0 && Fold(x, c) == Fold(y, c)
    ensures x == y
    decreases x + y
  {
    if x + y > 0 {
      XorShr(x, Shr(x, c), c);
      XorShr(y, Shr(y, c), c);
      ShrBelow(x, c);
      ShrBelow(y, c);
      FoldInjective(Shr(x, c), Shr(y, c), c);
      XorInjective(x, y, Shr(x, c));
    }
  }

  lemma FoldBelow(x: nat, c: nat, n: nat)
    requires x < Pow2(n)
    ensures Fold(x, c) < Pow2(n)
  {
    ShrBelow(x, c);
    XorBelow(x, Shr(x, c), n);
  }

  lemma HalfRoundBelow(x: nat, c: nat, d: nat, n: nat)
    requires n <= 31
    ensures HalfRound(x, c, d, n) < Pow2(n)
  {
    SpreadIsProduct(x, c, n);
    FoldBelow(Spread(x, c, n), d, n);
  }

  lemma HalfRoundInjective(x: nat, y: nat, c: nat, d: nat, n: nat)
    requires n <= 31 && c > 0 && d > 0 && x < Pow2(n) && y < Pow2(n)
    requires HalfRound(x, c, d, n) == HalfRound(y, c, d, n)
    ensures x == y
  {
    FoldInjective(Spread(x, c, n), Spread(y, c, n), d);
    SpreadInjective(x, y, c, n);
  }

  lemma RoundBelow(x: nat, n: nat)
    requires n <= 31
    ensures Round(x, n) < Pow2(n)
  {
    HalfRoundBelow(HalfRound(x, 1 + n / 2, 1 + n / 3, n), 1 + n / 4, 1 + n / 5, n);
  }

  lemma TwoHalfRoundsInjective(x: nat, y: nat, c: nat, d: nat, c': nat, d': nat, n: nat)
    requires n <= 31 && c > 0 && d > 0 && c' > 0 && d' > 0 && x < Pow2(n) && y < Pow2(n)
    requires HalfRound(HalfRound(x, c, d, n), c', d', n) == HalfRound(HalfRound(y, c, d, n), c', d', n)
    ensures x == y
  {
    HalfRoundBelow(x, c, d, n);
    HalfRoundBelow(y, c, d, n);
    HalfRoundInjective(HalfRound(x, c, d, n), HalfRound(y, c, d, n), c', d', n);
    HalfRoundInjective(x, y, c, d, n);
  }

  lemma RoundInjective(x: nat, y: nat, n: nat)
    requires n <= 31 && x < Pow2(n) && y < Pow2(n) && Round(x, n) == Round(y, n)
    ensures x == y
  {
    TwoHalfRoundsInjective(x, y, 1 + n / 2, 1 + n / 3, 1 + n / 4, 1 + n / 5, n);
  }

  // ------------------------------------------------------------------ the permutation

  /** f maps the numbers below the bound to different numbers below the bound. */
  ghost predicate Permutes(f: nat -> nat, bound: nat) {
    && (forall x: nat :: x < bound ==> f(x) < bound)
    && (forall x: nat, y: nat :: x < bound && y < bound && x != y ==> f(x) != f(y))
  }

  lemma {:induction false} IteratePermutes(f: nat -> nat, bound: nat, x: nat, y: nat, i: nat)
    requires Permutes(f, bound) && x < bound && y < bound
    ensures Iterate(f, x, i) < bound && Iterate(f, y, i) < bound
    ensures x != y ==> Iterate(f, x, i) != Iterate(f, y, i)
  {
    if i > 0 {
      IteratePermutes(f, bound, x, y, i - 1);
    }
  }

  lemma RoundPermutes(n: nat)
    requires n <= 31
    ensures Permutes(RoundOf(n), Pow2(n))
  {
    forall x: nat | x < Pow2(n)
      ensures RoundOf(n)(x) < Pow2(n)
    {
      RoundBelow(x, n);
    }
    forall x: nat, y: nat | x < Pow2(n) && y < Pow2(n) && x != y
      ensures RoundOf(n)(x) != RoundOf(n)(y)
    {
      if Round(x, n) == Round(y, n) {
        RoundInjective(x, y, n);
      }
    }
  }

  /** After a first step with the same result, all further steps have the same results. */
  lemma {:induction false} IterateFromFirst(f: nat -> nat, x: nat, y: nat, i: nat)
    requires f(x) == f(y) && i > 0
    ensures Iterate(f, x, i) == Iterate(f, y, i)
  {
    if i > 1 {
      IterateFromFirst(f, x, y, i - 1);
    } else {
      assert Iterate(f, x, 0) == x && Iterate(f, y, 0) == y;
    }
  }

  /** A wider argument counts only by its low n bits. */
  lemma RoundsOfWide(x: nat, n: nat, i: nat)
    requires n <= 31 && i > 0
    ensures Rounds(x, n, i) == Rounds(x % Pow2(n), n, i)
    ensures Rounds(x, n, i) < Pow2(n)
  {
    RoundOfWide(x, n);
    IterateFromFirst(RoundOf(n), x, x % Pow2(n), i);
    RoundBelow(Iterate(RoundOf(n), x, i - 1), n);
  }

  lemma RoundOfWide(x: nat, n: nat)
    requires n <= 31
    ensures RoundOf(n)(x) == RoundOf(n)(x % Pow2(n))
  {
    HalfRoundOfWide(x, 1 + n / 2, 1 + n / 3, n);
    SameRound(x, x % Pow2(n), n);
  }

  lemma SameRound(x: nat, y: nat, n: nat)
    requires HalfRound(x, 1 + n / 2, 1 + n / 3, n) == HalfRound(y, 1 + n / 2, 1 + n / 3, n)
    ensures RoundOf(n)(x) == RoundOf(n)(y)
  {
  }

  lemma HalfRoundOfWide(x: nat, c: nat, d: nat, n: nat)
    requires n <= 31
    ensures HalfRound(x, c, d, n) == HalfRound(x % Pow2(n), c, d, n)
  {
    assert Spread(x, c, n) == Spread(x % Pow2(n), c, n) by {
      SpreadIsProduct(x, c, n);
      SpreadIsProduct(x % Pow2(n), c, n);
      ModMulLeft(x, 1 + Pow2(c), Pow2(n));
    }
  }

  lemma ModMulLeft(x: nat, m: nat, b: nat)
    requires b > 0
    ensures ((x % b) * m) % b == (x * m) % b
  {
    var q, r := x / b, x % b;
    assert x * m == r * m + b * (q * m) by {
      assert x == b * q + r;
      MulAssociative(b, q, m);
    }
    ModShift(r * m, b, q * m);
  }

  lemma {:induction false} IterateFixed(f: nat -> nat, x: nat, i: nat)
    requires f(x) == x
    ensures Iterate(f, x, i) == x
  {
    if i > 0 {
      IterateFixed(f, x, i - 1);
    }
  }

  lemma RoundOfZero(n: nat)
    requires n <= 31
    ensures Round(0, n) == 0
  {
    HalfRoundOfZero(1 + n / 2, 1 + n / 3, n);
    HalfRoundOfZero(1 + n / 4, 1 + n / 5, n);
  }

  lemma HalfRoundOfZero(c: nat, d: nat, n: nat)
    requires n <= 31
    ensures HalfRound(0, c, d, n) == 0
  {
    assert Spread(0, c, n) == 0;
    ShrBelow(0, d);
  }

  /** permute is a permutation of 0..2^n-1 that fixes zero, for any number of rounds. */
  lemma PermuteIsPermutation(n: nat, rounds: nat, x: nat, y: nat)
    requires n <= 31 && x < y < Pow2(n)
    ensures Rounds(0, n, rounds) == 0
    ensures Rounds(x, n, rounds) < Pow2(n) && Rounds(x, n, rounds) != Rounds(y, n, rounds)
  {
    RoundOfZero(n);
    IterateFixed(RoundOf(n), 0, rounds);
    RoundPermutes(n);
    IteratePermutes(RoundOf(n), Pow2(n), x, y, rounds);
  }

  /** Every n-bit value is the permuted image of one. */
  lemma PermuteIsOnto(n: nat, rounds: nat, z: nat) returns (x: nat)
    requires n <= 31 && z < Pow2(n)
    ensures x < Pow2(n) && Rounds(x, n, rounds) == z
  {
    var s := seq(Pow2(n), i requires 0 <= i => Rounds(i, n, rounds));
    forall i, j | 0 <= i < j < |s|
      ensures s[i] != s[j]
    {
      PermuteIsPermutation(n, rounds, i, j);
    }
    forall v | v in s
      ensures v < |s|
    {
      var i :| 0 <= i < |s| && s[i] == v;
      RoundPermutes(n);
      IteratePermutes(RoundOf(n), Pow2(n), i, i, rounds);
    }
    Pigeonhole(s, z);
    x :| 0 <= x < |s| && s[x] == z;
  }

  // ------------------------------------------------------------------ the table

  function CeilLog2(val: nat): nat {
    if val <= 1 then 0 else BitLength(val - 1)
  }

  lemma CeilLog2Bounds(val: nat)
    requires val > 0
    ensures val <= Pow2(CeilLog2(val))
    ensures val > 1 ==> CeilLog2(val) > 0 && Pow2(CeilLog2(val) - 1) < val
  {
    BitLengthBounds(val - 1);
  }

  lemma CeilLog2OfPower(k: nat)
    ensures CeilLog2(Pow2(k)) == k
  {
    if k > 0 {
      BitLengthUnique(Pow2(k) - 1, k);
    }
  }

  lemma FitsWord(val: nat)
    requires 1 < val <= 0x8000_0000
    ensures CeilLog2(val) <= 31
  {
    CeilLog2Bounds(val);
    HalfWordSizes();
    if CeilLog2(val) > 31 {
      Pow2Monotone(31, CeilLog2(val) - 1);
    }
  }

  /** log2u: the least i with 2^i >= val. */
  method Log2u(val: nat) returns (i: nat)
    requires val <= 0x8000_0000
    ensures i == CeilLog2(val) <= 31
  {
    i := 0;
    if val > 1 {
      CeilLog2Bounds(val);
      FitsWord(val);
    }
    while Pow2(i) < val
      invariant i <= CeilLog2(val) <= 31
      decreases CeilLog2(val) - i
    {
      if CeilLog2(val) <= i {
        assert false;
      }
      i := i + 1;
    }
    if i < CeilLog2(val) {
      Pow2Monotone(i, CeilLog2(val) - 1);
    }
  }

  /** A scramble table for hash values below 2^n. */
  ghost predicate IsScramble(scramble: seq<nat>, n: nat) {
    |scramble| == SCRAMBLE_LEN && forall i :: 0 <= i < SCRAMBLE_LEN ==> scramble[i] == Rounds(i, n, ROUNDS)
  }

  /** scrambleinit: fills the table in place. */
  method ScrambleInit(scramble: array<nat>, smax: nat)
    requires scramble.Length == SCRAMBLE_LEN && smax <= 0x8000_0000
    modifies scramble
    ensures IsScramble(scramble[..], CeilLog2(smax))
  {
    ghost var n := CeilLog2(smax);
    var i := 0;
    while i < SCRAMBLE_LEN
      invariant i <= SCRAMBLE_LEN
      invariant forall j :: 0 <= j < i ==> scramble[j] == Rounds(j, n, ROUNDS)
    {
      var bits := Log2u(smax);
      scramble[i] := Permute(i, bits);
      i := i + 1;
    }
  }

  lemma ScrambleInRange(scramble: seq<nat>, n: nat)
    requires n <= 31 && IsScramble(scramble, n)
    ensures scramble[0] == 0
    ensures forall i :: 0 <= i < SCRAMBLE_LEN ==> scramble[i] < Pow2(n)
  {
    RoundOfZero(n);
    IterateFixed(RoundOf(n), 0, ROUNDS);
    forall i | 0 <= i < SCRAMBLE_LEN
      ensures scramble[i] < Pow2(n)
    {
      RoundsOfWide(i, n, ROUNDS);
    }
  }

  lemma ScrambleDistinctIff(scramble: seq<nat>, n: nat)
    requires n <= 31 && IsScramble(scramble, n)
    ensures Distinct(scramble) <==> Pow2(n) >= SCRAMBLE_LEN
  {
    if Pow2(n) >= SCRAMBLE_LEN {
      forall i, j | 0 <= i < j < |scramble|
        ensures scramble[i] != scramble[j]
      {
        PermuteIsPermutation(n, ROUNDS, i, j);
      }
    } else if Distinct(scramble) {
      ScrambleInRange(scramble, n);
      DistinctFit(scramble, Pow2(n));
    }
  }

  lemma ScrambleCoversIff(scramble: seq<nat>, n: nat)
    requires n <= 31 && IsScramble(scramble, n)
    ensures Covers(scramble, Pow2(n)) <==> Pow2(n) <= SCRAMBLE_LEN
  {
    if Pow2(n) <= SCRAMBLE_LEN {
      forall z: nat | z < Pow2(n)
        ensures z in scramble
      {
        var x := PermuteIsOnto(n, ROUNDS, z);
        assert scramble[x] == z;
      }
    } else if Covers(scramble, Pow2(n)) {
      CoverNeedsRoom(scramble, Pow2(n));
    }
  }

  /** The table's values are below smax. They are pairwise distinct exactly when smax is
      at least 256, and take every value below smax exactly when it is at most 256. */
  lemma ScrambleCoversRange(scramble: seq<nat>, n: nat)
    requires n <= 31 && IsScramble(scramble, n)
    ensures scramble[0] == 0
    ensures forall i :: 0 <= i < SCRAMBLE_LEN ==> scramble[i] < Pow2(n)
    ensures Distinct(scramble) <==> Pow2(n) >= SCRAMBLE_LEN
    ensures Covers(scramble, Pow2(n)) <==> Pow2(n) <= SCRAMBLE_LEN
  {
    ScrambleInRange(scramble, n);
    ScrambleDistinctIff(scramble, n);
    ScrambleCoversIff(scramble, n);
  }
}
