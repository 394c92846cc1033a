/** When a perfect hash of n names is minimal, that is, when its hashes stay below n. */
module MinimalHash {
  import opened Augment
  import opened Bits
  import opened HashHeader
  import opened KeyBuckets
  import opened MakePerfect
  import opened Scramble
  import opened Wrappers

  ghost predicate HashesBelow(keys: seq<Key>, bs: seq<Bucket>, scramble: seq<nat>, m: nat, n: nat)
    requires Setting(keys, bs, scramble, Pow2(m))
  {
    forall k :: 0 <= k < |keys| ==> HashOf(keys, bs, scramble, k) < n
  }

  /** Every hash that the builder may find for n names, with 2^m hash values and 2^lb
      buckets, stays below n. */
  ghost predicate AlwaysMinimal(n: nat, m: nat, lb: nat) {
    forall keys, bs, scramble, names, lookup, salt ::
      |names| == n && Solved(keys, bs, scramble, names, lookup, m, m, lb, salt) ==>
        HashesBelow(keys, bs, scramble, m, n)
  }

  /** Hashes of n names always stay below n exactly when there are no more hash values
      than names. */
  lemma MinimalIff(n: nat, m: nat, lb: nat)
    requires 0 < n <= Pow2(m) && lb <= m <= 31
    ensures AlwaysMinimal(n, m, lb) <==> n == Pow2(m)
  {
    if n == Pow2(m) {
      forall keys, bs, scramble, names, lookup, salt
        | |names| == n && Solved(keys, bs, scramble, names, lookup, m, m, lb, salt)
        ensures HashesBelow(keys, bs, scramble, m, n)
      {
      }
    } else {
      var keys, bs, scramble, names, lookup := TopHashTaken(n, m, lb, 0);
      assert !HashesBelow(keys, bs, scramble, m, n);
    }
  }

  /** What first fit makes of keys that all fall into bucket 0: the first displacement that
      sends them to free values of the empty table. */
  ghost predicate FirstFitAlone(keys: seq<Key>, bs: seq<Bucket>, scramble: seq<nat>, m: nat)
    requires |bs| > 0 && |scramble| == SCRAMBLE_LEN
  {
    && (forall k :: 0 <= k < |keys| ==> keys[k].b == 0 && k in bs[0].list)
    && FirstFit(seq(Pow2(m), _ => None), keys, bs[0].list, scramble, bs[0].val)
  }

  lemma UndisplacedIsFirstFit(keys: seq<Key>, bs: seq<Bucket>, scramble: seq<nat>, m: nat)
    requires Setting(keys, bs, scramble, Pow2(m)) && |bs| > 0 && bs[0].val == 0
    requires forall k :: 0 <= k < |keys| ==> keys[k].b == 0
    ensures FirstFitAlone(keys, bs, scramble, m)
  {
    KeysWithBelow(keys, |keys|, 0);
    forall k | 0 <= k < |keys|
      ensures k in bs[0].list
    {
      KeysWithAre(keys, |keys|, 0, k);
    }
  }

  /** Three names get four hash values and one bucket, and first fit may well leave one of
      them at 3. */
  lemma ThreeNamesReachThree()
    returns (keys: seq<Key>, bs: seq<Bucket>, scramble: seq<nat>, names: seq<Str>, lookup: Lookup)
    ensures CeilLog2(3) == 2 && InitialBlen(Pow2(2), 3) == Pow2(0)
    ensures |names| == 3 == |keys| && Solved(keys, bs, scramble, names, lookup, 2, 2, 0, GOLDEN)
    ensures |bs| == 1 && FirstFitAlone(keys, bs, scramble, 2)
    ensures HashOf(keys, bs, scramble, 0) == 3
  {
    assert Pow2(2) == 4 && Pow2(1) == 2 && Pow2(0) == 1;
    BitLengthUnique(2, 2);
    keys, bs, scramble, names, lookup := TopHashTaken(3, 2, 0, GOLDEN);
  }

  // ------------------------------------------------------------------ a hash that is not minimal

  lemma HalfOfDouble(x: nat, p: nat)
    ensures x * (2 * p) / 2 == x * p
  {
    MulAssociative(2, p, x);
  }

  lemma {:induction false} ShrUndoes(x: nat, k: nat)
    ensures Shr(x * Pow2(k), k) == x
  {
    if k > 0 {
      HalfOfDouble(x, Pow2(k - 1));
      ShrUndoes(x, k - 1);
    }
  }

  lemma {:induction false} XorZero(x: nat)
    ensures Xor(x, 0) == x
  {
    if x > 0 {
      XorZero(x / 2);
    }
  }

  /** The word with a in its top m bits. */
  function TopBits(a: nat, m: nat): Word64
    requires m <= 64 && a < Pow2(m)
  {
    TopBitsFit(a, m);
    a * Pow2(64 - m)
  }

  lemma TopBitsFit(a: nat, m: nat)
    requires m <= 64 && a < Pow2(m)
    ensures a * Pow2(64 - m) < WORD64
  {
    assert Pow2(64) == WORD64 by { WordSizes(); }
    Pow2Add(m, 64 - m);
    BelowProduct(a, Pow2(m), Pow2(64 - m));
  }

  lemma BelowProduct(a: nat, p: nat, q: nat)
    requires a < p && q > 0
    ensures a * q < p * q
  {
    MulMonotone(q, a + 1, p);
  }

  /** The name of i + 1 letters. */
  function Letters(i: nat): Str {
    seq(i + 1, _ => 1)
  }

  /** A string hash that tells the names apart by their top bits, counting down. */
  function CountingDown(n: nat, m: nat): Lookup
    requires n <= Pow2(m) && m <= 31
  {
    (s: Str, salt: nat) => if 1 <= |s| <= n then TopBits(Pow2(m) - |s|, m) else 0
  }

  /** Split that way, the i-th name has a counting down from 2^m - 1, and bucket 0. */
  lemma CountingDownSplit(n: nat, m: nat, lb: nat, salt: nat, i: nat)
    requires i < n <= Pow2(m) && lb <= m <= 31 && CeilLog2(Pow2(m)) == m
    ensures SplitKey(Letters(i), CountingDown(n, m), Pow2(m), Pow2(lb), salt) == Key(Letters(i), Pow2(m) - 1 - i, 0)
  {
    hide TopBits, SplitA, SplitB;
    TopBitsSplit(Pow2(m) - 1 - i, m, lb);
  }

  lemma TopBitsSplit(a: nat, m: nat, lb: nat)
    requires a < Pow2(m) && lb <= m <= 31 && CeilLog2(Pow2(m)) == m
    ensures SplitA(TopBits(a, m), Pow2(m)) == a && SplitB(TopBits(a, m), Pow2(lb)) == 0
  {
    var hash := TopBits(a, m);
    SplitInRange(hash, m, lb);
    HighBits(hash, m);
    ShrUndoes(a, 64 - m);
    LowBitsAreZero(a, 64 - m, lb);
    AndMask(hash, lb);
  }

  lemma LowBitsAreZero(a: nat, k: nat, lb: nat)
    requires lb <= k
    ensures a * Pow2(k) % Pow2(lb) == 0
  {
    Pow2Add(lb, k - lb);
    MultipleMod(a, Pow2(lb), Pow2(k - lb));
  }

  lemma MultipleMod(a: nat, p: nat, q: nat)
    requires p > 0
    ensures a * (p * q) % p == 0
  {
    var k := q * a;
    assert a * (p * q) == p * k by {
      MulAssociative(p, q, a);
    }
    DivModUnique(p * k, p, k, 0);
  }

  /** Whatever the sizes, n names can get a perfect hash in which one of them hashes to
      2^m - 1: all in bucket 0 without displacement, with a counting down. */
  lemma TopHashTaken(n: nat, m: nat, lb: nat, salt: nat)
    returns (keys: seq<Key>, bs: seq<Bucket>, scramble: seq<nat>, names: seq<Str>, lookup: Lookup)
    requires 0 < n <= Pow2(m) && lb <= m <= 31
    ensures |names| == n == |keys| && Solved(keys, bs, scramble, names, lookup, m, m, lb, salt)
    ensures |bs| > 0 && FirstFitAlone(keys, bs, scramble, m)
    ensures HashOf(keys, bs, scramble, 0) == Pow2(m) - 1
  {
    CeilLog2OfPower(m);
    names := seq(n, i requires 0 <= i < n => Letters(i));
    lookup := CountingDown(n, m);
    keys := seq(n, i requires 0 <= i < n => SplitKey(names[i], lookup, Pow2(m), Pow2(lb), salt));
    scramble := seq(SCRAMBLE_LEN, i requires 0 <= i => Rounds(i, m, ROUNDS));
    forall i | 0 <= i < n
      ensures keys[i] == Key(names[i], Pow2(m) - 1 - i, 0)
    {
      CountingDownSplit(n, m, lb, salt, i);
    }
    bs := Unplaced(keys, Pow2(lb));
    assert Split(keys, scramble, names, lookup, m, m, lb, salt);
    SettingFromSplit(keys, bs, scramble, names, lookup, m, m, lb, salt);
    UndisplacedIsFirstFit(keys, bs, scramble, m);
    ScrambleCoversRange(scramble, m);
    forall i | 0 <= i < n
      ensures HashOf(keys, bs, scramble, i) == Pow2(m) - 1 - i
    {
      XorZero(keys[i].a);
    }
  }

  /** The keys in their buckets, none displaced yet. */
  ghost function Unplaced(keys: seq<Key>, blen: nat): (bs: seq<Bucket>)
    ensures |bs| == blen && Grouped(bs, keys, |keys|)
    ensures forall b :: 0 <= b < blen ==> bs[b].val == 0
  {
    seq(blen, b requires 0 <= b => Bucket(0, KeysWith(keys, |keys|, b), |KeysWith(keys, |keys|, b)|, 0))
  }
}
