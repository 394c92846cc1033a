/** The parameters of a finished perfect hash, and the hash that readers compute from
    them for any string. */
module HashHeader {
  import opened Bits
  import opened Scramble
  import opened KeyBuckets

  type Word64 = x: nat | x < WORD64

  /** The string hash lookup8, of which only determinism matters. */
  type Lookup = (Str, nat) -> Word64

  datatype PerfectHash = PerfectHash(
    capacity: nat, occupied: nat, shift: nat, mask: nat, salt: nat,
    scramble: seq<nat>, tab: seq<nat>)

  /** Capacity 2^m, 2^k buckets, and a shift that keeps a bits. */
  ghost predicate Shape(h: PerfectHash, m: nat, a: nat, k: nat) {
    && m <= 31 && a <= m && h.capacity == Pow2(m) && h.shift == 64 - a
    && h.mask + 1 == Pow2(k) && |h.tab| == h.mask + 1
    && IsScramble(h.scramble, m) && BytesOnly(h.tab)
  }

  ghost predicate BytesOnly(tab: seq<nat>) {
    forall i :: 0 <= i < |tab| ==> tab[i] < SCRAMBLE_LEN
  }

  /** Everything a reader relies on to stay in bounds: the capacity and the table length
      are powers of two, the shift leaves no more bits than the capacity has, and the
      scramble values fit the capacity. */
  ghost predicate WellFormed(h: PerfectHash) {
    exists m: nat, a: nat, k: nat :: Shape(h, m, a, k)
  }

  lemma MaskInBounds(h: PerfectHash, val: nat)
    requires WellFormed(h)
    ensures And(val, h.mask) < |h.tab| && h.tab[And(val, h.mask)] < |h.scramble|
  {
    var m: nat, a: nat, k: nat :| Shape(h, m, a, k);
    AndMask(val, k);
  }

  /** The bucket of a 64-bit string hash. */
  function BucketOf(h: PerfectHash, val: nat): (b: nat)
    requires WellFormed(h)
    ensures b < |h.tab| && h.tab[b] < |h.scramble|
  {
    MaskInBounds(h, val);
    And(val, h.mask)
  }

  /** objc_stringhash_t::hash. */
  function Hash(h: PerfectHash, lookup: Lookup, key: Str): nat
    requires WellFormed(h)
  {
    var val := lookup(key, h.salt);
    Xor(Shr(val, h.shift) % WORD32, h.scramble[h.tab[BucketOf(h, val)]])
  }

  lemma {:induction false} ShrBound(x: nat, n: nat, a: nat)
    requires x < Pow2(n + a)
    ensures Shr(x, n) < Pow2(a)
  {
    if n > 0 {
      ShrBound(x / 2, n - 1, a);
    }
  }

  /** The high bits that the shift keeps fit a 32-bit word. */
  lemma HighBits(val: Word64, a: nat)
    requires a <= 32
    ensures Shr(val, 64 - a) < Pow2(a) && Shr(val, 64 - a) % WORD32 == Shr(val, 64 - a)
  {
    WordSizes();
    ShrBound(val, 64 - a, a);
    Pow2Monotone(a, 32);
  }

  /** Every string, in the table or not, hashes below the capacity. */
  lemma HashInBounds(h: PerfectHash, lookup: Lookup, key: Str)
    requires WellFormed(h)
    ensures Hash(h, lookup, key) < h.capacity
  {
    var m: nat, a: nat, k: nat :| Shape(h, m, a, k);
    var val := lookup(key, h.salt);
    ScrambledBelow(h, m, BucketOf(h, val));
    HashBelow(val, a, m, h.scramble[h.tab[BucketOf(h, val)]]);
  }

  lemma HashBelow(val: Word64, a: nat, m: nat, scrambled: nat)
    requires a <= m <= 31 && scrambled < Pow2(m)
    ensures Xor(Shr(val, 64 - a) % WORD32, scrambled) < Pow2(m)
  {
    HighBits(val, a);
    Pow2Monotone(a, m);
    XorBelow(Shr(val, 64 - a) % WORD32, scrambled, m);
  }

  lemma ScrambledBelow(h: PerfectHash, m: nat, b: nat)
    requires m <= 31 && IsScramble(h.scramble, m) && BytesOnly(h.tab) && b < |h.tab|
    ensures h.scramble[h.tab[b]] < Pow2(m)
  {
    ScrambleInRange(h.scramble, m);
  }

  /** No two of the strings have the same hash. */
  ghost predicate PerfectFor(h: PerfectHash, lookup: Lookup, names: seq<Str>) {
    && WellFormed(h) && h.occupied == |names|
    && forall i, j {:trigger Hash(h, lookup, names[i]), Hash(h, lookup, names[j])} ::
         0 <= i < j < |names| ==> Hash(h, lookup, names[i]) != Hash(h, lookup, names[j])
  }
}
