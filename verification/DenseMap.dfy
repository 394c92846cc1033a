/** The open-addressed hash map of llvm-DenseMap.h: triangular probing, tombstones,
    growth, compaction, and optional purging of zero values in place. */
module DenseMaps {
  import opened Bits
  import opened MathExtras
  import opened Probing
  import opened BucketTable

  const MIN_BUCKETS: nat := 4
  const MIN_COMPACT: nat := 1024

  /** 2^30, the least number of buckets that cannot be doubled in 32 bits. */
  const DOUBLING_LIMIT: nat := 0x4000_0000

  /** The table would be three quarters full. */
  predicate TooFull(newEntries: nat, buckets: nat) { newEntries * 4 >= buckets * 3 }

  /** The load test of an insert, in 32-bit arithmetic. */
  predicate GrowTest(newEntries: nat, buckets: nat) { newEntries * 4 % WORD32 >= buckets * 3 % WORD32 }

  /** The rehash test of an insert, in 32-bit arithmetic: at most an eighth of the buckets
      would be empty. */
  predicate TooManyTombstones(newEntries: nat, tombstones: nat, buckets: nat) {
    (buckets - (newEntries + tombstones)) % WORD32 <= buckets / 8
  }

  /** The table has room for up to `entries` entries, the new one among them. */
  predicate HasRoom(entries: nat, buckets: nat) {
    !TooFull(entries, buckets) && !TooManyTombstones(entries, 0, buckets)
  }

  /** The number of buckets that grow(atLeast) allocates. */
  function GrownBuckets(atLeast: nat): nat {
    if NextPowerOf2Word(atLeast) > MIN_BUCKETS then NextPowerOf2Word(atLeast) else MIN_BUCKETS
  }

  /** Twice a number, in 32-bit arithmetic. */
  function Doubled(n: nat): (twice: nat)
    ensures twice < WORD32
  {
    n * 2 % WORD32
  }

  /** The number of buckets that the table has when an insert writes its entry. */
  function RehashSize(entries: nat, tombstones: nat, buckets: nat): nat {
    if GrowTest(entries + 1, buckets) then GrownBuckets(Doubled(buckets))
    else if TooManyTombstones(entries + 1, tombstones, buckets) then GrownBuckets(buckets)
    else buckets
  }

  method FirstProbe(h: nat, n: nat) returns (bucketNo: nat)
    requires PowerOfTwoSize(n)
    ensures bucketNo == Probe(h, 0, n)
  {
    ghost var logSize: nat :| logSize <= 31 && n == Pow2(logSize);
    AndMask(h, logSize);
    bucketNo := And(h, n - 1);
  }

  /** The next bucket of the path, one bucket further away than the last. */
  method NextProbe(ghost h: nat, bucketNo0: nat, probeAmt0: nat, n: nat, ghost i: nat)
    returns (bucketNo: nat, probeAmt: nat)
    requires PowerOfTwoSize(n) && bucketNo0 == Probe(h, i, n) && probeAmt0 == i + 1
    ensures bucketNo == Probe(h, i + 1, n) && probeAmt == i + 2
  {
    ghost var logSize: nat :| logSize <= 31 && n == Pow2(logSize);
    ProbeStep(h, i, n);
    AndMask(bucketNo0 + probeAmt0, logSize);
    bucketNo := bucketNo0 + probeAmt0;
    probeAmt := probeAmt0 + 1;
    bucketNo := And(bucketNo, n - 1);
  }

  class DenseMap<K(==), V(==)> {
    const hash: K -> nat
    const zero: V
    const purge: bool

    var buckets: array<Bucket<K, V>>
    var numEntries: nat
    var numTombstones: nat

    /** Sizes are powers of two, every key can be found, and the counters are right. */
    ghost predicate Consistent()
      reads this, buckets
    {
      && Searchable(buckets[..], hash)
      && numEntries == Count(buckets[..], LIVE)
      && numTombstones == Count(buckets[..], TOMBSTONE)
    }

    /** There also is a bucket that stops every probe. */
    ghost predicate Valid()
      reads this, buckets
    {
      Consistent() && (buckets.Length > 0 ==> HasEmpty(buckets[..]))
    }

    /** The load is below three quarters. */
    predicate LightlyLoaded()
      reads this
    {
      buckets.Length > 0 ==> !TooFull(numEntries, buckets.Length)
    }

    /** The number of entries that a rehash keeps. */
    ghost function Kept(): nat
      reads this, buckets
    {
      |Keep(purge, zero, Map())|
    }

    /** The number of buckets that the table has when an insert writes its entry. */
    function NextSize(): nat
      reads this
    {
      RehashSize(numEntries, numTombstones, buckets.Length)
    }

    ghost function Map(): map<K, V>
      reads this, buckets
    {
      Contents(buckets[..])
    }

    /** The entry counter is the size of the map. */
    lemma EntriesAreKeys()
      requires Valid()
      ensures numEntries == |Map()|
    {
      LiveCountIsSize(buckets[..]);
    }

    // ---------------------------------------------------------------- creation

    /** An empty map; a nonzero initial size must be a power of two. */
    constructor (hash: K -> nat, zero: V, purge: bool, initBuckets: nat)
      requires initBuckets > 0 ==> PowerOfTwoSize(initBuckets)
      ensures Valid() && fresh(buckets) && Map() == map[] && buckets.Length == initBuckets
      ensures this.hash == hash && this.zero == zero && this.purge == purge
    {
      this.hash, this.zero, this.purge := hash, zero, purge;
      buckets := new Bucket<K, V>[initBuckets];
      numEntries, numTombstones := 0, 0;
      new;
      InitEmpty();
    }

    /** initEmpty: every bucket empty, both counters zero. */
    method InitEmpty()
      requires buckets.Length > 0 ==> PowerOfTwoSize(buckets.Length)
      modifies this`numEntries, this`numTombstones, buckets
      ensures Valid() && Map() == map[]
      ensures numEntries == numTombstones == 0
      ensures forall p :: 0 <= p < buckets.Length ==> buckets[p].Empty?
    {
      numEntries, numTombstones := 0, 0;
      var b := 0;
      while b < buckets.Length
        invariant b <= buckets.Length && numEntries == numTombstones == 0
        invariant forall p :: 0 <= p < b ==> buckets[p].Empty?
      {
        buckets[b] := Empty;
        b := b + 1;
      }
      AllEmpty(buckets[..]);
      if buckets.Length > 0 {
        assert buckets[..][0].Empty?;
      }
    }

    // ---------------------------------------------------------------- lookup

    /** Finds the bucket of k, or else the bucket where k would go. The probe loop takes its
        fatal exit exactly when the key is absent and no bucket is empty. */
    method LookupBucketFor(k: K) returns (found: bool, slot: nat, fatal: bool)
      requires Searchable(buckets[..], hash)
      ensures fatal <==> buckets.Length > 0 && k !in Map() && !HasEmpty(buckets[..])
      ensures found <==> k in Map()
      ensures found ==> slot < buckets.Length && buckets[slot].Live? && buckets[slot].key == k
      ensures found ==> Map()[k] == buckets[slot].value
      ensures !found && !fatal && buckets.Length > 0 ==> InsertionPoint(buckets[..], purge, zero, hash(k), slot)
    {
      ghost var t := buckets[..];
      var n := buckets.Length;
      if n == 0 {
        ContentsAre(t, k);
        return false, 0, false;
      }
      ghost var stop := PathStops(t, hash, k);
      var foundTombstone: int := -1;
      ghost var mark: nat := 0;
      var bucketNo := FirstProbe(hash(k), n);
      var probeAmt := 1;
      ghost var i: nat := 0;
      while true
        invariant i <= stop && probeAmt == i + 1 && bucketNo == Probe(hash(k), i, n)
        invariant PassedOver(t, k, hash(k), i)
        invariant Remembered(t, purge, zero, hash(k), i, foundTombstone, mark)
        decreases n - i
      {
        var this_ := buckets[bucketNo];
        if this_.Live? && this_.key == k {
          ContentsAt(t, bucketNo);
          return true, bucketNo, false;
        }
        if this_.Empty? {
          assert HasEmpty(t);
          AbsentKey(t, hash, k, i);
          RememberedIsInsertionPoint(t, purge, zero, hash(k), i, foundTombstone, mark);
          slot := if foundTombstone != -1 then foundTombstone else bucketNo;
          return false, slot, false;
        }
        PassedOverNext(t, k, hash(k), i);
        RememberNext(t, purge, zero, hash(k), i, foundTombstone, mark);
        if this_.Tombstone? && foundTombstone == -1 {
          foundTombstone, mark := bucketNo, i;
        }
        if purge && this_.Live? && this_.value == zero && foundTombstone == -1 {
          foundTombstone, mark := bucketNo, i;
        }
        if probeAmt > n {
          return false, 0, true;
        }
        bucketNo, probeAmt := NextProbe(hash(k), bucketNo, probeAmt, n, i);
        i := i + 1;
      }
    }

    // ---------------------------------------------------------------- rehashing

    /** The buckets that moveFromOldBuckets carries over. */
    predicate Moves(b: Bucket<K, V>) {
      b.Live? && !(purge && b.value == zero)
    }

    /** Moves one pair into a table that has neither tombstones nor purgeable zeros; fatal
        exactly when the table is full. */
    method PlaceMoved(k: K, v: V) returns (fatal: bool)
      requires Consistent() && k !in Map() && Keep(purge, zero, Map()) == Map()
      requires numEntries <= buckets.Length && buckets.Length > 0 && numTombstones == 0
      modifies this`numEntries, buckets
      ensures fatal <==> old(numEntries) == buckets.Length
      ensures !fatal ==> Consistent() && Map() == old(Map())[k := v] && numEntries == old(numEntries) + 1
    {
      ghost var t := buckets[..];
      HasEmptyIff(t);
      var found, dest;
      found, dest, fatal := LookupBucketFor(k);
      if fatal {
        return;
      }
      PlaceIsMapUpdate(t, hash, purge, zero, dest, k, v);
      buckets[dest] := Live(k, v);
      assert buckets[..] == t[dest := Live(k, v)];
      numEntries := numEntries + 1;
    }

    /** moveFromOldBuckets: fills the fresh bucket array with the old contents, less
        purgeable zeros; fatal exactly when they are more than the buckets. No old key is
        already in the new table. */
    method MoveFromOldBuckets(oldBuckets: array<Bucket<K, V>>) returns (fatal: bool)
      requires buckets != oldBuckets && PowerOfTwoSize(buckets.Length) && buckets.Length > 0
      requires UniqueKeys(oldBuckets[..])
      modifies this`numEntries, this`numTombstones, buckets
      ensures fatal <==> |Keep(purge, zero, Contents(oldBuckets[..]))| > buckets.Length
      ensures !fatal ==> Consistent() && Map() == Keep(purge, zero, Contents(oldBuckets[..])) && numTombstones == 0
    {
      InitEmpty();
      ghost var told := oldBuckets[..];
      AllEmpty(buckets[..]);
      var b := 0;
      while b < oldBuckets.Length
        invariant b <= oldBuckets.Length && oldBuckets[..] == told && Moved(told, b)
      {
        fatal := MoveOne(oldBuckets[b], told, b);
        if fatal {
          return;
        }
        b := b + 1;
      }
      assert told[..b] == told;
      FewEnough();
      return false;
    }

    lemma FewEnough()
      requires Consistent()
      ensures numEntries == |Map()| && numEntries + numTombstones <= buckets.Length
      ensures HasEmpty(buckets[..]) <==> numEntries + numTombstones < buckets.Length
      ensures Valid() ==> Counters(numEntries, numTombstones, buckets.Length)
      ensures buckets.Length == 0 || PowerOfTwoSize(buckets.Length)
    {
      LiveCountIsSize(buckets[..]);
      HasEmptyIff(buckets[..]);
      if buckets.Length > 0 {
        SizeSteps(buckets.Length);
      }
    }

    /** The first b old buckets are carried over. */
    ghost predicate Moved(told: Table<K, V>, b: nat)
      requires b <= |told|
      reads this, buckets
    {
      Consistent() && Map() == Keep(purge, zero, Contents(told[..b])) && numTombstones == 0
    }

    method MoveOne(bucket: Bucket<K, V>, ghost told: Table<K, V>, ghost b: nat) returns (fatal: bool)
      requires b < |told| && bucket == told[b] && Moved(told, b) && UniqueKeys(told) && buckets.Length > 0
      modifies this`numEntries, buckets
      ensures fatal ==> |Keep(purge, zero, Contents(told))| > buckets.Length
      ensures !fatal ==> Moved(told, b + 1)
    {
      KeepOfNext(told, purge, zero, b);
      KeepOfPrefix(told, purge, zero, b + 1);
      KeepIsSmaller(purge, zero, Contents(told[..b]));
      FewEnough();
      fatal := false;
      if Moves(bucket) {
        fatal := PlaceMoved(bucket.key, bucket.value);
      }
    }

    /** Rehashes into the least power of two above `atLeast`, and at least four buckets;
        fatal exactly when the entries it keeps are more than that. */
    method Grow(atLeast: nat) returns (fatal: bool)
      requires Consistent() && atLeast < WORD32
      modifies this`buckets, this`numEntries, this`numTombstones
      ensures fatal <==> old(Kept()) > GrownBuckets(atLeast)
      ensures !fatal ==> Consistent() && fresh(buckets) && buckets.Length == GrownBuckets(atLeast)
      ensures !fatal ==> Map() == Keep(purge, zero, old(Map())) && numTombstones == 0
      ensures !fatal ==> numEntries == old(Kept()) <= old(numEntries)
      ensures !fatal ==> (Valid() <==> numEntries < buckets.Length)
    {
      FewEnough();
      KeepIsSmaller(purge, zero, Map());
      var oldBuckets := buckets;
      var n := NextPowerOf2(atLeast);
      GrownIsPowerOfTwo(atLeast);
      buckets := new Bucket<K, V>[if n > MIN_BUCKETS then n else MIN_BUCKETS];
      fatal := false;
      if oldBuckets.Length == 0 {
        InitEmpty();
        assert oldBuckets[..] == [];
      } else {
        fatal := MoveFromOldBuckets(oldBuckets);
      }
      if !fatal {
        FewEnough();
      }
    }

    /** Empties the table and picks a size between two and four times the old number of
        entries; an empty map gives up its buckets. With more than 2^29 entries the shifted
        size is negative, and the table gets four buckets. */
    method ShrinkAndClear()
      requires Valid() && numEntries <= DOUBLING_LIMIT
      modifies this`buckets, this`numEntries, this`numTombstones, buckets
      ensures Valid() && (buckets == old(buckets) || fresh(buckets)) && Map() == map[]
      ensures numEntries == numTombstones == 0
      ensures old(numEntries) == 0 ==> buckets.Length == 0
      ensures old(numEntries) > 0 ==> MIN_BUCKETS <= buckets.Length
      ensures 0 < old(numEntries) <= DOUBLING_LIMIT / 2 ==> 2 * old(numEntries) <= buckets.Length
      ensures buckets.Length > MIN_BUCKETS ==>
                old(numEntries) <= DOUBLING_LIMIT / 2 && buckets.Length < 4 * old(numEntries)
    {
      var newNumBuckets := 0;
      if numEntries > 0 {
        newNumBuckets := ShrunkenSize(numEntries);
      }
      if newNumBuckets == buckets.Length {
        InitEmpty();
        return;
      }
      buckets := new Bucket<K, V>[newNumBuckets];
      InitEmpty();
    }

    // ---------------------------------------------------------------- operations

    /** Removes everything; a large and mostly empty table strictly shrinks. */
    method Clear()
      requires Valid() && numEntries <= DOUBLING_LIMIT
      modifies this`buckets, this`numEntries, this`numTombstones, buckets
      ensures Valid() && (buckets == old(buckets) || fresh(buckets)) && Map() == map[]
      ensures numEntries == numTombstones == 0
      ensures old(numEntries + numTombstones > 0 && numEntries * 4 < buckets.Length && buckets.Length > MIN_BUCKETS)
              ==> buckets.Length < old(buckets.Length)
      ensures buckets.Length <= old(buckets.Length)
    {
      LiveCountIsSize(buckets[..]);
      if numEntries == 0 && numTombstones == 0 {
        assert |Map()| == 0;
        return;
      }
      ClearShrinks(numEntries, buckets.Length);
      if numEntries * 4 % WORD32 < buckets.Length && buckets.Length > MIN_BUCKETS {
        ShrinkAndClear();
        return;
      }
      EmptyBuckets();
    }

    /** The loop of clear that empties the buckets in place. */
    method EmptyBuckets()
      requires Valid()
      modifies this`numEntries, this`numTombstones, buckets
      ensures Valid() && Map() == map[]
      ensures numEntries == numTombstones == 0
    {
      var p := 0;
      while p < buckets.Length
        invariant p <= buckets.Length
        invariant Count(buckets[..], LIVE) == numEntries
        invariant forall q :: 0 <= q < p ==> buckets[q].Empty?
      {
        ghost var t := buckets[..];
        CountAfterEmptying(t, p);
        if !buckets[p].Empty? {
          if !buckets[p].Tombstone? {
            numEntries := numEntries - 1;
          }
          buckets[p] := Empty;
        }
        assert buckets[..] == t[p := Empty];
        p := p + 1;
      }
      AllEmpty(buckets[..]);
      numTombstones := 0;
      if buckets.Length > 0 {
        assert buckets[..][0].Empty?;
      }
    }

    /** Gives up the buckets of an empty map, and rehashes a table that is at least
        15/16 free into a strictly smaller one. */
    method Compact()
      requires Valid()
      modifies this`buckets, this`numEntries, this`numTombstones, buckets
      ensures Valid() && (buckets == old(buckets) || fresh(buckets))
      ensures DropsOnlyZeros(purge, zero, old(Map()), Map())
      ensures old(numEntries) == 0 ==> buckets.Length == 0
      ensures buckets.Length <= old(buckets.Length)
      ensures old(numEntries > 0 && buckets.Length / 16 > numEntries && buckets.Length > MIN_COMPACT)
              ==> buckets.Length < old(buckets.Length)
      ensures old(LightlyLoaded()) ==> LightlyLoaded()
    {
      LiveCountIsSize(buckets[..]);
      if numEntries == 0 {
        assert |Map()| == 0;
        ShrinkAndClear();
      } else if buckets.Length / 16 > numEntries && buckets.Length > MIN_COMPACT {
        SizeSteps(buckets.Length);
        CompactShrinks(numEntries, buckets.Length);
        KeepDropsOnlyZeros(purge, zero, Map());
        KeepIsSmaller(purge, zero, Map());
        var fatal := Grow(numEntries * 2);
        assert !fatal;
      }
    }

    /** An insert leaves an empty bucket: the entries that a rehash keeps, and the new one, are
        fewer than the buckets. */
    ghost predicate RoomToGrow()
      reads this, buckets
    {
      Kept() + 1 < NextSize()
    }

    /** An insert takes the fatal exit: the entries that a rehash keeps fill the buckets. */
    ghost predicate Overflows()
      reads this, buckets
    {
      Kept() >= NextSize()
    }

    /** After a rehash that kept so many entries of m: the table has so many buckets, one of
        them empty, and the absent key goes into the slot. */
    ghost predicate Rehashed(k: K, m: map<K, V>, kept: nat, size: nat, slot: nat)
      reads this, buckets
    {
      && Valid() && buckets.Length == size < WORD32 && numTombstones == 0 && numEntries == kept
      && DropsOnlyZeros(purge, zero, m, Map()) && Keep(purge, zero, Map()) == Map()
      && k !in Map() && InsertionPoint(buckets[..], purge, zero, hash(k), slot)
    }

    /** Grows, and looks up where the absent key goes in the new table. */
    method GrowAndLookup(k: K, atLeast: nat) returns (slot: nat, fatal: bool)
      requires Valid() && k !in Map() && atLeast < WORD32
      modifies this`buckets, this`numEntries, this`numTombstones
      ensures fatal <==> old(Kept()) >= GrownBuckets(atLeast)
      ensures !fatal ==> fresh(buckets) && Rehashed(k, old(Map()), old(Kept()), GrownBuckets(atLeast), slot)
    {
      GrownIsPowerOfTwo(atLeast);
      SizeSteps(GrownBuckets(atLeast));
      KeepDropsOnlyZeros(purge, zero, Map());
      KeepIsSmaller(purge, zero, Map());
      slot := 0;
      fatal := Grow(atLeast);
      if fatal {
        return;
      }
      var found;
      found, slot, fatal := LookupBucketFor(k);
    }

    lemma InsertPlanned()
      requires Valid()
      ensures Kept() <= numEntries
      ensures NextSize() == buckets.Length ==> numEntries + 1 + numTombstones < NextSize()
      ensures buckets.Length < DOUBLING_LIMIT ==> numEntries + 1 < NextSize() && !TooFull(numEntries + 1, NextSize())
      ensures LightlyLoaded() && buckets.Length <= NextSize() ==> !TooFull(numEntries + 1, NextSize())
    {
      hide Searchable, Keep, Counters, Doubled, GrowTest, TooManyTombstones, GrownBuckets, RehashSize;
      FewEnough();
      KeepIsSmaller(purge, zero, Map());
      RehashSizeIs(numEntries, numTombstones, buckets.Length);
    }

    lemma RehashPlanned()
      requires Valid()
      ensures buckets.Length < WORD32 && Kept() <= numEntries
      ensures if GrowTest(numEntries + 1, buckets.Length) then
                && NextSize() == GrownBuckets(Doubled(buckets.Length))
                && !TooManyTombstones(numEntries + 1, 0, NextSize())
              else if TooManyTombstones(numEntries + 1, numTombstones, buckets.Length) then
                NextSize() == GrownBuckets(buckets.Length)
              else
                && NextSize() == buckets.Length && !Overflows() && numEntries + 1 + numTombstones < buckets.Length
                && (LightlyLoaded() ==> !TooFull(numEntries + 1, buckets.Length))
      ensures NextSize() > buckets.Length ==> HasRoom(Kept() + 1, NextSize())
    {
      hide Searchable, Keep, Counters, Doubled, GrowTest, TooManyTombstones, GrownBuckets, RehashSize;
      FewEnough();
      KeepIsSmaller(purge, zero, Map());
      RehashPlan(numEntries, numTombstones, buckets.Length, Kept());
      InsertPlanned();
    }

    /** The first half of InsertIntoBucketImpl: grows if the table is too full, then
        rehashes if it has too many tombstones, judging both by the entries before growing. */
    method MakeRoom(k: K, slot: nat) returns (p: nat, fatal: bool)
      requires Valid() && k !in Map()
      requires buckets.Length > 0 ==> InsertionPoint(buckets[..], purge, zero, hash(k), slot)
      modifies this`buckets, this`numEntries, this`numTombstones
      ensures fatal <==> old(Overflows())
      ensures !fatal && buckets == old(buckets) ==>
                && unchanged(this) && Valid() && buckets.Length == old(NextSize())
                && numEntries + 1 + numTombstones < buckets.Length
                && InsertionPoint(buckets[..], purge, zero, hash(k), p)
      ensures !fatal && buckets == old(buckets) ==>
                && !TooManyTombstones(numEntries + 1, numTombstones, buckets.Length)
                && (LightlyLoaded() ==> !TooFull(numEntries + 1, buckets.Length))
      ensures !fatal && buckets != old(buckets) ==>
                fresh(buckets) && Rehashed(k, old(Map()), old(Kept()), old(NextSize()), p)
      ensures !fatal && buckets.Length > old(buckets.Length) ==> HasRoom(numEntries + 1, buckets.Length)
    {
      hide TooFull, HasRoom;
      hide Consistent, Keep, Doubled, GrowTest, TooManyTombstones, GrownBuckets, RehashSize, DropsOnlyZeros;
      hide InsertionPoint;
      p, fatal := slot, false;
      var newNumEntries := numEntries + 1;
      RehashPlanned();
      if GrowTest(newNumEntries, buckets.Length) {
        p, fatal := GrowAndLookup(k, Doubled(buckets.Length));
        if fatal {
          return;
        }
      }
      if TooManyTombstones(newNumEntries, numTombstones, buckets.Length) {
        p, fatal := GrowAndLookup(k, buckets.Length);
      }
    }

    /** InsertIntoBucket: adds an absent key, growing first if need be. Below 2^30 buckets it
        always succeeds, with the load below three quarters. */
    method InsertIntoBucket(k: K, v: V, slot: nat) returns (p: nat, fatal: bool)
      requires Valid() && k !in Map()
      requires buckets.Length > 0 ==> InsertionPoint(buckets[..], purge, zero, hash(k), slot)
      modifies this`buckets, this`numEntries, this`numTombstones, buckets
      ensures fatal <==> old(Overflows())
      ensures !fatal ==> (Valid() <==> old(RoomToGrow()))
      ensures !fatal ==> Consistent() && (buckets == old(buckets) || fresh(buckets))
      ensures !fatal ==> buckets.Length == old(NextSize())
      ensures !fatal ==> p < buckets.Length && buckets[p] == Live(k, v)
      ensures !fatal ==> DropsOnlyZeros(purge, zero, old(Map())[k := v], Map()) && k in Map() && Map()[k] == v
      ensures old(buckets.Length) < DOUBLING_LIMIT ==> !fatal && Valid() && LightlyLoaded()
      ensures !fatal && old(LightlyLoaded()) && old(buckets.Length) <= buckets.Length ==> LightlyLoaded()
    {
      hide Searchable, Keep, RehashSize, DropsOnlyZeros, InsertionPoint;
      InsertPlanned();
      ghost var before := Map();
      p, fatal := MakeRoom(k, slot);
      if !fatal {
        KeepDropsOnlyZeros(purge, zero, before);
        ghost var between := Map();
        TakeBucket(k, v, p);
        FewEnough();
        DropsThenPut(purge, zero, before, between, Map(), k, v);
      }
    }

    /** Writes an absent key into its insertion point, with the three accounting cases:
        an empty bucket, a tombstone, or a purged zero. */
    method TakeBucket(k: K, v: V, p: nat)
      requires Consistent() && k !in Map() && InsertionPoint(buckets[..], purge, zero, hash(k), p)
      modifies this`numEntries, this`numTombstones, buckets
      ensures Consistent() && p < buckets.Length && buckets[p] == Live(k, v)
      ensures DropsOnlyZeros(purge, zero, old(Map())[k := v], Map()) && k in Map() && Map()[k] == v
      ensures numEntries <= old(numEntries) + 1
      ensures numEntries + numTombstones <= old(numEntries + numTombstones) + 1
      ensures Keep(purge, zero, old(Map())) == old(Map()) && old(numTombstones) == 0 ==>
                numEntries == old(numEntries) + 1 && numTombstones == 0
    {
      ghost var t := buckets[..];
      PutIsMapUpdate(t, hash, purge, zero, p, k, v);
      CountsOfPut(t, p, k, v);
      if buckets[p].Empty? {
        numEntries := numEntries + 1;
      } else if buckets[p].Tombstone? {
        numEntries := numEntries + 1;
        numTombstones := numTombstones - 1;
      } else {
        // Purging a zero: the bucket stays live.
      }
      buckets[p] := Live(k, v);
      assert buckets[..] == t[p := Live(k, v)];
    }

    /** find: the bucket of the key, if it is in the map. */
    method Find(k: K) returns (found: bool, p: nat)
      requires Valid()
      ensures found <==> k in Map()
      ensures found ==> p < buckets.Length && buckets[p] == Live(k, Map()[k])
    {
      var fatal;
      found, p, fatal := LookupBucketFor(k);
    }

    /** lookup: the value of the key, or the default value. */
    method Lookup(k: K) returns (v: V)
      requires Valid()
      ensures v == if k in Map() then Map()[k] else zero
    {
      var found, p, fatal := LookupBucketFor(k);
      v := if found then buckets[p].value else zero;
    }

    /** insert: adds an absent key; a present key keeps its value. */
    method Insert(k: K, v: V) returns (inserted: bool, fatal: bool)
      requires Valid()
      modifies this`buckets, this`numEntries, this`numTombstones, buckets
      ensures fatal <==> k !in old(Map()) && old(Overflows())
      ensures !fatal ==> Consistent() && (inserted <==> k !in old(Map()))
      ensures !fatal && !inserted ==> Valid() && buckets == old(buckets) && Map() == old(Map())
      ensures !fatal && inserted ==> (Valid() <==> old(RoomToGrow()))
      ensures !fatal && inserted ==>
                && (buckets == old(buckets) || fresh(buckets)) && buckets.Length == old(NextSize())
                && DropsOnlyZeros(purge, zero, old(Map())[k := v], Map()) && k in Map() && Map()[k] == v
      ensures old(buckets.Length) < DOUBLING_LIMIT ==> !fatal && Valid()
      ensures !fatal && old(LightlyLoaded()) && old(buckets.Length) <= buckets.Length ==> LightlyLoaded()
    {
      var found, p;
      found, p, fatal := LookupBucketFor(k);
      if found {
        return false, false;
      }
      p, fatal := InsertIntoBucket(k, v, p);
      return true, fatal;
    }

    /** operator[]: the bucket of the key, inserted with the default value if absent. */
    method FindAndConstruct(k: K) returns (p: nat, fatal: bool)
      requires Valid()
      modifies this`buckets, this`numEntries, this`numTombstones, buckets
      ensures fatal <==> k !in old(Map()) && old(Overflows())
      ensures !fatal ==> Consistent() && (buckets == old(buckets) || fresh(buckets))
      ensures !fatal ==> (Valid() <==> k in old(Map()) || old(RoomToGrow()))
      ensures !fatal ==> p < buckets.Length && k in Map() && buckets[p] == Live(k, Map()[k])
      ensures !fatal && k in old(Map()) ==> Map() == old(Map())
      ensures !fatal && k !in old(Map()) ==>
                DropsOnlyZeros(purge, zero, old(Map())[k := zero], Map()) && Map()[k] == zero
      ensures old(buckets.Length) < DOUBLING_LIMIT ==> !fatal && Valid()
    {
      var found, q;
      found, q, fatal := LookupBucketFor(k);
      if found {
        return q, false;
      }
      p, fatal := InsertIntoBucket(k, zero, q);
    }

    /** Assignment through operator[]. */
    method Store(k: K, v: V) returns (fatal: bool)
      requires Valid()
      modifies this`buckets, this`numEntries, this`numTombstones, buckets
      ensures fatal <==> k !in old(Map()) && old(Overflows())
      ensures !fatal ==> Consistent() && (buckets == old(buckets) || fresh(buckets))
      ensures !fatal ==> (Valid() <==> k in old(Map()) || old(RoomToGrow()))
      ensures !fatal ==> DropsOnlyZeros(purge, zero, old(Map())[k := v], Map()) && k in Map() && Map()[k] == v
      ensures old(buckets.Length) < DOUBLING_LIMIT ==> !fatal && Valid()
    {
      var p;
      p, fatal := FindAndConstruct(k);
      if !fatal {
        Assign(p, v);
      }
    }

    /** Overwrites the value of a live bucket. */
    method Assign(p: nat, v: V)
      requires Consistent() && p < buckets.Length && buckets[p].Live?
      modifies buckets
      ensures Consistent() && Map() == old(Map())[old(buckets[p].key) := v]
      ensures Valid() <==> old(Valid())
    {
      ghost var t := buckets[..];
      var k := buckets[p].key;
      StoreIsMapUpdate(t, hash, p, v);
      CountOfUpdate(t, p, Live(k, v), LIVE);
      CountOfUpdate(t, p, Live(k, v), TOMBSTONE);
      HasEmptyIff(t);
      buckets[p] := Live(k, v);
      assert buckets[..] == t[p := Live(k, v)];
      HasEmptyIff(buckets[..]);
    }

    /** erase: removes the key, leaving a tombstone, and compacts. */
    method Erase(k: K) returns (erased: bool)
      requires Valid()
      modifies this`buckets, this`numEntries, this`numTombstones, buckets
      ensures Valid() && (buckets == old(buckets) || fresh(buckets))
      ensures erased <==> k in old(Map())
      ensures DropsOnlyZeros(purge, zero, old(Map()) - {k}, Map())
      ensures buckets.Length <= old(buckets.Length)
      ensures old(LightlyLoaded()) ==> LightlyLoaded()
    {
      var found, p, fatal := LookupBucketFor(k);
      if !found {
        return false;
      }
      ghost var t := buckets[..];
      BuryIsMapRemove(t, hash, p);
      CountOfUpdate(t, p, Tombstone, LIVE);
      CountOfUpdate(t, p, Tombstone, TOMBSTONE);
      OverwriteKeepsEmpty(t, p, Tombstone);
      buckets[p] := Tombstone;
      assert buckets[..] == t[p := Tombstone];
      numEntries := numEntries - 1;
      numTombstones := numTombstones + 1;
      Compact();
      return true;
    }

    /** resize: a request for more buckets than there are is met exactly when it is below
        2^31; from there on it wraps, and is fatal exactly when the entries are too many. */
    method Resize(size: nat) returns (fatal: bool)
      requires Valid()
      modifies this`buckets, this`numEntries, this`numTombstones
      ensures fatal <==> size > old(buckets.Length) && old(Kept()) > GrownBuckets(size % WORD32)
      ensures !fatal ==> Consistent() && DropsOnlyZeros(purge, zero, old(Map()), Map())
      ensures size <= old(buckets.Length) ==> Valid() && buckets == old(buckets) && Map() == old(Map())
      ensures !fatal && size > old(buckets.Length) ==>
                && fresh(buckets) && buckets.Length == GrownBuckets(size % WORD32)
                && (Valid() <==> old(Kept()) < buckets.Length)
      ensures !fatal ==> (size <= buckets.Length <==> size < WORD32 / 2 || size <= old(buckets.Length))
      ensures size < WORD32 / 2 ==> !fatal && Valid() && old(buckets.Length) <= buckets.Length
      ensures size < WORD32 / 2 && old(LightlyLoaded()) ==> LightlyLoaded()
    {
      fatal := false;
      FewEnough();
      KeepIsSmaller(purge, zero, Map());
      if size > buckets.Length {
        ResizeNeedsHeadroom(size);
        KeepDropsOnlyZeros(purge, zero, Map());
        fatal := Grow(size % WORD32);
      }
    }
  }

  /** The large sizes that a table can have. */
  lemma SizeSteps(n: nat)
    requires PowerOfTwoSize(n)
    ensures n <= DOUBLING_LIMIT / 2 || n == DOUBLING_LIMIT || n == 2 * DOUBLING_LIMIT
  {
    var k: nat :| k <= 31 && n == Pow2(k);
    HalfWordSizes();
    if k < 30 {
      Pow2Monotone(k, 29);
    }
  }

  /** The code's load test may wrap, but on a table that is lightly loaded it never misses
      that the new entry is too much, and it is exact up to 2^30 buckets. */
  lemma GrowTestIsSafe(entries: nat, buckets: nat)
    requires buckets == 0 || PowerOfTwoSize(buckets)
    requires 4 * entries < 3 * buckets || entries == 0
    ensures TooFull(entries + 1, buckets) ==> GrowTest(entries + 1, buckets)
    ensures buckets <= DOUBLING_LIMIT ==> (GrowTest(entries + 1, buckets) <==> TooFull(entries + 1, buckets))
  {
    hide GrowTest;
    if buckets > 0 {
      SizeSteps(buckets);
    }
    if buckets <= DOUBLING_LIMIT {
      GrowTestIsPlain(entries + 1, buckets);
    } else if TooFull(entries + 1, buckets) {
      WrappedLoad(entries + 1);
    }
  }

  lemma WrappedLoad(newEntries: nat)
    requires 3 * 0x8000_0000 <= newEntries * 4 < 2 * WORD32
    ensures GrowTest(newEntries, 0x8000_0000)
  {
    DivModUnique(newEntries * 4, WORD32, 1, newEntries * 4 - WORD32);
    WrappedTriple();
  }

  lemma GrowTestIsPlain(newEntries: nat, buckets: nat)
    requires newEntries * 4 < WORD32 && buckets * 3 < WORD32
    ensures GrowTest(newEntries, buckets) <==> TooFull(newEntries, buckets)
  {
    SmallMod(newEntries * 4, WORD32);
    SmallMod(buckets * 3, WORD32);
  }

  /** A table's counters. */
  predicate Counters(entries: nat, tombstones: nat, buckets: nat) {
    if buckets == 0 then entries == tombstones == 0 else entries + tombstones < buckets < WORD32
  }

  /** What the two tests of an insert come to. The second never asks for another rehash, and
      a rehash shrinks only if the size asked for wrapped. */
  ghost predicate RehashFacts(entries: nat, tombstones: nat, buckets: nat) {
    var n := RehashSize(entries, tombstones, buckets);
    && PowerOfTwoSize(n)
    && (GrowTest(entries + 1, buckets) ==> !TooManyTombstones(entries + 1, 0, n))
    && (n == buckets ==> !GrowTest(entries + 1, buckets) && entries + 1 + tombstones < buckets)
    && (n != buckets ==> GrowTest(entries + 1, buckets) || TooManyTombstones(entries + 1, tombstones, buckets))
    && (n < buckets ==> n == MIN_BUCKETS && buckets >= DOUBLING_LIMIT)
    && (n > buckets ==> HasRoom(entries + 1, n))
    && (buckets < DOUBLING_LIMIT ==> entries + 1 < n && !TooFull(entries + 1, n))
    && (4 * entries < 3 * buckets && n >= buckets ==> !TooFull(entries + 1, n))
  }

  lemma SmallRehash(entries: nat, tombstones: nat, buckets: nat)
    requires Counters(entries, tombstones, buckets) && (buckets == 0 || PowerOfTwoSize(buckets))
    requires buckets < DOUBLING_LIMIT
    ensures RehashFacts(entries, tombstones, buckets)
  {
    hide GrowTest, TooManyTombstones;
    if buckets > 0 {
      SizeSteps(buckets);
      RehashTestIsPlain(entries + 1, tombstones, buckets);
    }
    SmallMod(buckets * 2, WORD32);
    GrowTestIsPlain(entries + 1, buckets);
    GrowingMakesRoom(entries, buckets);
    GrownIsPowerOfTwo(buckets * 2);
    GrownIsPowerOfTwo(buckets);
    if !TooFull(entries + 1, buckets) {
      RehashMakesRoom(entries + 1, buckets);
    }
  }

  /** A wrapped doubling: the load test asks for one only with many entries, so the difference
      in the second test then wraps too. */
  lemma WrappedDoubling(entries: nat, buckets: nat)
    requires PowerOfTwoSize(buckets) && buckets >= DOUBLING_LIMIT && entries < buckets
    requires GrowTest(entries + 1, buckets)
    ensures GrownBuckets(Doubled(buckets)) == MIN_BUCKETS < entries
    ensures !TooManyTombstones(entries + 1, 0, MIN_BUCKETS)
  {
    hide GrowTest, TooManyTombstones;
    GrowthNeedsHeadroom(buckets);
    SizeSteps(buckets);
    if entries <= MIN_BUCKETS {
      FewEntriesFit(entries, buckets);
    }
    CrowdedFour(entries);
  }

  lemma FewEntriesFit(entries: nat, buckets: nat)
    requires entries <= MIN_BUCKETS && (buckets == DOUBLING_LIMIT || buckets == 2 * DOUBLING_LIMIT)
    ensures !GrowTest(entries + 1, buckets)
  {
    SmallMod((entries + 1) * 4, WORD32);
    SmallMod(3 * DOUBLING_LIMIT, WORD32);
    WrappedTriple();
  }

  lemma CrowdedFour(entries: nat)
    requires MIN_BUCKETS <= entries < WORD32 / 2
    ensures !TooManyTombstones(entries + 1, 0, MIN_BUCKETS)
  {
    NegativeWord(entries + 1 - MIN_BUCKETS);
  }

  lemma NegativeWord(x: int)
    requires 0 < x < WORD32
    ensures (-x) % WORD32 == WORD32 - x
  {
    DivModUnique(-x, WORD32, -1, WORD32 - x);
  }

  lemma LargeRehash(entries: nat, tombstones: nat, buckets: nat)
    requires Counters(entries, tombstones, buckets) && PowerOfTwoSize(buckets) && buckets >= DOUBLING_LIMIT
    ensures RehashFacts(entries, tombstones, buckets)
  {
    hide GrowTest, TooManyTombstones;
    SizeSteps(buckets);
    GrownIsPowerOfTwo(buckets);
    RehashTestIsPlain(entries + 1, tombstones, buckets);
    if GrowTest(entries + 1, buckets) {
      GrownIsPowerOfTwo(Doubled(buckets));
      WrappedDoubling(entries, buckets);
    } else {
      if buckets == DOUBLING_LIMIT {
        HasRoomWhenHalf(entries + 1, 2 * DOUBLING_LIMIT);
        SizeSteps(GrownBuckets(buckets));
      }
      if 4 * entries < 3 * buckets {
        GrowTestIsSafe(entries, buckets);
      }
    }
  }

  lemma RehashSizeIs(entries: nat, tombstones: nat, buckets: nat)
    requires Counters(entries, tombstones, buckets) && (buckets == 0 || PowerOfTwoSize(buckets))
    ensures RehashFacts(entries, tombstones, buckets)
  {
    if buckets < DOUBLING_LIMIT {
      SmallRehash(entries, tombstones, buckets);
    } else {
      LargeRehash(entries, tombstones, buckets);
    }
  }

  /** The same, test by test. */
  lemma RehashPlan(entries: nat, tombstones: nat, buckets: nat, kept: nat)
    requires Counters(entries, tombstones, buckets) && (buckets == 0 || PowerOfTwoSize(buckets)) && kept <= entries
    ensures var n := RehashSize(entries, tombstones, buckets);
            if GrowTest(entries + 1, buckets) then
              n == GrownBuckets(Doubled(buckets)) && !TooManyTombstones(entries + 1, 0, n)
            else if TooManyTombstones(entries + 1, tombstones, buckets) then n == GrownBuckets(buckets)
            else n == buckets && kept < n && entries + 1 + tombstones < buckets
    ensures var n := RehashSize(entries, tombstones, buckets); n > buckets ==> HasRoom(kept + 1, n)
    ensures buckets < WORD32
  {
    hide HasRoom, TooFull;
    RehashSizeIs(entries, tombstones, buckets);
    if RehashSize(entries, tombstones, buckets) > buckets {
      RoomForKept(entries, tombstones, buckets, kept);
    }
  }

  lemma RoomForKept(entries: nat, tombstones: nat, buckets: nat, kept: nat)
    requires RehashFacts(entries, tombstones, buckets) && kept <= entries
    requires entries < buckets || entries == 0
    ensures var n := RehashSize(entries, tombstones, buckets); n > buckets ==> HasRoom(kept + 1, n)
  {
    hide GrowTest, TooManyTombstones, RehashSize, HasRoom;
    var n := RehashSize(entries, tombstones, buckets);
    SizeSteps(n);
    if n > buckets {
      HasRoomForFewer(kept + 1, entries + 1, n);
    }
  }

  /** Without purging, an insert is fatal exactly when the rehash that it asks for wraps to
      four buckets and these are filled by the entries. */
  lemma OverflowIff(entries: nat, tombstones: nat, buckets: nat)
    requires Counters(entries, tombstones, buckets) && (buckets == 0 || PowerOfTwoSize(buckets))
    ensures entries >= RehashSize(entries, tombstones, buckets)
            <==> || (GrowTest(entries + 1, buckets) && buckets >= DOUBLING_LIMIT)
                 || (&& !GrowTest(entries + 1, buckets) && TooManyTombstones(entries + 1, tombstones, buckets)
                     && buckets > DOUBLING_LIMIT && entries >= MIN_BUCKETS)
  {
    RehashSizeIs(entries, tombstones, buckets);
    if buckets >= DOUBLING_LIMIT {
      SizeSteps(buckets);
      if GrowTest(entries + 1, buckets) {
        WrappedDoubling(entries, buckets);
      }
      GrownIsPowerOfTwo(buckets);
    }
  }

  /** Not every wrapped rehash is fatal: two entries among the tombstones of 2^31 buckets fit
      the four that they are rehashed into, and leave room for a third. */
  lemma TwoEntriesFitFour(tombstones: nat)
    requires 0x7000_0000 <= tombstones < 0x8000_0000 - 2
    ensures !GrowTest(3, 0x8000_0000) && RehashSize(2, tombstones, 0x8000_0000) == 4
  {
    hide GrowTest, TooManyTombstones, GrownBuckets;
    GrownIsPowerOfTwo(0x8000_0000);
    FewEntriesFit(2, 0x8000_0000);
    RehashTestIsPlain(3, tombstones, 0x8000_0000);
  }

  lemma WrappedTriple()
    ensures 0x8000_0000 * 3 % WORD32 == 0x8000_0000
  {
    DivModUnique(0x8000_0000 * 3, WORD32, 1, 0x8000_0000);
  }

  lemma ResizeNeedsHeadroom(size: nat)
    ensures size < WORD32 / 2 ==> size < GrownBuckets(size % WORD32)
    ensures size >= WORD32 / 2 ==> GrownBuckets(size % WORD32) < size
  {
    GrownIsPowerOfTwo(size % WORD32);
    SizeSteps(GrownBuckets(size % WORD32));
  }

  /** The size that shrink_and_clear picks for a map that is not empty: twice the power of
      two that holds the entries, as a signed word, and at least four. */
  method ShrunkenSize(entries: nat) returns (size: nat)
    requires 0 < entries <= DOUBLING_LIMIT
    ensures PowerOfTwoSize(size) && MIN_BUCKETS <= size
    ensures entries <= DOUBLING_LIMIT / 2 ==> 2 * entries <= size
    ensures size > MIN_BUCKETS ==> entries <= DOUBLING_LIMIT / 2 && size < 4 * entries
  {
    var log := Log2Ceil(entries);
    LogOfEntries(entries, log);
    var shifted: int := if log + 1 < 31 then Pow2(log + 1) else Pow2(log + 1) - WORD32;
    size := if MIN_BUCKETS > shifted then MIN_BUCKETS else shifted;
    assert Pow2(2) == MIN_BUCKETS;
  }

  lemma LogOfEntries(entries: nat, log: nat)
    requires 0 < entries <= DOUBLING_LIMIT && entries <= Pow2(log) && (log > 0 ==> Pow2(log - 1) < entries)
    ensures log <= 30 && Pow2(log) <= DOUBLING_LIMIT
    ensures log == 30 <==> entries > DOUBLING_LIMIT / 2
  {
    assert Pow2(32) == 2 * Pow2(31) && Pow2(31) == 2 * Pow2(30) && Pow2(30) == 2 * Pow2(29);
    WordSizes();
    if log > 30 {
      Pow2Monotone(30, log - 1);
    } else if log == 30 {
    } else {
      Pow2Monotone(log, 29);
    }
  }

  /** The wrapped test of clear misses no table that is mostly unused. */
  lemma ClearShrinks(entries: nat, buckets: nat)
    requires buckets > 0 ==> PowerOfTwoSize(buckets)
    requires entries <= DOUBLING_LIMIT
    ensures entries * 4 % WORD32 < buckets ==> entries * 4 < buckets || entries > DOUBLING_LIMIT / 2
    ensures entries * 4 < buckets ==> entries * 4 % WORD32 < buckets
  {
    if buckets > 0 {
      SizeSteps(buckets);
    }
  }

  /** As long as the entries fit, the difference in the rehash test does not wrap. */
  lemma RehashTestIsPlain(newEntries: nat, tombstones: nat, buckets: nat)
    requires newEntries + tombstones <= buckets < WORD32
    ensures TooManyTombstones(newEntries, tombstones, buckets)
            <==> 8 * (buckets - (newEntries + tombstones)) <= buckets
  {
    var free: nat := buckets - (newEntries + tombstones);
    assert free % WORD32 == free;
  }

  lemma HasRoomWhenHalf(entries: nat, buckets: nat)
    requires 2 * entries <= buckets && 0 < buckets < WORD32
    ensures HasRoom(entries, buckets)
  {
    RehashTestIsPlain(entries, 0, buckets);
  }

  lemma HasRoomForFewer(entries: nat, more: nat, buckets: nat)
    requires entries <= more && HasRoom(more, buckets) && more <= buckets < WORD32
    ensures HasRoom(entries, buckets)
  {
    RehashTestIsPlain(entries, 0, buckets);
    RehashTestIsPlain(more, 0, buckets);
  }

  /** A table that is too full grows to one with room for the new entry. */
  lemma GrowingMakesRoom(entries: nat, buckets: nat)
    requires buckets == 0 || PowerOfTwoSize(buckets)
    requires entries < buckets || entries == 0
    requires buckets < DOUBLING_LIMIT
    ensures buckets * 2 < WORD32 / 2
    ensures HasRoom(entries + 1, GrownBuckets(buckets * 2)) && 2 * buckets < GrownBuckets(buckets * 2)
  {
    GrownIsPowerOfTwo(buckets * 2);
    SizeSteps(GrownBuckets(buckets * 2));
    HasRoomWhenHalf(entries + 1, GrownBuckets(buckets * 2));
  }

  /** A table full of tombstones is rehashed into one with room for the new entry. */
  lemma RehashMakesRoom(newEntries: nat, buckets: nat)
    requires buckets <= DOUBLING_LIMIT && newEntries > 0 && !TooFull(newEntries, buckets)
    ensures buckets < WORD32 / 2
    ensures HasRoom(newEntries, GrownBuckets(buckets)) && buckets < GrownBuckets(buckets)
  {
    GrownIsPowerOfTwo(buckets);
    SizeSteps(GrownBuckets(buckets));
    RehashTestIsPlain(newEntries, 0, GrownBuckets(buckets));
  }

  /** The size that grow picks is a power of two of at least four and above the request;
      from 2^31 on the request overflows, and the size is four. */
  lemma GrownIsPowerOfTwo(atLeast: nat)
    requires atLeast < WORD32
    ensures PowerOfTwoSize(GrownBuckets(atLeast)) && GrownBuckets(atLeast) >= MIN_BUCKETS
    ensures atLeast < WORD32 / 2 ==> atLeast < GrownBuckets(atLeast)
    ensures atLeast >= WORD32 / 2 ==> GrownBuckets(atLeast) == MIN_BUCKETS
  {
    NextPowerOf2OverflowIff(atLeast);
    assert Pow2(2) == MIN_BUCKETS;
    if atLeast < WORD32 / 2 {
      PowerAboveFits(atLeast);
      assert GrownBuckets(atLeast) == Pow2(BitLength(atLeast)) || GrownBuckets(atLeast) == Pow2(2);
    }
  }

  /** And it is the least such power. */
  lemma GrownIsLeast(atLeast: nat, k: nat)
    requires atLeast < WORD32 / 2 && Pow2(k) > atLeast && Pow2(k) >= MIN_BUCKETS
    ensures GrownBuckets(atLeast) <= Pow2(k)
  {
    NextPowerOf2OverflowIff(atLeast);
    PowerAboveIsLeast(atLeast, k);
  }

  lemma PowerAboveFits(x: nat)
    requires x < WORD32 / 2
    ensures BitLength(x) <= 31 && x < PowerAbove(x)
  {
    assert Pow2(32) == 2 * Pow2(31);
    WordSizes();
    BitLengthBounds(x);
    if BitLength(x) > 31 {
      Pow2Monotone(31, BitLength(x) - 1);
    }
  }

  /** The compacting rehash makes room for the entries and strictly shrinks. */
  lemma CompactShrinks(entries: nat, buckets: nat)
    requires 0 < entries < buckets / 16 && MIN_COMPACT < buckets <= WORD32 / 2
    ensures entries * 2 < WORD32 / 2
    ensures 4 * entries < 3 * GrownBuckets(entries * 2) && GrownBuckets(entries * 2) < buckets
  {
    GrownIsPowerOfTwo(entries * 2);
    NextPowerOf2OverflowIff(entries * 2);
    PowerAboveIsLeast(entries * 2, 0);
  }

  /** Doubling a table with 2^30 buckets or more wraps the requested size, and the
      new table then has four buckets: a table grows exactly when it has fewer. */
  lemma GrowthNeedsHeadroom(buckets: nat)
    requires PowerOfTwoSize(buckets)
    ensures GrownBuckets(Doubled(buckets)) > buckets <==> buckets < DOUBLING_LIMIT
    ensures buckets >= DOUBLING_LIMIT ==> GrownBuckets(Doubled(buckets)) == MIN_BUCKETS
  {
    SizeSteps(buckets);
    if buckets < DOUBLING_LIMIT {
      assert buckets * 2 % WORD32 == buckets * 2;
      GrowingMakesRoom(0, buckets);
    } else {
      GrownIsPowerOfTwo(Doubled(buckets));
      assert PowerAbove(0) == 1;
    }
  }

  /** What the map operations promise with purging: every lookup sees the same value,
      since an absent key reads as zero. Without purging the maps are equal. */
  lemma SameLookups<K, V>(purge: bool, zero: V, m: map<K, V>, m': map<K, V>, k: K)
    requires DropsOnlyZeros(purge, zero, m, m')
    ensures (if k in m' then m'[k] else zero) == (if k in m then m[k] else zero)
    ensures !purge ==> m' == m
  {
  }
}
