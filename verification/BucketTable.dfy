/** The bucket array of a DenseMap as a value: what it contains, when lookups in it
    are right, and what writing one bucket does to it. */
module BucketTable {
  import opened Bits
  import opened Pigeonholes
  import opened Probing

  datatype Bucket<K, V> = Empty | Tombstone | Live(key: K, value: V)

  type Table<K, V> = seq<Bucket<K, V>>

  // ------------------------------------------------------------------ counting

  /** Buckets of the table in the same state as the sample. */
  predicate SameState<K, V>(b: Bucket<K, V>, sample: Bucket<(), ()>) {
    b.Empty? == sample.Empty? && b.Tombstone? == sample.Tombstone?
  }

  const EMPTY: Bucket<(), ()> := Empty
  const TOMBSTONE: Bucket<(), ()> := Tombstone
  const LIVE: Bucket<(), ()> := Live((), ())

  function One<K, V>(b: Bucket<K, V>, sample: Bucket<(), ()>): nat { if SameState(b, sample) then 1 else 0 }

  function Count<K, V>(t: Table<K, V>, sample: Bucket<(), ()>): nat {
    if t == [] then 0 else Count(t[..|t| - 1], sample) + One(t[|t| - 1], sample)
  }

  lemma {:induction false} CountsAddUp<K, V>(t: Table<K, V>)
    ensures Count(t, EMPTY) + Count(t, TOMBSTONE) + Count(t, LIVE) == |t|
  {
    if t != [] {
      CountsAddUp(t[..|t| - 1]);
    }
  }

  lemma {:induction false} CountOfUpdate<K, V>(t: Table<K, V>, p: nat, b: Bucket<K, V>, sample: Bucket<(), ()>)
    requires p < |t|
    ensures Count(t[p := b], sample) == Count(t, sample) - One(t[p], sample) + One(b, sample)
  {
    var last := |t| - 1;
    if p == last {
      assert t[p := b][..last] == t[..last];
    } else {
      CountOfUpdate(t[..last], p, b, sample);
      assert t[p := b][..last] == t[..last][p := b];
    }
  }

  lemma {:induction false} CountPositive<K, V>(t: Table<K, V>, sample: Bucket<(), ()>)
    ensures Count(t, sample) > 0 <==> exists p :: 0 <= p < |t| && SameState(t[p], sample)
  {
    if t != [] {
      var init := t[..|t| - 1];
      CountPositive(init, sample);
      assert forall p :: 0 <= p < |init| ==> init[p] == t[p];
    }
  }

  lemma CountAfterEmptying<K, V>(t: Table<K, V>, p: nat)
    requires p < |t|
    ensures Count(t[p := Empty], LIVE) == Count(t, LIVE) - One(t[p], LIVE)
    ensures t[p].Live? ==> Count(t, LIVE) > 0
  {
    CountOfUpdate(t, p, Empty, LIVE);
    CountPositive(t, LIVE);
    assert t[p].Live? ==> SameState(t[p], LIVE);
  }

  // ------------------------------------------------------------------ contents

  /** The table holds the pair. */
  ghost predicate Holds<K, V>(t: Table<K, V>, k: K, v: V) {
    exists p :: 0 <= p < |t| && t[p] == Live(k, v)
  }

  ghost predicate UniqueKeys<K, V>(t: Table<K, V>) {
    forall p, q :: 0 <= p < q < |t| && t[p].Live? && t[q].Live? ==> t[p].key != t[q].key
  }

  /** The finite map that the table represents. */
  ghost function Contents<K, V>(t: Table<K, V>): map<K, V> {
    if t == [] then map[]
    else
      var init := Contents(t[..|t| - 1]);
      var last := t[|t| - 1];
      if last.Live? then init[last.key := last.value] else init
  }

  lemma {:induction false} ContentsAre<K, V>(t: Table<K, V>, k: K)
    requires UniqueKeys(t)
    ensures k in Contents(t) <==> exists p :: 0 <= p < |t| && t[p].Live? && t[p].key == k
    ensures k in Contents(t) ==> Holds(t, k, Contents(t)[k])
  {
    if t != [] {
      var init, last := t[..|t| - 1], t[|t| - 1];
      ContentsAre(init, k);
      assert forall p :: 0 <= p < |init| ==> init[p] == t[p];
      if k in Contents(t) {
        if last.Live? && last.key == k {
          assert t[|t| - 1] == Live(k, Contents(t)[k]);
        } else {
          assert Holds(init, k, Contents(init)[k]);
        }
      }
    }
  }

  lemma ContentsAt<K, V>(t: Table<K, V>, p: nat)
    requires UniqueKeys(t) && p < |t| && t[p].Live?
    ensures t[p].key in Contents(t) && Contents(t)[t[p].key] == t[p].value
  {
    var k := t[p].key;
    ContentsAre(t, k);
    var q :| 0 <= q < |t| && t[q] == Live(k, Contents(t)[k]);
    assert p == q;
  }

  /** As many live buckets as keys. */
  lemma {:induction false} LiveCountIsSize<K, V>(t: Table<K, V>)
    requires UniqueKeys(t)
    ensures Count(t, LIVE) == |Contents(t)|
  {
    if t != [] {
      var init, last := t[..|t| - 1], t[|t| - 1];
      LiveCountIsSize(init);
      assert forall p :: 0 <= p < |init| ==> init[p] == t[p];
      if last.Live? {
        ContentsAre(init, last.key);
        assert Contents(t).Keys == Contents(init).Keys + {last.key};
      }
    }
  }

  // ------------------------------------------------------------------ probe paths

  ghost predicate PowerOfTwoSize(n: nat) {
    exists k: nat :: k <= 31 && n == Pow2(k)
  }

  /** The probe with index i is reached: no bucket before it on the path is empty. */
  ghost predicate Reached<K, V>(t: Table<K, V>, h: nat, i: nat)
    requires |t| > 0
  {
    forall j: nat :: j < i ==> !t[Probe(h, j, |t|)].Empty?
  }

  ghost predicate OnPath<K, V>(t: Table<K, V>, h: nat, p: nat)
    requires |t| > 0
  {
    exists i: nat :: i < |t| && Probe(h, i, |t|) == p && Reached(t, h, i)
  }

  /** Every live bucket can be found by probing for its key, and only it. */
  ghost predicate Searchable<K, V>(t: Table<K, V>, hash: K -> nat) {
    && UniqueKeys(t)
    && (|t| > 0 ==> PowerOfTwoSize(|t|))
    && forall p :: 0 <= p < |t| && t[p].Live? ==> OnPath(t, hash(t[p].key), p)
  }

  ghost predicate HasEmpty<K, V>(t: Table<K, V>) {
    exists p :: 0 <= p < |t| && t[p].Empty?
  }

  /** The path of any hash meets an empty bucket within one lap. */
  lemma PathMeetsEmpty<K, V>(t: Table<K, V>, h: nat) returns (i: nat)
    requires PowerOfTwoSize(|t|) && HasEmpty(t)
    ensures i < |t| && t[Probe(h, i, |t|)].Empty?
  {
    var p :| 0 <= p < |t| && t[p].Empty?;
    var k: nat :| k <= 31 && |t| == Pow2(k);
    ProbesCover(h, k, p);
    i :| 0 <= i < Pow2(k) && Probe(h, i, Pow2(k)) == p;
  }

  /** Where the search for a key ends: at an empty bucket or at its own, within one lap; or
      after a lap, when the key is absent and no bucket is empty. */
  lemma PathStops<K, V>(t: Table<K, V>, hash: K -> nat, k: K) returns (i: nat)
    requires Searchable(t, hash) && |t| > 0
    ensures i < |t| ==> var b := t[Probe(hash(k), i, |t|)]; b.Empty? || (b.Live? && b.key == k)
    ensures i >= |t| ==> i == |t| && !HasEmpty(t) && k !in Contents(t)
  {
    ContentsAre(t, k);
    if HasEmpty(t) {
      i := PathMeetsEmpty(t, hash(k));
    } else if k in Contents(t) {
      var p :| 0 <= p < |t| && t[p].Live? && t[p].key == k;
      assert OnPath(t, hash(k), p);
      i :| 0 <= i < |t| && Probe(hash(k), i, |t|) == p && Reached(t, hash(k), i);
    } else {
      i := |t|;
    }
  }

  /** A bucket that an insert may overwrite. */
  predicate Reusable<K, V(==)>(purge: bool, zero: V, b: Bucket<K, V>) {
    !b.Live? || (purge && b.value == zero)
  }

  /** Where an absent key goes: the first reusable bucket of its path. */
  ghost predicate InsertionPoint<K, V>(t: Table<K, V>, purge: bool, zero: V, h: nat, p: nat) {
    exists i: nat :: i < |t| && Probe(h, i, |t|) == p && Reusable(purge, zero, t[p])
                     && forall j: nat :: j < i ==> !Reusable(purge, zero, t[Probe(h, j, |t|)])
  }

  /** What a probe has remembered before its i-th bucket: the first reusable bucket of the
      path, which has index `mark`, or -1 if there was none. */
  ghost predicate Remembered<K, V>(t: Table<K, V>, purge: bool, zero: V, h: nat, i: nat, found: int, mark: nat)
    requires |t| > 0
  {
    if found == -1 then NoneReusable(t, purge, zero, h, i)
    else
      && mark < i && found == Probe(h, mark, |t|) && Reusable(purge, zero, t[found])
      && NoneReusable(t, purge, zero, h, mark)
  }

  ghost predicate NoneReusable<K, V>(t: Table<K, V>, purge: bool, zero: V, h: nat, i: nat)
    requires |t| > 0
  {
    forall j: nat :: j < i ==> !Reusable(purge, zero, t[Probe(h, j, |t|)])
  }

  /** Remembering one more bucket of the path. */
  lemma RememberNext<K, V>(t: Table<K, V>, purge: bool, zero: V, h: nat, i: nat, found: int, mark: nat)
    requires |t| > 0 && Remembered(t, purge, zero, h, i, found, mark)
    ensures var b := Probe(h, i, |t|);
            if found == -1 && Reusable(purge, zero, t[b]) then Remembered(t, purge, zero, h, i + 1, b, i)
            else Remembered(t, purge, zero, h, i + 1, found, mark)
  {
  }

  /** When the path ends in an empty bucket, the remembered bucket, or else the empty one,
      is where the key goes. */
  lemma RememberedIsInsertionPoint<K, V>(t: Table<K, V>, purge: bool, zero: V, h: nat, i: nat, found: int, mark: nat)
    requires i < |t| && Remembered(t, purge, zero, h, i, found, mark) && t[Probe(h, i, |t|)].Empty?
    ensures found == -1 ==> InsertionPoint(t, purge, zero, h, Probe(h, i, |t|))
    ensures found != -1 ==> found >= 0 && InsertionPoint(t, purge, zero, h, found)
  {
  }

  /** The probe has passed over its first i buckets in search of the key. */
  ghost predicate PassedOver<K, V>(t: Table<K, V>, k: K, h: nat, i: nat)
    requires |t| > 0
  {
    forall j: nat :: j < i ==> var b := t[Probe(h, j, |t|)]; b.Tombstone? || (b.Live? && b.key != k)
  }

  lemma PassedOverNext<K, V>(t: Table<K, V>, k: K, h: nat, i: nat)
    requires |t| > 0 && PassedOver(t, k, h, i)
    requires var b := t[Probe(h, i, |t|)]; b.Tombstone? || (b.Live? && b.key != k)
    ensures PassedOver(t, k, h, i + 1)
  {
  }

  /** Reaching an empty bucket without meeting the key proves the key absent. */
  lemma AbsentKey<K, V>(t: Table<K, V>, hash: K -> nat, k: K, i: nat)
    requires Searchable(t, hash) && |t| > 0
    requires t[Probe(hash(k), i, |t|)].Empty? && PassedOver(t, k, hash(k), i)
    ensures k !in Contents(t)
  {
    ContentsAre(t, k);
  }

  // ------------------------------------------------------------------ writing one bucket

  /** Filling a bucket keeps every other path, since no path loses a non-empty bucket. */
  lemma FillKeepsPaths<K, V>(t: Table<K, V>, h: nat, p: nat, q: nat, b: Bucket<K, V>)
    requires |t| > 0 && q < |t| && !b.Empty? && OnPath(t, h, p)
    ensures OnPath(t[q := b], h, p)
  {
    var i: nat :| i < |t| && Probe(h, i, |t|) == p && Reached(t, h, i);
    assert Reached(t[q := b], h, i);
  }

  /** m' is m, except that purging may have dropped entries with value zero. */
  ghost predicate DropsOnlyZeros<K, V>(purge: bool, zero: V, m: map<K, V>, m': map<K, V>) {
    && m'.Keys <= m.Keys
    && (forall k :: k in m' ==> m'[k] == m[k])
    && (forall k :: k in m && k !in m' ==> purge && m[k] == zero)
  }

  /** What changing the bucket p does to the contents, key by key. */
  lemma ContentsAfterWrite<K, V>(t: Table<K, V>, t': Table<K, V>, p: nat, x: K)
    requires UniqueKeys(t) && UniqueKeys(t') && p < |t| == |t'| && t' == t[p := t'[p]]
    ensures t'[p].Live? && t'[p].key == x ==> x in Contents(t') && Contents(t')[x] == t'[p].value
    ensures !(t'[p].Live? && t'[p].key == x) ==>
              (x in Contents(t') <==> x in Contents(t) && !(t[p].Live? && t[p].key == x))
    ensures !(t'[p].Live? && t'[p].key == x) && x in Contents(t') ==> Contents(t')[x] == Contents(t)[x]
  {
    if t'[p].Live? && t'[p].key == x {
      ContentsAt(t', p);
    } else {
      if x in Contents(t') {
        KeptByWrite(t, t', p, x);
      }
      if x in Contents(t) && !(t[p].Live? && t[p].key == x) {
        KeptByWrite(t', t, p, x);
      }
    }
  }

  /** A key that is in neither version of the bucket keeps its value. */
  lemma KeptByWrite<K, V>(t: Table<K, V>, t': Table<K, V>, p: nat, x: K)
    requires UniqueKeys(t) && UniqueKeys(t') && p < |t| == |t'| && t' == t[p := t'[p]]
    requires x in Contents(t') && !(t'[p].Live? && t'[p].key == x)
    ensures x in Contents(t) && Contents(t)[x] == Contents(t')[x] && !(t[p].Live? && t[p].key == x)
  {
    ContentsAre(t', x);
    var q :| 0 <= q < |t'| && t'[q] == Live(x, Contents(t')[x]);
    assert t[q] == t'[q];
    ContentsAt(t, q);
  }

  lemma MapsAgree<K, V>(m: map<K, V>, m': map<K, V>)
    requires forall x :: x in m <==> x in m'
    requires forall x :: x in m ==> m[x] == m'[x]
    ensures m == m'
  {
  }

  /** Writing an absent key at its insertion point adds exactly that pair, and loses
      at most a purgeable zero. */
  lemma PutIsMapUpdate<K, V>(t: Table<K, V>, hash: K -> nat, purge: bool, zero: V, p: nat, k: K, v: V)
    requires Searchable(t, hash) && k !in Contents(t)
    requires InsertionPoint(t, purge, zero, hash(k), p)
    ensures p < |t| && Searchable(t[p := Live(k, v)], hash)
    ensures Contents(t[p := Live(k, v)]) ==
            (if t[p].Live? then Contents(t) - {t[p].key} else Contents(t))[k := v]
    ensures t[p].Live? ==> purge && t[p].key in Contents(t) && Contents(t)[t[p].key] == zero
  {
    var t' := t[p := Live(k, v)];
    PutIsSearchable(t, hash, purge, zero, p, k, v);
    if t[p].Live? {
      ContentsAt(t, p);
    }
    forall x {
      ContentsAfterWrite(t, t', p, x);
    }
    MapsAgree(Contents(t'), (if t[p].Live? then Contents(t) - {t[p].key} else Contents(t))[k := v]);
  }

  lemma PutIsSearchable<K, V>(t: Table<K, V>, hash: K -> nat, purge: bool, zero: V, p: nat, k: K, v: V)
    requires Searchable(t, hash) && k !in Contents(t)
    requires InsertionPoint(t, purge, zero, hash(k), p)
    ensures p < |t| && Searchable(t[p := Live(k, v)], hash)
  {
    var t' := t[p := Live(k, v)];
    ContentsAre(t, k);
    forall q | 0 <= q < |t'| && t'[q].Live?
      ensures OnPath(t', hash(t'[q].key), q)
    {
      if q != p {
        FillKeepsPaths(t, hash(t[q].key), q, p, Live(k, v));
      } else {
        var i: nat :| i < |t| && Probe(hash(k), i, |t|) == p && Reusable(purge, zero, t[p])
                      && forall j: nat :: j < i ==> !Reusable(purge, zero, t[Probe(hash(k), j, |t|)]);
        assert Reached(t', hash(k), i);
      }
    }
  }

  /** Replacing a live bucket by a tombstone removes exactly its key. */
  lemma BuryIsMapRemove<K, V>(t: Table<K, V>, hash: K -> nat, p: nat)
    requires Searchable(t, hash) && p < |t| && t[p].Live?
    ensures Searchable(t[p := Tombstone], hash)
    ensures Contents(t[p := Tombstone]) == Contents(t) - {t[p].key}
  {
    var t' := t[p := Tombstone];
    forall q | 0 <= q < |t'| && t'[q].Live?
      ensures OnPath(t', hash(t'[q].key), q)
    {
      FillKeepsPaths(t, hash(t[q].key), q, p, Tombstone);
    }
    forall x {
      ContentsAfterWrite(t, t', p, x);
    }
    MapsAgree(Contents(t'), Contents(t) - {t[p].key});
  }

  /** Overwriting the value of a live bucket updates its key. */
  lemma StoreIsMapUpdate<K, V>(t: Table<K, V>, hash: K -> nat, p: nat, v: V)
    requires Searchable(t, hash) && p < |t| && t[p].Live?
    ensures Searchable(t[p := Live(t[p].key, v)], hash)
    ensures Contents(t[p := Live(t[p].key, v)]) == Contents(t)[t[p].key := v]
  {
    var k := t[p].key;
    var t' := t[p := Live(k, v)];
    forall q | 0 <= q < |t'| && t'[q].Live?
      ensures OnPath(t', hash(t'[q].key), q)
    {
      FillKeepsPaths(t, hash(t[q].key), q, p, Live(k, v));
    }
    ContentsAt(t, p);
    forall x {
      ContentsAfterWrite(t, t', p, x);
    }
    MapsAgree(Contents(t'), Contents(t)[k := v]);
  }

  // ------------------------------------------------------------------ rehashing

  /** What rehashing keeps: everything but purgeable zeros. */
  ghost function Keep<K, V>(purge: bool, zero: V, m: map<K, V>): map<K, V> {
    map k | k in m && !(purge && m[k] == zero) :: m[k]
  }

  lemma KeepStep<K, V>(purge: bool, zero: V, m: map<K, V>, k: K, v: V)
    requires k !in m
    ensures Keep(purge, zero, m[k := v]) ==
            if purge && v == zero then Keep(purge, zero, m) else Keep(purge, zero, m)[k := v]
  {
  }

  lemma KeepDropsOnlyZeros<K, V>(purge: bool, zero: V, m: map<K, V>)
    ensures DropsOnlyZeros(purge, zero, m, Keep(purge, zero, m))
    ensures DropsOnlyZeros(purge, zero, m, m)
  {
  }

  lemma DropsThenPut<K, V>(purge: bool, zero: V, m: map<K, V>, m1: map<K, V>, m2: map<K, V>, k: K, v: V)
    requires DropsOnlyZeros(purge, zero, m, m1) && DropsOnlyZeros(purge, zero, m1[k := v], m2)
    ensures DropsOnlyZeros(purge, zero, m[k := v], m2)
  {
  }

  lemma {:induction false} CountOfPrefix<K, V>(t: Table<K, V>, n: nat, sample: Bucket<(), ()>)
    requires n <= |t|
    ensures Count(t[..n], sample) <= Count(t, sample)
  {
    if n < |t| {
      CountOfPrefix(t[..|t| - 1], n, sample);
      assert t[..|t| - 1][..n] == t[..n];
    } else {
      assert t[..n] == t;
    }
  }

  /** Reading one more old bucket. */
  lemma ContentsOfNext<K, V>(t: Table<K, V>, b: nat)
    requires UniqueKeys(t) && b < |t|
    ensures Contents(t[..b + 1]) == if t[b].Live? then Contents(t[..b])[t[b].key := t[b].value] else Contents(t[..b])
    ensures Count(t[..b + 1], LIVE) == Count(t[..b], LIVE) + One(t[b], LIVE)
    ensures t[b].Live? ==> t[b].key !in Contents(t[..b])
  {
    assert t[..b + 1][..b] == t[..b];
    if t[b].Live? {
      ContentsAre(t[..b], t[b].key);
    }
  }

  /** What rehashing carries over from one more old bucket. */
  lemma KeepOfNext<K, V>(t: Table<K, V>, purge: bool, zero: V, b: nat)
    requires UniqueKeys(t) && b < |t|
    ensures var kept, kept' := Keep(purge, zero, Contents(t[..b])), Keep(purge, zero, Contents(t[..b + 1]));
            if t[b].Live? && !(purge && t[b].value == zero)
            then t[b].key !in kept && kept' == kept[t[b].key := t[b].value]
            else kept' == kept
    ensures Count(t[..b + 1], LIVE) == Count(t[..b], LIVE) + One(t[b], LIVE) <= Count(t, LIVE)
  {
    ContentsOfNext(t, b);
    CountOfPrefix(t, b + 1, LIVE);
    if t[b].Live? {
      KeepStep(purge, zero, Contents(t[..b]), t[b].key, t[b].value);
    }
  }

  /** What rehashing keeps of the first buckets is part of what it keeps. */
  lemma KeepOfPrefix<K, V>(t: Table<K, V>, purge: bool, zero: V, n: nat)
    requires UniqueKeys(t) && n <= |t|
    ensures |Keep(purge, zero, Contents(t[..n]))| <= |Keep(purge, zero, Contents(t))|
  {
    var m, m' := Keep(purge, zero, Contents(t[..n])), Keep(purge, zero, Contents(t));
    forall k | k in m
      ensures k in m'
    {
      ContentsAre(t[..n], k);
      var p :| 0 <= p < n && t[..n][p] == Live(k, Contents(t[..n])[k]);
      ContentsAt(t, p);
    }
    SubsetSize(m.Keys, m'.Keys);
  }

  lemma KeepIsSmaller<K, V>(purge: bool, zero: V, m: map<K, V>)
    ensures |Keep(purge, zero, m)| <= |m|
    ensures !purge ==> Keep(purge, zero, m) == m
    ensures Keep(purge, zero, Keep(purge, zero, m)) == Keep(purge, zero, m)
  {
    SubsetSize(Keep(purge, zero, m).Keys, m.Keys);
  }

  /** How filling a bucket changes the counts. */
  lemma CountsOfPut<K, V>(t: Table<K, V>, p: nat, k: K, v: V)
    requires p < |t|
    ensures Count(t[p := Live(k, v)], LIVE) == Count(t, LIVE) + if t[p].Live? then 0 else 1
    ensures t[p].Tombstone? ==> Count(t, TOMBSTONE) > 0
    ensures Count(t[p := Live(k, v)], TOMBSTONE) == Count(t, TOMBSTONE) - if t[p].Tombstone? then 1 else 0
  {
    CountOfUpdate(t, p, Live(k, v), LIVE);
    CountOfUpdate(t, p, Live(k, v), TOMBSTONE);
    if t[p].Tombstone? {
      assert SameState(t[p], TOMBSTONE);
      CountPositive(t, TOMBSTONE);
    }
  }

  /** In a table without tombstones and purgeable zeros an absent key goes to an empty bucket. */
  lemma PlaceIsMapUpdate<K, V>(t: Table<K, V>, hash: K -> nat, purge: bool, zero: V, p: nat, k: K, v: V)
    requires Searchable(t, hash) && k !in Contents(t) && InsertionPoint(t, purge, zero, hash(k), p)
    requires Count(t, TOMBSTONE) == 0 && Keep(purge, zero, Contents(t)) == Contents(t)
    ensures p < |t| && Searchable(t[p := Live(k, v)], hash)
    ensures Contents(t[p := Live(k, v)]) == Contents(t)[k := v]
    ensures Count(t[p := Live(k, v)], LIVE) == Count(t, LIVE) + 1 && Count(t[p := Live(k, v)], TOMBSTONE) == 0
  {
    PutIsMapUpdate(t, hash, purge, zero, p, k, v);
    CountPositive(t, TOMBSTONE);
    assert !SameState(t[p], TOMBSTONE);
    CountOfUpdate(t, p, Live(k, v), LIVE);
    CountOfUpdate(t, p, Live(k, v), TOMBSTONE);
  }

  /** A table has an empty bucket exactly when the live ones and the tombstones are fewer
      than the buckets. */
  lemma HasEmptyIff<K, V>(t: Table<K, V>)
    ensures HasEmpty(t) <==> Count(t, LIVE) + Count(t, TOMBSTONE) < |t|
    ensures Count(t, LIVE) + Count(t, TOMBSTONE) <= |t|
  {
    CountsAddUp(t);
    CountPositive(t, EMPTY);
    assert forall p :: 0 <= p < |t| ==> (t[p].Empty? <==> SameState(t[p], EMPTY));
  }

  lemma OverwriteKeepsEmpty<K, V>(t: Table<K, V>, p: nat, b: Bucket<K, V>)
    requires p < |t| && t[p].Live? && HasEmpty(t)
    ensures HasEmpty(t[p := b])
  {
    var q :| 0 <= q < |t| && t[q].Empty?;
    assert t[p := b][q].Empty?;
  }

  // ------------------------------------------------------------------ empty tables

  lemma {:induction false} AllEmpty<K, V>(t: Table<K, V>)
    requires forall p :: 0 <= p < |t| ==> t[p].Empty?
    ensures Contents(t) == map[] && Count(t, EMPTY) == |t| && Count(t, LIVE) == 0 && Count(t, TOMBSTONE) == 0
  {
    if t != [] {
      AllEmpty(t[..|t| - 1]);
    }
  }
}
