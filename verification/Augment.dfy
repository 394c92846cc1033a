/** The second stage of the perfect-hash builder: each bucket in turn gets the first
    displacement that sends all of its keys to free hash values. */
module Augment {
  import opened Bits
  import opened Pigeonholes
  import opened Scramble
  import opened KeyBuckets
  import opened Wrappers

  /** The hash of a key whose bucket has displacement v. */
  function HashWith(keys: seq<Key>, scramble: seq<nat>, k: nat, v: nat): nat
    requires k < |keys| && v < |scramble|
  {
    Xor(keys[k].a, scramble[v])
  }

  /** The final hash of a key. */
  function HashOf(keys: seq<Key>, bs: seq<Bucket>, scramble: seq<nat>, k: nat): nat
    requires k < |keys| && keys[k].b < |bs| && bs[keys[k].b].val < |scramble|
  {
    HashWith(keys, scramble, k, bs[keys[k].b].val)
  }

  /** Buckets that hold the keys grouped, with byte displacements, and a scramble
      table whose hashes stay below smax. */
  ghost predicate Setting(keys: seq<Key>, bs: seq<Bucket>, scramble: seq<nat>, smax: nat) {
    && |scramble| == SCRAMBLE_LEN
    && (forall k :: 0 <= k < |keys| ==> keys[k].b < |bs|)
    && (forall b :: 0 <= b < |bs| ==> bs[b].val < SCRAMBLE_LEN)
    && Grouped(bs, keys, |keys|) && DistinctPairs(keys, |keys|)
    && (forall k, v :: 0 <= k < |keys| && 0 <= v < SCRAMBLE_LEN ==> HashWith(keys, scramble, k, v) < smax)
  }

  /** The table holds exactly the keys of the placed buckets, each at its hash. */
  ghost predicate Placed(tabh: seq<Option<nat>>, keys: seq<Key>, bs: seq<Bucket>, scramble: seq<nat>, done: set<nat>)
    requires Setting(keys, bs, scramble, |tabh|)
  {
    && (forall k :: 0 <= k < |keys| && keys[k].b in done ==> tabh[HashOf(keys, bs, scramble, k)] == Some(k))
    && (forall h :: 0 <= h < |tabh| && tabh[h].Some? ==>
          tabh[h].value < |keys| && keys[tabh[h].value].b in done && HashOf(keys, bs, scramble, tabh[h].value) == h)
  }

  /** Displacement v sends every key of the list to a free hash. */
  ghost predicate FreeAt(tabh: seq<Option<nat>>, keys: seq<Key>, list: seq<nat>, scramble: seq<nat>, v: nat)
    requires v < |scramble|
  {
    forall p :: 0 <= p < |list| ==>
                  && list[p] < |keys| && HashWith(keys, scramble, list[p], v) < |tabh|
                  && tabh[HashWith(keys, scramble, list[p], v)] == None
  }

  lemma FreeNext(tabh: seq<Option<nat>>, keys: seq<Key>, list: seq<nat>, scramble: seq<nat>, v: nat, p: nat)
    requires v < |scramble| && p < |list| && list[p] < |keys| && HashWith(keys, scramble, list[p], v) < |tabh|
    ensures FreeAt(tabh, keys, list[..p + 1], scramble, v) <==>
            FreeAt(tabh, keys, list[..p], scramble, v) && tabh[HashWith(keys, scramble, list[p], v)] == None
    ensures tabh[HashWith(keys, scramble, list[p], v)] != None ==> !FreeAt(tabh, keys, list, scramble, v)
  {
    assert list[..p + 1] == list[..p] + [list[p]];
  }

  // ------------------------------------------------------------------ one displacement

  /** The walk over one bucket's keys for one displacement. `clean` says that the walk
      was not cut short; then `child` is the one bucket it hit, if any. */
  method TryValue(tabb: array<Bucket>, tabh: array<Option<nat>>, keys: seq<Key>, scramble: seq<nat>,
                  item: nat, v: nat, highwater: nat, ghost done: set<nat>)
    returns (clean: bool, child: Option<nat>)
    requires Setting(keys, tabb[..], scramble, tabh.Length) && Placed(tabh[..], keys, tabb[..], scramble, done)
    requires item < tabb.Length && v < SCRAMBLE_LEN
    ensures clean && child.None? <==> FreeAt(tabh[..], keys, tabb[item].list, scramble, v)
    ensures clean && child.Some? ==>
              child.value < tabb.Length && child.value in done && tabb[child.value].water != highwater
  {
    var list := tabb[item].list;
    KeysWithBelow(keys, |keys|, item);
    child := None;
    var p := 0;
    while p < |list|
      invariant p <= |list|
      invariant child.None? <==> FreeAt(tabh[..], keys, list[..p], scramble, v)
      invariant child.Some? ==>
                  child.value < tabb.Length && child.value in done && tabb[child.value].water != highwater
    {
      var hash := HashWith(keys, scramble, list[p], v);
      FreeNext(tabh[..], keys, list, scramble, v, p);
      if hash >= tabh.Length {
        assert false;
      }
      var childkey := tabh[hash];
      if childkey.Some? {
        var hitb := keys[childkey.value].b;
        if child.Some? {
          if child.value != hitb {
            return false, child;
          }
        } else {
          child := Some(hitb);
          if tabb[hitb].water == highwater {
            return false, child;
          }
        }
      }
      p := p + 1;
    }
    assert list[..p] == list;
    return true, child;
  }

  // ------------------------------------------------------------------ applying a displacement

  /** Two keys of one bucket never get the same hash: their a differ. */
  lemma SameBucketDiffers(keys: seq<Key>, bs: seq<Bucket>, scramble: seq<nat>, smax: nat,
                          b: nat, p: nat, q: nat, v: nat)
    requires Setting(keys, bs, scramble, smax) && b < |bs| && v < SCRAMBLE_LEN
    requires p < q < |bs[b].list|
    ensures bs[b].list[p] < |keys| && bs[b].list[q] < |keys|
    ensures HashWith(keys, scramble, bs[b].list[p], v) != HashWith(keys, scramble, bs[b].list[q], v)
  {
    var list := bs[b].list;
    KeysWithBelow(keys, |keys|, b);
    KeysWithDistinct(keys, |keys|, b);
    var i, j := list[p], list[q];
    if HashWith(keys, scramble, i, v) == HashWith(keys, scramble, j, v) {
      XorInjective(keys[i].a, keys[j].a, scramble[v]);
      assert SamePair(keys, i, j) && SamePair(keys, j, i);
    }
  }

  /** t' is t with the first n keys of the list entered at their hashes. */
  ghost predicate Entered(t: seq<Option<nat>>, t': seq<Option<nat>>, keys: seq<Key>, list: seq<nat>,
                          scramble: seq<nat>, v: nat, n: nat)
    requires v < |scramble| && n <= |list| && AllBelow(list, |keys|)
  {
    && |t'| == |t|
    && (forall q :: 0 <= q < n ==>
          HashWith(keys, scramble, list[q], v) < |t| && t'[HashWith(keys, scramble, list[q], v)] == Some(list[q]))
    && (forall h :: 0 <= h < |t| && t'[h] != t[h] ==>
          exists q :: 0 <= q < n && HashWith(keys, scramble, list[q], v) == h)
  }

  /** Entering all keys of one more bucket at free hashes places that bucket too. */
  lemma EnteredIsPlaced(t: seq<Option<nat>>, t': seq<Option<nat>>, keys: seq<Key>, bs: seq<Bucket>,
                        scramble: seq<nat>, done: set<nat>, item: nat, v: nat)
    requires Setting(keys, bs, scramble, |t|) && Placed(t, keys, bs, scramble, done)
    requires item < |bs| && item !in done && v < SCRAMBLE_LEN && AllBelow(bs[item].list, |keys|)
    requires FreeAt(t, keys, bs[item].list, scramble, v)
    requires Entered(t, t', keys, bs[item].list, scramble, v, |bs[item].list|)
    ensures Setting(keys, bs[item := bs[item].(val := v)], scramble, |t'|)
    ensures Placed(t', keys, bs[item := bs[item].(val := v)], scramble, done + {item})
  {
    var bs' := bs[item := bs[item].(val := v)];
    KeysWithBelow(keys, |keys|, item);
    forall k | 0 <= k < |keys| && keys[k].b in done + {item}
      ensures t'[HashOf(keys, bs', scramble, k)] == Some(k)
    {
      KeyIsEntered(t, t', keys, bs, scramble, done, item, v, k);
    }
    forall h | 0 <= h < |t'| && t'[h].Some?
      ensures t'[h].value < |keys| && keys[t'[h].value].b in done + {item}
      ensures HashOf(keys, bs', scramble, t'[h].value) == h
    {
      SlotIsEntered(t, t', keys, bs, scramble, done, item, v, h);
    }
  }

  lemma SlotIsEntered(t: seq<Option<nat>>, t': seq<Option<nat>>, keys: seq<Key>, bs: seq<Bucket>,
                      scramble: seq<nat>, done: set<nat>, item: nat, v: nat, h: nat)
    requires Setting(keys, bs, scramble, |t|) && Placed(t, keys, bs, scramble, done)
    requires item < |bs| && item !in done && v < SCRAMBLE_LEN && AllBelow(bs[item].list, |keys|)
    requires Entered(t, t', keys, bs[item].list, scramble, v, |bs[item].list|)
    requires h < |t'| && t'[h].Some?
    ensures t'[h].value < |keys| && keys[t'[h].value].b in done + {item}
    ensures HashOf(keys, bs[item := bs[item].(val := v)], scramble, t'[h].value) == h
  {
    if t'[h] != t[h] {
      var list := bs[item].list;
      var q :| 0 <= q < |list| && HashWith(keys, scramble, list[q], v) == h;
      assert t'[h] == Some(list[q]);
      KeysWithAre(keys, |keys|, item, list[q]);
      assert keys[list[q]].b == item;
    } else {
      assert keys[t[h].value].b in done;
    }
  }

  lemma KeyIsEntered(t: seq<Option<nat>>, t': seq<Option<nat>>, keys: seq<Key>, bs: seq<Bucket>,
                     scramble: seq<nat>, done: set<nat>, item: nat, v: nat, k: nat)
    requires Setting(keys, bs, scramble, |t|) && Placed(t, keys, bs, scramble, done)
    requires item < |bs| && item !in done && v < SCRAMBLE_LEN && AllBelow(bs[item].list, |keys|)
    requires FreeAt(t, keys, bs[item].list, scramble, v)
    requires Entered(t, t', keys, bs[item].list, scramble, v, |bs[item].list|)
    requires k < |keys| && keys[k].b in done + {item}
    ensures t'[HashOf(keys, bs[item := bs[item].(val := v)], scramble, k)] == Some(k)
  {
    var list := bs[item].list;
    if keys[k].b == item {
      KeysWithAre(keys, |keys|, item, k);
      var q :| 0 <= q < |list| && list[q] == k;
    } else {
      var h := HashOf(keys, bs, scramble, k);
      assert t[h] == Some(k);
    }
  }

  /** apply: walks the queue from the last entry to the root, rebinding each parent.
      The queue of an augment is one level deep, so only the root is rebound. */
  method Apply(tabb: array<Bucket>, tabh: array<Option<nat>>, tabq: array<QueueEntry>, keys: seq<Key>,
               scramble: seq<nat>, tail: nat, ghost item: nat, ghost done: set<nat>)
    returns (ok: bool)
    requires Setting(keys, tabb[..], scramble, tabh.Length) && Placed(tabh[..], keys, tabb[..], scramble, done)
    requires 2 <= tail <= tabq.Length && tabq[0].b == Some(item) && tabq[tail - 1].parent == 0
    requires item < tabb.Length && item !in done && tabq[tail - 1].newVal < SCRAMBLE_LEN
    requires FreeAt(tabh[..], keys, tabb[item].list, scramble, tabq[tail - 1].newVal)
    modifies tabb, tabh
    ensures ok
    ensures tabb[..] == old(tabb[..])[item := old(tabb[item]).(val := tabq[tail - 1].newVal)]
    ensures Setting(keys, tabb[..], scramble, tabh.Length)
    ensures Placed(tabh[..], keys, tabb[..], scramble, done + {item})
  {
    var child := tail - 1;
    while child != 0
      invariant child == 0 || child == tail - 1
      invariant child != 0 ==> tabb[..] == old(tabb[..]) && tabh[..] == old(tabh[..])
      invariant child == 0 ==>
                  && tabb[..] == old(tabb[..])[item := old(tabb[item]).(val := tabq[tail - 1].newVal)]
                  && Setting(keys, tabb[..], scramble, tabh.Length)
                  && Placed(tabh[..], keys, tabb[..], scramble, done + {item})
      decreases child
    {
      var parent := tabq[child].parent;
      Rebind(tabb, tabh, keys, scramble, tabq[parent].b.value, tabq[child].newVal, done);
      child := parent;
    }
    return true;
  }

  /** Gives a bucket a new displacement: erases its old hashes and enters the new ones.
      An unplaced bucket has no hash to erase, and no new hash is taken, so nothing is
      ever rolled back. */
  method Rebind(tabb: array<Bucket>, tabh: array<Option<nat>>, keys: seq<Key>,
                scramble: seq<nat>, b: nat, v: nat, ghost done: set<nat>)
    requires Setting(keys, tabb[..], scramble, tabh.Length) && Placed(tabh[..], keys, tabb[..], scramble, done)
    requires b < tabb.Length && b !in done && v < SCRAMBLE_LEN
    requires FreeAt(tabh[..], keys, tabb[b].list, scramble, v)
    modifies tabb, tabh
    ensures tabb[..] == old(tabb[..])[b := old(tabb[b]).(val := v)]
    ensures Setting(keys, tabb[..], scramble, tabh.Length)
    ensures Placed(tabh[..], keys, tabb[..], scramble, done + {b})
  {
    var list := tabb[b].list;
    KeysWithBelow(keys, |keys|, b);
    var p := 0;
    while p < |list|
      invariant p <= |list| && tabh[..] == old(tabh[..]) && tabb[..] == old(tabb[..])
    {
      var hash := HashWith(keys, scramble, list[p], tabb[b].val);
      if tabh[hash] == Some(list[p]) {
        // Erasing an old hash: the bucket has none.
        assert false;
      }
      p := p + 1;
    }
    p := 0;
    while p < |list|
      invariant p <= |list| && tabb[..] == old(tabb[..])
      invariant Entered(old(tabh[..]), tabh[..], keys, list, scramble, v, p)
    {
      var hash := HashWith(keys, scramble, list[p], v);
      EnteringHitsFreeHash(old(tabh[..]), tabh[..], keys, old(tabb[..]), scramble, b, v, p);
      if tabh[hash].Some? {
        // Rolling back after a collision: there is none.
        assert false;
      }
      tabh[hash] := Some(list[p]);
      p := p + 1;
    }
    EnteredIsPlaced(old(tabh[..]), tabh[..], keys, old(tabb[..]), scramble, done, b, v);
    tabb[b] := tabb[b].(val := v);
  }

  lemma EnteringHitsFreeHash(t: seq<Option<nat>>, t': seq<Option<nat>>, keys: seq<Key>, bs: seq<Bucket>,
                             scramble: seq<nat>, b: nat, v: nat, p: nat)
    requires Setting(keys, bs, scramble, |t|) && b < |bs| && v < SCRAMBLE_LEN && p < |bs[b].list|
    requires AllBelow(bs[b].list, |keys|) && FreeAt(t, keys, bs[b].list, scramble, v)
    requires Entered(t, t', keys, bs[b].list, scramble, v, p)
    ensures t'[HashWith(keys, scramble, bs[b].list[p], v)] == None
    ensures forall q :: 0 <= q < p ==>
              HashWith(keys, scramble, bs[b].list[q], v) != HashWith(keys, scramble, bs[b].list[p], v)
  {
    forall q | 0 <= q < p
      ensures HashWith(keys, scramble, bs[b].list[q], v) != HashWith(keys, scramble, bs[b].list[p], v)
    {
      SameBucketDiffers(keys, bs, scramble, |t|, b, q, p, v);
    }
  }

  // ------------------------------------------------------------------ augment

  /** The same buckets but for water marks: some are raised to `highwater`. */
  ghost predicate OnlyWaterRaised(bs: seq<Bucket>, bs': seq<Bucket>, raised: set<nat>, highwater: nat) {
    && |bs'| == |bs|
    && forall b :: 0 <= b < |bs| ==> bs'[b] == if b in raised then bs[b].(water := highwater) else bs[b]
  }

  lemma WaterDoesNotMatter(keys: seq<Key>, bs: seq<Bucket>, bs': seq<Bucket>, scramble: seq<nat>,
                           tabh: seq<Option<nat>>, done: set<nat>, raised: set<nat>, highwater: nat)
    requires Setting(keys, bs, scramble, |tabh|) && Placed(tabh, keys, bs, scramble, done)
    requires OnlyWaterRaised(bs, bs', raised, highwater)
    ensures Setting(keys, bs', scramble, |tabh|) && Placed(tabh, keys, bs', scramble, done)
  {
    assert forall b :: 0 <= b < |bs| ==> bs'[b].val == bs[b].val && bs'[b].list == bs[b].list;
    assert forall k :: 0 <= k < |keys| ==> HashOf(keys, bs', scramble, k) == HashOf(keys, bs, scramble, k);
  }

  /** Every queued child is a placed bucket and no child is queued twice, so the queue
      never runs out of its one slot per bucket. */
  lemma QueueHasRoom(raised: set<nat>, n: nat, item: nat)
    requires item < n && item !in raised && forall b :: b in raised ==> b < n
    ensures |raised| <= n - 1
  {
    var others := Range(n) - {item};
    assert raised <= others;
    assert |others| == n - 1;
    SubsetSize(raised, others);
  }

  /** Displacement v is the first that sends every key of the list to a free hash. */
  ghost predicate FirstFit(tabh: seq<Option<nat>>, keys: seq<Key>, list: seq<nat>, scramble: seq<nat>, v: nat)
    requires |scramble| == SCRAMBLE_LEN
  {
    v < SCRAMBLE_LEN && FreeAt(tabh, keys, list, scramble, v)
    && forall u :: 0 <= u < v ==> !FreeAt(tabh, keys, list, scramble, u)
  }

  /** Only the item's displacement and some water marks change. */
  ghost predicate OthersKept(bs: seq<Bucket>, bs': seq<Bucket>, item: nat, highwater: nat) {
    && |bs'| == |bs|
    && (forall b :: 0 <= b < |bs| ==>
          && (b != item ==> bs'[b].val == bs[b].val)
          && bs'[b].listLen == bs[b].listLen && bs'[b].water in {bs[b].water, highwater})
  }

  lemma RaisedKeepsOthers(bs: seq<Bucket>, bs': seq<Bucket>, raised: set<nat>, highwater: nat, item: nat, v: nat)
    requires item < |bs|
    requires OnlyWaterRaised(bs, bs', raised, highwater)
             || OnlyWaterRaised(bs[item := bs[item].(val := v)], bs', raised, highwater)
    ensures OthersKept(bs, bs', item, highwater)
  {
  }

  /** What the search for a displacement has changed so far: water marks of queued
      buckets, and the queue. */
  ghost predicate Searching(bs: seq<Bucket>, bs': seq<Bucket>, queue: seq<QueueEntry>, item: nat, tail: nat,
                            raised: set<nat>, highwater: nat) {
    && OnlyWaterRaised(bs, bs', raised, highwater)
    && item < |bs| && item !in raised && (forall b :: b in raised ==> b < |bs|)
    && tail == |raised| + 1 && |queue| == |bs| + 1 && queue[0].b == Some(item)
  }

  /** augment: gives the item the first displacement that works. It fails exactly when
      none works, and never changes the displacement of another bucket. */
  method Augment(tabb: array<Bucket>, tabh: array<Option<nat>>, tabq: array<QueueEntry>, keys: seq<Key>,
                 scramble: seq<nat>, item: nat, highwater: nat, ghost done: set<nat>)
    returns (ok: bool)
    requires Setting(keys, tabb[..], scramble, tabh.Length) && Placed(tabh[..], keys, tabb[..], scramble, done)
    requires item < tabb.Length && item !in done && tabq.Length == tabb.Length + 1
    requires forall b :: 0 <= b < tabb.Length ==> tabb[b].water != highwater
    modifies tabb, tabh, tabq
    ensures ok <==> exists v :: 0 <= v < SCRAMBLE_LEN && FreeAt(old(tabh[..]), keys, old(tabb[item].list), scramble, v)
    ensures ok ==> FirstFit(old(tabh[..]), keys, old(tabb[item].list), scramble, tabb[item].val)
    ensures !ok ==> tabh[..] == old(tabh[..]) && tabb[item].val == old(tabb[item].val)
    ensures OthersKept(old(tabb[..]), tabb[..], item, highwater)
    ensures Setting(keys, tabb[..], scramble, tabh.Length)
    ensures Placed(tabh[..], keys, tabb[..], scramble, if ok then done + {item} else done)
  {
    ghost var bs, t := tabb[..], tabh[..];
    ghost var raised: set<nat> := {};
    tabq[0] := tabq[0].(b := Some(item));
    var tail := 1;
    var i := 0;
    while i < SCRAMBLE_LEN
      invariant i <= SCRAMBLE_LEN && tabh[..] == t
      invariant Searching(bs, tabb[..], tabq[..], item, tail, raised, highwater)
      invariant forall u :: 0 <= u < i ==> !FreeAt(t, keys, bs[item].list, scramble, u)
    {
      ok, tail, raised := TryNext(tabb, tabh, tabq, keys, scramble, item, i, tail, highwater, bs, raised, done);
      RaisedKeepsOthers(bs, tabb[..], raised, highwater, item, i);
      if ok {
        assert FirstFit(t, keys, bs[item].list, scramble, i);
        return;
      }
      i := i + 1;
    }
    WaterDoesNotMatter(keys, bs, tabb[..], scramble, t, done, raised, highwater);
    RaisedKeepsOthers(bs, tabb[..], raised, highwater, item, 0);
    return false;
  }

  /** One displacement of augment: queues the bucket it hits, or applies it if it hits none. */
  method TryNext(tabb: array<Bucket>, tabh: array<Option<nat>>, tabq: array<QueueEntry>, keys: seq<Key>,
                 scramble: seq<nat>, item: nat, i: nat, tail0: nat, highwater: nat,
                 ghost bs: seq<Bucket>, ghost raised0: set<nat>, ghost done: set<nat>)
    returns (ok: bool, tail: nat, ghost raised: set<nat>)
    requires Setting(keys, bs, scramble, tabh.Length) && Placed(tabh[..], keys, bs, scramble, done)
    requires Searching(bs, tabb[..], tabq[..], item, tail0, raised0, highwater)
    requires item !in done && i < SCRAMBLE_LEN
    modifies tabb, tabh, tabq
    ensures ok <==> FreeAt(old(tabh[..]), keys, bs[item].list, scramble, i)
    ensures !ok ==> tabh[..] == old(tabh[..]) && Searching(bs, tabb[..], tabq[..], item, tail, raised, highwater)
    ensures ok ==> tabb[item].val == i && OnlyWaterRaised(bs[item := bs[item].(val := i)], tabb[..], raised, highwater)
    ensures ok ==> Setting(keys, tabb[..], scramble, tabh.Length)
    ensures ok ==> Placed(tabh[..], keys, tabb[..], scramble, done + {item})
  {
    tail, raised := tail0, raised0;
    WaterDoesNotMatter(keys, bs, tabb[..], scramble, tabh[..], done, raised, highwater);
    QueueHasRoom(raised, tabb.Length, item);
    var clean, child := TryValue(tabb, tabh, keys, scramble, item, i, highwater, done);
    if !clean {
      return false, tail, raised;
    }
    if child.Some? {
      tabb[child.value] := tabb[child.value].(water := highwater);
      raised := raised + {child.value};
    }
    tabq[tail] := QueueEntry(child, 0, i, tabb[item].val);
    tail := tail + 1;
    if child.Some? {
      return false, tail, raised;
    }
    ok := Apply(tabb, tabh, tabq, keys, scramble, tail, item, done);
  }

  // ------------------------------------------------------------------ perfect

  /** Every key is alone at its hash, and the table names exactly the keys. */
  ghost predicate IsPerfect(keys: seq<Key>, bs: seq<Bucket>, scramble: seq<nat>, tabh: seq<Option<nat>>)
    requires Setting(keys, bs, scramble, |tabh|)
  {
    && (forall k :: 0 <= k < |keys| ==> tabh[HashOf(keys, bs, scramble, k)] == Some(k))
    && (forall h :: 0 <= h < |tabh| && tabh[h].Some? ==>
          tabh[h].value < |keys| && HashOf(keys, bs, scramble, tabh[h].value) == h)
  }

  /** So the final hash is injective on the keys and stays in range. */
  lemma PerfectIsInjective(keys: seq<Key>, bs: seq<Bucket>, scramble: seq<nat>, tabh: seq<Option<nat>>, i: nat, j: nat)
    requires Setting(keys, bs, scramble, |tabh|) && IsPerfect(keys, bs, scramble, tabh)
    requires i < |keys| && j < |keys| && i != j
    ensures HashOf(keys, bs, scramble, i) < |tabh|
    ensures HashOf(keys, bs, scramble, i) != HashOf(keys, bs, scramble, j)
  {
    assert tabh[HashOf(keys, bs, scramble, i)] == Some(i);
    assert tabh[HashOf(keys, bs, scramble, j)] == Some(j);
  }

  /** The greedy search is stuck: some bucket is unplaced and no displacement of it
      avoids the keys that are placed already. */
  ghost predicate Stuck(keys: seq<Key>, bs: seq<Bucket>, scramble: seq<nat>, tabh: seq<Option<nat>>,
                        done: set<nat>, item: nat)
    requires Setting(keys, bs, scramble, |tabh|)
  {
    && Placed(tabh, keys, bs, scramble, done) && item < |bs| && item !in done
    && forall v :: 0 <= v < SCRAMBLE_LEN ==> !FreeAt(tabh, keys, bs[item].list, scramble, v)
  }

  /** What is placed after the buckets with more than j keys and the first i of those
      with exactly j. */
  ghost predicate PlacedDownTo(bs: seq<Bucket>, done: set<nat>, j: nat, i: nat) {
    && (forall b :: b in done ==> b < |bs|)
    && (forall b {:trigger bs[b]} :: 0 <= b < |bs| ==>
          (b in done <==> bs[b].listLen > j || (bs[b].listLen == j && b < i)))
    && (forall b {:trigger bs[b]} :: 0 <= b < |bs| ==> bs[b].water == 0 || bs[b].water - 1 in done)
  }

  lemma NonePlacedYet(keys: seq<Key>, bs: seq<Bucket>, scramble: seq<nat>, tabh: seq<Option<nat>>)
    requires Setting(keys, bs, scramble, |tabh|) && forall h :: 0 <= h < |tabh| ==> tabh[h] == None
    ensures Placed(tabh, keys, bs, scramble, {})
  {
  }

  lemma AllPlaced(keys: seq<Key>, bs: seq<Bucket>, scramble: seq<nat>, tabh: seq<Option<nat>>, done: set<nat>)
    requires Setting(keys, bs, scramble, |tabh|) && Placed(tabh, keys, bs, scramble, done)
    requires PlacedDownTo(bs, done, 0, 0)
    ensures IsPerfect(keys, bs, scramble, tabh)
  {
    forall k | 0 <= k < |keys|
      ensures keys[k].b in done
    {
      KeysWithAre(keys, |keys|, keys[k].b, k);
      assert bs[keys[k].b].list != [];
    }
  }

  /** perfect: places the buckets in descending order of their number of keys. */
  method Perfect(tabb: array<Bucket>, tabh: array<Option<nat>>, tabq: array<QueueEntry>,
                 keys: seq<Key>, scramble: seq<nat>)
    returns (ok: bool)
    requires Setting(keys, tabb[..], scramble, tabh.Length) && tabq.Length == tabb.Length + 1
    requires forall b :: 0 <= b < tabb.Length ==> tabb[b].water == 0
    modifies tabb, tabh, tabq
    ensures Setting(keys, tabb[..], scramble, tabh.Length)
    ensures ok ==> IsPerfect(keys, tabb[..], scramble, tabh[..])
    ensures !ok ==> exists done, item :: Stuck(keys, tabb[..], scramble, tabh[..], done, item)
  {
    ClearTable(tabh);
    var maxKeys := MaxListLen(tabb);
    ghost var done: set<nat> := {};
    NonePlacedYet(keys, tabb[..], scramble, tabh[..]);
    var j := maxKeys;
    while j > 0
      invariant Setting(keys, tabb[..], scramble, tabh.Length) && Placed(tabh[..], keys, tabb[..], scramble, done)
      invariant PlacedDownTo(tabb[..], done, j, 0)
    {
      ok, done := PlaceBucketsOfSize(tabb, tabh, tabq, keys, scramble, j, done);
      if !ok {
        return;
      }
      j := j - 1;
    }
    AllPlaced(keys, tabb[..], scramble, tabh[..], done);
    return true;
  }

  /** One round of perfect: the buckets with exactly j keys. */
  method PlaceBucketsOfSize(tabb: array<Bucket>, tabh: array<Option<nat>>, tabq: array<QueueEntry>, keys: seq<Key>,
                            scramble: seq<nat>, j: nat, ghost done0: set<nat>)
    returns (ok: bool, ghost done: set<nat>)
    requires Setting(keys, tabb[..], scramble, tabh.Length) && tabq.Length == tabb.Length + 1
    requires Placed(tabh[..], keys, tabb[..], scramble, done0) && PlacedDownTo(tabb[..], done0, j, 0) && j > 0
    modifies tabb, tabh, tabq
    ensures Setting(keys, tabb[..], scramble, tabh.Length)
    ensures ok ==> Placed(tabh[..], keys, tabb[..], scramble, done) && PlacedDownTo(tabb[..], done, j - 1, 0)
    ensures !ok ==> exists done, item :: Stuck(keys, tabb[..], scramble, tabh[..], done, item)
  {
    done := done0;
    var i: nat := 0;
    while i < tabb.Length
      invariant i <= tabb.Length
      invariant Setting(keys, tabb[..], scramble, tabh.Length) && Placed(tabh[..], keys, tabb[..], scramble, done)
      invariant PlacedDownTo(tabb[..], done, j, i)
    {
      if tabb[i].listLen == j {
        ghost var bs := tabb[..];
        ok := Augment(tabb, tabh, tabq, keys, scramble, i, i + 1, done);
        if !ok {
          assert Stuck(keys, tabb[..], scramble, tabh[..], done, i);
          return;
        }
        PlacedOneMore(bs, tabb[..], done, j, i);
        done := done + {i};
      }
      i := i + 1;
    }
    return true, done;
  }

  lemma PlacedOneMore(bs: seq<Bucket>, bs': seq<Bucket>, done: set<nat>, j: nat, i: nat)
    requires PlacedDownTo(bs, done, j, i) && i < |bs| == |bs'| && bs[i].listLen == j
    requires OthersKept(bs, bs', i, i + 1)
    ensures PlacedDownTo(bs', done + {i}, j, i + 1)
  {
  }

  method ClearTable(tabh: array<Option<nat>>)
    modifies tabh
    ensures forall h :: 0 <= h < tabh.Length ==> tabh[h] == None
  {
    var h := 0;
    while h < tabh.Length
      invariant h <= tabh.Length && forall g :: 0 <= g < h ==> tabh[g] == None
    {
      tabh[h] := None;
      h := h + 1;
    }
  }

  method MaxListLen(tabb: array<Bucket>) returns (maxKeys: nat)
    ensures forall b :: 0 <= b < tabb.Length ==> tabb[b].listLen <= maxKeys
  {
    maxKeys := 0;
    var i := 0;
    while i < tabb.Length
      invariant i <= tabb.Length && forall b :: 0 <= b < i ==> tabb[b].listLen <= maxKeys
    {
      if tabb[i].listLen > maxKeys {
        maxKeys := tabb[i].listLen;
      }
      i := i + 1;
    }
  }
}
