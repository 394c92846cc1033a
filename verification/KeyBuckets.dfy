/** The first stage of the perfect-hash builder: keys split into pairs (a,b) and
    gathered by bucket b. */
module KeyBuckets {
  import opened Pigeonholes
  import opened Wrappers

  /** The bytes of a C string, without the terminator. */
  type Str = seq<nat>

  /** A key with its split hash. */
  datatype Key = Key(name: Str, a: nat, b: nat)

  /** What is known of one bucket: its displacement, its keys (newest first), and
      which augment call last queued it. */
  datatype Bucket = Bucket(val: nat, list: seq<nat>, listLen: nat, water: nat)

  datatype QueueEntry = QueueEntry(b: Option<nat>, parent: nat, newVal: nat, oldVal: nat)

  // ------------------------------------------------------------------ grouping keys by bucket

  /** The first n keys with bucket b, newest first. */
  function KeysWith(keys: seq<Key>, n: nat, b: nat): seq<nat>
    requires n <= |keys|
  {
    if n == 0 then []
    else if keys[n - 1].b == b then [n - 1] + KeysWith(keys, n - 1, b)
    else KeysWith(keys, n - 1, b)
  }

  lemma {:induction false} KeysWithAre(keys: seq<Key>, n: nat, b: nat, i: nat)
    requires n <= |keys|
    ensures i in KeysWith(keys, n, b) <==> i < n && keys[i].b == b
  {
    if n > 0 {
      KeysWithAre(keys, n - 1, b, i);
    }
  }

  lemma {:induction false} KeysWithDistinct(keys: seq<Key>, n: nat, b: nat)
    requires n <= |keys|
    ensures Distinct(KeysWith(keys, n, b))
  {
    if n > 0 {
      KeysWithDistinct(keys, n - 1, b);
      KeysWithBelow(keys, n - 1, b);
    }
  }

  ghost predicate AllBelow(list: seq<nat>, n: nat) {
    forall p :: 0 <= p < |list| ==> list[p] < n
  }

  lemma {:induction false} KeysWithBelow(keys: seq<Key>, n: nat, b: nat)
    requires n <= |keys|
    ensures AllBelow(KeysWith(keys, n, b), n)
    ensures forall p :: 0 <= p < |KeysWith(keys, n, b)| ==> keys[KeysWith(keys, n, b)[p]].b == b
  {
    if n > 0 {
      KeysWithBelow(keys, n - 1, b);
    }
  }

  ghost predicate Grouped(bs: seq<Bucket>, keys: seq<Key>, n: nat)
    requires n <= |keys|
  {
    forall b :: 0 <= b < |bs| ==> bs[b].list == KeysWith(keys, n, b) && bs[b].listLen == |bs[b].list|
  }

  ghost predicate SamePair(keys: seq<Key>, i: nat, j: nat)
    requires i < |keys| && j < |keys|
  {
    keys[i].a == keys[j].a && keys[i].b == keys[j].b
  }

  ghost predicate DistinctPairs(keys: seq<Key>, n: nat)
    requires n <= |keys|
  {
    forall i, j :: 0 <= i < j < n ==> !SamePair(keys, i, j)
  }

  /** inittab: puts the keys into their buckets and reports whether all (a,b) pairs
      are distinct; without `complete` it gives up at the first collision. */
  method InitTab(tabb: array<Bucket>, keys: seq<Key>, complete: bool) returns (nocollision: bool)
    requires forall i :: 0 <= i < |keys| ==> keys[i].b < tabb.Length
    modifies tabb
    ensures nocollision <==> DistinctPairs(keys, |keys|)
    ensures nocollision || complete ==>
              && Grouped(tabb[..], keys, |keys|)
              && forall b :: 0 <= b < tabb.Length ==> tabb[b].val == 0 && tabb[b].water == 0
  {
    nocollision := true;
    var c := 0;
    while c < tabb.Length
      invariant c <= tabb.Length
      invariant forall b :: 0 <= b < c ==> tabb[b] == Bucket(0, [], 0, 0)
    {
      tabb[c] := Bucket(0, [], 0, 0);
      c := c + 1;
    }
    var i := 0;
    while i < |keys|
      invariant i <= |keys|
      invariant nocollision <==> DistinctPairs(keys, i)
      invariant !complete ==> nocollision
      invariant Grouped(tabb[..], keys, i)
      invariant forall b :: 0 <= b < tabb.Length ==> tabb[b].val == 0 && tabb[b].water == 0
    {
      var b := keys[i].b;
      var list := tabb[b].list;
      assert list == KeysWith(keys, i, b);
      KeysWithBelow(keys, i, b);
      var collides := HasSameA(keys, list, keys[i].a);
      CollisionIsSamePair(keys, i);
      DistinctPairsStep(keys, i);
      assert collides <==> Collides(keys, list, i);
      if collides {
        nocollision := false;
        if !complete {
          return false;
        }
      }
      tabb[b] := tabb[b].(listLen := tabb[b].listLen + 1, list := [i] + list);
      i := i + 1;
    }
  }

  /** The scan of one bucket's list for a key with the same a. */
  method HasSameA(keys: seq<Key>, list: seq<nat>, a: nat) returns (found: bool)
    requires AllBelow(list, |keys|)
    ensures found <==> exists p :: 0 <= p < |list| && keys[list[p]].a == a
  {
    found := false;
    var p := 0;
    while p < |list|
      invariant p <= |list|
      invariant found <==> exists q :: 0 <= q < p && keys[list[q]].a == a
    {
      if keys[list[p]].a == a {
        found := true;
      }
      p := p + 1;
    }
  }

  /** Some key of the list of n's bucket has n's a. */
  ghost predicate Collides(keys: seq<Key>, list: seq<nat>, n: nat)
    requires n < |keys| && AllBelow(list, |keys|)
  {
    exists p :: 0 <= p < |list| && keys[list[p]].a == keys[n].a
  }

  lemma CollisionIsSamePair(keys: seq<Key>, n: nat)
    requires n < |keys| && AllBelow(KeysWith(keys, n, keys[n].b), |keys|)
    ensures Collides(keys, KeysWith(keys, n, keys[n].b), n) <==> exists i :: 0 <= i < n && SamePair(keys, i, n)
  {
    var list := KeysWith(keys, n, keys[n].b);
    KeysWithBelow(keys, n, keys[n].b);
    if Collides(keys, list, n) {
      var p :| 0 <= p < |list| && keys[list[p]].a == keys[n].a;
      assert SamePair(keys, list[p], n);
    }
    if i :| 0 <= i < n && SamePair(keys, i, n) {
      KeysWithAre(keys, n, keys[n].b, i);
      var p :| 0 <= p < |list| && list[p] == i;
      assert keys[list[p]].a == keys[n].a;
    }
  }

  lemma DistinctPairsStep(keys: seq<Key>, n: nat)
    requires n < |keys|
    ensures DistinctPairs(keys, n + 1) <==>
            DistinctPairs(keys, n) && !exists i :: 0 <= i < n && SamePair(keys, i, n)
  {
  }
}
