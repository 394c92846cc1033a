/** Sequences without repeats, and how many values they can take. */
module Pigeonholes {

  ghost predicate Distinct<T>(s: seq<T>) {
    forall i, j :: 0 <= i < j < |s| ==> s[i] != s[j]
  }

  /** The sequence takes every value below n. */
  ghost predicate Covers(s: seq<nat>, n: nat) {
    forall x: nat :: x < n ==> x in s
  }

  ghost function Range(n: nat): (r: set<nat>)
    ensures |r| == n && forall x: nat :: x in r <==> x < n
  {
    if n == 0 then {} else Range(n - 1) + {n - 1}
  }

  ghost function Elements(s: seq<nat>): set<nat> { set x | x in s }

  lemma SubsetSize<T>(a: set<T>, b: set<T>)
    requires a <= b
    ensures |a| <= |b|
    ensures |a| == |b| ==> a == b
  {
    assert b == a + (b - a);
  }

  /** A sequence has at most as many values as elements, and as many exactly when no
      value repeats. */
  lemma {:induction false} ElementsSize(s: seq<nat>)
    ensures |Elements(s)| <= |s|
    ensures |Elements(s)| == |s| <==> Distinct(s)
  {
    if s != [] {
      var init, last := s[..|s| - 1], s[|s| - 1];
      ElementsSize(init);
      assert s == init + [last];
      assert Elements(s) == Elements(init) + {last};
      if last in init {
        var i :| 0 <= i < |init| && init[i] == last;
        assert s[i] == s[|s| - 1];
        assert Elements(s) == Elements(init);
      } else {
        assert Distinct(s) <==> Distinct(init);
      }
    }
  }

  /** n distinct numbers below n are all of them. */
  lemma Pigeonhole(s: seq<nat>, b: nat)
    requires Distinct(s) && (forall x :: x in s ==> x < |s|) && b < |s|
    ensures b in s
  {
    ElementsSize(s);
    SubsetSize(Elements(s), Range(|s|));
    assert b in Range(|s|);
  }

  /** Numbers below n can only be distinct if there are at most n of them. */
  lemma DistinctFit(s: seq<nat>, n: nat)
    requires Distinct(s) && forall x :: x in s ==> x < n
    ensures |s| <= n
  {
    ElementsSize(s);
    SubsetSize(Elements(s), Range(n));
  }

  /** A sequence that takes all values below n has at least n elements. */
  lemma CoverNeedsRoom(s: seq<nat>, n: nat)
    requires Covers(s, n)
    ensures n <= |s|
  {
    ElementsSize(s);
    SubsetSize(Range(n), Elements(s));
  }
}
