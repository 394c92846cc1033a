/** Why triangular probing of a power-of-two table visits every bucket. */
module Probing {
  import opened Bits
  import opened Pigeonholes

  // ------------------------------------------------------------------ triangular probing

  function Triangle(i: nat): nat { if i == 0 then 0 else Triangle(i - 1) + i }

  /** The bucket that the probe with index i looks at: steps of 1, 2, 3, ... */
  function Probe(h: nat, i: nat, n: nat): (p: nat)
    requires n > 0
    ensures p < n
  {
    (h + Triangle(i)) % n
  }

  /** Adding the step to the bucket number gives the next probe. */
  lemma ProbeStep(h: nat, i: nat, n: nat)
    requires n > 0
    ensures (Probe(h, i, n) + (i + 1)) % n == Probe(h, i + 1, n)
  {
    ModAdd(h + Triangle(i), i + 1, n);
  }

  lemma {:induction false} TwiceTriangle(i: nat)
    ensures 2 * Triangle(i) == i * (i + 1)
  {
    if i > 0 {
      TwiceTriangle(i - 1);
    }
  }

  lemma DifferenceOfTriangles(i: nat, j: nat)
    ensures 2 * (Triangle(j) - Triangle(i)) == (j - i) * (j + i + 1)
  {
    TwiceTriangle(i);
    TwiceTriangle(j);
  }

  /** Of two factors whose sum is odd, one is odd, so the other takes all the twos. */
  lemma OddSumFactor(u: int, v: int, m: nat, c: int)
    requires u > 0 && v > 0 && (u + v) % 2 == 1 && u * v == Pow2(m) * c
    ensures u >= Pow2(m) || v >= Pow2(m)
  {
    if v % 2 == 1 {
      var d := OddFactor(u, v, m, c);
      PositiveMultiple(u, Pow2(m), d);
    } else {
      var d := OddFactor(v, u, m, c);
      PositiveMultiple(v, Pow2(m), d);
    }
  }

  /** The first 2^k probes of a table of 2^k buckets are all different. */
  lemma ProbesDiffer(h: nat, i: nat, j: nat, k: nat)
    requires i < j < Pow2(k)
    ensures Probe(h, i, Pow2(k)) != Probe(h, j, Pow2(k))
  {
    var n := Pow2(k);
    if Probe(h, i, n) == Probe(h, j, n) {
      var c := ModEqual(h + Triangle(j), h + Triangle(i), n);
      assert Pow2(k + 1) == 2 * n;
      assert (j - i) * (j + i + 1) == Pow2(k + 1) * c by {
        DifferenceOfTriangles(i, j);
        MulAssociative(2, n, c);
      }
      OddSumFactor(j - i, j + i + 1, k + 1, c);
    }
  }

  /** So they visit every bucket. */
  lemma ProbesCover(h: nat, k: nat, b: nat)
    requires b < Pow2(k)
    ensures exists i :: 0 <= i < Pow2(k) && Probe(h, i, Pow2(k)) == b
  {
    var n := Pow2(k);
    var s := seq(n, i requires 0 <= i => Probe(h, i, n));
    forall i, j | 0 <= i < j < |s|
      ensures s[i] != s[j]
    {
      ProbesDiffer(h, i, j, k);
    }
    Pigeonhole(s, b);
  }
}
