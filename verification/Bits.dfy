/** Natural numbers as unsigned machine words: powers of two, division, and the
    bitwise operators, with the facts about them that the algorithms rest on. */
module Bits {

  function Pow2(n: nat): (p: nat)
    ensures p > 0
  {
    if n == 0 then 1 else 2 * Pow2(n - 1)
  }

  const WORD32: nat := 0x1_0000_0000
  const WORD64: nat := 0x1_0000_0000_0000_0000

  lemma WordSizes()
    ensures Pow2(5) == 32 && Pow2(6) == 64
    ensures Pow2(32) == WORD32 && Pow2(64) == WORD64
  {
    assert Pow2(4) == 16;
    Pow2Squared(4, 16);
    Pow2Squared(8, 256);
    Pow2Squared(16, 0x1_0000);
    Pow2Squared(32, WORD32);
  }

  lemma HalfWordSizes()
    ensures Pow2(29) == 0x2000_0000 && Pow2(30) == 0x4000_0000 && Pow2(31) == 0x8000_0000
  {
    WordSizes();
    assert Pow2(32) == 2 * Pow2(31) && Pow2(31) == 2 * Pow2(30) && Pow2(30) == 2 * Pow2(29);
  }

  /** The powers of two that a 32-bit word holds. */
  lemma Pow2FitsWord(n: nat)
    requires n <= 31
    ensures Pow2(n) <= 0x8000_0000
  {
    HalfWordSizes();
    Pow2Monotone(n, 31);
  }

  lemma Pow2Squared(n: nat, p: nat)
    requires p == Pow2(n)
    ensures Pow2(2 * n) == p * p
  {
    Pow2Add(n, n);
  }

  lemma {:induction false} Pow2Add(a: nat, b: nat)
    ensures Pow2(a + b) == Pow2(a) * Pow2(b)
  {
    if a > 0 {
      Pow2Add(a - 1, b);
      MulAssociative(2, Pow2(a - 1), Pow2(b));
    }
  }

  lemma {:induction false} Pow2Monotone(a: nat, b: nat)
    requires a <= b
    ensures Pow2(a) <= Pow2(b)
    ensures a < b ==> 2 * Pow2(a) <= Pow2(b)
  {
    if a < b {
      Pow2Monotone(a, b - 1);
    }
  }

  // ------------------------------------------------------------------ division

  lemma MulMonotone(a: nat, x: int, y: int)
    requires x <= y
    ensures a * x <= a * y
  {
  }

  lemma DivModUnique(x: int, b: nat, q: int, r: int)
    requires b > 0 && x == b * q + r && 0 <= r < b
    ensures x / b == q && x % b == r
  {
    var q' := x / b;
    assert x == b * q' + x % b;
    if q > q' {
      MulMonotone(b, q' + 1, q);
    } else if q < q' {
      MulMonotone(b, q + 1, q');
    }
  }

  lemma DivBelow(x: nat, m: nat, k: nat)
    requires m > 0 && x < m * k
    ensures x / m < k
  {
    assert x == m * (x / m) + x % m;
    if x / m >= k {
      MulMonotone(m, k, x / m);
    }
  }

  lemma DivZero(x: nat, m: nat)
    requires m > 0
    ensures x / m == 0 <==> x < m
  {
    assert x == m * (x / m) + x % m;
    if x < m {
      DivModUnique(x, m, 0, x);
    }
  }

  lemma ModShift(x: int, b: nat, k: int)
    requires b > 0
    ensures (x + b * k) % b == x % b
  {
    assert x + b * k == b * (x / b + k) + x % b;
    DivModUnique(x + b * k, b, x / b + k, x % b);
  }

  lemma ModAdd(x: int, y: int, b: nat)
    requires b > 0
    ensures (x % b + y) % b == (x + y) % b
  {
    assert x + y == (x % b + y) + b * (x / b);
    ModShift(x % b + y, b, x / b);
  }

  /** x is y modulo b exactly when b divides the difference. */
  lemma ModEqual(x: int, y: int, b: nat) returns (k: int)
    requires b > 0 && x % b == y % b
    ensures x == y + b * k
  {
    k := x / b - y / b;
    assert x == b * (x / b) + x % b && y == b * (y / b) + y % b;
  }

  lemma SmallMod(x: nat, n: nat)
    requires x < n
    ensures x % n == x
  {
  }

  lemma MulDistributes(a: int, x: int, y: int)
    ensures a * (x + y) == a * x + a * y
  {
  }

  lemma DivDiv(x: nat, a: nat, b: nat)
    requires a > 0 && b > 0
    ensures a * b > 0 && x / a / b == x / (a * b)
  {
    var q, r := x / a, x % a;
    var q', r' := q / b, q % b;
    assert x == a * q + r && q == b * q' + r';
    MulDistributes(a, b * q', r');
    MulAssociative(a, b, q');
    assert x == (a * b) * q' + (a * r' + r);
    MulMonotone(a, r' + 1, b);
    MulDistributes(a, r', 1);
    DivModUnique(x, a * b, q', a * r' + r);
  }

  /** A power-of-two modulus ignores a larger power-of-two wrap-around. */
  lemma ModMod(x: int, k: nat, n: nat)
    requires k <= n
    ensures (x % Pow2(n)) % Pow2(k) == x % Pow2(k)
  {
    Pow2Add(k, n - k);
    ModOfProduct(x, Pow2(k), Pow2(n - k));
  }

  lemma ModOfProduct(x: int, a: nat, b: nat)
    requires a > 0 && b > 0
    ensures a * b > 0 && (x % (a * b)) % a == x % a
  {
    var c := a * b;
    assert c > 0;
    var q, r := x / c, x % c;
    MulAssociative(a, b, q);
    assert x == r + a * (b * q);
    ModShift(r, a, b * q);
  }

  lemma MulAssociative(a: int, b: int, c: int)
    ensures a * b * c == a * (b * c)
  {
  }

  // ------------------------------------------------------------------ divisibility by powers of two

  lemma EvenProduct(p: int, c: int)
    requires p % 2 == 0
    ensures (p * c) % 2 == 0
  {
    MulAssociative(2, p / 2, c);
  }

  lemma HalveProducts(a: int, b: int, p: int, c: int)
    requires a % 2 == 0 && p % 2 == 0 && a * b == p * c
    ensures (a / 2) * b == (p / 2) * c
  {
    MulAssociative(2, a / 2, b);
    MulAssociative(2, p / 2, c);
  }

  /** An odd factor does not help a product to be divisible by a power of two. */
  lemma {:induction false} OddFactor(a: int, b: int, m: nat, c: int) returns (d: int)
    requires b % 2 == 1 && a * b == Pow2(m) * c
    ensures a == Pow2(m) * d
    decreases m
  {
    if m == 0 {
      d := a;
    } else {
      ProductParity(a, b);
      EvenProduct(Pow2(m), c);
      HalveProducts(a, b, Pow2(m), c);
      d := OddFactor(a / 2, b, m - 1, c);
      MulAssociative(2, Pow2(m - 1), d);
    }
  }

  lemma ProductParity(a: int, b: int)
    requires b % 2 == 1
    ensures (a * b) % 2 == a % 2
  {
    var h := b / 2;
    assert b == 2 * h + 1;
    assert a * b == 2 * (a * h) + a;
  }

  lemma PositiveMultiple(x: int, m: nat, d: int)
    requires x > 0 && x == m * d
    ensures x >= m
  {
    if d > 0 {
      MulMonotone(m, 1, d);
    } else {
      MulMonotone(m, d, 0);
    }
  }

  // ------------------------------------------------------------------ bitwise operators

  function And(x: nat, y: nat): nat {
    if x == 0 || y == 0 then 0 else 2 * And(x / 2, y / 2) + (x % 2) * (y % 2)
  }

  function Or(x: nat, y: nat): nat {
    if x == 0 && y == 0 then 0
    else 2 * Or(x / 2, y / 2) + if x % 2 == 1 || y % 2 == 1 then 1 else 0
  }

  function Xor(x: nat, y: nat): nat {
    if x == 0 && y == 0 then 0
    else 2 * Xor(x / 2, y / 2) + if x % 2 == y % 2 then 0 else 1
  }

  /** Shift right by n bits. */
  function Shr(x: nat, n: nat): nat { if n == 0 then x else Shr(x / 2, n - 1) }

  lemma {:induction false} ShrIsDiv(x: nat, n: nat)
    ensures Shr(x, n) == x / Pow2(n)
  {
    if n > 0 {
      ShrIsDiv(x / 2, n - 1);
      DivDiv(x, 2, Pow2(n - 1));
    }
  }

  lemma {:induction false} ShrShr(x: nat, m: nat, n: nat)
    ensures Shr(Shr(x, m), n) == Shr(x, m + n)
  {
    if m > 0 {
      ShrShr(x / 2, m - 1, n);
    }
  }

  /** Masking with one less than a power of two is the remainder. */
  lemma {:induction false} AndMask(x: nat, k: nat)
    ensures And(x, Pow2(k) - 1) == x % Pow2(k)
  {
    if k == 0 {
    } else if x == 0 {
      DivModUnique(0, Pow2(k), 0, 0);
    } else {
      AndMask(x / 2, k - 1);
      assert (Pow2(k) - 1) / 2 == Pow2(k - 1) - 1 && (Pow2(k) - 1) % 2 == 1;
      ModHalf(x, Pow2(k - 1));
    }
  }

  lemma WordIsPow2()
    ensures WORD32 == Pow2(32)
  {
    WordSizes();
  }

  /** Masking a wrapped word to n bits is the remainder of the unwrapped value. */
  lemma MaskWord(x: nat, n: nat)
    requires n <= 32
    ensures And(x % WORD32, Pow2(n) - 1) == x % Pow2(n)
  {
    var w := x % WORD32;
    assert w % Pow2(n) == x % Pow2(n) by {
      WordIsPow2();
      ModMod(x, n, 32);
    }
    AndMask(w, n);
  }

  lemma ModHalf(x: nat, m: nat)
    requires m > 0
    ensures x % (2 * m) == 2 * ((x / 2) % m) + x % 2
  {
    var h := x / 2;
    assert h == m * (h / m) + h % m;
    assert x == (2 * m) * (h / m) + (2 * (h % m) + x % 2);
    DivModUnique(x, 2 * m, h / m, 2 * (h % m) + x % 2);
  }

  /** Exclusive or undoes itself. */
  lemma {:induction false} XorCancel(x: nat, y: nat)
    ensures Xor(Xor(x, y), y) == x
    decreases x + y
  {
    if x > 0 || y > 0 {
      XorCancel(x / 2, y / 2);
      var z := Xor(x, y);
      assert z / 2 == Xor(x / 2, y / 2);
      if z == 0 && y == 0 {
        assert Xor(0, 0) == 0;
      }
    }
  }

  /** Xor with a fixed word is injective. */
  lemma XorInjective(x: nat, y: nat, z: nat)
    requires Xor(x, z) == Xor(y, z)
    ensures x == y
  {
    XorCancel(x, z);
    XorCancel(y, z);
  }

  lemma {:induction false} XorBelow(x: nat, y: nat, k: nat)
    requires x < Pow2(k) && y < Pow2(k)
    ensures Xor(x, y) < Pow2(k)
  {
    if k > 0 && (x > 0 || y > 0) {
      XorBelow(x / 2, y / 2, k - 1);
    }
  }

  /** Shifting right distributes over exclusive or. */
  lemma {:induction false} XorShr(x: nat, y: nat, n: nat)
    ensures Shr(Xor(x, y), n) == Xor(Shr(x, n), Shr(y, n))
  {
    if n > 0 {
      XorShr(x / 2, y / 2, n - 1);
      assert Xor(x, y) / 2 == Xor(x / 2, y / 2);
    }
  }

  lemma OrLowBit(x: nat, y: nat)
    ensures Or(x, y) % 2 == if x % 2 == 1 || y % 2 == 1 then 1 else 0
  {
  }

  lemma {:induction false} OrShr(x: nat, y: nat, n: nat)
    ensures Shr(Or(x, y), n) == Or(Shr(x, n), Shr(y, n))
  {
    if n > 0 {
      OrShr(x / 2, y / 2, n - 1);
      assert Or(x, y) / 2 == Or(x / 2, y / 2);
    }
  }

  /** None of the low n bits of x is set. */
  predicate LowBitsClear(x: nat, n: nat) {
    n == 0 || (x % 2 == 0 && LowBitsClear(x / 2, n - 1))
  }

  /** Or-ing in a single bit below every bit that is set adds it. */
  lemma {:induction false} OrDisjoint(x: nat, k: nat)
    requires LowBitsClear(x, k + 1)
    ensures Or(x, Pow2(k)) == x + Pow2(k)
    ensures LowBitsClear(x, k) && LowBitsClear(x + Pow2(k), k)
  {
    var p := Pow2(k);
    if k > 0 {
      OrDisjoint(x / 2, k - 1);
      assert p % 2 == 0 && p / 2 == Pow2(k - 1) && x % 2 == 0;
      assert Or(x, p) == 2 * Or(x / 2, p / 2);
      assert (x + p) % 2 == 0 && (x + p) / 2 == x / 2 + p / 2;
    } else {
      OrZero(x / 2);
      assert Or(x, 1) == 2 * Or(x / 2, 0) + 1;
    }
  }

  lemma {:induction false} OrZero(x: nat)
    ensures Or(x, 0) == x
  {
    if x > 0 {
      OrZero(x / 2);
    }
  }

  /** Or-ing a value below every bit that is set adds it. */
  lemma {:induction false} OrBelow(x: nat, y: nat, k: nat)
    requires y < Pow2(k)
    ensures Or(x * Pow2(k), y) == x * Pow2(k) + y
  {
    if k == 0 {
      OrZero(x);
    } else {
      DoubleProduct(x, k);
      OrBelow(x, y / 2, k - 1);
      OrHalves(x * Pow2(k), x * Pow2(k - 1), y);
    }
  }

  lemma DoubleProduct(x: nat, k: nat)
    requires k > 0
    ensures x * Pow2(k) == 2 * (x * Pow2(k - 1))
  {
    MulAssociative(2, x, Pow2(k - 1));
  }

  lemma OrHalves(x: nat, half: nat, y: nat)
    requires x == 2 * half
    ensures Or(x, y) == 2 * Or(half, y / 2) + y % 2
  {
  }

  // ------------------------------------------------------------------ bit length

  /** The number of bits needed to write x: one more than the index of its top bit. */
  function BitLength(x: nat): nat { if x == 0 then 0 else 1 + BitLength(x / 2) }

  lemma {:induction false} BitLengthBounds(x: nat)
    ensures x < Pow2(BitLength(x))
    ensures x > 0 ==> Pow2(BitLength(x) - 1) <= x
  {
    if x > 0 {
      BitLengthBounds(x / 2);
    }
  }

  /** Only one power of two fits: the least above x. */
  lemma BitLengthUnique(x: nat, n: nat)
    requires x < Pow2(n) && (n > 0 ==> Pow2(n - 1) <= x)
    ensures BitLength(x) == n
  {
    BitLengthBounds(x);
    if BitLength(x) < n {
      Pow2Monotone(BitLength(x), n - 1);
    } else if n < BitLength(x) {
      Pow2Monotone(n, BitLength(x) - 1);
    }
  }
}
