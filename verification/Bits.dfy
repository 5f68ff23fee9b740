/** Integer helpers of lfs_util.h, stated over natural numbers, and the counting facts
    on which the skip-list arithmetic rests. */
module Bits {

  function Pow2(n: nat): (r: nat)
    ensures r >= 1
  {
    if n == 0 then 1 else 2 * Pow2(n - 1)
  }

  /** Number of one bits (lfs_popc). */
  function Popc(n: nat): nat {
    if n == 0 then 0 else n % 2 + Popc(n / 2)
  }

  /** Number of trailing zero bits (lfs_ctz); undefined for 0, as in the source. */
  function Ctz(n: nat): nat
    requires n > 0
  {
    if n % 2 == 1 then 0 else 1 + Ctz(n / 2)
  }

  /** Position of the highest one bit. */
  function Log2(n: nat): nat
    requires n > 0
  {
    if n == 1 then 0 else 1 + Log2(n / 2)
  }

  /** lfs_npw2 for a > 1: 32 - clz(a - 1), the bit length of a - 1. */
  function Npw2(a: nat): nat
    requires a > 1
  {
    Log2(a - 1) + 1
  }

  function Min(a: int, b: int): int {
    if a < b then a else b
  }

  function Max(a: int, b: int): int {
    if a > b then a else b
  }

  function AlignDown(a: nat, alignment: nat): nat
    requires alignment > 0
  {
    a - a % alignment
  }

  function AlignUp(a: nat, alignment: nat): nat
    requires alignment > 0
  {
    AlignDown(a + alignment - 1, alignment)
  }

  /** AlignDown is the greatest multiple not above a. */
  lemma AlignDownIsGreatest(a: nat, d: nat)
    requires d > 0
    ensures AlignDown(a, d) % d == 0
    ensures AlignDown(a, d) <= a < AlignDown(a, d) + d
  {
    MultipleMod(a / d, d);
    assert AlignDown(a, d) == (a / d) * d;
  }

  /** AlignUp is the least multiple not below a. */
  lemma AlignUpIsLeast(a: nat, d: nat)
    requires d > 0
    ensures AlignUp(a, d) % d == 0
    ensures a <= AlignUp(a, d) < a + d
  {
    AlignDownIsGreatest(a + d - 1, d);
  }

  lemma MultipleMod(k: nat, d: nat)
    requires d > 0
    ensures (k * d) % d == 0
  {
    if k > 0 {
      MultipleMod(k - 1, d);
      assert k * d == (k - 1) * d + d;
      assert ((k - 1) * d + d) % d == ((k - 1) * d) % d by { AddModulus((k - 1) * d, d); }
    }
  }

  lemma AddModulus(a: nat, d: nat)
    requires d > 0
    ensures (a + d) % d == a % d
  {
    var q, r := a / d, a % d;
    assert a + d == (q + 1) * d + r;
    DivModUnique(a + d, d, q + 1, r);
  }

  lemma DivModUnique(a: int, d: nat, q: int, r: int)
    requires d > 0 && 0 <= r < d && a == q * d + r
    ensures a / d == q && a % d == r
  {
    var q', r' := a / d, a % d;
    assert a == q' * d + r';
    assert (q - q') * d == r' - r;
    MulSign(q - q', d);
    MulSign(q' - q, d);
  }

  lemma MulSign(k: int, d: nat)
    ensures k >= 1 ==> k * d >= d
    ensures k <= 0 ==> k * d <= 0
  {
    if k >= 1 {
      assert k * d == d + (k - 1) * d;
    }
  }

  /** Two multiples of d at distance less than d are equal. */
  lemma MultiplesApart(a: nat, b: nat, d: nat)
    requires d > 0 && a % d == 0 && b % d == 0 && a < b
    ensures a + d <= b
  {
    var i, j := a / d, b / d;
    assert a == i * d && b == j * d;
    assert (j - i) * d == b - a;
    MulSign(j - i, d);
  }

  /** Decrementing turns the lowest one bit into Ctz(n) one bits. */
  lemma {:induction false} PopcPred(n: nat)
    requires n > 0
    ensures Popc(n - 1) == Popc(n) - 1 + Ctz(n)
  {
    if n % 2 == 1 {
      assert (n - 1) / 2 == n / 2;
    } else {
      PopcPred(n / 2);
      assert (n - 1) / 2 == n / 2 - 1;
    }
  }

  function PointerTotal(n: nat): nat {
    if n == 0 then 0 else PointerTotal(n - 1) + Ctz(n) + 1
  }

  /** The blocks 1..n hold 2n - popcount(n) pointers between them. */
  lemma {:induction false} PointerTotalClosedForm(n: nat)
    ensures PointerTotal(n) == 2 * n - Popc(n)
  {
    if n > 0 {
      PointerTotalClosedForm(n - 1);
      PopcPred(n);
    }
  }

  lemma {:induction false} PopcBound(n: nat, k: nat)
    requires n < Pow2(k)
    ensures Popc(n) <= k
  {
    if n > 0 {
      assert k > 0;
      PopcBound(n / 2, k - 1);
    }
  }

  lemma {:induction false} CtzBound(n: nat, k: nat)
    requires 0 < n < Pow2(k)
    ensures Ctz(n) < k
  {
    if n % 2 == 0 {
      CtzBound(n / 2, k - 1);
    }
  }

  lemma {:induction false} PopcPositive(n: nat)
    requires n > 0
    ensures Popc(n) >= 1
  {
    if n % 2 == 0 {
      PopcPositive(n / 2);
    }
  }

  /** Log2 is the floor of the binary logarithm. */
  lemma {:induction false} Log2Bounds(n: nat)
    requires n > 0
    ensures Pow2(Log2(n)) <= n < 2 * Pow2(Log2(n))
  {
    if n > 1 {
      Log2Bounds(n / 2);
    }
  }

  lemma {:induction false} Pow2Monotone(a: nat, b: nat)
    requires a <= b
    ensures Pow2(a) <= Pow2(b)
  {
    if a < b {
      Pow2Monotone(a, b - 1);
    }
  }

  lemma Log2Below(n: nat, k: nat)
    requires 0 < n < Pow2(k)
    ensures Log2(n) < k
  {
    Log2Bounds(n);
    if Log2(n) >= k {
      Pow2Monotone(k, Log2(n));
    }
  }

  lemma Log2Monotone(a: nat, b: nat)
    requires 0 < a <= b
    ensures Log2(a) <= Log2(b)
  {
    Log2Bounds(b);
    Log2Below(a, Log2(b) + 1);
  }

  /** lfs_npw2 is the least exponent whose power of two reaches a. */
  lemma Npw2IsLeast(a: nat)
    requires a > 1
    ensures Pow2(Npw2(a) - 1) < a <= Pow2(Npw2(a))
  {
    Log2Bounds(a - 1);
  }

  /** n is 2^Ctz(n) times an odd number. */
  lemma {:induction false} CtzOdd(n: nat) returns (odd: nat)
    requires n > 0
    ensures odd % 2 == 1 && n == odd * Pow2(Ctz(n))
  {
    if n % 2 == 1 {
      odd := n;
    } else {
      odd := CtzOdd(n / 2);
      DoubleProduct(odd, Pow2(Ctz(n / 2)));
    }
  }

  lemma DoubleProduct(a: nat, b: nat)
    ensures 2 * (a * b) == a * (2 * b)
  {
  }

  lemma {:induction false} CtzDouble(n: nat)
    requires n > 0
    ensures Ctz(2 * n) == Ctz(n) + 1
  {
    assert 2 * n / 2 == n;
  }

  lemma {:induction false} CtzOfMultiple(m: nat, k: nat)
    requires m > 0
    ensures m * Pow2(k) > 0 && Ctz(m * Pow2(k)) == Ctz(m) + k
  {
    if k > 0 {
      CtzOfMultiple(m, k - 1);
      DoubleProduct(m, Pow2(k - 1));
      CtzDouble(m * Pow2(k - 1));
    }
  }

  /** Stepping back by 2^k with k <= Ctz(n) keeps k trailing zeros; stepping by the lowest bit gains one. */
  lemma {:induction false} CtzAfterStep(n: nat, k: nat)
    requires n > 0 && k <= Ctz(n) && n > Pow2(k)
    ensures Ctz(n - Pow2(k)) >= k
    ensures k == Ctz(n) ==> Ctz(n - Pow2(k)) > k
  {
    var odd := CtzOdd(n);
    Pow2Split(k, Ctz(n) - k);
    var m := odd * Pow2(Ctz(n) - k);
    assert n == m * Pow2(k) by { MulAssoc(odd, Pow2(Ctz(n) - k), Pow2(k)); }
    CtzBelowMultiple(m, k, n);
    if k == Ctz(n) {
      assert m == odd;
    }
  }

  lemma {:induction false} CtzBelowMultiple(m: nat, k: nat, n: nat)
    requires n == m * Pow2(k) > Pow2(k)
    ensures m > 1 && Ctz(n - Pow2(k)) == Ctz(m - 1) + k
  {
    OneLess(m, Pow2(k));
    CtzOfMultiple(m - 1, k);
  }

  lemma OneLess(m: nat, p: nat)
    requires m * p > p
    ensures m > 1 && m * p - p == (m - 1) * p
  {
    MulSign(m - 1, p);
  }

  lemma MulAssoc(a: nat, b: nat, c: nat)
    ensures a * (b * c) == (a * b) * c
  {
  }

  lemma {:induction false} Pow2Split(a: nat, b: nat)
    ensures Pow2(a + b) == Pow2(b) * Pow2(a)
  {
    if a > 0 {
      Pow2Split(a - 1, b);
      assert Pow2(a + b) == 2 * (Pow2(b) * Pow2(a - 1));
    }
  }

  /** The lowest one bit of n never exceeds n. */
  lemma Pow2CtzAtMost(n: nat)
    requires n > 0
    ensures Pow2(Ctz(n)) <= n
  {
    var odd := CtzOdd(n);
    MulSign(odd, Pow2(Ctz(n)));
  }

  // ---------------------------------------------------------------- exclusive or

  /** Bitwise exclusive or. */
  function Xor(a: nat, b: nat): nat {
    if a == 0 && b == 0 then 0 else (a % 2 + b % 2) % 2 + 2 * Xor(a / 2, b / 2)
  }

  lemma {:induction false} XorHalf(a: nat, b: nat)
    ensures Xor(a, b) % 2 == (a % 2 + b % 2) % 2 && Xor(a, b) / 2 == Xor(a / 2, b / 2)
  {
    HalfOf(Xor(a / 2, b / 2), (a % 2 + b % 2) % 2);
  }

  lemma HalfOf(h: nat, p: nat)
    requires p < 2
    ensures (p + 2 * h) / 2 == h && (p + 2 * h) % 2 == p
  {
  }

  lemma {:induction false} XorTwice(a: nat, b: nat, x: nat)
    requires x == Xor(a, b)
    ensures Xor(x, b) == a
    decreases a + b
  {
    if a != 0 || b != 0 {
      XorHalf(a, b);
      XorTwice(a / 2, b / 2, x / 2);
      XorHalf(x, b);
      ParityCancels(a, b, x);
      SameHalves(Xor(x, b), a);
    }
  }

  lemma ParityCancels(a: nat, b: nat, x: nat)
    requires x % 2 == (a % 2 + b % 2) % 2
    ensures (x % 2 + b % 2) % 2 == a % 2
  {
  }

  lemma {:induction false} SameHalves(x: nat, y: nat)
    requires x / 2 == y / 2 && x % 2 == y % 2
    ensures x == y
  {
  }

  lemma {:induction false} XorBound(a: nat, b: nat, k: nat)
    requires a < Pow2(k) && b < Pow2(k)
    ensures Xor(a, b) < Pow2(k)
  {
    if a != 0 || b != 0 {
      assert k > 0;
      XorBound(a / 2, b / 2, k - 1);
    }
  }

  /** The high bits of an exclusive or are the exclusive or of the high bits. */
  lemma {:induction false} XorHigh(a: nat, b: nat, k: nat, qa: nat, qb: nat)
    requires qa == a / Pow2(k) && qb == b / Pow2(k)
    ensures Xor(a, b) / Pow2(k) == Xor(qa, qb)
  {
    ShiftIsDivision(a, k);
    ShiftIsDivision(b, k);
    ShiftIsDivision(Xor(a, b), k);
    XorShiftRight(a, b, k);
  }

  /** Bit by bit it is the sum modulo 2. */
  lemma {:induction false} XorBit(a: nat, b: nat, k: nat)
    ensures Xor(a, b) / Pow2(k) % 2 == (a / Pow2(k) + b / Pow2(k)) % 2
  {
    hide Xor, Pow2;
    var p, q: nat := a / Pow2(k), b / Pow2(k);
    XorHigh(a, b, k, p, q);
    XorHalf(p, q);
  }

  /** And its low bits are that of the low bits. */
  lemma {:induction false} XorLow(a: nat, b: nat, k: nat)
    ensures Xor(a, b) % Pow2(k) == Xor(a % Pow2(k), b % Pow2(k))
  {
    if k > 0 {
      var x, y := Xor(a, b), Xor(a % Pow2(k), b % Pow2(k));
      XorHalf(a, b);
      XorHalf(a % Pow2(k), b % Pow2(k));
      LowHalf(a, k);
      LowHalf(b, k);
      LowHalf(x, k);
      XorLow(a / 2, b / 2, k - 1);
      SameHalves(x % Pow2(k), y);
    }
  }

  lemma LowHalf(a: nat, k: nat)
    requires k > 0
    ensures a % Pow2(k) % 2 == a % 2 && a % Pow2(k) / 2 == a / 2 % Pow2(k - 1)
  {
    var p := Pow2(k - 1);
    var q, r := a / 2 / p, a / 2 % p;
    assert a / 2 == q * p + r;
    DoubleProduct(q, p);
    DivModUnique(a, 2 * p, q, 2 * r + a % 2);
  }

  function ShiftRight(a: nat, k: nat): nat {
    if k == 0 then a else ShiftRight(a / 2, k - 1)
  }

  lemma {:induction false} ShiftIsDivision(a: nat, k: nat)
    ensures ShiftRight(a, k) == a / Pow2(k)
  {
    if k > 0 {
      ShiftIsDivision(a / 2, k - 1);
      HalveThenDivide(a, k);
    }
  }

  lemma {:induction false} XorShiftRight(a: nat, b: nat, k: nat)
    ensures ShiftRight(Xor(a, b), k) == Xor(ShiftRight(a, k), ShiftRight(b, k))
    decreases k
  {
    if k > 0 {
      XorHalf(a, b);
      XorShiftRight(a / 2, b / 2, k - 1);
    }
  }

  lemma {:induction false} HalveThenDivide(a: nat, k: nat)
    requires k > 0
    ensures a / Pow2(k) == a / 2 / Pow2(k - 1)
  {
    var p := Pow2(k - 1);
    var q, r := a / 2 / p, a / 2 % p;
    assert a / 2 == q * p + r;
    DoubleProduct(q, p);
    DivModUnique(a, 2 * p, q, 2 * r + a % 2);
  }

  /** Exclusive or is a group in which every word undoes itself. */
  lemma {:induction false} XorAssoc(a: nat, b: nat, c: nat)
    ensures Xor(Xor(a, b), c) == Xor(a, Xor(b, c))
    decreases a + b + c
  {
    if a != 0 || b != 0 || c != 0 {
      XorAssoc(a / 2, b / 2, c / 2);
      XorHalf(a, b);
      XorHalf(b, c);
      AssocStep(a, b, c, Xor(a, b), Xor(b, c));
    }
  }

  lemma {:induction false} AssocStep(a: nat, b: nat, c: nat, x: nat, y: nat)
    requires x / 2 == Xor(a / 2, b / 2) && y / 2 == Xor(b / 2, c / 2)
    requires x % 2 == (a % 2 + b % 2) % 2 && y % 2 == (b % 2 + c % 2) % 2
    requires Xor(x / 2, c / 2) == Xor(a / 2, y / 2)
    ensures Xor(x, c) == Xor(a, y)
  {
    ParityAssoc(a % 2, b % 2, c % 2);
    SameXor(x, c, a, y);
  }

  lemma {:induction false} SameXor(x: nat, c: nat, a: nat, y: nat)
    requires Xor(x / 2, c / 2) == Xor(a / 2, y / 2) && (x % 2 + c % 2) % 2 == (a % 2 + y % 2) % 2
    ensures Xor(x, c) == Xor(a, y)
  {
    XorHalf(x, c);
    XorHalf(a, y);
    SameHalves(Xor(x, c), Xor(a, y));
  }

  lemma {:induction false} ParityAssoc(a: nat, b: nat, c: nat)
    ensures ((a + b) % 2 + c) % 2 == (a + (b + c) % 2) % 2
  {
  }

  lemma {:induction false} XorCommutes(a: nat, b: nat)
    ensures Xor(a, b) == Xor(b, a)
  {
    if a != 0 || b != 0 {
      XorCommutes(a / 2, b / 2);
    }
  }

  lemma {:induction false} XorUnit(a: nat)
    ensures Xor(a, 0) == a && Xor(a, a) == 0
  {
    if a != 0 {
      XorUnit(a / 2);
    }
  }

  function ShiftLeft(a: nat, k: nat): nat {
    if k == 0 then a else 2 * ShiftLeft(a, k - 1)
  }

  lemma {:induction false} ShiftLeftIsProduct(a: nat, k: nat)
    ensures ShiftLeft(a, k) == a * Pow2(k)
  {
    if k > 0 {
      ShiftLeftIsProduct(a, k - 1);
      DoubleProduct(a, Pow2(k - 1));
    }
  }

  lemma {:induction false} XorShiftLeft(a: nat, b: nat, k: nat)
    ensures ShiftLeft(Xor(a, b), k) == Xor(ShiftLeft(a, k), ShiftLeft(b, k))
  {
    if k > 0 {
      XorShiftLeft(a, b, k - 1);
      XorDouble(ShiftLeft(a, k - 1), ShiftLeft(b, k - 1));
    }
  }

  lemma {:induction false} XorDouble(a: nat, b: nat)
    ensures Xor(2 * a, 2 * b) == 2 * Xor(a, b)
  {
    XorHalf(2 * a, 2 * b);
    SameHalves(Xor(2 * a, 2 * b), 2 * Xor(a, b));
  }

  lemma WordPowers()
    ensures Pow2(31) == 0x8000_0000 && Pow2(32) == 0x1_0000_0000
  {
    Pow2Split(8, 8);
    assert Pow2(8) == 0x100;
    Pow2Split(16, 15);
    assert Pow2(15) == 0x8000;
    assert Pow2(16) == 0x1_0000;
    assert Pow2(32) == 2 * Pow2(31);
  }
}
