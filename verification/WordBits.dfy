/** Bitwise operations on 32-bit words as numbers, and the identities the hash functions' shortcuts rest on. */
module WordBits {
  import opened Bits
  import opened Words

  type Word32 = w: nat | w < WORD_LIMIT

  function And(a: nat, b: nat): nat {
    if a == 0 && b == 0 then 0 else Both(a % 2, b % 2) + 2 * And(a / 2, b / 2)
  }

  function Or(a: nat, b: nat): nat {
    if a == 0 && b == 0 then 0 else Either(a % 2, b % 2) + 2 * Or(a / 2, b / 2)
  }

  /** The complement in k bits. */
  function Not(a: nat, k: nat): nat {
    if k == 0 then 0 else 1 - a % 2 + 2 * Not(a / 2, k - 1)
  }

  function Both(p: nat, q: nat): (r: nat)
    ensures r < 2
  {
    if p == 1 && q == 1 then 1 else 0
  }

  function Either(p: nat, q: nat): (r: nat)
    ensures r < 2
  {
    if p == 1 || q == 1 then 1 else 0
  }

  lemma {:induction false} AndHalf(a: nat, b: nat)
    ensures And(a, b) % 2 == Both(a % 2, b % 2) && And(a, b) / 2 == And(a / 2, b / 2)
  {
    HalfOf(And(a / 2, b / 2), Both(a % 2, b % 2));
  }

  lemma {:induction false} OrHalf(a: nat, b: nat)
    ensures Or(a, b) % 2 == Either(a % 2, b % 2) && Or(a, b) / 2 == Or(a / 2, b / 2)
  {
    HalfOf(Or(a / 2, b / 2), Either(a % 2, b % 2));
  }

  lemma {:induction false} NotHalf(a: nat, k: nat)
    requires k > 0
    ensures Not(a, k) % 2 == 1 - a % 2 && Not(a, k) / 2 == Not(a / 2, k - 1)
  {
    HalfOf(Not(a / 2, k - 1), 1 - a % 2);
  }

  lemma {:induction false} AndBound(a: nat, b: nat, k: nat)
    requires a < Pow2(k) && b < Pow2(k)
    ensures And(a, b) < Pow2(k)
  {
    if a != 0 || b != 0 {
      assert k > 0;
      AndBound(a / 2, b / 2, k - 1);
    }
  }

  lemma {:induction false} OrBound(a: nat, b: nat, k: nat)
    requires a < Pow2(k) && b < Pow2(k)
    ensures Or(a, b) < Pow2(k)
  {
    if a != 0 || b != 0 {
      assert k > 0;
      OrBound(a / 2, b / 2, k - 1);
    }
  }

  lemma {:induction false} NotBound(a: nat, k: nat)
    ensures Not(a, k) < Pow2(k)
  {
    if k > 0 {
      NotBound(a / 2, k - 1);
    }
  }

  // ---------------------------------------------------------------- bit by bit

  predicate HasBit(a: nat, k: nat) {
    a / Pow2(k) % 2 == 1
  }

  lemma {:induction false} XorHasBit(a: nat, b: nat, k: nat)
    ensures HasBit(Xor(a, b), k) <==> HasBit(a, k) != HasBit(b, k)
  {
    hide Xor, Pow2;
    XorBit(a, b, k);
    OddSum(a / Pow2(k), b / Pow2(k));
  }

  lemma OddSum(u: int, v: int)
    ensures (u + v) % 2 == 1 <==> (u % 2 == 1) != (v % 2 == 1)
  {
  }

  lemma {:induction false} AndBit(a: nat, b: nat, k: nat)
    ensures HasBit(And(a, b), k) <==> HasBit(a, k) && HasBit(b, k)
  {
    AndHalf(a, b);
    if k > 0 {
      AndBit(a / 2, b / 2, k - 1);
      HalveThenDivide(a, k);
      HalveThenDivide(b, k);
      HalveThenDivide(And(a, b), k);
    }
  }

  lemma {:induction false} OrBit(a: nat, b: nat, k: nat)
    ensures HasBit(Or(a, b), k) <==> HasBit(a, k) || HasBit(b, k)
  {
    OrHalf(a, b);
    if k > 0 {
      OrBit(a / 2, b / 2, k - 1);
      HalveThenDivide(a, k);
      HalveThenDivide(b, k);
      HalveThenDivide(Or(a, b), k);
    }
  }

  lemma {:induction false} NotBit(a: nat, n: nat, k: nat)
    requires k < n
    ensures HasBit(Not(a, n), k) <==> !HasBit(a, k)
  {
    NotHalf(a, n);
    if k > 0 {
      NotBit(a / 2, n - 1, k - 1);
      HalveThenDivide(a, k);
      HalveThenDivide(Not(a, n), k);
    }
  }

  /** The bits of a mask of two parts are taken from the two parts. */
  lemma {:induction false} AndParts(high: nat, low: nat, m: nat, n: nat, k: nat)
    requires low < Pow2(k) && n < Pow2(k)
    ensures And(high * Pow2(k) + low, m * Pow2(k) + n) == And(high, m) * Pow2(k) + And(low, n)
    decreases k
  {
    if k > 0 {
      var p := Pow2(k - 1);
      TwoParts(high, low, k);
      TwoParts(m, n, k);
      AndHalf(high * Pow2(k) + low, m * Pow2(k) + n);
      AndHalf(low, n);
      AndParts(high, low / 2, m, n / 2, k - 1);
      TwoParts(And(high, m), And(low, n), k);
      AndBound(low, n, k);
      SameHalves(And(high * Pow2(k) + low, m * Pow2(k) + n), And(high, m) * Pow2(k) + And(low, n));
    }
  }

  lemma TwoParts(high: nat, low: nat, k: nat)
    requires k > 0
    ensures (high * Pow2(k) + low) / 2 == high * Pow2(k - 1) + low / 2
    ensures (high * Pow2(k) + low) % 2 == low % 2
  {
    DoubleProduct(high, Pow2(k - 1));
    DivModUnique(high * Pow2(k) + low, 2, high * Pow2(k - 1) + low / 2, low % 2);
  }

  /** A mask of n ones keeps the low n bits. */
  lemma {:induction false} AndOnes(a: nat, n: nat)
    ensures And(a, Pow2(n) - 1) == a % Pow2(n)
  {
    hide And, Pow2;
    var high, low: nat := a / Pow2(n), a % Pow2(n);
    AndParts(high, low, 0, Pow2(n) - 1, n);
    AndNothing(high);
    AndAll(low, n);
  }

  lemma {:induction false} AndAll(a: nat, n: nat)
    requires a < Pow2(n)
    ensures And(a, Pow2(n) - 1) == a
  {
    if n > 0 {
      AndHalf(a, Pow2(n) - 1);
      AndAll(a / 2, n - 1);
      SameHalves(And(a, Pow2(n) - 1), a);
    }
  }

  lemma {:induction false} AndNothing(a: nat)
    ensures And(a, 0) == 0
  {
    if a != 0 {
      AndNothing(a / 2);
    }
  }

  /** Or of parts that do not overlap is their sum. */
  lemma {:induction false} OrParts(high: nat, low: nat, k: nat)
    requires low < Pow2(k)
    ensures Or(high * Pow2(k), low) == high * Pow2(k) + low
    decreases k
  {
    if k == 0 {
      OrNothing(high);
    } else {
      TwoParts(high, 0, k);
      TwoParts(high, low, k);
      OrHalf(high * Pow2(k), low);
      OrParts(high, low / 2, k - 1);
      SameHalves(Or(high * Pow2(k), low), high * Pow2(k) + low);
    }
  }

  lemma {:induction false} OrNothing(a: nat)
    ensures Or(a, 0) == a
  {
    if a != 0 {
      OrNothing(a / 2);
    }
  }

  // ---------------------------------------------------------------- choice and majority

  /** z ^ (x & (y ^ z)) is the choice (x & y) ^ (~x & z). */
  lemma {:induction false} ChoiceForm(x: nat, y: nat, z: nat, k: nat)
    requires x < Pow2(k) && y < Pow2(k) && z < Pow2(k)
    ensures Xor(z, And(x, Xor(y, z))) == Xor(And(x, y), And(Not(x, k), z))
    decreases k
  {
    if k > 0 {
      ChoiceForm(x / 2, y / 2, z / 2, k - 1);
      XorHalf(y, z);
      AndHalf(x, Xor(y, z));
      AndHalf(x, y);
      NotHalf(x, k);
      AndHalf(Not(x, k), z);
      ChoiceBit(x % 2, y % 2, z % 2);
      SameXor(z, And(x, Xor(y, z)), And(x, y), And(Not(x, k), z));
    }
  }

  lemma ChoiceBit(x: nat, y: nat, z: nat)
    requires x < 2 && y < 2 && z < 2
    ensures (z + Both(x, (y + z) % 2)) % 2 == (Both(x, y) + Both(1 - x, z)) % 2
  {
  }

  /** (x & y) | (z & (x | y)) is the majority (x & y) ^ (x & z) ^ (y & z). */
  lemma {:induction false} MajorityForm(x: nat, y: nat, z: nat)
    ensures Or(And(x, y), And(z, Or(x, y))) == Xor(Xor(And(x, y), And(x, z)), And(y, z))
    decreases x + y + z
  {
    if x != 0 || y != 0 || z != 0 {
      MajorityForm(x / 2, y / 2, z / 2);
      OrHalf(x, y);
      AndHalf(z, Or(x, y));
      AndHalf(x, y);
      AndHalf(x, z);
      AndHalf(y, z);
      MajorityStep(And(x, y), And(z, Or(x, y)), And(x, z), And(y, z), x % 2, y % 2, z % 2);
    }
  }

  lemma {:induction false} MajorityStep(xy: nat, zo: nat, xz: nat, yz: nat, x: nat, y: nat, z: nat)
    requires x < 2 && y < 2 && z < 2
    requires xy % 2 == Both(x, y) && zo % 2 == Both(z, Either(x, y)) && xz % 2 == Both(x, z) && yz % 2 == Both(y, z)
    requires Or(xy / 2, zo / 2) == Xor(Xor(xy / 2, xz / 2), yz / 2)
    ensures Or(xy, zo) == Xor(Xor(xy, xz), yz)
  {
    OrHalf(xy, zo);
    XorHalf(xy, xz);
    XorHalf(Xor(xy, xz), yz);
    SameHalves(Or(xy, zo), Xor(Xor(xy, xz), yz));
  }

  // ---------------------------------------------------------------- words

  function Xor32(a: Word32, b: Word32): Word32 {
    WordPowers();
    XorBound(a, b, 32);
    Xor(a, b)
  }

  function And32(a: Word32, b: Word32): Word32 {
    WordPowers();
    AndBound(a, b, 32);
    And(a, b)
  }

  function Or32(a: Word32, b: Word32): Word32 {
    WordPowers();
    OrBound(a, b, 32);
    Or(a, b)
  }

  function Not32(a: Word32): Word32 {
    WordPowers();
    NotBound(a, 32);
    Not(a, 32)
  }

  function Add32(a: Word32, b: Word32): Word32 {
    (a + b) % WORD_LIMIT
  }

  /** The order of additions modulo 2^32 makes no difference. */
  lemma SumForm(s: Word32, f: Word32, k: Word32, w: Word32, e: Word32)
    ensures Add32(e, Add32(Add32(Add32(s, f), k), w)) == Add32(Add32(Add32(Add32(s, f), e), k), w)
  {
    FourSum(s, f, k, w);
    AddInside(s + f + k + w, e);
    FourSum(s, f, e, k);
    AddInside(s + f + e + k, w);
  }

  lemma FourSum(s: Word32, f: Word32, k: Word32, w: Word32)
    ensures Add32(Add32(Add32(s, f), k), w) == (s + f + k + w) % WORD_LIMIT
  {
    AddInside(s + f, k);
    AddInside(s + f + k, w);
  }

  lemma AddInside(a: nat, b: nat)
    ensures (a % WORD_LIMIT + b) % WORD_LIMIT == (a + b) % WORD_LIMIT
  {
    var q, r := a / WORD_LIMIT, a % WORD_LIMIT;
    DivModUnique(a + b, WORD_LIMIT, q + (r + b) / WORD_LIMIT, (r + b) % WORD_LIMIT);
  }

  /** Rotation to the left, by multiplying and dividing: (x << n) | (x >> (32 - n)). */
  function RotateLeft(a: Word32, times: nat, over: nat): Word32
    requires over > 0
  {
    QuotientBound(a, over);
    Or32(a * times % WORD_LIMIT, a / over)
  }

  lemma QuotientBound(a: nat, d: nat)
    requires d > 0
    ensures 0 <= a / d <= a
  {
    var q := a / d;
    if q > a {
      MulSign(q - a, d);
      assert q * d == (q - a) * d + a * d;
      if a > 0 { MulSign(a, d); MulSign(d, a); }
    }
  }
}
