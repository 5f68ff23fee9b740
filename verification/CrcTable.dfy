/** The sixteen entries of lfs_crc's table, against the division by the polynomial of CRC-32 bit by bit. */
module CrcTable {
  import opened Bits

  const RTABLE: seq<nat> := [
    0x00000000, 0x1db71064, 0x3b6e20c8, 0x26d930ac, 0x76dc4190, 0x6b6b51f4, 0x4db26158, 0x5005713c,
    0xedb88320, 0xf00f9344, 0xd6d6a3e8, 0xcb61b38c, 0x9b64c2b0, 0x86d3d2d4, 0xa00ae278, 0xbdbdf21c]

  /** The polynomial of CRC-32, its bits reversed. */
  const POLYNOMIAL: nat := 0xedb8_8320

  /** One bit of the division by the polynomial. */
  function Shifted(x: nat): nat {
    if x % 2 == 1 then Xor(x / 2, POLYNOMIAL) else x / 2
  }

  function Divided(x: nat, n: nat): nat
    decreases n
  {
    if n == 0 then x else Divided(Shifted(x), n - 1)
  }

  lemma {:induction false} ShiftedXor(a: nat, b: nat)
    ensures Shifted(Xor(a, b)) == Xor(Shifted(a), Shifted(b))
  {
    hide Xor;
    XorHalf(a, b);
    SumsWith(a / 2, b / 2, POLYNOMIAL);
  }

  lemma {:induction false} SumsWith(h: nat, i: nat, p: nat)
    ensures Xor(Xor(h, p), i) == Xor(Xor(h, i), p) == Xor(h, Xor(i, p))
    ensures Xor(Xor(h, p), Xor(i, p)) == Xor(h, i)
  {
    hide Xor;
    XorAssoc(h, p, i);
    XorCommutes(p, i);
    XorAssoc(h, i, p);
    XorAssoc(Xor(h, p), i, p);
    XorTwice(Xor(h, i), p, Xor(Xor(h, i), p));
  }

  lemma {:induction false} DividedXor(a: nat, b: nat, n: nat)
    ensures Divided(Xor(a, b), n) == Xor(Divided(a, n), Divided(b, n))
    decreases n
  {
    if n > 0 {
      ShiftedXor(a, b);
      DividedXor(Shifted(a), Shifted(b), n - 1);
    }
  }

  lemma {:induction false} DividedTwice(x: nat, m: nat, n: nat)
    ensures Divided(Divided(x, m), n) == Divided(x, m + n)
    decreases m
  {
    if m > 0 {
      DividedTwice(Shifted(x), m - 1, n);
    }
  }

  // ---------------------------------------------------------------- words as digits

  datatype Nibble = Nibble(b3: bool, b2: bool, b1: bool, b0: bool)

  datatype Word = Word(n7: Nibble, n6: Nibble, n5: Nibble, n4: Nibble, n3: Nibble, n2: Nibble, n1: Nibble, n0: Nibble)

  function Bit(b: bool): nat {
    if b then 1 else 0
  }

  function Value(n: Nibble): nat {
    2 * (2 * (2 * Bit(n.b3) + Bit(n.b2)) + Bit(n.b1)) + Bit(n.b0)
  }

  function Number(w: Word): nat {
    16 * (16 * (16 * (16 * (16 * (16 * (16 * Value(w.n7) + Value(w.n6)) + Value(w.n5)) + Value(w.n4)) + Value(w.n3))
      + Value(w.n2)) + Value(w.n1)) + Value(w.n0)
  }

  function Differ(m: Nibble, n: Nibble): Nibble {
    Nibble(m.b3 != n.b3, m.b2 != n.b2, m.b1 != n.b1, m.b0 != n.b0)
  }

  function Sum(v: Word, w: Word): Word {
    Word(Differ(v.n7, w.n7), Differ(v.n6, w.n6), Differ(v.n5, w.n5), Differ(v.n4, w.n4), Differ(v.n3, w.n3),
      Differ(v.n2, w.n2), Differ(v.n1, w.n1), Differ(v.n0, w.n0))
  }

  lemma {:induction false} OneBit(a: nat, b: nat, p: bool, q: bool)
    ensures Xor(2 * a + Bit(p), 2 * b + Bit(q)) == 2 * Xor(a, b) + Bit(p != q)
  {
    hide Xor;
    var x, y := 2 * a + Bit(p), 2 * b + Bit(q);
    XorHalf(x, y);
    SameHalves(Xor(x, y), 2 * Xor(a, b) + Bit(p != q));
  }

  lemma {:induction false} OneNibble(a: nat, b: nat, m: Nibble, n: Nibble)
    ensures Xor(16 * a + Value(m), 16 * b + Value(n)) == 16 * Xor(a, b) + Value(Differ(m, n))
  {
    hide Xor, Bit, Value;
    var d := Differ(m, n);
    var x, y := TwoMore(a, m.b3, m.b2), TwoMore(b, n.b3, n.b2);
    Folded(a, m);
    Folded(b, n);
    Folded(Xor(a, b), d);
    TwoBits(a, b, m.b3, n.b3, m.b2, n.b2);
    TwoBits(x, y, m.b1, n.b1, m.b0, n.b0);
  }

  function TwoMore(a: nat, p: bool, q: bool): nat {
    2 * (2 * a + Bit(p)) + Bit(q)
  }

  lemma Folded(a: nat, n: Nibble)
    ensures 16 * a + Value(n) == TwoMore(TwoMore(a, n.b3, n.b2), n.b1, n.b0)
  {
  }

  lemma {:induction false} TwoBits(a: nat, b: nat, p: bool, q: bool, r: bool, s: bool)
    ensures Xor(TwoMore(a, p, r), TwoMore(b, q, s)) == TwoMore(Xor(a, b), p != q, r != s)
  {
    hide Xor, Bit;
    OneBit(a, b, p, q);
    OneBit(2 * a + Bit(p), 2 * b + Bit(q), r, s);
  }

  lemma {:induction false} SumIsXor(v: Word, w: Word)
    ensures Xor(Number(v), Number(w)) == Number(Sum(v, w))
  {
    hide Value, Differ, Xor;
    var a, b := Value(v.n7), Value(w.n7);
    XorUnit(0);
    OneNibble(0, 0, v.n7, w.n7);
    OneNibble(a, b, v.n6, w.n6);
    a, b := 16 * a + Value(v.n6), 16 * b + Value(w.n6);
    OneNibble(a, b, v.n5, w.n5);
    a, b := 16 * a + Value(v.n5), 16 * b + Value(w.n5);
    OneNibble(a, b, v.n4, w.n4);
    a, b := 16 * a + Value(v.n4), 16 * b + Value(w.n4);
    OneNibble(a, b, v.n3, w.n3);
    a, b := 16 * a + Value(v.n3), 16 * b + Value(w.n3);
    OneNibble(a, b, v.n2, w.n2);
    a, b := 16 * a + Value(v.n2), 16 * b + Value(w.n2);
    OneNibble(a, b, v.n1, w.n1);
    a, b := 16 * a + Value(v.n1), 16 * b + Value(w.n1);
    OneNibble(a, b, v.n0, w.n0);
  }

  const H0 := Nibble(false, false, false, false)
  const H1 := Nibble(false, false, false, true)
  const H2 := Nibble(false, false, true, false)
  const H3 := Nibble(false, false, true, true)
  const H4 := Nibble(false, true, false, false)
  const H5 := Nibble(false, true, false, true)
  const H6 := Nibble(false, true, true, false)
  const H7 := Nibble(false, true, true, true)
  const H8 := Nibble(true, false, false, false)
  const H9 := Nibble(true, false, false, true)
  const HA := Nibble(true, false, true, false)
  const HB := Nibble(true, false, true, true)
  const HC := Nibble(true, true, false, false)
  const HD := Nibble(true, true, false, true)
  const HE := Nibble(true, true, true, false)
  const HF := Nibble(true, true, true, true)

  /** The table once more, digit by digit. */
  const DIGITS: seq<Word> := [
    Word(H0, H0, H0, H0, H0, H0, H0, H0), Word(H1, HD, HB, H7, H1, H0, H6, H4),
    Word(H3, HB, H6, HE, H2, H0, HC, H8), Word(H2, H6, HD, H9, H3, H0, HA, HC),
    Word(H7, H6, HD, HC, H4, H1, H9, H0), Word(H6, HB, H6, HB, H5, H1, HF, H4),
    Word(H4, HD, HB, H2, H6, H1, H5, H8), Word(H5, H0, H0, H5, H7, H1, H3, HC),
    Word(HE, HD, HB, H8, H8, H3, H2, H0), Word(HF, H0, H0, HF, H9, H3, H4, H4),
    Word(HD, H6, HD, H6, HA, H3, HE, H8), Word(HC, HB, H6, H1, HB, H3, H8, HC),
    Word(H9, HB, H6, H4, HC, H2, HB, H0), Word(H8, H6, HD, H3, HD, H2, HD, H4),
    Word(HA, H0, H0, HA, HE, H2, H7, H8), Word(HB, HD, HB, HD, HF, H2, H1, HC)]

  lemma ValuesAre()
    ensures Value(H0) == 0 && Value(H1) == 1 && Value(H2) == 2 && Value(H3) == 3
    ensures Value(H4) == 4 && Value(H5) == 5 && Value(H6) == 6 && Value(H7) == 7
    ensures Value(H8) == 8 && Value(H9) == 9 && Value(HA) == 10 && Value(HB) == 11
    ensures Value(HC) == 12 && Value(HD) == 13 && Value(HE) == 14 && Value(HF) == 15
  {
  }

  lemma DigitsAre(i: nat)
    requires i < 16
    ensures RTABLE[i] == Number(DIGITS[i])
  {
    hide Number;
    if i < 4 { FirstDigits(i); } else if i < 8 { SecondDigits(i); } else if i < 12 { ThirdDigits(i); } else { LastDigits(i); }
  }

  lemma FirstDigits(i: nat)
    requires 0 <= i < 4
    ensures RTABLE[i] == Number(DIGITS[i])
  {
    hide Value;
    ValuesAre();
    match i
    case 0 => assert RTABLE[0] == Number(DIGITS[0]);
    case 1 => assert RTABLE[1] == Number(DIGITS[1]);
    case 2 => assert RTABLE[2] == Number(DIGITS[2]);
    case 3 => assert RTABLE[3] == Number(DIGITS[3]);
  }

  lemma SecondDigits(i: nat)
    requires 4 <= i < 8
    ensures RTABLE[i] == Number(DIGITS[i])
  {
    hide Value;
    ValuesAre();
    match i
    case 4 => assert RTABLE[4] == Number(DIGITS[4]);
    case 5 => assert RTABLE[5] == Number(DIGITS[5]);
    case 6 => assert RTABLE[6] == Number(DIGITS[6]);
    case 7 => assert RTABLE[7] == Number(DIGITS[7]);
  }

  lemma ThirdDigits(i: nat)
    requires 8 <= i < 12
    ensures RTABLE[i] == Number(DIGITS[i])
  {
    hide Value;
    ValuesAre();
    match i
    case 8 => assert RTABLE[8] == Number(DIGITS[8]);
    case 9 => assert RTABLE[9] == Number(DIGITS[9]);
    case 10 => assert RTABLE[10] == Number(DIGITS[10]);
    case 11 => assert RTABLE[11] == Number(DIGITS[11]);
  }

  lemma LastDigits(i: nat)
    requires 12 <= i < 16
    ensures RTABLE[i] == Number(DIGITS[i])
  {
    hide Value;
    ValuesAre();
    match i
    case 12 => assert RTABLE[12] == Number(DIGITS[12]);
    case 13 => assert RTABLE[13] == Number(DIGITS[13]);
    case 14 => assert RTABLE[14] == Number(DIGITS[14]);
    case 15 => assert RTABLE[15] == Number(DIGITS[15]);
  }

  // ---------------------------------------------------------------- the entries

  lemma {:induction false} BitSteps()
    ensures Shifted(0) == 0 && Shifted(8) == 4 && Shifted(4) == 2 && Shifted(2) == 1 && Shifted(1) == POLYNOMIAL
    ensures Shifted(POLYNOMIAL) == 0x76dc4190 && Shifted(0x76dc4190) == 0x3b6e20c8 && Shifted(0x3b6e20c8) == 0x1db71064
  {
    hide Xor;
    XorUnit(POLYNOMIAL);
    XorCommutes(0, POLYNOMIAL);
  }

  lemma {:induction false} TableOfBits()
    ensures Divided(0, 4) == 0 && Divided(1, 4) == 0x1db71064 && Divided(2, 4) == 0x3b6e20c8
    ensures Divided(4, 4) == 0x76dc4190 && Divided(8, 4) == 0xedb88320
  {
    hide Shifted, Divided;
    BitSteps();
    FourSteps(0);
    FourSteps(1);
    FourSteps(2);
    FourSteps(4);
    FourSteps(8);
  }

  lemma FourSteps(x: nat)
    ensures Divided(x, 4) == Shifted(Shifted(Shifted(Shifted(x))))
  {
    var a := Shifted(x);
    var b := Shifted(a);
    var c := Shifted(b);
    assert Divided(c, 1) == Shifted(c);
    assert Divided(b, 2) == Divided(c, 1);
    assert Divided(a, 3) == Divided(b, 2);
  }

  /** One more entry, from two others. */
  lemma {:induction false} TableSum(i: nat, j: nat, n: nat)
    requires i < 16 && j < 16 && n < 16 && Xor(i, j) == n && Sum(DIGITS[i], DIGITS[j]) == DIGITS[n]
    requires Divided(i, 4) == RTABLE[i] && Divided(j, 4) == RTABLE[j]
    ensures Divided(n, 4) == RTABLE[n]
  {
    hide Divided, Number, Xor;
    DividedXor(i, j, 4);
    DigitsAre(i);
    DigitsAre(j);
    DigitsAre(n);
    SumIsXor(DIGITS[i], DIGITS[j]);
  }

  lemma {:induction false} LowTable()
    ensures forall i | 0 <= i < 8 :: Divided(i, 4) == RTABLE[i]
  {
    hide Divided;
    TableOfBits();
    TableSum(1, 2, 3);
    TableSum(1, 4, 5);
    TableSum(2, 4, 6);
    TableSum(3, 4, 7);
  }

  lemma {:induction false} HighTable(i: nat)
    requires 0 < i <= 4
    ensures Divided(8 + i, 4) == RTABLE[8 + i]
  {
    hide Divided;
    TableOfBits();
    LowTable();
    match i
    case 1 => TableSum(1, 8, 9);
    case 2 => TableSum(2, 8, 10);
    case 3 => TableSum(3, 8, 11);
    case 4 => TableSum(4, 8, 12);
  }

  lemma {:induction false} TopTable(i: nat)
    requires 4 < i < 8
    ensures Divided(8 + i, 4) == RTABLE[8 + i]
  {
    hide Divided;
    TableOfBits();
    LowTable();
    match i
    case 5 => TableSum(5, 8, 13);
    case 6 => TableSum(6, 8, 14);
    case 7 => TableSum(7, 8, 15);
  }

  /** The table holds the remainders of all nibbles. */
  lemma {:induction false} TableIs(i: nat)
    requires i < 16
    ensures RTABLE[i] == Divided(i, 4)
  {
    hide Divided;
    TableOfBits();
    LowTable();
    if i > 12 { TopTable(i - 8); } else if i > 8 { HighTable(i - 8); }
  }
}
