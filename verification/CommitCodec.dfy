/** littlefs's own way of putting words on disk: big-endian tags exclusive-ored with the tag before,
    and the CRC-32 of lfs_crc. It meets the laws the commit format needs. */
module CommitCodec {
  import opened Bits
  import opened CrcTable
  import opened Words
  import opened CommitFormat
  import BlockLookup
  import CommitTrail

  // ---------------------------------------------------------------- words

  function Be32(n: nat): (s: Bytes)
    requires n < WORD_LIMIT
    ensures |s| == 4
  {
    [n / 0x100_0000, n / 0x1_0000 % 0x100, n / 0x100 % 0x100, n % 0x100]
  }

  function FromBe32(s: Bytes): (n: nat)
    requires |s| == 4
    ensures n < WORD_LIMIT
  {
    var a: int, b: int, c: int, d: int := s[0], s[1], s[2], s[3];
    a * 0x100_0000 + b * 0x1_0000 + c * 0x100 + d
  }

  lemma Be32RoundTrip(n: nat)
    requires n < WORD_LIMIT
    ensures FromBe32(Be32(n)) == n
  {
    var a, b := n / 0x100, n / 0x1_0000;
    assert b == a / 0x100;
    assert n / 0x100_0000 == b / 0x100;
  }

  /** Tag words go to disk the other way round than all other words. */
  lemma BigEnd(n: nat, i: nat)
    requires n < WORD_LIMIT && i < 4
    ensures Be32(n)[i] == ToLe32(n)[3 - i] && FromBe32(Be32(n)) == FromLe32(ToLe32(n))
  {
    Be32RoundTrip(n);
    Le32RoundTrip(n);
  }

  /** A tag word is stored exclusive-ored with the word before it, and read back the same way. */
  lemma XorWord(w: nat, ptag: nat)
    requires w < WORD_LIMIT && ptag < WORD_LIMIT
    ensures Xor(w, ptag) < WORD_LIMIT && Xor(Xor(w, ptag), ptag) == w
    ensures Xor(w, ptag) / TOP == Xor(w / TOP, ptag / TOP)
  {
    WordPowers();
    XorBound(w, ptag, 32);
    XorTwice(w, ptag, Xor(w, ptag));
    XorHigh(w, ptag, 31, w / TOP, ptag / TOP);
  }

  // ---------------------------------------------------------------- the checksum

  function CrcNibble(crc: nat, nibble: nat): (r: nat)
    requires crc < WORD_LIMIT
    ensures r < WORD_LIMIT
  {
    var t := RTABLE[Xor(crc, nibble) % 16];
    XorWord(crc / 16, t);
    Xor(crc / 16, t)
  }

  /** lfs_crc, a nibble at a time. */
  function Crc(crc: nat, data: Bytes): (r: nat)
    requires crc < WORD_LIMIT
    ensures r < WORD_LIMIT
  {
    if data == [] then crc
    else
      var byte := data[|data| - 1];
      CrcNibble(CrcNibble(Crc(crc, data[..|data| - 1]), byte), byte / 16)
  }

  // ---------------------------------------------------------------- the polynomial

  lemma {:induction false} FourBitsOut(h: nat)
    ensures Divided(16 * h, 4) == h
  {
    hide Divided;
    FourSteps(16 * h);
    ShiftedEven(8 * h);
    ShiftedEven(4 * h);
    ShiftedEven(2 * h);
    ShiftedEven(h);
  }

  lemma ShiftedEven(h: nat)
    ensures Shifted(2 * h) == h
  {
  }

  lemma {:induction false} XorSixteen(h: nat, l: nat)
    requires l < 16
    ensures Xor(16 * h, l) == 16 * h + l
  {
    hide Xor;
    assert Pow2(4) == 16;
    XorUnit(h);
    XorUnit(l);
    XorCommutes(0, l);
    DivModUnique(16 * h, 16, h, 0);
    DivModUnique(l, 16, 0, l);
    XorHigh(16 * h, l, 4, h, 0);
    XorLow(16 * h, l, 4);
  }

  /** A nibble of data is four bits of the division. */
  lemma {:induction false} NibbleDivides(crc: nat, n: nat)
    requires crc < WORD_LIMIT
    ensures CrcNibble(crc, n) == Divided(Xor(crc, n % 16), 4)
  {
    hide Xor, Divided;
    var x := Xor(crc, n % 16);
    NibbleIn(crc, n);
    XorSixteen(x / 16, x % 16);
    DividedXor(16 * (x / 16), x % 16, 4);
    FourBitsOut(x / 16);
    TableIs(x % 16);
  }

  lemma {:induction false} NibbleIn(crc: nat, n: nat)
    ensures var x := Xor(crc, n % 16); x / 16 == crc / 16 && x % 16 == Xor(crc, n) % 16
  {
    hide Xor;
    assert Pow2(4) == 16;
    DivModUnique(n % 16, 16, 0, n % 16);
    XorUnit(crc / 16);
    XorHigh(crc, n % 16, 4, crc / 16, 0);
    XorLow(crc, n % 16, 4);
    XorLow(crc, n, 4);
  }

  lemma {:induction false} ByteDivides(crc: nat, byte: Byte)
    requires crc < WORD_LIMIT
    ensures CrcNibble(CrcNibble(crc, byte), byte / 16) == Divided(Xor(crc, byte), 8)
  {
    hide Xor, Divided, CrcNibble;
    var low: nat, high: nat := byte % 16, byte / 16;
    NibbleDivides(crc, byte);
    NibbleDivides(CrcNibble(crc, byte), high);
    FourBitsOut(high);
    DividedXor(Xor(crc, low), 16 * high, 4);
    DividedTwice(Xor(Xor(crc, low), 16 * high), 4, 4);
    XorSixteen(high, low);
    XorAssoc(crc, low, 16 * high);
    XorCommutes(low, 16 * high);
  }

  /** A byte of data is eight: lfs_crc is the remainder of the division by the polynomial of CRC-32, the data
      exclusive-ored in byte by byte, least significant bit first. */
  lemma {:induction false} CrcDivides(crc: nat, data: Bytes, byte: Byte)
    requires crc < WORD_LIMIT
    ensures Crc(crc, []) == crc
    ensures Crc(crc, data + [byte]) == Divided(Xor(Crc(crc, data), byte), 8)
  {
    ByteDivides(Crc(crc, data), byte);
    assert (data + [byte])[..|data|] == data;
  }

  lemma {:induction false} CrcConcat(crc: nat, a: Bytes, b: Bytes)
    requires crc < WORD_LIMIT
    ensures Crc(crc, a + b) == Crc(Crc(crc, a), b)
  {
    if b == [] {
      assert a + b == a;
    } else {
      assert (a + b)[..|a + b| - 1] == a + b[..|b| - 1];
      CrcConcat(crc, a, b[..|b| - 1]);
    }
  }

  // ---------------------------------------------------------------- the codec

  function Store(w: nat, ptag: nat): Bytes {
    if w < WORD_LIMIT && ptag < WORD_LIMIT then XorWord(w, ptag); Be32(Xor(w, ptag)) else [0, 0, 0, 0]
  }

  function Load(s: Bytes, ptag: nat): nat {
    if |s| == 4 && ptag < WORD_LIMIT then Xor(FromBe32(s), ptag) else 0
  }

  function Checksum(crc: nat, data: Bytes): nat {
    if crc < WORD_LIMIT then Crc(crc, data) else 0
  }

  const LITTLEFS := Codec(Store, Load, Checksum)

  lemma StoreLoads(w: nat, ptag: nat)
    requires w < WORD_LIMIT && ptag < WORD_LIMIT
    ensures |Store(w, ptag)| == 4 && Load(Store(w, ptag), ptag) == w
  {
    XorWord(w, ptag);
    Be32RoundTrip(Xor(w, ptag));
  }

  lemma LoadTop(s: Bytes, ptag: nat)
    requires |s| == 4 && ptag < WORD_LIMIT
    ensures Load(s, ptag) < WORD_LIMIT
    ensures Load(s, ptag) >= TOP <==> s[0] / 0x80 != ptag / TOP
  {
    var w := FromBe32(s);
    assert w / TOP == s[0] / 0x80;
    XorWord(w, ptag);
    assert Xor(0, 1) == 1 && Xor(1, 0) == 1 && Xor(0, 0) == 0 && Xor(1, 1) == 0;
  }

  /** littlefs's codec is lawful, so everything proved of the commit format holds for it. */
  lemma LittleFsIsLawful()
    ensures LITTLEFS.Lawful()
  {
    forall w, p | 0 <= w < WORD_LIMIT && 0 <= p < WORD_LIMIT
      ensures |LITTLEFS.store(w, p)| == 4 && LITTLEFS.load(LITTLEFS.store(w, p), p) == w
    {
      StoreLoads(w, p);
    }
    forall s: Bytes, p | |s| == 4 && 0 <= p < WORD_LIMIT
      ensures LITTLEFS.load(s, p) < WORD_LIMIT
      ensures LITTLEFS.load(s, p) >= TOP <==> s[0] / 0x80 != p / TOP
    {
      LoadTop(s, p);
    }
    forall c, x: Bytes, y: Bytes | 0 <= c < WORD_LIMIT
      ensures LITTLEFS.crc(c, x + y) == LITTLEFS.crc(LITTLEFS.crc(c, x), y)
    {
      CrcConcat(c, x, y);
    }
  }

  lemma LoadBack(s: Bytes, p: nat, q: nat)
    requires |s| == 4 && p < WORD_LIMIT && q < WORD_LIMIT && q % TOP == Load(s, p) % TOP
    ensures Load(s, q) % TOP == p % TOP
  {
    var w := FromBe32(s);
    XorMod(w, p);
    XorMod(w, q);
    XorCommutes(w % TOP, p % TOP);
    XorTwice(p % TOP, w % TOP, Xor(p % TOP, w % TOP));
    XorCommutes(w % TOP, q % TOP);
  }

  lemma XorMod(a: nat, b: nat)
    requires a < WORD_LIMIT && b < WORD_LIMIT
    ensures Xor(a, b) % TOP == Xor(a % TOP, b % TOP)
  {
    WordPowers();
    XorLow(a, b, 31);
  }

  lemma LoadStores(s: Bytes, p: nat)
    requires |s| == 4 && p < WORD_LIMIT
    ensures Store(Load(s, p), p) == s
  {
    var w := FromBe32(s);
    XorWord(w, p);
    Be32Same(s);
  }

  lemma Be32Same(s: Bytes)
    requires |s| == 4
    ensures Be32(FromBe32(s)) == s
  {
    var a: int, b: int, c: int, d: int := s[0], s[1], s[2], s[3];
    var n := FromBe32(s);
    DivModUnique(n, 0x100, a * 0x1_0000 + b * 0x100 + c, d);
    DivModUnique(n, 0x1_0000, a * 0x100 + b, c * 0x100 + d);
    DivModUnique(n, 0x100_0000, a, b * 0x1_0000 + c * 0x100 + d);
  }

  /** Any four bytes are some tag word stored behind any other. */
  lemma LittleFsStoresAll()
    ensures CommitTrail.StoresAll(LITTLEFS)
  {
    forall s: Bytes, p | |s| == 4 && 0 <= p < WORD_LIMIT
      ensures LITTLEFS.store(LITTLEFS.load(s, p), p) == s
    {
      LoadStores(s, p);
    }
  }

  /** Going back from tag to tag works with littlefs's exclusive-or. */
  lemma LittleFsIsReversible()
    ensures BlockLookup.Reversible(LITTLEFS)
  {
    forall s: Bytes, p, q | |s| == 4 && 0 <= p < WORD_LIMIT && 0 <= q < WORD_LIMIT && q % TOP == LITTLEFS.load(s, p) % TOP
      ensures LITTLEFS.load(s, q) % TOP == p % TOP
    {
      LoadBack(s, p, q);
    }
  }
}
