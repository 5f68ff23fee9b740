/** What the tests on tags mean on the packed word: the masks and shifts of lfs_tag_*. */
module TagWords {
  import opened Bits
  import opened WordBits
  import opened Tags
  import opened CommitFormat

  /** The word of a tag on disk, its valid bit set or not. */
  function Word(t: Tag, invalid: bool): (w: Word32)
    requires TagFits(t)
  {
    Pack(t) + if invalid then TOP else 0
  }

  /** A mask of n ones. */
  function Ones(n: nat): nat {
    Pow2(n) - 1
  }

  /** (word & (mask << k)) >> k, for a mask of n ones. */
  function Field(w: nat, k: nat, n: nat): nat {
    ShiftRight(And(w, ShiftLeft(Ones(n), k)), k)
  }

  lemma {:induction false} FieldIs(w: nat, k: nat, n: nat)
    ensures Field(w, k, n) == w / Pow2(k) % Pow2(n)
  {
    hide And, ShiftRight, ShiftLeft, Pow2;
    var high, low: nat := w / Pow2(k), w % Pow2(k);
    ShiftLeftIsProduct(Ones(n), k);
    AndHigh(w, high, low, n, k);
    MaskedPart(And(w, Ones(n) * Pow2(k)), high % Pow2(n), k);
  }

  lemma AndHigh(w: nat, high: nat, low: nat, n: nat, k: nat)
    requires w == high * Pow2(k) + low && low < Pow2(k)
    ensures And(w, Ones(n) * Pow2(k)) == high % Pow2(n) * Pow2(k)
  {
    hide And, Pow2;
    AndParts(high, low, Ones(n), 0, k);
    AndOnes(high, n);
    AndNothing(low);
  }

  lemma MaskedPart(a: nat, part: nat, k: nat)
    requires a == part * Pow2(k)
    ensures ShiftRight(a, k) == part
  {
    ShiftIsDivision(a, k);
    DivModUnique(a, Pow2(k), part, 0);
  }

  /** The fields of a word are the tag's; a type test on some leading bits is one on the type's. */
  lemma FieldsAre(t: Tag, invalid: bool)
    requires TagFits(t)
    ensures var w := Word(t, invalid);
      && Field(w, 0, 10) == t.size
      && Field(w, 10, 10) == t.id
      && Field(w, 20, 11) == t.typ
      && Field(w, 20, 8) == t.typ % 0x100
      && Field(w, 28, 3) == t.typ / 0x100
      && Field(w, 27, 4) == t.typ / 0x80
      && (Field(w, 31, 1) == 1 <==> invalid)
  {
    TagPowers();
    var w := Word(t, invalid);
    FieldIs(w, 0, 10);
    FieldIs(w, 10, 10);
    FieldIs(w, 20, 11);
    FieldIs(w, 20, 8);
    FieldIs(w, 28, 3);
    FieldIs(w, 27, 4);
    FieldIs(w, 31, 1);
    Quotients(t, if invalid then 1 else 0);
  }

  lemma TagPowers()
    ensures Pow2(0) == 1 && Pow2(1) == 2 && Pow2(3) == 8 && Pow2(4) == 16 && Pow2(8) == 0x100 && Pow2(10) == 0x400
    ensures Pow2(11) == 0x800 && Pow2(20) == 0x10_0000 && Pow2(27) == 0x800_0000 && Pow2(28) == 0x1000_0000
    ensures Pow2(31) == 0x8000_0000
  {
    assert Pow2(8) == 0x100;
    Pow2Split(8, 8);
    Pow2Split(16, 4);
    Pow2Split(16, 8);
    Pow2Split(24, 3);
    assert Pow2(28) == 2 * Pow2(27);
    WordPowers();
  }

  lemma Quotients(t: Tag, v: nat)
    requires TagFits(t) && v < 2
    ensures var w := Pack(t) + v * TOP;
      && w % 0x400 == t.size && w / 0x400 % 0x400 == t.id
      && w / 0x10_0000 % 0x800 == t.typ && w / 0x10_0000 % 0x100 == t.typ % 0x100
      && w / 0x1000_0000 % 8 == t.typ / 0x100 && w / 0x800_0000 % 16 == t.typ / 0x80
      && w / 0x8000_0000 % 2 == v
  {
    var w, rest: nat := Pack(t) + v * TOP, t.id * 0x400 + t.size;
    Quotient(w, 0x400, (v * 0x800 + t.typ) * 0x400 + t.id, t.size, 0x400, v * 0x800 + t.typ, t.id);
    Quotient(w, 0x10_0000, v * 0x800 + t.typ, rest, 0x800, v, t.typ);
    Quotient(w, 0x10_0000, v * 0x800 + t.typ, rest, 0x100, v * 8 + t.typ / 0x100, t.typ % 0x100);
    Quotient(w, 0x1000_0000, v * 8 + t.typ / 0x100, t.typ % 0x100 * 0x10_0000 + rest, 8, v, t.typ / 0x100);
    Quotient(w, 0x800_0000, v * 16 + t.typ / 0x80, t.typ % 0x80 * 0x10_0000 + rest, 16, v, t.typ / 0x80);
    Quotient(w, 0x8000_0000, v, t.typ * 0x10_0000 + rest, 2, 0, v);
  }

  lemma Quotient(w: nat, d: nat, q: nat, r: nat, m: nat, high: nat, low: nat)
    requires d > 0 && m > 0 && w == q * d + r && r < d && q == high * m + low && low < m
    ensures w / d == q && w % d == r && w / d % m == low
  {
    DivModUnique(w, d, q, r);
    DivModUnique(q, m, high, low);
  }

  // ---------------------------------------------------------------- the tests

  /** LFS_MKTAG */
  lemma PackIsOr(t: Tag)
    requires TagFits(t)
    ensures Pack(t) == Or(Or(ShiftLeft(t.typ, 20), ShiftLeft(t.id, 10)), t.size)
  {
    TagPowers();
    ShiftLeftIsProduct(t.typ, 20);
    ShiftLeftIsProduct(t.id, 10);
    OrParts(t.typ, t.id * 0x400, 20);
    OrParts(t.typ * 0x400 + t.id, t.size, 10);
  }

  /** lfs_tag_isdelete: the size field is all ones, -1 as a signed number of ten bits. */
  lemma DeletedIsAllOnes(t: Tag, invalid: bool)
    requires TagFits(t)
    ensures t.IsDelete() <==> forall k | 0 <= k < 10 :: HasBit(Word(t, invalid), k)
  {
    FieldsAre(t, invalid);
    TagPowers();
    FieldIs(Word(t, invalid), 0, 10);
    AllOnes(Word(t, invalid), 10);
  }

  lemma {:induction false} AllOnes(a: nat, n: nat)
    ensures a % Pow2(n) == Pow2(n) - 1 <==> forall k | 0 <= k < n :: HasBit(a, k)
  {
    if n > 0 {
      AllOnes(a / 2, n - 1);
      LowHalf(a, n);
      forall k | 0 < k < n ensures HasBit(a, k) <==> HasBit(a / 2, k - 1) {
        HalveThenDivide(a, k);
      }
      assert HasBit(a, 0) <==> a % 2 == 1;
      if forall k | 0 <= k < n :: HasBit(a, k) {
        forall k | 0 <= k < n - 1 ensures HasBit(a / 2, k) {
          assert HasBit(a, k + 1);
        }
      }
    }
  }

  /** lfs_tag_dsize: the word and its data; the size field of a deleted tag wraps to 0 when one is added. */
  lemma DsizeIs(t: Tag, invalid: bool)
    requires TagFits(t)
    ensures t.Dsize() == 4 + Field(Word(t, invalid) + (if t.IsDelete() then 1 else 0), 0, 10)
  {
    var w := Word(t, invalid);
    FieldsAre(t, invalid);
    if t.IsDelete() {
      FieldsAre(t, invalid);
      Wrapped(w, t.size);
    }
  }

  lemma Wrapped(w: nat, size: nat)
    requires Field(w, 0, 10) == size == DELETED
    ensures Field(w + 1, 0, 10) == 0
  {
    hide Field;
    TagPowers();
    FieldIs(w, 0, 10);
    FieldIs(w + 1, 0, 10);
    DivModUnique(w + 1, 0x400, w / 0x400 + 1, 0);
  }

  /** lfs_tag_type1 tells splices, tails, names, structs and user attributes, and lfs_tag_type2 tells CRCs. */
  lemma KindsAre(t: Tag, invalid: bool)
    requires TagFits(t)
    ensures var type1, type2 := Field(Word(t, invalid), 28, 3), Field(Word(t, invalid), 27, 4);
      && (t.IsSplice() <==> type1 == 4) && (IsTail(t) <==> type1 == 6) && (t.typ < TYPE_SPLICE <==> type1 < 4)
      && (IsCrc(t) <==> type2 == 10)
  {
    FieldsAre(t, invalid);
  }

  /** lfs_tag_splice: the chunk as a signed byte. */
  lemma SpliceIsSigned(t: Tag, invalid: bool)
    requires TagFits(t)
    ensures -0x80 <= Splice(t.typ) < 0x80
    ensures (Field(Word(t, invalid), 20, 8) - Splice(t.typ)) % 0x100 == 0
  {
    hide Field, Word;
    FieldsAre(t, invalid);
  }

  /** What is expected of the tag behind: the valid bit flipped when the chunk of a CRC is odd. */
  lemma ExpectedIsXor(t: Tag)
    requires TagFits(t)
    ensures Expected(t) == if IsCrc(t) then Xor(Pack(t), ShiftLeft(And(Field(Pack(t), 20, 8), 1), 31)) else Pack(t)
  {
    hide Xor, And, Field, ShiftLeft, Pack;
    FieldsAre(t, false);
    assert Word(t, false) == Pack(t);
    OddChunk(t.typ);
    XorUnit(Pack(t));
    XorTop(Pack(t));
  }

  lemma OddChunk(typ: nat)
    ensures ShiftLeft(And(typ % 0x100, 1), 31) == if typ % 2 == 1 then TOP else 0
  {
    hide And, ShiftLeft;
    TagPowers();
    AndOnes(typ % 0x100, 1);
    ShiftLeftIsProduct(typ % 0x100 % 2, 31);
    assert typ % 0x100 % 2 == typ % 2;
  }

  lemma {:induction false} XorTop(w: nat)
    requires w < TOP
    ensures Xor(w, TOP) == w + TOP
  {
    WordPowers();
    XorUnit(w);
    XorUnit(1);
    XorHigh(w, TOP, 31, 0, 1);
    XorLow(w, TOP, 31);
    assert Xor(0, 1) == 1;
    DivModUnique(w, TOP, 0, w);
    DivModUnique(TOP, TOP, 1, 0);
    var x := Xor(w, TOP);
    assert x == x / TOP * TOP + x % TOP;
  }

  // ---------------------------------------------------------------- the masks of a lookup

  /** The mask a query tests types with. */
  function Mask(q: Query): nat {
    match q
    case Exact(_) => 0x7ff
    case Kind(_) => 0x780
    case Family(_) => 0x700
  }

  lemma MatchIsMasked(q: Query, typ: nat)
    requires typ < 0x800 && q.typ < 0x800
    ensures q.Matches(typ) <==> And(Mask(q), typ) == And(Mask(q), q.typ)
  {
    TypeMasks(typ);
    TypeMasks(q.typ);
  }

  lemma TypeMasks(t: nat)
    requires t < 0x800
    ensures And(0x7ff, t) == t && And(0x780, t) == t / 0x80 * 0x80 && And(0x700, t) == t / 0x100 * 0x100
  {
    hide And;
    TagPowers();
    assert Pow2(7) == 0x80;
    AndCommutes(0x7ff, t);
    AndOnes(t, 11);
    LeadingMask(t, 7, 4);
    LeadingMask(t, 8, 3);
  }

  /** A mask of n ones and k zeros, on a number of n + k bits. */
  lemma LeadingMask(t: nat, k: nat, n: nat)
    requires t / Pow2(k) < Pow2(n)
    ensures And(Ones(n) * Pow2(k), t) == t / Pow2(k) * Pow2(k)
  {
    hide And, Pow2;
    var high, low: nat := t / Pow2(k), t % Pow2(k);
    AndCommutes(Ones(n) * Pow2(k), t);
    AndHigh(t, high, low, n, k);
    DivModUnique(high, Pow2(n), 0, high);
  }

  lemma {:induction false} AndCommutes(a: nat, b: nat)
    ensures And(a, b) == And(b, a)
  {
    if a != 0 || b != 0 {
      AndCommutes(a / 2, b / 2);
    }
  }

  /** The comparison of lfs_dir_getslice, (mask & tag) == (mask & wanted), with the id in the mask. */
  lemma WordsMatch(q: Query, t: Tag, id: nat, size: nat)
    requires TagFits(t) && TagFits(Tag(q.typ, id, size))
    ensures var mask := Mask(q) * 0x10_0000 + 0x3ff * 0x400;
      And(Pack(t), mask) == And(Pack(Tag(q.typ, id, size)), mask) <==> q.Matches(t.typ) && t.id == id
  {
    MaskedWord(q, t);
    MaskedWord(q, Tag(q.typ, id, size));
    MatchIsMasked(q, t.typ);
    AndCommutes(Mask(q), t.typ);
    AndCommutes(Mask(q), q.typ);
  }

  lemma MaskedWord(q: Query, t: Tag)
    requires TagFits(t)
    ensures And(Pack(t), Mask(q) * 0x10_0000 + 0x3ff * 0x400) == And(t.typ, Mask(q)) * 0x10_0000 + t.id * 0x400
  {
    hide And, Mask;
    TagPowers();
    AndParts(t.typ, t.id * 0x400 + t.size, Mask(q), 0x3ff * 0x400, 20);
    AndParts(t.id, t.size, 0x3ff, 0, 10);
    AndOnes(t.id, 10);
    AndNothing(t.size);
    DivModUnique(t.id, 0x400, 0, t.id);
  }
}
