/** The skip list that holds a file's data blocks: closed-form indexing, the pointer structure
    and the walks over it (lfs_ctz_index, lfs_ctz_find, lfs_ctz_traverse). */
module CtzList {
  import opened Bits
  import opened Words

  type Disk = map<nat, seq<Byte>>

  const BLOCK_NULL: nat := 0xffff_ffff

  // ---------------------------------------------------------------- where a byte lives

  /** Bytes taken by the pointers at the front of block n. */
  function PointerBytes(n: nat): nat {
    if n == 0 then 0 else 4 * (Ctz(n) + 1)
  }

  /** Data bytes in the blocks before block i. */
  function Start(blockSize: nat, i: nat): int {
    if i == 0 then 0 else Start(blockSize, i - 1) + blockSize - PointerBytes(i - 1)
  }

  lemma {:induction false} StartClosedForm(blockSize: nat, b: int, i: nat)
    requires b == blockSize - 8 && i > 0
    ensures Start(blockSize, i) == i * b + 8 + 4 * Popc(i - 1)
  {
    if i > 1 {
      StartClosedForm(blockSize, b, i - 1);
      PopcPred(i - 1);
      assert i * b == (i - 1) * b + b;
    } else {
      assert Start(blockSize, 0) == 0;
    }
  }

  /** Byte `size` of the file is byte `off` of block i. */
  ghost predicate Located(blockSize: nat, size: nat, i: nat, off: nat) {
    && Start(blockSize, i) <= size < Start(blockSize, i + 1)
    && off == size - Start(blockSize, i) + PointerBytes(i)
    && PointerBytes(i) <= off < blockSize
    && i < Pow2(26)
  }

  /** The quotient once the pointers before block i are taken off. */
  function Adjusted(size: nat, b: nat, i: nat): int
    requires b > 0 && i > 0
  {
    (size - 4 * (Popc(i - 1) + 2)) / b
  }

  function OffsetIn(size: nat, b: nat, i: nat): int {
    size - b * i - 4 * Popc(i)
  }

  function RawIndex(blockSize: nat, size: nat): (int, int)
    requires blockSize >= 128
  {
    var b := blockSize - 2 * 4;
    var i := size / b;
    if i == 0 then (0, size)
    else
      var i' := Adjusted(size, b, i);
      if i' < 0 then (i', 0) else (i', OffsetIn(size, b, i'))
  }

  /** lfs_ctz_index: the block that holds byte `size` of the file, and the byte's offset in that block. */
  function Index(blockSize: nat, size: nat): (nat, nat)
    requires blockSize >= 128 && size < WORD_LIMIT
  {
    IndexIsCorrect(blockSize, size);
    RawIndex(blockSize, size)
  }

  lemma SmallPowers()
    ensures Pow2(26) == 0x400_0000
  {
    assert Pow2(10) == 0x400;
    Pow2Split(10, 10);
    Pow2Split(20, 6);
    assert Pow2(6) == 0x40;
    assert Pow2(20) == Pow2(10) * Pow2(10);
    assert Pow2(26) == Pow2(6) * Pow2(20);
  }

  lemma {:induction false} FewBlocks(b: nat, i: nat, size: nat)
    requires b >= 120 && i * b <= size < WORD_LIMIT
    ensures i < Pow2(26)
  {
    SmallPowers();
    ProductMonotone(i, i, 120, b);
  }

  lemma ProductMonotone(a: nat, a': nat, b: nat, b': nat)
    requires a <= a' && b <= b'
    ensures a * b <= a' * b'
  {
    assert a * b <= a * b' <= a' * b';
  }

  /** The start of the block after i, over the product i * b alone. */
  lemma {:induction false} NextStart(blockSize: nat, b: int, i: nat)
    requires b == blockSize - 8
    ensures Start(blockSize, i + 1) == i * b + b + 8 + 4 * Popc(i)
  {
    StartClosedForm(blockSize, b, i + 1);
    assert (i + 1) * b == i * b + b;
  }

  lemma {:induction false} IndexIsCorrect(blockSize: nat, size: nat)
    requires blockSize >= 128 && size < WORD_LIMIT
    ensures var (i, off) := RawIndex(blockSize, size); i >= 0 && off >= 0 && Located(blockSize, size, i, off)
  {
    var b := blockSize - 2 * 4;
    var i := size / b;
    QuotientBounds(size, b);
    FewBlocks(b, i, size);
    if i == 0 {
      InFirstBlock(blockSize, size);
    } else {
      SecondGuessLands(blockSize, b, size, i, Adjusted(size, b, i));
    }
  }

  lemma {:induction false} InFirstBlock(blockSize: nat, size: nat)
    requires blockSize >= 128 && size < blockSize - 8
    ensures Located(blockSize, size, 0, size)
  {
    NextStart(blockSize, blockSize - 8, 0);
    PowPositive(26);
  }

  lemma {:induction false} PowPositive(n: nat)
    ensures Pow2(n) > 0
  {
    if n > 0 { PowPositive(n - 1); }
  }

  lemma QuotientBounds(size: nat, b: nat)
    requires b > 0
    ensures (size / b) * b <= size < (size / b) * b + b
  {
  }

  /** The adjusted quotient never misses its block: it is the first guess or one less. */
  lemma {:induction false} SecondGuessLands(blockSize: nat, b: nat, size: nat, i: nat, i': int)
    requires blockSize >= 128 && b == blockSize - 8 && size < WORD_LIMIT
    requires 0 < i < Pow2(26) && i * b <= size < i * b + b
    requires i' == Adjusted(size, b, i)
    ensures i' >= 0 && OffsetIn(size, b, i') >= 0 && Located(blockSize, size, i', OffsetIn(size, b, i'))
  {
    PopcBound(i - 1, 26);
    var p := 4 * (Popc(i - 1) + 2);
    SecondGuess(size, b, i, p);
    GuessedStarts(blockSize, b, size, i, p);
    LandsInBlock(blockSize, b, size, i');
  }

  /** The block starts around the byte, on either side of the first guess. */
  lemma {:induction false} GuessedStarts(blockSize: nat, b: nat, size: nat, i: nat, p: nat)
    requires blockSize >= 128 && b == blockSize - 8 && 0 < i < Pow2(26) && p == 4 * (Popc(i - 1) + 2)
    requires i * b <= size < i * b + b
    ensures if size - p >= i * b then Start(blockSize, i) <= size < Start(blockSize, i + 1)
            else Start(blockSize, i - 1) <= size < Start(blockSize, i)
  {
    StartClosedForm(blockSize, b, i);
    NextStart(blockSize, b, i);
    PreviousStart(blockSize, b, i);
  }

  lemma {:induction false} PreviousStart(blockSize: nat, b: nat, i: nat)
    requires blockSize >= 128 && b == blockSize - 8 && 0 < i < Pow2(26)
    ensures Start(blockSize, i - 1) <= i * b
  {
    if i > 1 {
      NextStart(blockSize, b, i - 2);
      PopcBound(i - 2, 26);
    }
    assert i * b == (i - 2) * b + b + b;
  }

  lemma {:induction false} LandsInBlock(blockSize: nat, b: nat, size: nat, i: nat)
    requires blockSize >= 128 && b == blockSize - 8 && size < WORD_LIMIT && i < Pow2(26)
    requires Start(blockSize, i) <= size < Start(blockSize, i + 1)
    ensures OffsetIn(size, b, i) >= 0 && Located(blockSize, size, i, OffsetIn(size, b, i))
  {
    StartClosedForm(blockSize, b, i + 1);
    if i > 0 {
      StartClosedForm(blockSize, b, i);
      PopcPred(i);
    }
    PopcBound(i, 26);
  }

  /** Subtracting less than one unit moves the quotient down by at most one. */
  lemma {:induction false} SecondGuess(size: nat, b: nat, i: nat, p: nat)
    requires b > 0 && i > 0 && i * b <= size < i * b + b && p < b
    ensures (size - p) / b == if size - p >= i * b then i else i - 1
  {
    if size - p >= i * b {
      DivModUnique(size - p, b, i, size - p - i * b);
    } else {
      assert (i - 1) * b == i * b - b;
      DivModUnique(size - p, b, i - 1, size - p - (i - 1) * b);
    }
  }

  /** No other block can hold the byte, so Index is the only correct answer. */
  lemma {:induction false} IndexIsUnique(blockSize: nat, size: nat, j: nat)
    requires blockSize >= 128 && size < WORD_LIMIT
    requires Start(blockSize, j) <= size < Start(blockSize, j + 1)
    ensures j == Index(blockSize, size).0
  {
    IndexIsCorrect(blockSize, size);
    var i := Index(blockSize, size).0;
    if j < i { StartIncreases(blockSize, j + 1, i, size); }
    if i < j { StartAbove(blockSize, i + 1, j, size); }
  }

  lemma {:induction false} StartIncreases(blockSize: nat, lo: nat, hi: nat, size: nat)
    requires blockSize >= 128 && lo <= hi < Pow2(26)
    ensures Start(blockSize, lo) <= Start(blockSize, hi)
  {
    if lo < hi {
      StartIncreases(blockSize, lo, hi - 1, size);
      if hi > 1 { CtzBound(hi - 1, 26); }
    }
  }

  /** Once past the byte, block starts stay past it, however far the index runs. */
  lemma {:induction false} StartAbove(blockSize: nat, lo: nat, hi: nat, size: nat)
    requires blockSize >= 128 && 0 < lo <= hi && lo <= Pow2(26) && size < Start(blockSize, lo)
    ensures size < Start(blockSize, hi)
  {
    if hi > Pow2(26) {
      StartFarAbove(blockSize, blockSize - 8, lo, hi);
    } else if lo < hi {
      StartAbove(blockSize, lo, hi - 1, size);
      if hi > 1 { CtzBound(hi - 1, 26); }
    }
  }

  lemma {:induction false} StartFarAbove(blockSize: nat, b: nat, lo: nat, hi: nat)
    requires blockSize >= 128 && b == blockSize - 8 && 0 < lo < hi && lo <= Pow2(26)
    ensures Start(blockSize, lo) <= Start(blockSize, hi)
  {
    NextStart(blockSize, b, lo - 1);
    NextStart(blockSize, b, hi - 1);
    PopcBound(lo - 1, 26);
    OneMore(lo, hi - 1, b);
  }

  lemma OneMore(a: int, c: nat, b: nat)
    requires 0 < a <= c
    ensures (a - 1) * b + b <= c * b
  {
    ProductMonotone(a, c, b, b);
    assert a * b == (a - 1) * b + b;
  }
}
