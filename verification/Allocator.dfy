/** The lookahead block allocator (lfs_alloc and friends): a sliding bitmap window over the
    device, refilled by scans of the filesystem and bounded by checkpoints. */
module Allocator {
  import opened Bits

  const WORD: nat := 0x1_0000_0000

  datatype Error = Ok | NoSpace | ScanFailed(code: int)

  /** What became of one position of the device since the last checkpoint: handed out or
      skipped, judged by the filesystem scan that covered it with the window standing at `start`. */
  datatype Verdict = Verdict(given: bool, scan: seq<nat>, start: nat)

  // ---------------------------------------------------------------- the bitmap

  function Mask(i: nat): bv8
    requires i < 8
  {
    (1 as bv8) << i
  }

  lemma MaskTable(i: nat)
    requires i < 8
    ensures Mask(i) == [1 as bv8, 2, 4, 8, 16, 32, 64, 128][i]
  {
    if i == 0 {} else if i == 1 {} else if i == 2 {} else if i == 3 {}
    else if i == 4 {} else if i == 5 {} else if i == 6 {} else { assert i == 7; }
  }

  function Bit(bytes: seq<bv8>, off: nat): bool
    requires off < 8 * |bytes|
  {
    bytes[off / 8] & Mask(off % 8) != 0
  }

  lemma MasksApart(x: bv8, i: nat, j: nat)
    requires i < 8 && j < 8
    ensures ((x | Mask(i)) & Mask(j) != 0) == (i == j || x & Mask(j) != 0)
    ensures (0 as bv8) & Mask(j) == 0
  {
    MaskTable(i);
    MaskTable(j);
  }

  /** Setting a bit sets that bit and no other. */
  lemma SetBit(bytes: seq<bv8>, off: nat, o: nat)
    requires off < 8 * |bytes| && o < 8 * |bytes|
    ensures Bit(bytes[off / 8 := bytes[off / 8] | Mask(off % 8)], o) == (o == off || Bit(bytes, o))
  {
    MasksApart(bytes[off / 8], off % 8, o % 8);
  }

  // ---------------------------------------------------------------- positions

  /** lfs_alloc_lookahead's offset of a block in the window, in 32-bit arithmetic. */
  function WindowOffset(block: nat, start: nat, blockCount: nat): nat
    requires block < WORD && start < blockCount < WORD
  {
    WindowSum(block, start, blockCount) % blockCount
  }

  function WindowSum(block: nat, start: nat, blockCount: nat): nat
    requires block < WORD
  {
    ((block - start) % WORD + blockCount) % WORD
  }

  lemma WindowSumValue(block: nat, start: nat, blockCount: nat)
    requires block < blockCount < WORD && start < blockCount
    ensures WindowSum(block, start, blockCount) ==
            if block - start + blockCount < WORD then block - start + blockCount else block - start + blockCount - WORD
  {
    if block < start {
      assert (block - start) % WORD == block - start + WORD;
    }
  }

  /** The offset leads back to the block for every window exactly when the device has at most
      2^31 blocks; beyond that the sum of the two 32-bit terms wraps. */
  lemma WindowOffsetExact(blockCount: nat)
    requires 0 < blockCount < WORD
    ensures blockCount <= 0x8000_0000 <==>
            forall block, start | 0 <= block < blockCount && 0 <= start < blockCount ::
              BlockAt(start, WindowOffset(block, start, blockCount), blockCount) == block
  {
    if blockCount <= WORD / 2 {
      forall block, start | 0 <= block < blockCount && 0 <= start < blockCount
        ensures BlockAt(start, WindowOffset(block, start, blockCount), blockCount) == block
      {
        WindowOffsetInverse(block, start, blockCount);
      }
    } else {
      WindowOffsetWraps(blockCount);
    }
  }

  lemma WindowOffsetWraps(blockCount: nat)
    requires WORD / 2 < blockCount < WORD
    ensures BlockAt(0, WindowOffset(blockCount - 1, 0, blockCount), blockCount) != blockCount - 1
  {
    WindowSumValue(blockCount - 1, 0, blockCount);
    var wrapped := 2 * blockCount - 1 - WORD;
    DivModUnique(wrapped, blockCount, 0, wrapped);
    assert WindowOffset(blockCount - 1, 0, blockCount) == wrapped;
  }

  lemma WindowOffsetInverse(block: nat, start: nat, blockCount: nat)
    requires block < blockCount && start < blockCount <= WORD / 2
    ensures WindowOffset(block, start, blockCount) == if block >= start then block - start else block - start + blockCount
    ensures BlockAt(start, WindowOffset(block, start, blockCount), blockCount) == block
  {
    WindowSumValue(block, start, blockCount);
    var off := if block >= start then block - start else block - start + blockCount;
    DivModUnique(block - start + blockCount, blockCount, if block >= start then 1 else 0, off);
    RoundTheDevice(start, off, blockCount);
  }

  /** The block at distance p from the position `base`, going round the device. */
  function BlockAt(base: nat, p: nat, blockCount: nat): nat
    requires base < blockCount
  {
    (base + p) % blockCount
  }

  lemma RoundTheDevice(base: nat, p: nat, blockCount: nat)
    requires base < blockCount && p < blockCount
    ensures BlockAt(base, p, blockCount) == if base + p < blockCount then base + p else base + p - blockCount
  {
    if base + p >= blockCount {
      DivModUnique(base + p, blockCount, 1, base + p - blockCount);
    } else {
      DivModUnique(base + p, blockCount, 0, base + p);
    }
  }

  lemma SameBlock(base: nat, p: nat, q: nat, blockCount: nat)
    requires base < blockCount && p < blockCount && q < blockCount
    ensures BlockAt(base, p, blockCount) == BlockAt(base, q, blockCount) <==> p == q
  {
    RoundTheDevice(base, p, blockCount);
    RoundTheDevice(base, q, blockCount);
  }

  /** Two ways of counting that have reached the same block reach the next one together. */
  lemma NextBlock(base: nat, p: nat, start: nat, q: nat, blockCount: nat)
    requires base < blockCount && start < blockCount && BlockAt(base, p, blockCount) == BlockAt(start, q, blockCount)
    ensures BlockAt(base, p + 1, blockCount) == BlockAt(start, q + 1, blockCount)
  {
    ModChain(base + p, 1, blockCount);
    ModChain(start + q, 1, blockCount);
  }

  lemma ModChain(a: nat, b: nat, m: nat)
    requires m > 0
    ensures (a % m + b) % m == (a + b) % m
  {
    var q := a / m;
    var r := (a % m + b) / m;
    assert a + b == (q + r) * m + (a % m + b) % m;
    DivModUnique(a + b, m, q + r, (a % m + b) % m);
  }

  /** The block whose bit a report of `b` sets in a window standing at `start`: b itself when the
      device has such a block, and what the wrapped offset points to otherwise. */
  function MarkedBy(b: nat, start: nat, blockCount: nat): nat
    requires b < WORD && start < blockCount < WORD
  {
    BlockAt(start, WindowOffset(b, start, blockCount), blockCount)
  }

  /** Some report of the scan sets the bit of `block`. */
  ghost predicate Claims(scan: seq<nat>, start: nat, block: nat, blockCount: nat)
    requires start < blockCount < WORD
  {
    exists b :: b in scan && b < WORD && MarkedBy(b, start, blockCount) == block
  }

  /** A scan claims every block of the device it names, and no other when all it names exist. */
  lemma ClaimsNamed(scan: seq<nat>, start: nat, block: nat, blockCount: nat)
    requires start < blockCount <= WORD / 2 && block < blockCount
    ensures block in scan ==> Claims(scan, start, block, blockCount)
    ensures InDevice(scan, blockCount) ==> (Claims(scan, start, block, blockCount) <==> block in scan)
  {
    WindowOffsetInverse(block, start, blockCount);
    if block in scan {
      assert MarkedBy(block, start, blockCount) == block;
    }
    if InDevice(scan, blockCount) && Claims(scan, start, block, blockCount) {
      var b :| b in scan && b < WORD && MarkedBy(b, start, blockCount) == block;
      WindowOffsetInverse(b, start, blockCount);
    }
  }

  ghost predicate InDevice(scan: seq<nat>, blockCount: nat) {
    forall i | 0 <= i < |scan| :: scan[i] < blockCount
  }

  ghost predicate InWord(scan: seq<nat>) {
    forall i | 0 <= i < |scan| :: scan[i] < WORD
  }

  // ---------------------------------------------------------------- the allocator

  class Lookahead {
    const blockCount: nat
    const buffer: array<bv8>
    var start: nat
    var size: nat
    var next: nat
    var ckpoint: nat

    // what a traversal of the filesystem reports, and the error it ends with
    var tree: seq<nat>
    var treeError: int

    // position of the last checkpoint, the verdicts since, and the scan behind the current window
    ghost var base: nat
    ghost var verdicts: seq<Verdict>
    ghost var scan: seq<nat>

    ghost predicate Geometry()
      reads this
    {
      && 0 < blockCount <= WORD / 2 && buffer.Length > 0
      && start < blockCount && base < blockCount
      && next <= size <= 8 * buffer.Length
      && size - next <= ckpoint <= blockCount
      && |verdicts| == blockCount - ckpoint
      && BlockAt(base, |verdicts|, blockCount) == BlockAt(start, next, blockCount)
    }

    ghost predicate WindowOk()
      reads this, buffer
      requires Geometry()
    {
      forall off | next <= off < size ::
        Bit(buffer[..], off) <==> Claims(scan, start, BlockAt(start, off, blockCount), blockCount)
    }

    ghost predicate VerdictsOk()
      reads this
      requires Geometry()
    {
      AllJudged(verdicts, base, blockCount)
    }

    ghost predicate Valid()
      reads this, buffer
    {
      Geometry() && WindowOk() && VerdictsOk()
    }

    /** The position, counted from the checkpoint, at which the current window ends. */
    ghost function Horizon(): nat
      reads this
      requires Geometry()
    {
      |verdicts| + size - next
    }

    /** The blocks handed out since the last checkpoint. */
    ghost function Given(): set<nat>
      reads this
      requires Geometry()
    {
      GivenBy(verdicts, base, blockCount)
    }

    constructor (blockCount: nat, lookaheadSize: nat, seed: nat)
      requires 0 < blockCount <= WORD / 2 && lookaheadSize > 0
      ensures Valid() && fresh(buffer)
      ensures this.blockCount == blockCount && ckpoint == blockCount && size == next == 0 && verdicts == []
    {
      this.blockCount := blockCount;
      buffer := new bv8[lookaheadSize](_ => 0);
      start := seed % blockCount;
      size, next, ckpoint := 0, 0, blockCount;
      tree, treeError := [], 0;
      base, verdicts, scan := seed % blockCount, [], [];
    }

    /** lfs_alloc_ckpoint, called once nothing handed out is still uncommitted. */
    method Checkpoint()
      requires Valid()
      modifies this`ckpoint, this`base, this`verdicts
      ensures Valid() && ckpoint == blockCount && verdicts == [] && Given() == {}
    {
      ckpoint := blockCount;
      base := BlockAt(start, next, blockCount);
      verdicts := [];
      ModChain(start + next, 0, blockCount);
    }

    /** lfs_alloc_drop: forget the window. */
    method Drop()
      requires Geometry()
      modifies this
      ensures Valid() && size == next == 0 && ckpoint == blockCount && verdicts == []
      ensures start == old(start) && tree == old(tree) && treeError == old(treeError)
    {
      size, next := 0, 0;
      ckpoint := blockCount;
      base, verdicts := start, [];
    }

    function IsMarked(off: nat): bool
      reads this, buffer
      requires off < 8 * buffer.Length
    {
      Bit(buffer[..], off)
    }

    /** lfs_alloc_lookahead: the traversal's callback. */
    method MarkBlock(block: nat)
      requires Geometry() && block < WORD
      modifies buffer
      ensures forall off | 0 <= off < size ::
                IsMarked(off) == (old(IsMarked(off)) || off == WindowOffset(block, start, blockCount))
    {
      var off := WindowOffset(block, start, blockCount);
      if off < size {
        ghost var was := buffer[..];
        buffer[off / 8] := buffer[off / 8] | Mask(off % 8);
        assert buffer[..] == was[off / 8 := was[off / 8] | Mask(off % 8)];
        forall o | 0 <= o < size
          ensures Bit(buffer[..], o) == (o == off || Bit(was, o))
        {
          SetBit(was, off, o);
        }
      } else {
        assert buffer[..] == old(buffer[..]);
      }
    }

    /** lfs_alloc_scan: slide the window to the next position and mark what the filesystem uses. */
    method Scan() returns (err: Error)
      requires Valid() && next == size && ckpoint > 0
      requires InWord(tree)
      modifies this, buffer
      ensures Valid() && tree == old(tree) && treeError == old(treeError)
      ensures treeError == 0 <==> err == Ok
      ensures err == Ok ==> scan == tree && start == BlockAt(old(start), old(next), blockCount)
      ensures err == Ok ==> next == 0 && size == Min(8 * buffer.Length, ckpoint) && ckpoint == old(ckpoint)
      ensures err == Ok ==> base == old(base) && verdicts == old(verdicts)
      ensures err != Ok ==> err == ScanFailed(treeError) && size == next == 0 && ckpoint == blockCount && verdicts == []
    {
      start := BlockAt(start, next, blockCount);
      next := 0;
      size := Min(8 * buffer.Length, ckpoint);
      ModChain(old(start) + old(next), 0, blockCount);
      scan := tree;
      var i := 0;
      while i < buffer.Length
        invariant 0 <= i <= buffer.Length
        invariant forall k | 0 <= k < i :: buffer[k] == 0
        modifies buffer
      {
        buffer[i] := 0;
        i := i + 1;
      }
      forall off | 0 <= off < size
        ensures !IsMarked(off)
      {
        MasksApart(0, 0, off % 8);
      }
      i := 0;
      while i < |tree|
        invariant 0 <= i <= |tree|
        invariant forall off | 0 <= off < size ::
            IsMarked(off) <==> Claims(tree[..i], start, BlockAt(start, off, blockCount), blockCount)
        modifies buffer
      {
        label before:
        MarkBlock(tree[i]);
        forall off | 0 <= off < size
          ensures IsMarked(off) <==> Claims(tree[..i + 1], start, BlockAt(start, off, blockCount), blockCount)
        {
          OneMoreReport(tree, i, start, off, blockCount);
        }
        i := i + 1;
      }
      assert tree[..i] == tree;
      if treeError != 0 {
        Drop();
        return ScanFailed(treeError);
      }
      err := Ok;
    }

    /** Moves past one position of the window, recording what became of it. */
    method Advance()
      requires Valid() && next < size
      modifies this`next, this`ckpoint, this`verdicts
      ensures Valid() && next == old(next) + 1 && ckpoint == old(ckpoint) - 1
      ensures verdicts == old(verdicts) + [Verdict(!IsMarked(old(next)), scan, start)]
    {
      NextBlock(base, |verdicts|, start, next, blockCount);
      ghost var verdict := Verdict(!IsMarked(next), scan, start);
      OneMoreVerdict(verdicts, verdict, base, blockCount);
      verdicts := verdicts + [verdict];
      next := next + 1;
      ckpoint := ckpoint - 1;
    }

    /** Moves on to the next free block of the window, or to its end. */
    method SkipMarked()
      requires Valid()
      modifies this`next, this`ckpoint, this`verdicts
      ensures Valid() && old(verdicts) <= verdicts && Horizon() == old(Horizon()) && Given() == old(Given())
      ensures next == size || !IsMarked(next)
      ensures forall p | old(|verdicts|) <= p < |verdicts| :: verdicts[p] == Verdict(false, scan, start)
    {
      while next < size && IsMarked(next)
        invariant Valid() && old(verdicts) <= verdicts && Horizon() == old(Horizon()) && Given() == old(Given())
        invariant forall p | old(|verdicts|) <= p < |verdicts| :: verdicts[p] == Verdict(false, scan, start)
        decreases size - next
      {
        ghost var before := verdicts;
        Advance();
        GivenGrows(before, Verdict(false, scan, start), base, blockCount);
      }
    }

    /** Takes the free block at `next`, then eagerly moves on to the next free block of the window. */
    method Take() returns (block: nat)
      requires Valid() && next < size && !IsMarked(next)
      modifies this`next, this`ckpoint, this`verdicts
      ensures Valid() && old(verdicts) < verdicts && Horizon() == old(Horizon())
      ensures next == size || !IsMarked(next)
      ensures block == BlockAt(start, old(next), blockCount) && block !in old(Given())
      ensures Given() == old(Given()) + {block}
      ensures verdicts[old(|verdicts|)] == Verdict(true, scan, start) && block !in scan
      ensures forall p | old(|verdicts|) < p < |verdicts| :: verdicts[p] == Verdict(false, scan, start)
    {
      block := BlockAt(start, next, blockCount);
      ClaimsNamed(scan, start, block, blockCount);
      FreshPosition(verdicts, base, blockCount, block);
      ghost var before := verdicts;
      Advance();
      GivenGrows(before, Verdict(true, scan, start), base, blockCount);
      assert verdicts[|before|] == Verdict(true, scan, start);
      SkipMarked();
    }

    /** Some position from `from` on was handed out, and its covering scan does not name it. */
    ghost predicate Handed(from: nat, block: nat)
      reads this
      requires base < blockCount
    {
      exists p :: from <= p < |verdicts| && block == BlockAt(base, p, blockCount)
                  && verdicts[p].given && block !in verdicts[p].scan
    }

    /** Every block of the device was handed out since the checkpoint, or claimed by the scan that covered it. */
    ghost predicate Exhausted()
      reads this
      requires Geometry()
    {
      forall b | 0 <= b < blockCount ::
        b in Given() || exists p :: 0 <= p < |verdicts| && Covers(verdicts[p], base, p, b, blockCount)
    }

    /** The scan behind every position passed since `from`: that of the old window up to its end,
        the filesystem's present blocks beyond it. */
    ghost predicate CoveredBy(from: nat, horizon: nat, before: seq<nat>, now: seq<nat>)
      reads this
    {
      forall p | from <= p < |verdicts| :: verdicts[p].scan == if p < horizon then before else now
    }

    /** Looks for a free block in the rest of the window. */
    method SearchWindow() returns (found: bool, block: nat)
      requires Valid()
      modifies this`next, this`ckpoint, this`verdicts
      ensures Valid() && old(verdicts) <= verdicts && ckpoint <= old(ckpoint)
      ensures found ==> block < blockCount && block !in old(Given()) && Given() == old(Given()) + {block}
      ensures found ==> Handed(old(|verdicts|), block)
      ensures Horizon() == old(Horizon()) && CoveredBy(old(|verdicts|), Horizon(), scan, scan)
      ensures !found ==> next == size && Given() == old(Given())
      ensures !found && old(next < size) ==> ckpoint < old(ckpoint)
    {
      while next < size
        invariant Valid() && old(verdicts) <= verdicts && Given() == old(Given())
        invariant Horizon() == old(Horizon()) && CoveredBy(old(|verdicts|), Horizon(), scan, scan)
        invariant ckpoint <= old(ckpoint) && (next > old(next) ==> ckpoint < old(ckpoint)) && next >= old(next)
        decreases size - next
      {
        if !IsMarked(next) {
          block := Take();
          return true, block;
        }
        ghost var before := verdicts;
        Advance();
        GivenGrows(before, Verdict(false, scan, start), base, blockCount);
      }
      found, block := false, 0;
    }

    /** The search of lfs_alloc: window after window, until a block is free or all positions are used up. */
    method FindFree() returns (err: Error, block: nat)
      requires Valid()
      requires InWord(tree)
      modifies this, buffer
      ensures Valid() && tree == old(tree) && treeError == old(treeError)
      ensures !err.ScanFailed? ==> base == old(base) && old(verdicts) <= verdicts
      ensures err == Ok ==> block < blockCount && block !in old(Given()) && Given() == old(Given()) + {block}
      ensures err == Ok ==> Handed(old(|verdicts|), block)
      ensures !err.ScanFailed? ==> CoveredBy(old(|verdicts|), old(Horizon()), old(scan), tree)
      ensures !err.ScanFailed? ==> (Horizon() == old(Horizon()) && scan == old(scan))
                                   || (|verdicts| >= old(Horizon()) && scan == tree)
      ensures err == NoSpace ==> ckpoint == 0 && Given() == old(Given())
      ensures err.ScanFailed? ==> treeError != 0 && size == next == 0 && ckpoint == blockCount && verdicts == []
    {
      while true
        invariant Valid() && tree == old(tree) && treeError == old(treeError)
        invariant base == old(base) && old(verdicts) <= verdicts && Given() == old(Given())
        invariant CoveredBy(old(|verdicts|), old(Horizon()), old(scan), tree)
        invariant (Horizon() == old(Horizon()) && scan == old(scan))
                  || (|verdicts| >= old(Horizon()) && scan == tree)
        decreases ckpoint, if next < size then 0 else 1
      {
        var found;
        found, block := SearchWindow();
        if found {
          return Ok, block;
        }
        if ckpoint <= 0 {
          return NoSpace, 0;
        }
        err := Scan();
        if err != Ok {
          return err, 0;
        }
      }
    }

    /** lfs_alloc */
    method Alloc() returns (err: Error, block: nat)
      requires Valid()
      requires InWord(tree)
      modifies this, buffer
      ensures Valid() && tree == old(tree) && treeError == old(treeError)
      ensures !err.ScanFailed? ==> base == old(base) && old(verdicts) <= verdicts
      ensures err == Ok ==> block < blockCount && block !in old(Given()) && Given() == old(Given()) + {block}
      ensures err == Ok ==> Handed(old(|verdicts|), block)
      ensures !err.ScanFailed? ==> CoveredBy(old(|verdicts|), old(Horizon()), old(scan), tree)
      ensures !err.ScanFailed? ==> (Horizon() == old(Horizon()) && scan == old(scan))
                                   || (|verdicts| >= old(Horizon()) && scan == tree)
      ensures err == NoSpace ==> ckpoint == 0 && Given() == old(Given()) && Exhausted()
      ensures err.ScanFailed? ==> treeError != 0 && size == next == 0 && ckpoint == blockCount && verdicts == []
      ensures old(verdicts == [] && next == size) && err == NoSpace && InDevice(tree, blockCount) ==>
                forall b | 0 <= b < blockCount :: b in tree
    {
      err, block := FindFree();
      if err == NoSpace {
        NothingLeft(verdicts, base, blockCount);
        if old(verdicts == [] && next == size) && InDevice(tree, blockCount) {
          AllNamed(verdicts, tree, base, blockCount);
        }
      }
    }

    /** The filesystem changes between allocations. */
    method Change(tree: seq<nat>)
      requires Valid()
      modifies this`tree
      ensures Valid() && this.tree == tree && Given() == old(Given())
    {
      this.tree := tree;
      assert buffer[..] == old(buffer[..]);
    }

    /** One allocation after the filesystem has changed to `tree`; the window is still the one of
        the scan `before`, or comes from a scan of one of the blocks `seen` earlier. */
    method AllocFrom(tree: seq<nat>, ghost seen: seq<seq<nat>>, ghost horizon: nat, ghost before: seq<nat>)
      returns (err: Error, block: nat)
      requires Valid() && InWord(tree)
      requires (Horizon() == horizon && scan == before) || (|verdicts| >= horizon && scan in seen)
      modifies this, buffer
      ensures Valid() && treeError == old(treeError) && (err.ScanFailed? ==> treeError != 0)
      ensures !err.ScanFailed? ==> base == old(base)
      ensures err == Ok ==> block < blockCount && block !in old(Given()) && Given() == old(Given()) + {block}
      ensures err == Ok ==> Unused(block, seen + [tree], base, horizon, before, blockCount)
      ensures err == Ok ==> (Horizon() == horizon && scan == before) || (|verdicts| >= horizon && scan in seen + [tree])
      ensures err == NoSpace ==> ckpoint == 0 && Given() == old(Given()) && Exhausted()
    {
      Change(tree);
      ghost var from, now := |verdicts|, scan;
      err, block := Alloc();
      if err == Ok {
        ghost var p :| from <= p < |verdicts| && block == BlockAt(base, p, blockCount) && block !in verdicts[p].scan;
        WithinIsBefore(base, p, horizon, blockCount);
        if p >= horizon {
          assert verdicts[p].scan in seen + [tree];
        }
      }
    }

    /** Any run of allocations between two checkpoints, with the filesystem changing in between:
        no block is ever handed out twice, each was out of use by the scan that covered it, and the
        run stops early only for want of space or of a traversal. */
    method AllocRun(trees: seq<seq<nat>>) returns (err: Error, blocks: seq<nat>)
      requires Valid() && verdicts == []
      requires forall i | 0 <= i < |trees| :: InWord(trees[i])
      modifies this, buffer
      ensures Valid() && |blocks| <= |trees| && (err == Ok <==> |blocks| == |trees|)
      ensures Sound(blocks, trees, old(base), old(Horizon()), old(scan), blockCount)
      ensures err == NoSpace ==> ckpoint == 0 && Exhausted() && forall b :: b in Given() <==> b in blocks
      ensures err.ScanFailed? ==> treeError != 0
    {
      blocks := [];
      err := Ok;
      ghost var given: set<nat> := {};
      ghost var horizon, before := Horizon(), scan;
      GivenByNothing(base, blockCount);
      for i := 0 to |trees|
        invariant Valid() && err == Ok && |blocks| == i && Given() == given && base == old(base)
        invariant forall b :: b in given <==> b in blocks
        invariant Sound(blocks, trees, base, horizon, before, blockCount)
        invariant (Horizon() == horizon && scan == before) || (|verdicts| >= horizon && scan in trees[..i])
      {
        var block;
        assert trees[..i + 1] == trees[..i] + [trees[i]];
        err, block := AllocFrom(trees[i], trees[..i], horizon, before);
        if err != Ok {
          return;
        }
        SoundGrows(blocks, block, trees, base, horizon, before, blockCount);
        given := given + {block};
        blocks := blocks + [block];
      }
    }
  }

  /** Distinct blocks of the device: those up to the horizon are not named by the scan `before`, and
      every later one is not named by some blocks the filesystem had up to its own turn. */
  ghost predicate Sound(blocks: seq<nat>, trees: seq<seq<nat>>, base: nat, horizon: nat, before: seq<nat>,
                        blockCount: nat)
    requires base < blockCount && |blocks| <= |trees|
  {
    && (forall i | 0 <= i < |blocks| :: blocks[i] < blockCount)
    && (forall i, j | 0 <= i < j < |blocks| :: blocks[i] != blocks[j])
    && (forall i | 0 <= i < |blocks| :: Unused(blocks[i], trees[..i + 1], base, horizon, before, blockCount))
  }

  ghost predicate Unused(block: nat, trees: seq<seq<nat>>, base: nat, horizon: nat, before: seq<nat>, blockCount: nat)
    requires base < blockCount
  {
    if Within(block, base, horizon, blockCount) then block !in before
    else exists tree :: tree in trees && block !in tree
  }

  lemma SoundGrows(blocks: seq<nat>, block: nat, trees: seq<seq<nat>>, base: nat, horizon: nat, before: seq<nat>,
                   blockCount: nat)
    requires base < blockCount && |blocks| < |trees| && Sound(blocks, trees, base, horizon, before, blockCount)
    requires block < blockCount && block !in blocks
    requires Unused(block, trees[..|blocks| + 1], base, horizon, before, blockCount)
    ensures Sound(blocks + [block], trees, base, horizon, before, blockCount)
  {
  }

  /** The block lies less than `horizon` positions behind `base`. */
  ghost predicate Within(block: nat, base: nat, horizon: nat, blockCount: nat)
    requires base < blockCount
  {
    exists p :: 0 <= p < horizon && block == BlockAt(base, p, blockCount)
  }

  lemma WithinIsBefore(base: nat, p: nat, horizon: nat, blockCount: nat)
    requires base < blockCount && p < blockCount && horizon <= blockCount
    ensures Within(BlockAt(base, p, blockCount), base, horizon, blockCount) <==> p < horizon
  {
    forall q | 0 <= q < horizon
      ensures BlockAt(base, q, blockCount) == BlockAt(base, p, blockCount) <==> p == q
    {
      SameBlock(base, p, q, blockCount);
    }
  }

  lemma GivenByNothing(base: nat, blockCount: nat)
    requires base < blockCount
    ensures GivenBy([], base, blockCount) == {}
  {
  }

  ghost function GivenBy(verdicts: seq<Verdict>, base: nat, blockCount: nat): set<nat>
    requires base < blockCount
  {
    set p | 0 <= p < |verdicts| && verdicts[p].given :: BlockAt(base, p, blockCount)
  }

  lemma GivenGrows(verdicts: seq<Verdict>, v: Verdict, base: nat, blockCount: nat)
    requires base < blockCount
    ensures GivenBy(verdicts + [v], base, blockCount) ==
            GivenBy(verdicts, base, blockCount) + (if v.given then {BlockAt(base, |verdicts|, blockCount)} else {})
  {
    var more := verdicts + [v];
    forall b | b in GivenBy(verdicts, base, blockCount)
      ensures b in GivenBy(more, base, blockCount)
    {
      var p :| 0 <= p < |verdicts| && verdicts[p].given && b == BlockAt(base, p, blockCount);
      assert more[p].given;
    }
    if v.given {
      assert more[|verdicts|].given;
    }
  }

  /** A position not yet passed since the checkpoint holds a block not yet handed out. */
  lemma FreshPosition(verdicts: seq<Verdict>, base: nat, blockCount: nat, block: nat)
    requires base < blockCount && |verdicts| < blockCount && block == BlockAt(base, |verdicts|, blockCount)
    ensures block !in GivenBy(verdicts, base, blockCount)
  {
    forall p | 0 <= p < |verdicts|
      ensures BlockAt(base, p, blockCount) != block
    {
      SameBlock(base, p, |verdicts|, blockCount);
    }
  }

  ghost predicate AllJudged(verdicts: seq<Verdict>, base: nat, blockCount: nat)
    requires base < blockCount < WORD
  {
    forall p | 0 <= p < |verdicts| :: Judged(verdicts[p], BlockAt(base, p, blockCount), blockCount)
  }

  lemma OneMoreVerdict(verdicts: seq<Verdict>, v: Verdict, base: nat, blockCount: nat)
    requires base < blockCount < WORD && AllJudged(verdicts, base, blockCount)
    requires Judged(v, BlockAt(base, |verdicts|, blockCount), blockCount)
    ensures AllJudged(verdicts + [v], base, blockCount)
  {
  }

  /** When every position has been passed, each block was handed out or claimed by the scan that
      covered it. */
  lemma NothingLeft(verdicts: seq<Verdict>, base: nat, blockCount: nat)
    requires base < blockCount < WORD && |verdicts| == blockCount && AllJudged(verdicts, base, blockCount)
    ensures forall b | 0 <= b < blockCount ::
              b in GivenBy(verdicts, base, blockCount)
              || exists p :: 0 <= p < |verdicts| && Covers(verdicts[p], base, p, b, blockCount)
  {
    forall b | 0 <= b < blockCount
      ensures b in GivenBy(verdicts, base, blockCount)
              || exists p :: 0 <= p < |verdicts| && Covers(verdicts[p], base, p, b, blockCount)
    {
      var p := if b >= base then b - base else b - base + blockCount;
      RoundTheDevice(base, p, blockCount);
      assert Judged(verdicts[p], BlockAt(base, p, blockCount), blockCount);
      assert verdicts[p].given || Covers(verdicts[p], base, p, b, blockCount);
    }
  }

  /** When all scans since the checkpoint saw the same blocks, every block was handed out or is
      in use by the filesystem. */
  lemma AllNamed(verdicts: seq<Verdict>, tree: seq<nat>, base: nat, blockCount: nat)
    requires base < blockCount <= WORD / 2 && |verdicts| == blockCount && InDevice(tree, blockCount)
    requires AllJudged(verdicts, base, blockCount)
    requires forall p | 0 <= p < |verdicts| :: verdicts[p].scan == tree
    ensures forall b | 0 <= b < blockCount :: b in GivenBy(verdicts, base, blockCount) || b in tree
  {
    forall b | 0 <= b < blockCount
      ensures b in GivenBy(verdicts, base, blockCount) || b in tree
    {
      var p := if b >= base then b - base else b - base + blockCount;
      RoundTheDevice(base, p, blockCount);
      assert Judged(verdicts[p], b, blockCount);
      ClaimsNamed(tree, verdicts[p].start, b, blockCount);
    }
  }

  /** Marking one more reported block adds exactly its own claim to those of the window. */
  lemma OneMoreReport(tree: seq<nat>, i: nat, start: nat, off: nat, blockCount: nat)
    requires i < |tree| && tree[i] < WORD && start < blockCount <= WORD / 2 && off < blockCount
    ensures Claims(tree[..i + 1], start, BlockAt(start, off, blockCount), blockCount) <==>
            Claims(tree[..i], start, BlockAt(start, off, blockCount), blockCount)
            || off == WindowOffset(tree[i], start, blockCount)
  {
    assert tree[..i + 1] == tree[..i] + [tree[i]];
    var block := BlockAt(start, off, blockCount);
    var mark := WindowOffset(tree[i], start, blockCount);
    SameBlock(start, off, mark, blockCount);
    if Claims(tree[..i], start, block, blockCount) {
      var b :| b in tree[..i] && b < WORD && MarkedBy(b, start, blockCount) == block;
      assert b in tree[..i + 1];
    }
    assert tree[i] in tree[..i + 1];
  }

  /** Position p holds the block, and the scan that covered it claims it. */
  ghost predicate Covers(v: Verdict, base: nat, p: nat, block: nat, blockCount: nat)
    requires base < blockCount < WORD
  {
    BlockAt(base, p, blockCount) == block && v.start < blockCount && Claims(v.scan, v.start, block, blockCount)
  }

  /** A block was handed out exactly when the scan that covered it did not claim it. */
  ghost predicate Judged(v: Verdict, block: nat, blockCount: nat)
    requires blockCount < WORD
  {
    v.start < blockCount && (v.given <==> !Claims(v.scan, v.start, block, blockCount))
  }
}
