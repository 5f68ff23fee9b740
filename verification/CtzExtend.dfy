/** lfs_ctz_extend: growing a file's skip list by one block, or copying out its incomplete
    last block, over a device whose erases and programs may report a bad block. */
module CtzExtend {
  import opened Bits
  import opened Words
  import opened CtzList
  import opened CtzWalk

  datatype Error = Ok | Corrupt | NoSpace | Io(code: int)

  /** What the device does with the next erase or program. */
  datatype Outcome = Done | BadBlock(junk: seq<Byte>) | Failed(code: int)

  /** The block device together with the allocator's coming answers. */
  class Volume {
    const blockSize: nat
    var blocks: Disk
    var script: seq<Outcome>
    var free: seq<nat>

    ghost predicate Valid()
      reads this
    {
      && blockSize >= 128
      && (forall b | b in blocks :: |blocks[b]| == blockSize)
      && (forall i | 0 <= i < |free| :: free[i] in blocks && free[i] < WORD_LIMIT)
      && (forall i, j | 0 <= i < j < |free| :: free[i] != free[j])
    }

    constructor (blockSize: nat, blocks: Disk, script: seq<Outcome>, free: seq<nat>)
      ensures this.blockSize == blockSize && this.blocks == blocks && this.script == script && this.free == free
    {
      this.blockSize, this.blocks, this.script, this.free := blockSize, blocks, script, free;
    }

    method Alloc() returns (err: Error, block: nat)
      requires Valid()
      modifies this`free
      ensures Valid()
      ensures old(free) == [] ==> err == NoSpace && free == []
      ensures old(free) != [] ==> err == Ok && block == old(free)[0] && free == old(free)[1..]
    {
      if free == [] {
        return NoSpace, 0;
      }
      err, block, free := Ok, free[0], free[1..];
    }

    /** Every erase and program from here on takes. */
    ghost predicate Faithful()
      reads this`script
    {
      forall i | 0 <= i < |script| :: script[i] == Done
    }

    /** Blocks may turn out bad, but no operation fails outright. */
    ghost predicate Reachable()
      reads this`script
    {
      forall i | 0 <= i < |script| :: !script[i].Failed?
    }

    method NextOutcome() returns (o: Outcome)
      modifies this`script
      ensures old(Faithful()) ==> Faithful() && o == Done
      ensures old(Reachable()) ==> Reachable() && !o.Failed?
    {
      if script == [] {
        return Done;
      }
      o, script := script[0], script[1..];
    }

    /** Stores `content` in the block, or junk when the device reports the block bad. */
    method Store(block: nat, content: seq<Byte>) returns (err: Error)
      requires Valid() && block in blocks && |content| == blockSize
      modifies this`blocks, this`script
      ensures Valid() && err != NoSpace
      ensures blocks.Keys == old(blocks).Keys
      ensures forall b | b in blocks && b != block :: blocks[b] == old(blocks)[b]
      ensures err == Ok ==> blocks[block] == content
      ensures old(Faithful()) ==> Faithful() && err == Ok
      ensures old(Reachable()) ==> Reachable() && !err.Io?
    {
      var o := NextOutcome();
      match o
      case Done =>
        blocks := blocks[block := content];
        err := Ok;
      case BadBlock(junk) =>
        if |junk| == blockSize { blocks := blocks[block := junk]; }
        err := Corrupt;
      case Failed(code) =>
        err := Io(code);
    }

    method Erase(block: nat) returns (err: Error)
      requires Valid() && block in blocks
      modifies this`blocks, this`script
      ensures Valid() && err != NoSpace
      ensures blocks.Keys == old(blocks).Keys
      ensures forall b | b in blocks && b != block :: blocks[b] == old(blocks)[b]
      ensures old(Faithful()) ==> Faithful() && err == Ok
      ensures old(Reachable()) ==> Reachable() && !err.Io?
    {
      err := Store(block, seq(blockSize, i => 0xff));
    }

    method Prog(block: nat, off: nat, data: seq<Byte>) returns (err: Error)
      requires Valid() && block in blocks && off + |data| <= blockSize
      modifies this`blocks, this`script
      ensures Valid() && err != NoSpace
      ensures blocks.Keys == old(blocks).Keys
      ensures forall b | b in blocks && b != block :: blocks[b] == old(blocks)[b]
      ensures err == Ok ==> blocks[block] == Patch(old(blocks)[block], off, data)
      ensures old(Faithful()) ==> Faithful() && err == Ok
      ensures old(Reachable()) ==> Reachable() && !err.Io?
    {
      err := Store(block, Patch(blocks[block], off, data));
    }

    /** Copies the first noff bytes of block head to nblock, one byte at a time. */
    method CopyOut(nblock: nat, head: nat, noff: nat) returns (err: Error)
      requires Valid() && nblock in blocks && head in blocks && nblock != head && noff <= blockSize
      modifies this`blocks, this`script
      ensures Valid() && err != NoSpace
      ensures blocks.Keys == old(blocks).Keys
      ensures forall b | b in blocks && b != nblock :: blocks[b] == old(blocks)[b]
      ensures err == Ok ==> blocks[nblock][..noff] == old(blocks)[head][..noff]
      ensures old(Faithful()) ==> Faithful() && err == Ok
      ensures old(Reachable()) ==> Reachable() && !err.Io?
    {
      for i := 0 to noff
        invariant Valid() && blocks.Keys == old(blocks).Keys
        invariant forall b | b in blocks && b != nblock :: blocks[b] == old(blocks)[b]
        invariant blocks[nblock][..i] == old(blocks)[head][..i]
        invariant (old(Faithful()) ==> Faithful()) && (old(Reachable()) ==> Reachable())
      {
        var data := blocks[head][i];
        label before:
        err := Prog(nblock, i, [data]);
        if err != Ok {
          return;
        }
        PatchKeepsFront(old@before(blocks[nblock]), i, [data]);
      }
      err := Ok;
    }

    /** Programs one pointer of the new block behind those before it. */
    method WritePointer(nblock: nat, nhead: nat, i: nat, ghost chain: seq<nat>) returns (err: Error)
      requires Valid() && nblock in blocks && 4 * i + 4 <= blockSize
      requires Pow2(i) <= |chain| && nhead == chain[|chain| - Pow2(i)] < WORD_LIMIT
      requires forall j | 0 <= j < i :: NewPointer(blocks[nblock], chain, j)
      modifies this`blocks, this`script
      ensures Valid() && err != NoSpace
      ensures blocks.Keys == old(blocks).Keys
      ensures forall b | b in blocks && b != nblock :: blocks[b] == old(blocks)[b]
      ensures err == Ok ==> forall j | 0 <= j <= i :: NewPointer(blocks[nblock], chain, j)
      ensures old(Faithful()) ==> Faithful() && err == Ok
      ensures old(Reachable()) ==> Reachable() && !err.Io?
    {
      ghost var was := blocks[nblock];
      err := Prog(nblock, 4 * i, ToLe32(nhead));
      if err == Ok {
        PatchedWords(was, 4 * i, nhead);
        EarlierPointers(was, blocks[nblock], chain, i);
      }
    }

    /** Programs pointer i of the new block, for i below skips, following the old list backwards. */
    method WritePointers(nblock: nat, head: nat, skips: nat, ghost chain: seq<nat>) returns (err: Error)
      requires Valid() && nblock in blocks && nblock !in chain
      requires ListOk(blocks, blockSize, chain) && chain != [] && head == chain[|chain| - 1]
      requires forall n | 0 <= n < |chain| :: chain[n] < WORD_LIMIT
      requires skips == Ctz(|chain|) + 1 && 4 * skips <= blockSize
      modifies this`blocks, this`script
      ensures Valid() && err != NoSpace
      ensures blocks.Keys == old(blocks).Keys
      ensures forall b | b in blocks && b != nblock :: blocks[b] == old(blocks)[b]
      ensures err == Ok ==> forall j | 0 <= j < skips :: NewPointer(blocks[nblock], chain, j)
      ensures old(Faithful()) ==> Faithful() && err == Ok
      ensures old(Reachable()) ==> Reachable() && !err.Io?
    {
      ghost var disk := blocks;
      var nhead := head;
      for i := 0 to skips
        invariant Valid() && blocks.Keys == disk.Keys
        invariant forall b | b in blocks && b != nblock :: blocks[b] == disk[b]
        invariant i < skips ==> Pow2(i) <= |chain| && nhead == chain[|chain| - Pow2(i)]
        invariant forall j | 0 <= j < i :: NewPointer(blocks[nblock], chain, j)
        invariant (old(Faithful()) ==> Faithful()) && (old(Reachable()) ==> Reachable())
      {
        err := WritePointer(nblock, nhead, i, chain);
        if err != Ok {
          return;
        }
        if i != skips - 1 {
          NextPointer(disk, blockSize, chain, i);
          assert blocks[nhead] == disk[nhead];
          nhead := Word(blocks[nhead], 4 * i);
        }
      }
      err := Ok;
    }

    /** One try with a freshly allocated block: erase it, then copy out or append. */
    method Attempt(nblock: nat, head: nat, size: nat, ghost origin: Disk, ghost chain: seq<nat>)
        returns (err: Error, off: nat, ghost chain': seq<nat>)
      requires Valid() && size + 1 < WORD_LIMIT
      requires FileOk(origin, blockSize, head, size, chain) && Untouched(origin, blocks, chain)
      requires nblock in blocks && nblock < WORD_LIMIT && nblock !in chain
      modifies this`blocks, this`script
      ensures Valid() && blocks.Keys == old(blocks).Keys && err != NoSpace
      ensures forall b | b in blocks && b != nblock :: blocks[b] == old(blocks)[b]
      ensures err == Ok ==> Grown(origin, blocks, blockSize, chain, chain', nblock, off, size)
      ensures old(Faithful()) ==> Faithful() && err == Ok
      ensures old(Reachable()) ==> Reachable() && !err.Io?
    {
      chain', off := [], 0;
      err := Erase(nblock);
      if err != Ok {
        return;
      }
      if size == 0 {
        chain' := [nblock];
        GrownFromNothing(origin, blocks, blockSize, nblock);
        return;
      }
      var (index, last) := Index(blockSize, size - 1);
      off := last + 1;
      LastOffset(blockSize, size);
      assert Untouched(origin, blocks, chain);
      ListOkFrame(origin, blocks, blockSize, chain);
      // the last block has room left: its bytes move to the new one
      if off != blockSize {
        chain' := chain[..index] + [nblock];
        err := CopyOut(nblock, head, off);
        if err == Ok {
          GrownByCopy(origin, blocks, blockSize, chain, head, nblock, size);
        }
        return;
      }
      // the last block is full: the new one goes behind it
      index := index + 1;
      off := 4 * (Ctz(index) + 1);
      chain' := chain + [nblock];
      err := WritePointers(nblock, head, Ctz(index) + 1, chain);
      if err == Ok {
        GrownByAppend(origin, blocks, blockSize, chain, nblock, size);
      }
    }

    /** Tries blocks until one takes. Only blocks handed out by this call are ever erased or programmed. */
    method Extend(head: nat, size: nat, ghost chain: seq<nat>)
        returns (err: Error, block: nat, off: nat, ghost chain': seq<nat>, ghost tried: nat)
      requires Valid() && size + 1 < WORD_LIMIT
      requires FileOk(blocks, blockSize, head, size, chain)
      requires forall i | 0 <= i < |free| :: free[i] !in chain
      modifies this
      ensures Valid()
      ensures tried <= |old(free)| && free == old(free)[tried..]
      ensures Confined(old(blocks), blocks, old(free), tried)
      ensures err == NoSpace ==> free == []
      ensures err != Corrupt
      ensures err == Ok ==>
        && tried > 0 && block == old(free)[tried - 1]
        && Grown(old(blocks), blocks, blockSize, chain, chain', block, off, size)
      // with a block to be had and a device that does as it is told, the first one is taken; and as long as
      // blocks are at worst bad, only running out of them stops the search
      ensures old(Faithful() && free != []) ==> err == Ok && tried == 1
      ensures old(Reachable()) ==> err == Ok || err == NoSpace
    {
      ghost var origin, pool := blocks, free;
      chain', block, off, tried := [], 0, 0, 0;
      while true
        invariant Valid()
        invariant tried <= |pool| && free == pool[tried..]
        invariant Confined(origin, blocks, pool, tried)
        invariant (old(Faithful()) ==> Faithful() && tried == 0) && (old(Reachable()) ==> Reachable())
        decreases |free|
      {
        var nblock;
        err, nblock := Alloc();
        if err != Ok {
          return;
        }
        ghost var mid := blocks;
        ChainUntouched(origin, mid, chain, pool, tried);
        err, off, chain' := Attempt(nblock, head, size, origin, chain);
        ConfinedStep(origin, mid, blocks, pool, tried);
        tried := tried + 1;
        if err == Ok {
          block := nblock;
          return;
        }
        if err != Corrupt {
          return;
        }
        // the block is bad: on to the next
      }
    }
  }

  // ---------------------------------------------------------------- what a grown file is

  lemma PatchedWords(s: seq<Byte>, at: nat, n: nat)
    requires at + 4 <= |s| && n < WORD_LIMIT
    ensures Word(Patch(s, at, ToLe32(n)), at) == n
    ensures forall o | 0 <= o && o + 4 <= at :: Word(Patch(s, at, ToLe32(n)), o) == Word(s, o)
  {
    var r := Patch(s, at, ToLe32(n));
    assert r[at..at + 4] == ToLe32(n);
    Le32RoundTrip(n);
    forall o | 0 <= o && o + 4 <= at
      ensures Word(r, o) == Word(s, o)
    {
      assert r[o..o + 4] == s[o..o + 4];
    }
  }

  /** The list of a file of `size` bytes. */
  ghost predicate FileOk(disk: Disk, blockSize: nat, head: nat, size: nat, chain: seq<nat>) {
    && blockSize >= 128 && size < WORD_LIMIT
    && (size == 0 ==> chain == [])
    && (size > 0 ==>
          && ListOk(disk, blockSize, chain)
          && |chain| == Index(blockSize, size - 1).0 + 1
          && head == chain[|chain| - 1]
          && forall n | 0 <= n < |chain| :: chain[n] < WORD_LIMIT)
  }

  /** Byte p of the file whose blocks are `chain`. */
  ghost function FileByte(disk: Disk, blockSize: nat, chain: seq<nat>, p: nat): Byte
    requires blockSize >= 128 && p < WORD_LIMIT && Index(blockSize, p).0 < |chain|
    requires ListOk(disk, blockSize, chain)
  {
    IndexIsCorrect(blockSize, p);
    var (i, off) := Index(blockSize, p);
    disk[chain[i]][off]
  }

  /** The new list is sound, its last block is the new one, `off` is exactly where the next
      byte of the file belongs, and every byte already in the file reads back unchanged. */
  ghost predicate Grown(before: Disk, after: Disk, blockSize: nat, chain: seq<nat>, chain': seq<nat>,
                        block: nat, off: nat, size: nat)
    requires blockSize >= 128 && size < WORD_LIMIT
  {
    && ListOk(after, blockSize, chain')
    && |chain'| == Index(blockSize, size).0 + 1
    && |chain'| - 1 <= |chain| && chain' == chain[..|chain'| - 1] + [block]
    && off == Index(blockSize, size).1
    && (size > 0 ==> ListOk(before, blockSize, chain) && forall p | 0 <= p < size :: SameByte(before, after, blockSize, chain, chain', p))
  }

  ghost predicate SameByte(before: Disk, after: Disk, blockSize: nat, chain: seq<nat>, chain': seq<nat>, p: nat)
    requires blockSize >= 128 && p < WORD_LIMIT
    requires ListOk(before, blockSize, chain) && ListOk(after, blockSize, chain')
  {
    && Index(blockSize, p).0 < |chain| && Index(blockSize, p).0 < |chain'|
    && FileByte(after, blockSize, chain', p) == FileByte(before, blockSize, chain, p)
  }

  /** Pointer j of a block about to follow `chain`. */
  ghost predicate NewPointer(content: seq<Byte>, chain: seq<nat>, j: nat) {
    && 4 * j + 4 <= |content|
    && Pow2(j) <= |chain|
    && Word(content, 4 * j) == chain[|chain| - Pow2(j)]
  }

  ghost predicate Untouched(before: Disk, after: Disk, chain: seq<nat>) {
    forall n | 0 <= n < |chain| :: chain[n] in before && chain[n] in after && after[chain[n]] == before[chain[n]]
  }

  lemma ListOkFrame(before: Disk, after: Disk, blockSize: nat, chain: seq<nat>)
    requires ListOk(before, blockSize, chain) && Untouched(before, after, chain)
    ensures ListOk(after, blockSize, chain)
  {
    forall n, j | 1 <= n < |chain| && 0 <= j <= Ctz(n)
      ensures PointsBack(after, chain, n, j)
    {
      assert PointsBack(before, chain, n, j);
    }
  }

  /** Outside the first k blocks of the pool nothing changed. */
  ghost predicate Confined(before: Disk, after: Disk, pool: seq<nat>, k: nat)
    requires k <= |pool|
  {
    && before.Keys == after.Keys
    && forall b | b in after && b !in pool[..k] :: after[b] == before[b]
  }

  lemma ConfinedStep(before: Disk, mid: Disk, after: Disk, pool: seq<nat>, k: nat)
    requires k < |pool| && Confined(before, mid, pool, k)
    requires mid.Keys == after.Keys && forall b | b in after && b != pool[k] :: after[b] == mid[b]
    ensures Confined(before, after, pool, k + 1)
  {
    assert pool[..k + 1] == pool[..k] + [pool[k]];
  }

  lemma ChainUntouched(before: Disk, after: Disk, chain: seq<nat>, pool: seq<nat>, k: nat)
    requires k <= |pool| && Confined(before, after, pool, k)
    requires forall i | 0 <= i < |pool| :: pool[i] !in chain
    requires forall n | 0 <= n < |chain| :: chain[n] in before
    ensures Untouched(before, after, chain)
  {
    forall n | 0 <= n < |chain|
      ensures after[chain[n]] == before[chain[n]]
    {
      assert forall i | 0 <= i < k :: pool[i] != chain[n];
    }
  }

  lemma EarlierPointers(was: seq<Byte>, now: seq<Byte>, chain: seq<nat>, i: nat)
    requires |now| == |was| && 4 * i + 4 <= |was|
    requires forall o | 0 <= o && o + 4 <= 4 * i :: Word(now, o) == Word(was, o)
    requires forall j | 0 <= j < i :: NewPointer(was, chain, j)
    ensures forall j | 0 <= j < i :: NewPointer(now, chain, j)
  {
    forall j | 0 <= j < i
      ensures NewPointer(now, chain, j)
    {
      assert NewPointer(was, chain, j);
    }
  }

  /** Reading on: pointer i of the block that pointer i led to leads to where pointer i + 1 must lead. */
  lemma NextPointer(disk: Disk, blockSize: nat, chain: seq<nat>, i: nat)
    requires ListOk(disk, blockSize, chain) && chain != []
    requires i < Ctz(|chain|)
    ensures Pow2(i + 1) <= |chain|
    ensures var n := |chain| - Pow2(i);
      && PointsBack(disk, chain, n, i)
      && Word(disk[chain[n]], 4 * i) == chain[|chain| - Pow2(i + 1)]
  {
    Pow2CtzAtMost(|chain|);
    Pow2Monotone(i + 1, Ctz(|chain|));
    CtzAfterStep(|chain|, i);
    assert PointsBack(disk, chain, |chain| - Pow2(i), i);
  }

  lemma GrownFromNothing(before: Disk, after: Disk, blockSize: nat, nblock: nat)
    requires blockSize >= 128 && nblock in after && |after[nblock]| == blockSize
    ensures Grown(before, after, blockSize, [], [nblock], nblock, 0, 0)
  {
    assert Index(blockSize, 0) == (0, 0);
  }

  /** Bytes of the file lie in blocks up to the one that holds its last byte. */
  lemma {:induction false} EarlierByte(blockSize: nat, p: nat, size: nat)
    requires blockSize >= 128 && p < size < WORD_LIMIT
    ensures Index(blockSize, p).0 <= Index(blockSize, size - 1).0
    ensures Index(blockSize, p).0 == Index(blockSize, size - 1).0 ==> Index(blockSize, p).1 <= Index(blockSize, size - 1).1
  {
    IndexIsCorrect(blockSize, p);
    IndexIsCorrect(blockSize, size - 1);
    var i, last := Index(blockSize, p).0, Index(blockSize, size - 1).0;
    if last < i {
      StartIncreases(blockSize, last + 1, i, p);
    }
  }

  /** Where the byte after the last one goes. */
  lemma {:induction false} NextByte(blockSize: nat, size: nat)
    requires blockSize >= 128 && 0 < size < WORD_LIMIT
    ensures
      var (index, last) := Index(blockSize, size - 1);
      Index(blockSize, size) ==
        if last + 1 < blockSize then (index, last + 1) else (index + 1, 4 * (Ctz(index + 1) + 1))
  {
    IndexIsCorrect(blockSize, size - 1);
    var (index, last) := Index(blockSize, size - 1);
    if last + 1 == blockSize {
      FirstOfNext(blockSize, size, index);
      IndexIsUnique(blockSize, size, index + 1);
    } else {
      IndexIsUnique(blockSize, size, index);
    }
    IndexIsCorrect(blockSize, size);
  }

  /** A full block is followed by the start of the next. */
  lemma {:induction false} FirstOfNext(blockSize: nat, size: nat, index: nat)
    requires blockSize >= 128 && 0 < size && Located(blockSize, size - 1, index, blockSize - 1)
    ensures Start(blockSize, index + 1) == size < Start(blockSize, index + 2)
  {
    assert Pow2(27) == 2 * Pow2(26);
    CtzBound(index + 1, 27);
    assert Start(blockSize, index + 2) == Start(blockSize, index + 1) + blockSize - PointerBytes(index + 1);
  }

  lemma GrownByCopy(before: Disk, after: Disk, blockSize: nat, chain: seq<nat>, head: nat, nblock: nat, size: nat)
    requires size > 0 && FileOk(before, blockSize, head, size, chain)
    requires Untouched(before, after, chain) && nblock in after && |after[nblock]| == blockSize
    requires var (index, last) := Index(blockSize, size - 1);
      && last + 1 < blockSize
      && after[nblock][..last + 1] == before[head][..last + 1]
    ensures var (index, last) := Index(blockSize, size - 1);
      Grown(before, after, blockSize, chain, chain[..index] + [nblock], nblock, last + 1, size)
  {
    IndexIsCorrect(blockSize, size - 1);
    var (index, last) := Index(blockSize, size - 1);
    NextByte(blockSize, size);
    var chain' := chain[..index] + [nblock];
    CopiedList(before, after, blockSize, chain, nblock, last + 1);
    forall p | 0 <= p < size
      ensures SameByte(before, after, blockSize, chain, chain', p)
    {
      EarlierByte(blockSize, p, size);
      IndexIsCorrect(blockSize, p);
      var (i, off) := Index(blockSize, p);
      if i == index {
        assert after[nblock][..last + 1][off] == before[head][..last + 1][off];
      }
    }
  }

  lemma CopiedList(before: Disk, after: Disk, blockSize: nat, chain: seq<nat>, nblock: nat, noff: nat)
    requires chain != [] && ListOk(before, blockSize, chain) && Untouched(before, after, chain)
    requires nblock in after && |after[nblock]| == blockSize
    requires PointerBytes(|chain| - 1) <= noff <= blockSize
    requires after[nblock][..noff] == before[chain[|chain| - 1]][..noff]
    ensures ListOk(after, blockSize, chain[..|chain| - 1] + [nblock])
  {
    var index := |chain| - 1;
    var chain' := chain[..index] + [nblock];
    ListOkFrame(before, after, blockSize, chain);
    forall n, j | 1 <= n < |chain'| && 0 <= j <= Ctz(n)
      ensures PointsBack(after, chain', n, j)
    {
      assert PointsBack(before, chain, n, j);
      assert PointsBack(after, chain, n, j);
      if n == index {
        var old', new' := before[chain[index]], after[nblock];
        assert old'[4 * j..4 * j + 4] == old'[..noff][4 * j..4 * j + 4] == new'[..noff][4 * j..4 * j + 4] == new'[4 * j..4 * j + 4];
      }
    }
  }

  lemma LastOffset(blockSize: nat, size: nat)
    requires blockSize >= 128 && 0 < size < WORD_LIMIT
    ensures var (index, last) := Index(blockSize, size - 1);
      PointerBytes(index) <= last < blockSize && Ctz(index + 1) < 27
  {
    IndexIsCorrect(blockSize, size - 1);
    assert Pow2(27) == 2 * Pow2(26);
    CtzBound(Index(blockSize, size - 1).0 + 1, 27);
  }

  lemma GrownByAppend(before: Disk, after: Disk, blockSize: nat, chain: seq<nat>, nblock: nat, size: nat)
    requires size > 0 && chain != [] && FileOk(before, blockSize, chain[|chain| - 1], size, chain)
    requires Untouched(before, after, chain) && nblock in after && |after[nblock]| == blockSize
    requires Index(blockSize, size - 1).1 + 1 == blockSize
    requires 4 * (Ctz(|chain|) + 1) <= blockSize
    requires forall j | 0 <= j < Ctz(|chain|) + 1 :: NewPointer(after[nblock], chain, j)
    ensures Grown(before, after, blockSize, chain, chain + [nblock], nblock, 4 * (Ctz(|chain|) + 1), size)
  {
    NextByte(blockSize, size);
    var chain' := chain + [nblock];
    AppendedList(before, after, blockSize, chain, nblock);
    forall p | 0 <= p < size
      ensures SameByte(before, after, blockSize, chain, chain', p)
    {
      EarlierByte(blockSize, p, size);
    }
    assert chain'[..|chain'| - 1] == chain;
  }

  lemma AppendedList(before: Disk, after: Disk, blockSize: nat, chain: seq<nat>, nblock: nat)
    requires chain != [] && ListOk(before, blockSize, chain) && Untouched(before, after, chain)
    requires nblock in after && |after[nblock]| == blockSize
    requires forall j | 0 <= j < Ctz(|chain|) + 1 :: NewPointer(after[nblock], chain, j)
    ensures ListOk(after, blockSize, chain + [nblock])
  {
    ListOkFrame(before, after, blockSize, chain);
    forall n, j | 1 <= n < |chain| + 1 && 0 <= j <= Ctz(n)
      ensures PointsBack(after, chain + [nblock], n, j)
    {
      if n < |chain| {
        assert PointsBack(after, chain, n, j);
      }
      AppendedPointer(after, chain, nblock, n, j);
    }
  }

  lemma AppendedPointer(disk: Disk, chain: seq<nat>, nblock: nat, n: nat, j: nat)
    requires n <= |chain| && nblock in disk
    requires n < |chain| ==> chain[n] in disk && PointsBack(disk, chain, n, j)
    requires n == |chain| ==> NewPointer(disk[nblock], chain, j)
    ensures PointsBack(disk, chain + [nblock], n, j)
  {
  }
}
