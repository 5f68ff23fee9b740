/** The caching block device operations: reading through the read and program caches, comparing,
    programming and flushing, proved against the device the caches stand in front of. */
module BlockCache {
  import opened Bits
  import opened Words

  const BLOCK_NULL: nat := 0xffff_ffff
  const BLOCK_INLINE: nat := 0xffff_fffe
  const ERR_CORRUPT: int := -84
  const ERR_NOSPC: int := -28

  datatype Geometry = Geometry(readSize: nat, progSize: nat, cacheSize: nat, blockSize: nat) {
    predicate Legal() {
      && readSize > 0 && progSize > 0 && cacheSize > 0 && blockSize > 0
      && cacheSize % readSize == 0 && cacheSize % progSize == 0 && blockSize % cacheSize == 0
    }
  }

  /** What the device does with the next operation: a failed read leaves junk behind, and a garbled program
      stores junk and reports success. */
  datatype Outcome = Done | Garbled(junk: seq<Byte>) | Failed(code: int, junk: seq<Byte>)

  class Cache {
    var block: nat
    var off: nat
    var size: nat
    const buffer: array<Byte>

    constructor (cacheSize: nat)
      ensures block == BLOCK_NULL && size == 0 && fresh(buffer) && buffer.Length == cacheSize
    {
      block, off, size := BLOCK_NULL, 0, 0;
      buffer := new Byte[cacheSize](i => 0xff);
    }

    ghost function State(): (nat, nat, nat, seq<Byte>)
      reads this, buffer
    {
      (block, off, size, buffer[..])
    }

    /** lfs_cache_drop */
    method Drop()
      modifies this`block
      ensures block == BLOCK_NULL
    {
      block := BLOCK_NULL;
    }

    /** lfs_cache_zero */
    method Zero()
      modifies this`block, buffer
      ensures block == BLOCK_NULL && forall i | 0 <= i < buffer.Length :: buffer[i] == 0xff
    {
      forall i | 0 <= i < buffer.Length { buffer[i] := 0xff; }
      block := BLOCK_NULL;
    }
  }

  /** memcpy(&to[at], &from[at'], n) */
  method Copy(to: array<Byte>, at: nat, from: array<Byte>, at': nat, n: nat)
    requires to != from && at + n <= to.Length && at' + n <= from.Length
    modifies to
    ensures to[..] == Patch(old(to[..]), at, from[at'..at' + n])
  {
    forall i | 0 <= i < n { to[at + i] := from[at' + i]; }
  }

  /** memcpy(&to[at], data, n) */
  method Fill(to: array<Byte>, at: nat, data: seq<Byte>)
    requires at + |data| <= to.Length
    modifies to
    ensures to[..] == Patch(old(to[..]), at, data)
  {
    forall i | 0 <= i < |data| { to[at + i] := data[i]; }
  }

  lemma PatchExtends(s: seq<Byte>, at: nat, data: seq<Byte>, n: nat, want: seq<Byte>)
    requires at + |data| <= n <= |s| && n == |want|
    requires s[..at] == want[..at] && data == want[at..at + |data|]
    ensures Patch(s, at, data)[..at + |data|] == want[..at + |data|]
    ensures Patch(s, at, data)[n..] == s[n..]
  {
    assert want[..at + |data|] == want[..at] + want[at..at + |data|];
    PatchKeepsFront(s, at, data);
  }

  ghost predicate OthersKept(was: seq<seq<Byte>>, now: seq<seq<Byte>>, block: nat) {
    |now| == |was| && forall b | 0 <= b < |now| && b != block :: now[b] == was[b]
  }

  class BlockDevice {
    const geometry: Geometry
    const blockCount: nat    // 0 while it is not known yet
    var blocks: seq<seq<Byte>>
    var script: seq<Outcome>

    ghost predicate Valid()
      reads this`blocks
    {
      && geometry.Legal() && |blocks| < BLOCK_INLINE && (blockCount == 0 || blockCount == |blocks|)
      && forall b | 0 <= b < |blocks| :: |blocks[b]| == geometry.blockSize
    }

    constructor (geometry: Geometry, blockCount: nat, blocks: seq<seq<Byte>>, script: seq<Outcome>)
      ensures this.geometry == geometry && this.blockCount == blockCount && this.blocks == blocks && this.script == script
    {
      this.geometry, this.blockCount, this.blocks, this.script := geometry, blockCount, blocks, script;
    }

    // -------------------------------------------------------------- the raw device

    /** The device does what it is told from here on. */
    ghost predicate Faithful()
      reads this`script
    {
      forall i | 0 <= i < |script| :: script[i] == Done
    }

    method NextOutcome() returns (o: Outcome)
      modifies this`script
      ensures old(Faithful()) ==> Faithful() && o == Done
    {
      if script == [] {
        return Done;
      }
      o, script := script[0], script[1..];
    }

    /** cfg->read into buffer[at..at + n] */
    method DeviceRead(block: nat, off: nat, buffer: array<Byte>, at: nat, n: nat) returns (err: int)
      requires Valid() && block < |blocks| && off + n <= geometry.blockSize && at + n <= buffer.Length
      modifies this`script, buffer
      ensures err <= 0
      ensures err == 0 ==> buffer[..] == Patch(old(buffer[..]), at, blocks[block][off..off + n])
      ensures n == 0 ==> buffer[..] == old(buffer[..])
      ensures old(Faithful()) ==> Faithful() && err == 0
    {
      var o := NextOutcome();
      match o
      case Failed(code, junk) =>
        if |junk| == n { Fill(buffer, at, junk); }
        err := if code < 0 then code else -1;
      case _ =>
        Fill(buffer, at, blocks[block][off..off + n]);
        err := 0;
    }

    /** cfg->prog: what it stores is only certain once it is checked. */
    method DeviceProg(block: nat, off: nat, data: seq<Byte>) returns (err: int, ghost stored: seq<Byte>)
      requires Valid() && block < |blocks| && off + |data| <= geometry.blockSize
      modifies this`script, this`blocks
      ensures Valid() && err <= 0 && |stored| == |data|
      ensures blocks == old(blocks)[block := Patch(old(blocks)[block], off, stored)]
      ensures old(Faithful()) ==> Faithful() && err == 0 && stored == data
    {
      var o := NextOutcome();
      var now := data;
      err := 0;
      match o {
        case Done =>
        case Garbled(junk) =>
          if |junk| == |data| { now := junk; }
        case Failed(code, junk) =>
          if |junk| == |data| { now := junk; }
          err := if code < 0 then code else -1;
      }
      stored := now;
      blocks := blocks[block := Patch(blocks[block], off, now)];
    }

    method DeviceErase(block: nat) returns (err: int)
      requires Valid() && block < |blocks|
      modifies this`script, this`blocks
      ensures Valid() && err <= 0 && OthersKept(old(blocks), blocks, block)
      ensures old(Faithful()) ==> Faithful() && err == 0
    {
      ghost var stored;
      err, stored := DeviceProg(block, 0, seq(geometry.blockSize, i => 0xff));
    }

    // -------------------------------------------------------------- what the caches stand for

    ghost predicate CacheOk(c: Cache)
      reads c
    {
      c.buffer.Length == geometry.cacheSize && c.size <= geometry.cacheSize
    }

    /** What a read cache holds of a block is a copy of what is on the device. */
    ghost predicate Agrees(c: Cache, block: nat)
      reads this`blocks, c, c.buffer
    {
      && CacheOk(c)
      && (c.block == block < |blocks| ==>
            && geometry.readSize > 0 && c.off % geometry.readSize == 0
            && c.off + c.size <= |blocks[c.block]|
            && c.buffer[..c.size] == blocks[c.block][c.off..c.off + c.size])
    }

    /** A program cache holds bytes on their way to the device. */
    ghost predicate Pending(c: Cache)
      reads this`blocks, c
    {
      && CacheOk(c)
      && (c.block < |blocks| ==> geometry.progSize > 0 && c.off % geometry.progSize == 0 && c.off + c.size <= |blocks[c.block]|)
    }

    /** The device as seen through a program cache. */
    ghost function View(pcache: Cache?, block: nat): (s: seq<Byte>)
      requires block < |blocks| && (pcache != null ==> Pending(pcache))
      reads this`blocks, pcache, if pcache == null then {} else {pcache.buffer}
      ensures |s| == |blocks[block]|
    {
      if pcache != null && pcache.block == block then Patch(blocks[block], pcache.off, pcache.buffer[..pcache.size])
      else blocks[block]
    }

    ghost predicate Separate(pcache: Cache?, rcache: Cache, buffer: array<Byte>)
      reads {}
    {
      && buffer != rcache.buffer
      && (pcache != null ==> pcache != rcache && pcache.buffer != rcache.buffer && pcache.buffer != buffer)
    }

    // -------------------------------------------------------------- reading

    /** Loads the read cache around off. A failed load leaves the cache naming the block, whatever it holds. */
    method Load(rcache: Cache, hint: nat, block: nat, off: nat) returns (err: int)
      requires Valid() && CacheOk(rcache) && hint >= 1 && block < |blocks| && off < geometry.blockSize
      modifies this`script, rcache`block, rcache`off, rcache`size, rcache.buffer
      ensures Valid() && CacheOk(rcache) && err <= 0
      ensures rcache.block == block && rcache.off <= off < rcache.off + rcache.size
      ensures err == 0 ==> Agrees(rcache, block)
      ensures old(Faithful()) ==> Faithful() && err == 0
    {
      LoadBounds(off, hint, geometry);
      rcache.block := block;
      rcache.off := AlignDown(off, geometry.readSize);
      rcache.size := Min(Min(AlignUp(off + hint, geometry.readSize), geometry.blockSize) - rcache.off, geometry.cacheSize);
      err := DeviceRead(block, rcache.off, rcache.buffer, 0, rcache.size);
      if err == 0 {
        ghost var copy := blocks[block][rcache.off..rcache.off + rcache.size];
        assert rcache.buffer[..rcache.size] == rcache.buffer[..][..rcache.size] == copy;
      }
    }

    /** lfs_bd_read */
    method Read(pcache: Cache?, rcache: Cache, hint: nat, block: nat, off: nat, buffer: array<Byte>, size: nat)
        returns (err: int)
      requires Valid() && Agrees(rcache, block) && Separate(pcache, rcache, buffer)
      requires hint >= 1 && size <= buffer.Length && (blockCount == 0 ==> block < |blocks|)
      requires pcache != null ==> Pending(pcache) && (pcache.block == block ==> pcache.off % geometry.readSize == 0)
      modifies this`script, rcache`block, rcache`off, rcache`size, rcache.buffer, buffer
      ensures CacheOk(rcache) && err <= 0 && (rcache.block == old(rcache.block) || rcache.block == block)
      ensures off + size > geometry.blockSize || block >= |blocks| ==> err == -84
      ensures err == 0 ==> Agrees(rcache, block) && off + size <= geometry.blockSize && block < |blocks|
      ensures err == 0 ==> buffer[..size] == View(pcache, block)[off..off + size]
      ensures err == 0 ==> buffer[size..] == old(buffer[size..])
      ensures old(Faithful()) ==> Faithful() && (off + size <= geometry.blockSize && block < |blocks| ==> err == 0)
    {
      if off + size > geometry.blockSize || (blockCount != 0 && block >= blockCount) {
        return ERR_CORRUPT;
      }
      ghost var want := View(pcache, block)[off..off + size];
      ghost var rest := buffer[size..];
      var at := 0;
      while at < size
        invariant at <= size && Agrees(rcache, block) && (rcache.block == old(rcache.block) || rcache.block == block)
        invariant buffer[..at] == want[..at] && buffer[size..] == rest
        invariant old(Faithful()) ==> Faithful()
        decreases size - at, if rcache.block == block && rcache.off <= off + at < rcache.off + rcache.size then 0 else 1
      {
        var diff;
        err, diff := ReadSome(pcache, rcache, hint, block, off + at, buffer, at, size, off, want);
        if err != 0 {
          return;
        }
        at := at + diff;
      }
      assert want[..size] == want;
      err := 0;
    }

    /** One turn of the loop of lfs_bd_read: what it adds to the buffer, possibly nothing but a loaded cache. */
    method ReadSome(pcache: Cache?, rcache: Cache, hint: nat, block: nat, pos: nat, buffer: array<Byte>, at: nat,
            size: nat,
                    ghost off: nat, ghost want: seq<Byte>)
        returns (err: int, diff: nat)
      requires Valid() && Agrees(rcache, block) && Separate(pcache, rcache, buffer)
      requires hint >= 1 && at < size <= buffer.Length && block < |blocks| && pos == off + at
      requires off + size <= geometry.blockSize
      requires pcache != null ==> Pending(pcache) && (pcache.block == block ==> pcache.off % geometry.readSize == 0)
      requires want == View(pcache, block)[off..off + size] && buffer[..at] == want[..at]
      modifies this`script, rcache`block, rcache`off, rcache`size, rcache.buffer, buffer
      ensures CacheOk(rcache) && err <= 0 && (rcache.block == old(rcache.block) || rcache.block == block)
      ensures err == 0 ==> Agrees(rcache, block) && at + diff <= size && buffer[..at + diff] == want[..at + diff]
      ensures err == 0 ==> buffer[size..] == old(buffer[size..])
      // every turn makes progress: it adds bytes, or the next one finds its first byte in the cache
      ensures err == 0 && diff == 0 ==> Cached(rcache, block, pos)
      ensures err == 0 && old(Cached(rcache, block, pos)) ==> diff > 0
      ensures old(Faithful()) ==> Faithful() && err == 0
    {
      diff := size - at;
      if pcache != null && block == pcache.block && pos < pcache.off + pcache.size {
        if pos >= pcache.off {
          // the program cache has it
          diff := Min(diff, pcache.size - (pos - pcache.off));
          ReadPending(pcache, block, pos, buffer, at, size, diff, off, want);
          err := 0;
          return;
        }
        // only as far as the program cache does not reach
        diff := Min(diff, pcache.off - pos);
      }
      WantedFromDevice(pcache, block, pos, at, size, diff, off, want);
      NeverStuck(rcache, hint, block, pos, size - at, diff);
      err, diff := ReadBehind(rcache, hint, block, pos, buffer, at, size, diff, want);
    }

    method ReadPending(pcache: Cache, block: nat, pos: nat, buffer: array<Byte>, at: nat, size: nat, diff: nat,
                       ghost off: nat, ghost want: seq<Byte>)
      requires Valid() && Pending(pcache) && block == pcache.block < |blocks| && buffer != pcache.buffer
      requires pcache.off <= pos && pos + diff <= pcache.off + pcache.size
      requires pos == off + at && at + diff <= size <= buffer.Length && off + size <= geometry.blockSize
      requires want == View(pcache, block)[off..off + size] && buffer[..at] == want[..at]
      modifies buffer
      ensures buffer[..at + diff] == want[..at + diff] && buffer[size..] == old(buffer[size..])
    {
      PendingBytes(pcache, block, pos, pos + diff);
      WantedBytes(want, View(pcache, block), off, size, at, diff);
      CopyOut(pcache, buffer, at, pos, diff, size, want);
    }

    lemma WantedFromDevice(pcache: Cache?, block: nat, pos: nat, at: nat, size: nat, diff: nat, off: nat,
            want: seq<Byte>)
      requires Valid() && block < |blocks| && pos == off + at && at + diff <= size && off + size <= geometry.blockSize
      requires pcache != null ==> Pending(pcache)
      requires pcache != null && pcache.block == block ==> pos + diff <= pcache.off || pos >= pcache.off + pcache.size
      requires want == View(pcache, block)[off..off + size]
      ensures want[at..at + diff] == blocks[block][pos..pos + diff]
    {
      OtherBytes(pcache, block, pos, pos + diff);
      WantedBytes(want, View(pcache, block), off, size, at, diff);
    }

    ghost predicate Cached(rcache: Cache, block: nat, pos: nat)
      reads rcache
    {
      rcache.block == block && rcache.off <= pos < rcache.off + rcache.size
    }

    /** How many of `limit` bytes from pos on lie before what the read cache holds. */
    ghost function Room(rcache: Cache, block: nat, pos: nat, limit: nat): nat
      reads rcache
    {
      if rcache.block == block && pos < rcache.off then Min(limit, rcache.off - pos) else limit
    }

    /** The turn reads past the caches, but nothing. */
    ghost predicate Stuck(rcache: Cache, hint: nat, block: nat, pos: nat, left: nat, limit: nat)
      requires geometry.readSize > 0
      reads rcache
    {
      !Cached(rcache, block, pos) && Stalls(pos, left, Room(rcache, block, pos, limit), hint, geometry.readSize)
    }

    /** Where aligned bytes follow, the turn is never stuck. */
    lemma NeverStuck(rcache: Cache, hint: nat, block: nat, pos: nat, left: nat, limit: nat)
      requires Valid() && Agrees(rcache, block) && block < |blocks| && 0 < limit <= left
      requires limit == left || (pos + limit) % geometry.readSize == 0
      ensures !Stuck(rcache, hint, block, pos, left, limit)
    {
      if pos % geometry.readSize == 0 && left >= geometry.readSize {
        BypassProgress(Room(rcache, block, pos, limit), pos, geometry.readSize);
      }
    }

    /** Bytes pos..pos + limit, of which the program cache has none. A stuck turn changes nothing, so that the
        next one is stuck again. */
    method ReadBehind(rcache: Cache, hint: nat, block: nat, pos: nat, buffer: array<Byte>, at: nat, size: nat,
            limit: nat,
                      ghost want: seq<Byte>)
        returns (err: int, diff: nat)
      requires Valid() && Agrees(rcache, block) && buffer != rcache.buffer && hint >= 1 && block < |blocks|
      requires 0 < limit <= size - at && at < size <= buffer.Length && |want| == size && buffer[..at] == want[..at]
      requires pos + limit <= geometry.blockSize && want[at..at + limit] == blocks[block][pos..pos + limit]
      modifies this`script, rcache`block, rcache`off, rcache`size, rcache.buffer, buffer
      ensures CacheOk(rcache) && err <= 0 && (rcache.block == old(rcache.block) || rcache.block == block)
      ensures err == 0 ==> Agrees(rcache, block) && at + diff <= size && buffer[..at + diff] == want[..at + diff]
      ensures err == 0 ==> buffer[size..] == old(buffer[size..])
      ensures err == 0 && diff == 0 && !old(Stuck(rcache, hint, block, pos, size - at, limit)) ==> Cached(rcache, block, pos)
      ensures err == 0 && old(Cached(rcache, block, pos)) ==> diff > 0
      ensures old(Stuck(rcache, hint, block, pos, size - at, limit)) ==>
                diff == 0 && buffer[..] == old(buffer[..]) && rcache.State() == old(rcache.State())
      ensures old(Faithful()) ==> Faithful() && err == 0
    {
      diff := limit;
      if block == rcache.block && pos < rcache.off + rcache.size {
        if pos >= rcache.off {
          // the read cache has it
          diff := Min(diff, rcache.size - (pos - rcache.off));
          ReadCached(rcache, block, pos, buffer, at, size, limit, diff, want);
          err := 0;
          return;
        }
        // only as far as the read cache does not reach
        diff := Min(diff, rcache.off - pos);
      }
      if size - at >= hint && pos % geometry.readSize == 0 && size - at >= geometry.readSize {
        // whole read units go straight to the buffer
        AlignDownIsGreatest(diff, geometry.readSize);
        diff := AlignDown(diff, geometry.readSize);
        err := ReadThrough(buffer, block, pos, at, limit, diff, size, want);
        return;
      }
      // the next turn copies from the read cache
      err := Load(rcache, hint, block, pos);
      diff := 0;
    }

    method ReadCached(rcache: Cache, block: nat, pos: nat, buffer: array<Byte>, at: nat, size: nat,
                      ghost limit: nat, diff: nat, ghost want: seq<Byte>)
      requires Agrees(rcache, block) && block == rcache.block < |blocks| && buffer != rcache.buffer
      requires rcache.off <= pos && pos + diff <= rcache.off + rcache.size
      requires diff <= limit && at + limit <= size == |want| <= buffer.Length && buffer[..at] == want[..at]
      requires pos + limit <= |blocks[block]| && want[at..at + limit] == blocks[block][pos..pos + limit]
      modifies buffer
      ensures buffer[..at + diff] == want[..at + diff] && buffer[size..] == old(buffer[size..])
    {
      CachedBytes(rcache, block, pos, pos + diff);
      SliceOfSlice(blocks[block], pos, pos + limit, 0, diff);
      SliceOfSlice(want, at, at + limit, 0, diff);
      CopyOut(rcache, buffer, at, pos, diff, size, want);
    }

    method ReadThrough(buffer: array<Byte>, block: nat, pos: nat, at: nat, ghost limit: nat, diff: nat, size: nat,
                       ghost want: seq<Byte>)
        returns (err: int)
      requires Valid() && block < |blocks| && pos + limit <= geometry.blockSize && diff <= limit
      requires at + limit <= size == |want| <= buffer.Length && buffer[..at] == want[..at]
      requires want[at..at + limit] == blocks[block][pos..pos + limit]
      modifies this`script, buffer
      ensures err <= 0
      ensures err == 0 ==> buffer[..at + diff] == want[..at + diff] && buffer[size..] == old(buffer[size..])
      ensures diff == 0 ==> buffer[..] == old(buffer[..])
      ensures old(Faithful()) ==> Faithful() && err == 0
    {
      ghost var s := buffer[..];
      SliceOfSlice(blocks[block], pos, pos + limit, 0, diff);
      SliceOfSlice(want, at, at + limit, 0, diff);
      err := DeviceRead(block, pos, buffer, at, diff);
      if err == 0 {
        PatchExtends(s, at, want[at..at + diff], size, want);
      }
    }

    /** memcpy from a cache that holds pos..pos + diff. */
    method CopyOut(c: Cache, buffer: array<Byte>, at: nat, pos: nat, diff: nat, size: nat, ghost want: seq<Byte>)
      requires at + diff <= size == |want| <= buffer.Length && buffer != c.buffer && buffer[..at] == want[..at]
      requires c.off <= pos && pos + diff <= c.off + c.size && c.size <= c.buffer.Length
      requires c.buffer[pos - c.off..pos - c.off + diff] == want[at..at + diff]
      modifies buffer
      ensures buffer[..at + diff] == want[..at + diff] && buffer[size..] == old(buffer[size..])
    {
      ghost var s := buffer[..];
      Copy(buffer, at, c.buffer, pos - c.off, diff);
      PatchExtends(s, at, want[at..at + diff], size, want);
    }

    // -------------------------------------------------------------- comparing

    method CompareChunk(pcache: Cache?, rcache: Cache, hint: nat, block: nat, off: nat, data: seq<Byte>)
        returns (err: int, res: int)
      requires Valid() && Agrees(rcache, block) && hint >= 1 && (blockCount == 0 ==> block < |blocks|)
      requires pcache != null ==> pcache != rcache && pcache.buffer != rcache.buffer && Pending(pcache)
      requires pcache != null && pcache.block == block ==> pcache.off % geometry.readSize == 0
      modifies this`script, rcache`block, rcache`off, rcache`size, rcache.buffer
      ensures CacheOk(rcache) && err <= 0 && (rcache.block == old(rcache.block) || rcache.block == block)
      ensures err == 0 ==> Agrees(rcache, block) && block < |blocks| && off + |data| <= geometry.blockSize
      ensures err == 0 ==> res == Memcmp(View(pcache, block)[off..off + |data|], data)
      ensures old(Faithful()) ==> Faithful() && (off + |data| <= geometry.blockSize && block < |blocks| ==> err == 0)
    {
      var dat := new Byte[|data|];
      res := 0;
      err := Read(pcache, rcache, hint, block, off, dat, |data|);
      if err == 0 {
        res := Memcmp(dat[..], data);
        assert dat[..] == dat[..|data|];
      }
    }

    /** lfs_bd_cmp, eight bytes at a time. */
    method Compare(pcache: Cache?, rcache: Cache, hint: nat, block: nat, off: nat, data: seq<Byte>)
        returns (err: int, res: int)
      requires Valid() && Agrees(rcache, block) && hint >= |data| && (blockCount == 0 ==> block < |blocks|)
      requires pcache != null ==> pcache != rcache && pcache.buffer != rcache.buffer && Pending(pcache)
      requires pcache != null && pcache.block == block ==> pcache.off % geometry.readSize == 0
      modifies this`script, rcache`block, rcache`off, rcache`size, rcache.buffer
      ensures CacheOk(rcache) && err <= 0 && (rcache.block == old(rcache.block) || rcache.block == block)
      ensures err == 0 ==> Agrees(rcache, block)
      ensures err == 0 && block < |blocks| && off + |data| <= geometry.blockSize ==>
                res == Memcmp(View(pcache, block)[off..off + |data|], data)
      ensures err == 0 && res == 0 && data != [] ==> block < |blocks| && off + |data| <= geometry.blockSize
      ensures old(Faithful()) ==> Faithful() && (off + |data| <= geometry.blockSize && block < |blocks| ==> err == 0)
    {
      ghost var view := if block < |blocks| then View(pcache, block) else [];
      var i := 0;
      res := 0;
      while i < |data|
        invariant i <= |data| && Agrees(rcache, block) && (rcache.block == old(rcache.block) || rcache.block == block)
        invariant block < |blocks| ==> view == View(pcache, block)
        invariant 0 < i ==> block < |blocks| && off + i <= geometry.blockSize
        invariant off + |data| <= |view| ==> view[off..off + i] == data[..i]
        invariant old(Faithful()) ==> Faithful()
      {
        err, res := CompareNext(pcache, rcache, hint - i, block, off, data, i, view);
        if err != 0 || res != 0 {
          return;
        }
        i := i + Min(|data| - i, 8);
      }
      assert data[..|data|] == data;
      if off + |data| <= |view| { MemcmpZero(view[off..off + |data|], data); }
      err, res := 0, 0;
    }

    /** The next eight bytes, of which all before agreed. */
    method CompareNext(pcache: Cache?, rcache: Cache, hint: nat, block: nat, off: nat, data: seq<Byte>, i: nat,
            ghost view: seq<Byte>)
        returns (err: int, res: int)
      requires Valid() && Agrees(rcache, block) && hint >= 1 && (blockCount == 0 ==> block < |blocks|) && i < |data|
      requires pcache != null ==> pcache != rcache && pcache.buffer != rcache.buffer && Pending(pcache)
      requires pcache != null && pcache.block == block ==> pcache.off % geometry.readSize == 0
      requires block < |blocks| ==> view == View(pcache, block)
      requires off + |data| <= |view| ==> view[off..off + i] == data[..i]
      modifies this`script, rcache`block, rcache`off, rcache`size, rcache.buffer
      ensures CacheOk(rcache) && err <= 0 && (rcache.block == old(rcache.block) || rcache.block == block)
      ensures err == 0 ==> Agrees(rcache, block) && block < |blocks|
      ensures var j := i + Min(|data| - i, 8);
        && (err == 0 ==> off + j <= geometry.blockSize)
        && (err == 0 && off + |data| <= |view| ==>
              if res != 0 then Memcmp(view[off..off + |data|], data) == res else view[off..off + j] == data[..j])
      ensures old(Faithful()) ==> Faithful() && (off + |data| <= geometry.blockSize && block < |blocks| ==> err == 0)
    {
      var j := i + Min(|data| - i, 8);
      err, res := CompareChunk(pcache, rcache, hint, block, off + i, data[i..j]);
      if err == 0 && off + |data| <= |view| {
        ChunkDecides(view, off, data, i, j);
      }
    }

    // -------------------------------------------------------------- programming

    /** The bytes a flush of this cache programs: what is pending, rounded up to program units. */
    ghost function Flushed(pcache: Cache): (s: seq<Byte>)
      requires Valid() && Pending(pcache) && pcache.block < |blocks|
      reads this`blocks, pcache, pcache.buffer
      ensures |s| >= pcache.size && pcache.off + |s| <= geometry.blockSize
      ensures |s| == AlignUp(pcache.size, geometry.progSize)
    {
      FlushBounds(pcache.off, pcache.size, geometry);
      pcache.buffer[..AlignUp(pcache.size, geometry.progSize)]
    }

    /** The validating part of lfs_bd_flush: reads back what was programmed, past any earlier copy of it. */
    method Check(rcache: Cache, block: nat, off: nat, data: seq<Byte>) returns (err: int)
      requires Valid() && CacheOk(rcache) && block < |blocks| && off + |data| <= geometry.blockSize
      modifies this`script, rcache`block, rcache`off, rcache`size, rcache.buffer
      ensures CacheOk(rcache) && err <= 0 && (rcache.block == BLOCK_NULL || rcache.block == block)
      ensures err == 0 ==> Agrees(rcache, block) && blocks[block][off..off + |data|] == data
      ensures old(Faithful()) ==> Faithful() && (blocks[block][off..off + |data|] == data ==> err == 0)
    {
      rcache.Drop();
      var res;
      err, res := Compare(null, rcache, |data|, block, off, data);
      if err == 0 {
        MemcmpZero(blocks[block][off..off + |data|], data);
        if res != 0 {
          err := ERR_CORRUPT;
        }
      }
    }

    /** lfs_bd_flush of a cache that holds bytes for the device. */
    method FlushDevice(pcache: Cache, rcache: Cache, validate: bool) returns (err: int, ghost stored: seq<Byte>)
      requires Valid() && Pending(pcache) && CacheOk(rcache) && pcache != rcache && pcache.buffer != rcache.buffer
      requires pcache.block < |blocks|
      modifies this`script, this`blocks, pcache`block, pcache.buffer, rcache`block, rcache`off, rcache`size,
               rcache.buffer
      ensures Valid() && CacheOk(rcache) && err <= 0 && |stored| == |old(Flushed(pcache))|
      // only the programmed bytes can have changed
      ensures blocks == old(blocks)[old(pcache.block) := Patch(old(blocks)[old(pcache.block)], pcache.off, stored)]
      ensures err == 0 ==> pcache.block == BLOCK_NULL
      // and when checked, they are the ones that were pending
      ensures err == 0 && validate ==> stored == old(Flushed(pcache)) && Agrees(rcache, old(pcache.block))
      // and they always are, without error, if the device does what it is told
      ensures old(Faithful()) ==> Faithful() && err == 0 && stored == old(Flushed(pcache))
      ensures validate ==> rcache.State() == old(rcache.State()) || rcache.block == BLOCK_NULL || rcache.block == old(pcache.block)
      ensures !validate ==> rcache.State() == old(rcache.State())
    {
      ghost var data, was := Flushed(pcache), blocks[pcache.block];
      var diff := AlignUp(pcache.size, geometry.progSize);
      FlushBounds(pcache.off, pcache.size, geometry);
      err, stored := DeviceProg(pcache.block, pcache.off, pcache.buffer[..diff]);
      if err != 0 {
        return;
      }
      StoredShows(was, pcache.off, stored);
      if validate {
        err := Check(rcache, pcache.block, pcache.off, pcache.buffer[..diff]);
        if err != 0 {
          return;
        }
      }
      pcache.Zero();
    }

    /** lfs_bd_flush */
    method Flush(pcache: Cache, rcache: Cache, validate: bool) returns (err: int, ghost stored: seq<Byte>)
      requires Valid() && Pending(pcache) && CacheOk(rcache) && pcache != rcache && pcache.buffer != rcache.buffer
      requires pcache.block < |blocks| || pcache.block == BLOCK_NULL || pcache.block == BLOCK_INLINE
      modifies this`script, this`blocks, pcache`block, pcache.buffer, rcache`block, rcache`off, rcache`size,
               rcache.buffer
      ensures Valid() && |blocks| == |old(blocks)| && CacheOk(rcache) && err <= 0
      ensures old(pcache.block) >= |blocks| ==>
                err == 0 && blocks == old(blocks) && pcache.block == old(pcache.block) && rcache.State() == old(rcache.State())
      ensures old(pcache.block) < |blocks| ==>
                && |stored| == |old(Flushed(pcache))|
                && blocks == old(blocks)[old(pcache.block) := Patch(old(blocks)[old(pcache.block)], pcache.off, stored)]
      ensures old(pcache.block) < |blocks| && err == 0 ==> pcache.block == BLOCK_NULL
      ensures old(pcache.block) < |blocks| && err == 0 && validate ==>
                stored == old(Flushed(pcache)) && Agrees(rcache, old(pcache.block))
      ensures old(Faithful()) ==>
                Faithful() && err == 0 && (old(pcache.block) < |blocks| ==> stored == old(Flushed(pcache)))
      ensures rcache.State() == old(rcache.State()) || rcache.block == BLOCK_NULL || rcache.block == old(pcache.block)
      ensures !validate ==> rcache.State() == old(rcache.State())
    {
      err, stored := 0, [];
      if pcache.block != BLOCK_NULL && pcache.block != BLOCK_INLINE {
        err, stored := FlushDevice(pcache, rcache, validate);
      }
    }

    /** Where the program cache takes the next byte: behind or among its pending ones, or, when it holds none,
        at the start of a program unit. */
    ghost predicate Continues(pcache: Cache, block: nat, off: nat)
      requires geometry.Legal()
      reads pcache
    {
      if pcache.block == block then pcache.off <= off <= pcache.off + pcache.size && pcache.size < geometry.cacheSize
      else pcache.block == BLOCK_NULL && off % geometry.progSize == 0
    }

    /** lfs_bd_prog */
    method Prog(pcache: Cache, rcache: Cache, validate: bool, block: nat, off: nat, data: seq<Byte>) returns (err: int)
      requires Valid() && Pending(pcache) && CacheOk(rcache) && pcache != rcache && pcache.buffer != rcache.buffer
      requires block < |blocks| && off + |data| <= geometry.blockSize && Continues(pcache, block, off)
      modifies this`script, this`blocks, pcache, pcache.buffer, rcache`block, rcache`off, rcache`size, rcache.buffer
      ensures Valid() && CacheOk(rcache) && CacheOk(pcache) && err <= 0 && OthersKept(old(blocks), blocks, block)
      ensures err == 0 ==> Pending(pcache) && Continues(pcache, block, off + |data|)
      // a checked program shows at once, through the cache, and nothing else changes; so does an unchecked one
      // on a device that does what it is told
      ensures err == 0 && (validate || old(Faithful())) ==> View(pcache, block) == Patch(old(View(pcache, block)), off, data)
      ensures old(Faithful()) ==> Faithful() && err == 0
      ensures err == 0 && validate && old(Agrees(rcache, block)) ==> Agrees(rcache, block)
      ensures rcache.State() == old(rcache.State()) || rcache.block == BLOCK_NULL || rcache.block == block
    {
      ghost var was, seen, sure := blocks, View(pcache, block), validate || Faithful();
      assert Patch(seen, off, []) == seen;
      var at := 0;
      while at < |data|
        invariant at <= |data| && Valid() && CacheOk(rcache) && CacheOk(pcache) && OthersKept(was, blocks, block)
        invariant Pending(pcache) && Continues(pcache, block, off + at)
        invariant sure ==> View(pcache, block) == Patch(seen, off, data[..at])
        invariant old(Faithful()) ==> Faithful()
        invariant validate && old(Agrees(rcache, block)) ==> Agrees(rcache, block)
        invariant rcache.State() == old(rcache.State()) || rcache.block == BLOCK_NULL || rcache.block == block
        decreases |data| - at, if pcache.block == block then 0 else 1
      {
        err, at := ProgTurn(pcache, rcache, validate, block, off, data, at, seen, sure);
        if err != 0 {
          return;
        }
      }
      assert data[..|data|] == data;
      err := 0;
    }

    /** One turn of the loop of lfs_bd_prog: bytes for the program cache, or the cache made ready for them. */
    method ProgTurn(pcache: Cache, rcache: Cache, validate: bool, block: nat, off: nat, data: seq<Byte>, at: nat,
            ghost seen: seq<Byte>, ghost sure: bool)
        returns (err: int, at': nat)
      requires Valid() && Pending(pcache) && CacheOk(rcache) && pcache != rcache && pcache.buffer != rcache.buffer
      requires block < |blocks| && off + |data| <= geometry.blockSize == |seen|
      requires Continues(pcache, block, off + at) && at < |data|
      requires sure ==> (validate || Faithful()) && View(pcache, block) == Patch(seen, off, data[..at])
      modifies this`script, this`blocks, pcache, pcache.buffer, rcache`block, rcache`off, rcache`size, rcache.buffer
      ensures Valid() && CacheOk(rcache) && CacheOk(pcache) && err <= 0 && OthersKept(old(blocks), blocks, block)
      ensures err == 0 ==> at <= at' <= |data| && Pending(pcache) && Continues(pcache, block, off + at')
      ensures err == 0 && at' == at ==> pcache.block == block && old(pcache.block) != block
      ensures err == 0 && sure ==> View(pcache, block) == Patch(seen, off, data[..at'])
      ensures old(Faithful()) ==> Faithful() && err == 0
      ensures err == 0 && validate && old(Agrees(rcache, block)) ==> Agrees(rcache, block)
      ensures rcache.State() == old(rcache.State()) || rcache.block == BLOCK_NULL || rcache.block == block
    {
      if block == pcache.block && off + at >= pcache.off && off + at < pcache.off + geometry.cacheSize {
        err, at' := ProgNext(pcache, rcache, validate, block, off, data, at, seen, sure);
      } else {
        Prepare(pcache, block, off + at);
        err, at' := 0, at;
      }
    }

    /** As many of the bytes from `at` on as fit in the program cache. */
    method ProgNext(pcache: Cache, rcache: Cache, validate: bool, block: nat, off: nat, data: seq<Byte>, at: nat,
            ghost seen: seq<Byte>, ghost sure: bool)
        returns (err: int, at': nat)
      requires Valid() && Pending(pcache) && CacheOk(rcache) && pcache != rcache && pcache.buffer != rcache.buffer
      requires block == pcache.block < |blocks| && off + |data| <= geometry.blockSize == |seen|
      requires Continues(pcache, block, off + at) && at < |data|
      requires sure ==> (validate || Faithful()) && View(pcache, block) == Patch(seen, off, data[..at])
      modifies this`script, this`blocks, pcache`block, pcache`size, pcache.buffer, rcache`block, rcache`off,
               rcache`size, rcache.buffer
      ensures Valid() && CacheOk(rcache) && CacheOk(pcache) && err <= 0 && OthersKept(old(blocks), blocks, block)
      ensures err == 0 ==> at < at' <= |data| && Pending(pcache) && Continues(pcache, block, off + at')
      ensures err == 0 && sure ==> View(pcache, block) == Patch(seen, off, data[..at'])
      ensures old(Faithful()) ==> Faithful() && err == 0
      ensures err == 0 && validate && old(Agrees(rcache, block)) ==> Agrees(rcache, block)
      ensures rcache.State() == old(rcache.State()) || rcache.block == BLOCK_NULL || rcache.block == block
    {
      // as much as the program cache still takes
      var diff := Min(|data| - at, geometry.cacheSize - (off + at - pcache.off));
      at' := at + diff;
      PatchOn(seen, off, data, at, at');
      err := ProgSome(pcache, rcache, validate, block, off + at, data[at..at']);
    }

    /** Takes the empty program cache for a block. */
    method Prepare(pcache: Cache, block: nat, off: nat)
      requires Valid() && Pending(pcache) && block < |blocks| && off < geometry.blockSize
      requires pcache.block == BLOCK_NULL && off % geometry.progSize == 0
      modifies pcache`block, pcache`off, pcache`size
      ensures pcache.block == block && pcache.off == off && pcache.size == 0
      ensures Pending(pcache) && Continues(pcache, block, off) && View(pcache, block) == blocks[block]
    {
      // the next turn finds its place in the cache
      pcache.block := block;
      pcache.off := AlignDown(off, geometry.progSize);
      pcache.size := 0;
      assert Patch(blocks[block], off, []) == blocks[block];
    }

    /** Bytes that fit in the program cache, flushed if they fill it up. */
    method ProgSome(pcache: Cache, rcache: Cache, validate: bool, block: nat, off: nat,
            data: seq<Byte>) returns (err: int)
      requires Valid() && Pending(pcache) && CacheOk(rcache) && pcache != rcache && pcache.buffer != rcache.buffer
      requires block == pcache.block < |blocks| && pcache.off <= off <= pcache.off + pcache.size
      requires off + |data| <= Min(geometry.blockSize, pcache.off + geometry.cacheSize) && pcache.size < geometry.cacheSize
      modifies this`script, this`blocks, pcache`block, pcache`size, pcache.buffer, rcache`block, rcache`off,
               rcache`size, rcache.buffer
      ensures Valid() && CacheOk(rcache) && CacheOk(pcache) && err <= 0 && OthersKept(old(blocks), blocks, block)
      ensures err == 0 ==> Pending(pcache) && Continues(pcache, block, off + |data|)
      ensures err == 0 && (validate || old(Faithful())) ==> View(pcache, block) == Patch(old(View(pcache, block)), off, data)
      ensures old(Faithful()) ==> Faithful() && err == 0
      ensures err == 0 && validate && old(Agrees(rcache, block)) ==> Agrees(rcache, block)
      ensures rcache.State() == old(rcache.State()) || rcache.block == BLOCK_NULL || rcache.block == block
    {
      Stage(pcache, block, off, data);
      err := 0;
      if pcache.size == geometry.cacheSize {
        // a full cache goes out at once
        FlushBounds(pcache.off, pcache.size, geometry);
        AlignedSum(pcache.off, pcache.size, geometry.progSize);
        ghost var stored;
        err, stored := Flush(pcache, rcache, validate);
      }
    }

    /** memcpy into the program cache. */
    method Stage(pcache: Cache, block: nat, off: nat, data: seq<Byte>)
      requires Valid() && Pending(pcache) && block == pcache.block < |blocks|
      requires pcache.off <= off <= pcache.off + pcache.size
      requires off + |data| <= Min(geometry.blockSize, pcache.off + geometry.cacheSize)
      modifies pcache`size, pcache.buffer
      ensures Pending(pcache) && pcache.size == Max(old(pcache.size), off + |data| - pcache.off)
      ensures View(pcache, block) == Patch(old(View(pcache, block)), off, data)
    {
      ghost var before, n := pcache.buffer[..], pcache.size;
      Fill(pcache.buffer, off - pcache.off, data);
      pcache.size := Max(pcache.size, off + |data| - pcache.off);
      PatchTwice(blocks[block], pcache.off, before, n, off, data);
    }

    /** lfs_bd_sync: afterwards the device holds what was pending, if the flush is checked, and the read cache
        is right about every block, checked or not. */
    method Sync(pcache: Cache, rcache: Cache, validate: bool) returns (err: int)
      requires Valid() && Pending(pcache) && CacheOk(rcache) && pcache != rcache && pcache.buffer != rcache.buffer
      requires pcache.block < |blocks| || pcache.block == BLOCK_NULL || pcache.block == BLOCK_INLINE
      modifies this`script, this`blocks, pcache`block, pcache.buffer, rcache`block, rcache`off, rcache`size,
               rcache.buffer
      ensures Valid() && |blocks| == |old(blocks)| && CacheOk(rcache) && err <= 0
      ensures err == 0 ==> forall b | 0 <= b < |blocks| :: Agrees(rcache, b)
      ensures err == 0 && (validate || old(Faithful())) && old(pcache.block) < |blocks| ==>
                blocks == old(blocks)[old(pcache.block) := Patch(old(blocks)[old(pcache.block)], pcache.off, old(Flushed(pcache)))]
      ensures old(Faithful()) ==> Faithful() && err == 0
    {
      rcache.Drop();
      ghost var stored;
      err, stored := Flush(pcache, rcache, validate);
    }

    /** A flushed block shows what was seen through the cache, but for the padding of the last program unit. */
    lemma FlushKeepsView(pcache: Cache)
      requires Valid() && Pending(pcache) && pcache.block < |blocks|
      ensures Shows(blocks[pcache.block], pcache.off, Flushed(pcache), pcache.size, View(pcache, pcache.block))
    {
      var data := Flushed(pcache);
      assert pcache.buffer[..pcache.size] == data[..pcache.size];
      FlushShows(blocks[pcache.block], pcache.off, data, pcache.size);
    }

    // -------------------------------------------------------------- copying a block out

    /** lfs_file_relocate for a file that is not inline: what is seen of its block moves to a fresh one, with the
        bytes not yet flushed now pending in the file's own cache. `free` stands for the allocator's answers. */
    method Relocate(cache: Cache, pcache: Cache, rcache: Cache, block: nat, off: nat, free: seq<nat>)
        returns (err: int, nblock: nat)
      requires Valid() && Pending(cache) && Agrees(rcache, block) && Pending(pcache)
      requires pcache.block == BLOCK_NULL && block < |blocks| && off <= geometry.blockSize
      requires cache.block == block ==> cache.off % geometry.readSize == 0
      requires cache != pcache && cache != rcache && pcache != rcache
      requires cache.buffer != pcache.buffer && cache.buffer != rcache.buffer && pcache.buffer != rcache.buffer
      requires forall i | 0 <= i < |free| :: free[i] < |blocks| && free[i] != block && free[i] != cache.block
      modifies this`script, this`blocks, cache, cache.buffer, pcache, pcache.buffer, rcache`block, rcache`off,
               rcache`size, rcache.buffer
      ensures Valid() && |blocks| == |old(blocks)|
      ensures forall b | 0 <= b < |blocks| && b !in free :: blocks[b] == old(blocks)[b]
      ensures err == 0 ==> nblock in free && Pending(cache) && Continues(cache, nblock, off)
      ensures err == 0 ==> View(cache, nblock)[..off] == old(View(cache, block))[..off]
      ensures old(Faithful()) && free != [] ==> Faithful() && err == 0 && nblock == free[0]
      ensures free == [] ==> err == -28
    {
      hide Patch;
      ghost var seen := View(cache, block);
      for n := 0 to |free|
        invariant Valid() && |blocks| == |old(blocks)|
        invariant forall b | 0 <= b < |blocks| && b !in free :: blocks[b] == old(blocks)[b]
        invariant cache.State() == old(cache.State()) && Agrees(rcache, block) && Pending(pcache)
        invariant pcache.block == BLOCK_NULL && (n > 0 ==> !old(Faithful())) && (old(Faithful()) ==> Faithful())
      {
        nblock := free[n];
        var bad;
        err, bad := CopyTo(cache, pcache, rcache, block, off, nblock, seen);
        if err == 0 {
          TakeOver(cache, pcache, nblock, off);
          return;
        }
        if !bad {
          return;
        }
        // the block is bad: on to the next
        pcache.Drop();
      }
      return ERR_NOSPC, 0;
    }

    /** The file takes over what is pending for its new block. */
    method TakeOver(cache: Cache, pcache: Cache, nblock: nat, off: nat)
      requires Valid() && CacheOk(cache) && Pending(pcache) && cache != pcache && cache.buffer != pcache.buffer
      requires nblock < |blocks| && Continues(pcache, nblock, off)
      modifies cache, cache.buffer, pcache`block, pcache.buffer
      ensures Pending(cache) && Continues(cache, nblock, off) && View(cache, nblock) == old(View(pcache, nblock))
    {
      Copy(cache.buffer, 0, pcache.buffer, 0, geometry.cacheSize);
      cache.block, cache.off, cache.size := pcache.block, pcache.off, pcache.size;
      assert cache.buffer[..] == pcache.buffer[..];
      pcache.Zero();
    }

    /** One attempt: erases nblock and copies the first off bytes seen of block there, byte by byte. */
    method CopyTo(cache: Cache, pcache: Cache, rcache: Cache, block: nat, off: nat, nblock: nat, ghost seen: seq<Byte>)
        returns (err: int, bad: bool)
      requires Valid() && Pending(cache) && Agrees(rcache, block) && CacheOk(pcache) && pcache.block == BLOCK_NULL
      requires block < |blocks| && nblock < |blocks| && nblock != block && off <= geometry.blockSize
      requires cache.block == block ==> cache.off % geometry.readSize == 0
      requires cache.block != nblock
      requires cache != pcache && cache != rcache && pcache != rcache
      requires cache.buffer != pcache.buffer && cache.buffer != rcache.buffer && pcache.buffer != rcache.buffer
      requires seen == View(cache, block)
      modifies this`script, this`blocks, pcache, pcache.buffer, rcache`block, rcache`off, rcache`size, rcache.buffer
      ensures Valid() && OthersKept(old(blocks), blocks, nblock) && err <= 0
      ensures err == 0 ==> Pending(pcache) && Continues(pcache, nblock, off) && View(pcache, nblock)[..off] == seen[..off]
      ensures CacheOk(pcache) && CacheOk(rcache)
      ensures bad ==> err != 0 && Agrees(rcache, block)
      ensures old(Faithful()) ==> Faithful() && err == 0
    {
      hide Patch;
      ghost var was := blocks;
      err := DeviceErase(nblock);
      if err != 0 {
        return err, err == ERR_CORRUPT;
      }
      for i := 0 to off
        invariant Valid() && OthersKept(was, blocks, nblock) && Pending(pcache) && Continues(pcache, nblock, i)
        invariant Pending(cache) && seen == View(cache, block) && Agrees(rcache, block)
        invariant View(pcache, nblock)[..i] == seen[..i]
        invariant old(Faithful()) ==> Faithful()
      {
        err, bad := CopyByte(cache, pcache, rcache, block, off - i, i, nblock, seen);
        if err != 0 {
          return;
        }
      }
      err, bad := 0, false;
    }

    method ReadByte(cache: Cache, rcache: Cache, hint: nat, block: nat, i: nat) returns (err: int, data: Byte)
      requires Valid() && Pending(cache) && Agrees(rcache, block)
      requires block < |blocks| && i < geometry.blockSize && hint >= 1
      requires cache.block == block ==> cache.off % geometry.readSize == 0
      requires cache != rcache && cache.buffer != rcache.buffer
      modifies this`script, rcache`block, rcache`off, rcache`size, rcache.buffer
      ensures CacheOk(rcache) && err <= 0
      ensures err == 0 ==> Agrees(rcache, block) && data == View(cache, block)[i]
      ensures old(Faithful()) ==> Faithful() && err == 0
    {
      var buffer := new Byte[1];
      err := Read(cache, rcache, hint, block, i, buffer, 1);
      data := buffer[0];
      if err == 0 {
        assert buffer[0] == buffer[..1][0];
      }
    }

    method ProgByte(pcache: Cache, rcache: Cache, nblock: nat, i: nat, data: Byte, ghost block: nat) returns (err: int)
      requires Valid() && Pending(pcache) && Agrees(rcache, block) && pcache != rcache && pcache.buffer != rcache.buffer
      requires nblock < |blocks| && nblock != block && i < geometry.blockSize && Continues(pcache, nblock, i)
      modifies this`script, this`blocks, pcache, pcache.buffer, rcache`block, rcache`off, rcache`size, rcache.buffer
      ensures Valid() && Agrees(rcache, block) && CacheOk(pcache) && err <= 0 && OthersKept(old(blocks), blocks, nblock)
      ensures err == 0 ==> Pending(pcache) && Continues(pcache, nblock, i + 1)
      ensures err == 0 ==> View(pcache, nblock) == Patch(old(View(pcache, nblock)), i, [data])
      ensures old(Faithful()) ==> Faithful() && err == 0
    {
      assert rcache.buffer[..rcache.size] == rcache.buffer[..][..rcache.size];
      err := Prog(pcache, rcache, true, nblock, i, [data]);
      assert rcache.buffer[..rcache.size] == rcache.buffer[..][..rcache.size];
    }

    /** Byte i: read from block, through its cache, and programmed into nblock. */
    method CopyByte(cache: Cache, pcache: Cache, rcache: Cache, block: nat, hint: nat, i: nat, nblock: nat,
            ghost seen: seq<Byte>)
        returns (err: int, bad: bool)
      requires Valid() && Pending(cache) && Agrees(rcache, block) && Pending(pcache) && Continues(pcache, nblock, i)
      requires block < |blocks| && nblock < |blocks| && nblock != block && i < geometry.blockSize && hint >= 1
      requires cache.block == block ==> cache.off % geometry.readSize == 0
      requires cache != pcache && cache != rcache && pcache != rcache
      requires cache.buffer != pcache.buffer && cache.buffer != rcache.buffer && pcache.buffer != rcache.buffer
      requires seen == View(cache, block) && View(pcache, nblock)[..i] == seen[..i] && cache.block != nblock
      modifies this`script, this`blocks, pcache, pcache.buffer, rcache`block, rcache`off, rcache`size, rcache.buffer
      ensures Valid() && OthersKept(old(blocks), blocks, nblock) && err <= 0 && CacheOk(pcache) && CacheOk(rcache)
      ensures err == 0 ==> Pending(pcache) && Continues(pcache, nblock, i + 1) && View(pcache, nblock)[..i + 1] == seen[..i + 1]
      ensures err == 0 || bad ==> Agrees(rcache, block)
      ensures bad ==> err != 0
      ensures old(Faithful()) ==> Faithful() && err == 0
    {
      var data;
      bad := false;
      err, data := ReadByte(cache, rcache, hint, block, i);
      if err != 0 {
        return;
      }
      ghost var before := View(pcache, nblock);
      err := ProgByte(pcache, rcache, nblock, i, data, block);
      bad := err == ERR_CORRUPT;
      if err == 0 {
        OneMoreByte(before, i, seen);
      }
    }

    lemma PendingBytes(pcache: Cache, block: nat, a: nat, b: nat)
      requires block < |blocks| && Pending(pcache) && pcache.block == block
      requires pcache.off <= a <= b <= pcache.off + pcache.size
      ensures View(pcache, block)[a..b] == pcache.buffer[a - pcache.off..b - pcache.off]
    {
      PatchInside(blocks[block], pcache.off, pcache.buffer[..pcache.size], a, b);
    }

    lemma OtherBytes(pcache: Cache?, block: nat, a: nat, b: nat)
      requires block < |blocks| && a <= b <= |blocks[block]|
      requires pcache != null ==> Pending(pcache)
      requires pcache != null && pcache.block == block ==> b <= pcache.off || a >= pcache.off + pcache.size
      ensures View(pcache, block)[a..b] == blocks[block][a..b]
    {
      if pcache != null && pcache.block == block {
        PatchOutside(blocks[block], pcache.off, pcache.buffer[..pcache.size], a, b);
      }
    }

    lemma CachedBytes(rcache: Cache, block: nat, a: nat, b: nat)
      requires block < |blocks| && Agrees(rcache, block) && rcache.block == block
      requires rcache.off <= a <= b <= rcache.off + rcache.size
      ensures b <= |blocks[block]| && blocks[block][a..b] == rcache.buffer[a - rcache.off..b - rcache.off]
    {
      var x, y := a - rcache.off, b - rcache.off;
      assert rcache.buffer[..rcache.size] == rcache.buffer[..][0..rcache.size];
      SliceOfSlice(rcache.buffer[..], 0, rcache.size, x, y);
      SliceOfSlice(blocks[block], rcache.off, rcache.off + rcache.size, x, y);
    }
  }

  lemma WantedBytes(want: seq<Byte>, view: seq<Byte>, off: nat, size: nat, at: nat, diff: nat)
    requires off + size <= |view| && want == view[off..off + size] && at + diff <= size
    ensures want[at..at + diff] == view[off + at..off + at + diff]
  {
    SliceOfSlice(view, off, off + size, at, at + diff);
  }

  lemma SliceOfSlice<T>(s: seq<T>, a: nat, b: nat, c: nat, d: nat)
    requires a <= b <= |s| && c <= d <= b - a
    ensures s[a..b][c..d] == s[a + c..a + d]
  {
    var t := s[a..b];
    assert forall i | c <= i < d :: t[i] == s[a + i];
  }

  lemma PatchInside(s: seq<Byte>, off: nat, data: seq<Byte>, a: nat, b: nat)
    requires off + |data| <= |s| && off <= a <= b <= off + |data|
    ensures Patch(s, off, data)[a..b] == data[a - off..b - off]
  {
  }

  lemma StoredShows(s: seq<Byte>, off: nat, stored: seq<Byte>)
    requires off + |stored| <= |s|
    ensures Patch(s, off, stored)[off..off + |stored|] == stored
  {
    PatchInside(s, off, stored, off, off + |stored|);
  }

  lemma PatchOutside(s: seq<Byte>, off: nat, data: seq<Byte>, a: nat, b: nat)
    requires off + |data| <= |s| && a <= b <= |s| && (b <= off || a >= off + |data|)
    ensures Patch(s, off, data)[a..b] == s[a..b]
  {
  }

  /** Patching the pending bytes is patching what they show. */
  lemma PatchTwice(s: seq<Byte>, o: nat, buffer: seq<Byte>, n: nat, off: nat, data: seq<Byte>)
    requires n <= |buffer| && o + n <= |s| && o <= off <= o + n && off + |data| <= Min(|s|, o + |buffer|)
    ensures var m := Max(n, off + |data| - o);
      Patch(s, o, Patch(buffer, off - o, data)[..m]) == Patch(Patch(s, o, buffer[..n]), off, data)
  {
    var m := Max(n, off + |data| - o);
    var x, y := Patch(s, o, Patch(buffer, off - o, data)[..m]), Patch(Patch(s, o, buffer[..n]), off, data);
    forall i | 0 <= i < |s| ensures x[i] == y[i] {
      if off <= i < off + |data| {
        assert x[i] == data[i - off] == y[i];
      } else if o <= i < o + n {
        assert x[i] == buffer[i - o] == y[i];
      }
    }
  }

  lemma OneMoreByte(s: seq<Byte>, i: nat, seen: seq<Byte>)
    requires i < |s| == |seen| && s[..i] == seen[..i]
    ensures Patch(s, i, [seen[i]])[..i + 1] == seen[..i + 1]
  {
    PatchKeepsFront(s, i, [seen[i]]);
  }

  lemma PatchOn(s: seq<Byte>, off: nat, data: seq<Byte>, i: nat, j: nat)
    requires i <= j <= |data| && off + |data| <= |s|
    ensures Patch(Patch(s, off, data[..i]), off + i, data[i..j]) == Patch(s, off, data[..j])
  {
  }

  /** lfs_bd_read with `left` bytes to go reads past the caches at pos, where the next cached byte is `room` bytes
      away, and there rounds the length down to nothing. */
  predicate Stalls(pos: nat, left: nat, room: nat, hint: nat, readSize: nat)
    requires readSize > 0
  {
    left >= hint && pos % readSize == 0 && left >= readSize && AlignDown(room, readSize) == 0
  }

  /** A read of `left` bytes at pos stalls in front of the bytes pending from p on. */
  predicate StallsBefore(p: nat, pos: nat, left: nat, hint: nat, readSize: nat, blockSize: nat)
    requires readSize > 0
  {
    pos < p && pos + left <= blockSize && Stalls(pos, left, Min(left, p - pos), hint, readSize)
  }

  /** Bytes pending from p on make some read within the block stall just when p is not a multiple of the read
      size, provided the block has room for a read from the unit of p on that is long enough to pass the caches. */
  lemma UnalignedStalls(p: nat, hint: nat, readSize: nat, blockSize: nat)
    requires readSize > 0
    ensures p % readSize != 0 && AlignDown(p, readSize) + Max(hint, readSize) <= blockSize <==>
            exists pos, left :: StallsBefore(p, pos, left, hint, readSize, blockSize)
  {
    AlignDownIsGreatest(p, readSize);
    if p % readSize != 0 && AlignDown(p, readSize) + Max(hint, readSize) <= blockSize {
      var pos, left := AlignDown(p, readSize), Max(hint, readSize);
      DivModUnique(p - pos, readSize, 0, p - pos);
      assert StallsBefore(p, pos, left, hint, readSize, blockSize);
    }
    forall pos, left | StallsBefore(p, pos, left, hint, readSize, blockSize)
      ensures p % readSize != 0 && AlignDown(p, readSize) + Max(hint, readSize) <= blockSize
    {
      StallsInTheUnit(pos, left, p, readSize);
    }
  }

  lemma StallsInTheUnit(pos: nat, left: nat, p: nat, readSize: nat)
    requires readSize > 0 && pos < p && pos % readSize == 0 && left >= readSize
    requires AlignDown(Min(left, p - pos), readSize) == 0
    ensures p % readSize != 0 && AlignDown(p, readSize) == pos
  {
    AlignDownIsGreatest(Min(left, p - pos), readSize);
    DivModUnique(p, readSize, pos / readSize, p - pos);
  }

  /** With data programmed at off, the block shows what was seen, up to n bytes of the data and behind them all. */
  ghost predicate Shows(s: seq<Byte>, off: nat, data: seq<Byte>, n: nat, seen: seq<Byte>)
    requires off + |data| <= |s| && n <= |data|
  {
    var now := Patch(s, off, data);
    |now| == |seen| && now[..off + n] == seen[..off + n] && now[off + |data|..] == seen[off + |data|..]
  }

  lemma FlushShows(s: seq<Byte>, off: nat, data: seq<Byte>, n: nat)
    requires n <= |data| && off + |data| <= |s|
    ensures Shows(s, off, data, n, Patch(s, off, data[..n]))
  {
  }

  /** The sign of memcmp: how the first differing bytes compare. */
  function Memcmp(a: seq<Byte>, b: seq<Byte>): int
    requires |a| == |b|
  {
    if a == [] then 0 else if a[0] != b[0] then a[0] - b[0] else Memcmp(a[1..], b[1..])
  }

  /** They agree on the first i bytes, and there the first has the smaller one. */
  predicate LessAt(a: seq<Byte>, b: seq<Byte>, i: nat) {
    i < |a| && i < |b| && a[..i] == b[..i] && a[i] < b[i]
  }

  lemma {:induction false} MemcmpMeans(a: seq<Byte>, b: seq<Byte>)
    requires |a| == |b|
    ensures Memcmp(a, b) < 0 <==> exists i: nat :: LessAt(a, b, i)
    ensures Memcmp(a, b) == -Memcmp(b, a)
    ensures Memcmp(a, b) == 0 <==> a == b
  {
    MemcmpZero(a, b);
    if a != [] {
      if a[0] == b[0] {
        MemcmpMeans(a[1..], b[1..]);
        if i: nat :| LessAt(a[1..], b[1..], i) {
          assert a[..i + 1] == [a[0]] + a[1..][..i] && b[..i + 1] == [b[0]] + b[1..][..i];
          assert LessAt(a, b, i + 1);
        }
        if i: nat :| LessAt(a, b, i) {
          assert i > 0;
          assert a[1..][..i - 1] == a[..i][1..] && b[1..][..i - 1] == b[..i][1..];
          assert LessAt(a[1..], b[1..], i - 1);
        }
      } else if a[0] < b[0] {
        assert LessAt(a, b, 0);
      }
    }
  }

  lemma {:induction false} MemcmpZero(a: seq<Byte>, b: seq<Byte>)
    requires |a| == |b|
    ensures Memcmp(a, b) == 0 <==> a == b
  {
    if a != [] && a[0] == b[0] {
      MemcmpZero(a[1..], b[1..]);
      assert a == [a[0]] + a[1..] && b == [b[0]] + b[1..];
    }
  }

  lemma {:induction false} MemcmpConcat(a: seq<Byte>, b: seq<Byte>, a': seq<Byte>, b': seq<Byte>)
    requires |a| == |b| && |a'| == |b'|
    ensures Memcmp(a + a', b + b') == if Memcmp(a, b) != 0 then Memcmp(a, b) else Memcmp(a', b')
    decreases |a|
  {
    if a == [] {
      assert a + a' == a' && b + b' == b';
    } else {
      assert (a + a')[1..] == a[1..] + a' && (b + b')[1..] == b[1..] + b';
      MemcmpConcat(a[1..], b[1..], a', b');
    }
  }

  /** The first chunk that differs decides. */
  lemma {:induction false} ChunkDecides(view: seq<Byte>, off: nat, data: seq<Byte>, i: nat, j: nat)
    requires off + |data| <= |view| && i <= j <= |data| && view[off..off + i] == data[..i]
    ensures var res := Memcmp(view[off + i..off + j], data[i..j]);
      if res != 0 then Memcmp(view[off..off + |data|], data) == res else view[off..off + j] == data[..j]
  {
    var n := |data|;
    Decides(view[off..off + i], view[off + i..off + j], view[off + j..off + n], data[..i], data[i..j], data[j..n]);
    SplitAt(view, off, off + i, off + j);
    SplitAt(view, off, off + j, off + n);
    SplitAt(data, 0, i, j);
    SplitAt(data, 0, j, n);
    assert data[0..n] == data && data[0..j] == data[..j] && data[0..i] == data[..i];
  }

  lemma {:induction false} Decides(a: seq<Byte>, b: seq<Byte>, c: seq<Byte>, x: seq<Byte>, y: seq<Byte>, z: seq<Byte>)
    requires |a| == |x| && |b| == |y| && |c| == |z| && a == x
    ensures if Memcmp(b, y) != 0 then Memcmp(a + b + c, x + y + z) == Memcmp(b, y) else a + b == x + y
  {
    MemcmpConcat(a + b, x + y, c, z);
    MemcmpConcat(a, x, b, y);
    MemcmpZero(a, x);
    MemcmpZero(b, y);
  }

  lemma SplitAt(s: seq<Byte>, i: nat, j: nat, k: nat)
    requires i <= j <= k <= |s|
    ensures s[i..k] == s[i..j] + s[j..k]
  {
  }

  lemma FlushBounds(off: nat, size: nat, g: Geometry)
    requires g.Legal() && off % g.progSize == 0 && off + size <= g.blockSize && size <= g.cacheSize
    ensures size <= AlignUp(size, g.progSize) <= g.cacheSize && off + AlignUp(size, g.progSize) <= g.blockSize
    ensures size == g.cacheSize ==> AlignUp(size, g.progSize) == g.cacheSize
  {
    var diff := AlignUp(size, g.progSize);
    AlignUpIsLeast(size, g.progSize);
    if diff > g.cacheSize { MultiplesApart(g.cacheSize, diff, g.progSize); }
    AlignedSum(off, diff, g.progSize);
    AlignedMultiple(g.blockSize, g.cacheSize, g.progSize);
    if off + diff > g.blockSize { MultiplesApart(g.blockSize, off + diff, g.progSize); }
  }

  lemma AlignedSum(a: nat, b: nat, d: nat)
    requires d > 0 && a % d == 0 && b % d == 0
    ensures (a + b) % d == 0
  {
    assert a + b == (a / d + b / d) * d;
    DivModUnique(a + b, d, a / d + b / d, 0);
  }

  lemma AlignedMultiple(a: nat, b: nat, d: nat)
    requires d > 0 && b > 0 && a % b == 0 && b % d == 0
    ensures a % d == 0
  {
    var i, j := a / b, b / d;
    assert a == i * b && b == j * d;
    MulAssoc(i, j, d);
    DivModUnique(a, d, i * j, 0);
  }

  /** Bypassing the caches reads at least one unit, since whatever cuts the read short is aligned. */
  lemma BypassProgress(diff: nat, pos: nat, readSize: nat)
    requires readSize > 0 && pos % readSize == 0 && diff > 0
    requires diff >= readSize || (pos + diff) % readSize == 0
    ensures 0 < AlignDown(diff, readSize) <= diff
  {
    if diff < readSize { MultiplesApart(pos, pos + diff, readSize); }
    AlignDownIsGreatest(diff, readSize);
  }

  lemma LoadBounds(off: nat, hint: nat, g: Geometry)
    requires g.Legal() && off < g.blockSize && hint >= 1
    ensures var o := AlignDown(off, g.readSize);
      && o % g.readSize == 0 && o <= off < AlignUp(off + hint, g.readSize)
      && off < o + g.cacheSize
  {
    AlignDownIsGreatest(off, g.readSize);
    AlignUpIsLeast(off + hint, g.readSize);
    if g.cacheSize < g.readSize { DivModUnique(g.cacheSize, g.readSize, 0, g.cacheSize); }
  }
}
