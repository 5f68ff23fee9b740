/** The walks over a file's skip list: logarithmic lookup and full traversal
    (lfs_ctz_find, lfs_ctz_traverse), each proved against the chain of blocks itself. */
module CtzWalk {
  import opened Bits
  import opened Words
  import opened CtzList

  /** The word stored at byte `at` of a block. */
  function Word(block: seq<Byte>, at: nat): nat
    requires at + 4 <= |block|
  {
    FromLe32(block[at..at + 4])
  }

  /** Pointer j of list block n is present and leads to list block n - 2^j. */
  ghost predicate PointsBack(disk: Disk, chain: seq<nat>, n: nat, j: nat)
    requires n < |chain| && chain[n] in disk
  {
    && 4 * j + 4 <= |disk[chain[n]]|
    && Pow2(j) <= n
    && Word(disk[chain[n]], 4 * j) == chain[n - Pow2(j)]
  }

  /** `chain` lists the blocks of a file in order; every block but the first carries
      a pointer for each trailing zero of its index, and one more. */
  ghost predicate ListOk(disk: Disk, blockSize: nat, chain: seq<nat>) {
    && (forall n | 0 <= n < |chain| :: chain[n] in disk && |disk[chain[n]]| == blockSize)
    && (forall n, j | 1 <= n < |chain| && 0 <= j <= Ctz(n) :: PointsBack(disk, chain, n, j))
  }

  // ---------------------------------------------------------------- lookup

  /** The exponent lfs_ctz_find jumps by. */
  function Skip(current: nat, target: nat): nat
    requires current > target
  {
    Min(Npw2(current - target + 1) - 1, Ctz(current))
  }

  /** Upper bound on the pointer hops still needed. */
  function ReadsLeft(current: nat, target: nat): nat
    requires current >= target
  {
    if current == target then 0
    else
      var top := Log2(current - target);
      if Ctz(current) >= top then top + 1 else top - Ctz(current) + top + 1
  }

  /** A jump stays at or above the target and pays for itself. */
  lemma SkipMakesProgress(current: nat, target: nat)
    requires current > target
    ensures var skip := Skip(current, target);
      && skip <= Ctz(current)
      && current - Pow2(skip) >= target
      && ReadsLeft(current - Pow2(skip), target) < ReadsLeft(current, target)
  {
    var d := current - target;
    var top := Log2(d);
    assert Npw2(d + 1) - 1 == top;
    Log2Bounds(d);
    var skip := Skip(current, target);
    Pow2Monotone(skip, top);
    var d' := d - Pow2(skip);
    if d' > 0 {
      CtzAfterStep(current, skip);
      if skip == top {
        Log2Below(d', top);
      } else {
        Log2Monotone(d', d);
      }
    }
  }

  /** How many pointers the jumps follow. */
  function Hops(current: nat, target: nat): (hops: nat)
    requires current >= target
    ensures hops <= ReadsLeft(current, target)
    decreases ReadsLeft(current, target)
  {
    if current == target then 0
    else
      SkipMakesProgress(current, target);
      1 + Hops(current - Pow2(Skip(current, target)), target)
  }

  lemma ReadsLeftBound(current: nat, target: nat)
    requires current > target
    ensures ReadsLeft(current, target) <= 2 * Log2(current - target) + 1
  {
  }

  /** The naive walk: follow pointer 0 one block at a time. */
  function SlowWalk(disk: Disk, head: nat, current: nat, target: nat): (block: nat)
    requires current >= target
    requires head in disk && |disk[head]| >= 4
    decreases current
  {
    if current == target then head
    else
      var next := Word(disk[head], 0);
      if next in disk && |disk[next]| >= 4 then SlowWalk(disk, next, current - 1, target) else next
  }

  lemma {:induction false} SlowWalkFollowsChain(disk: Disk, blockSize: nat, chain: seq<nat>, current: nat, target: nat)
    requires blockSize >= 4 && ListOk(disk, blockSize, chain)
    requires target <= current < |chain|
    ensures SlowWalk(disk, chain[current], current, target) == chain[target]
  {
    if current > target {
      assert PointsBack(disk, chain, current, 0);
      SlowWalkFollowsChain(disk, blockSize, chain, current - 1, target);
    }
  }

  method Find(disk: Disk, blockSize: nat, head: nat, size: nat, pos: nat, ghost chain: seq<nat>)
      returns (block: nat, off: nat, hops: nat)
    requires blockSize >= 128 && size < WORD_LIMIT && pos < WORD_LIMIT
    requires size > 0 ==>
      && ListOk(disk, blockSize, chain)
      && |chain| == Index(blockSize, size - 1).0 + 1
      && head == chain[|chain| - 1]
    ensures size == 0 ==> block == BLOCK_NULL && off == 0 && hops == 0
    ensures size > 0 ==>
      var last := |chain| - 1;
      var (target, o) := Index(blockSize, pos);
      && off == o
      && block == chain[Min(target, last)]
      && (target <= last ==> block == SlowWalk(disk, head, last, target))
      && hops == Hops(Max(last, target), target) <= (if last > target then 2 * Log2(last - target) + 1 else 0)
  {
    if size == 0 {
      return BLOCK_NULL, 0, 0;
    }
    var current := Index(blockSize, size - 1).0;
    var (target, o) := Index(blockSize, pos);
    off := o;
    if target <= current { SlowWalkFollowsChain(disk, blockSize, chain, current, target); }
    block, hops := FindBlock(disk, blockSize, head, current, target, chain);
  }

  /** The loop of lfs_ctz_find, between two block indices. */
  method FindBlock(disk: Disk, blockSize: nat, head: nat, last: nat, target: nat, ghost chain: seq<nat>)
      returns (block: nat, hops: nat)
    requires ListOk(disk, blockSize, chain) && |chain| == last + 1 && head == chain[last]
    ensures block == chain[Min(target, last)]
    ensures hops == Hops(Max(last, target), target) <= (if last > target then 2 * Log2(last - target) + 1 else 0)
  {
    hops := 0;
    block := head;
    var current: nat := last;
    if last > target { ReadsLeftBound(last, target); }
    while current > target
      invariant 0 <= current <= last
      invariant block == chain[current]
      invariant last > target ==> current >= target && hops + Hops(current, target) == Hops(last, target)
      invariant last <= target ==> current == last && hops == 0
    {
      var skip := Skip(current, target);
      SkipMakesProgress(current, target);
      assert PointsBack(disk, chain, current, skip);
      block := Word(disk[block], 4 * skip);
      hops := hops + 1;
      current := current - Pow2(skip);
    }
  }

  // ---------------------------------------------------------------- traversal

  /** Blocks are handed to the callback from the last to the first, each exactly once. */
  ghost predicate Descending(reported: seq<nat>, chain: seq<nat>) {
    && |reported| == |chain|
    && forall k | 0 <= k < |chain| :: reported[k] == chain[|chain| - 1 - k]
  }

  method Traverse(disk: Disk, blockSize: nat, head: nat, size: nat, ghost chain: seq<nat>)
      returns (reported: seq<nat>)
    requires blockSize >= 128 && size < WORD_LIMIT
    requires size == 0 ==> chain == []
    requires size > 0 ==>
      && ListOk(disk, blockSize, chain)
      && |chain| == Index(blockSize, size - 1).0 + 1
      && head == chain[|chain| - 1]
    ensures Descending(reported, chain)
  {
    reported := [];
    if size == 0 {
      return;
    }
    reported := TraverseFrom(disk, blockSize, head, Index(blockSize, size - 1).0, chain);
  }

  /** The loop of lfs_ctz_traverse: two blocks at a time wherever block `index` holds two pointers. */
  method TraverseFrom(disk: Disk, blockSize: nat, head: nat, last: nat, ghost chain: seq<nat>)
      returns (reported: seq<nat>)
    requires ListOk(disk, blockSize, chain) && |chain| == last + 1 && head == chain[last]
    ensures Descending(reported, chain)
  {
    reported := [];
    var index: nat := last;
    var block := head;
    while true
      invariant index < |chain| && block == chain[index]
      invariant |reported| == last - index
      invariant forall k | 0 <= k < |reported| :: reported[k] == chain[last - k]
      decreases index
    {
      reported := reported + [block];
      if index == 0 {
        return;
      }
      var count := 2 - index % 2;
      assert PointsBack(disk, chain, index, 0);
      var heads := [Word(disk[block], 0)];
      if count == 2 {
        assert Ctz(index) >= 1;
        assert PointsBack(disk, chain, index, 1);
        heads := heads + [Word(disk[block], 4)];
      }
      for i := 0 to count - 1
        invariant |reported| == last - index + 1 + i
        invariant forall k | 0 <= k < |reported| :: reported[k] == chain[last - k]
      {
        reported := reported + [heads[i]];
      }
      block := heads[count - 1];
      index := index - count;
    }
  }
}
