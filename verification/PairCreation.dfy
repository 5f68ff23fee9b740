/** Making a metadata pair out of two blocks that may have been in use before (lfs_dir_alloc): nothing is erased but the
    block that is written, and its revision count outdoes whatever the other block still holds. */
module PairCreation {
  import opened Bits
  import opened Words
  import opened MetadataLog
  import opened CommitFormat
  import opened CommitWriter
  import opened MetadataPair
  import opened CrashAtomicity
  import opened PairCommit

  const INT_MAX: nat := 0x7fff_ffff

  /** The modulus of wear levelling, (block_cycles + 1) | 1. */
  function Modulus(blockCycles: nat): (m: nat)
    ensures m % 2 == 1 && blockCycles < m <= blockCycles + 2
  {
    if blockCycles % 2 == 0 then blockCycles + 1 else blockCycles + 2
  }

  /** lfs_alignup in 32-bit arithmetic. */
  function AlignUp32(a: nat, m: nat): (r: nat)
    requires m > 0
    ensures r < WORD_LIMIT
  {
    AlignDown((a + m - 1) % WORD_LIMIT, m)
  }

  /** The revision count lfs_dir_alloc gives a pair of which one block starts with the count r. */
  function AllocRev(r: nat, blockCycles: int): (rev: nat)
    requires r < WORD_LIMIT
    ensures rev < WORD_LIMIT
  {
    if blockCycles > 0 then AlignUp32(r, Modulus(blockCycles)) else r
  }

  /** lfs_dir_compact's increment. */
  function Increment(rev: nat): nat {
    (rev + 1) % WORD_LIMIT
  }

  /** Aligned up without wrapping, or, when the sum wraps, to 0. */
  lemma AlignUp32Value(r: nat, m: nat)
    requires r < WORD_LIMIT && 0 < m < TOP
    ensures r + m - 1 < WORD_LIMIT ==> AlignUp32(r, m) % m == 0 && r <= AlignUp32(r, m) < r + m
    ensures r + m - 1 >= WORD_LIMIT ==> AlignUp32(r, m) == 0
  {
    var sum := r + m - 1;
    if sum < WORD_LIMIT {
      AlignDownIsGreatest(sum, m);
    } else {
      DivModUnique(sum, WORD_LIMIT, 1, sum - WORD_LIMIT);
      DivModUnique(sum - WORD_LIMIT, m, 0, sum - WORD_LIMIT);
    }
  }

  /** The first commit of the new pair is newer than anything under the count it started from, wrap-around included. */
  lemma FirstRevIsNewer(r: nat, blockCycles: int)
    requires r < WORD_LIMIT && blockCycles < INT_MAX
    ensures Scmp(Increment(AllocRev(r, blockCycles)), r) > 0
  {
    if blockCycles > 0 {
      var m := Modulus(blockCycles);
      AlignUp32Value(r, m);
      var rev := AllocRev(r, blockCycles);
      if r + m - 1 >= WORD_LIMIT {
        Ahead(1, r, WORD_LIMIT + 1 - r);
      } else {
        Ahead(Increment(rev), r, rev + 1 - r);
      }
    } else {
      Ahead(Increment(r), r, 1);
    }
  }

  /** A count less than half the range ahead is newer. */
  lemma Ahead(a: nat, r: nat, d: nat)
    requires a < WORD_LIMIT && r < WORD_LIMIT && 0 < d < TOP && (a == r + d || a == r + d - WORD_LIMIT)
    ensures Scmp(a, r) == d
  {
    DivModUnique(a - r, WORD_LIMIT, if a == r + d then 0 else -1, d);
  }

  /** lfs_dir_needsrelocation */
  predicate NeedsRelocation(rev: nat, blockCycles: int) {
    blockCycles > 0 && Increment(rev) % Modulus(blockCycles) == 0
  }

  /** The alignment keeps the first compaction from relocating the pair at once, but for one starting count in case
      the modulus divides the greatest count: there the aligned count wraps to 0 with the next step. */
  lemma SeldomEvictedAtOnce(r: nat, blockCycles: int)
    requires r < WORD_LIMIT && blockCycles < INT_MAX
    ensures NeedsRelocation(AllocRev(r, blockCycles), blockCycles) <==>
            blockCycles > 0 && ALL_ONES % Modulus(blockCycles) == 0 && r + Modulus(blockCycles) == WORD_LIMIT
  {
    if blockCycles > 0 {
      hide Modulus, AllocRev, Increment, AlignUp32;
      LevelledSeldomEvicted(r, blockCycles);
    }
  }

  lemma LevelledSeldomEvicted(r: nat, blockCycles: int)
    requires r < WORD_LIMIT && 0 < blockCycles < INT_MAX
    ensures NeedsRelocation(AllocRev(r, blockCycles), blockCycles) <==>
            ALL_ONES % Modulus(blockCycles) == 0 && r + Modulus(blockCycles) == WORD_LIMIT
  {
    var m, rev := Modulus(blockCycles), AllocRev(r, blockCycles);
    AlignUp32Value(r, m);
    if rev == ALL_ONES {
      DivModUnique(WORD_LIMIT, WORD_LIMIT, 1, 0);
      DivModUnique(0, m, 0, 0);
    } else {
      DivModUnique(rev + 1, WORD_LIMIT, 0, rev + 1);
      if r + m - 1 >= WORD_LIMIT {
        DivModUnique(0, m, 0, 0);
      }
      OneBehindMultiple(rev, m);
      if r + m == WORD_LIMIT {
        AlignedGreatest(m);
      }
    }
  }

  lemma OneBehindMultiple(a: nat, m: nat)
    requires m > 1 && a % m == 0
    ensures (a + 1) % m == 1
  {
    DivModUnique(a + 1, m, a / m, 1);
  }

  /** A multiple that is the greatest count is left as it is. */
  lemma AlignedGreatest(m: nat)
    requires 0 < m < TOP
    ensures ALL_ONES % m == 0 ==> AlignUp32(WORD_LIMIT - m, m) == ALL_ONES
  {
    DivModUnique(ALL_ONES, WORD_LIMIT, 0, ALL_ONES);
  }

  /** lfs_dir_alloc with the first commit: whatever the other block holds, a fetch then finds exactly these attributes. */
  method CreateRecycled(k: Codec, erased: Bytes, other: Bytes, blockCycles: int, attrs: seq<Attr>, progSize: nat)
      returns (ok: bool, b: MetadataPair.Disk)
    requires k.Lawful() && AttrsOk(attrs) && Geometry(|erased|, progSize) && |other| >= 4 && blockCycles < INT_MAX
    ensures b[1] == other && (ok ==> Became(k, b, Strip(attrs)))
    ensures ok <==> FitsErased(k, attrs, |erased|)
  {
    var r := Rev(other);
    FirstRevIsNewer(r, blockCycles);
    var rev := Increment(AllocRev(r, blockCycles));
    ok, b := Create(k, erased, other, rev, attrs, progSize);
  }
}
