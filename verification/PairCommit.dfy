/** lfs_dir_relocatingcommit on a pair that stays where it is: in place while that works, by compaction otherwise;
    and the first commit of a fresh pair. Both produce the updates whose interruption is harmless. */
module PairCommit {
  import opened Words
  import opened Wrappers
  import opened MetadataLog
  import opened CommitFormat
  import opened CommitTrail
  import opened CommitWriter
  import opened MetadataPair
  import opened CrashAtomicity
  import opened ForwardCheck

  /** Blocks and program units; commits may use all of a block but the room of a CRC tag. */
  predicate Geometry(size: nat, progSize: nat) {
    0 < progSize < WORD_LIMIT && size % progSize == 0 && size >= 12
  }

  lemma SaneIsInBlock(k: Codec, b: MetadataPair.Disk)
    requires Sane(k, b)
    ensures FetchPair(k, b).InBlock? && FetchPair(k, b).which < 2 && FetchPair(k, b).dir.etag < WORD_LIMIT
  {
    var which: nat, trail, cur :| Holds(k, b, which, trail, cur);
    ResumesAt(k, b, which, trail, cur);
  }

  /** There is room for the attributes behind the last commit, with a CRC tag after them. */
  ghost predicate Fits(k: Codec, b: MetadataPair.Disk, attrs: seq<Attr>)
    requires k.Lawful() && AttrsOk(attrs)
  {
    match FetchPair(k, b)
    case Corrupt => false
    case InBlock(_, dir) => dir.etag < WORD_LIMIT && dir.off + |Encode(k, attrs, dir.etag)| + 8 <= |b[0]|
  }

  /** An erased block of this size has room for a revision count, the attributes and a CRC tag. */
  ghost predicate FitsErased(k: Codec, attrs: seq<Attr>, size: nat)
    requires k.Lawful() && AttrsOk(attrs)
  {
    4 + |Encode(k, attrs, ALL_ONES)| + 8 <= size
  }

  /** The fetch found the block that holds the pair's state erased behind its last commit. */
  ghost predicate RoomErased(k: Codec, b: MetadataPair.Disk, progSize: nat)
    requires k.Lawful() && progSize > 0
  {
    match FetchPair(k, b)
    case Corrupt => false
    case InBlock(which, dir) => which < 2 && dir.etag < WORD_LIMIT && Erased(k, b[which], dir, progSize)
  }

  /** The erased test of the fetch, on the block it settles for. */
  method TestErased(k: Codec, b: MetadataPair.Disk, progSize: nat) returns (erased: bool)
    requires k.Lawful() && Sane(k, b) && progSize > 0
    ensures erased <==> RoomErased(k, b, progSize)
  {
    SaneIsInBlock(k, b);
    var f, _ := FetchBoth(k, b);
    var dir;
    dir, erased := FetchErased(k, b[f.which], progSize);
    assert dir == f.dir;
  }

  /** What an attempt without room leaves in the block: some attributes behind its last commit, with no CRC tag. */
  ghost predicate Left(k: Codec, b: MetadataPair.Disk, left: Bytes) {
    k.Lawful() &&
    match FetchPair(k, b)
    case Corrupt => false
    case InBlock(which, dir) => which < 2 && dir.etag < WORD_LIMIT && exists c :: LeftAt(k, b[which], dir, left, c)
  }

  ghost predicate LeftAt(k: Codec, block: Bytes, dir: Committed, left: Bytes, c: Cursor)
    requires k.Lawful() && dir.etag < WORD_LIMIT
  {
    Agree(block, left, dir.off) && Written(k, left, Resume(dir), c) && c.Ok()
  }

  lemma {:induction false} NothingLeft(k: Codec, b: MetadataPair.Disk)
    requires Sane(k, b)
    ensures FetchPair(k, b).InBlock? && FetchPair(k, b).which < 2 && Left(k, b, b[FetchPair(k, b).which])
  {
    var which: nat, trail, cur :| MetadataPair.Holds(k, b, which, trail, cur);
    NothingLeftAt(k, b, which, trail, cur);
  }

  lemma {:induction false} NothingLeftAt(k: Codec, b: MetadataPair.Disk, which: nat, trail: seq<Sound>, cur: Cursor)
    requires MetadataPair.Holds(k, b, which, trail, cur)
    ensures FetchPair(k, b).InBlock? && FetchPair(k, b).which == which < 2 && Left(k, b, b[which])
  {
    SaneIsInBlock(k, b);
    ResumesAt(k, b, which, trail, cur);
    WalksForward(k, b[which], Start(k, b[which]), trail, cur);
    FreshCommit(k, b[which], cur);
    assert LeftAt(k, b[which], FetchPair(k, b).dir, b[which], cur);
  }

  /** The in-place part: succeeds exactly when the attributes fit behind what the block holds. */
  method TryInPlace(k: Codec, b: MetadataPair.Disk, attrs: seq<Attr>, progSize: nat)
      returns (ok: bool, u: Update, left: Bytes)
    requires k.Lawful() && Sane(k, b) && AttrsOk(attrs) && Geometry(|b[0]|, progSize) && |b[1]| == |b[0]|
    ensures ok ==> Begins(k, b, u) && u == Update.InPlace(u.good, attrs)
    ensures ok <==> Fits(k, b, attrs)
    ensures !ok ==> Left(k, b, left)
  {
    NothingLeft(k, b);
    SaneIsInBlock(k, b);
    var f, _ := FetchBoth(k, b);
    u, left := Update.InPlace([], attrs), b[f.which];
    if f.dir.off > |b[0]| - 8 {
      return false, u, left;
    }
    var dir';
    ghost var trail, cur;
    ok, left, dir', trail, cur := CommitInPlace(k, b[f.which], f.dir, attrs, progSize, |b[0]| - 8);
    u := Update.InPlace(left, attrs);
    assert !ok ==> LeftAt(k, b[f.which], f.dir, left, cur);
  }

  /** The revision count of the block a fetch returns. */
  method CurrentRev(k: Codec, b: MetadataPair.Disk) returns (rev: nat)
    requires k.Lawful() && Sane(k, b)
    ensures FetchPair(k, b).InBlock? && FetchPair(k, b).which < 2 && FetchPair(k, b).dir.etag < WORD_LIMIT
    ensures rev == Rev(b[FetchPair(k, b).which]) < WORD_LIMIT
  {
    SaneIsInBlock(k, b);
    var f, _ := FetchBoth(k, b);
    rev := Rev(b[f.which]);
  }

  /** The compaction part, on the other block once it is erased: succeeds exactly when the log fits. */
  method TryCompaction(k: Codec, b: MetadataPair.Disk, erased: Bytes, attrs: seq<Attr>,
          progSize: nat) returns (ok: bool, u: Update)
    requires k.Lawful() && Sane(k, b) && AttrsOk(attrs) && Geometry(|erased|, progSize)
    ensures ok ==> Begins(k, b, u) && u == Update.Compaction(u.good, attrs)
    ensures ok <==> FitsErased(k, attrs, |erased|)
  {
    var rev := CurrentRev(k, b);
    ok, u := WriteBlock(k, b, erased, (rev + 1) % WORD_LIMIT, attrs, progSize);
  }

  method WriteBlock(k: Codec, ghost b: MetadataPair.Disk, erased: Bytes, rev: nat, attrs: seq<Attr>, progSize: nat)
      returns (ok: bool, u: Update)
    requires k.Lawful() && AttrsOk(attrs) && Geometry(|erased|, progSize)
    requires FetchPair(k, b).InBlock? && FetchPair(k, b).which < 2 && FetchPair(k, b).dir.etag < WORD_LIMIT
    requires rev == (Rev(b[FetchPair(k, b).which]) + 1) % WORD_LIMIT
    ensures ok ==> Begins(k, b, u) && u == Update.Compaction(u.good, attrs)
    ensures ok <==> FitsErased(k, attrs, |erased|)
  {
    var good;
    ghost var trail, cur;
    ok, good, trail, cur := CompactInto(k, erased, rev, attrs, progSize, |erased| - 8);
    u := Update.Compaction(good, attrs);
    if ok { CompactionMayBegin(k, b, good, attrs, trail, cur); }
  }

  lemma CompactionMayBegin(k: Codec, b: MetadataPair.Disk, good: Bytes, attrs: seq<Attr>, trail: seq<Sound>,
          cur: Cursor)
    requires k.Lawful() && FetchPair(k, b).InBlock? && FetchPair(k, b).which < 2 && FetchPair(k, b).dir.etag < WORD_LIMIT
    requires |good| >= 4 && Rev(good) == (Rev(b[FetchPair(k, b).which]) + 1) % WORD_LIMIT
    requires CommitWritten(k, good, Start(k, good), trail, cur, attrs)
    ensures Begins(k, b, Update.Compaction(good, attrs))
  {
  }

  /** The disk with what an attempt left in place of the block that holds the pair's state. */
  ghost predicate AfterAttempt(k: Codec, b: MetadataPair.Disk, mid: MetadataPair.Disk) {
    && k.Lawful() && FetchPair(k, b).InBlock? && FetchPair(k, b).which < 2 && Left(k, b, mid[FetchPair(k, b).which])
    && mid == Put(b, FetchPair(k, b).which, mid[FetchPair(k, b).which])
  }

  /** The in-place route, if the fetch found erased room; `mid` is the disk it leaves without success. */
  method InPlaceRoute(k: Codec, b: MetadataPair.Disk, attrs: seq<Attr>, progSize: nat)
      returns (ok: bool, u: Update, mid: MetadataPair.Disk)
    requires k.Lawful() && Sane(k, b) && AttrsOk(attrs) && Geometry(|b[0]|, progSize) && |b[1]| == |b[0]|
    ensures ok ==> Begins(k, b, u) && u == Update.InPlace(u.good, attrs)
    ensures ok <==> RoomErased(k, b, progSize) && Fits(k, b, attrs)
    ensures !ok ==> AfterAttempt(k, b, mid)
  {
    ok, u, mid := false, Update.InPlace([], attrs), b;
    NothingLeft(k, b);
    var roomErased := TestErased(k, b, progSize);
    if roomErased {
      var left;
      var f, _ := FetchBoth(k, b);
      ok, u, left := TryInPlace(k, b, attrs, progSize);
      if !ok {
        LeftIsLong(k, b, left);
        mid := Put(b, f.which, left);
      }
    }
  }

  lemma {:induction false} LeftIsLong(k: Codec, b: MetadataPair.Disk, left: Bytes)
    requires Left(k, b, left)
    ensures |left| == |b[FetchPair(k, b).which]| >= 4
  {
  }

  /** Writes the update's block: the new contents, exactly. */
  method WriteUpdate(k: Codec, b: MetadataPair.Disk, u: Update) returns (b': MetadataPair.Disk)
    requires k.Lawful() && Sane(k, b) && Begins(k, b, u)
    ensures |u.good| >= 4 && b' == Put(b, Target(k, b, u), u.good) && Became(k, b', NewContents(k, b, u))
    ensures Contents(k, b).Some?
  {
    UpdateCompletes(k, b, u);
    var f, _ := FetchBoth(k, b);
    b' := Put(b, if u.InPlace? then f.which else 1 - f.which, u.good);
  }

  /** Writes a compaction over whatever an attempt left in the other block. */
  method WriteAfterAttempt(k: Codec, b: MetadataPair.Disk, mid: MetadataPair.Disk, u: Update)
      returns (b': MetadataPair.Disk)
    requires k.Lawful() && Sane(k, b) && Begins(k, b, u) && u.Compaction? && AfterAttempt(k, b, mid)
    ensures |u.good| >= 4 && b' == Put(mid, Target(k, b, u), u.good) && Became(k, b', Strip(u.attrs))
  {
    var f, _ := FetchBoth(k, b);
    b' := Put(mid, 1 - f.which, u.good);
    CompactionAfterAttempt(k, b, mid, u);
  }

  lemma {:induction false} CompactionAfterAttempt(k: Codec, b: MetadataPair.Disk, mid: MetadataPair.Disk, u: Update)
    requires Sane(k, b) && Begins(k, b, u) && u.Compaction? && AfterAttempt(k, b, mid)
    ensures |u.good| >= 4 && Became(k, Put(mid, Target(k, b, u), u.good), Strip(u.attrs))
  {
    RevLeft(k, b, mid);
    CompactionOver(k, b, mid, u);
  }

  lemma {:induction false} CompactionOver(k: Codec, b: MetadataPair.Disk, mid: MetadataPair.Disk, u: Update)
    requires Begins(k, b, u) && u.Compaction?
    requires FetchPair(k, b).which < 2 && Rev(mid[FetchPair(k, b).which]) == Rev(b[FetchPair(k, b).which])
    ensures |u.good| >= 4 && Became(k, Put(mid, Target(k, b, u), u.good), Strip(u.attrs))
  {
    var trail, cur :| CommitWritten(k, u.good, Start(k, u.good), trail, cur, u.attrs);
    CompactionPresent(k, mid, FetchPair(k, b).which, u.good, trail, cur, u.attrs);
  }

  /** The attempt leaves the revision count alone. */
  lemma {:induction false} RevLeft(k: Codec, b: MetadataPair.Disk, mid: MetadataPair.Disk)
    requires Sane(k, b) && AfterAttempt(k, b, mid)
    ensures Rev(mid[FetchPair(k, b).which]) == Rev(b[FetchPair(k, b).which])
  {
    var which: nat, trail, cur :| MetadataPair.Holds(k, b, which, trail, cur);
    ResumesAt(k, b, which, trail, cur);
    WalksForward(k, b[which], Start(k, b[which]), trail, cur);
    SameRev(b[which], mid[which], cur.off);
  }

  /** A whole commit: the attributes in place if the block has erased room for them, and else `full`, the log of
      the pair with them, as a new block. `mid` is the disk before that block is written: an attempt in place may have
      left bytes behind. */
  method Commit(k: Codec, b: MetadataPair.Disk, attrs: seq<Attr>, erased: Bytes, full: seq<Attr>, progSize: nat)
      returns (ok: bool, b': MetadataPair.Disk, ghost u: Update, ghost mid: MetadataPair.Disk)
    requires k.Lawful() && Sane(k, b) && AttrsOk(attrs) && AttrsOk(full)
    requires Geometry(|b[0]|, progSize) && |b[1]| == |b[0]| == |erased|
    ensures ok ==> Begins(k, b, u) && |u.good| >= 4
    ensures ok ==> (u.InPlace? <==> RoomErased(k, b, progSize) && Fits(k, b, attrs))
    ensures ok ==> u.attrs == if u.InPlace? then attrs else full
    ensures ok && u.InPlace? ==> b' == Put(b, Target(k, b, u), u.good)
    ensures !(ok && u.InPlace?) ==> AfterAttempt(k, b, mid) && b' == if ok then Put(mid, Target(k, b, u), u.good) else mid
    ensures ok ==> Contents(k, b).Some? && Became(k, b', if u.InPlace? then Contents(k, b).value + Strip(attrs) else Strip(full))
    ensures ok <==> (RoomErased(k, b, progSize) && Fits(k, b, attrs)) || FitsErased(k, full, |erased|)
  {
    var v, disk;
    ok, v, disk := InPlaceRoute(k, b, attrs, progSize);
    mid := disk;
    if ok {
      b' := WriteUpdate(k, b, v);
    } else {
      ok, v := TryCompaction(k, b, erased, full, progSize);
      b' := disk;
      if ok {
        SaneIsFetched(k, b);
        b' := WriteAfterAttempt(k, b, disk, v);
      }
    }
    u := v;
  }

  /** A fresh pair: a first commit in one block while the other holds nothing readable, or the commits of an
      earlier use under an older revision. */
  method Create(k: Codec, erased: Bytes, other: Bytes, rev: nat, attrs: seq<Attr>, progSize: nat)
      returns (ok: bool, b: MetadataPair.Disk)
    requires k.Lawful() && AttrsOk(attrs) && rev < WORD_LIMIT && Geometry(|erased|, progSize) && |other| >= 4
    requires NextCommit(k, other, Start(k, other)) == None || Scmp(rev, Rev(other)) > 0
    ensures b[1] == other && (ok ==> Rev(b[0]) == rev && Became(k, b, Strip(attrs)))
    ensures ok <==> FitsErased(k, attrs, |erased|)
  {
    var good;
    ghost var trail, cur;
    ok, good, trail, cur := CompactInto(k, erased, rev, attrs, progSize, |erased| - 8);
    b := [good, other];
    if ok {
      assert Holds(k, b, 0, trail, cur);
      WholeAdds(trail, attrs);
      HeldBecame(k, b, 0, trail, cur, Strip(attrs));
    }
  }
}
