/** The erased test of a fetch: whether the rest of a metadata block may be programmed, told from the forward CRC that
    the last commit left over the next program unit. */
module ForwardCheck {
  import opened Bits
  import opened Words
  import opened Wrappers
  import opened Tags
  import opened MetadataLog
  import opened CommitFormat
  import opened CommitTrail
  import opened CommitWriter
  import opened MetadataPair

  // ---------------------------------------------------------------- the checksum of a stretch of a block

  /** How much of block[off..off + size] is read, eight bytes at a time, before a read runs over the end. */
  function Readable(off: nat, size: nat, blockSize: nat): (n: nat)
    ensures n > 0 ==> off + n <= blockSize
  {
    if off + size <= blockSize then size
    else if off <= blockSize then (blockSize - off) / 8 * 8
    else 0
  }

  function Forward(k: Codec, block: Bytes, off: nat, size: nat): nat {
    var n := Readable(off, size, |block|);
    k.crc(ALL_ONES, if n == 0 then [] else block[off..off + n])
  }

  /** lfs_bd_crc over a stretch of a block; what an error leaves is the checksum up to there. */
  method BlockCrc(k: Codec, block: Bytes, off: nat, size: nat) returns (crc: nat)
    requires k.Lawful()
    ensures crc == Forward(k, block, off, size)
  {
    crc := ALL_ONES;
    if size == 0 || off >= |block| {
      return;
    }
    var i := 0;
    assert block[off..off] == [];
    while i < size
      invariant i <= size && off + i <= |block| && (i % 8 == 0 || i == size)
      invariant crc == k.crc(ALL_ONES, block[off..off + i])
    {
      var diff := Min(size - i, 8);
      if off + i + diff > |block| {
        ReadableSoFar(off, size, |block|, i);
        return;
      }
      CrcGoesOn(k, block, off, i, diff);
      crc := k.crc(crc, block[off + i..off + i + diff]);
      i := i + diff;
    }
  }

  lemma ReadableSoFar(off: nat, size: nat, blockSize: nat, i: nat)
    requires i < size && i % 8 == 0 && off + i <= blockSize < off + i + Min(size - i, 8)
    ensures Readable(off, size, blockSize) == i
  {
    DivModUnique(blockSize - off, 8, i / 8, blockSize - off - i);
  }

  lemma CrcGoesOn(k: Codec, block: Bytes, off: nat, i: nat, diff: nat)
    requires k.Lawful() && off + i + diff <= |block|
    ensures k.crc(ALL_ONES, block[off..off + i + diff]) ==
            k.crc(k.crc(ALL_ONES, block[off..off + i]), block[off + i..off + i + diff])
  {
    var a, b := block[off..off + i], block[off + i..off + i + diff];
    assert block[off..off + i + diff] == a + b;
    assert k.crc(ALL_ONES, a + b) == k.crc(k.crc(ALL_ONES, a), b);
  }

  // ---------------------------------------------------------------- the test

  /** The forward CRC read last: the size of the unit and its checksum. */
  function LastForward(log: seq<Attr>): Option<(nat, nat)> {
    if log == [] then None
    else
      var a := log[|log| - 1];
      if a.tag.typ == TYPE_FCRC && |a.data| >= 8 then Some((FromLe32(a.data[..4]), FromLe32(a.data[4..8])))
      else LastForward(log[..|log| - 1])
  }

  predicate IsForward(a: Attr) {
    a.tag.typ == 0x5ff && |a.data| >= 8
  }

  /** It is one, and none stands behind it. */
  lemma {:induction false} LastForwardIs(log: seq<Attr>) returns (i: nat)
    ensures match LastForward(log)
      case Some((size, crc)) => i < |log| && IsForward(log[i]) && (forall j | i < j < |log| :: !IsForward(log[j]))
                                && size == FromLe32(log[i].data[..4]) && crc == FromLe32(log[i].data[4..8])
      case None => forall j | 0 <= j < |log| :: !IsForward(log[j])
  {
    hide FromLe32;
    if log == [] {
      i := 0;
    } else if IsForward(log[|log| - 1]) {
      i := |log| - 1;
    } else {
      i := LastForwardIs(log[..|log| - 1]);
    }
  }

  /** The tag at the cursor is not there yet: its valid bit is not the one expected. */
  predicate Unprogrammed(k: Codec, block: Bytes, c: Cursor)
    requires k.Lawful() && c.Ok()
  {
    c.off + 4 <= |block| && k.load(block[c.off..c.off + 4], c.ptag) >= TOP
  }

  /** Behind the last commit, at the start of a program unit, nothing was programmed, and that unit still has the
      checksum the forward CRC gives. */
  predicate Erased(k: Codec, block: Bytes, dir: Committed, progSize: nat)
    requires k.Lawful() && dir.etag < WORD_LIMIT && progSize > 0
  {
    && dir.off != 0 && dir.off % progSize == 0 && Unprogrammed(k, block, Resume(dir))
    && match LastForward(dir.log)
       case None => false
       case Some((size, crc)) => Forward(k, block, dir.off, size) == crc
  }

  /** Where the fetch loop stands: right behind the last commit, or among entries that follow it. */
  ghost predicate Progress(k: Codec, block: Bytes, c: Cursor, dir: Committed, fcrc: Option<(nat, nat)>) {
    && k.Lawful() && c.Ok() && dir.etag < WORD_LIMIT
    && fcrc == LastForward(dir.log + c.pending)
    && (WasCrc(c.ptag) <==> dir.off != 0 && c.pending == [])
    && (dir.off != 0 && c.pending == [] ==> c == Resume(dir))
    && (dir.off != 0 && c.pending != [] ==> !Unprogrammed(k, block, Resume(dir)))
  }

  /** lfs_tag_type2(ptag) == LFS_TYPE_CCRC, whatever the expected valid bit. */
  predicate WasCrc(ptag: nat) {
    IsCrc(Unpack(ptag % TOP))
  }

  lemma TagBefore(t: Tag)
    requires TagFits(t)
    ensures WasCrc(Pack(t)) <==> IsCrc(t)
    ensures WasCrc(Expected(t)) <==> IsCrc(t)
  {
    PackRoundTrip(t);
    DivModUnique(Pack(t), TOP, 0, Pack(t));
    DivModUnique(Pack(t) + TOP, TOP, 1, Pack(t));
  }

  lemma NoTagBefore()
    ensures !WasCrc(ALL_ONES)
  {
    DivModUnique(ALL_ONES, TOP, 1, 0x7fff_ffff);
    assert Unpack(0x7fff_ffff).typ == 0x7ff;
  }

  /** When the loop stops, the tag before was a CRC just when it stands right behind the last commit. */
  lemma AtStop(k: Codec, block: Bytes, c: Cursor, dir: Committed, fcrc: Option<(nat, nat)>)
    requires Progress(k, block, c, dir, fcrc)
    ensures Unprogrammed(k, block, c) && WasCrc(c.ptag) <==> dir.off != 0 && Unprogrammed(k, block, Resume(dir)) && c.pending == []
    ensures dir.off != 0 && Unprogrammed(k, block, Resume(dir)) ==> c.pending == []
    ensures c.pending == [] ==> fcrc == LastForward(dir.log)
  {
    assert dir.log + [] == dir.log;
  }

  /** The fetch loop: the commits, and whether it ends right behind the last one at a tag not yet programmed. */
  method ReadAll(k: Codec, block: Bytes) returns (dir: Committed, maybeErased: bool, fcrc: Option<(nat, nat)>)
    requires k.Lawful() && |block| >= 4
    ensures dir == Fetch(k, block) && dir.etag < WORD_LIMIT
    ensures maybeErased <==> dir.off != 0 && Unprogrammed(k, block, Resume(dir))
    ensures maybeErased ==> fcrc == LastForward(dir.log)
  {
    dir, maybeErased, fcrc := NOTHING, false, None;
    var c := Start(k, block);
    NoTagBefore();
    while true
      invariant Progress(k, block, c, dir, fcrc) && Scan(k, block, c, dir) == Fetch(k, block)
      decreases |block| - c.off
    {
      var item := ReadItem(k, block, c);
      if item == Stop {
        AtStop(k, block, c, dir, fcrc);
        maybeErased := Unprogrammed(k, block, c) && WasCrc(c.ptag);
        return;
      }
      dir, fcrc := Advance(k, block, c, dir, fcrc);
      c := item.next;
    }
  }

  /** What one item adds to the directory and to the forward CRC seen last. */
  method Advance(k: Codec, block: Bytes, c: Cursor, dir: Committed, fcrc: Option<(nat, nat)>)
      returns (dir': Committed, fcrc': Option<(nat, nat)>)
    requires Progress(k, block, c, dir, fcrc) && ReadItem(k, block, c) != Stop
    ensures Progress(k, block, ReadItem(k, block, c).next, dir', fcrc')
    ensures Scan(k, block, ReadItem(k, block, c).next, dir') == Scan(k, block, c, dir)
  {
    dir', fcrc' := dir, fcrc;
    TagBefore(Unpack(k.load(block[c.off..c.off + 4], c.ptag)));
    Repacked(k.load(block[c.off..c.off + 4], c.ptag));
    match ReadItem(k, block, c)
    case Entry(next) =>
      var a := next.pending[|next.pending| - 1];
      ForwardSnoc(dir.log, c.pending, a);
      if a.tag.typ == TYPE_FCRC && |a.data| >= 8 {
        fcrc' := Some((FromLe32(a.data[..4]), FromLe32(a.data[4..8])));
      }
    case Commit(next, attrs) =>
      dir' := Committed(dir.log + attrs, next.off, next.ptag);
      assert dir'.log + [] == dir.log + c.pending;
  }

  lemma Repacked(w: nat)
    ensures TagFits(Unpack(w))
  {
  }

  lemma ForwardSnoc(log: seq<Attr>, pending: seq<Attr>, a: Attr)
    ensures LastForward(log + (pending + [a])) ==
            if a.tag.typ == TYPE_FCRC && |a.data| >= 8 then Some((FromLe32(a.data[..4]), FromLe32(a.data[4..8])))
            else LastForward(log + pending)
  {
    var all := log + (pending + [a]);
    assert all[..|all| - 1] == log + pending && all[|all| - 1] == a;
  }

  /** The fetch loop with its erased test. */
  method FetchErased(k: Codec, block: Bytes, progSize: nat) returns (dir: Committed, erased: bool)
    requires k.Lawful() && |block| >= 4 && progSize > 0
    ensures dir == Fetch(k, block) && dir.etag < WORD_LIMIT
    ensures erased <==> Erased(k, block, dir, progSize)
    // what may be programmed next starts on a program unit, behind a commit, with the unit on record
    ensures erased ==> dir.off != 0 && dir.off % progSize == 0 && Unprogrammed(k, block, Resume(dir))
    ensures erased ==> exists size, crc :: LastForward(dir.log) == Some((size, crc)) && crc == Forward(k, block, dir.off, size)
  {
    var maybeErased, fcrc;
    erased := false;
    dir, maybeErased, fcrc := ReadAll(k, block);
    if maybeErased && dir.off % progSize == 0 && fcrc.Some? {
      var crc := BlockCrc(k, block, dir.off, fcrc.value.0);
      erased := crc == fcrc.value.1;
    }
  }

  // ---------------------------------------------------------------- what it tells

  /** The unit at off is, in y, what it is in x. */
  ghost predicate SameUnit(x: Bytes, y: Bytes, off: nat, n: nat) {
    off + n <= |x| && off + n <= |y| && y[off..off + n] == x[off..off + n]
  }

  /** The checksum tells the unit from any other content it may have got. */
  ghost predicate Telling(k: Codec, x: Bytes, y: Bytes, off: nat, n: nat) {
    off + n <= |x| && off + n <= |y| &&
    (k.crc(ALL_ONES, x[off..off + n]) == k.crc(ALL_ONES, y[off..off + n]) ==> SameUnit(x, y, off, n))
  }

  lemma {:induction false} ForwardOfSampled(k: Codec, image: Bytes, at: nat, progSize: nat, front: seq<Attr>)
    requires k.Lawful() && at + progSize <= |image| && progSize < WORD_LIMIT
    ensures LastForward(front + [ForwardCrc(k, image, at, progSize)]) ==
            Some((progSize, k.crc(ALL_ONES, image[at..at + progSize])))
  {
    var crc := k.crc(ALL_ONES, image[at..at + progSize]);
    var data := ToLe32(progSize) + ToLe32(crc);
    assert data[..4] == ToLe32(progSize) && data[4..8] == ToLe32(crc);
    Le32RoundTrip(progSize);
    Le32RoundTrip(crc);
  }

  lemma {:induction false} LastTaken(done: Committed, trail: seq<Sound>)
    requires trail != []
    ensures var f := trail[|trail| - 1];
      exists front :: TakeAll(done, trail).log == front + f.attrs
  {
    var before, f := trail[..|trail| - 1], trail[|trail| - 1];
    assert trail == before + [f];
    TakeAllConcat(done, before, [f]);
    assert [f][1..] == [];
    assert TakeAll(TakeAll(done, before), [f]) == Take(TakeAll(done, before), f);
  }

  /** The forward CRC on record is the one that closes the last commit. */
  lemma {:induction false} ForwardOfTrail(k: Codec, image: Bytes, done: Committed, trail: seq<Sound>, cur: Cursor,
          progSize: nat)
    requires trail != [] && Sampled(k, image, trail[|trail| - 1], cur, progSize)
    ensures LastForward(TakeAll(done, trail).log) ==
            Some((progSize, k.crc(ALL_ONES, image[cur.off..cur.off + progSize])))
  {
    LastTaken(done, trail);
    var attrs := trail[|trail| - 1].attrs;
    var front :| TakeAll(done, trail).log == front + attrs;
    var rest := attrs[..|attrs| - 1];
    assert front + attrs == (front + rest) + [ForwardCrc(k, image, cur.off, progSize)];
    ForwardOfSampled(k, image, cur.off, progSize, front + rest);
  }

  /** The valid bit asked for shows on the first byte alone. */
  lemma PerturbedIsUnprogrammed(k: Codec, y: Bytes, cur: Cursor, first: Byte)
    requires k.Lawful() && cur.Ok() && cur.off + 4 <= |y| && Perturbed(cur.ptag, first) && y[cur.off] == first
    ensures Unprogrammed(k, y, cur)
  {
    assert y[cur.off..cur.off + 4][0] == first;
  }

  /** A block whose commits are intact is fetched as erased if and only if its next program unit is as it was sampled
      when the last commit was written: a program of it that was cut short is noticed. */
  lemma {:induction false} ErasedIffAsSampled(k: Codec, good: Bytes, y: Bytes, trail: seq<Sound>, cur: Cursor,
          progSize: nat)
    requires k.Lawful() && |good| >= 4 && cur.Ok() && trail != [] && Walks(k, good, Start(k, good), trail, cur)
    requires Sampled(k, good, trail[|trail| - 1], cur, progSize) && cur.off % progSize == 0
    requires Agree(good, y, cur.off) && NextCommit(k, y, cur) == None
    requires Telling(k, good, y, cur.off, progSize)
    ensures Fetch(k, y) == TakeAll(NOTHING, trail) && Resume(Fetch(k, y)) == cur
    ensures Erased(k, y, Fetch(k, y), progSize) <==> cur.off + 4 <= |y| && SameUnit(good, y, cur.off, progSize)
  {
    var dir := TakeAll(NOTHING, trail);
    IntactIsFetched(k, good, y, trail, cur);
    ForwardOfTrail(k, good, NOTHING, trail, cur, progSize);
    assert dir.off == cur.off && dir.etag == cur.ptag;
    UnitDecides(k, good, y, dir, progSize);
  }

  /** With the unit's checksum on record, and a valid bit that its first byte does not give, the unit decides. */
  lemma {:induction false} UnitDecides(k: Codec, good: Bytes, y: Bytes, dir: Committed, progSize: nat)
    requires k.Lawful() && dir.etag < WORD_LIMIT && 0 < progSize && dir.off > 0 && dir.off % progSize == 0
    requires dir.off + progSize <= |good| && Perturbed(dir.etag, good[dir.off])
    requires LastForward(dir.log) == Some((progSize, k.crc(ALL_ONES, good[dir.off..dir.off + progSize])))
    requires Telling(k, good, y, dir.off, progSize)
    ensures Erased(k, y, dir, progSize) <==> dir.off + 4 <= |y| && SameUnit(good, y, dir.off, progSize)
  {
    var off := dir.off;
    assert Forward(k, y, off, progSize) == k.crc(ALL_ONES, y[off..off + progSize]);
    if off + 4 <= |y| && SameUnit(good, y, off, progSize) {
      assert y[off] == y[off..off + progSize][0] == good[off..off + progSize][0];
      PerturbedIsUnprogrammed(k, y, Resume(dir), good[off]);
    }
  }

  lemma {:induction false} IntactIsFetched(k: Codec, good: Bytes, y: Bytes, trail: seq<Sound>, cur: Cursor)
    requires k.Lawful() && |good| >= 4 && cur.Ok() && trail != [] && Walks(k, good, Start(k, good), trail, cur)
    requires Agree(good, y, cur.off) && NextCommit(k, y, cur) == None
    ensures |y| >= 4 && Fetch(k, y) == TakeAll(NOTHING, trail) && Resume(Fetch(k, y)) == cur && cur.off > 0
  {
    WalksForward(k, good, Start(k, good), trail, cur);
    AgreeSlice(good, y, cur.off, 0, 4);
    assert good[..4] == good[0..4] && y[..4] == y[0..4];
    WalksFrame(k, good, y, Start(k, good), trail, cur);
    ScanWalks(k, y, Start(k, y), trail, cur, NOTHING);
    TakeAllEnd(k, y, Start(k, y), trail, cur, NOTHING);
  }

  /** So whatever was written behind a block's earlier commits, a fetch of the block trusts the rest of it if and only
      if the next program unit is still as it was found then. */
  lemma {:induction false} NextProgramIsNoticed(k: Codec, block: Bytes, good: Bytes, y: Bytes, earlier: seq<Sound>,
          entry: Cursor, trail: seq<Sound>, cur: Cursor, attrs: seq<Attr>, progSize: nat)
    requires k.Lawful() && |good| >= 4 && entry.Ok() && Walks(k, good, Start(k, good), earlier, entry)
    requires CommitWritten(k, good, entry, trail, cur, attrs) && Recorded(k, block, good, trail, cur, progSize)
    requires progSize > 0 && cur.off % progSize == 0 && cur.off < |good|
    requires Agree(good, y, cur.off) && NextCommit(k, y, cur) == None
    requires Telling(k, block, y, cur.off, progSize)
    ensures Fetch(k, y) == TakeAll(NOTHING, earlier + trail) && Resume(Fetch(k, y)) == cur
    ensures Erased(k, y, Fetch(k, y), progSize) <==> cur.off + 4 <= |y| && SameUnit(block, y, cur.off, progSize)
  {
    WalksOn(k, good, Start(k, good), earlier, entry, trail, cur);
    LastOfBoth(earlier, trail);
    RecordedUnit(k, block, good, y, trail, cur, progSize);
    ErasedIffAsSampled(k, good, y, earlier + trail, cur, progSize);
  }

  lemma LastOfBoth<T>(s: seq<T>, t: seq<T>)
    requires t != []
    ensures (s + t)[|s + t| - 1] == t[|t| - 1]
  {
  }

  /** The unit on record is the one still in the written block. */
  lemma {:induction false} RecordedUnit(k: Codec, block: Bytes, good: Bytes, y: Bytes, trail: seq<Sound>, cur: Cursor,
          progSize: nat)
    requires Recorded(k, block, good, trail, cur, progSize) && cur.off < |good|
    requires Telling(k, block, y, cur.off, progSize)
    ensures trail != [] && Sampled(k, good, trail[|trail| - 1], cur, progSize) && Telling(k, good, y, cur.off, progSize)
    ensures SameUnit(block, y, cur.off, progSize) <==> SameUnit(good, y, cur.off, progSize)
  {
    SampledTail(k, block, good, cur.off, trail[|trail| - 1], cur, progSize);
    SameTails(block, good, cur.off, progSize);
    TellingAlike(k, block, good, y, cur.off, progSize);
  }

  lemma SameTails(a: Bytes, b: Bytes, p: nat, n: nat)
    requires p + n <= |a| == |b| && a[p..] == b[p..]
    ensures SameUnit(a, b, p, n)
  {
    TailSlice(a, p, p, p + n);
    TailSlice(b, p, p, p + n);
  }

  lemma TellingAlike(k: Codec, a: Bytes, b: Bytes, y: Bytes, off: nat, n: nat)
    requires SameUnit(a, b, off, n)
    ensures Telling(k, a, y, off, n) <==> Telling(k, b, y, off, n)
    ensures SameUnit(a, y, off, n) <==> SameUnit(b, y, off, n)
  {
  }
}
