/** A metadata pair on disk: choosing between its two blocks, the two ways of updating it, and what a
    power cut during either leaves behind. */
module MetadataPair {
  import opened Bits
  import opened Words
  import opened Wrappers
  import opened MetadataLog
  import opened CommitFormat
  import opened CommitTrail
  import opened CommitWriter

  // ---------------------------------------------------------------- fetching

  /** The two blocks of a pair. */
  type Disk = b: seq<Bytes> | |b| == 2 && |b[0]| >= 4 && |b[1]| >= 4 witness [[0, 0, 0, 0], [0, 0, 0, 0]]

  /** The pair with one block replaced. */
  function Put(b: Disk, i: nat, x: Bytes): (b': Disk)
    requires i < 2 && |x| >= 4
    ensures b'[i] == x && b'[1 - i] == b[1 - i]
  {
    b[i := x]
  }

  function Rev(block: Bytes): (n: nat)
    requires |block| >= 4
    ensures n < WORD_LIMIT
  {
    FromLe32(block[..4])
  }

  /** lfs_scmp: the distance between two revision counts, ignoring overflow. */
  function Scmp(a: nat, b: nat): int {
    var d := (a - b) % WORD_LIMIT;
    if d < TOP then d else d - WORD_LIMIT
  }

  datatype Fetched = Corrupt | InBlock(which: nat, dir: Committed)

  function FetchPair(k: Codec, b: Disk): Fetched
    requires k.Lawful()
  {
    var r := if Scmp(Rev(b[1]), Rev(b[0])) > 0 then 1 else 0;
    if Fetch(k, b[r]).off != 0 then InBlock(r, Fetch(k, b[r]))
    else if Fetch(k, b[1 - r]).off != 0 then InBlock(1 - r, Fetch(k, b[1 - r]))
    else Corrupt
  }

  /** The newer of the two blocks; a count not read so far stands at 0. */
  method PickNewest(rev0: nat, rev1: nat) returns (r: nat)
    requires rev0 < WORD_LIMIT && rev1 < WORD_LIMIT
    ensures r == if Scmp(rev1, rev0) > 0 then 1 else 0
  {
    var found := [rev0, rev1];
    var revs := [0, 0];
    r := 0;
    for i := 0 to 2
      invariant |revs| == 2 && (i == 0 ==> revs == [0, 0]) && (i == 1 ==> revs == [rev0, 0])
      invariant i <= 1 ==> r == 0
      invariant i == 2 ==> r == if Scmp(rev1, rev0) > 0 then 1 else 0
    {
      revs := revs[i := found[i]];
      if Scmp(revs[i], revs[(i + 1) % 2]) > 0 {
        r := i;
      }
    }
  }

  /** lfs_dir_fetchmatch on a pair: the newer block, and the other one if that has no commit. */
  method FetchBoth(k: Codec, b: Disk) returns (f: Fetched, tail: Option<Attr>)
    requires k.Lawful()
    ensures f == FetchPair(k, b) && tail == if f.InBlock? then LastTail(f.dir.log) else None
  {
    var r := PickNewest(Rev(b[0]), Rev(b[1]));
    ghost var newer, older := Fetch(k, b[r]), Fetch(k, b[1 - r]);
    for i := 0 to 2
      invariant (i >= 1 ==> newer.off == 0) && (i >= 2 ==> older.off == 0)
    {
      var which := if i == 0 then r else 1 - r;
      var dir, blockTail := FetchBlock(k, b[which]);
      if dir.off != 0 {
        return InBlock(which, dir), blockTail;
      }
    }
    f, tail := Corrupt, None;
  }

  /** Neither revision count is more recent than the other: they are equal or half the range apart. */
  predicate Tied(b: Disk) {
    Scmp(Rev(b[0]), Rev(b[1])) <= 0 && Scmp(Rev(b[1]), Rev(b[0])) <= 0
  }

  predicate SameBlock(f: Fetched, g: Fetched) {
    match f
    case Corrupt => g == Corrupt
    case InBlock(which, dir) => which < 2 && g == InBlock(1 - which, dir)
  }

  /** The order in which the two blocks are named decides what a fetch returns just when both have commits and their
      revision counts are tied; then it is the one named first. */
  lemma {:induction false} OrderDecides(k: Codec, b: Disk)
    requires k.Lawful()
    ensures SameBlock(FetchPair(k, b), FetchPair(k, [b[1], b[0]])) <==>
            !(Tied(b) && Fetch(k, b[0]).off != 0 && Fetch(k, b[1]).off != 0)
    ensures Tied(b) && Fetch(k, b[0]).off != 0 ==> FetchPair(k, b) == InBlock(0, Fetch(k, b[0]))
  {
    ScmpAntisymmetric(Rev(b[0]), Rev(b[1]));
  }

  /** What the pair holds, forward checksums aside. */
  function Contents(k: Codec, b: Disk): Option<seq<Attr>>
    requires k.Lawful()
  {
    match FetchPair(k, b)
    case Corrupt => None
    case InBlock(_, dir) => Some(Strip(dir.log))
  }

  // ---------------------------------------------------------------- updating

  /** `good` holds a complete commit of the attributes from `entry` on, and no commit after it. */
  ghost predicate CommitWritten(k: Codec, good: Bytes, entry: Cursor, trail: seq<Sound>, cur: Cursor, attrs: seq<Attr>) {
    && k.Lawful() && entry.Ok() && cur.Ok()
    && Walks(k, good, entry, trail, cur) && NextCommit(k, good, cur) == None && OneCommit(trail, attrs)
  }

  /** What follows the commit is as it was, and the commit has it on record. */
  ghost predicate Recorded(k: Codec, block: Bytes, good: Bytes, trail: seq<Sound>, cur: Cursor, progSize: nat) {
    && cur.off <= |block| == |good| && good[cur.off..] == block[cur.off..]
    && (cur.off < |block| ==> trail != [] && Sampled(k, block, trail[|trail| - 1], cur, progSize))
  }

  /** Attributes and closing CRC tags, from `entry` on. */
  method WriteCommit(k: Codec, block: Bytes, entry: Cursor, attrs: seq<Attr>, progSize: nat, commitEnd: nat)
      returns (ok: bool, good: Bytes, cur: Cursor, ghost trail: seq<Sound>)
    requires k.Lawful() && entry.Ok() && entry.pending == [] && AttrsOk(attrs)
    requires 0 < progSize < WORD_LIMIT && |block| % progSize == 0 && entry.off <= commitEnd && commitEnd + 8 <= |block|
    ensures Agree(block, good, entry.off)
    ensures ok ==> CommitWritten(k, good, entry, trail, cur, attrs)
    ensures !ok && commitEnd + 8 == |block| ==> Written(k, good, entry, cur) && cur.Ok()
    ensures ok ==> entry.off <= cur.off && cur.off % progSize == 0 && Recorded(k, block, good, trail, cur, progSize)
    ensures commitEnd + 8 == |block| ==> (ok <==> entry.off + |Encode(k, attrs, entry.ptag)| <= commitEnd)
  {
    trail := [];
    ok, good, cur := CommitAttrs(k, block, entry, attrs, commitEnd);
    if ok {
      ghost var mid, at := good, cur;
      WrittenIsBehind(k, good, entry, cur);
      CommitEndBounds(cur.off, |block|, progSize);
      ok, good, cur, trail := CommitCrc(k, good, entry, cur, progSize, commitEnd);
      AgreeTwice(block, mid, good, entry.off, entry.off);
      if ok {
        TailsAgree(mid, block, at.off, cur.off);
        if cur.off < |block| {
          SampledTail(k, mid, block, at.off, trail[|trail| - 1], cur, progSize);
        }
      }
    }
  }

  function Resume(dir: Committed): Cursor {
    Cursor(dir.off, dir.etag, ALL_ONES, [])
  }

  /** An in-place commit: lfs_dir_relocatingcommit while the block still has erased room. */
  method CommitInPlace(k: Codec, block: Bytes, dir: Committed, attrs: seq<Attr>, progSize: nat, commitEnd: nat)
      returns (ok: bool, good: Bytes, dir': Committed, ghost trail: seq<Sound>, ghost cur: Cursor)
    requires k.Lawful() && dir.etag < WORD_LIMIT && AttrsOk(attrs)
    requires 0 < progSize < WORD_LIMIT && |block| % progSize == 0 && dir.off <= commitEnd && commitEnd + 8 <= |block|
    ensures Agree(block, good, dir.off)
    ensures ok ==> CommitWritten(k, good, Resume(dir), trail, cur, attrs)
    ensures !ok && commitEnd + 8 == |block| ==> Written(k, good, Resume(dir), cur) && cur.Ok()
    ensures ok ==> dir' == TakeAll(dir, trail) && Strip(dir'.log) == Strip(dir.log) + Strip(attrs)
    ensures ok ==> cur.off % progSize == 0 && Recorded(k, block, good, trail, cur, progSize)
    ensures commitEnd + 8 == |block| ==> (ok <==> dir.off + |Encode(k, attrs, dir.etag)| <= commitEnd)
  {
    var c;
    ok, good, c, trail := WriteCommit(k, block, Resume(dir), attrs, progSize, commitEnd);
    cur := c;
    dir' := Scan(k, good, Resume(dir), dir);
    if ok {
      ScanWalks(k, good, Resume(dir), trail, cur, dir);
      StripTrail(dir, trail, attrs);
    }
  }

  /** The writing part of lfs_dir_compact: header, attributes, closing CRC tags on an erased block. */
  method CompactInto(k: Codec, erased: Bytes, rev: nat, attrs: seq<Attr>, progSize: nat, commitEnd: nat)
      returns (ok: bool, good: Bytes, ghost trail: seq<Sound>, ghost cur: Cursor)
    requires k.Lawful() && rev < WORD_LIMIT && AttrsOk(attrs)
    requires 0 < progSize < WORD_LIMIT && |erased| % progSize == 0 && 4 <= commitEnd && commitEnd + 8 <= |erased|
    ensures |good| == |erased| && (ok ==> Rev(good) == rev)
    ensures ok ==> CommitWritten(k, good, Start(k, good), trail, cur, attrs)
    ensures commitEnd + 8 == |erased| ==> (ok <==> 4 + |Encode(k, attrs, ALL_ONES)| <= commitEnd)
    ensures ok ==> cur.off % progSize == 0 && Recorded(k, erased, good, trail, cur, progSize)
  {
    var block := Patch(erased, 0, ToLe32(rev));
    assert block[..4] == ToLe32(rev);
    Le32RoundTrip(rev);
    var c;
    assert block[4..] == erased[4..];
    ok, good, c, trail := WriteCommit(k, block, Start(k, block), attrs, progSize, commitEnd);
    cur := c;
    assert good[..4] == block[..4];
    if ok {
      HeaderAside(k, erased, block, good, trail, cur, progSize);
    }
  }

  /** The revision count in front leaves what follows the commit alone. */
  lemma HeaderAside(k: Codec, erased: Bytes, block: Bytes, good: Bytes, trail: seq<Sound>, cur: Cursor, progSize: nat)
    requires |block| == |erased| >= 4 && block[4..] == erased[4..] && 4 <= cur.off
    requires Recorded(k, block, good, trail, cur, progSize)
    ensures Recorded(k, erased, good, trail, cur, progSize)
  {
    TailsAgree(block, erased, 4, cur.off);
    if cur.off < |block| {
      SampledTail(k, block, erased, 4, trail[|trail| - 1], cur, progSize);
    }
  }

  lemma {:induction false} TakeAllLog(done: Committed, trail: seq<Sound>)
    requires forall i | 0 <= i < |trail| :: Strip(trail[i].attrs) == []
    ensures Strip(TakeAll(done, trail).log) == Strip(done.log)
    decreases |trail|
  {
    if trail != [] {
      StripConcat(done.log, trail[0].attrs);
      assert Strip(done.log) + [] == Strip(done.log);
      TakeAllLog(Take(done, trail[0]), trail[1..]);
    }
  }

  /** However much of a commit's trail is taken, its attributes come all at once or not at all. */
  lemma StripTrail(done: Committed, trail: seq<Sound>, attrs: seq<Attr>)
    requires trail != [] && Strip(trail[0].attrs) == Strip(attrs)
    requires forall i | 1 <= i < |trail| :: Strip(trail[i].attrs) == []
    ensures Strip(TakeAll(done, trail).log) == Strip(done.log) + Strip(attrs)
  {
    StripConcat(done.log, trail[0].attrs);
    TakeAllLog(Take(done, trail[0]), trail[1..]);
  }

  // ---------------------------------------------------------------- the state of a pair

  /** Block `which` holds the pair's state: its commits make up the trail, and the other block
      has no commit or an older revision. */
  ghost predicate Holds(k: Codec, b: Disk, which: nat, trail: seq<Sound>, cur: Cursor) {
    && k.Lawful() && which < 2 && trail != [] && cur.Ok()
    && Walks(k, b[which], Start(k, b[which]), trail, cur) && NextCommit(k, b[which], cur) == None
    && (NextCommit(k, b[1 - which], Start(k, b[1 - which])) == None || Scmp(Rev(b[which]), Rev(b[1 - which])) > 0)
  }

  ghost predicate Sane(k: Codec, b: Disk) {
    exists which, trail, cur :: Holds(k, b, which, trail, cur)
  }

  lemma ScmpAntisymmetric(a: nat, b: nat)
    requires a < WORD_LIMIT && b < WORD_LIMIT
    ensures Scmp(a, b) > 0 <==> Scmp(b, a) < 0 && (a - b) % WORD_LIMIT != TOP
    ensures (a - b) % WORD_LIMIT == TOP ==> Scmp(a, b) < 0 && Scmp(b, a) < 0
    ensures Scmp(a, b) == 0 <==> a == b
    ensures Scmp((b + 1) % WORD_LIMIT, b) == 1
    // it is the difference as a signed word
    ensures 0 <= Scmp(a, b) + TOP < 2 * TOP && (Scmp(a, b) - (a - b)) % WORD_LIMIT == 0
  {
    if a >= b {
      DivModUnique(a - b, WORD_LIMIT, 0, a - b);
      if a > b { DivModUnique(b - a, WORD_LIMIT, -1, b - a + WORD_LIMIT); }
    } else {
      DivModUnique(a - b, WORD_LIMIT, -1, a - b + WORD_LIMIT);
      DivModUnique(b - a, WORD_LIMIT, 0, b - a);
    }
  }

  lemma {:induction false} TakeAllEnd(k: Codec, block: Bytes, c: Cursor, trail: seq<Sound>, cur: Cursor,
          done: Committed)
    requires k.Lawful() && c.Ok() && Walks(k, block, c, trail, cur) && trail != []
    ensures TakeAll(done, trail).off == cur.off > 0 && TakeAll(done, trail).etag == cur.ptag
    ensures cur == Cursor(cur.off, cur.ptag, ALL_ONES, [])
    decreases |trail|
  {
    CommitStartsFresh(k, block, c);
    if trail[1..] == [] {
      assert TakeAll(done, trail) == Take(done, trail[0]);
    } else {
      TakeAllEnd(k, block, trail[0].next, trail[1..], cur, Take(done, trail[0]));
    }
  }

  lemma {:induction false} CommitStartsFresh(k: Codec, block: Bytes, c: Cursor)
    requires k.Lawful() && c.Ok()
    ensures NextCommit(k, block, c).Some? ==>
              var n := NextCommit(k, block, c).value.next; n == Cursor(n.off, n.ptag, ALL_ONES, [])
    decreases |block| - c.off
  {
    match ReadItem(k, block, c)
    case Stop =>
    case Entry(next) => CommitStartsFresh(k, block, next);
    case Commit(next, attrs) =>
  }

  /** A fetch recovers exactly the state the pair holds. */
  lemma HoldsIsFetched(k: Codec, b: Disk, which: nat, trail: seq<Sound>, cur: Cursor)
    requires Holds(k, b, which, trail, cur)
    ensures FetchPair(k, b) == InBlock(which, TakeAll(NOTHING, trail)) && cur == Resume(TakeAll(NOTHING, trail))
  {
    ScanWalks(k, b[which], Start(k, b[which]), trail, cur, NOTHING);
    TakeAllEnd(k, b[which], Start(k, b[which]), trail, cur, NOTHING);
    var other := b[1 - which];
    if NextCommit(k, other, Start(k, other)) == None {
      ScanByCommits(k, other, Start(k, other), NOTHING);
    }
    ScmpAntisymmetric(Rev(b[which]), Rev(other));
  }
}
