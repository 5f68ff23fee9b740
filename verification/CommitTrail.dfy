/** The commits of a metadata block, one after the other: what reading them depends on, and what is
    left of them when power is cut. */
module CommitTrail {
  import opened Words
  import opened Wrappers
  import opened Tags
  import opened MetadataLog
  import opened CommitFormat

  /** A commit the reader accepts: the end of the bytes it checked, where it goes on, and what it brings. */
  datatype Sound = Sound(end: nat, next: Cursor, attrs: seq<Attr>)

  /** The next commit read from a cursor on. */
  function NextCommit(k: Codec, block: Bytes, c: Cursor): (r: Option<Sound>)
    requires k.Lawful() && c.Ok()
    ensures r.Some? ==> r.value.next.Ok() && c.off + 8 <= r.value.end <= |block| && r.value.next.off <= |block|
    ensures r.Some? ==> r.value.next.off >= c.off + 4
    decreases |block| - c.off
  {
    match ReadItem(k, block, c)
    case Stop => None
    case Entry(next) => NextCommit(k, block, next)
    case Commit(next, attrs) => Some(Sound(c.off + 8, next, attrs))
  }

  function Take(done: Committed, f: Sound): Committed {
    Committed(done.log + f.attrs, f.next.off, f.next.ptag)
  }

  /** The fetch loop goes from commit to commit. */
  lemma {:induction false} ScanByCommits(k: Codec, block: Bytes, c: Cursor, done: Committed)
    requires k.Lawful() && c.Ok()
    ensures Scan(k, block, c, done) ==
            match NextCommit(k, block, c)
            case None => done
            case Some(f) => Scan(k, block, f.next, Take(done, f))
    decreases |block| - c.off
  {
    match ReadItem(k, block, c)
    case Stop =>
    case Entry(next) => ScanByCommits(k, block, next, done);
    case Commit(next, attrs) =>
  }

  /** Reading from c on finds exactly the commits of the trail and then stands at cur. */
  ghost predicate Walks(k: Codec, block: Bytes, c: Cursor, trail: seq<Sound>, cur: Cursor)
    requires k.Lawful() && c.Ok()
    decreases |trail|
  {
    if trail == [] then c == cur
    else
      && NextCommit(k, block, c) == Some(trail[0])
      && trail[0].end <= trail[0].next.off
      && trail[0].next.Ok()
      && Walks(k, block, trail[0].next, trail[1..], cur)
  }

  lemma {:induction false} WalksForward(k: Codec, block: Bytes, c: Cursor, trail: seq<Sound>, cur: Cursor)
    requires k.Lawful() && c.Ok() && Walks(k, block, c, trail, cur)
    ensures cur.Ok() && cur.off >= c.off && (trail != [] ==> cur.off <= |block|)
    ensures trail != [] ==> trail[0].next.off <= cur.off
    decreases |trail|
  {
    if trail != [] {
      WalksForward(k, block, trail[0].next, trail[1..], cur);
    }
  }

  lemma {:induction false} WalksCons(k: Codec, block: Bytes, c: Cursor, f: Sound, rest: seq<Sound>, cur: Cursor)
    requires k.Lawful() && c.Ok() && NextCommit(k, block, c) == Some(f) && f.end <= f.next.off && f.next.Ok()
    requires Walks(k, block, f.next, rest, cur)
    ensures Walks(k, block, c, [f] + rest, cur)
  {
    assert ([f] + rest)[1..] == rest;
  }

  lemma FirstOfBoth<T>(t: seq<T>, u: seq<T>)
    requires t != []
    ensures t + u == [t[0]] + (t[1..] + u)
  {
  }

  lemma {:induction false} WalksOn(k: Codec, block: Bytes, c: Cursor, t: seq<Sound>, mid: Cursor, u: seq<Sound>,
          cur: Cursor)
    requires k.Lawful() && c.Ok() && mid.Ok() && Walks(k, block, c, t, mid) && Walks(k, block, mid, u, cur)
    ensures Walks(k, block, c, t + u, cur)
    decreases |t|
  {
    if t == [] {
      assert t + u == u;
    } else {
      FirstOfBoth(t, u);
      WalksOn(k, block, t[0].next, t[1..], mid, u, cur);
      WalksCons(k, block, c, t[0], t[1..] + u, cur);
    }
  }

  lemma WalksSnoc(k: Codec, block: Bytes, c: Cursor, trail: seq<Sound>, cur: Cursor, f: Sound)
    requires k.Lawful() && c.Ok() && cur.Ok() && Walks(k, block, c, trail, cur)
    requires NextCommit(k, block, cur) == Some(f) && f.end <= f.next.off
    ensures Walks(k, block, c, trail + [f], f.next)
  {
    WalksCons(k, block, cur, f, [], f.next);
    assert [f] + [] == [f];
    WalksOn(k, block, c, trail, cur, [f], f.next);
  }

  function TakeAll(done: Committed, trail: seq<Sound>): Committed
    decreases |trail|
  {
    if trail == [] then done else TakeAll(Take(done, trail[0]), trail[1..])
  }

  lemma {:induction false} TakeAllConcat(done: Committed, t: seq<Sound>, u: seq<Sound>)
    ensures TakeAll(done, t + u) == TakeAll(TakeAll(done, t), u)
    decreases |t|
  {
    if t == [] {
      assert t + u == u;
    } else {
      assert (t + u)[1..] == t[1..] + u;
      TakeAllConcat(Take(done, t[0]), t[1..], u);
    }
  }

  /** A fetch that walks a trail to where no commit follows ends with all of it. */
  lemma {:induction false} ScanWalks(k: Codec, block: Bytes, c: Cursor, trail: seq<Sound>, cur: Cursor, done: Committed)
    requires k.Lawful() && c.Ok() && cur.Ok() && Walks(k, block, c, trail, cur) && NextCommit(k, block, cur) == None
    ensures Scan(k, block, c, done) == TakeAll(done, trail)
    decreases |trail|
  {
    ScanByCommits(k, block, c, done);
    if trail != [] {
      ScanWalks(k, block, trail[0].next, trail[1..], cur, Take(done, trail[0]));
    }
  }

  // ---------------------------------------------------------------- only the bytes read matter

  ghost predicate Agree(x: Bytes, y: Bytes, p: nat) {
    |x| == |y| && p <= |x| && x[..p] == y[..p]
  }

  lemma AgreeSlice(x: Bytes, y: Bytes, p: nat, i: nat, j: nat)
    requires Agree(x, y, p) && i <= j <= p
    ensures x[i..j] == y[i..j]
  {
    assert x[i..j] == x[..p][i..j] && y[i..j] == y[..p][i..j];
  }

  lemma SameItem(k: Codec, x: Bytes, y: Bytes, c: Cursor, p: nat)
    requires k.Lawful() && c.Ok() && Agree(x, y, p)
    requires ReadItem(k, x, c).Entry? ==> ReadItem(k, x, c).next.off <= p
    requires ReadItem(k, x, c).Commit? ==> c.off + 8 <= p
    ensures ReadItem(k, x, c) != Stop ==> ReadItem(k, y, c) == ReadItem(k, x, c)
  {
    hide Unpack;
    var r := ReadItem(k, x, c);
    if r.Entry? {
      AgreeSlice(x, y, p, c.off, c.off + 4);
      AgreeSlice(x, y, p, c.off + 4, r.next.off);
    } else if r.Commit? {
      AgreeSlice(x, y, p, c.off, c.off + 4);
      AgreeSlice(x, y, p, c.off + 4, c.off + 8);
    }
  }

  /** Two blocks that agree on the bytes a commit was checked on hold the same commit. */
  lemma {:induction false} SameCommit(k: Codec, x: Bytes, y: Bytes, c: Cursor, p: nat)
    requires k.Lawful() && c.Ok() && Agree(x, y, p)
    requires NextCommit(k, x, c).Some? && NextCommit(k, x, c).value.end <= p
    ensures NextCommit(k, y, c) == NextCommit(k, x, c)
    decreases |x| - c.off
  {
    SameItem(k, x, y, c, p);
    match ReadItem(k, x, c)
    case Entry(next) => SameCommit(k, x, y, next, p);
    case Commit(next, attrs) =>
  }

  lemma {:induction false} WalksFrame(k: Codec, x: Bytes, y: Bytes, c: Cursor, trail: seq<Sound>, cur: Cursor)
    requires k.Lawful() && c.Ok() && Walks(k, x, c, trail, cur) && (trail != [] ==> Agree(x, y, cur.off))
    ensures Walks(k, y, c, trail, cur)
    decreases |trail|
  {
    if trail != [] {
      WalksForward(k, x, c, trail, cur);
      SameCommit(k, x, y, c, cur.off);
      if trail[1..] != [] { WalksForward(k, x, trail[0].next, trail[1..], cur); }
      WalksFrame(k, x, y, trail[0].next, trail[1..], cur);
    }
  }

  // ---------------------------------------------------------------- what is accepted was checked

  /** The bytes from a on are followed by their checksum, which ends at e. */
  predicate Checks(k: Codec, block: Bytes, a: nat, crc: nat, e: nat)
    requires a + 8 <= e <= |block|
  {
    FromLe32(block[e - 4..e]) == k.crc(crc, block[a..e - 4])
  }

  /** The reader accepts no commit without comparing the checksum of all its bytes with the one stored behind them. */
  lemma {:induction false} AcceptedIsChecked(k: Codec, block: Bytes, c: Cursor)
    requires k.Lawful() && c.Ok() && NextCommit(k, block, c).Some?
    ensures Checks(k, block, c.off, c.crc, NextCommit(k, block, c).value.end)
    decreases |block| - c.off
  {
    hide Unpack, IsCrc, Expected, FromLe32;
    match ReadItem(k, block, c)
    case Entry(next) =>
      AcceptedIsChecked(k, block, next);
      CrcOver(k, block, c.crc, c.off, c.off + 4, next.off, NextCommit(k, block, next).value.end - 4);
    case Commit(next, attrs) =>
  }

  lemma CrcOver(k: Codec, block: Bytes, crc: nat, a: nat, b: nat, d: nat, e: nat)
    requires k.Lawful() && crc < WORD_LIMIT && a <= b <= d <= e <= |block|
    ensures k.crc(crc, block[a..e]) == k.crc(k.crc(k.crc(crc, block[a..b]), block[b..d]), block[d..e])
  {
    assert block[a..e] == block[a..d] + block[d..e] && block[a..d] == block[a..b] + block[b..d];
    assert k.crc(crc, block[a..d] + block[d..e]) == k.crc(k.crc(crc, block[a..d]), block[d..e]);
    assert k.crc(crc, block[a..b] + block[b..d]) == k.crc(k.crc(crc, block[a..b]), block[b..d]);
  }

  lemma {:induction false} FreshBehind(k: Codec, block: Bytes, c: Cursor)
    requires k.Lawful() && c.Ok() && NextCommit(k, block, c).Some?
    ensures var next := NextCommit(k, block, c).value.next; next.crc == ALL_ONES && next.pending == []
    decreases |block| - c.off
  {
    match ReadItem(k, block, c)
    case Entry(next) => FreshBehind(k, block, next);
    case Commit(next, attrs) =>
  }

  /** The first commit is checked together with the revision count in front of it. */
  lemma {:induction false} FirstIsChecked(k: Codec, block: Bytes)
    requires k.Lawful() && |block| >= 4 && NextCommit(k, block, Start(k, block)).Some?
    ensures Checks(k, block, 0, ALL_ONES, NextCommit(k, block, Start(k, block)).value.end)
  {
    AcceptedIsChecked(k, block, Start(k, block));
    CrcOver(k, block, ALL_ONES, 0, 0, 4, NextCommit(k, block, Start(k, block)).value.end - 4);
    assert block[..4] == block[0..4] && block[0..0] == [];
  }

  /** So what a fetch returns begins with a commit that was checked from the first byte of the block on. */
  lemma {:induction false} FetchedIsChecked(k: Codec, block: Bytes) returns (e: nat)
    requires k.Lawful() && |block| >= 4 && Fetch(k, block).off != 0
    ensures 12 <= e <= |block| && Checks(k, block, 0, ALL_ONES, e)
  {
    ScanByCommits(k, block, Start(k, block), NOTHING);
    FirstIsChecked(k, block);
    e := NextCommit(k, block, Start(k, block)).value.end;
  }

  // ---------------------------------------------------------------- a cut

  /** The checksum does its work on a torn block, in terms of its bytes: no stretch that begins at `from` or later and
      ends behind the first p bytes, which were written in full, is followed by its own checksum. */
  ghost predicate Unforged(k: Codec, torn: Bytes, from: nat, p: nat) {
    forall a, e | from <= a && a + 8 <= e && p < e <= |torn| :: !Checks(k, torn, a, ALL_ONES, e)
  }

  /** Whatever the reader accepts from c on lies within the first p bytes. */
  ghost predicate Honest(k: Codec, torn: Bytes, c: Cursor, p: nat)
    requires k.Lawful() && c.Ok()
    decreases |torn| - c.off
  {
    match NextCommit(k, torn, c)
    case None => true
    case Some(f) => f.end <= p && Honest(k, torn, f.next, p)
  }

  lemma {:induction false} UnforgedIsHonest(k: Codec, torn: Bytes, from: nat, c: Cursor, p: nat)
    requires k.Lawful() && c.Ok() && from <= c.off && c.crc == ALL_ONES && Unforged(k, torn, from, p)
    ensures Honest(k, torn, c, p)
    decreases |torn| - c.off
  {
    if NextCommit(k, torn, c).Some? {
      var f := NextCommit(k, torn, c).value;
      AcceptedIsChecked(k, torn, c);
      FreshBehind(k, torn, c);
      UnforgedIsHonest(k, torn, from, f.next, p);
    }
  }

  lemma {:induction false} UnforgedFromTheStart(k: Codec, torn: Bytes, p: nat)
    requires k.Lawful() && |torn| >= 4 && Unforged(k, torn, 0, p)
    ensures Honest(k, torn, Start(k, torn), p)
  {
    if NextCommit(k, torn, Start(k, torn)).Some? {
      FirstIsChecked(k, torn);
      FreshBehind(k, torn, Start(k, torn));
      UnforgedIsHonest(k, torn, 0, NextCommit(k, torn, Start(k, torn)).value.next, p);
    }
  }

  /** A torn block reads as some first part of the trail that was being written. */
  lemma {:induction false} TornTrail(k: Codec, good: Bytes, torn: Bytes, c: Cursor, trail: seq<Sound>,
          cur: Cursor, p: nat)
      returns (j: nat, at: Cursor)
    requires k.Lawful() && c.Ok() && cur.Ok() && Walks(k, good, c, trail, cur) && NextCommit(k, good, cur) == None
    requires Agree(good, torn, p) && Honest(k, torn, c, p)
    ensures j <= |trail| && at.Ok() && Walks(k, torn, c, trail[..j], at) && NextCommit(k, torn, at) == None
    decreases |trail|
  {
    if NextCommit(k, torn, c) == None {
      j, at := 0, c;
    } else {
      TornStep(k, good, torn, c, trail, cur, p);
      j, at := TornTrail(k, good, torn, trail[0].next, trail[1..], cur, p);
      WalksCons(k, torn, c, trail[0], trail[1..][..j], at);
      j := j + 1;
      TakeFirst(trail, j);
    }
  }

  lemma TakeFirst<T>(s: seq<T>, j: nat)
    requires 0 < j <= |s|
    ensures s[..j] == [s[0]] + s[1..][..j - 1]
  {
  }

  /** A commit read from a torn block is the next one of the trail. */
  lemma {:induction false} TornStep(k: Codec, good: Bytes, torn: Bytes, c: Cursor, trail: seq<Sound>, cur: Cursor,
          p: nat)
    requires k.Lawful() && c.Ok() && cur.Ok() && Walks(k, good, c, trail, cur) && NextCommit(k, good, cur) == None
    requires Agree(good, torn, p) && Honest(k, torn, c, p) && NextCommit(k, torn, c).Some?
    ensures trail != [] && NextCommit(k, torn, c) == Some(trail[0])
    ensures trail[0].end <= trail[0].next.off && trail[0].next.Ok()
    ensures Walks(k, good, trail[0].next, trail[1..], cur) && Honest(k, torn, trail[0].next, p)
  {
    SameCommit(k, torn, good, c, p);
  }

  // ---------------------------------------------------------------- what was written is found

  /** The reader goes over written attributes and collects exactly them. */
  lemma {:induction false} NextReadBack(k: Codec, block: Bytes, c: Cursor, attrs: seq<Attr>)
    requires k.Lawful() && c.Ok() && AttrsOk(attrs) && Stands(block, c.off, Encode(k, attrs, c.ptag))
    ensures NextCommit(k, block, c) == NextCommit(k, block, After(k, c, attrs))
    decreases |attrs|
  {
    if attrs == [] {
      assert c.pending + [] == c.pending;
    } else {
      var front, a := attrs[..|attrs| - 1], attrs[|attrs| - 1];
      assert AttrOk(a) && attrs == front + [a];
      StandsFront(k, block, c, front, a);
      NextReadBack(k, block, c, front);
      NextReadBackStep(k, block, c, front, a, After(k, c, front));
    }
  }

  lemma StandsFront(k: Codec, block: Bytes, c: Cursor, front: seq<Attr>, a: Attr)
    requires k.Lawful() && c.Ok() && AttrsOk(front) && AttrOk(a) && AttrsOk(front + [a])
    requires Stands(block, c.off, Encode(k, front + [a], c.ptag))
    ensures Stands(block, c.off, Encode(k, front, c.ptag))
    ensures var mid := After(k, c, front);
      Stands(block, mid.off, TagBytes(k, a.tag, mid.ptag) + a.data)
  {
    AfterOneMore(k, c, front, a);
    StandsParts(block, c.off, Encode(k, front, c.ptag), TagBytes(k, a.tag, After(k, c, front).ptag) + a.data);
  }

  lemma NextReadBackStep(k: Codec, block: Bytes, c: Cursor, front: seq<Attr>, a: Attr, mid: Cursor)
    requires k.Lawful() && c.Ok() && AttrsOk(front) && AttrOk(a) && mid == After(k, c, front)
    requires Stands(block, mid.off, TagBytes(k, a.tag, mid.ptag) + a.data)
    requires NextCommit(k, block, c) == NextCommit(k, block, mid)
    ensures AttrsOk(front + [a]) && NextCommit(k, block, c) == NextCommit(k, block, After(k, c, front + [a]))
  {
    NextAfterOne(k, block, mid, a);
    AfterOneMore(k, c, front, a);
  }

  lemma NextAfterOne(k: Codec, block: Bytes, c: Cursor, a: Attr)
    requires k.Lawful() && c.Ok() && AttrOk(a) && Stands(block, c.off, TagBytes(k, a.tag, c.ptag) + a.data)
    ensures NextCommit(k, block, c) == NextCommit(k, block, AfterAttr(k, c, a))
  {
    ReadOne(k, block, c, a);
    NextAfterEntry(k, block, c, AfterAttr(k, c, a));
  }

  lemma NextAfterEntry(k: Codec, block: Bytes, c: Cursor, next: Cursor)
    requires k.Lawful() && c.Ok() && ReadItem(k, block, c) == Entry(next)
    ensures NextCommit(k, block, c) == NextCommit(k, block, next)
  {
  }

  /** A commit stands in the block from c on: its attributes, its CRC tag and its checksum. */
  ghost predicate CommitStands(k: Codec, block: Bytes, c: Cursor, attrs: seq<Attr>, crcTag: Tag)
    requires k.Lawful() && c.Ok()
  {
    && AttrsOk(attrs) && TagFits(crcTag) && IsCrc(crcTag)
    && var mid := After(k, c, attrs);
       && Stands(block, c.off, Encode(k, attrs, c.ptag))
       && Stands(block, mid.off, CrcBytes(k, crcTag, mid.ptag, mid.crc))
       && AfterCommit(mid, crcTag).off <= |block|
  }

  lemma CommitIsFound(k: Codec, block: Bytes, c: Cursor, attrs: seq<Attr>, crcTag: Tag)
    requires k.Lawful() && c.Ok() && CommitStands(k, block, c, attrs, crcTag)
    ensures var mid := After(k, c, attrs);
      NextCommit(k, block, c) == Some(Sound(mid.off + 8, AfterCommit(mid, crcTag), mid.pending))
  {
    var mid := After(k, c, attrs);
    NextReadBack(k, block, c, attrs);
    ReadCrc(k, block, mid, crcTag);
  }

  // ---------------------------------------------------------------- and nothing else

  /** Storing undoes loading: any four bytes are some word, stored behind any other. */
  ghost predicate StoresAll(k: Codec) {
    forall s: Bytes, p {:trigger k.load(s, p)} | |s| == 4 && 0 <= p < WORD_LIMIT :: k.store(k.load(s, p), p) == s
  }

  lemma StandsBoth(block: Bytes, off: nat, a: Bytes, b: Bytes)
    requires Stands(block, off, a) && Stands(block, off + |a|, b)
    ensures Stands(block, off, a + b)
  {
    assert block[off..off + |a + b|] == block[off..off + |a|] + block[off + |a|..off + |a| + |b|];
  }

  /** An entry the reader goes over stands in the block as an attribute is written. */
  lemma EntryStands(k: Codec, block: Bytes, c: Cursor) returns (a: Attr)
    requires k.Lawful() && StoresAll(k) && c.Ok() && ReadItem(k, block, c).Entry?
    ensures AttrOk(a) && Stands(block, c.off, TagBytes(k, a.tag, c.ptag) + a.data)
    ensures ReadItem(k, block, c).next == AfterAttr(k, c, a)
  {
    var word, next := block[c.off..c.off + 4], ReadItem(k, block, c).next;
    a := Attr(Unpack(k.load(word, c.ptag)), block[c.off + 4..next.off]);
    UnpackFits(k.load(word, c.ptag));
    assert block[c.off..next.off] == word + a.data;
    ReadOne(k, block, c, a);
  }

  lemma CommitEnds(k: Codec, block: Bytes, c: Cursor) returns (crcTag: Tag)
    requires k.Lawful() && StoresAll(k) && c.Ok() && ReadItem(k, block, c).Commit?
    ensures CommitStands(k, block, c, [], crcTag) && ReadItem(k, block, c) == Commit(AfterCommit(c, crcTag), c.pending)
  {
    var word, sum := block[c.off..c.off + 4], block[c.off + 4..c.off + 8];
    crcTag := Unpack(k.load(word, c.ptag));
    UnpackFits(k.load(word, c.ptag));
    Le32Same(sum);
    StandsBoth(block, c.off, word, sum);
    assert After(k, c, []) == c by { assert c.pending + [] == c.pending; }
  }

  lemma {:induction false} EncodeCons(k: Codec, a: Attr, rest: seq<Attr>, ptag: nat)
    requires k.Lawful() && AttrOk(a) && AttrsOk(rest) && ptag < WORD_LIMIT
    ensures AttrsOk([a] + rest) && LastTag([a] + rest, ptag) == LastTag(rest, Pack(a.tag))
    ensures Encode(k, [a] + rest, ptag) == TagBytes(k, a.tag, ptag) + a.data + Encode(k, rest, Pack(a.tag))
    decreases |rest|
  {
    if rest == [] {
      assert [a] + rest == [a] && [a][..0] == [];
    } else {
      hide Encode, LastTag, TagBytes, AttrOk;
      var front, last := rest[..|rest| - 1], rest[|rest| - 1];
      assert AttrOk(last);
      EncodeCons(k, a, front, ptag);
      EncodeConsStep(k, a, front, last, ptag);
      assert rest == front + [last];
    }
  }

  lemma {:induction false} EncodeConsStep(k: Codec, a: Attr, front: seq<Attr>, last: Attr, ptag: nat)
    requires k.Lawful() && AttrOk(a) && AttrsOk(front) && AttrOk(last) && ptag < WORD_LIMIT
    requires AttrsOk([a] + front) && LastTag([a] + front, ptag) == LastTag(front, Pack(a.tag))
    requires Encode(k, [a] + front, ptag) == TagBytes(k, a.tag, ptag) + a.data + Encode(k, front, Pack(a.tag))
    ensures var rest := front + [last];
      && AttrsOk(rest) && AttrsOk([a] + rest) && LastTag([a] + rest, ptag) == LastTag(rest, Pack(a.tag))
      && Encode(k, [a] + rest, ptag) == TagBytes(k, a.tag, ptag) + a.data + Encode(k, rest, Pack(a.tag))
  {
    hide Encode, LastTag, TagBytes, AttrsOk;
    EncodeLast(k, [a] + front, last, ptag);
    EncodeLast(k, front, last, Pack(a.tag));
    assert [a] + (front + [last]) == [a] + front + [last];
    JoinedTwice(TagBytes(k, a.tag, ptag) + a.data, Encode(k, front, Pack(a.tag)),
      TagBytes(k, last.tag, LastTag(front, Pack(a.tag))) + last.data);
  }

  lemma JoinedTwice(x: Bytes, y: Bytes, z: Bytes)
    ensures x + y + z == x + (y + z)
  {
  }

  lemma {:induction false} EncodeLast(k: Codec, front: seq<Attr>, a: Attr, ptag: nat)
    requires k.Lawful() && AttrsOk(front) && AttrOk(a) && ptag < WORD_LIMIT
    ensures AttrsOk(front + [a]) && LastTag(front + [a], ptag) == Pack(a.tag)
    ensures Encode(k, front + [a], ptag) == Encode(k, front, ptag) + (TagBytes(k, a.tag, LastTag(front, ptag)) + a.data)
  {
    assert (front + [a])[..|front|] == front;
  }

  lemma {:induction false} AfterCons(k: Codec, c: Cursor, a: Attr, rest: seq<Attr>)
    requires k.Lawful() && c.Ok() && AttrOk(a) && AttrsOk(rest)
    ensures AttrsOk([a] + rest) && After(k, c, [a] + rest) == After(k, AfterAttr(k, c, a), rest)
  {
    var bytes := TagBytes(k, a.tag, c.ptag) + a.data;
    EncodeCons(k, a, rest, c.ptag);
    assert k.crc(c.crc, bytes + Encode(k, rest, Pack(a.tag))) == k.crc(k.crc(c.crc, bytes), Encode(k, rest, Pack(a.tag)));
    assert c.pending + ([a] + rest) == c.pending + [a] + rest;
  }

  lemma {:induction false} StandsCons(k: Codec, block: Bytes, c: Cursor, a: Attr, rest: seq<Attr>, crcTag: Tag)
    requires k.Lawful() && c.Ok() && AttrOk(a) && Stands(block, c.off, TagBytes(k, a.tag, c.ptag) + a.data)
    requires CommitStands(k, block, AfterAttr(k, c, a), rest, crcTag)
    ensures CommitStands(k, block, c, [a] + rest, crcTag)
  {
    var next, bytes := AfterAttr(k, c, a), TagBytes(k, a.tag, c.ptag) + a.data;
    AfterCons(k, c, a, rest);
    EncodeCons(k, a, rest, c.ptag);
    StandsBoth(block, c.off, bytes, Encode(k, rest, next.ptag));
  }

  /** What the reader takes for a commit is one: attributes, a CRC tag and their checksum stand there just as they are
      written. */
  lemma {:induction false} AcceptedStands(k: Codec, block: Bytes, c: Cursor) returns (attrs: seq<Attr>, crcTag: Tag)
    requires k.Lawful() && StoresAll(k) && c.Ok() && NextCommit(k, block, c).Some?
    ensures CommitStands(k, block, c, attrs, crcTag)
    ensures NextCommit(k, block, c).value.attrs == c.pending + attrs
    decreases |block| - c.off
  {
    hide ReadItem, CommitStands, StoresAll, Stands, Encode, TagBytes, IsCrc, TagFits;
    match ReadItem(k, block, c)
    case Entry(next) =>
      var a := EntryStands(k, block, c);
      var rest;
      rest, crcTag := AcceptedStands(k, block, next);
      StandsCons(k, block, c, a, rest, crcTag);
      attrs := [a] + rest;
      assert c.pending + attrs == c.pending + [a] + rest;
    case Commit(next, done) =>
      crcTag := CommitEnds(k, block, c);
      attrs := [];
      assert c.pending + [] == c.pending;
  }

  /** So a commit is accepted exactly when it stands in the block. */
  lemma {:induction false} AcceptedIffStands(k: Codec, block: Bytes, c: Cursor)
    requires k.Lawful() && StoresAll(k) && c.Ok()
    ensures NextCommit(k, block, c).Some? <==> exists attrs, crcTag :: CommitStands(k, block, c, attrs, crcTag)
  {
    if NextCommit(k, block, c).Some? {
      var attrs, crcTag := AcceptedStands(k, block, c);
    }
    if attrs, crcTag :| CommitStands(k, block, c, attrs, crcTag) {
      CommitIsFound(k, block, c, attrs, crcTag);
    }
  }
}
