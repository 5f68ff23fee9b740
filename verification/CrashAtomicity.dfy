/** Crash atomicity of a metadata pair: for any run of in-place commits and compactions, and a power cut
    at any point of any of them, a fetch recovers the contents before or the contents after. */
module CrashAtomicity {
  import opened Words
  import opened Wrappers
  import opened MetadataLog
  import opened CommitFormat
  import opened CommitTrail
  import opened CommitWriter
  import opened MetadataPair

  /** A pair update: the block image it writes and the attributes that image commits. An in-place commit
      extends the active block; a compaction fills the other one with a complete new log. */
  datatype Update = InPlace(good: Bytes, attrs: seq<Attr>) | Compaction(good: Bytes, attrs: seq<Attr>)

  /** The update can be written on this disk: what CommitInPlace and CompactInto leave. */
  ghost predicate Begins(k: Codec, b: Disk, u: Update) {
    k.Lawful() &&
    match FetchPair(k, b)
    case Corrupt => false
    case InBlock(which, dir) =>
      dir.etag < WORD_LIMIT && which < 2 &&
      match u
      case InPlace(good, attrs) =>
        && Agree(b[which], good, dir.off)
        && exists trail, cur :: CommitWritten(k, good, Resume(dir), trail, cur, attrs)
      case Compaction(good, attrs) =>
        && |good| >= 4 && Rev(good) == (Rev(b[which]) + 1) % WORD_LIMIT
        && exists trail, cur :: CommitWritten(k, good, Start(k, good), trail, cur, attrs)
  }

  /** The block an update writes. */
  ghost function Target(k: Codec, b: Disk, u: Update): (i: nat)
    requires Begins(k, b, u)
    ensures i < 2
  {
    var which := FetchPair(k, b).which;
    if u.InPlace? then which else 1 - which
  }

  ghost function NewContents(k: Codec, b: Disk, u: Update): seq<Attr>
    requires Begins(k, b, u)
  {
    if u.InPlace? then Contents(k, b).value + Strip(u.attrs) else Strip(u.attrs)
  }

  /** Power is cut with the target block's first p bytes as intended and the rest in any state. What an
      in-place commit does not reprogram stays; the checksum sees through everything torn. A compaction cut
      while it erases may also leave the block with whatever it held, under a revision older than the
      other block's. */
  ghost predicate Torn(k: Codec, b: Disk, u: Update, torn: Bytes, p: nat)
    requires Begins(k, b, u)
  {
    && Agree(u.good, torn, p) && |torn| >= 4
    && match u
       case InPlace(_, _) => FetchPair(k, b).dir.off <= p && Unforged(k, torn, FetchPair(k, b).dir.off, p)
       case Compaction(_, _) =>
         Unforged(k, torn, 0, p) || Scmp(Rev(b[FetchPair(k, b).which]), Rev(torn)) > 0
  }

  /** The pair is in order and holds these contents. */
  ghost predicate Became(k: Codec, b: Disk, contents: seq<Attr>) {
    Sane(k, b) && k.Lawful() && Contents(k, b) == Some(contents)
  }

  // ---------------------------------------------------------------- in place

  lemma InPlaceLeaves(k: Codec, b: Disk, which: nat, trail: seq<Sound>, cur: Cursor,
                      x: Bytes, more: seq<Sound>, cur': Cursor)
    requires Holds(k, b, which, trail, cur) && Agree(b[which], x, cur.off) && cur.off >= 4 && cur'.Ok()
    requires Walks(k, x, cur, more, cur') && NextCommit(k, x, cur') == None
    ensures Holds(k, Put(b, which, x), which, trail + more, cur')
  {
    AgreeSlice(b[which], x, cur.off, 0, 4);
    assert x[..4] == x[0..4] && b[which][..4] == b[which][0..4];
    WalksFrame(k, b[which], x, Start(k, x), trail, cur);
    WalksOn(k, x, Start(k, x), trail, cur, more, cur');
  }

  lemma HeldContents(k: Codec, b: Disk, which: nat, trail: seq<Sound>, cur: Cursor)
    requires Holds(k, b, which, trail, cur)
    ensures Contents(k, b) == Some(Strip(TakeAll(NOTHING, trail).log))
    ensures cur.off >= 4 && cur == Resume(TakeAll(NOTHING, trail))
  {
    HoldsIsFetched(k, b, which, trail, cur);
    WalksForward(k, b[which], Start(k, b[which]), trail, cur);
  }

  /** What a first part of an update's trail adds. */
  function Added(more: seq<Sound>, attrs: seq<Attr>): seq<Attr> {
    if more == [] then [] else Strip(attrs)
  }

  lemma PartAdds(trail: seq<Sound>, more: seq<Sound>, attrs: seq<Attr>)
    requires more == [] || OneCommit(more, attrs)
    ensures Strip(TakeAll(NOTHING, trail + more).log) == Strip(TakeAll(NOTHING, trail).log) + Added(more, attrs)
  {
    var done := TakeAll(NOTHING, trail);
    TakeAllConcat(NOTHING, trail, more);
    if more != [] {
      StripTrail(done, more, attrs);
    }
  }

  lemma HeldBecame(k: Codec, b: Disk, which: nat, trail: seq<Sound>, cur: Cursor, contents: seq<Attr>)
    requires Holds(k, b, which, trail, cur) && Strip(TakeAll(NOTHING, trail).log) == contents
    ensures Became(k, b, contents)
  {
    HeldContents(k, b, which, trail, cur);
  }

  /** Some first part of an update's trail behind a disk's last commit. */
  lemma InPlacePart(k: Codec, b: Disk, which: nat, trail: seq<Sound>, cur: Cursor,
                    x: Bytes, more: seq<Sound>, cur': Cursor, attrs: seq<Attr>)
    requires Holds(k, b, which, trail, cur) && Agree(b[which], x, cur.off) && |x| >= 4 && cur'.Ok()
    requires Walks(k, x, cur, more, cur') && NextCommit(k, x, cur') == None
    requires more == [] || OneCommit(more, attrs)
    ensures Contents(k, b).Some? && Became(k, Put(b, which, x), Contents(k, b).value + Added(more, attrs))
  {
    var b': Disk := Put(b, which, x);
    HeldContents(k, b, which, trail, cur);
    InPlaceLeaves(k, b, which, trail, cur, x, more, cur');
    PartAdds(trail, more, attrs);
    HeldBecame(k, b', which, trail + more, cur', Contents(k, b).value + Added(more, attrs));
  }

  // ---------------------------------------------------------------- compaction

  /** A compaction that leaves no commit to read, or only ones of an older revision, leaves the other
      block's state. */
  lemma CompactionAbsent(k: Codec, b: Disk, which: nat, trail: seq<Sound>, cur: Cursor, x: Bytes)
    requires Holds(k, b, which, trail, cur) && |x| >= 4
    requires NextCommit(k, x, Start(k, x)) == None || Scmp(Rev(b[which]), Rev(x)) > 0
    ensures Contents(k, b).Some? && Became(k, Put(b, 1 - which, x), Contents(k, b).value)
  {
    var b': Disk := Put(b, 1 - which, x);
    HeldContents(k, b, which, trail, cur);
    assert Holds(k, b', which, trail, cur);
    HeldContents(k, b', which, trail, cur);
  }

  /** A compaction of which a commit can be read holds the pair's state, whatever the other block has become behind
      its revision count. */
  lemma CompactionLeaves(k: Codec, b: Disk, which: nat, x: Bytes, more: seq<Sound>, cur': Cursor)
    requires k.Lawful() && which < 2 && |x| >= 4 && cur'.Ok() && more != []
    requires Walks(k, x, Start(k, x), more, cur') && NextCommit(k, x, cur') == None
    requires Rev(x) == (Rev(b[which]) + 1) % WORD_LIMIT
    ensures Holds(k, Put(b, 1 - which, x), 1 - which, more, cur')
  {
    var b': Disk := Put(b, 1 - which, x);
    var other := 1 - (1 - which);
    assert other == which && b'[1 - which] == x && b'[other] == b[which];
    NewerByOne(Rev(b[which]), Rev(x));
  }

  lemma NewerByOne(r: nat, n: nat)
    requires r < WORD_LIMIT && n == (r + 1) % WORD_LIMIT
    ensures Scmp(n, r) > 0
  {
    ScmpAntisymmetric(0, r);
  }

  lemma WholeAdds(more: seq<Sound>, attrs: seq<Attr>)
    requires OneCommit(more, attrs)
    ensures Strip(TakeAll(NOTHING, more).log) == Strip(attrs)
  {
    PartAdds([], more, attrs);
    assert [] + more == more && [] + Strip(attrs) == Strip(attrs);
  }

  /** A compaction of which a commit can be read has all its attributes. */
  lemma CompactionPresent(k: Codec, b: Disk, which: nat, x: Bytes, more: seq<Sound>, cur': Cursor, attrs: seq<Attr>)
    requires k.Lawful() && which < 2 && |x| >= 4 && cur'.Ok()
    requires Walks(k, x, Start(k, x), more, cur') && NextCommit(k, x, cur') == None
    requires OneCommit(more, attrs) && Rev(x) == (Rev(b[which]) + 1) % WORD_LIMIT
    ensures Became(k, Put(b, 1 - which, x), Strip(attrs))
  {
    var b': Disk := Put(b, 1 - which, x);
    WholeAdds(more, attrs);
    CompactionLeaves(k, b, which, x, more, cur');
    HeldBecame(k, b', 1 - which, more, cur', Strip(attrs));
  }

  // ---------------------------------------------------------------- one update

  /** A disk that holds a state resumes where that state ends. */
  lemma ResumesAt(k: Codec, b: Disk, which: nat, trail: seq<Sound>, cur: Cursor)
    requires Holds(k, b, which, trail, cur)
    ensures FetchPair(k, b).InBlock? && FetchPair(k, b).which == which && Resume(FetchPair(k, b).dir) == cur
  {
    HoldsIsFetched(k, b, which, trail, cur);
  }

  lemma InPlaceBegun(k: Codec, b: Disk, which: nat, trail: seq<Sound>, cur: Cursor, good: Bytes, attrs: seq<Attr>)
      returns (more: seq<Sound>, cur': Cursor)
    requires Holds(k, b, which, trail, cur) && Begins(k, b, InPlace(good, attrs))
    ensures CommitWritten(k, good, cur, more, cur', attrs) && Agree(b[which], good, cur.off)
    ensures Target(k, b, InPlace(good, attrs)) == which && Resume(FetchPair(k, b).dir) == cur
  {
    ResumesAt(k, b, which, trail, cur);
    more, cur' :| CommitWritten(k, good, cur, more, cur', attrs);
  }

  lemma CompactionBegun(k: Codec, b: Disk, which: nat, trail: seq<Sound>, cur: Cursor, good: Bytes, attrs: seq<Attr>)
      returns (more: seq<Sound>, cur': Cursor)
    requires Holds(k, b, which, trail, cur) && Begins(k, b, Compaction(good, attrs))
    ensures |good| >= 4 && CommitWritten(k, good, Start(k, good), more, cur', attrs)
    ensures Rev(good) == (Rev(b[which]) + 1) % WORD_LIMIT && Target(k, b, Compaction(good, attrs)) == 1 - which
  {
    ResumesAt(k, b, which, trail, cur);
    more, cur' :| CommitWritten(k, good, Start(k, good), more, cur', attrs);
  }

  lemma InPlaceCompletes(k: Codec, b: Disk, good: Bytes, attrs: seq<Attr>)
    requires Sane(k, b) && Begins(k, b, InPlace(good, attrs))
    ensures |good| >= 4 && Became(k, Put(b, Target(k, b, InPlace(good, attrs)), good), NewContents(k, b, InPlace(good, attrs)))
  {
    var which: nat, trail, cur :| Holds(k, b, which, trail, cur);
    var more, cur' := InPlaceBegun(k, b, which, trail, cur, good, attrs);
    InPlacePart(k, b, which, trail, cur, good, more, cur', attrs);
  }

  lemma CompactionCompletes(k: Codec, b: Disk, good: Bytes, attrs: seq<Attr>)
    requires Sane(k, b) && Begins(k, b, Compaction(good, attrs))
    ensures |good| >= 4
    ensures Became(k, Put(b, Target(k, b, Compaction(good, attrs)), good), NewContents(k, b, Compaction(good, attrs)))
  {
    var which: nat, trail, cur :| Holds(k, b, which, trail, cur);
    var more, cur' := CompactionBegun(k, b, which, trail, cur, good, attrs);
    CompactionPresent(k, b, which, good, more, cur', attrs);
  }

  /** A finished update: the new contents, exactly. */
  lemma UpdateCompletes(k: Codec, b: Disk, u: Update)
    requires Sane(k, b) && Begins(k, b, u)
    ensures |u.good| >= 4 && Became(k, Put(b, Target(k, b, u), u.good), NewContents(k, b, u))
  {
    match u
    case InPlace(good, attrs) => InPlaceCompletes(k, b, good, attrs);
    case Compaction(good, attrs) => CompactionCompletes(k, b, good, attrs);
  }

  lemma FirstPart(trail: seq<Sound>, j: nat, attrs: seq<Attr>)
    requires OneCommit(trail, attrs) && j <= |trail|
    ensures trail[..j] == [] || OneCommit(trail[..j], attrs)
  {
  }

  lemma TornInPlace(k: Codec, b: Disk, which: nat, trail: seq<Sound>, cur: Cursor, good: Bytes,
                    more: seq<Sound>, cur': Cursor, attrs: seq<Attr>, torn: Bytes, p: nat)
    requires Holds(k, b, which, trail, cur) && CommitWritten(k, good, cur, more, cur', attrs)
    requires Agree(b[which], good, cur.off) && cur.off <= p && |torn| >= 4
    requires Agree(good, torn, p) && Honest(k, torn, cur, p)
    ensures Contents(k, b).Some?
    ensures var was := Contents(k, b).value; Became(k, Put(b, which, torn), was) || Became(k, Put(b, which, torn), was + Strip(attrs))
  {
    var j, at := TornTrail(k, good, torn, cur, more, cur', p);
    FirstPart(more, j, attrs);
    AgreeTwice(b[which], good, torn, cur.off, p);
    InPlacePart(k, b, which, trail, cur, torn, more[..j], at, attrs);
    if more[..j] == [] { assert Contents(k, b).value + [] == Contents(k, b).value; }
  }

  /** A compaction cut before its header was complete has no commit the checksum lets through. */
  lemma TornHeader(k: Codec, torn: Bytes, p: nat)
    requires k.Lawful() && |torn| >= 4 && p < 4 && Honest(k, torn, Start(k, torn), p)
    ensures NextCommit(k, torn, Start(k, torn)) == None
  {
  }

  lemma SameHeader(k: Codec, good: Bytes, torn: Bytes, p: nat)
    requires k.Lawful() && |good| >= 4 && Agree(good, torn, p) && p >= 4
    ensures Start(k, good) == Start(k, torn) && Rev(good) == Rev(torn)
  {
    AgreeSlice(good, torn, p, 0, 4);
    assert good[..4] == good[0..4] && torn[..4] == torn[0..4];
  }

  lemma TornCompactionTrail(k: Codec, good: Bytes, more: seq<Sound>, cur': Cursor, attrs: seq<Attr>, torn: Bytes,
          p: nat)
      returns (j: nat, at: Cursor)
    requires k.Lawful() && |good| >= 4 && CommitWritten(k, good, Start(k, good), more, cur', attrs)
    requires Agree(good, torn, p) && p >= 4 && Honest(k, torn, Start(k, torn), p)
    ensures j <= |more| && at.Ok() && Rev(torn) == Rev(good)
    ensures Walks(k, torn, Start(k, torn), more[..j], at) && NextCommit(k, torn, at) == None
    ensures if j == 0 then at == Start(k, torn) else OneCommit(more[..j], attrs)
  {
    SameHeader(k, good, torn, p);
    j, at := TornTrail(k, good, torn, Start(k, torn), more, cur', p);
    FirstPart(more, j, attrs);
  }

  lemma TornCompaction(k: Codec, b: Disk, which: nat, trail: seq<Sound>, cur: Cursor, good: Bytes,
                       more: seq<Sound>, cur': Cursor, attrs: seq<Attr>, torn: Bytes, p: nat)
    requires Holds(k, b, which, trail, cur) && |good| >= 4 && CommitWritten(k, good, Start(k, good), more, cur', attrs)
    requires Rev(good) == (Rev(b[which]) + 1) % WORD_LIMIT
    requires Agree(good, torn, p) && |torn| >= 4
    requires Honest(k, torn, Start(k, torn), p) || Scmp(Rev(b[which]), Rev(torn)) > 0
    ensures (Contents(k, b).Some? && Became(k, Put(b, 1 - which, torn), Contents(k, b).value))
            || Became(k, Put(b, 1 - which, torn), Strip(attrs))
  {
    if Scmp(Rev(b[which]), Rev(torn)) > 0 {
      CompactionAbsent(k, b, which, trail, cur, torn);
    } else if p < 4 {
      TornHeader(k, torn, p);
      CompactionAbsent(k, b, which, trail, cur, torn);
    } else {
      var j, at := TornCompactionTrail(k, good, more, cur', attrs, torn, p);
      if j == 0 {
        CompactionAbsent(k, b, which, trail, cur, torn);
      } else {
        CompactionPresent(k, b, which, torn, more[..j], at, attrs);
      }
    }
  }

  lemma InPlaceIsAtomic(k: Codec, b: Disk, good: Bytes, attrs: seq<Attr>, torn: Bytes, p: nat)
    requires Sane(k, b) && Begins(k, b, InPlace(good, attrs)) && Torn(k, b, InPlace(good, attrs), torn, p)
    ensures OldOrNew(k, b, InPlace(good, attrs), Put(b, Target(k, b, InPlace(good, attrs)), torn))
  {
    var which: nat, trail, cur :| Holds(k, b, which, trail, cur);
    var more, cur' := InPlaceBegun(k, b, which, trail, cur, good, attrs);
    UnforgedIsHonest(k, torn, cur.off, cur, p);
    TornInPlace(k, b, which, trail, cur, good, more, cur', attrs, torn, p);
  }

  lemma CompactionIsAtomic(k: Codec, b: Disk, good: Bytes, attrs: seq<Attr>, torn: Bytes, p: nat)
    requires Sane(k, b) && Begins(k, b, Compaction(good, attrs)) && Torn(k, b, Compaction(good, attrs), torn, p)
    ensures OldOrNew(k, b, Compaction(good, attrs), Put(b, Target(k, b, Compaction(good, attrs)), torn))
  {
    var which: nat, trail, cur :| Holds(k, b, which, trail, cur);
    var more, cur' := CompactionBegun(k, b, which, trail, cur, good, attrs);
    ResumesAt(k, b, which, trail, cur);
    if Unforged(k, torn, 0, p) { UnforgedFromTheStart(k, torn, p); }
    TornCompaction(k, b, which, trail, cur, good, more, cur', attrs, torn, p);
  }

  ghost predicate OldOrNew(k: Codec, b: Disk, u: Update, b': Disk)
    requires Begins(k, b, u)
  {
    (Contents(k, b).Some? && Became(k, b', Contents(k, b).value)) || Became(k, b', NewContents(k, b, u))
  }

  /** An update cut short at any point: the old contents or the new ones, nothing else. */
  lemma UpdateIsAtomic(k: Codec, b: Disk, u: Update, torn: Bytes, p: nat)
    requires Sane(k, b) && Begins(k, b, u) && Torn(k, b, u, torn, p)
    ensures OldOrNew(k, b, u, Put(b, Target(k, b, u), torn))
  {
    match u
    case InPlace(good, attrs) => InPlaceIsAtomic(k, b, good, attrs, torn, p);
    case Compaction(good, attrs) => CompactionIsAtomic(k, b, good, attrs, torn, p);
  }

  // ---------------------------------------------------------------- an attempt given up

  /** An in-place attempt that was given up or cut before its CRC tag: `good` holds some attributes behind the last
      commit, up to the cursor c, of which the first p bytes of the block were written in full. */
  ghost predicate Attempted(k: Codec, b: Disk, good: Bytes, c: Cursor, torn: Bytes, p: nat) {
    k.Lawful() &&
    match FetchPair(k, b)
    case Corrupt => false
    case InBlock(which, dir) =>
      && which < 2 && dir.etag < WORD_LIMIT
      && Agree(b[which], good, dir.off) && Written(k, good, Resume(dir), c) && c.Ok()
      && dir.off <= p <= c.off && Agree(good, torn, p) && |torn| >= 4 && Unforged(k, torn, dir.off, p)
  }

  /** Attributes without a CRC tag are no commit. */
  lemma {:induction false} NoCommitYet(k: Codec, good: Bytes, entry: Cursor, c: Cursor, torn: Bytes, p: nat)
    requires Written(k, good, entry, c) && c.Ok() && p <= c.off && Agree(good, torn, p) && Honest(k, torn, entry, p)
    ensures NextCommit(k, torn, entry) == None
  {
    if NextCommit(k, torn, entry).Some? {
      SameCommit(k, torn, good, entry, p);
      NextReadBack(k, good, entry, c.pending);
    }
  }

  lemma {:induction false} AttemptLeaves(k: Codec, b: Disk, which: nat, trail: seq<Sound>, cur: Cursor, good: Bytes,
          c: Cursor, torn: Bytes, p: nat)
    requires Holds(k, b, which, trail, cur) && Agree(b[which], good, cur.off) && Written(k, good, cur, c) && c.Ok()
    requires cur.off <= p <= c.off && Agree(good, torn, p) && |torn| >= 4 && Honest(k, torn, cur, p)
    ensures Contents(k, b).Some? && Became(k, Put(b, which, torn), Contents(k, b).value + [])
    ensures Holds(k, Put(b, which, torn), which, trail + [], cur) && Rev(torn) == Rev(b[which])
  {
    NoCommitYet(k, good, cur, c, torn, p);
    AgreeTwice(b[which], good, torn, cur.off, p);
    HeldContents(k, b, which, trail, cur);
    InPlaceLeaves(k, b, which, trail, cur, torn, [], cur);
    InPlacePart(k, b, which, trail, cur, torn, [], cur, []);
    SameRev(b[which], torn, cur.off);
  }

  lemma SameRev(x: Bytes, y: Bytes, p: nat)
    requires Agree(x, y, p) && p >= 4
    ensures Rev(x) == Rev(y)
  {
    AgreeSlice(x, y, p, 0, 4);
    assert x[..4] == x[0..4] && y[..4] == y[0..4];
  }

  /** What such an attempt leaves: the old contents. */
  lemma {:induction false} AttemptIsHarmless(k: Codec, b: Disk, good: Bytes, c: Cursor, torn: Bytes, p: nat)
    requires Sane(k, b) && Attempted(k, b, good, c, torn, p)
    ensures Contents(k, b).Some? && Became(k, Put(b, FetchPair(k, b).which, torn), Contents(k, b).value)
  {
    var which: nat, trail, cur :| Holds(k, b, which, trail, cur);
    ResumesAt(k, b, which, trail, cur);
    UnforgedIsHonest(k, torn, cur.off, cur, p);
    AttemptLeaves(k, b, which, trail, cur, good, c, torn, p);
    assert Contents(k, b).value + [] == Contents(k, b).value;
  }

  /** After it a compaction may begin just as it might have before. */
  lemma {:induction false} AttemptThenCompaction(k: Codec, b: Disk, good: Bytes, c: Cursor, torn: Bytes, p: nat,
          u: Update)
    requires Sane(k, b) && Attempted(k, b, good, c, torn, p) && Begins(k, b, u) && u.Compaction?
    ensures var mid: Disk := Put(b, FetchPair(k, b).which, torn);
      Sane(k, mid) && Begins(k, mid, u) && Target(k, mid, u) == Target(k, b, u)
  {
    var which: nat, trail, cur :| Holds(k, b, which, trail, cur);
    ResumesAt(k, b, which, trail, cur);
    UnforgedIsHonest(k, torn, cur.off, cur, p);
    AttemptLeaves(k, b, which, trail, cur, good, c, torn, p);
    var mid: Disk := Put(b, which, torn);
    FetchedAlike(k, b, mid, which, trail, cur);
    BeginsAlike(k, b, mid, u);
  }

  lemma {:induction false} FetchedAlike(k: Codec, b: Disk, mid: Disk, which: nat, trail: seq<Sound>, cur: Cursor)
    requires Holds(k, b, which, trail, cur) && Holds(k, mid, which, trail + [], cur)
    ensures FetchPair(k, b) == FetchPair(k, mid) && FetchPair(k, b).InBlock? && FetchPair(k, b).which == which
  {
    assert trail + [] == trail;
    HoldsIsFetched(k, b, which, trail, cur);
    HoldsIsFetched(k, mid, which, trail, cur);
  }

  lemma {:induction false} BeginsAlike(k: Codec, b: Disk, mid: Disk, u: Update)
    requires Begins(k, b, u) && u.Compaction? && FetchPair(k, b) == FetchPair(k, mid)
    requires FetchPair(k, b).which < 2 && Rev(mid[FetchPair(k, b).which]) == Rev(b[FetchPair(k, b).which])
    ensures Begins(k, mid, u) && Target(k, mid, u) == Target(k, b, u)
  {
  }

  // ---------------------------------------------------------------- any run

  /** One event of a run: an update that completes, one that a power cut interrupts, or an in-place attempt that ran
      out of room or was cut before it got to its CRC tag. */
  datatype Event =
    | Completed(update: Update)
    | Cut(update: Update, torn: Bytes, p: nat)
    | Attempt(good: Bytes, at: Cursor, torn: Bytes, p: nat)

  ghost predicate Happens(k: Codec, b: Disk, e: Event, b': Disk) {
    match e
    case Completed(u) => Begins(k, b, u) && b' == Put(b, Target(k, b, u), u.good)
    case Cut(u, torn, p) => Begins(k, b, u) && Torn(k, b, u, torn, p) && b' == Put(b, Target(k, b, u), torn)
    case Attempt(good, at, torn, p) => Attempted(k, b, good, at, torn, p) && b' == Put(b, FetchPair(k, b).which, torn)
  }

  ghost predicate Run(k: Codec, disks: seq<Disk>, events: seq<Event>) {
    && |disks| == |events| + 1
    && forall i | 0 <= i < |events| :: Happens(k, disks[i], events[i], disks[i + 1])
  }

  /** Where an event may take the pair. */
  ghost predicate Steps(k: Codec, b: Disk, e: Event, b': Disk)
    requires Happens(k, b, e, b')
  {
    match e
    case Completed(u) => Became(k, b', NewContents(k, b, u))
    case Cut(u, _, _) => OldOrNew(k, b, u, b')
    case Attempt(_, _, _, _) => Contents(k, b).Some? && Became(k, b', Contents(k, b).value)
  }

  lemma EventIsAtomic(k: Codec, b: Disk, e: Event, b': Disk)
    requires Sane(k, b) && Happens(k, b, e, b')
    ensures Sane(k, b') && Steps(k, b, e, b')
  {
    match e
    case Completed(u) => UpdateCompletes(k, b, u);
    case Cut(u, torn, p) => UpdateIsAtomic(k, b, u, torn, p);
    case Attempt(good, at, torn, p) => AttemptIsHarmless(k, b, good, at, torn, p);
  }

  lemma RunStep(k: Codec, disks: seq<Disk>, events: seq<Event>, i: nat)
    requires Run(k, disks, events) && i < |events|
    ensures Happens(k, disks[i], events[i], disks[i + 1])
  {
  }

  lemma {:induction false} RunIsSane(k: Codec, disks: seq<Disk>, events: seq<Event>, n: nat)
    requires Run(k, disks, events) && Sane(k, disks[0]) && n <= |events|
    ensures Sane(k, disks[n])
  {
    if n > 0 {
      RunIsSane(k, disks, events, n - 1);
      RunStep(k, disks, events, n - 1);
      EventIsAtomic(k, disks[n - 1], events[n - 1], disks[n]);
    }
  }

  /** Whatever happened up to here, the pair can be fetched, and the next event takes it to the new contents or, if it
      is interrupted, possibly leaves it with the old ones, as an attempt given up always does. */
  lemma RunIsAtomic(k: Codec, disks: seq<Disk>, events: seq<Event>, n: nat)
    requires Run(k, disks, events) && Sane(k, disks[0]) && n <= |events|
    ensures Fetchable(k, disks[n])
    ensures n < |events| ==> Happens(k, disks[n], events[n], disks[n + 1]) && Steps(k, disks[n], events[n], disks[n + 1])
  {
    RunIsSane(k, disks, events, n);
    SaneIsFetched(k, disks[n]);
    if n < |events| {
      RunStep(k, disks, events, n);
      EventIsAtomic(k, disks[n], events[n], disks[n + 1]);
    }
  }

  ghost predicate Fetchable(k: Codec, b: Disk) {
    k.Lawful() && Contents(k, b).Some?
  }

  lemma SaneIsFetched(k: Codec, b: Disk)
    requires Sane(k, b)
    ensures Fetchable(k, b)
  {
    var which: nat, trail, cur :| Holds(k, b, which, trail, cur);
    HeldContents(k, b, which, trail, cur);
  }
}
