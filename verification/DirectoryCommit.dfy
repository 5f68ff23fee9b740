/** Commits and splits of a whole directory: what the room test of lfs_dir_splittingcompact is worth in bytes, and what
    the two routes of a commit, a split and a power cut in any of them mean for lookups. */
module DirectoryCommit {
  import opened Words
  import opened Wrappers
  import opened Tags
  import opened MetadataLog
  import opened Compaction
  import Splitting
  import opened CommitFormat
  import opened CommitWriter
  import opened MetadataPair
  import opened CrashAtomicity
  import opened PairCommit
  import opened Recovery

  type Piece = Splitting.Piece

  // ---------------------------------------------------------------- room

  /** The measuring pass counts just the bytes the writing pass programs. */
  lemma {:induction false} EncodeSize(k: Codec, attrs: seq<Attr>, ptag: nat)
    requires k.Lawful() && AttrsOk(attrs) && ptag < WORD_LIMIT
    ensures |Encode(k, attrs, ptag)| == Splitting.Size(attrs)
    decreases |attrs|
  {
    if attrs != [] {
      var front, a := attrs[..|attrs| - 1], attrs[|attrs| - 1];
      assert AttrOk(a);
      EncodeSize(k, front, ptag);
    }
  }

  lemma {:induction false} SizeConcat(a: seq<Attr>, b: seq<Attr>)
    ensures Splitting.Size(a + b) == Splitting.Size(a) + Splitting.Size(b)
    decreases |b|
  {
    if b == [] {
      assert a + b == a;
    } else {
      assert (a + b)[..|a + b| - 1] == a + b[..|b| - 1];
      SizeConcat(a, b[..|b| - 1]);
    }
  }

  /** An erased block takes the attributes and what follows them exactly when it has room for their sizes. */
  lemma {:induction false} RoomIsExact(k: Codec, attrs: seq<Attr>, rest: seq<Attr>, size: nat)
    requires k.Lawful() && AttrsOk(attrs + rest)
    ensures FitsErased(k, attrs + rest, size) <==> Splitting.HasRoom(Splitting.Size(attrs), Splitting.Size(rest), size)
  {
    EncodeSize(k, attrs + rest, ALL_ONES);
    SizeConcat(attrs, rest);
  }

  /** Attributes that pass the room test can be written, whatever tail and global state go with them. */
  lemma {:induction false} RoomTestIsEnough(k: Codec, entries: nat, attrs: seq<Attr>, rest: seq<Attr>, size: nat,
          progSize: nat)
    requires k.Lawful() && AttrsOk(attrs + rest) && progSize > 0 && 40 <= size < WORD_LIMIT
    requires Splitting.Fits(entries, Splitting.Size(attrs), size, progSize) && Splitting.Size(rest) <= Splitting.REST_MAX
    ensures FitsErased(k, attrs + rest, size)
  {
    Splitting.FitsHasRoom(entries, Splitting.Size(attrs), size, progSize, Splitting.Size(rest));
    RoomIsExact(k, attrs, rest, size);
  }

  // ---------------------------------------------------------------- what was read can be written

  lemma {:induction false} ScanOk(k: Codec, block: Bytes, c: Cursor, done: Committed)
    requires k.Lawful() && c.Ok() && AttrsOk(c.pending) && AttrsOk(done.log)
    ensures AttrsOk(Scan(k, block, c, done).log)
    decreases |block| - c.off
  {
    match ReadItem(k, block, c)
    case Stop =>
    case Entry(next) =>
      ScanOk(k, block, next, done);
    case Commit(next, attrs) =>
      ScanOk(k, block, next, Committed(done.log + attrs, next.off, next.ptag));
  }

  lemma {:induction false} StripOk(log: seq<Attr>)
    requires AttrsOk(log)
    ensures AttrsOk(Strip(log))
  {
    if log != [] {
      StripOk(log[..|log| - 1]);
      assert AttrOk(log[|log| - 1]);
    }
  }

  lemma {:induction false} ContentsOk(k: Codec, b: MetadataPair.Disk)
    requires k.Lawful() && Contents(k, b).Some?
    ensures AttrsOk(Contents(k, b).value)
  {
    var which := FetchPair(k, b).which;
    ScanOk(k, b[which], Start(k, b[which]), NOTHING);
    StripOk(FetchPair(k, b).dir.log);
  }

  /** An attribute but for its id. */
  ghost predicate FormOk(a: Attr) {
    a.tag.typ < TYPE_SPLICE && a.tag.size < 0x400 && |a.data| == a.tag.Dsize() - 4
  }

  ghost predicate FormsOk(s: seq<Attr>) {
    forall i | 0 <= i < |s| :: FormOk(s[i])
  }

  lemma {:induction false} FilterKeepsForm(x: Attr, later: seq<Attr>)
    requires FormOk(x)
    ensures FilterAll(x, later).Some? ==> FormOk(FilterAll(x, later).value)
    decreases later
  {
    if later != [] {
      match FilterStep(x, later[0].tag)
      case None =>
      case Some(y) => FilterKeepsForm(y, later[1..]);
    }
  }

  lemma {:induction false} CollectKeepsForm(log: seq<Attr>)
    requires AttrsOk(log)
    ensures FormsOk(Collect(log))
  {
    if log != [] {
      var x, rest := log[0], log[1..];
      assert AttrOk(x) && AttrsOk(rest);
      CollectKeepsForm(rest);
      if x.tag.typ < TYPE_SPLICE { FilterKeepsForm(x, rest); }
    }
  }

  lemma {:induction false} RangeOk(s: seq<Attr>, begin: nat, end: nat)
    requires FormsOk(s) && begin <= end && end - begin <= 0x400
    ensures AttrsOk(Range(s, begin, end))
  {
    if s != [] {
      assert FormOk(s[|s| - 1]);
      RangeOk(s[..|s| - 1], begin, end);
    }
  }

  lemma {:induction false} CompactedOk(log: seq<Attr>, begin: nat, end: nat)
    requires AttrsOk(log) && begin <= end && end - begin <= 0x400
    ensures AttrsOk(Compacted(log, begin, end))
  {
    CollectKeepsForm(log);
    RangeOk(Collect(log), begin, end);
  }

  lemma {:induction false} StripNothing(s: seq<Attr>)
    requires forall i | 0 <= i < |s| :: s[i].tag.typ != TYPE_FCRC
    ensures Strip(s) == s
  {
    if s != [] {
      StripNothing(s[..|s| - 1]);
      assert s == s[..|s| - 1] + [s[|s| - 1]];
    }
  }

  // ---------------------------------------------------------------- a commit of a directory

  /** Tail and global state, as they go behind the attributes of a commit. */
  ghost predicate Trailer(rest: seq<Attr>) {
    AttrsOk(rest) && Aside(rest) && forall i | 0 <= i < |rest| :: rest[i].tag.typ != TYPE_FCRC
  }

  lemma {:induction false} FullLogOk(log: seq<Attr>, count: nat, rest: seq<Attr>)
    requires AttrsOk(log) && count <= 0x400 && Trailer(rest)
    ensures AttrsOk(Compacted(log, 0, count) + rest)
    ensures Rewrites(Compacted(log, 0, count) + rest, log, count, rest)
  {
    CompactedOk(log, 0, count);
    CollectKeepsForm(log);
    RangeOk(Collect(log), 0, count);
    CompactedIsPlain(log, count);
    StripNothing(Compacted(log, 0, count) + rest);
  }

  lemma {:induction false} CompactedIsPlain(log: seq<Attr>, count: nat)
    requires AttrsOk(log)
    ensures forall i | 0 <= i < |Compacted(log, 0, count)| :: Compacted(log, 0, count)[i].tag.typ < TYPE_SPLICE
  {
    CollectKeepsForm(log);
    assert Splitting.Plain(Collect(log));
    Splitting.RangeIsPlain(Collect(log), 0, count);
  }

  /** The log with the attributes to be committed. */
  function Extended(log: seq<Attr>, attrs: seq<Attr>): seq<Attr> {
    log + Strip(attrs)
  }

  /** Both routes of a commit: the attributes and `state` behind the log, or the whole of it rewritten. */
  ghost predicate Route(u: Update, log: seq<Attr>, attrs: seq<Attr>, state: seq<Attr>, count: nat, rest: seq<Attr>) {
    if u.InPlace? then Strip(u.attrs) == Strip(attrs) + state && Aside(state)
    else Rewrites(u.attrs, Extended(log, attrs), count, rest)
  }

  lemma {:induction false} AsideAnswers(log: seq<Attr>, rest: seq<Attr>, id: nat, q: Query)
    requires Aside(rest)
    ensures Lookup(Replay(log + rest), id, q) == Lookup(Replay(log), id, q)
  {
    AsideChangesNothing(log, rest);
  }

  /** The log either route leads to answers as the log with the attributes does. */
  lemma {:induction false} RouteLog(u: Update, log: seq<Attr>, now: seq<Attr>, attrs: seq<Attr>, state: seq<Attr>,
          count: nat, rest: seq<Attr>, id: nat, q: Query)
    requires now == if u.InPlace? then log + Strip(u.attrs) else Strip(u.attrs)
    requires Route(u, log, attrs, state, count, rest) && WellFormed(Extended(log, attrs)) && id < count && KeyQuery(q)
    ensures Lookup(Replay(now), id, q) == Lookup(Replay(Extended(log, attrs)), id, q)
  {
    hide Lookup, Replay, WellFormed, KeyQuery, Strip, Aside, Rewrites;
    if u.InPlace? {
      assert log + (Strip(attrs) + state) == Extended(log, attrs) + state;
      AsideAnswers(Extended(log, attrs), state, id, q);
    } else {
      RewrittenAnswers(u.attrs, Extended(log, attrs), count, rest, id, q);
    }
  }

  /** Whichever route a commit takes, its new contents answer as the log with the attributes does. */
  lemma {:induction false} RouteAnswers(k: Codec, b: MetadataPair.Disk, b': MetadataPair.Disk, u: Update, log: seq<Attr>,
          attrs: seq<Attr>, state: seq<Attr>, count: nat, rest: seq<Attr>, id: nat, q: Query)
    requires Begins(k, b, u) && Contents(k, b) == Some(log) && Became(k, b', NewContents(k, b, u))
    requires Route(u, log, attrs, state, count, rest) && WellFormed(Extended(log, attrs)) && id < count && KeyQuery(q)
    ensures StillAnswers(k, b', Extended(log, attrs), id, q)
  {
    RouteLog(u, log, NewContents(k, b, u), attrs, state, count, rest, id, q);
  }

  /** Cut short at any point, it answers as the log does, or as the log with the attributes. */
  lemma {:induction false} TornRouteAnswers(k: Codec, b: MetadataPair.Disk, u: Update, torn: Bytes, p: nat, log: seq<Attr>,
          attrs: seq<Attr>, state: seq<Attr>, count: nat, rest: seq<Attr>, id: nat, q: Query)
    requires Sane(k, b) && Begins(k, b, u) && Torn(k, b, u, torn, p) && Contents(k, b) == Some(log)
    requires Route(u, log, attrs, state, count, rest) && WellFormed(Extended(log, attrs)) && id < count && KeyQuery(q)
    ensures var b' := Put(b, Target(k, b, u), torn);
      StillAnswers(k, b', log, id, q) || StillAnswers(k, b', Extended(log, attrs), id, q)
  {
    UpdateIsAtomic(k, b, u, torn, p);
    var b' := Put(b, Target(k, b, u), torn);
    if Became(k, b', NewContents(k, b, u)) {
      RouteAnswers(k, b, b', u, log, attrs, state, count, rest, id, q);
    }
  }

  /** There is room for one of the two routes. */
  ghost predicate RoomToCommit(k: Codec, b: MetadataPair.Disk, log: seq<Attr>, attrs: seq<Attr>, state: seq<Attr>,
          count: nat, rest: seq<Attr>, progSize: nat)
    requires k.Lawful() && AttrsOk(attrs + state) && progSize > 0
  {
    || (RoomErased(k, b, progSize) && Fits(k, b, attrs + state))
    || Splitting.HasRoom(Splitting.Size(Compacted(Extended(log, attrs), 0, count)), Splitting.Size(rest), |b[0]|)
  }

  /** lfs_dir_relocatingcommit on a directory of `count` entries that stays in its two blocks and in one piece. */
  method CommitDirectory(k: Codec, b: MetadataPair.Disk, log: seq<Attr>, attrs: seq<Attr>, state: seq<Attr>, count: nat,
          rest: seq<Attr>, erased: Bytes, progSize: nat)
      returns (ok: bool, b': MetadataPair.Disk, ghost u: Update, ghost mid: MetadataPair.Disk)
    requires k.Lawful() && Sane(k, b) && Contents(k, b) == Some(log)
    requires AttrsOk(attrs) && Trailer(state) && Trailer(rest) && count <= 0x400 && WellFormed(Extended(log, attrs))
    requires Geometry(|b[0]|, progSize) && |b[1]| == |b[0]| == |erased|
    ensures AttrsOk(attrs + state) && (ok <==> RoomToCommit(k, b, log, attrs, state, count, rest, progSize))
    ensures ok ==> Begins(k, b, u) && Route(u, log, attrs, state, count, rest)
    ensures ok && u.InPlace? ==> |u.good| >= 4 && b' == Put(b, Target(k, b, u), u.good)
    ensures ok && u.Compaction? ==> |u.good| >= 4 && AfterAttempt(k, b, mid) && b' == Put(mid, Target(k, b, u), u.good)
    ensures ok ==> forall id, q | 0 <= id < count && KeyQuery(q) :: StillAnswers(k, b', Extended(log, attrs), id, q)
    ensures !ok ==> AfterAttempt(k, b, b')
  {
    ContentsOk(k, b);
    StripOk(attrs);
    var all := log + Strip(attrs);
    var written := Traverse(all, 0, count);
    var full := written + rest;
    FullLogOk(all, count, rest);
    RoomIsExact(k, written, rest, |erased|);
    JoinedStrip(attrs, state);
    ghost var v;
    ok, b', v, mid := PairCommit.Commit(k, b, attrs + state, erased, full, progSize);
    u := v;
    if ok {
      forall id, q | 0 <= id < count && KeyQuery(q)
        ensures StillAnswers(k, b', Extended(log, attrs), id, q)
      {
        RouteAnswers(k, b, b', v, log, attrs, state, count, rest, id, q);
      }
    }
  }

  lemma {:induction false} JoinedStrip(attrs: seq<Attr>, state: seq<Attr>)
    requires AttrsOk(attrs) && Trailer(state)
    ensures AttrsOk(attrs + state) && Strip(attrs + state) == Strip(attrs) + state
  {
    StripConcat(attrs, state);
    StripNothing(state);
  }
}
