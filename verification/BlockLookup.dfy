/** Looking one attribute up in a metadata block (lfs_dir_getslice): from where a fetch left off back over the bytes of
    the block, from tag to tag, to what a replay of the fetched log holds. */
module BlockLookup {
  import opened Bits
  import opened Words
  import opened WordBits
  import opened Wrappers
  import opened Tags
  import opened TagWords
  import opened MetadataLog
  import opened CommitFormat

  /** A word that is loaded with the word behind it in place of the word before it gives the word before it, but for
      the top bits: a tag leads back to the one it was stored behind. */
  ghost predicate Reversible(k: Codec) {
    forall s: Bytes, p, q {:trigger k.load(s, p), k.load(s, q)} |
      |s| == 4 && 0 <= p < WORD_LIMIT && 0 <= q < WORD_LIMIT && q % TOP == k.load(s, p) % TOP ::
      k.load(s, q) % TOP == p % TOP
  }

  // ---------------------------------------------------------------- the tags a fetch passes

  /** A tag where it stands in the block, with the word it is stored behind. */
  datatype Visit = Visit(off: nat, ptag: nat, tag: Tag)

  ghost predicate Stored(k: Codec, block: Bytes, v: Visit) {
    && TagFits(v.tag) && v.ptag < WORD_LIMIT
    && 4 <= v.off && v.off + v.tag.Dsize() <= |block|
    && k.load(block[v.off..v.off + 4], v.ptag) == Pack(v.tag)
  }

  /** The tags from the first of the block on to `off`, the last of them known as ptag but for the valid bit. */
  ghost predicate Path(k: Codec, block: Bytes, path: seq<Visit>, off: nat, ptag: nat)
    decreases |path|
  {
    && ptag < WORD_LIMIT
    && if path == [] then off == 4 && ptag == ALL_ONES
       else
         var v := path[|path| - 1];
         && Stored(k, block, v) && off == v.off + v.tag.Dsize() && ptag % TOP == Pack(v.tag)
         && Path(k, block, path[..|path| - 1], v.off, v.ptag)
  }

  function AttrAt(block: Bytes, off: nat, tag: Tag): Attr
    requires off + tag.Dsize() <= |block|
  {
    Attr(tag, block[off + 4..off + tag.Dsize()])
  }

  ghost predicate InBlock(block: Bytes, path: seq<Visit>) {
    forall i | 0 <= i < |path| :: path[i].off + path[i].tag.Dsize() <= |block|
  }

  /** The attributes among the tags of a path: all but the CRC tags. */
  function AttrsOf(block: Bytes, path: seq<Visit>): seq<Attr>
    requires InBlock(block, path)
    decreases |path|
  {
    if path == [] then []
    else
      var v := path[|path| - 1];
      AttrsOf(block, path[..|path| - 1]) + if IsCrc(v.tag) then [] else [AttrAt(block, v.off, v.tag)]
  }

  lemma {:induction false} PathInBlock(k: Codec, block: Bytes, path: seq<Visit>, off: nat, ptag: nat)
    requires Path(k, block, path, off, ptag)
    ensures InBlock(block, path)
    decreases |path|
  {
    hide Pack, TagFits;
    if path != [] {
      var v := path[|path| - 1];
      PathInBlock(k, block, path[..|path| - 1], v.off, v.ptag);
    }
  }

  /** The path leads to off and ptag, and the attributes on it are the log. */
  ghost predicate Brings(k: Codec, block: Bytes, path: seq<Visit>, off: nat, ptag: nat, log: seq<Attr>) {
    Path(k, block, path, off, ptag) && (PathInBlock(k, block, path, off, ptag); AttrsOf(block, path) == log)
  }

  lemma {:induction false} BringsMore(k: Codec, block: Bytes, path: seq<Visit>, v: Visit, off: nat, ptag: nat,
          log: seq<Attr>)
    requires Brings(k, block, path, v.off, v.ptag, log) && Stored(k, block, v)
    requires off == v.off + v.tag.Dsize() && ptag < WORD_LIMIT && ptag % TOP == Pack(v.tag)
    ensures Brings(k, block, path + [v], off, ptag, log + if IsCrc(v.tag) then [] else [AttrAt(block, v.off, v.tag)])
  {
    assert (path + [v])[..|path|] == path;
  }

  /** What is left of a log one tag further back. */
  function Before(log: seq<Attr>, t: Tag): seq<Attr>
    requires IsCrc(t) || log != []
  {
    if IsCrc(t) then log else log[..|log| - 1]
  }

  lemma {:induction false} BringsLess(k: Codec, block: Bytes, path: seq<Visit>, off: nat, ptag: nat, log: seq<Attr>)
    requires Brings(k, block, path, off, ptag, log) && path != []
    ensures var v := path[|path| - 1];
      && Stored(k, block, v) && off == v.off + v.tag.Dsize() && ptag % TOP == Pack(v.tag)
      && (IsCrc(v.tag) || (log != [] && log[|log| - 1] == AttrAt(block, v.off, v.tag)))
      && Brings(k, block, path[..|path| - 1], v.off, v.ptag, Before(log, v.tag))
  {
    var v := path[|path| - 1];
    PathInBlock(k, block, path, off, ptag);
    PathInBlock(k, block, path[..|path| - 1], v.off, v.ptag);
    var front := AttrsOf(block, path[..|path| - 1]);
    assert front + [] == front;
    assert (front + [AttrAt(block, v.off, v.tag)])[..|front|] == front;
  }

  lemma ExpectedMod(t: Tag)
    requires TagFits(t)
    ensures Expected(t) % TOP == Pack(t) == Pack(t) % TOP
  {
    DivModUnique(Pack(t), TOP, 0, Pack(t));
    DivModUnique(Pack(t) + TOP, TOP, 1, Pack(t));
  }

  /** A fetch goes along a path of tags, and what it finds is what is on the path. */
  lemma {:induction false} ScanHasPath(k: Codec, block: Bytes, c: Cursor, done: Committed, here: seq<Visit>,
          last: seq<Visit>)
      returns (path: seq<Visit>)
    requires k.Lawful() && c.Ok() && Brings(k, block, here, c.off, c.ptag, done.log + c.pending)
    requires if done.off == 0 then done.log == [] else Brings(k, block, last, done.off, done.etag, done.log)
    ensures var dir := Scan(k, block, c, done);
      dir.off == 0 || Brings(k, block, path, dir.off, dir.etag, dir.log)
    decreases |block| - c.off
  {
    match ReadItem(k, block, c)
    case Stop =>
      path := last;
    case Entry(next) =>
      var here' := EntryOnPath(k, block, c, done.log, here);
      path := ScanHasPath(k, block, next, done, here', last);
    case Commit(next, attrs) =>
      var here' := CommitOnPath(k, block, c, done.log, here);
      path := ScanHasPath(k, block, next, Committed(done.log + attrs, next.off, next.ptag), here', here');
  }

  /** The tag at a cursor, if it is a tag. */
  function VisitAt(k: Codec, block: Bytes, c: Cursor): Visit
    requires c.off + 4 <= |block|
  {
    Visit(c.off, c.ptag, Unpack(k.load(block[c.off..c.off + 4], c.ptag)))
  }

  lemma {:induction false} EntryOnPath(k: Codec, block: Bytes, c: Cursor, log: seq<Attr>, here: seq<Visit>)
      returns (path: seq<Visit>)
    requires k.Lawful() && c.Ok() && Brings(k, block, here, c.off, c.ptag, log + c.pending)
    requires ReadItem(k, block, c).Entry?
    ensures var next := ReadItem(k, block, c).next; Brings(k, block, path, next.off, next.ptag, log + next.pending)
  {
    hide Brings, Pack, Unpack;
    var next := ReadItem(k, block, c).next;
    var v := VisitAt(k, block, c);
    UnpackFits(k.load(block[c.off..c.off + 4], c.ptag));
    ExpectedMod(v.tag);
    BringsFour(k, block, here, c.off, c.ptag, log + c.pending);
    BringsMore(k, block, here, v, next.off, next.ptag, log + c.pending);
    path := here + [v];
    assert log + next.pending == log + c.pending + [AttrAt(block, c.off, v.tag)];
  }

  lemma {:induction false} CommitOnPath(k: Codec, block: Bytes, c: Cursor, log: seq<Attr>, here: seq<Visit>)
      returns (path: seq<Visit>)
    requires k.Lawful() && c.Ok() && Brings(k, block, here, c.off, c.ptag, log + c.pending)
    requires ReadItem(k, block, c).Commit?
    ensures var next := ReadItem(k, block, c).next;
      next.pending == [] && ReadItem(k, block, c).attrs == c.pending && next.off > 0
    ensures var next := ReadItem(k, block, c).next; Brings(k, block, path, next.off, next.ptag, log + c.pending)
    ensures var next := ReadItem(k, block, c).next; Brings(k, block, path, next.off, next.ptag, log + c.pending + [])
  {
    hide Brings, Pack, Unpack;
    var next := ReadItem(k, block, c).next;
    var v := VisitAt(k, block, c);
    UnpackFits(k.load(block[c.off..c.off + 4], c.ptag));
    ExpectedMod(v.tag);
    BringsFour(k, block, here, c.off, c.ptag, log + c.pending);
    BringsMore(k, block, here, v, next.off, next.ptag, log + c.pending);
    path := here + [v];
    assert log + c.pending + [] == log + c.pending;
  }

  lemma {:induction false} BringsFour(k: Codec, block: Bytes, path: seq<Visit>, off: nat, ptag: nat, log: seq<Attr>)
    requires Brings(k, block, path, off, ptag, log)
    ensures off >= 4 && (path == [] <==> off == 4) && ptag < WORD_LIMIT
  {
  }

  lemma {:induction false} FetchHasPath(k: Codec, block: Bytes) returns (path: seq<Visit>)
    requires k.Lawful() && |block| >= 4
    ensures var dir := Fetch(k, block); dir.off == 0 || Brings(k, block, path, dir.off, dir.etag, dir.log)
  {
    assert NOTHING.log + Start(k, block).pending == [];
    path := ScanHasPath(k, block, Start(k, block), NOTHING, [], []);
  }

  // ---------------------------------------------------------------- the way back

  lemma UnpackMod(w: nat)
    ensures Unpack(w) == Unpack(w % TOP)
  {
    var q, r := w / TOP, w % TOP;
    assert w / 0x10_0000 == q * 0x800 + r / 0x10_0000;
    assert w / 0x400 == q * 0x20_0000 + r / 0x400;
    assert r / 0x400 % 0x400 == (q * 0x20_0000 + r / 0x400) % 0x400;
  }

  lemma {:induction false} EmptyPath(k: Codec, block: Bytes, off: nat, ptag: nat, log: seq<Attr>)
    requires Brings(k, block, [], off, ptag, log)
    ensures off == 4 && ptag == ALL_ONES && log == []
  {
  }

  /** One turn: the word at hand says where its own tag stands, and with what is stored there, which word came before. */
  lemma {:induction false} BackOne(k: Codec, block: Bytes, path: seq<Visit>, off: nat, ptag: nat, log: seq<Attr>, ntag: nat)
    requires k.Lawful() && Reversible(k) && Brings(k, block, path, off, ptag, log)
    requires ntag < WORD_LIMIT && ntag % TOP == ptag % TOP
    ensures path != [] <==> off >= 4 + Unpack(ntag).Dsize()
    ensures path != [] ==>
              var v := path[|path| - 1];
              && Unpack(ntag) == v.tag && off - v.tag.Dsize() == v.off
              && k.load(block[v.off..v.off + 4], ntag) % TOP == v.ptag % TOP
  {
    hide Brings, Pack;
    UnpackMod(ntag);
    if path == [] {
      EmptyPath(k, block, off, ptag, log);
      assert ALL_ONES % TOP == 0x7fff_ffff && Unpack(0x7fff_ffff).size == DELETED;
    } else {
      BringsLess(k, block, path, off, ptag, log);
      var v := path[|path| - 1];
      PackRoundTrip(v.tag);
      DivModUnique(Pack(v.tag), TOP, 0, Pack(v.tag));
      BringsFour(k, block, path[..|path| - 1], v.off, v.ptag, Before(log, v.tag));
    }
  }

  /** What a lookup comes to one tag further back. */
  lemma {:induction false} LookupBack(log: seq<Attr>, block: Bytes, off: nat, t: Tag, g: nat, q: Query)
    requires WellFormed(log) && IdQuery(q) && off + t.Dsize() <= |block|
    requires IsCrc(t) || (log != [] && log[|log| - 1] == AttrAt(block, off, t))
    ensures WellFormed(Before(log, t))
    ensures t != Tag(TYPE_CREATE, g, 0) ==> Earlier(t, g) >= 0
    ensures Lookup(Replay(log), g, q) ==
            if t == Tag(TYPE_CREATE, g, 0) then None
            else if q.Matches(t.typ) && t.id == g then
              if t.IsDelete() then None else Some(Value(t.typ, t.size, block[off + 4..off + t.Dsize()]))
            else Lookup(Replay(Before(log, t)), Earlier(t, g), q)
  {
    hide Replay, Lookup;
    NoSpliceMatches(q, t);
    if IsCrc(t) {
      assert t.typ >= TYPE_SPLICE + 0x100;
    } else {
      StepBack(log, |log|, g, q);
      assert log[..|log|] == log;
    }
  }

  lemma ReplayNothing(g: nat, q: Query)
    ensures Lookup(Replay([]), g, q) == None
  {
  }

  /** lfs_dir_getslice with an id in its mask, on a block that a fetch found commits in, with `pending` the id of an
      entry that is being moved away from the pair, if any. */
  method GetSlice(k: Codec, block: Bytes, dir: Committed, q: Query, id: nat, pending: Option<nat>) returns (r: Found)
    requires k.Lawful() && Reversible(k) && |block| >= 4 && dir == Fetch(k, block) && dir.off > 0
    requires WellFormed(dir.log) && IdQuery(q)
    ensures pending == None ==> r == AsFound(Lookup(Replay(dir.log), id, q), id)
    ensures pending.Some? && pending.value == id ==> r == NoEntry
    ensures pending.Some? && pending.value > id ==> r == AsFound(Lookup(Replay(dir.log), id, q), id)
    ensures pending.Some? && pending.value < id ==> r == AsFound(Lookup(Replay(dir.log), id + 1, q), id)
    // what is found has the type asked for, under the mask
    ensures r.Found? ==> r.tag.typ < 0x800 && And(Mask(q), r.tag.typ) == And(Mask(q), q.typ)
  {
    hide Replay, Lookup, Fetch, Brings, Reversible, WellFormed;
    var diff: int := 0;
    // synthetic moves
    if pending.Some? {
      if pending.value == id {
        return NoEntry;
      } else if pending.value < id {
        diff := -1;
      }
    }
    ghost var path := FetchHasPath(k, block);
    r := ScanBack(k, block, dir, q, id, diff, path);
  }

  /** The loop of lfs_dir_getslice. */
  method ScanBack(k: Codec, block: Bytes, dir: Committed, q: Query, id: nat, gdiff: int, ghost all: seq<Visit>)
      returns (r: Found)
    requires k.Lawful() && Reversible(k) && Brings(k, block, all, dir.off, dir.etag, dir.log)
    requires WellFormed(dir.log) && IdQuery(q) && id - gdiff >= 0
    ensures r == AsFound(Lookup(Replay(dir.log), id - gdiff, q), id)
    ensures r.Found? ==> r.tag.typ < 0x800 && And(Mask(q), r.tag.typ) == And(Mask(q), q.typ)
  {
    hide Replay, Lookup, Brings, Reversible, Unpack, WellFormed, AttrAt;
    BringsFour(k, block, all, dir.off, dir.etag, dir.log);
    var off: nat, ntag: nat, diff := dir.off, dir.etag, gdiff;
    ghost var g: nat := id - diff;
    ghost var wanted := Lookup(Replay(dir.log), g, q);
    ghost var path, ptag: nat, log := all, dir.etag, dir.log;
    BackOne(k, block, path, off, ptag, log, ntag);
    while off >= 4 + Unpack(ntag).Dsize()
      invariant ntag < WORD_LIMIT && ntag % TOP == ptag % TOP && Brings(k, block, path, off, ptag, log)
      invariant path != [] <==> off >= 4 + Unpack(ntag).Dsize()
      invariant g == id - diff && WellFormed(log) && wanted == Lookup(Replay(log), g, q)
      decreases |path|
    {
      BackOne(k, block, path, off, ptag, log, ntag);
      BringsLess(k, block, path, off, ptag, log);
      var tag := Unpack(ntag);
      off := off - tag.Dsize();
      ntag := k.load(block[off..off + 4], ntag) % TOP;
      LookupBack(log, block, off, tag, g, q);
      NoSpliceMatches(q, tag);
      if tag.IsSplice() && tag.id <= id - diff {
        if tag == Tag(TYPE_CREATE, id - diff, 0) {
          // the entry came to be here
          return NoEntry;
        }
        // the id it had before the splice
        diff := diff + Splice(tag.typ);
      }
      if q.Matches(tag.typ) && tag.id == id - diff {
        if tag.IsDelete() {
          return NoEntry;
        }
        MatchIsMasked(q, tag.typ);
        return Found(Tag(tag.typ, tag.id + diff, tag.size), block[off + 4..off + tag.Dsize()]);
      }
      path, ptag, log, g := path[..|path| - 1], path[|path| - 1].ptag, Before(log, tag), Earlier(tag, g);
      BackOne(k, block, path, off, ptag, log, ntag);
    }
    EmptyPath(k, block, off, ptag, log);
    ReplayNothing(g, q);
    r := NoEntry;
  }
}
