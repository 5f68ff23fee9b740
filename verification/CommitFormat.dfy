/** The bytes of a metadata block: how a commit is written (lfs_dir_commitattr, the commit's CRC tag)
    and how lfs_dir_fetchmatch reads the block back, over any lawful way of storing words. */
module CommitFormat {
  import opened Bits
  import opened Words
  import opened Wrappers
  import opened Tags
  import opened MetadataLog

  type Bytes = seq<Byte>

  const TYPE_CCRC: nat := 0x500
  const TYPE_FCRC: nat := 0x5ff
  const TOP: nat := 0x8000_0000
  const ALL_ONES: nat := 0xffff_ffff

  // ---------------------------------------------------------------- storing words

  /** How tag words go to disk behind the word before them, and the running checksum. */
  datatype Codec = Codec(store: (nat, nat) -> Bytes, load: (Bytes, nat) -> nat, crc: (nat, Bytes) -> nat) {
    /** Loading undoes storing; the top bit of a loaded word tells whether the first stored byte agrees with
        the word before; checksums run on. */
    ghost predicate Lawful() {
      && (forall w, p {:trigger store(w, p)} | 0 <= w < WORD_LIMIT && 0 <= p < WORD_LIMIT ::
            |store(w, p)| == 4 && load(store(w, p), p) == w)
      && (forall s: Bytes, p {:trigger load(s, p)} | |s| == 4 && 0 <= p < WORD_LIMIT ::
            load(s, p) < WORD_LIMIT && (load(s, p) >= TOP <==> s[0] / 0x80 != p / TOP))
      && (forall c, x, y {:trigger crc(c, x + y)} | 0 <= c < WORD_LIMIT :: crc(c, x + y) == crc(crc(c, x), y))
      && (forall c, x {:trigger crc(c, x)} | 0 <= c < WORD_LIMIT :: crc(c, x) < WORD_LIMIT)
      && (forall c {:trigger crc(c, [])} | 0 <= c < WORD_LIMIT :: crc(c, []) == c)
    }
  }

  // ---------------------------------------------------------------- tags on disk

  predicate IsCrc(t: Tag) {
    t.typ / 0x80 == TYPE_CCRC / 0x80
  }

  predicate TagFits(t: Tag) {
    t.typ < 0x800 && t.id < 0x400 && t.size < 0x400
  }

  /** A CRC tag whose chunk is odd flips the valid bit expected of the next tag. */
  function Expected(t: Tag): (w: nat)
    requires TagFits(t)
    ensures w < WORD_LIMIT
  {
    Pack(t) + if IsCrc(t) && t.typ % 2 == 1 then TOP else 0
  }

  // ---------------------------------------------------------------- reading

  /** Where the reader stands within the commit it is checking. */
  datatype Cursor = Cursor(off: nat, ptag: nat, crc: nat, pending: seq<Attr>) {
    predicate Ok() {
      ptag < WORD_LIMIT && crc < WORD_LIMIT
    }
  }

  /** What lfs_dir_fetchmatch has found so far; off is 0 before the first sound commit. */
  datatype Committed = Committed(log: seq<Attr>, off: nat, etag: nat)

  datatype Item = Stop | Entry(next: Cursor) | Commit(next: Cursor, attrs: seq<Attr>)

  /** One turn of the fetch loop. */
  function ReadItem(k: Codec, block: Bytes, c: Cursor): (r: Item)
    requires k.Lawful() && c.Ok()
    ensures r != Stop ==> r.next.Ok() && r.next.off >= c.off + 4 && r.next.off <= |block|
  {
    if c.off + 4 > |block| then Stop
    else
      var word := block[c.off..c.off + 4];
      var w := k.load(word, c.ptag);
      var tag := Unpack(w);
      var crc := k.crc(c.crc, word);
      if w >= TOP then Stop                                    // no further tag was programmed
      else if c.off + tag.Dsize() > |block| then Stop          // the tag says more than there is
      else if IsCrc(tag) then
        if c.off + 8 > |block| || FromLe32(block[c.off + 4..c.off + 8]) != crc then Stop
        else Commit(Cursor(c.off + tag.Dsize(), Expected(tag), ALL_ONES, []), c.pending)
      else
        var data := block[c.off + 4..c.off + tag.Dsize()];
        Entry(Cursor(c.off + tag.Dsize(), Pack(tag), k.crc(crc, data), c.pending + [Attr(tag, data)]))
  }

  function Scan(k: Codec, block: Bytes, c: Cursor, done: Committed): Committed
    requires k.Lawful() && c.Ok()
    decreases |block| - c.off
  {
    match ReadItem(k, block, c)
    case Stop => done
    case Entry(next) => Scan(k, block, next, done)
    case Commit(next, attrs) => Scan(k, block, next, Committed(done.log + attrs, next.off, next.ptag))
  }

  function Start(k: Codec, block: Bytes): (c: Cursor)
    requires k.Lawful() && |block| >= 4
    ensures c.Ok()
  {
    Cursor(4, ALL_ONES, k.crc(ALL_ONES, block[..4]), [])
  }

  const NOTHING := Committed([], 0, 0)

  function Fetch(k: Codec, block: Bytes): Committed
    requires k.Lawful() && |block| >= 4
  {
    Scan(k, block, Start(k, block), NOTHING)
  }

  predicate IsTail(t: Tag) {
    t.typ / 0x100 == TYPE_TAIL / 0x100
  }

  /** The last tail of a log, by which the directory goes on. */
  function LastTail(log: seq<Attr>): Option<Attr> {
    if log == [] then None
    else if IsTail(log[|log| - 1].tag) then Some(log[|log| - 1])
    else LastTail(log[..|log| - 1])
  }

  lemma LastTailSnoc(log: seq<Attr>, pending: seq<Attr>, a: Attr)
    ensures LastTail(log + (pending + [a])) == if IsTail(a.tag) then Some(a) else LastTail(log + pending)
  {
    assert (log + (pending + [a]))[..|log + pending|] == log + pending;
  }

  /** The fetch loop itself. */
  method FetchBlock(k: Codec, block: Bytes) returns (dir: Committed, tail: Option<Attr>)
    requires k.Lawful() && |block| >= 4
    ensures dir == Fetch(k, block) && tail == LastTail(dir.log)
  {
    dir, tail := NOTHING, None;
    var c, tempTail := Start(k, block), None;
    while true
      invariant c.Ok() && Scan(k, block, c, dir) == Fetch(k, block)
      invariant tail == LastTail(dir.log) && tempTail == LastTail(dir.log + c.pending)
      decreases |block| - c.off
    {
      match ReadItem(k, block, c)
      case Stop =>
        break;
      case Entry(next) =>
        var a := next.pending[|c.pending|];
        LastTailSnoc(dir.log, c.pending, a);
        if IsTail(a.tag) {
          tempTail := Some(a);
        }
        c := next;
      case Commit(next, attrs) =>
        dir := Committed(dir.log + attrs, next.off, next.ptag);
        assert dir.log + [] == dir.log;
        tail := tempTail;
        c := next;
    }
  }

  // ---------------------------------------------------------------- writing

  predicate AttrOk(a: Attr) {
    TagFits(a.tag) && !IsCrc(a.tag) && |a.data| == a.tag.Dsize() - 4
  }

  ghost predicate AttrsOk(attrs: seq<Attr>) {
    forall i | 0 <= i < |attrs| :: AttrOk(attrs[i])
  }

  function LastTag(attrs: seq<Attr>, ptag: nat): (w: nat)
    requires AttrsOk(attrs) && ptag < WORD_LIMIT
    ensures w < WORD_LIMIT
  {
    if attrs == [] then ptag else assert AttrOk(attrs[|attrs| - 1]); Pack(attrs[|attrs| - 1].tag)
  }

  /** A tag as stored behind the word before it. */
  function TagBytes(k: Codec, t: Tag, ptag: nat): (s: Bytes)
    requires k.Lawful() && TagFits(t) && ptag < WORD_LIMIT
    ensures |s| == 4
  {
    k.store(Pack(t), ptag)
  }

  /** The bytes lfs_dir_commitattr programs. */
  function Encode(k: Codec, attrs: seq<Attr>, ptag: nat): Bytes
    requires k.Lawful() && AttrsOk(attrs) && ptag < WORD_LIMIT
  {
    if attrs == [] then []
    else
      var front, a := attrs[..|attrs| - 1], attrs[|attrs| - 1];
      assert AttrOk(a);
      Encode(k, front, ptag) + (TagBytes(k, a.tag, LastTag(front, ptag)) + a.data)
  }

  ghost predicate CrcTagOk(t: Tag) {
    TagFits(t) && IsCrc(t) && 4 <= t.size < DELETED
  }

  function CrcBytes(k: Codec, crcTag: Tag, ptag: nat, crc: nat): (s: Bytes)
    requires k.Lawful() && TagFits(crcTag) && ptag < WORD_LIMIT && crc < WORD_LIMIT
    ensures |s| == 8
  {
    var word := TagBytes(k, crcTag, ptag);
    word + ToLe32(k.crc(crc, word))
  }

  /** `bytes` stand in the block at off. */
  ghost predicate Stands(block: Bytes, off: nat, bytes: Bytes) {
    off + |bytes| <= |block| && block[off..off + |bytes|] == bytes
  }

  lemma StandsParts(block: Bytes, off: nat, a: Bytes, b: Bytes)
    requires Stands(block, off, a + b)
    ensures Stands(block, off, a) && Stands(block, off + |a|, b)
  {
    var s := block[off..off + |a| + |b|];
    assert block[off..off + |a|] == s[..|a|] == a;
    assert block[off + |a|..off + |a| + |b|] == s[|a|..] == b;
  }

  lemma UnpackFits(w: nat)
    requires w < TOP
    ensures TagFits(Unpack(w)) && Pack(Unpack(w)) == w
  {
    var q, size := w / 0x400, w % 0x400;
    var typ, id := q / 0x400, q % 0x400;
    DivModUnique(w, 0x10_0000, typ, id * 0x400 + size);
  }

  lemma Le32Same(s: Bytes)
    requires |s| == 4
    ensures ToLe32(FromLe32(s)) == s
  {
    var a: int, b: int, c: int, d: int := s[0], s[1], s[2], s[3];
    var n := FromLe32(s);
    DivModUnique(n, 0x100, d * 0x1_0000 + c * 0x100 + b, a);
    DivModUnique(n, 0x1_0000, d * 0x100 + c, b * 0x100 + a);
    DivModUnique(n, 0x100_0000, d, c * 0x1_0000 + b * 0x100 + a);
  }

  /** Reading a stored tag gives the tag back, valid. */
  lemma TagReadBack(k: Codec, t: Tag, ptag: nat)
    requires k.Lawful() && TagFits(t) && ptag < WORD_LIMIT
    ensures k.load(TagBytes(k, t, ptag), ptag) == Pack(t) < TOP
    ensures Unpack(Pack(t)) == t
  {
    PackRoundTrip(t);
  }

  /** The cursor after one attribute. */
  function AfterAttr(k: Codec, c: Cursor, a: Attr): (r: Cursor)
    requires k.Lawful() && c.Ok() && AttrOk(a)
    ensures r.Ok()
  {
    Cursor(c.off + 4 + |a.data|, Pack(a.tag), k.crc(c.crc, TagBytes(k, a.tag, c.ptag) + a.data), c.pending + [a])
  }

  lemma ReadOne(k: Codec, block: Bytes, c: Cursor, a: Attr)
    requires k.Lawful() && c.Ok() && AttrOk(a) && Stands(block, c.off, TagBytes(k, a.tag, c.ptag) + a.data)
    ensures ReadItem(k, block, c) == Entry(AfterAttr(k, c, a))
  {
    StandsParts(block, c.off, TagBytes(k, a.tag, c.ptag), a.data);
    TagReadBack(k, a.tag, c.ptag);
    assert k.crc(c.crc, TagBytes(k, a.tag, c.ptag) + a.data) == k.crc(k.crc(c.crc, TagBytes(k, a.tag, c.ptag)), a.data);
  }

  /** The cursor after a run of attributes. */
  function After(k: Codec, c: Cursor, attrs: seq<Attr>): (r: Cursor)
    requires k.Lawful() && c.Ok() && AttrsOk(attrs)
    ensures r.Ok()
  {
    var bytes := Encode(k, attrs, c.ptag);
    Cursor(c.off + |bytes|, LastTag(attrs, c.ptag), k.crc(c.crc, bytes), c.pending + attrs)
  }

  lemma AfterOneMore(k: Codec, c: Cursor, front: seq<Attr>, a: Attr)
    requires k.Lawful() && c.Ok() && AttrsOk(front) && AttrOk(a)
    ensures AttrsOk(front + [a])
    ensures Encode(k, front + [a], c.ptag) == Encode(k, front, c.ptag) + (TagBytes(k, a.tag, After(k, c, front).ptag) + a.data)
    ensures AfterAttr(k, After(k, c, front), a) == After(k, c, front + [a])
  {
    assert (front + [a])[..|front|] == front;
    var more := TagBytes(k, a.tag, After(k, c, front).ptag) + a.data;
    assert k.crc(c.crc, Encode(k, front, c.ptag) + more) == k.crc(k.crc(c.crc, Encode(k, front, c.ptag)), more);
    assert c.pending + front + [a] == c.pending + (front + [a]);
  }

  /** The cursor after the CRC tag that closes a commit. */
  function AfterCommit(c: Cursor, crcTag: Tag): (r: Cursor)
    requires c.Ok() && TagFits(crcTag)
    ensures r.Ok()
  {
    Cursor(c.off + crcTag.Dsize(), Expected(crcTag), ALL_ONES, [])
  }

  lemma ReadCrc(k: Codec, block: Bytes, c: Cursor, crcTag: Tag)
    requires k.Lawful() && c.Ok() && TagFits(crcTag) && IsCrc(crcTag)
    requires Stands(block, c.off, CrcBytes(k, crcTag, c.ptag, c.crc))
    requires c.off + crcTag.Dsize() <= |block|
    ensures ReadItem(k, block, c) == Commit(AfterCommit(c, crcTag), c.pending)
  {
    var word := TagBytes(k, crcTag, c.ptag);
    StandsParts(block, c.off, word, ToLe32(k.crc(c.crc, word)));
    TagReadBack(k, crcTag, c.ptag);
    Le32RoundTrip(k.crc(c.crc, word));
  }

  /** The first byte of unprogrammed storage, as lfs_dir_commitcrc sampled it, makes the reader stop there:
      its top bit is the opposite of the one the flipped valid bit asks for. */
  lemma ErasedStops(k: Codec, block: Bytes, c: Cursor)
    requires k.Lawful() && c.Ok() && c.off < |block| && c.ptag / TOP == 1 - block[c.off] / 0x80
    ensures ReadItem(k, block, c) == Stop
  {
    if c.off + 4 <= |block| {
      var word := block[c.off..c.off + 4];
      assert word[0] == block[c.off];
    }
  }
}
