/** Writing a commit: lfs_dir_commitattr and lfs_dir_commitcrc on the image of a block, proved against
    what the reader finds in it afterwards. */
module CommitWriter {
  import opened Bits
  import opened Words
  import opened Wrappers
  import opened Tags
  import opened MetadataLog
  import opened CommitFormat
  import opened CommitTrail

  /** A log without its forward checksums, which say nothing about the directory. */
  function Strip(log: seq<Attr>): seq<Attr> {
    if log == [] then []
    else
      var a := log[|log| - 1];
      Strip(log[..|log| - 1]) + if a.tag.typ == TYPE_FCRC then [] else [a]
  }

  lemma {:induction false} StripConcat(a: seq<Attr>, b: seq<Attr>)
    ensures Strip(a + b) == Strip(a) + Strip(b)
  {
    if b == [] {
      assert a + b == a;
    } else {
      assert (a + b)[..|a + b| - 1] == a + b[..|b| - 1];
      StripConcat(a, b[..|b| - 1]);
    }
  }

  lemma StripOne(a: Attr)
    ensures Strip([a]) == if a.tag.typ == TYPE_FCRC then [] else [a]
  {
    assert [a][..0] == [];
  }

  /** Nothing else is left out. */
  lemma {:induction false} StripIs(log: seq<Attr>, a: Attr)
    ensures a in Strip(log) <==> a in log && a.tag.typ != 0x5ff
  {
    if log != [] {
      StripIs(log[..|log| - 1], a);
      assert log == log[..|log| - 1] + [log[|log| - 1]];
    }
  }

  /** Leaving the forward checksums aside changes nothing in the directory. */
  lemma {:induction false} StripAnswers(log: seq<Attr>)
    ensures Replay(Strip(log)) == Replay(log)
  {
    if log != [] {
      var front, a := log[..|log| - 1], log[|log| - 1];
      StripAnswers(front);
      assert log == front + [a];
      StripConcat(front, [a]);
      StripOne(a);
      if a.tag.typ == TYPE_FCRC {
        assert Strip(front) + [] == Strip(front);
      } else {
        ReplaySnoc(Strip(front), a);
      }
    }
  }

  // ---------------------------------------------------------------- attributes

  /** lfs_dir_commitattr: refuses when the attribute does not fit below `end`. */
  method CommitAttr(k: Codec, image: Bytes, c: Cursor, a: Attr, end: nat) returns (ok: bool, image': Bytes, c': Cursor)
    requires k.Lawful() && c.Ok() && AttrOk(a) && end <= |image|
    ensures ok <==> c.off + a.tag.Dsize() <= end
    ensures ok ==> c' == AfterAttr(k, c, a) && image' == Patch(image, c.off, TagBytes(k, a.tag, c.ptag) + a.data)
    ensures !ok ==> c' == c && image' == image
  {
    if c.off + a.tag.Dsize() > end {
      return false, image, c;
    }
    ok := true;
    image' := Patch(image, c.off, TagBytes(k, a.tag, c.ptag) + a.data);
    c' := AfterAttr(k, c, a);
  }

  /** The attributes of a commit so far: written from `entry` on, with the cursor behind them. */
  ghost predicate Written(k: Codec, image: Bytes, entry: Cursor, c: Cursor) {
    && k.Lawful() && entry.Ok() && entry.pending == [] && AttrsOk(c.pending)
    && c == After(k, entry, c.pending)
    && Stands(image, entry.off, Encode(k, c.pending, entry.ptag))
  }

  lemma {:induction false} WrittenOneMore(k: Codec, image: Bytes, entry: Cursor, c: Cursor, a: Attr)
    requires Written(k, image, entry, c) && c.Ok() && AttrOk(a) && c.off + a.tag.Dsize() <= |image|
    ensures var image' := Patch(image, c.off, TagBytes(k, a.tag, c.ptag) + a.data);
      && Written(k, image', entry, AfterAttr(k, c, a)) && Agree(image, image', c.off)
      && image'[c.off + a.tag.Dsize()..] == image[c.off + a.tag.Dsize()..]
  {
    hide Encode, Stands, Agree, Patch, LastTag;
    var bytes := TagBytes(k, a.tag, c.ptag) + a.data;
    var image' := Patch(image, c.off, bytes);
    CursorOneMore(k, entry, c, a);
    PatchBehind(image, entry.off, Encode(k, c.pending, entry.ptag), bytes);
  }

  lemma {:induction false} CursorOneMore(k: Codec, entry: Cursor, c: Cursor, a: Attr)
    requires k.Lawful() && entry.Ok() && c.Ok() && entry.pending == [] && AttrsOk(c.pending) && AttrOk(a)
    requires c == After(k, entry, c.pending)
    ensures AttrsOk(c.pending + [a])
    ensures AfterAttr(k, c, a) == After(k, entry, c.pending + [a])
    ensures Encode(k, c.pending + [a], entry.ptag) == Encode(k, c.pending, entry.ptag) + (TagBytes(k, a.tag, c.ptag) + a.data)
  {
    AfterOneMore(k, entry, c.pending, a);
    assert entry.pending + c.pending == c.pending;
  }

  lemma {:induction false} PatchBehind(image: Bytes, off: nat, front: Bytes, bytes: Bytes)
    requires Stands(image, off, front) && off + |front| + |bytes| <= |image|
    ensures var image' := Patch(image, off + |front|, bytes);
      && Stands(image', off, front + bytes) && Stands(image', off, front) && Stands(image', off + |front|, bytes)
      && Agree(image, image', off + |front|)
      && image'[off + |front| + |bytes|..] == image[off + |front| + |bytes|..]
  {
    var p := off + |front|;
    var image' := Patch(image, p, bytes);
    assert image'[..p] == image[..p];
    assert image'[off..p] == image'[..p][off..p] == image[..p][off..p] == image[off..p];
    assert image'[p..p + |bytes|] == bytes;
    assert image'[off..p + |bytes|] == image'[off..p] + image'[p..p + |bytes|];
  }

  /** One more attribute behind those already written. */
  method AppendAttr(k: Codec, image: Bytes, ghost entry: Cursor, c: Cursor, a: Attr, end: nat)
      returns (ok: bool, image': Bytes, c': Cursor)
    requires Written(k, image, entry, c) && c.Ok() && AttrOk(a) && end <= |image|
    ensures ok <==> c.off + a.tag.Dsize() <= end
    ensures |image'| == |image| && Agree(image, image', c.off)
    ensures ok ==> Written(k, image', entry, c') && c'.Ok()
    ensures ok ==> c'.pending == c.pending + [a] && c'.off == c.off + a.tag.Dsize() && image'[c'.off..] == image[c'.off..]
    ensures !ok ==> c' == c && image' == image
  {
    hide Encode, TagBytes;
    ok, image', c' := CommitAttr(k, image, c, a, end);
    if ok {
      WrittenOneMore(k, image, entry, c, a);
    }
  }

  /** The attributes of one commit, until one does not fit. */
  method CommitAttrs(k: Codec, image: Bytes, entry: Cursor, attrs: seq<Attr>, end: nat)
      returns (ok: bool, image': Bytes, c: Cursor)
    requires k.Lawful() && entry.Ok() && entry.pending == [] && AttrsOk(attrs) && entry.off <= end <= |image|
    ensures |image'| == |image| && Agree(image, image', entry.off)
    // on failure, the attributes before the first one without room
    ensures Written(k, image', entry, c) && c.Ok() && c.off <= end && c.pending <= attrs && (ok ==> c.pending == attrs)
    ensures ok ==> image'[c.off..] == image[c.off..]
    ensures !ok ==> entry.off + |Encode(k, attrs, entry.ptag)| > end
  {
    image', c, ok := image, entry, true;
    FreshCommit(k, image, entry);
    for i := 0 to |attrs|
      invariant |image'| == |image| && Agree(image, image', entry.off)
      invariant c.pending == attrs[..i] && Written(k, image', entry, c) && c.Ok() && c.off <= end
      invariant image'[c.off..] == image[c.off..]
    {
      assert AttrOk(attrs[i]);
      ghost var was, at := image', c.off;
      WrittenIsBehind(k, image', entry, c);
      TakeOneMore(attrs, i);
      if c.off + attrs[i].tag.Dsize() > end { EncodePrefix(k, attrs, i, entry.ptag); }
      ok, image', c := AppendAttr(k, image', entry, c, attrs[i], end);
      AgreeTwice(image, was, image', entry.off, at);
      if !ok {
        return;
      }
      TailsAgree(was, image, at, c.off);
    }
    TakeAllOf(attrs);
  }

  lemma TakeOneMore<T>(s: seq<T>, i: nat)
    requires i < |s|
    ensures s[..i] + [s[i]] == s[..i + 1]
  {
  }

  lemma TakeAllOf<T>(s: seq<T>)
    ensures s[..|s|] == s
  {
  }

  lemma TailsAgree(a: Bytes, b: Bytes, p: nat, q: nat)
    requires p <= q <= |a| == |b| && a[p..] == b[p..]
    ensures a[q..] == b[q..]
  {
    assert a[q..] == a[p..][q - p..] && b[q..] == b[p..][q - p..];
  }

  lemma {:induction false} EncodePrefix(k: Codec, attrs: seq<Attr>, i: nat, ptag: nat)
    requires k.Lawful() && AttrsOk(attrs) && ptag < WORD_LIMIT && i < |attrs|
    ensures |Encode(k, attrs, ptag)| >= |Encode(k, attrs[..i], ptag)| + attrs[i].tag.Dsize()
    decreases |attrs|
  {
    var front := attrs[..|attrs| - 1];
    assert AttrOk(attrs[|attrs| - 1]);
    if i == |attrs| - 1 {
      assert attrs[..i] == front;
    } else {
      assert attrs[..i] == front[..i];
      EncodePrefix(k, front, i, ptag);
    }
  }

  // ---------------------------------------------------------------- the closing CRC tags

  /** Where a commit that has reached `off` ends: room for a CRC and a forward CRC, rounded up to program units. */
  function CommitEnd(off: nat, blockSize: nat, progSize: nat): nat
    requires progSize > 0
  {
    AlignUp(Min(off + 5 * 4, blockSize), progSize)
  }

  lemma CommitEndBounds(off: nat, blockSize: nat, progSize: nat)
    requires progSize > 0 && blockSize % progSize == 0 && off + 8 <= blockSize
    ensures var end := CommitEnd(off, blockSize, progSize);
      && end % progSize == 0 && end <= blockSize
      && (end < blockSize ==> end + progSize <= blockSize)
      && (off + 20 <= end || (end == blockSize && off + 8 <= end))
    ensures progSize <= blockSize
  {
    if progSize > blockSize { DivModUnique(blockSize, progSize, 0, blockSize); }
    var want := Min(off + 20, blockSize);
    var end := CommitEnd(off, blockSize, progSize);
    AlignUpIsLeast(want, progSize);
    if end > blockSize { MultiplesApart(blockSize, end, progSize); }
    if end < blockSize { MultiplesApart(end, blockSize, progSize); }
  }

  /** It is the least such end: whole program units, twenty bytes on if the block has them. */
  lemma CommitEndIsLeast(off: nat, blockSize: nat, progSize: nat)
    requires progSize > 0 && blockSize % progSize == 0 && off <= blockSize
    ensures var end := CommitEnd(off, blockSize, progSize);
      end % progSize == 0 && if off + 20 <= blockSize then off + 20 <= end < off + 20 + progSize else end == blockSize
  {
    AlignUpIsLeast(Min(off + 20, blockSize), progSize);
    if off + 20 > blockSize {
      var end := CommitEnd(off, blockSize, progSize);
      if end > blockSize { MultiplesApart(blockSize, end, progSize); }
    }
  }

  /** The end of the next CRC tag's padding. */
  function NextOff(off: nat, end: nat): nat
    requires off + 8 <= end && (off + 20 <= end || end - off < 0x400)
  {
    var noff := Min(end - (off + 4), 0x3fe) + (off + 4);
    // one tag cannot reach the end: leave room for the last one
    if noff < end then Min(noff, end - 5 * 4) else noff
  }

  /** Every CRC tag is big enough for its checksum and small enough for its size field, and what remains
      leaves room for the last one. */
  lemma NextOffBounds(off: nat, end: nat)
    requires off + 8 <= end && (off + 20 <= end || end - off < 0x400)
    ensures var noff := NextOff(off, end);
      && 4 <= noff - (off + 4) <= 0x3fe
      && noff <= end && (noff < end ==> noff + 20 <= end)
  {
  }

  /** It reaches as far as such a tag may. */
  lemma NextOffIsGreatest(off: nat, end: nat, noff: nat)
    requires off + 8 <= end && (off + 20 <= end || end - off < 0x400)
    requires off + 8 <= noff <= end && noff - (off + 4) <= 0x3fe && (noff == end || noff + 20 <= end)
    ensures noff <= NextOff(off, end)
  {
  }

  function ForwardCrc(k: Codec, image: Bytes, at: nat, progSize: nat): (a: Attr)
    requires k.Lawful() && at + progSize <= |image| && progSize < WORD_LIMIT
    ensures AttrOk(a)
  {
    Attr(Tag(TYPE_FCRC, NO_ID, 8), ToLe32(progSize) + ToLe32(k.crc(ALL_ONES, image[at..at + progSize])))
  }

  /** It says how large the next program unit is and what its checksum is. */
  lemma ForwardCrcIs(k: Codec, image: Bytes, at: nat, progSize: nat)
    requires k.Lawful() && at + progSize <= |image| && progSize < WORD_LIMIT
    ensures var a := ForwardCrc(k, image, at, progSize);
      && a.tag == Tag(0x5ff, 0x3ff, 8)
      && FromLe32(a.data[..4]) == progSize
      && FromLe32(a.data[4..8]) == k.crc(0xffff_ffff, image[at..at + progSize])
  {
    Le32RoundTrip(progSize);
    Le32RoundTrip(k.crc(ALL_ONES, image[at..at + progSize]));
  }

  /** The trail of a commit: all its attributes come with the first checked part. */
  ghost predicate OneCommit(trail: seq<Sound>, attrs: seq<Attr>) {
    && trail != [] && Strip(trail[0].attrs) == Strip(attrs)
    && forall i | 1 <= i < |trail| :: Strip(trail[i].attrs) == []
  }

  lemma OneCommitOf(f: Sound, rest: seq<Sound>, attrs: seq<Attr>)
    requires Strip(f.attrs) == Strip(attrs) && forall i | 0 <= i < |rest| :: Strip(rest[i].attrs) == []
    ensures OneCommit([f] + rest, attrs)
  {
  }

  /** One CRC tag with its checksum, closing the attributes written since `entry`. */
  method CloseCommit(k: Codec, image: Bytes, ghost entry: Cursor, c: Cursor, crcTag: Tag) returns (image': Bytes,
          c': Cursor)
    requires Written(k, image, entry, c) && c.Ok() && CrcTagOk(crcTag) && AfterCommit(c, crcTag).off <= |image|
    ensures c' == AfterCommit(c, crcTag) && |image'| == |image|
    ensures NextCommit(k, image', entry) == Some(Sound(c.off + 8, c', c.pending))
    ensures Agree(image, image', c.off) && image'[c'.off..] == image[c'.off..]
  {
    c' := AfterCommit(c, crcTag);
    var bytes := CrcBytes(k, crcTag, c.ptag, c.crc);
    image' := Patch(image, c.off, bytes);
    CommitCloses(k, image, image', entry, c, crcTag);
    TailsAgree(image', image, c.off + 8, c'.off);
  }

  /** The attributes written so far with a CRC tag behind them read as one commit. */
  lemma {:induction false} CommitCloses(k: Codec, image: Bytes, image': Bytes, entry: Cursor, c: Cursor, crcTag: Tag)
    requires Written(k, image, entry, c) && c.Ok() && CrcTagOk(crcTag) && AfterCommit(c, crcTag).off <= |image|
    requires image' == Patch(image, c.off, CrcBytes(k, crcTag, c.ptag, c.crc))
    ensures NextCommit(k, image', entry) == Some(Sound(c.off + 8, AfterCommit(c, crcTag), c.pending))
  {
    CommitNowStands(k, image, image', entry, c, crcTag);
    CommitIsFound(k, image', entry, c.pending, crcTag);
  }

  lemma {:induction false} CommitNowStands(k: Codec, image: Bytes, image': Bytes, entry: Cursor, c: Cursor, crcTag: Tag)
    requires Written(k, image, entry, c) && c.Ok() && CrcTagOk(crcTag) && AfterCommit(c, crcTag).off <= |image|
    requires image' == Patch(image, c.off, CrcBytes(k, crcTag, c.ptag, c.crc))
    ensures CommitStands(k, image', entry, c.pending, crcTag) && After(k, entry, c.pending) == c
  {
    var front, bytes := Encode(k, c.pending, entry.ptag), CrcBytes(k, crcTag, c.ptag, c.crc);
    FitsBehind(crcTag, c, |image|);
    PatchBehind(image, entry.off, front, bytes);
  }

  lemma FitsBehind(crcTag: Tag, c: Cursor, size: nat)
    requires c.Ok() && CrcTagOk(crcTag) && AfterCommit(c, crcTag).off <= size
    ensures c.off + 8 <= size
  {
  }

  /** The forward CRC over the next program unit, and its first byte; 0xff when there is no room for one. */
  method AddForwardCrc(k: Codec, image: Bytes, ghost entry: Cursor, c: Cursor, noff: nat, end: nat,
          progSize: nat, commitEnd: nat)
      returns (ok: bool, image': Bytes, c': Cursor, eperturb: Byte)
    requires Written(k, image, entry, c) && c.Ok()
    requires 0 < progSize < WORD_LIMIT && progSize <= |image| && commitEnd <= |image|
    ensures ok <==> !(noff >= end && noff <= |image| - progSize) || c.off + 12 <= commitEnd
    ensures |image'| == |image| && Agree(image, image', c.off)
    ensures ok ==> Written(k, image', entry, c') && c'.Ok() && Strip(c'.pending) == Strip(c.pending)
    ensures ok ==> c'.off == if noff >= end && noff <= |image| - progSize then c.off + 12 else c.off
    ensures ok ==> image'[c'.off..] == image[c'.off..]
    ensures ok && noff >= end && noff <= |image| - progSize ==>
              eperturb == image[noff] && c'.pending == c.pending + [ForwardCrc(k, image, noff, progSize)]
  {
    if noff >= end && noff <= |image| - progSize {
      eperturb := image[noff];
      var fcrc := ForwardCrc(k, image, noff, progSize);
      ok, image', c' := AppendAttr(k, image, entry, c, fcrc, commitEnd);
      if ok {
        StripConcat(c.pending, [fcrc]);
        StripOne(fcrc);
        assert Strip(c.pending) + [] == Strip(c.pending);
      }
    } else {
      ok, image', c', eperturb := true, image, c, 0xff;
    }
  }

  /** One turn of the loop of lfs_dir_commitcrc. */
  method CommitPart(k: Codec, image: Bytes, ghost entry: Cursor, c: Cursor, end: nat, progSize: nat, commitEnd: nat)
      returns (ok: bool, image': Bytes, c': Cursor, ghost f: Sound)
    requires Written(k, image, entry, c) && c.Ok()
    requires 0 < progSize < WORD_LIMIT && progSize <= |image| && commitEnd <= |image|
    requires PartRoom(c.off, end, |image|) && (end < |image| ==> end + progSize <= |image|)
    ensures |image'| == |image| && Agree(image, image', c.off)
    ensures ok ==> c' == Cursor(c'.off, c'.ptag, ALL_ONES, []) && c'.Ok() && c.off < c'.off <= end
    ensures ok ==> (c'.off < end ==> c'.off + 20 <= end)
    ensures ok ==> image'[c'.off..] == image[c'.off..]
    ensures ok ==> NextCommit(k, image', entry) == Some(f) && f.next == c' && f.end <= c'.off && Strip(f.attrs) == Strip(c.pending)
    ensures ok && c'.off == end ==> ReadItem(k, image', c') == Stop
    ensures ok && c'.off == end && end < |image| ==> Sampled(k, image, f, c', progSize)
    ensures end <= commitEnd + 8 ==> ok
  {
    var noff := NextOff(c.off, end);
    NextOffBounds(c.off, end);
    var eperturb;
    ok, image', c', eperturb := AddForwardCrc(k, image, entry, c, noff, end, progSize, commitEnd);
    f := Sound(0, c, []);
    if !ok {
      return;
    }
    ghost var mid, at := image', c';
    image', c', f := CloseWith(k, image', entry, c', noff, eperturb);
    AgreeTwice(image, mid, image', c.off, at.off);
    TailsAgree(mid, image, at.off, c'.off);
    if c'.off == end && end < |image| {
      SampledByteStops(k, image, image', c', eperturb);
    }
  }

  function ClosingTag(eperturb: Byte, size: nat): (t: Tag)
    requires 4 <= size <= 0x3fe
    ensures CrcTagOk(t) && t.Dsize() == 4 + size && Perturbed(Expected(t), eperturb)
    ensures t.id == 0x3ff && 0x500 <= t.typ <= 0x501
  {
    Tag(TYPE_CCRC + (if eperturb < 0x80 then 1 else 0), NO_ID, size)
  }

  /** The CRC tag that ends at noff and flips the valid bit expected next if the sampled byte has its top bit clear. */
  method CloseWith(k: Codec, image: Bytes, ghost entry: Cursor, c: Cursor, noff: nat, eperturb: Byte)
      returns (image': Bytes, c': Cursor, ghost f: Sound)
    requires Written(k, image, entry, c) && c.Ok() && c.off + 8 <= noff <= |image| && noff - (c.off + 4) <= 0x3fe
    ensures c' == Cursor(noff, c'.ptag, ALL_ONES, []) && c'.Ok() && Perturbed(c'.ptag, eperturb)
    ensures |image'| == |image| && Agree(image, image', c.off) && image'[noff..] == image[noff..]
    ensures NextCommit(k, image', entry) == Some(f) && f == Sound(c.off + 8, c', c.pending)
  {
    var crcTag := ClosingTag(eperturb, noff - (c.off + 4));
    image', c' := CloseCommit(k, image, entry, c, crcTag);
    f := Sound(c.off + 8, c', c.pending);
  }

  /** A tag word whose top bit is set just when the sampled byte's is clear. */
  predicate Perturbed(ptag: nat, eperturb: Byte) {
    ptag / TOP == 1 - eperturb / 0x80
  }

  /** The last commit of a trail that ends at c closes with the forward CRC of the next program unit, and the valid
      bit it asks for is the one the unit's first byte does not give. */
  ghost predicate Sampled(k: Codec, image: Bytes, f: Sound, c: Cursor, progSize: nat) {
    && k.Lawful() && 0 < progSize < WORD_LIMIT && c.off + progSize <= |image|
    && f.attrs != [] && f.attrs[|f.attrs| - 1] == ForwardCrc(k, image, c.off, progSize)
    && Perturbed(c.ptag, image[c.off])
  }

  /** Only the bytes behind the commit matter. */
  lemma SampledTail(k: Codec, a: Bytes, b: Bytes, p: nat, f: Sound, c: Cursor, progSize: nat)
    requires Sampled(k, a, f, c, progSize) && p <= c.off && |a| == |b| && a[p..] == b[p..]
    ensures Sampled(k, b, f, c, progSize)
  {
    TailSlice(a, p, c.off, c.off + progSize);
    TailSlice(b, p, c.off, c.off + progSize);
    assert a[c.off] == a[c.off..c.off + progSize][0] && b[c.off] == b[c.off..c.off + progSize][0];
  }

  lemma TailSlice(s: Bytes, p: nat, i: nat, j: nat)
    requires p <= i <= j <= |s|
    ensures s[i..j] == s[p..][i - p..j - p]
  {
  }

  lemma SampledByteStops(k: Codec, image: Bytes, image': Bytes, c: Cursor, eperturb: Byte)
    requires k.Lawful() && c.Ok() && c.off < |image| == |image'| && Perturbed(c.ptag, eperturb)
    requires image'[c.off..] == image[c.off..] && eperturb == image[c.off]
    ensures ReadItem(k, image', c) == Stop
  {
    assert image'[c.off] == image'[c.off..][0] == image[c.off..][0];
    ErasedStops(k, image', c);
  }

  lemma AgreeTwice(a: Bytes, b: Bytes, c: Bytes, p: nat, q: nat)
    requires p <= q && Agree(a, b, p) && Agree(b, c, q)
    ensures Agree(a, c, p)
  {
    assert c[..p] == c[..q][..p] == b[..q][..p] == b[..p];
  }

  /** The room a part of a commit starts with. */
  predicate PartRoom(off: nat, end: nat, blockSize: nat) {
    off + 8 <= end <= blockSize && (off + 20 <= end || (end == blockSize && end - off < 0x400))
  }

  /** lfs_dir_commitcrc, on a commit whose attributes c0.pending have been written from `entry` on. */
  method CommitCrc(k: Codec, image: Bytes, ghost entry: Cursor, c0: Cursor, progSize: nat, commitEnd: nat)
      returns (ok: bool, image': Bytes, c: Cursor, ghost trail: seq<Sound>)
    requires Written(k, image, entry, c0) && c0.Ok()
    requires 0 < progSize < WORD_LIMIT && |image| % progSize == 0 && c0.off + 8 <= |image| && commitEnd <= |image|
    ensures |image'| == |image| && Agree(image, image', entry.off)
    // the commit ends exactly on the program-aligned end, with whatever follows untouched
    ensures ok ==> c.off == CommitEnd(c0.off, |image|, progSize) <= |image| && c.off % progSize == 0
    ensures ok ==> image'[c.off..] == image[c.off..]
    // and the reader finds it, and nothing after it
    ensures ok ==> Walks(k, image', entry, trail, c) && OneCommit(trail, c0.pending)
    ensures ok ==> c == Cursor(c.off, c.ptag, ALL_ONES, []) && c.Ok() && ReadItem(k, image', c) == Stop
    // with the state of what follows on record
    ensures ok && c.off < |image| ==> Sampled(k, image, trail[|trail| - 1], c, progSize)
    // the forward CRC always fits when the whole block may be used
    ensures CommitEnd(c0.off, |image|, progSize) <= commitEnd + 8 ==> ok
  {
    var end := CommitEnd(c0.off, |image|, progSize);
    CommitEndBounds(c0.off, |image|, progSize);
    WrittenIsBehind(k, image, entry, c0);
    ghost var f;
    // the loop body runs at least once: a commit never starts at its end
    ok, image', c, f := CommitPart(k, image, entry, c0, end, progSize, commitEnd);
    AgreeTwice(image, image, image', entry.off, c0.off);
    trail := [];
    if !ok {
      return;
    }
    ghost var was, at := image', c;
    ghost var rest;
    ok, image', c, rest := FinishPadding(k, image', c, end, progSize, commitEnd);
    AgreeTwice(image, was, image', entry.off, at.off);
    if ok {
      trail := [f] + rest;
      OneCommitOf(f, rest, c0.pending);
      WalksFirst(k, was, image', entry, f, rest, c);
      TailsAgree(was, image, at.off, end);
      if rest != [] && end < |image| {
        SampledTail(k, was, image, at.off, rest[|rest| - 1], c, progSize);
      }
    }
  }

  lemma WalksFirst(k: Codec, was: Bytes, image: Bytes, entry: Cursor, f: Sound, rest: seq<Sound>, cur: Cursor)
    requires k.Lawful() && entry.Ok() && f.next.Ok() && NextCommit(k, was, entry) == Some(f) && f.end <= f.next.off
    requires Agree(was, image, f.next.off) && Walks(k, image, f.next, rest, cur)
    ensures Walks(k, image, entry, [f] + rest, cur)
  {
    SameCommit(k, was, image, entry, f.next.off);
    WalksCons(k, image, entry, f, rest, cur);
  }

  /** One more empty commit behind those of the trail. */
  method PadOnce(k: Codec, image: Bytes, ghost c0: Cursor, ghost trail: seq<Sound>, c: Cursor, end: nat, progSize: nat,
          commitEnd: nat)
      returns (ok: bool, image': Bytes, c': Cursor, ghost f: Sound)
    requires k.Lawful() && c0.Ok() && c == Cursor(c.off, c.ptag, ALL_ONES, []) && c.Ok() && Walks(k, image, c0, trail, c)
    requires 0 < progSize < WORD_LIMIT && progSize <= |image| && commitEnd <= |image|
    requires c.off + 20 <= end <= |image| && (end < |image| ==> end + progSize <= |image|)
    ensures |image'| == |image| && Agree(image, image', c.off)
    ensures ok ==> c' == Cursor(c'.off, c'.ptag, ALL_ONES, []) && c'.Ok() && c.off < c'.off <= end
    ensures ok ==> (c'.off < end ==> c'.off + 20 <= end)
    ensures ok ==> Walks(k, image', c0, trail + [f], c') && Strip(f.attrs) == [] && image'[end..] == image[end..]
    ensures ok && c'.off == end ==> ReadItem(k, image', c') == Stop
    ensures ok && c'.off == end && end < |image| ==> Sampled(k, image, f, c', progSize)
    ensures end <= commitEnd + 8 ==> ok
  {
    FreshCommit(k, image, c);
    ok, image', c', f := CommitPart(k, image, c, c, end, progSize, commitEnd);
    if ok {
      WalksFrame(k, image, image', c0, trail, c);
      WalksSnoc(k, image', c0, trail, c, f);
      TailsAgree(image', image, c'.off, end);
    }
  }

  /** Empty commits from c0 up to c, the part of the block from `end` on untouched. */
  ghost predicate Filled(k: Codec, image: Bytes, image': Bytes, c0: Cursor, c: Cursor, end: nat, progSize: nat,
      trail: seq<Sound>)
  {
    && k.Lawful() && c0.Ok() && progSize > 0 && |image'| == |image| && c0.off <= c.off <= end <= |image|
    && Agree(image, image', c0.off) && image'[end..] == image[end..]
    && c == Cursor(c.off, c.ptag, ALL_ONES, []) && c.Ok() && Walks(k, image', c0, trail, c)
    && (forall i | 0 <= i < |trail| :: Strip(trail[i].attrs) == [])
    && if c.off < end then c.off + 20 <= end
       else ReadItem(k, image', c) == Stop
            && (trail != [] && end < |image| ==> Sampled(k, image, trail[|trail| - 1], c, progSize))
  }

  lemma {:induction false} FilledMore(k: Codec, image: Bytes, was: Bytes, image': Bytes, c0: Cursor, at: Cursor, c: Cursor,
          end: nat, progSize: nat, trail: seq<Sound>, f: Sound)
    requires Filled(k, image, was, c0, at, end, progSize, trail)
    requires |image'| == |was| && Agree(was, image', at.off) && at.off < c.off <= end && image'[end..] == was[end..]
    requires c == Cursor(c.off, c.ptag, ALL_ONES, []) && c.Ok() && Walks(k, image', c0, trail + [f], c) && Strip(f.attrs) == []
    requires if c.off < end then c.off + 20 <= end
             else ReadItem(k, image', c) == Stop && (end < |was| ==> Sampled(k, was, f, c, progSize))
    ensures Filled(k, image, image', c0, c, end, progSize, trail + [f])
  {
    AgreeTwice(image, was, image', c0.off, at.off);
    if c.off == end && end < |image| {
      SampledTail(k, was, image, end, f, c, progSize);
    }
  }

  /** The further turns of the loop, which fill what is left of the program unit with empty commits. */
  method FinishPadding(k: Codec, image: Bytes, c0: Cursor, end: nat, progSize: nat, commitEnd: nat)
      returns (ok: bool, image': Bytes, c: Cursor, ghost trail: seq<Sound>)
    requires k.Lawful() && c0 == Cursor(c0.off, c0.ptag, ALL_ONES, []) && c0.Ok()
    requires 0 < progSize < WORD_LIMIT && progSize <= |image| && commitEnd <= |image|
    requires c0.off <= end <= |image| && (end < |image| ==> end + progSize <= |image|)
    requires c0.off < end ==> c0.off + 20 <= end
    requires c0.off == end ==> ReadItem(k, image, c0) == Stop
    ensures |image'| == |image| && Agree(image, image', c0.off)
    ensures ok ==> c.off == end && Filled(k, image, image', c0, c, end, progSize, trail)
    ensures end <= commitEnd + 8 ==> ok
  {
    ok, image', c, trail := true, image, c0, [];
    while c.off < end
      invariant Filled(k, image, image', c0, c, end, progSize, trail)
      decreases end - c.off
    {
      ghost var f;
      ghost var was, at := image', c;
      ok, image', c, f := PadOnce(k, image', c0, trail, c, end, progSize, commitEnd);
      if !ok {
        AgreeTwice(image, was, image', c0.off, at.off);
        return;
      }
      FilledMore(k, image, was, image', c0, at, c, end, progSize, trail, f);
      trail := trail + [f];
    }
  }

  lemma FreshCommit(k: Codec, image: Bytes, c: Cursor)
    requires k.Lawful() && c.Ok() && c.pending == [] && c.off <= |image|
    ensures Written(k, image, c, c)
  {
    assert image[c.off..c.off] == [];
  }

  lemma WrittenIsBehind(k: Codec, image: Bytes, entry: Cursor, c: Cursor)
    requires Written(k, image, entry, c)
    ensures entry.off <= c.off
  {
  }
}
