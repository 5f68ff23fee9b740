/** What a compaction means: lookups on the rewritten log, and on the chain of logs that
    lfs_dir_splittingcompact leaves when the attributes do not fit one block. */
module Splitting {
  import opened Wrappers
  import opened Bits
  import opened Tags
  import opened MetadataLog
  import opened Compaction

  // ---------------------------------------------------------------- one rewritten log

  lemma {:induction false} RangeFind(s: seq<Attr>, begin: nat, end: nat, g: nat, q: Query)
    ensures Find(Range(s, begin, end), g, q) == if begin + g < end then Find(s, begin + g, q) else None
  {
    if s != [] {
      var front, x := s[..|s| - 1], s[|s| - 1];
      RangeFind(front, begin, end, g, q);
      var r := Range(front, begin, end);
      if begin <= x.tag.id < end {
        FindSnoc(r, InRange(x, begin, end)[0], g, q);
      } else {
        assert r + [] == r;
      }
    }
  }

  ghost predicate Plain(s: seq<Attr>) {
    forall i | 0 <= i < |s| :: s[i].tag.typ < TYPE_SPLICE
  }

  lemma {:induction false} TidyIsPlain(s: seq<Attr>)
    requires Tidy(s)
    ensures Plain(s)
  {
    if s != [] {
      TidyIsPlain(s[..|s| - 1]);
      assert s == s[..|s| - 1] + [s[|s| - 1]];
    }
  }

  lemma {:induction false} RangeIsPlain(s: seq<Attr>, begin: nat, end: nat)
    requires Plain(s)
    ensures Plain(Range(s, begin, end))
  {
    if s != [] {
      RangeIsPlain(s[..|s| - 1], begin, end);
    }
  }

  /** Without splices, replaying a log and searching it from its end come to the same. */
  lemma {:induction false} PlainReplay(s: seq<Attr>, g: nat, q: Query)
    requires Plain(s) && IdQuery(q)
    ensures Lookup(Replay(s), g, q) == Present(Find(s, g, q))
  {
    if s != [] {
      PlainReplay(s[..|s| - 1], g, q);
      StepBack(s, |s|, g, q);
      assert s[..|s|] == s;
    }
  }

  lemma {:induction false} CompactedAnswers(log: seq<Attr>, begin: nat, end: nat, g: nat, q: Query)
    requires WellFormed(log) && IdQuery(q)
    ensures Lookup(Replay(Compacted(log, begin, end)), g, q) ==
            if begin + g < end then Present(Find(Collect(log), begin + g, q)) else None
  {
    CollectIsTidy(log);
    TidyIsPlain(Collect(log));
    RangeIsPlain(Collect(log), begin, end);
    PlainReplay(Compacted(log, begin, end), g, q);
    RangeFind(Collect(log), begin, end, g, q);
  }

  /** Compaction preserves meaning: entry id of the old log is entry id - begin of the new one,
      with the same name, struct and user attributes, and the new log holds nothing else. */
  lemma {:induction false} CompactionPreserves(log: seq<Attr>, begin: nat, end: nat, g: nat, q: Query)
    requires WellFormed(log) && KeyQuery(q)
    ensures Lookup(Replay(Compacted(log, begin, end)), g, q) ==
            if begin + g < end then Lookup(Replay(log), begin + g, q) else None
  {
    hide Replay, Lookup, Compacted, Find, Collect;
    CompactedAnswers(log, begin, end, g, q);
    if begin + g < end {
      CollectAnswers(log, begin + g, q);
    }
  }

  /** In particular no user attribute is taken for another, and names and structs are found by their family. */
  lemma {:induction false} AttributesPreserved(log: seq<Attr>, begin: nat, end: nat, g: nat, typ: nat)
    requires WellFormed(log) && 0x300 <= typ < 0x400 && begin + g < end
    ensures Lookup(Replay(Compacted(log, begin, end)), g, Exact(typ)) == Lookup(Replay(log), begin + g, Exact(typ))
    ensures Lookup(Replay(Compacted(log, begin, end)), g, Family(0)) == Lookup(Replay(log), begin + g, Family(0))
    ensures Lookup(Replay(Compacted(log, begin, end)), g, Family(0x200)) == Lookup(Replay(log), begin + g, Family(0x200))
  {
    hide Compacted, Replay, Lookup;
    CompactionPreserves(log, begin, end, g, Exact(typ));
    CompactionPreserves(log, begin, end, g, Family(0));
    CompactionPreserves(log, begin, end, g, Family(0x200));
  }

  /** The collection of a log answers as the log does. */
  lemma {:induction false} CollectAnswers(log: seq<Attr>, g: nat, q: Query)
    requires WellFormed(log) && KeyQuery(q)
    ensures IdQuery(q) && Lookup(Replay(log), g, q) == Present(Find(Collect(log), g, q))
  {
    CollectMeansReplay(log, g, q);
  }

  lemma {:induction false} LatestNarrow(e: Entry, q: Query, p: Query)
    requires forall t: nat :: p.Matches(t) ==> q.Matches(t)
    requires Latest(e, q).Some? && p.Matches(Latest(e, q).value.typ)
    ensures Latest(e, p) == Latest(e, q)
  {
    if !q.Matches(e[|e| - 1].typ) {
      LatestNarrow(e[..|e| - 1], q, p);
    }
  }

  lemma {:induction false} FindNothingNarrow(s: seq<Attr>, g: nat, q: Query, p: Query)
    requires (forall t: nat :: p.Matches(t) ==> q.Matches(t)) && Find(s, g, q) == None
    ensures Find(s, g, p) == None
  {
    if s != [] {
      FindNothingNarrow(s[..|s| - 1], g, q, p);
    }
  }

  /** A collection holds one attribute under a key, so a finer query finds that one or none. */
  lemma {:induction false} FindFiner(s: seq<Attr>, g: nat, q: Query, p: Query)
    requires Tidy(s) && KeyQuery(q) && forall t: nat :: p.Matches(t) ==> q.Matches(t)
    ensures Find(s, g, p) == if Find(s, g, q).Some? && p.Matches(Find(s, g, q).value.typ) then Find(s, g, q) else None
  {
    if s != [] {
      var x := s[|s| - 1];
      if x.tag.id == g && q.Matches(x.tag.typ) {
        KeyFind(s[..|s| - 1], g, q, x.tag.typ);
        FindNothingNarrow(s[..|s| - 1], g, q, p);
      } else {
        FindFiner(s[..|s| - 1], g, q, p);
      }
    }
  }

  /** The entry's present attribute under the key is one the finer query asks for. */
  predicate Current(dir: Directory, g: nat, q: Query, p: Query) {
    var v := Lookup(dir, g, q);
    v.Some? && p.Matches(v.value.typ)
  }

  /** The finer masks (0x780 for names, 0x7ff for one kind of struct) find in a rewritten log the present attribute of
      the entry or nothing. They answer as before just when they do not dig up, in the old log, one that was replaced
      by another kind since. */
  lemma {:induction false} NarrowLookupExact(log: seq<Attr>, begin: nat, end: nat, g: nat, q: Query, p: Query)
    requires WellFormed(log) && KeyQuery(q) && IdQuery(p) && begin + g < end
    requires forall t: nat :: p.Matches(t) ==> q.Matches(t)
    ensures var dir, now := Replay(log), Lookup(Replay(Compacted(log, begin, end)), g, p);
      && now == (if Current(dir, begin + g, q, p) then Lookup(dir, begin + g, q) else None)
      && (now == Lookup(dir, begin + g, p) <==> Current(dir, begin + g, q, p) || Lookup(dir, begin + g, p) == None)
  {
    hide Replay, Compacted, Collect, Find, WellFormed;
    CollectMeansReplay(log, begin + g, q);
    CompactedAnswers(log, begin, end, g, p);
    CollectIsTidy(log);
    FindFiner(Collect(log), begin + g, q, p);
    if Current(Replay(log), begin + g, q, p) {
      LatestNarrow(At(Replay(log), begin + g), q, p);
    }
  }

  // ---------------------------------------------------------------- a chain of logs

  /** One metadata pair of a split directory. */
  datatype Piece = Piece(log: seq<Attr>, count: nat)

  function Size(s: seq<Attr>): nat {
    if s == [] then 0 else Size(s[..|s| - 1]) + s[|s| - 1].tag.Dsize()
  }

  method MeasureSize(s: seq<Attr>) returns (size: nat)
    ensures size == Size(s)
  {
    size := 0;
    for i := 0 to |s|
      invariant size == Size(s[..i])
    {
      assert s[..i + 1][..i] == s[..i];
      size := size + s[i].tag.Dsize();
    }
    assert s[..|s|] == s;
  }

  /** The room test of lfs_dir_splittingcompact, with its 32-bit difference. */
  predicate Fits(entries: nat, size: nat, metadataMax: nat, progSize: nat)
    requires progSize > 0
  {
    entries < 0xff && size <= Min((metadataMax - 40) % 0x1_0000_0000, AlignUp(metadataMax / 2, progSize))
  }

  /** A block has room for a revision count, what a compaction rewrites, `rest` bytes of tail and global state, and
      a CRC tag. */
  predicate HasRoom(size: nat, rest: nat, metadataMax: nat) {
    4 + size + rest + 8 <= metadataMax
  }

  /** The most a tail (12 bytes) and global state (16) take. */
  const REST_MAX: nat := 28

  /** The 40 bytes of the room test are just enough: what passes it can be written. */
  lemma FitsHasRoom(entries: nat, size: nat, metadataMax: nat, progSize: nat, rest: nat)
    requires progSize > 0 && 40 <= metadataMax < 0x1_0000_0000 && rest <= REST_MAX
    requires Fits(entries, size, metadataMax, progSize)
    ensures HasRoom(size, rest, metadataMax)
    ensures HasRoom(size, REST_MAX, metadataMax) <==> size <= metadataMax - 40
  {
    DivModUnique(metadataMax - 40, 0x1_0000_0000, 0, metadataMax - 40);
  }

  /** What passes has at most 254 entries, room for all that goes with them, and no more than half the block, rounded up
      to program units. Below 40 bytes the difference wraps around. */
  lemma FitsIs(entries: nat, size: nat, metadataMax: nat, progSize: nat)
    requires progSize > 0 && metadataMax < 0x1_0000_0000
    ensures Fits(entries, size, metadataMax, progSize) <==>
            && entries <= 254 && size + 40 <= metadataMax + (if metadataMax < 40 then 0x1_0000_0000 else 0)
            && forall m: nat | m % progSize == 0 && m >= metadataMax / 2 :: size <= m
  {
    var wraps := if metadataMax < 40 then 1 else 0;
    DivModUnique(metadataMax - 40, 0x1_0000_0000, -wraps, metadataMax - 40 + wraps * 0x1_0000_0000);
    var half := AlignUp(metadataMax / 2, progSize);
    AlignUpIsLeast(metadataMax / 2, progSize);
    forall m: nat | m % progSize == 0 && m >= metadataMax / 2
      ensures half <= m
    {
      if m < half { MultiplesApart(m, half, progSize); }
    }
  }

  function Total(pieces: seq<Piece>): nat {
    if pieces == [] then 0 else pieces[0].count + Total(pieces[1..])
  }

  function Counts(pieces: seq<Piece>): (counts: seq<nat>)
    ensures |counts| == |pieces|
  {
    seq(|pieces|, i requires 0 <= i < |pieces| => pieces[i].count)
  }

  /** The piece of a chain that has entry `id`, and the entry's id in it; pieces have counts[0], counts[1], ... entries. */
  function Locate(counts: seq<nat>, id: nat): (at: (nat, nat))
    ensures at.0 <= |counts|
  {
    if counts == [] || id < counts[0] then (0, id)
    else var at := Locate(counts[1..], id - counts[0]); (at.0 + 1, at.1)
  }

  /** How a directory id is followed along the chain of tails. */
  function Resolve(pieces: seq<Piece>, id: nat, q: Query): Option<Value> {
    var at := Locate(Counts(pieces), id);
    if at.0 < |pieces| then Lookup(Replay(pieces[at.0].log), at.1, q) else None
  }

  ghost predicate Answered(pieces: seq<Piece>, dir: Directory, first: nat, id: nat, q: Query)
    requires first <= id
  {
    Resolve(pieces, id - first, q) == Lookup(dir, id, q)
  }

  /** The pieces hold exactly the entries first..last of the log, in order. */
  ghost predicate Holds(pieces: seq<Piece>, log: seq<Attr>, first: nat, last: nat) {
    && first <= last && Total(pieces) == last - first
    && forall id, q | first <= id < last && KeyQuery(q) :: Answered(pieces, Replay(log), first, id, q)
  }

  lemma {:induction false} HoldsMore(pieces: seq<Piece>, log: seq<Attr>, begin: nat, split: nat, end: nat)
    requires WellFormed(log) && begin <= split <= end && Holds(pieces, log, split, end)
    ensures Holds([Piece(Compacted(log, begin, split), split - begin)] + pieces, log, begin, end)
  {
    var p := Piece(Compacted(log, begin, split), split - begin);
    assert ([p] + pieces)[1..] == pieces;
    forall id, q | begin <= id < end && KeyQuery(q)
      ensures Answered([p] + pieces, Replay(log), begin, id, q)
    {
      if id < split {
        CompactedHolds(log, begin, split, id, q);
        PieceAnswers(p, pieces, Replay(log), begin, id, q);
      } else {
        RestAnswers(p, pieces, Replay(log), begin, split, id, q);
      }
    }
  }

  /** Entry id of the directory is entry id - begin of the piece. */
  ghost predicate HasEntry(p: Piece, dir: Directory, begin: nat, id: nat, q: Query)
    requires begin <= id
  {
    id - begin < p.count && Lookup(Replay(p.log), id - begin, q) == Lookup(dir, id, q)
  }

  lemma {:induction false} CompactedHolds(log: seq<Attr>, begin: nat, split: nat, id: nat, q: Query)
    requires WellFormed(log) && begin <= id < split && KeyQuery(q)
    ensures HasEntry(Piece(Compacted(log, begin, split), split - begin), Replay(log), begin, id, q)
  {
    hide Replay, Lookup, Compacted;
    CompactionPreserves(log, begin, split, id - begin, q);
  }

  lemma {:induction false} PieceAnswers(p: Piece, pieces: seq<Piece>, dir: Directory, begin: nat, id: nat, q: Query)
    requires begin <= id && HasEntry(p, dir, begin, id, q)
    ensures Answered([p] + pieces, dir, begin, id, q)
  {
    ResolveFirst(p, pieces, id - begin, q);
  }

  lemma {:induction false} RestAnswers(p: Piece, pieces: seq<Piece>, dir: Directory, begin: nat, split: nat, id: nat, q: Query)
    requires begin <= split <= id && p.count == split - begin && Answered(pieces, dir, split, id, q)
    ensures Answered([p] + pieces, dir, begin, id, q)
  {
    ResolveRest(p, pieces, id - begin, id - split, q);
  }

  lemma {:induction false} LocateCons(p: Piece, pieces: seq<Piece>, id: nat)
    ensures Locate(Counts([p] + pieces), id) ==
            if id < p.count then (0, id)
            else var at := Locate(Counts(pieces), id - p.count); (at.0 + 1, at.1)
  {
    assert Counts([p] + pieces)[1..] == Counts(pieces);
  }

  lemma {:induction false} ResolveFirst(p: Piece, pieces: seq<Piece>, id: nat, q: Query)
    requires id < p.count
    ensures Resolve([p] + pieces, id, q) == Lookup(Replay(p.log), id, q)
  {
    LocateCons(p, pieces, id);
  }

  lemma {:induction false} ResolveRest(p: Piece, pieces: seq<Piece>, id: nat, rest: nat, q: Query)
    requires id == p.count + rest
    ensures Resolve([p] + pieces, id, q) == Resolve(pieces, rest, q)
  {
    LocateCons(p, pieces, id);
  }

  /** A piece the splitting settled for: it fits, or could not be split further. */
  predicate Settled(p: Piece, metadataMax: nat, progSize: nat)
    requires progSize > 0
  {
    p.count <= 1 || Fits(p.count, Size(p.log), metadataMax, progSize)
  }

  /** Finds the first split point by halving, never growing a split back. */
  method FindSplit(log: seq<Attr>, begin: nat, end: nat, metadataMax: nat, progSize: nat) returns (split: nat)
    requires begin <= end && progSize > 0
    ensures begin <= split <= end && (begin < end ==> split < end)
    ensures end - split > 1 ==> Fits(end - split, Size(Compacted(log, split, end)), metadataMax, progSize)
    ensures split == begin <==> Settled(Piece(Compacted(log, begin, end), end - begin), metadataMax, progSize)
  {
    split := begin;
    while end - split > 1
      invariant begin <= split <= end && (begin < end ==> split < end)
      invariant split > begin ==> !Settled(Piece(Compacted(log, begin, end), end - begin), metadataMax, progSize)
      decreases end - split
    {
      var written := Traverse(log, split, end);
      var size := MeasureSize(written);
      if Fits(end - split, size, metadataMax, progSize) {
        break;
      }
      split := split + (end - split) / 2;
    }
  }

  /** Compacts the entries split..end into a piece of their own, in front of the others, if it has room for them. */
  method AddPiece(log: seq<Attr>, split: nat, end: nat, last: nat, pieces: seq<Piece>, rest: nat, metadataMax: nat)
      returns (ok: bool, more: seq<Piece>)
    requires WellFormed(log) && split <= end && Holds(pieces, log, end, last)
    ensures more == [Piece(Compacted(log, split, end), end - split)] + pieces && Holds(more, log, split, last)
    ensures ok <==> HasRoom(Size(Compacted(log, split, end)), rest, metadataMax)
  {
    HoldsMore(pieces, log, split, end, last);
    var written := Traverse(log, split, end);
    more := [Piece(written, end - split)] + pieces;
    var size := MeasureSize(written);
    ok := HasRoom(size, rest, metadataMax);
  }

  /** The pieces behind the head: each settled and written, the nth of them counted from the end with rests(n) bytes of
      tail and global state. */
  ghost predicate TailsWritten(pieces: seq<Piece>, rests: nat -> nat, metadataMax: nat, progSize: nat)
    requires progSize > 0
  {
    forall i | 0 <= i < |pieces| ::
      Settled(pieces[i], metadataMax, progSize) && HasRoom(Size(pieces[i].log), rests(|pieces| - 1 - i), metadataMax)
  }

  lemma MoreWritten(pieces: seq<Piece>, p: Piece, rests: nat -> nat, metadataMax: nat, progSize: nat)
    requires progSize > 0 && TailsWritten(pieces, rests, metadataMax, progSize) && Settled(p, metadataMax, progSize)
    requires HasRoom(Size(p.log), rests(|pieces|), metadataMax)
    ensures TailsWritten([p] + pieces, rests, metadataMax, progSize)
  {
  }

  /** The last of `count` entries does not fit a pair of its own. */
  ghost predicate LastTooBig(log: seq<Attr>, count: nat, rest: nat, metadataMax: nat) {
    count > 0 && !HasRoom(Size(Compacted(log, count - 1, count)), rest, metadataMax)
  }

  /** The sizes are such that the room test means something. */
  ghost predicate Sizeable(rests: nat -> nat, metadataMax: nat) {
    (forall i :: rests(i) <= REST_MAX) && 40 <= metadataMax < 0x1_0000_0000
  }

  /** The first `end` entries may stay together: they are settled, or the last of them fits no pair. */
  ghost predicate MayStay(log: seq<Attr>, end: nat, rest: nat, metadataMax: nat, progSize: nat)
    requires progSize > 0
  {
    Settled(Piece(Compacted(log, 0, end), end), metadataMax, progSize) || LastTooBig(log, end, rest, metadataMax)
  }

  /** The loop of lfs_dir_splittingcompact: splits tails off until the first `end` entries stay together. */
  method SplitTails(log: seq<Attr>, count: nat, metadataMax: nat, progSize: nat, granted: seq<bool>, rests: nat -> nat)
      returns (end: nat, pieces: seq<Piece>)
    requires WellFormed(log) && progSize > 0
    ensures end <= count && Holds(pieces, log, end, count) && TailsWritten(pieces, rests, metadataMax, progSize)
    // it stops early only at a pair that is refused or an entry no pair has room for
    ensures Sizeable(rests, metadataMax) ==>
              MayStay(log, end, rests(|pieces|), metadataMax, progSize)
              || (|pieces| < |granted| && !granted[|pieces|])
    ensures Settled(Piece(Compacted(log, 0, count), count), metadataMax, progSize) ==> end == count && pieces == []
  {
    pieces := [];
    end := count;
    var attempt := 0;
    while true
      invariant end <= count && Holds(pieces, log, end, count) && TailsWritten(pieces, rests, metadataMax, progSize)
      invariant Settled(Piece(Compacted(log, 0, count), count), metadataMax, progSize) ==> end == count && pieces == []
      invariant attempt == |pieces|
      decreases end
    {
      var split := FindSplit(log, 0, end, metadataMax, progSize);
      if split == 0 {
        // the rest fits
        return;
      }
      if attempt < |granted| && !granted[attempt] {
        // no pair to be had: the rest stays together
        return;
      }
      attempt := attempt + 1;
      var room, more := AddPiece(log, split, end, count, pieces, rests(|pieces|), metadataMax);
      if !room {
        // the pair is of no use: the rest stays together
        TooBig(log, split, end, metadataMax, progSize, rests(|pieces|));
        return;
      }
      MoreWritten(pieces, more[0], rests, metadataMax, progSize);
      pieces := more;
      end := split;
    }
  }

  /** lfs_dir_splittingcompact on the log of a directory with `count` entries: `granted` says whether each wanted
      metadata pair could be granted, rests and headRest what tails and global state add to the pieces, and `expand`
      whether the superblock is to move out of the way and a pair for that is granted. The head is written only if ok;
      the directory is then found in the pieces. */
  method SplittingCompact(log: seq<Attr>, count: nat, metadataMax: nat, progSize: nat, granted: seq<bool>,
          rests: nat -> nat, headRest: nat, expand: bool)
      returns (ok: bool, expanded: bool, head: Piece, pieces: seq<Piece>)
    requires WellFormed(log) && progSize > 0
    ensures pieces != [] && pieces[0].log == Compacted(log, 0, pieces[0].count) && Holds(pieces, log, 0, count)
    ensures TailsWritten(pieces[1..], rests, metadataMax, progSize)
    ensures ok <==> HasRoom(Size(head.log), headRest, metadataMax)
    // the splitting stops early only at a pair that is refused or an entry no pair has room for
    ensures Sizeable(rests, metadataMax) ==>
              MayStay(log, pieces[0].count, rests(|pieces| - 1), metadataMax, progSize)
              || (|pieces| - 1 < |granted| && !granted[|pieces| - 1])
    ensures Settled(Piece(Compacted(log, 0, count), count), metadataMax, progSize) ==> |pieces| == 1
    ensures expanded <==> expand && HasRoom(Size(pieces[0].log), rests(|pieces| - 1), metadataMax)
    ensures !expanded ==> head == pieces[0]
    // a head that stays behind keeps a copy of the first entry, the superblock's, and nothing else
    ensures expanded ==> head.count == 1 && forall id: nat, q | KeyQuery(q) ::
              Lookup(Replay(head.log), id, q) == if id == 0 then Lookup(Replay(log), 0, q) else None
  {
    hide Compacted, Holds, TailsWritten, Settled, MayStay, Sizeable, Size, Lookup, Replay, WellFormed;
    var end, tails := SplitTails(log, count, metadataMax, progSize, granted, rests);
    expanded := false;
    if expand {
      expanded, pieces := AddPiece(log, 0, end, count, tails, rests(|tails|), metadataMax);
    }
    if expanded {
      var written := Traverse(log, 0, 1);
      head := Piece(written, 1);
      var size := MeasureSize(written);
      ok := HasRoom(size, headRest, metadataMax);
      FirstEntryOnly(log);
    } else {
      ok, pieces := AddPiece(log, 0, end, count, tails, headRest, metadataMax);
      head := pieces[0];
    }
    assert pieces[1..] == tails;
  }

  lemma {:induction false} FirstEntryOnly(log: seq<Attr>)
    requires WellFormed(log)
    ensures forall id: nat, q | KeyQuery(q) ::
              Lookup(Replay(Compacted(log, 0, 1)), id, q) == if id == 0 then Lookup(Replay(log), 0, q) else None
  {
    forall id: nat, q | KeyQuery(q)
      ensures Lookup(Replay(Compacted(log, 0, 1)), id, q) == if id == 0 then Lookup(Replay(log), 0, q) else None
    {
      CompactionPreserves(log, 0, 1, id, q);
    }
  }

  /** A piece without room is a single entry. */
  lemma TooBig(log: seq<Attr>, split: nat, end: nat, metadataMax: nat, progSize: nat, rest: nat)
    requires progSize > 0 && split < end && !HasRoom(Size(Compacted(log, split, end)), rest, metadataMax)
    requires end - split > 1 ==> Fits(end - split, Size(Compacted(log, split, end)), metadataMax, progSize)
    ensures 40 <= metadataMax < 0x1_0000_0000 && rest <= REST_MAX ==> LastTooBig(log, end, rest, metadataMax)
  {
    if end - split > 1 && 40 <= metadataMax < 0x1_0000_0000 && rest <= REST_MAX {
      FitsHasRoom(end - split, Size(Compacted(log, split, end)), metadataMax, progSize, rest);
    }
  }
}
