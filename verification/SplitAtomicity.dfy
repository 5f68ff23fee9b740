/** A directory that is split: its tails are written to fresh pairs first, and the head, which alone makes them part of
    the directory, last. Power cut anywhere leaves every lookup as it was. */
module SplitAtomicity {
  import opened Wrappers
  import opened Tags
  import opened MetadataLog
  import opened Compaction
  import Splitting
  import opened CommitFormat
  import opened CommitWriter
  import opened MetadataPair
  import opened CrashAtomicity
  import opened Recovery

  type Piece = Splitting.Piece

  // ---------------------------------------------------------------- the chain on disk

  lemma {:induction false} LastTailBehind(front: seq<Attr>, rest: seq<Attr>)
    requires LastTail(rest).Some?
    ensures LastTail(front + rest) == LastTail(rest)
    decreases |rest|
  {
    var all := front + rest;
    assert all[|all| - 1] == rest[|rest| - 1] && all[..|all| - 1] == front + rest[..|rest| - 1];
    if !IsTail(rest[|rest| - 1].tag) {
      LastTailBehind(front, rest[..|rest| - 1]);
    }
  }

  /** The pair holds the piece, with its own tail and global state behind it. */
  ghost predicate Carries(k: Codec, b: MetadataPair.Disk, log: seq<Attr>) {
    k.Lawful() && exists rest :: Contents(k, b) == Some(log + rest) && Aside(rest)
  }

  ghost predicate AllCarry(k: Codec, disks: seq<MetadataPair.Disk>, pieces: seq<Piece>) {
    |disks| == |pieces| && forall i | 0 <= i < |disks| :: Carries(k, disks[i], pieces[i].log)
  }

  /** A lookup in one pair, as it would be fetched. */
  function Answer(k: Codec, b: MetadataPair.Disk, id: nat, q: Query): Option<Value>
    requires k.Lawful()
  {
    match Contents(k, b)
    case None => None
    case Some(log) => Lookup(Replay(log), id, q)
  }

  /** A lookup that follows the chain of pairs, each with its number of entries. */
  function Follow(k: Codec, disks: seq<MetadataPair.Disk>, counts: seq<nat>, id: nat, q: Query): Option<Value>
    requires k.Lawful() && |disks| == |counts|
  {
    var at := Splitting.Locate(counts, id);
    if at.0 < |disks| then Answer(k, disks[at.0], at.1, q) else None
  }

  lemma {:induction false} CarriedAnswers(k: Codec, b: MetadataPair.Disk, log: seq<Attr>, id: nat, q: Query)
    requires Carries(k, b, log)
    ensures Answer(k, b, id, q) == Lookup(Replay(log), id, q)
  {
    var rest :| Contents(k, b) == Some(log + rest) && Aside(rest);
    AsideChangesNothing(log, rest);
  }

  /** Pairs that hold the pieces are followed as the pieces are. */
  lemma {:induction false} FollowIsResolve(k: Codec, disks: seq<MetadataPair.Disk>, pieces: seq<Piece>, id: nat, q: Query)
    requires k.Lawful() && AllCarry(k, disks, pieces)
    ensures Follow(k, disks, Splitting.Counts(pieces), id, q) == Splitting.Resolve(pieces, id, q)
  {
    var at := Splitting.Locate(Splitting.Counts(pieces), id);
    if at.0 < |pieces| {
      CarriedAnswers(k, disks[at.0], pieces[at.0].log, at.1, q);
    }
  }

  // ---------------------------------------------------------------- what a reader of the directory sees

  /** A lookup in the directory that starts at the pair `head`: on through the tails if the head ends with the tail
      that leads to them, and in the head alone otherwise. */
  function Read(k: Codec, head: MetadataPair.Disk, tails: seq<MetadataPair.Disk>, counts: seq<nat>, link: Attr, id: nat,
      q: Query): Option<Value>
    requires k.Lawful() && |counts| == |tails| + 1
  {
    if Contents(k, head).Some? && LastTail(Contents(k, head).value) == Some(link) then
      Follow(k, [head] + tails, counts, id, q)
    else
      Answer(k, head, id, q)
  }

  /** The log of a directory, with what is to be committed, and the pieces it is to be cut into. */
  ghost predicate Planned(log: seq<Attr>, pieces: seq<Piece>) {
    WellFormed(log) && |pieces| > 1 && Splitting.Holds(pieces, log, 0, Splitting.Total(pieces))
  }

  /** While the tails are being written, whatever state they are in, lookups are those of the old directory, which
      does not have the tail tag that will lead to them. */
  lemma TailsAreInvisible(k: Codec, head: MetadataPair.Disk, tails: seq<MetadataPair.Disk>, before: seq<Attr>,
          counts: seq<nat>, link: Attr, id: nat, q: Query)
    requires k.Lawful() && |counts| == |tails| + 1 && Contents(k, head) == Some(before) && LastTail(before) != Some(link)
    ensures Read(k, head, tails, counts, link, id, q) == Lookup(Replay(before), id, q)
  {
  }

  /** With the head written too, lookups go through the chain and find what the whole log holds. */
  lemma {:induction false} ChainAnswers(k: Codec, head: MetadataPair.Disk, tails: seq<MetadataPair.Disk>, log: seq<Attr>,
          pieces: seq<Piece>, link: Attr, rest: seq<Attr>, id: nat, q: Query)
    requires k.Lawful() && Planned(log, pieces) && AllCarry(k, tails, pieces[1..])
    requires Contents(k, head) == Some(pieces[0].log + rest) && Aside(rest) && LastTail(rest) == Some(link)
    requires id < Splitting.Total(pieces) && KeyQuery(q)
    ensures Read(k, head, tails, Splitting.Counts(pieces), link, id, q) == Lookup(Replay(log), id, q)
  {
    LastTailBehind(pieces[0].log, rest);
    assert Carries(k, head, pieces[0].log);
    ChainCarries(k, head, tails, pieces);
    FollowIsResolve(k, [head] + tails, pieces, id, q);
    assert Splitting.Answered(pieces, Replay(log), 0, id, q);
  }

  lemma ChainCarries(k: Codec, head: MetadataPair.Disk, tails: seq<MetadataPair.Disk>, pieces: seq<Piece>)
    requires pieces != [] && Carries(k, head, pieces[0].log) && AllCarry(k, tails, pieces[1..])
    ensures AllCarry(k, [head] + tails, pieces)
  {
    var disks := [head] + tails;
    forall i | 0 <= i < |disks|
      ensures Carries(k, disks[i], pieces[i].log)
    {
      if i > 0 {
        assert disks[i] == tails[i - 1] && pieces[i] == pieces[1..][i - 1];
      }
    }
  }

  /** The head's compaction, which rewrites the first piece and ends it with the tail that leads on. */
  ghost predicate Links(u: Update, piece: Piece, link: Attr) {
    u.Compaction? && exists rest :: Strip(u.attrs) == piece.log + rest && Aside(rest) && LastTail(rest) == Some(link)
  }

  lemma {:induction false} LinkedAnswers(k: Codec, head: MetadataPair.Disk, u: Update, tails: seq<MetadataPair.Disk>,
          log: seq<Attr>, pieces: seq<Piece>, link: Attr, id: nat, q: Query)
    requires k.Lawful() && Planned(log, pieces) && AllCarry(k, tails, pieces[1..])
    requires Links(u, pieces[0], link) && Contents(k, head) == Some(Strip(u.attrs))
    requires id < Splitting.Total(pieces) && KeyQuery(q)
    ensures Read(k, head, tails, Splitting.Counts(pieces), link, id, q) == Lookup(Replay(log), id, q)
  {
    var rest :| Strip(u.attrs) == pieces[0].log + rest && Aside(rest) && LastTail(rest) == Some(link);
    ChainAnswers(k, head, tails, log, pieces, link, rest, id, q);
  }

  /** A commit that splits the directory is atomic: with the tails written and the head's compaction cut short
      anywhere, every lookup is that of the old directory or that of the new one. */
  lemma {:induction false} TornSplitIsAtomic(k: Codec, head: MetadataPair.Disk, u: Update, torn: Bytes, p: nat,
          tails: seq<MetadataPair.Disk>, before: seq<Attr>, log: seq<Attr>, pieces: seq<Piece>, link: Attr)
    requires Sane(k, head) && Begins(k, head, u) && Torn(k, head, u, torn, p)
    requires Contents(k, head) == Some(before) && LastTail(before) != Some(link)
    requires Planned(log, pieces) && Links(u, pieces[0], link) && AllCarry(k, tails, pieces[1..])
    ensures var head' := Put(head, Target(k, head, u), torn);
      || (forall id, q :: Read(k, head', tails, Splitting.Counts(pieces), link, id, q) == Lookup(Replay(before), id, q))
      || (forall id, q | 0 <= id < Splitting.Total(pieces) && KeyQuery(q) ::
            Read(k, head', tails, Splitting.Counts(pieces), link, id, q) == Lookup(Replay(log), id, q))
  {
    var head' := Put(head, Target(k, head, u), torn);
    UpdateIsAtomic(k, head, u, torn, p);
    if Became(k, head', NewContents(k, head, u)) {
      forall id, q | 0 <= id < Splitting.Total(pieces) && KeyQuery(q)
        ensures Read(k, head', tails, Splitting.Counts(pieces), link, id, q) == Lookup(Replay(log), id, q)
      {
        LinkedAnswers(k, head', u, tails, log, pieces, link, id, q);
      }
    } else {
      forall id, q
        ensures Read(k, head', tails, Splitting.Counts(pieces), link, id, q) == Lookup(Replay(before), id, q)
      {
        TailsAreInvisible(k, head', tails, before, Splitting.Counts(pieces), link, id, q);
      }
    }
  }

  /** Completed, every lookup is that of the new directory. */
  lemma {:induction false} SplitCompletes(k: Codec, head: MetadataPair.Disk, u: Update, tails: seq<MetadataPair.Disk>,
          log: seq<Attr>, pieces: seq<Piece>, link: Attr, id: nat, q: Query)
    requires Sane(k, head) && Begins(k, head, u)
    requires Planned(log, pieces) && Links(u, pieces[0], link) && AllCarry(k, tails, pieces[1..])
    requires id < Splitting.Total(pieces) && KeyQuery(q)
    ensures |u.good| >= 4
    ensures Read(k, Put(head, Target(k, head, u), u.good), tails, Splitting.Counts(pieces), link, id, q) == Lookup(Replay(log), id, q)
  {
    UpdateCompletes(k, head, u);
    LinkedAnswers(k, Put(head, Target(k, head, u), u.good), u, tails, log, pieces, link, id, q);
  }

  /** A split that commits nothing new changes no answer, wherever it is cut. */
  lemma {:induction false} TornSplitIsInvisible(k: Codec, head: MetadataPair.Disk, u: Update, torn: Bytes, p: nat,
          tails: seq<MetadataPair.Disk>, log: seq<Attr>, pieces: seq<Piece>, link: Attr, id: nat, q: Query)
    requires Sane(k, head) && Begins(k, head, u) && Torn(k, head, u, torn, p)
    requires Contents(k, head) == Some(log) && LastTail(log) != Some(link)
    requires Planned(log, pieces) && Links(u, pieces[0], link) && AllCarry(k, tails, pieces[1..])
    requires id < Splitting.Total(pieces) && KeyQuery(q)
    ensures Read(k, Put(head, Target(k, head, u), torn), tails, Splitting.Counts(pieces), link, id, q) == Lookup(Replay(log), id, q)
  {
    TornSplitIsAtomic(k, head, u, torn, p, tails, log, log, pieces, link);
  }
}
