/** What a power cut during a compaction means for a directory: nothing. Whether the fetch afterwards recovers the
    old block or the new one, every lookup gives the same answer. */
module Recovery {
  import opened Wrappers
  import opened Tags
  import opened MetadataLog
  import opened Compaction
  import opened Splitting
  import opened CommitFormat
  import opened CommitWriter
  import opened MetadataPair
  import opened CrashAtomicity

  /** Tags that concern no entry: tails and global state. */
  ghost predicate Aside(rest: seq<Attr>) {
    forall i | 0 <= i < |rest| :: rest[i].tag.typ >= TYPE_SPLICE && !rest[i].tag.IsSplice()
  }

  lemma {:induction false} AsideChangesNothing(log: seq<Attr>, rest: seq<Attr>)
    requires Aside(rest)
    ensures Replay(log + rest) == Replay(log)
    decreases |rest|
  {
    if rest == [] {
      assert log + rest == log;
    } else {
      var front, a := rest[..|rest| - 1], rest[|rest| - 1];
      assert log + rest == (log + front) + [a];
      ReplaySnoc(log + front, a);
      AsideChangesNothing(log, front);
    }
  }

  /** A compaction rewrites the log of a directory of `count` entries, followed by its tail and global state. */
  ghost predicate Rewrites(attrs: seq<Attr>, log: seq<Attr>, count: nat, rest: seq<Attr>) {
    Strip(attrs) == Compacted(log, 0, count) + rest && Aside(rest)
  }

  lemma {:induction false} RewrittenAnswers(attrs: seq<Attr>, log: seq<Attr>, count: nat, rest: seq<Attr>,
          id: nat, q: Query)
    requires WellFormed(log) && Rewrites(attrs, log, count, rest) && id < count && KeyQuery(q)
    ensures Lookup(Replay(Strip(attrs)), id, q) == Lookup(Replay(log), id, q)
  {
    AsideChangesNothing(Compacted(log, 0, count), rest);
    CompactionPreserves(log, 0, count, id, q);
  }

  /** The pair can be fetched, and the entry's attribute is what it is in the log. */
  ghost predicate StillAnswers(k: Codec, b: MetadataPair.Disk, log: seq<Attr>, id: nat, q: Query) {
    && k.Lawful() && Contents(k, b).Some?
    && Lookup(Replay(Contents(k, b).value), id, q) == Lookup(Replay(log), id, q)
  }

  /** Cut short at any point, a compaction loses nothing and changes nothing. */
  lemma {:induction false} TornCompactionIsInvisible(k: Codec, b: MetadataPair.Disk, good: Bytes, attrs: seq<Attr>,
      torn: Bytes, p: nat, log: seq<Attr>, count: nat, rest: seq<Attr>, id: nat, q: Query)
    requires Sane(k, b) && Begins(k, b, Update.Compaction(good, attrs))
    requires Torn(k, b, Update.Compaction(good, attrs), torn, p)
    requires Contents(k, b) == Some(log) && WellFormed(log) && Rewrites(attrs, log, count, rest)
    requires id < count && KeyQuery(q)
    ensures StillAnswers(k, Put(b, Target(k, b, Update.Compaction(good, attrs)), torn), log, id, q)
  {
    UpdateIsAtomic(k, b, Update.Compaction(good, attrs), torn, p);
    RewrittenAnswers(attrs, log, count, rest, id, q);
  }

  /** Completed, it changes nothing either. */
  lemma {:induction false} CompactionIsInvisible(k: Codec, b: MetadataPair.Disk, good: Bytes, attrs: seq<Attr>,
      log: seq<Attr>, count: nat, rest: seq<Attr>, id: nat, q: Query)
    requires Sane(k, b) && Begins(k, b, Update.Compaction(good, attrs))
    requires Contents(k, b) == Some(log) && WellFormed(log) && Rewrites(attrs, log, count, rest)
    requires id < count && KeyQuery(q)
    ensures |good| >= 4 && StillAnswers(k, Put(b, Target(k, b, Update.Compaction(good, attrs)), good), log, id, q)
  {
    UpdateCompletes(k, b, Update.Compaction(good, attrs));
    RewrittenAnswers(attrs, log, count, rest, id, q);
  }
}
