/** Compaction of a metadata log: lfs_dir_traverse with lfs_dir_traverse_filter writes out the
    attributes still in force; every lookup by id answers on the new log as it did on the old one. */
module Compaction {
  import opened Bits
  import opened WordBits
  import opened Wrappers
  import opened Tags
  import opened TagWords
  import opened MetadataLog
  import opened CommitFormat

  // ---------------------------------------------------------------- the filter

  /** The attributes a tag supersedes: types with bit 0x100 stand for themselves, the others for
      their whole family. */
  function KeyOf(typ: nat): Query {
    if typ / 0x100 % 2 == 1 then Exact(typ) else Family(typ)
  }

  predicate Supersedes(later: Tag, t: Tag) {
    later.id == t.id && KeyOf(later.typ).Matches(t.typ)
  }

  /** The redundancy test of the filter, on packed words: which mask depends on bit 0x100 of the type. */
  lemma SupersedesIsMasked(later: Tag, t: Tag)
    requires TagFits(later) && TagFits(t)
    ensures var mask := (if HasBit(later.typ, 8) then 0x7ff else 0x700) * 0x10_0000 + 0x3ff * 0x400;
      And(Pack(later), mask) == And(Pack(t), mask) <==> Supersedes(later, t)
  {
    assert Pow2(8) == 0x100;
    WordsMatch(KeyOf(later.typ), t, later.id, later.size);
  }

  /** lfs_dir_traverse_filter: what a later tag leaves of an earlier attribute. */
  function FilterStep(x: Attr, later: Tag): Option<Attr> {
    if Supersedes(later, x.tag) || x.tag.IsDelete() || (later.typ == TYPE_DELETE && later.id == x.tag.id) then
      None
    else if later.IsSplice() && later.id <= x.tag.id then
      var id := x.tag.id + Splice(later.typ);
      Some(Attr(Tag(x.tag.typ, if id < 0 then 0 else id, x.tag.size), x.data))
    else
      Some(x)
  }

  function FilterAll(x: Attr, later: seq<Attr>): Option<Attr>
    decreases later
  {
    if later == [] then Some(x)
    else
      match FilterStep(x, later[0].tag)
      case None => None
      case Some(y) => FilterAll(y, later[1..])
  }

  /** A deleted attribute is kept by no later tag. */
  lemma DeletedIsDropped(x: Attr, later: seq<Attr>)
    requires x.tag.IsDelete()
    ensures FilterAll(x, later).Some? <==> later == []
  {
  }

  /** The nested traversal: every later tag of the log and the pending attributes gets its say. */
  method Filter(x: Attr, log: seq<Attr>, from: nat) returns (r: Option<Attr>)
    requires from <= |log|
    ensures r == FilterAll(x, log[from..])
  {
    var y := x;
    var i := from;
    while i < |log|
      invariant from <= i <= |log|
      invariant FilterAll(x, log[from..]) == FilterAll(y, log[i..])
    {
      assert log[i..][1..] == log[i + 1..];
      match FilterStep(y, log[i].tag)
      case None =>
        return None;
      case Some(z) =>
        y := z;
      i := i + 1;
    }
    r := Some(y);
  }

  function AsSeq(o: Option<Attr>): seq<Attr> {
    if o.Some? then [o.value] else []
  }

  /** What the tags after it leave of an attribute; only names, structs and user attributes are carried over. */
  function Kept(x: Attr, later: seq<Attr>): seq<Attr> {
    if x.tag.typ < TYPE_SPLICE then AsSeq(FilterAll(x, later)) else []
  }

  /** Everything still in force, in log order, with the ids it has at the end of the log. */
  function Collect(log: seq<Attr>): seq<Attr> {
    if log == [] then [] else Kept(log[0], log[1..]) + Collect(log[1..])
  }

  /** The attribute renumbered, if its entry is one of begin..end. */
  function InRange(x: Attr, begin: nat, end: nat): seq<Attr> {
    if begin <= x.tag.id < end then [Attr(Tag(x.tag.typ, x.tag.id - begin, x.tag.size), x.data)] else []
  }

  /** The entries begin..end of a collection, renumbered from 0. */
  function Range(s: seq<Attr>, begin: nat, end: nat): seq<Attr> {
    if s == [] then [] else Range(s[..|s| - 1], begin, end) + InRange(s[|s| - 1], begin, end)
  }

  function Compacted(log: seq<Attr>, begin: nat, end: nat): seq<Attr> {
    Range(Collect(log), begin, end)
  }

  method Traverse(log: seq<Attr>, begin: nat, end: nat) returns (written: seq<Attr>)
    ensures written == Compacted(log, begin, end)
  {
    written := [];
    ghost var kept: seq<Attr> := [];
    var k := 0;
    assert log[0..] == log;
    while k < |log|
      invariant 0 <= k <= |log|
      invariant kept + Collect(log[k..]) == Collect(log)
      invariant written == Range(kept, begin, end)
    {
      CollectHead(log, k, kept);
      if log[k].tag.typ < TYPE_SPLICE {
        var y := Filter(log[k], log, k + 1);
        if y.Some? {
          RangeSnoc(kept, y.value, begin, end);
          written := written + InRange(y.value, begin, end);
          kept := kept + [y.value];
        }
      }
      k := k + 1;
    }
    assert kept + Collect(log[k..]) == kept;
  }

  lemma CollectHead(log: seq<Attr>, k: nat, kept: seq<Attr>)
    requires k < |log|
    ensures kept + Collect(log[k..]) == kept + Kept(log[k], log[k + 1..]) + Collect(log[k + 1..])
    ensures Kept(log[k], log[k + 1..]) == [] ==> kept + Kept(log[k], log[k + 1..]) == kept
  {
    assert log[k..][1..] == log[k + 1..];
  }

  lemma RangeSnoc(s: seq<Attr>, x: Attr, begin: nat, end: nat)
    ensures Range(s + [x], begin, end) == Range(s, begin, end) + InRange(x, begin, end)
  {
    assert (s + [x])[..|s|] == s;
  }

  // ---------------------------------------------------------------- one more tag, seen from the end

  /** What one more tag leaves of everything collected so far. */
  function Sweep(s: seq<Attr>, t: Tag): seq<Attr> {
    if s == [] then [] else Sweep(s[..|s| - 1], t) + AsSeq(FilterStep(s[|s| - 1], t))
  }

  lemma {:induction false} SweepConcat(a: seq<Attr>, b: seq<Attr>, t: Tag)
    ensures Sweep(a + b, t) == Sweep(a, t) + Sweep(b, t)
  {
    if b == [] {
      assert a + b == a;
    } else {
      assert (a + b)[..|a + b| - 1] == a + b[..|b| - 1];
      SweepConcat(a, b[..|b| - 1], t);
    }
  }

  lemma {:induction false} FilterAllSnoc(x: Attr, later: seq<Attr>, a: Attr)
    ensures FilterAll(x, later + [a]) ==
            match FilterAll(x, later) case None => None case Some(y) => FilterStep(y, a.tag)
    decreases later
  {
    if later == [] {
      assert ([a])[1..] == [];
    } else {
      assert (later + [a])[1..] == later[1..] + [a];
      match FilterStep(x, later[0].tag)
      case None =>
      case Some(y) => FilterAllSnoc(y, later[1..], a);
    }
  }

  lemma {:induction false} SweepOne(o: Option<Attr>, t: Tag)
    ensures Sweep(AsSeq(o), t) == if o.Some? then AsSeq(FilterStep(o.value, t)) else []
  {
    if o.Some? {
      assert [o.value][..0] == [];
    }
  }

  lemma {:induction false} KeptSnoc(x: Attr, later: seq<Attr>, a: Attr)
    ensures Kept(x, later + [a]) == Sweep(Kept(x, later), a.tag)
  {
    FilterAllSnoc(x, later, a);
    SweepOne(FilterAll(x, later), a.tag);
  }

  function Added(a: Attr): seq<Attr> {
    if a.tag.typ < TYPE_SPLICE then [a] else []
  }

  lemma {:induction false} CollectCons(log: seq<Attr>, x: Attr, rest: seq<Attr>)
    requires log == [x] + rest
    ensures Collect(log) == Kept(x, rest) + Collect(rest)
  {
    assert log[0] == x && log[1..] == rest;
  }

  /** Scanning later tags one attribute at a time is the same as sweeping the collection
      with each tag as it comes. */
  lemma {:induction false} CollectSnoc(log: seq<Attr>, a: Attr)
    ensures Collect(log + [a]) == Sweep(Collect(log), a.tag) + Added(a)
  {
    if log == [] {
      CollectCons([] + [a], a, []);
    } else {
      var x, rest := log[0], log[1..];
      CollectCons(log, x, rest);
      CollectCons(log + [a], x, rest + [a]);
      CollectSnoc(rest, a);
      KeptSnoc(x, rest, a);
      SweepConcat(Kept(x, rest), Collect(rest), a.tag);
    }
  }

  // ---------------------------------------------------------------- lookups in a collection

  /** The last attribute of entry g that answers q. */
  function Find(s: seq<Attr>, g: nat, q: Query): Option<Value> {
    if s == [] then None
    else
      var x := s[|s| - 1];
      if x.tag.id == g && q.Matches(x.tag.typ) then Some(ValueOf(x)) else Find(s[..|s| - 1], g, q)
  }

  /** A collection holds names, structs and user attributes, at most one under each key. */
  ghost predicate Tidy(s: seq<Attr>) {
    s == [] ||
    var x := s[|s| - 1];
    && x.tag.typ < TYPE_SPLICE
    && Find(s[..|s| - 1], x.tag.id, KeyOf(x.tag.typ)) == None
    && Tidy(s[..|s| - 1])
  }

  /** The queries that ask for exactly one key. */
  predicate KeyQuery(q: Query) {
    match q
    case Exact(t) => t / 0x100 == 1 || t / 0x100 == 3
    case Kind(t) => false
    case Family(t) => t / 0x100 == 0 || t / 0x100 == 2
  }

  lemma KeysAgree(q: Query, a: nat, b: nat)
    requires KeyQuery(q) && q.Matches(a)
    ensures KeyOf(a).Matches(b) <==> q.Matches(b)
    ensures a < TYPE_SPLICE
  {
  }

  lemma SameKeySameFind(s: seq<Attr>, g: nat, q: Query, p: Query)
    requires forall t: nat :: q.Matches(t) <==> p.Matches(t)
    ensures Find(s, g, q) == Find(s, g, p)
  {
  }

  lemma KeyFind(s: seq<Attr>, g: nat, q: Query, typ: nat)
    requires KeyQuery(q) && q.Matches(typ)
    ensures Find(s, g, KeyOf(typ)) == Find(s, g, q)
  {
    forall t: nat
      ensures q.Matches(t) <==> KeyOf(typ).Matches(t)
    {
      KeysAgree(q, typ, t);
    }
    SameKeySameFind(s, g, q, KeyOf(typ));
  }

  /** Nothing found before a sweep, nothing found after it. */
  lemma {:induction false} SweepFindsNothingNew(s: seq<Attr>, t: Tag, g: nat, q: Query)
    requires WellFormedTag(t) && (t != Tag(TYPE_CREATE, g, 0) ==> Earlier(t, g) >= 0 && Find(s, Earlier(t, g), q) == None)
    ensures Find(Sweep(s, t), g, q) == None
  {
    if s != [] {
      var x := s[|s| - 1];
      SweepFindsNothingNew(s[..|s| - 1], t, g, q);
      SweptLast(s, t, g, q);
      StepFindsNothingNew(x, t, g, q);
    }
  }

  lemma StepFindsNothingNew(x: Attr, t: Tag, g: nat, q: Query)
    requires WellFormedTag(t)
    requires t != Tag(TYPE_CREATE, g, 0) ==> Earlier(t, g) >= 0 && !(x.tag.id == Earlier(t, g) && q.Matches(x.tag.typ))
    ensures var o := FilterStep(x, t); o.Some? ==> !(o.value.tag.id == g && q.Matches(o.value.tag.typ))
  {
  }

  lemma {:induction false} SweptLast(s: seq<Attr>, t: Tag, g: nat, q: Query)
    requires s != []
    ensures
      var rest, o := Sweep(s[..|s| - 1], t), FilterStep(s[|s| - 1], t);
      Find(Sweep(s, t), g, q) ==
        if o.Some? && o.value.tag.id == g && q.Matches(o.value.tag.typ) then Some(ValueOf(o.value))
        else Find(rest, g, q)
  {
    var rest, o := Sweep(s[..|s| - 1], t), FilterStep(s[|s| - 1], t);
    if o.Some? {
      assert (rest + [o.value])[..|rest|] == rest;
    } else {
      assert rest + [] == rest;
    }
  }

  /** A sweep by a tag keeps every answer, at the id the entry has after the tag. */
  lemma {:induction false} SweepKeepsAnswers(s: seq<Attr>, t: Tag, g: nat, q: Query)
    requires Tidy(s) && WellFormedTag(t) && KeyQuery(q) && !(t.id == g && q.Matches(t.typ))
    requires t != Tag(TYPE_CREATE, g, 0) && Earlier(t, g) >= 0
    ensures Present(Find(Sweep(s, t), g, q)) == Present(Find(s, Earlier(t, g), q))
  {
    if s != [] {
      var x, h := s[|s| - 1], Earlier(t, g);
      SweepKeepsAnswers(s[..|s| - 1], t, g, q);
      SweptLast(s, t, g, q);
      if x.tag.id == h && q.Matches(x.tag.typ) {
        KeyFind(s[..|s| - 1], h, q, x.tag.typ);
        StepKeepsAnswer(x, t, g, q);
      } else {
        StepFindsNothingNew(x, t, g, q);
      }
    }
  }

  /** The attribute asked for survives a tag on another key, unless it stands for a deleted one. */
  lemma StepKeepsAnswer(x: Attr, t: Tag, g: nat, q: Query)
    requires WellFormedTag(t) && KeyQuery(q) && !(t.id == g && q.Matches(t.typ))
    requires t != Tag(TYPE_CREATE, g, 0) && Earlier(t, g) >= 0
    requires x.tag.id == Earlier(t, g) && q.Matches(x.tag.typ)
    ensures var o := FilterStep(x, t);
      if x.tag.IsDelete() then o == None else o.Some? && o.value.tag.id == g && ValueOf(o.value) == ValueOf(x)
  {
    if Supersedes(t, x.tag) {
      KeysAgree(q, x.tag.typ, t.typ);
      MutualKeys(t.typ, x.tag.typ);
    }
  }

  lemma MutualKeys(a: nat, b: nat)
    requires b < TYPE_SPLICE && KeyOf(a).Matches(b)
    ensures KeyOf(b).Matches(a)
  {
  }

  lemma TidySnoc(s: seq<Attr>, x: Attr)
    requires Tidy(s) && x.tag.typ < TYPE_SPLICE && Find(s, x.tag.id, KeyOf(x.tag.typ)) == None
    ensures Tidy(s + [x])
  {
    assert (s + [x])[..|s|] == s;
  }

  /** An attribute that survives a tag keeps its type and moves with its entry. */
  lemma Survivor(x: Attr, t: Tag)
    requires WellFormedTag(t) && FilterStep(x, t).Some?
    ensures var y := FilterStep(x, t).value;
      && y.tag.typ == x.tag.typ && ValueOf(y) == ValueOf(x)
      && t != Tag(TYPE_CREATE, y.tag.id, 0) && Earlier(t, y.tag.id) == x.tag.id
  {
  }

  lemma {:induction false} SweepStaysTidy(s: seq<Attr>, t: Tag)
    requires Tidy(s) && WellFormedTag(t)
    ensures Tidy(Sweep(s, t))
  {
    if s != [] {
      var x := s[|s| - 1];
      SweepStaysTidy(s[..|s| - 1], t);
      var o := FilterStep(x, t);
      if o.Some? {
        Survivor(x, t);
        SweepFindsNothingNew(s[..|s| - 1], t, o.value.tag.id, KeyOf(x.tag.typ));
        TidySnoc(Sweep(s[..|s| - 1], t), o.value);
      } else {
        assert Sweep(s, t) == Sweep(s[..|s| - 1], t);
      }
    }
  }

  /** After a tag has swept a collection nothing under its own key is left. */
  lemma {:induction false} SweepClearsKey(s: seq<Attr>, t: Tag)
    requires t.typ < TYPE_SPLICE
    ensures Find(Sweep(s, t), t.id, KeyOf(t.typ)) == None
  {
    if s != [] {
      SweepClearsKey(s[..|s| - 1], t);
      SweptLast(s, t, t.id, KeyOf(t.typ));
    }
  }

  // ---------------------------------------------------------------- the meaning of a collection

  lemma FindSnoc(s: seq<Attr>, x: Attr, g: nat, q: Query)
    ensures Find(s + [x], g, q) == if x.tag.id == g && q.Matches(x.tag.typ) then Some(ValueOf(x)) else Find(s, g, q)
  {
    assert (s + [x])[..|s|] == s;
  }

  lemma {:induction false} CollectIsTidy(log: seq<Attr>)
    requires WellFormed(log)
    ensures Tidy(Collect(log))
  {
    if log != [] {
      var front, a := log[..|log| - 1], log[|log| - 1];
      CollectIsTidy(front);
      assert log == front + [a];
      CollectSnoc(front, a);
      SweepStaysTidy(Collect(front), a.tag);
      if a.tag.typ < TYPE_SPLICE {
        SweepClearsKey(Collect(front), a.tag);
        TidySnoc(Sweep(Collect(front), a.tag), a);
      } else {
        assert Sweep(Collect(front), a.tag) + [] == Sweep(Collect(front), a.tag);
      }
    }
  }

  /** What the collection answers is what the replayed log answers. */
  lemma {:induction false} CollectMeansReplay(log: seq<Attr>, g: nat, q: Query)
    requires WellFormed(log) && KeyQuery(q)
    ensures Present(Find(Collect(log), g, q)) == Lookup(Replay(log), g, q)
  {
    if log != [] {
      var front, a := log[..|log| - 1], log[|log| - 1];
      assert log == front + [a];
      if a.tag != Tag(TYPE_CREATE, g, 0) && !(q.Matches(a.tag.typ) && a.tag.id == g) {
        LookupStep(Replay(front), a, g, q);
        CollectMeansReplay(front, Earlier(a.tag, g), q);
      }
      MeaningStep(front, a, g, q);
    }
  }

  lemma MeaningStep(front: seq<Attr>, a: Attr, g: nat, q: Query)
    requires WellFormed(front) && WellFormedTag(a.tag) && KeyQuery(q)
    requires a.tag != Tag(TYPE_CREATE, g, 0) && !(q.Matches(a.tag.typ) && a.tag.id == g) ==>
               var h := Earlier(a.tag, g);
               h >= 0 && Present(Find(Collect(front), h, q)) == Lookup(Replay(front), h, q)
    ensures Present(Find(Collect(front + [a]), g, q)) == Lookup(Replay(front + [a]), g, q)
  {
    CollectIsTidy(front);
    CollectStep(front, a, g, q);
    ReplaySnoc(front, a);
    LookupStep(Replay(front), a, g, q);
  }

  /** The collection's answer after one more tag, in the terms of the backward scan. */
  lemma CollectStep(front: seq<Attr>, a: Attr, g: nat, q: Query)
    requires WellFormedTag(a.tag) && KeyQuery(q) && Tidy(Collect(front))
    ensures a.tag != Tag(TYPE_CREATE, g, 0) ==> Earlier(a.tag, g) >= 0
    ensures Present(Find(Collect(front + [a]), g, q)) ==
            if a.tag == Tag(TYPE_CREATE, g, 0) then None
            else if q.Matches(a.tag.typ) && a.tag.id == g then Present(Some(ValueOf(a)))
            else Present(Find(Collect(front), Earlier(a.tag, g), q))
  {
    CollectSnoc(front, a);
    SweptAnswer(Collect(front), a, g, q);
  }

  lemma SweptAnswer(s: seq<Attr>, a: Attr, g: nat, q: Query)
    requires WellFormedTag(a.tag) && KeyQuery(q) && Tidy(s)
    ensures a.tag != Tag(TYPE_CREATE, g, 0) ==> Earlier(a.tag, g) >= 0
    ensures Present(Find(Sweep(s, a.tag) + Added(a), g, q)) ==
            if a.tag == Tag(TYPE_CREATE, g, 0) then None
            else if q.Matches(a.tag.typ) && a.tag.id == g then Present(Some(ValueOf(a)))
            else Present(Find(s, Earlier(a.tag, g), q))
  {
    NoSpliceMatches(q, a.tag);
    var swept := Sweep(s, a.tag);
    if Added(a) == [] {
      assert swept + [] == swept;
    } else {
      FindSnoc(swept, a, g, q);
    }
    MatchIsPlain(q, a.tag.typ);
    if a.tag == Tag(TYPE_CREATE, g, 0) {
      SweepFindsNothingNew(s, a.tag, g, q);
    } else if !(q.Matches(a.tag.typ) && a.tag.id == g) {
      SweepKeepsAnswers(s, a.tag, g, q);
    }
  }

  lemma MatchIsPlain(q: Query, typ: nat)
    requires q.typ < TYPE_SPLICE
    ensures q.Matches(typ) ==> typ < TYPE_SPLICE
  {
  }
}
