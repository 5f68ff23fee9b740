/** The logs on which the name search is exact are closed under what littlefs does to them:
    creating an entry where the search said, deleting one, and compaction. */
module NameUpdates {
  import opened Words
  import opened Wrappers
  import opened Tags
  import opened MetadataLog
  import opened Compaction
  import opened Splitting
  import opened NameSearch

  // ---------------------------------------------------------------- create and delete

  function CreateTag(id: nat): Attr {
    Attr(Tag(TYPE_CREATE, id, 0), [])
  }

  function DeleteTag(id: nat): Attr {
    Attr(Tag(TYPE_DELETE, id, 0), [])
  }

  function NameTag(typ: nat, id: nat, name: seq<Byte>): Attr {
    Attr(Tag(typ, id, |name|), name)
  }

  /** A new entry created where the search said keeps the log orderly, and is then the one found. */
  lemma CreateKeepsOrder(log: seq<Attr>, typ: nat, id: nat, name: seq<Byte>)
    requires Orderly(log) && AllNamed(Replay(log)) && CutAt(Replay(log), id, name)
    requires typ < 0x80 && |name| < DELETED && |Replay(log)| < NO_ID
    ensures var log' := log + [CreateTag(id)] + [NameTag(typ, id, name)];
      Orderly(log') && AllNamed(Replay(log')) && HasName(Replay(log'), id, name)
  {
    var dir, c, n := Replay(log), CreateTag(id), NameTag(typ, id, name);
    var mid := Apply(dir, c);
    var after := Apply(mid, n);
    SplicedSlots(dir, c);
    OrderlyIsSorted(log);
    SortedInsert(dir, mid, id);
    OrderlySnoc(log, c);
    ReplaySnoc(log, c);
    SetSlots(mid, n);
    InsertedCut(dir, mid, name, id, id);
    SortedName(mid, after, id, ValueOf(n), name);
    OrderlySnoc(log + [c], n);
    ReplaySnoc(log + [c], n);
    assert Slot(after, id) == Some(ValueOf(n));
    CompareReverse(name, name);
    forall i | 0 <= i < |after|
      ensures Slot(after, i).Some?
    {
      assert i != id ==> Slot(after, i) == Slot(mid, i) == if i < id then Slot(dir, i) else Slot(dir, i - 1);
    }
  }

  lemma SortedInsert(dir: Directory, dir': Directory, i: nat)
    requires Sorted(dir) && Inserted(dir, dir', i)
    ensures Sorted(dir')
  {
    forall j, k | 0 <= j < k && Slot(dir', j).Some? && Slot(dir', k).Some?
      ensures Before(Slot(dir', j).value, Slot(dir', k).value)
    {
      var j', k' := if j < i then j else j - 1, if k < i then k else k - 1;
      assert Slot(dir', j) == Slot(dir, j') && Slot(dir', k) == Slot(dir, k');
    }
  }

  lemma SortedRemove(dir: Directory, dir': Directory, i: nat)
    requires Sorted(dir) && Removed(dir, dir', i)
    ensures Sorted(dir')
  {
    forall j, k | 0 <= j < k && Slot(dir', j).Some? && Slot(dir', k).Some?
      ensures Before(Slot(dir', j).value, Slot(dir', k).value)
    {
      var j', k' := if j < i then j else j + 1, if k < i then k else k + 1;
      assert Slot(dir', j) == Slot(dir, j') && Slot(dir', k) == Slot(dir, k');
    }
  }

  lemma SortedName(dir: Directory, dir': Directory, i: nat, v: Value, name: seq<Byte>)
    requires Sorted(dir) && CutAt(dir, i, name) && Slot(dir, i) == None && !Hidden(v) && v.data == name
    requires forall j: nat {:trigger Slot(dir', j)} :: Slot(dir', j) == if j == i then Some(v) else Slot(dir, j)
    ensures Sorted(dir')
  {
    forall j, k | 0 <= j < k && Slot(dir', j).Some? && Slot(dir', k).Some?
      ensures Before(Slot(dir', j).value, Slot(dir', k).value)
    {
      SlotBeyond(dir, j);
      SlotBeyond(dir, k);
      if j == i {
        assert Stands(dir, k, name, Side(k, i));
        CompareReverse(Slot(dir, k).value.data, name);
      } else if k == i {
        assert Stands(dir, j, name, Side(j, i));
      }
    }
  }

  lemma DeleteKeepsOrder(log: seq<Attr>, id: nat)
    requires Orderly(log) && AllNamed(Replay(log)) && id < |Replay(log)|
    ensures Orderly(log + [DeleteTag(id)]) && AllNamed(Replay(log + [DeleteTag(id)]))
  {
    var dir, d := Replay(log), DeleteTag(id);
    var dir' := Apply(dir, d);
    SplicedSlots(dir, d);
    OrderlyIsSorted(log);
    SortedRemove(dir, dir', id);
    forall i | 0 <= i < |dir'|
      ensures Slot(dir', i).Some?
    {
      assert Slot(dir', i) == Slot(dir, if i < id then i else i + 1);
    }
    OrderlyIsSmall(log);
    OrderlySnoc(log, d);
    ReplaySnoc(log, d);
  }

  // ---------------------------------------------------------------- compaction

  predicate GoodName(x: Attr) {
    x.tag.size == |x.data| && !x.tag.IsDelete()
  }

  /** Names come once and lead their entry. */
  ghost predicate Led(s: seq<Attr>) {
    s == [] ||
    var front, x := s[..|s| - 1], s[|s| - 1];
    && Led(front)
    && (IsName(x.tag) ==> GoodName(x) && Find(front, x.tag.id, NAMES) == None)
    && (!IsName(x.tag) ==> Find(front, x.tag.id, NAMES).Some?)
  }

  lemma LedSnoc(s: seq<Attr>, x: Attr)
    ensures Led(s + [x]) <==>
            && Led(s)
            && (IsName(x.tag) ==> GoodName(x) && Find(s, x.tag.id, NAMES) == None)
            && (!IsName(x.tag) ==> Find(s, x.tag.id, NAMES).Some?)
  {
    assert (s + [x])[..|s|] == s;
  }

  lemma {:induction false} LedNamesArePresent(s: seq<Attr>, g: nat)
    requires Led(s)
    ensures Find(s, g, NAMES).Some? ==> Find(s, g, NAMES).value.size != DELETED
  {
    if s != [] {
      LedNamesArePresent(s[..|s| - 1], g);
    }
  }

  /** An attribute that survives a tag is still led by its entry's name. */
  lemma SurvivorIsLed(front: seq<Attr>, x: Attr, t: Tag, y: Attr)
    requires Tidy(front) && Led(front) && WellFormedTag(t) && FilterStep(x, t) == Some(y)
    requires IsName(x.tag) ==> GoodName(x) && Find(front, x.tag.id, NAMES) == None
    requires !IsName(x.tag) ==> Find(front, x.tag.id, NAMES).Some?
    requires IsName(t) ==> Find(front, t.id, NAMES) == None
    ensures IsName(y.tag) ==> GoodName(y) && Find(Sweep(front, t), y.tag.id, NAMES) == None
    ensures !IsName(y.tag) ==> Find(Sweep(front, t), y.tag.id, NAMES).Some?
  {
    Survivor(x, t);
    var g := y.tag.id;
    if IsName(x.tag) {
      SweepFindsNothingNew(front, t, g, NAMES);
    } else {
      SweepKeepsAnswers(front, t, g, NAMES);
      LedNamesArePresent(front, x.tag.id);
    }
  }

  /** A tag that may follow keeps names in the lead. */
  lemma {:induction false} SweepStaysLed(s: seq<Attr>, t: Tag)
    requires Tidy(s) && Led(s) && WellFormedTag(t)
    requires IsName(t) ==> Find(s, t.id, NAMES) == None
    ensures Led(Sweep(s, t))
  {
    if s != [] {
      var front, x := s[..|s| - 1], s[|s| - 1];
      SweepStaysLed(front, t);
      match FilterStep(x, t)
      case Some(y) =>
        SurvivorIsLed(front, x, t, y);
        LedSnoc(Sweep(front, t), y);
      case None =>
        assert Sweep(s, t) == Sweep(front, t);
    }
  }

  lemma SlotIsFound(log: seq<Attr>, g: nat)
    requires WellFormed(log) && Led(Collect(log))
    ensures Find(Collect(log), g, NAMES).Some? ==> Slot(Replay(log), g) == Find(Collect(log), g, NAMES)
    ensures Slot(Replay(log), g) == None ==> Find(Collect(log), g, NAMES) == None
  {
    CollectMeansReplay(log, g, NAMES);
    LedNamesArePresent(Collect(log), g);
  }

  lemma WellFormedSnoc(front: seq<Attr>, a: Attr)
    requires WellFormed(front) && WellFormedTag(a.tag)
    ensures WellFormed(front + [a])
  {
  }

  lemma {:induction false} OrderlyIsWellFormed(log: seq<Attr>)
    requires Orderly(log)
    ensures WellFormed(log)
  {
    if log != [] {
      var front, a := log[..|log| - 1], log[|log| - 1];
      assert log == front + [a];
      OrderlySnoc(front, a);
      OrderlyIsWellFormed(front);
      WellFormedSnoc(front, a);
    }
  }

  /** No entry's name is a deleted attribute. */
  ghost predicate GoodSlots(dir: Directory) {
    forall g: nat {:trigger Slot(dir, g)} :: Slot(dir, g).Some? ==> Slot(dir, g).value.size != DELETED
  }

  lemma GoodStep(dir: Directory, spliced: bool, a: Attr)
    requires TagOk(dir, spliced, a) && GoodSlots(dir)
    ensures GoodSlots(Apply(dir, a))
  {
    var dir' := Apply(dir, a);
    if a.tag.IsSplice() { SplicedSlots(dir, a); } else { SetSlots(dir, a); }
    forall g: nat
      ensures Slot(dir', g).Some? ==> Slot(dir', g).value.size != DELETED
    {
      var h := if a.tag.typ == TYPE_CREATE && g > a.tag.id then g - 1 else if a.tag.typ == TYPE_DELETE && g >= a.tag.id then g + 1 else g;
      assert Slot(dir, h).Some? ==> Slot(dir, h).value.size != DELETED;
    }
  }

  lemma {:induction false} SlotsAreGood(log: seq<Attr>)
    requires Orderly(log)
    ensures GoodSlots(Replay(log))
  {
    if log != [] {
      var front, a := log[..|log| - 1], log[|log| - 1];
      hide Replay, Orderly, GoodSlots, TagOk;
      assert log == front + [a];
      OrderlySnoc(front, a);
      SlotsAreGood(front);
      OneMoreIsGood(front, a);
    }
  }

  lemma {:induction false} OneMoreIsGood(front: seq<Attr>, a: Attr)
    requires TagOk(Replay(front), HasSplice(front), a) && GoodSlots(Replay(front))
    ensures GoodSlots(Replay(front + [a]))
  {
    hide GoodSlots, TagOk, Apply;
    ReplaySnoc(front, a);
    GoodStep(Replay(front), HasSplice(front), a);
  }

  /** A name replayed is a name collected. */
  lemma {:induction false} SlotIsCollected(log: seq<Attr>, g: nat)
    requires Orderly(log) && Slot(Replay(log), g).Some?
    ensures Find(Collect(log), g, NAMES).Some?
  {
    OrderlyIsWellFormed(log);
    CollectMeansReplay(log, g, NAMES);
    SlotsAreGood(log);
  }

  /** The next attribute keeps names in the lead. */
  lemma {:induction false} LedTag(s: seq<Attr>, a: Attr)
    requires Tidy(s) && Led(s) && WellFormedTag(a.tag)
    requires IsName(a.tag) ==> GoodName(a) && Find(s, a.tag.id, NAMES) == None
    requires !IsName(a.tag) && a.tag.typ < TYPE_SPLICE ==> Find(s, a.tag.id, NAMES).Some?
    ensures Led(Sweep(s, a.tag) + Added(a))
  {
    SweepStaysLed(s, a.tag);
    if a.tag.typ < TYPE_SPLICE {
      if IsName(a.tag) {
        SweepFindsNothingNew(s, a.tag, a.tag.id, NAMES);
      } else {
        SweepKeepsAnswers(s, a.tag, a.tag.id, NAMES);
        LedNamesArePresent(s, a.tag.id);
      }
      LedSnoc(Sweep(s, a.tag), a);
    } else {
      assert Sweep(s, a.tag) + [] == Sweep(s, a.tag);
    }
  }

  lemma {:induction false} LedStep(front: seq<Attr>, a: Attr)
    requires Orderly(front + [a]) && Led(Collect(front))
    ensures Led(Sweep(Collect(front), a.tag) + Added(a))
  {
    NextTag(front, a);
    OrderlySnoc(front, a);
    OrderlyIsWellFormed(front);
    CollectIsTidy(front);
    SlotIsFound(front, a.tag.id);
    if !IsName(a.tag) && a.tag.typ < TYPE_SPLICE { SlotIsCollected(front, a.tag.id); }
    LedTag(Collect(front), a);
  }

  lemma {:induction false} CollectIsLed(log: seq<Attr>)
    requires Orderly(log)
    ensures Led(Collect(log))
  {
    if log != [] {
      var front, a := log[..|log| - 1], log[|log| - 1];
      assert log == front + [a];
      hide Orderly, Led, Collect;
      OrderlySnoc(front, a);
      CollectIsLed(front);
      LedStep(front, a);
      CollectSnoc(front, a);
    }
  }

  /** The names in a collection are the directory's. */
  ghost predicate NamesOf(s: seq<Attr>, dir: Directory) {
    forall g: nat {:trigger Find(s, g, NAMES)} :: Find(s, g, NAMES).Some? ==> Find(s, g, NAMES) == Slot(dir, g)
  }

  lemma {:induction false} NamesOfFront(s: seq<Attr>, dir: Directory)
    requires s != [] && Led(s) && NamesOf(s, dir)
    ensures NamesOf(s[..|s| - 1], dir)
  {
    forall g: nat
      ensures Find(s[..|s| - 1], g, NAMES).Some? ==> Find(s[..|s| - 1], g, NAMES) == Slot(dir, g)
    {
      assert Find(s[..|s| - 1], g, NAMES).Some? ==> Find(s, g, NAMES) == Find(s[..|s| - 1], g, NAMES);
    }
  }

  lemma {:induction false} PlainLatest(s: seq<Attr>, g: nat, q: Query)
    requires Plain(s)
    ensures Latest(At(Replay(s), g), q) == Find(s, g, q)
    ensures !HasSplice(s)
  {
    if s != [] {
      var front, x := s[..|s| - 1], s[|s| - 1];
      PlainLatest(front, g, q);
      ApplyAt(Replay(front), x, g);
      LatestOfLonger(At(Replay(front), g), ValueOf(x), q);
    }
  }

  /** A collection with names in the lead, cut to a range, reads as an orderly log. */
  lemma {:induction false} RangeIsOrderly(s: seq<Attr>, dir: Directory, begin: nat, end: nat)
    requires Tidy(s) && Led(s) && NamesOf(s, dir) && Sorted(dir) && begin <= end && end - begin <= NO_ID
    ensures Orderly(Range(s, begin, end))
    ensures |Replay(Range(s, begin, end))| <= end - begin
  {
    hide Orderly, Replay, Range, NamesOf, Led, Tidy, Sorted;
    if s == [] {
      EmptyRange(begin, end);
    } else {
      var front, x := s[..|s| - 1], s[|s| - 1];
      FrontIsTidy(s);
      NamesOfFront(s, dir);
      RangeIsOrderly(front, dir, begin, end);
      assert s == front + [x];
      RangeStep(front, x, dir, begin, end);
    }
  }

  lemma EmptyRange(begin: nat, end: nat)
    ensures Orderly(Range([], begin, end)) && Replay(Range([], begin, end)) == []
  {
  }

  lemma FrontIsTidy(s: seq<Attr>)
    requires s != [] && Tidy(s) && Led(s)
    ensures Tidy(s[..|s| - 1]) && Led(s[..|s| - 1]) && s[|s| - 1].tag.typ < TYPE_SPLICE
  {
  }

  lemma {:induction false} RangeStep(front: seq<Attr>, x: Attr, dir: Directory, begin: nat, end: nat)
    requires Tidy(front) && Led(front + [x]) && NamesOf(front + [x], dir) && Sorted(dir) && x.tag.typ < TYPE_SPLICE
    requires begin <= end && end - begin <= NO_ID
    requires Orderly(Range(front, begin, end)) && |Replay(Range(front, begin, end))| <= end - begin
    ensures Orderly(Range(front + [x], begin, end)) && |Replay(Range(front + [x], begin, end))| <= end - begin
  {
    var r := Range(front, begin, end);
    RangeSnoc(front, x, begin, end);
    if begin <= x.tag.id < end {
      RangeSlots(front, dir, begin, end);
      NextInRange(front, x, r, InRange(x, begin, end)[0], dir, begin, end);
    } else {
      assert r + [] == r;
    }
  }

  /** The names read from a range of a collection. */
  ghost predicate SlotsFrom(r: seq<Attr>, s: seq<Attr>, begin: nat, end: nat) {
    forall g: nat {:trigger Slot(Replay(r), g)} ::
      Slot(Replay(r), g) == if begin + g < end then Find(s, begin + g, NAMES) else None
  }

  lemma {:induction false} RangeSlots(s: seq<Attr>, dir: Directory, begin: nat, end: nat)
    requires Tidy(s)
    ensures SlotsFrom(Range(s, begin, end), s, begin, end) && !HasSplice(Range(s, begin, end))
  {
    TidyIsPlain(s);
    RangeIsPlain(s, begin, end);
    var r := Range(s, begin, end);
    PlainLatest(r, 0, NAMES);
    forall g: nat
      ensures Slot(Replay(r), g) == if begin + g < end then Find(s, begin + g, NAMES) else None
    {
      PlainLatest(r, g, NAMES);
      RangeFind(s, begin, end, g, NAMES);
    }
  }

  lemma {:induction false} NextInRange(front: seq<Attr>, x: Attr, r: seq<Attr>, y: Attr, dir: Directory,
          begin: nat, end: nat)
    requires Orderly(r) && |Replay(r)| <= end - begin <= NO_ID && !HasSplice(r) && SlotsFrom(r, front, begin, end)
    requires Led(front + [x]) && NamesOf(front + [x], dir) && Sorted(dir)
    requires x.tag.typ < TYPE_SPLICE && begin <= x.tag.id < end
    requires y == Attr(Tag(x.tag.typ, x.tag.id - begin, x.tag.size), x.data)
    ensures Orderly(r + [y]) && |Replay(r + [y])| <= end - begin
  {
    LedSnoc(front, x);
    var d := Replay(r);
    NameMayFollow(front, x, d, y, begin, end);
    PartOfNames(front, x, d, y, dir, begin, end);
    OrderlySnoc(r, y);
    ReplaySnoc(r, y);
  }

  lemma {:induction false} NameMayFollow(front: seq<Attr>, x: Attr, d: Directory, y: Attr, begin: nat, end: nat)
    requires forall j: nat {:trigger Slot(d, j)} :: Slot(d, j) == if begin + j < end then Find(front, begin + j, NAMES) else None
    requires IsName(x.tag) ==> GoodName(x) && Find(front, x.tag.id, NAMES) == None
    requires !IsName(x.tag) ==> Find(front, x.tag.id, NAMES).Some?
    requires x.tag.typ < TYPE_SPLICE && begin <= x.tag.id < end && |d| <= end - begin <= NO_ID
    requires y == Attr(Tag(x.tag.typ, x.tag.id - begin, x.tag.size), x.data)
    ensures TagOk(d, false, y) && |Apply(d, y)| <= end - begin
  {
    assert Slot(d, y.tag.id) == Find(front, x.tag.id, NAMES);
    SetSlots(d, y);
  }

  /** The range's directory with one more attribute is still part of the whole. */
  lemma {:induction false} PartOfNames(front: seq<Attr>, x: Attr, d: Directory, y: Attr, dir: Directory,
          begin: nat, end: nat)
    requires forall j: nat {:trigger Slot(d, j)} :: Slot(d, j) == if begin + j < end then Find(front, begin + j, NAMES) else None
    requires NamesOf(front + [x], dir) && Sorted(dir) && x.tag.typ < TYPE_SPLICE && begin <= x.tag.id < end
    requires IsName(x.tag) ==> Find(front, x.tag.id, NAMES) == None
    requires !IsName(x.tag) ==> Find(front, x.tag.id, NAMES).Some?
    requires y == Attr(Tag(x.tag.typ, x.tag.id - begin, x.tag.size), x.data)
    ensures Sorted(Apply(d, y))
  {
    var d', g := Apply(d, y), y.tag.id;
    assert Slot(d, g) == Find(front, x.tag.id, NAMES);
    SetSlots(d, y);
    forall j: nat
      ensures Slot(d', j).Some? ==> Slot(d', j) == Slot(dir, begin + j)
    {
      assert Slot(d', j) == if IsName(y.tag) && j == g then Some(ValueOf(y)) else Slot(d, j);
      FindSnoc(front, x, begin + j, NAMES);
      assert Find(front + [x], begin + j, NAMES).Some? ==> Find(front + [x], begin + j, NAMES) == Slot(dir, begin + j);
      assert Slot(d, j) == if begin + j < end then Find(front, begin + j, NAMES) else None;
    }
    SortedPart(d', dir, begin);
  }

  lemma {:induction false} SortedPart(d: Directory, dir: Directory, begin: nat)
    requires Sorted(dir) && forall j: nat {:trigger Slot(d, j)} :: Slot(d, j).Some? ==> Slot(d, j) == Slot(dir, begin + j)
    ensures Sorted(d)
  {
    forall j, k | 0 <= j < k && Slot(d, j).Some? && Slot(d, k).Some?
      ensures Before(Slot(d, j).value, Slot(d, k).value)
    {
      assert Slot(d, j) == Slot(dir, begin + j) && Slot(d, k) == Slot(dir, begin + k);
    }
  }

  /** Compaction of an orderly log gives an orderly log with the same names, so the search stays exact. */
  lemma CompactionKeepsOrder(log: seq<Attr>, begin: nat, end: nat)
    requires Orderly(log) && AllNamed(Replay(log)) && begin <= end <= |Replay(log)|
    ensures var log' := Compacted(log, begin, end);
      && Orderly(log') && AllNamed(Replay(log')) && |Replay(log')| == end - begin
      && forall g | 0 <= g < end - begin :: Slot(Replay(log'), g) == Slot(Replay(log), begin + g)
  {
    OrderlyIsWellFormed(log);
    OrderlyIsSorted(log);
    OrderlyIsSmall(log);
    CollectIsTidy(log);
    CollectIsLed(log);
    var s, dir := Collect(log), Replay(log);
    forall g: nat
      ensures Find(s, g, NAMES).Some? ==> Find(s, g, NAMES) == Slot(dir, g)
    {
      SlotIsFound(log, g);
    }
    RangeIsOrderly(s, dir, begin, end);
    RangeSlots(s, dir, begin, end);
    SlotsAreGood(log);
    forall g: nat
      ensures Slot(dir, g).Some? ==> Find(s, g, NAMES) == Slot(dir, g)
    {
      if Slot(dir, g).Some? { SlotIsKept(log, g); }
    }
    CompactedNames(dir, s, Replay(Compacted(log, begin, end)), begin, end);
  }

  lemma SlotIsKept(log: seq<Attr>, g: nat)
    requires WellFormed(log) && Led(Collect(log)) && GoodSlots(Replay(log)) && Slot(Replay(log), g).Some?
    ensures Find(Collect(log), g, NAMES) == Slot(Replay(log), g)
  {
    CollectMeansReplay(log, g, NAMES);
    SlotIsFound(log, g);
  }

  lemma CompactedNames(dir: Directory, s: seq<Attr>, dir': Directory, begin: nat, end: nat)
    requires AllNamed(dir) && begin <= end <= |dir| && |dir'| <= end - begin
    requires forall g: nat {:trigger Slot(dir, g)} :: Slot(dir, g).Some? ==> Find(s, g, NAMES) == Slot(dir, g)
    requires forall g: nat {:trigger Slot(dir', g)} ::
               Slot(dir', g) == if begin + g < end then Find(s, begin + g, NAMES) else None
    ensures AllNamed(dir') && |dir'| == end - begin
    ensures forall g | 0 <= g < end - begin :: Slot(dir', g) == Slot(dir, begin + g)
  {
    forall g | 0 <= g < end - begin
      ensures Slot(dir', g).Some? && Slot(dir', g) == Slot(dir, begin + g)
    {
      assert Slot(dir, begin + g).Some?;
    }
    if begin < end {
      SlotBeyond(dir', end - begin - 1);
    }
  }
}
