/** Exactly when the one-pass name search is right: when the directory was sorted at every point of
    the log, and not merely at its end. */
module NameExactness {
  import opened Words
  import opened Wrappers
  import opened Tags
  import opened MetadataLog
  import opened NameSearch
  import opened NameUpdates

  // ---------------------------------------------------------------- right answers

  /** The fetch answers rightly for the name at the end of the log. */
  ghost predicate Right(log: seq<Attr>, name: seq<Byte>) {
    Answers(Replay(log), name, ResultAfter(log, name))
  }

  /** Every name is answered rightly now and, after a name was written, also once its entry goes again. */
  ghost predicate RightNow(log: seq<Attr>) {
    && (forall name :: Right(log, name))
    && (log != [] && IsName(log[|log| - 1].tag) ==> RightWithout(log, log[|log| - 1].tag.id))
  }

  /** Every name is answered rightly after the entry is deleted. */
  ghost predicate RightWithout(log: seq<Attr>, id: nat) {
    var log' := log + [DeleteTag(id)];
    forall name :: Right(log', name)
  }

  /** Every fetch of the log's history was right. */
  ghost predicate AlwaysRight(log: seq<Attr>) {
    RightNow(log) && (log != [] ==> AlwaysRight(log[..|log| - 1]))
  }

  /** The logs littlefs writes, whatever the order of their names; a name that is not compared (the
      superblock's) comes before all others. */
  ghost predicate Regular(log: seq<Attr>) {
    log == [] ||
    var front, a := log[..|log| - 1], log[|log| - 1];
    && Regular(front) && TagOk(Replay(front), HasSplice(front), a) && |Replay(log)| <= NO_ID
    && (IsName(a.tag) && Hidden(ValueOf(a)) ==> forall j: nat :: Slot(Replay(front), j) == None)
  }

  // ---------------------------------------------------------------- a name out of order is noticed

  /** The names after a visible name was written at an empty place. */
  ghost predicate Named(dir: Directory, dir': Directory, i: nat, v: Value) {
    && Slot(dir, i) == None && !Hidden(v) && i < |dir'|
    && forall j: nat {:trigger Slot(dir', j)} :: Slot(dir', j) == if j == i then Some(v) else Slot(dir, j)
  }

  /** A new name that leaves the directory unsorted clashes with another entry's: that entry stands
      on the wrong side of it. */
  lemma Clash(dir: Directory, dir': Directory, i: nat, v: Value) returns (j: nat)
    requires Named(dir, dir', i, v) && Sorted(dir) && !Sorted(dir')
    ensures j != i && Slot(dir, j).Some? && Judge(Slot(dir, j).value, v.data) != Side(j, i)
  {
    assert Slot(dir', i) == Some(v);
    var a: nat, b: nat :| a < b && Slot(dir', a).Some? && Slot(dir', b).Some?
                          && !Before(Slot(dir', a).value, Slot(dir', b).value);
    j := if a == i then b else a;
    assert Slot(dir', j) == Slot(dir, j);
    CompareReverse(v.data, Slot(dir', b).value.data);
  }

  /** With the new entry deleted again, its position no longer separates the names. */
  lemma ClashRemains(dir: Directory, dir': Directory, gone: Directory, i: nat, v: Value)
    requires Named(dir, dir', i, v) && Sorted(dir) && !Sorted(dir') && Removed(dir', gone, i)
    ensures !CutAt(gone, i, v.data)
  {
    var j := Clash(dir, dir', i, v);
    var k := if j < i then j else j - 1;
    assert Slot(gone, k) == Slot(dir', j) == Slot(dir, j);
    SlotBeyond(gone, k);
    assert !Stands(gone, k, v.data, Side(k, i));
  }

  /** A search for the name just written ends at its tag, and once deleted, at that position. */
  lemma BestOfNew(log: seq<Attr>, a: Attr)
    requires NAME_QUERY.Matches(a.tag.typ) && WellFormedTag(a.tag)
    ensures BestAfter(log + [a], a.data) == Best(true, a.tag)
    ensures BestAfter(log + [a] + [DeleteTag(a.tag.id)], a.data) == Best(false, a.tag)
  {
    CompareReverse(a.data, a.data);
    AfterSnoc(log, a, a.data);
    AfterSnoc(log + [a], DeleteTag(a.tag.id), a.data);
  }

  /** Writing a visible name that leaves the directory unsorted makes the search for that very name
      go wrong as soon as its entry is deleted. */
  lemma OutOfOrderIsWrong(front: seq<Attr>, a: Attr)
    requires Orderly(front) && TagOk(Replay(front), HasSplice(front), a) && IsName(a.tag) && !Hidden(ValueOf(a))
    requires !Sorted(Replay(front + [a]))
    ensures !Right(front + [a] + [DeleteTag(a.tag.id)], a.data)
  {
    var log, i := front + [a], a.tag.id;
    var log' := log + [DeleteTag(i)];
    WithAndWithout(front, a);
    OrderlyIsSorted(front);
    ClashRemains(Replay(front), Replay(log), Replay(log'), i, ValueOf(a));
    BestOfNew(front, a);
    CountsOfNew(front, a);
    NotACut(Replay(log'), a.data, BestAfter(log', a.data));
  }

  /** The names with the new entry, and with it deleted again. */
  lemma {:induction false} WithAndWithout(front: seq<Attr>, a: Attr)
    requires TagOk(Replay(front), HasSplice(front), a) && IsName(a.tag)
    ensures !Hidden(ValueOf(a)) ==> Named(Replay(front), Replay(front + [a]), a.tag.id, ValueOf(a))
    ensures Removed(Replay(front + [a]), Replay(front + [a] + [DeleteTag(a.tag.id)]), a.tag.id)
  {
    ReplaySnoc(front, a);
    SetSlots(Replay(front), a);
    ReplaySnoc(front + [a], DeleteTag(a.tag.id));
    SplicedSlots(Replay(front + [a]), DeleteTag(a.tag.id));
  }

  /** A mere position that separates nothing is no right answer. */
  lemma NotACut(dir: Directory, name: seq<Byte>, best: Best)
    requires best.Best? && !best.valid && best.tag.id <= |dir| && !CutAt(dir, best.tag.id, name)
    ensures !Answers(dir, name, Conclude(best, |dir|))
  {
  }

  /** The entry count keeps up with the new entry and its deletion. */
  lemma {:induction false} CountsOfNew(front: seq<Attr>, a: Attr)
    requires Orderly(front) && TagOk(Replay(front), HasSplice(front), a) && IsName(a.tag)
    ensures var log := front + [a]; CountAfter(log) == |Replay(log)| <= NO_ID
    ensures var log := front + [a] + [DeleteTag(a.tag.id)]; CountAfter(log) == |Replay(log)| == |Replay(front + [a])| - 1
  {
    OrderlyIsAnswered(front, []);
    OrderlyIsSmall(front);
    AfterSnoc(front, a, []);
    ReplaySnoc(front, a);
    SetSlots(Replay(front), a);
    CountDeleted(front + [a], a.tag.id);
  }

  lemma {:induction false} CountDeleted(log: seq<Attr>, i: nat)
    requires CountAfter(log) == |Replay(log)| <= NO_ID && i < |Replay(log)|
    ensures var log' := log + [DeleteTag(i)]; CountAfter(log') == |Replay(log')| == |Replay(log)| - 1
  {
    AfterSnoc(log, DeleteTag(i), []);
    ReplaySnoc(log, DeleteTag(i));
    SplicedSlots(Replay(log), DeleteTag(i));
    SplicedCount(CountAfter(log), DeleteTag(i).tag);
  }

  // ---------------------------------------------------------------- order is enough

  /** Deleting an entry of a sorted directory leaves a right answer, named or not. */
  lemma DeletedIsAnswered(dir: Directory, gone: Directory, spliced: bool, best: Best, i: nat, name: seq<Byte>)
    requires Sorted(dir) && Removed(dir, gone, i) && Invariant(dir, spliced, best, name) && |dir| <= NO_ID
    ensures Answers(gone, name, Conclude(NextBest(best, DeleteTag(i), name), |gone|))
  {
    DeletedAtTheEnd(dir, gone, spliced, best, i, name);
    FinalAnswer(gone, NextBest(best, DeleteTag(i), name), name);
  }

  lemma DeletedAtTheEnd(dir: Directory, gone: Directory, spliced: bool, best: Best, i: nat, name: seq<Byte>)
    requires Sorted(dir) && Removed(dir, gone, i) && Invariant(dir, spliced, best, name)
    ensures AtTheEnd(gone, NextBest(best, DeleteTag(i), name), name)
  {
    if best == Nothing {
      RemovedCut(dir, gone, name, |dir|, i);
    } else {
      var id := best.tag.id;
      SlotBeyond(dir, id);
      if best.valid {
        HasNameCuts(dir, id, name);
        assert i != id ==> Slot(gone, if i < id then id - 1 else id) == Slot(dir, id);
      }
      if !best.valid || i == id {
        RemovedCut(dir, gone, name, id, i);
      }
    }
  }

  lemma OrderlyIsRight(front: seq<Attr>, a: Attr)
    requires Orderly(front + [a])
    ensures RightNow(front + [a])
  {
    var log := front + [a];
    OrderlySnoc(front, a);
    forall name
      ensures Right(log, name)
    {
      OrderlyIsAnswered(log, name);
    }
    if IsName(a.tag) {
      OrderlyIsRightWithout(front, a);
    }
  }

  lemma OrderlyIsRightWithout(front: seq<Attr>, a: Attr)
    requires Orderly(front + [a]) && TagOk(Replay(front), HasSplice(front), a) && IsName(a.tag)
    ensures RightWithout(front + [a], a.tag.id)
  {
    var log, i := front + [a], a.tag.id;
    var log' := log + [DeleteTag(i)];
    OrderlySnoc(front, a);
    OrderlyIsSorted(log);
    OrderlyIsSmall(log);
    WithAndWithout(front, a);
    CountsOfNew(front, a);
    forall name
      ensures Right(log', name)
    {
      SearchInvariant(log, name);
      AfterSnoc(log, DeleteTag(i), name);
      DeletedIsAnswered(Replay(log), Replay(log'), HasSplice(log), BestAfter(log, name), i, name);
    }
  }

  /** A tag that writes no name keeps a sorted directory sorted. */
  lemma OnlyNamesUnsort(dir: Directory, spliced: bool, a: Attr)
    requires Sorted(dir) && TagOk(dir, spliced, a) && !IsName(a.tag)
    ensures Sorted(Apply(dir, a))
  {
    if a.tag.typ == TYPE_CREATE {
      SplicedSlots(dir, a);
      SortedInsert(dir, Apply(dir, a), a.tag.id);
    } else if a.tag.typ == TYPE_DELETE {
      SplicedSlots(dir, a);
      SortedRemove(dir, Apply(dir, a), a.tag.id);
    } else {
      SetSlots(dir, a);
    }
  }

  /** One more tag: the directory stays sorted if and only if no name is answered wrongly, neither
      now nor once the entry just named is deleted. */
  lemma SortedIffRight(front: seq<Attr>, a: Attr)
    requires Orderly(front) && TagOk(Replay(front), HasSplice(front), a) && |Replay(front + [a])| <= NO_ID
    requires IsName(a.tag) && Hidden(ValueOf(a)) ==> forall j: nat :: Slot(Replay(front), j) == None
    ensures Sorted(Replay(front + [a])) <==> RightNow(front + [a])
  {
    var log := front + [a];
    OrderlySnoc(front, a);
    ReplaySnoc(front, a);
    OrderlyIsSorted(front);
    if Sorted(Replay(log)) {
      OrderlyIsRight(front, a);
    } else if !IsName(a.tag) {
      OnlyNamesUnsort(Replay(front), HasSplice(front), a);
    } else if Hidden(ValueOf(a)) {
      SetSlots(Replay(front), a);
    } else {
      OutOfOrderIsWrong(front, a);
    }
  }

  /** The fetch is right on a log and at every point of its history if and only if the directory was
      sorted all along. */
  lemma {:induction false} SearchIsExact(log: seq<Attr>)
    requires Regular(log)
    ensures AlwaysRight(log) <==> Orderly(log)
  {
    if log == [] {
      forall name
        ensures Right(log, name)
      {
        OrderlyIsAnswered(log, name);
      }
    } else {
      var front, a := log[..|log| - 1], log[|log| - 1];
      assert log == front + [a];
      SearchIsExact(front);
      OrderlySnoc(front, a);
      ReplaySnoc(front, a);
      if Orderly(front) {
        SortedIffRight(front, a);
      }
    }
  }

  // ---------------------------------------------------------------- two small logs

  /** The directory, the best tag and the count one tag further on. */
  lemma {:induction false} OneTagOn(log: seq<Attr>, k: nat, name: seq<Byte>)
    requires k < |log|
    ensures Replay(log[..k + 1]) == Apply(Replay(log[..k]), log[k])
    ensures BestAfter(log[..k + 1], name) == NextBest(BestAfter(log[..k], name), log[k], name)
    ensures CountAfter(log[..k + 1]) == NextCount(CountAfter(log[..k]), log[k].tag)
  {
    assert log[..k + 1] == log[..k] + [log[k]];
    ReplaySnoc(log[..k], log[k]);
    AfterSnoc(log[..k], log[k], name);
  }

  lemma CreateLast(dir: Directory)
    ensures Apply(dir, CreateTag(|dir|)) == dir + [[]]
  {
  }

  lemma CreateFirst(dir: Directory)
    ensures Apply(dir, CreateTag(0)) == [[]] + dir
  {
  }

  lemma DeleteFirst(e: Entry, rest: Directory)
    ensures Apply([e] + rest, DeleteTag(0)) == rest
  {
  }

  lemma NameFirst(rest: Directory, name: seq<Byte>)
    ensures Apply([[]] + rest, NameTag(1, 0, name)) == [[Value(1, |name|, name)]] + rest
  {
    var v := Value(1, |name|, name);
    assert [] + [v] == [v];
  }

  lemma NameLast(dir: Directory, name: seq<Byte>)
    ensures Apply(dir + [[]], NameTag(1, |dir|, name)) == dir + [[Value(1, |name|, name)]]
  {
    var v := Value(1, |name|, name);
    assert [] + [v] == [v];
  }

  /** A directory of one or two entries that are nothing but names. */
  ghost predicate NamesOnly(dir: Directory, v: Value, w: Value) {
    v.typ < 0x80 && w.typ < 0x80 && (dir == [[v], [w]] || dir == [[v]])
  }

  lemma SlotsOf(dir: Directory, v: Value, w: Value)
    requires NamesOnly(dir, v, w)
    ensures forall i: nat {:trigger Slot(dir, i)} ::
              Slot(dir, i) == if i == 0 then Some(v) else if i == 1 && |dir| == 2 then Some(w) else None
  {
    SlotOfOne(v);
    SlotOfOne(w);
  }

  lemma SlotOfOne(v: Value)
    requires v.typ < 0x100
    ensures NameOf([v]) == Some(v)
  {
  }

  // ---------------------------------------------------------------- sorted only at its end

  const B: seq<Byte> := [98]
  const Z: seq<Byte> := [122]

  /** A log in which "z" comes and goes in front of "b". */
  const DETOUR: seq<Attr> := [CreateTag(0), NameTag(1, 0, B), CreateTag(0), NameTag(1, 0, Z), DeleteTag(0)]

  const NAME_B := Value(1, 1, B)
  const NAME_Z := Value(1, 1, Z)

  lemma {:induction false} DetourBegins()
    ensures Replay(DETOUR[..2]) == [[NAME_B]]
  {
    OneTagOn(DETOUR, 0, B);
    CreateFirst([]);
    OneTagOn(DETOUR, 1, B);
    NameFirst([], B);
    assert DETOUR[..0] == [] && [[NAME_B]] + [] == [[NAME_B]];
  }

  lemma {:induction false} DetourGoesOn()
    ensures Replay(DETOUR[..4]) == [[NAME_Z], [NAME_B]] && Replay(DETOUR) == [[NAME_B]]
  {
    hide Replay;
    DetourBegins();
    OneTagOn(DETOUR, 2, B);
    CreateFirst([[NAME_B]]);
    OneTagOn(DETOUR, 3, B);
    NameFirst([[NAME_B]], Z);
    OneTagOn(DETOUR, 4, B);
    DeleteFirst([NAME_Z], [[NAME_B]]);
    assert DETOUR[..5] == DETOUR;
  }

  lemma {:induction false} DetourCount()
    ensures CountAfter(DETOUR) == 1
  {
    SplicedCount(0, DETOUR[0].tag);
    SplicedCount(1, DETOUR[2].tag);
    SplicedCount(2, DETOUR[4].tag);
    OneTagOn(DETOUR, 0, B); OneTagOn(DETOUR, 1, B); OneTagOn(DETOUR, 2, B); OneTagOn(DETOUR, 3, B); OneTagOn(DETOUR, 4, B);
    assert DETOUR[..5] == DETOUR;
  }

  lemma {:induction false} DetourBest()
    ensures BestAfter(DETOUR, B) == Best(false, Tag(1, 0, 1))
  {
    assert Compare(Z, B) == Gt && Compare(B, B) == Eq;
    var t := Tag(1, 0, 1);
    assert NextBest(Nothing, CreateTag(0), B) == Nothing;
    assert NextBest(Nothing, NameTag(1, 0, B), B) == Best(true, t);
    assert NextBest(Best(true, t), CreateTag(0), B) == Best(true, Tag(1, 1, 1));
    assert NextBest(Best(true, Tag(1, 1, 1)), NameTag(1, 0, Z), B) == Best(false, t);
    assert NextBest(Best(false, t), DeleteTag(0), B) == Best(false, t);
    OneTagOn(DETOUR, 0, B); OneTagOn(DETOUR, 1, B); OneTagOn(DETOUR, 2, B); OneTagOn(DETOUR, 3, B); OneTagOn(DETOUR, 4, B);
    assert DETOUR[..5] == DETOUR;
  }

  /** It is not enough that the directory is sorted at the end of the log: here it holds just "b",
      and the fetch for "b" reports it missing. */
  lemma {:induction false} SortedAtTheEndIsNotEnough()
    ensures Sorted(Replay(DETOUR)) && HasName(Replay(DETOUR), 0, B) && !Sorted(Replay(DETOUR[..4]))
    ensures ResultAfter(DETOUR, B) == Miss(0) && !Right(DETOUR, B) && !Orderly(DETOUR)
  {
    DetourGoesOn();
    DetourCount();
    DetourBest();
    SlotsOf(Replay(DETOUR[..4]), NAME_Z, NAME_B);
    SlotsOf(Replay(DETOUR), NAME_B, NAME_B);
    assert Compare(Z, B) == Gt && Compare(B, B) == Eq;
    assert Slot(Replay(DETOUR[..4]), 0) == Some(NAME_Z) && Slot(Replay(DETOUR[..4]), 1) == Some(NAME_B);
    assert !Before(NAME_Z, NAME_B);
    assert HasName(Replay(DETOUR), 0, B);
    if Orderly(DETOUR) {
      OrderlyIsAnswered(DETOUR, B);
    }
  }

  // ---------------------------------------------------------------- unsorted, yet right for now

  const SHORT: seq<Byte> := [5]
  const LONG: seq<Byte> := [5, 255]

  /** A log that puts a name behind the only one that directly follows it. */
  const NEIGHBOURS: seq<Attr> := [CreateTag(0), NameTag(1, 0, SHORT), CreateTag(1), NameTag(1, 1, LONG)]

  const NAME_SHORT := Value(1, 1, SHORT)
  const NAME_LONG := Value(1, 2, LONG)

  lemma {:induction false} NeighboursDirectory()
    ensures Replay(NEIGHBOURS) == [[NAME_SHORT], [NAME_LONG]]
  {
    OneTagOn(NEIGHBOURS, 0, SHORT);
    CreateFirst([]);
    OneTagOn(NEIGHBOURS, 1, SHORT);
    NameFirst([], SHORT);
    OneTagOn(NEIGHBOURS, 2, SHORT);
    CreateLast([[NAME_SHORT]]);
    OneTagOn(NEIGHBOURS, 3, SHORT);
    NameLast([[NAME_SHORT]], LONG);
    assert NEIGHBOURS[..0] == [] && [[NAME_SHORT]] + [] == [[NAME_SHORT]];
    assert NEIGHBOURS[..4] == NEIGHBOURS;
  }

  lemma {:induction false} NeighboursCount()
    ensures CountAfter(NEIGHBOURS) == 2
  {
    SplicedCount(0, NEIGHBOURS[0].tag);
    SplicedCount(1, NEIGHBOURS[2].tag);
    OneTagOn(NEIGHBOURS, 0, []); OneTagOn(NEIGHBOURS, 1, []); OneTagOn(NEIGHBOURS, 2, []); OneTagOn(NEIGHBOURS, 3, []);
    assert NEIGHBOURS[..4] == NEIGHBOURS;
  }

  /** No name lies between the two. */
  lemma NothingBetween(name: seq<Byte>)
    ensures Compare(LONG, name) != Gt && Compare(SHORT, name) == Gt ==> Compare(LONG, name) == Eq
    ensures Compare(SHORT, name) != Gt ==> Compare(LONG, name) == Lt
  {
    if name != [] && name[0] == 5 {
      var rest, ff: seq<Byte> := name[1..], [255];
      assert SHORT[1..] == [] && LONG[1..] == ff && ff[1..] == [];
      assert Compare(SHORT, name) == Compare([], rest) && Compare(LONG, name) == Compare(ff, rest);
      if rest != [] && rest[0] == 255 {
        assert Compare(ff, rest) == Compare([], rest[1..]);
      }
    }
  }

  lemma {:induction false} NeighboursBest(name: seq<Byte>)
    ensures BestAfter(NEIGHBOURS, name) ==
            if Compare(LONG, name) == Eq then Best(true, Tag(1, 1, 2))
            else if Compare(SHORT, name) == Eq then Best(true, Tag(1, 0, 1))
            else if Compare(SHORT, name) == Gt then Best(false, Tag(1, 0, 1))
            else Nothing
  {
    NothingBetween(name);
    NeighboursBegin(name);
    OneTagOn(NEIGHBOURS, 3, name);
    assert NEIGHBOURS[..4] == NEIGHBOURS;
  }

  lemma {:induction false} NeighboursBegin(name: seq<Byte>)
    ensures BestAfter(NEIGHBOURS[..3], name) ==
            if Compare(SHORT, name) == Eq then Best(true, Tag(1, 0, 1))
            else if Compare(SHORT, name) == Gt then Best(false, Tag(1, 0, 1))
            else Nothing
  {
    OneTagOn(NEIGHBOURS, 0, name);
    OneTagOn(NEIGHBOURS, 1, name);
    assert NEIGHBOURS[..0] == [] && BestAfter(NEIGHBOURS[..1], name) == Nothing;
    OneTagOn(NEIGHBOURS, 2, name);
    assert BestAfter(NEIGHBOURS[..3], name) == BestAfter(NEIGHBOURS[..2], name);
  }

  /** Without the fetches after a deletion, order is not necessary: this directory is out of order and every name is
      answered rightly, as no name lies between the two that are. */
  lemma {:induction false} UnsortedMayBeRight()
    ensures !Sorted(Replay(NEIGHBOURS)) && forall name :: Right(NEIGHBOURS, name)
  {
    var dir := Replay(NEIGHBOURS);
    NeighboursDirectory();
    NeighboursCount();
    SlotsOf(dir, NAME_SHORT, NAME_LONG);
    assert Slot(dir, 0) == Some(NAME_SHORT) && Slot(dir, 1) == Some(NAME_LONG);
    NothingBetween(LONG);
    CompareReverse(LONG, LONG);
    CompareReverse(SHORT, LONG);
    assert !Before(NAME_SHORT, NAME_LONG);
    forall name ensures Right(NEIGHBOURS, name) {
      NeighboursBest(name);
      NothingBetween(name);
      FinalAnswer(dir, BestAfter(NEIGHBOURS, name), name);
    }
  }
}
