/** The one-pass name search of lfs_dir_fetchmatch with lfs_dir_find_match: while reading a metadata
    log forwards it finds the entry with a name, or where a new entry with that name belongs. */
module NameSearch {
  import opened Bits
  import opened Words
  import opened Wrappers
  import opened Tags
  import opened MetadataLog

  // ---------------------------------------------------------------- the order of names

  datatype Order = Lt | Eq | Gt

  /** The order of lfs_dir_find_match: bytewise, but a name sorts before its own proper prefixes. */
  function Compare(disk: seq<Byte>, name: seq<Byte>): Order {
    if disk == [] && name == [] then Eq
    else if name == [] then Lt
    else if disk == [] then Gt
    else if disk[0] != name[0] then (if disk[0] < name[0] then Lt else Gt)
    else Compare(disk[1..], name[1..])
  }

  /** lfs_dir_find_match: the common part first, then the sizes. */
  method FindMatch(disk: seq<Byte>, name: seq<Byte>) returns (r: Order)
    ensures r == Compare(disk, name)
  {
    var diff := Min(|name|, |disk|);
    assert disk[0..] == disk && name[0..] == name;
    var i := 0;
    while i < diff
      invariant 0 <= i <= diff
      invariant Compare(disk, name) == Compare(disk[i..], name[i..])
    {
      if disk[i] != name[i] {
        return if disk[i] < name[i] then Lt else Gt;
      }
      assert disk[i..][1..] == disk[i + 1..] && name[i..][1..] == name[i + 1..];
      i := i + 1;
    }
    // one is a prefix of the other
    if |name| != |disk| {
      return if |name| < |disk| then Lt else Gt;
    }
    r := Eq;
  }

  lemma {:induction false} CompareChain(a: seq<Byte>, b: seq<Byte>, c: seq<Byte>)
    requires Compare(a, b) == Lt
    ensures Compare(b, c) != Gt ==> Compare(a, c) == Lt
    ensures Compare(a, c) != Lt ==> Compare(b, c) == Gt
  {
    if a != [] && b != [] && c != [] && a[0] == b[0] {
      CompareChain(a[1..], b[1..], c[1..]);
    }
  }

  lemma {:induction false} CompareReverse(a: seq<Byte>, b: seq<Byte>)
    ensures Compare(a, b) == Gt <==> Compare(b, a) == Lt
    ensures Compare(a, b) == Eq <==> a == b
  {
    if a != [] && b != [] && a[0] == b[0] {
      CompareReverse(a[1..], b[1..]);
      assert a == [a[0]] + a[1..] && b == [b[0]] + b[1..];
    }
  }

  /** The two agree on their first i bytes, and there the other has ended or has the greater byte. */
  predicate FallsBehind(a: seq<Byte>, b: seq<Byte>, i: nat) {
    i < |a| && i <= |b| && a[..i] == b[..i] && (i == |b| || a[i] < b[i])
  }

  /** What the order comes to: the first difference decides, and a name comes before its own proper prefixes. */
  lemma {:induction false} CompareMeans(a: seq<Byte>, b: seq<Byte>)
    ensures Compare(a, b) == Lt <==> exists i: nat :: FallsBehind(a, b, i)
    ensures Compare(a, b) == Gt <==> exists i: nat :: FallsBehind(b, a, i)
    ensures Compare(a, b) == Eq <==> a == b
  {
    BehindMeans(a, b);
    BehindMeans(b, a);
    CompareReverse(a, b);
    CompareReverse(b, a);
  }

  lemma {:induction false} BehindMeans(a: seq<Byte>, b: seq<Byte>)
    ensures Compare(a, b) == Lt <==> exists i: nat :: FallsBehind(a, b, i)
  {
    if a != [] && b != [] && a[0] == b[0] {
      BehindMeans(a[1..], b[1..]);
      if i: nat :| FallsBehind(a[1..], b[1..], i) {
        assert a[..i + 1] == [a[0]] + a[1..][..i] && b[..i + 1] == [b[0]] + b[1..][..i];
        assert FallsBehind(a, b, i + 1);
      }
      if i: nat :| FallsBehind(a, b, i) {
        assert i > 0;
        assert a[1..][..i - 1] == a[..i][1..] && b[1..][..i - 1] == b[..i][1..];
        assert FallsBehind(a[1..], b[1..], i - 1);
      }
    } else if a != [] && (b == [] || a[0] < b[0]) {
      assert FallsBehind(a, b, 0);
    }
  }

  // ---------------------------------------------------------------- directories with names

  const NAMES := Family(TYPE_NAME)

  function NameOf(e: Entry): Option<Value> {
    Latest(e, NAMES)
  }

  /** Names of types from 0x080 on (the superblock's) are not compared; they stay in front. */
  predicate Hidden(v: Value) {
    v.typ >= 0x80
  }

  /** How an entry's name stands to the name looked for. */
  function Judge(v: Value, name: seq<Byte>): Order {
    if Hidden(v) then Lt else Compare(v.data, name)
  }

  predicate Before(v: Value, w: Value) {
    !Hidden(w) && (Hidden(v) || Compare(v.data, w.data) == Lt)
  }

  lemma BeforeAndJudge(v: Value, w: Value, name: seq<Byte>)
    requires Before(v, w)
    ensures Judge(v, name) != Lt ==> Judge(w, name) == Gt
    ensures Judge(w, name) != Gt ==> Judge(v, name) == Lt
  {
    if !Hidden(v) {
      CompareChain(v.data, w.data, name);
    }
  }

  /** The name of entry i, if it has one. */
  function Slot(dir: Directory, i: nat): Option<Value> {
    NameOf(At(dir, i))
  }

  ghost predicate AllNamed(dir: Directory) {
    forall i | 0 <= i < |dir| :: Slot(dir, i).Some?
  }

  ghost predicate Sorted(dir: Directory) {
    forall i, j | 0 <= i < j && Slot(dir, i).Some? && Slot(dir, j).Some? ::
      Before(Slot(dir, i).value, Slot(dir, j).value)
  }

  /** Entry i has the name. */
  ghost predicate HasName(dir: Directory, i: nat, name: seq<Byte>) {
    Slot(dir, i).Some? && Judge(Slot(dir, i).value, name) == Eq
  }

  ghost predicate Stands(dir: Directory, i: nat, name: seq<Byte>, o: Order) {
    Slot(dir, i).Some? ==> Judge(Slot(dir, i).value, name) == o
  }

  /** Position i separates the smaller names from the greater ones: the place to insert the name. */
  ghost predicate CutAt(dir: Directory, i: nat, name: seq<Byte>) {
    i <= |dir| && forall j | 0 <= j < |dir| :: Stands(dir, j, name, Side(j, i))
  }

  function Side(j: nat, cut: nat): Order {
    if j < cut then Lt else Gt
  }

  predicate IsName(t: Tag) {
    t.typ < TYPE_NAME + 0x100
  }

  predicate HasSplice(log: seq<Attr>) {
    log != [] && (log[|log| - 1].tag.IsSplice() || HasSplice(log[..|log| - 1]))
  }

  /** The tags littlefs appends to a log: names are written once, in any order as long as nothing was
      spliced (a freshly compacted log), and then only right after the create of their entry. */
  ghost predicate TagOk(dir: Directory, spliced: bool, a: Attr) {
    var i := a.tag.id;
    && WellFormedTag(a.tag)
    && (a.tag.typ == TYPE_CREATE ==> i <= |dir| && AllNamed(dir))
    && (a.tag.typ == TYPE_DELETE ==> i < |dir| && AllNamed(dir))
    && (IsName(a.tag) ==>
          && i < NO_ID && a.tag.size == |a.data| && !a.tag.IsDelete()
          && Slot(dir, i) == None && (i < |dir| || !spliced))
    && (!IsName(a.tag) && a.tag.typ < TYPE_SPLICE ==> Slot(dir, i).Some?)
  }

  /** Logs whose directory is sorted at every point of their history. */
  ghost predicate Orderly(log: seq<Attr>) {
    log == [] ||
    var front, a := log[..|log| - 1], log[|log| - 1];
    Orderly(front) && TagOk(Replay(front), HasSplice(front), a) && Sorted(Replay(log)) && |Replay(log)| <= NO_ID
  }

  // ---------------------------------------------------------------- the search

  /** lfs_dir_fetchmatch's best tag so far: none, a match, or (invalid bit set) a mere position. */
  datatype Best = Nothing | Best(valid: bool, tag: Tag)

  function BestId(b: Best): nat {
    if b == Nothing then NO_ID else b.tag.id
  }

  /** Hit: the entry; Miss: the name belongs before an entry of this pair; Pass: it belongs after all of them. */
  datatype Result = Hit(tag: Tag) | Miss(id: nat) | Pass(id: nat)

  /** What the best tag says about the directory read so far. */
  ghost predicate Invariant(dir: Directory, spliced: bool, best: Best, name: seq<Byte>) {
    match best
    case Nothing => CutAt(dir, |dir|, name)
    case Best(true, t) => HasName(dir, t.id, name)
    case Best(false, t) =>
      && CutAt(dir, t.id, name)
      && (t.id < |dir| ==> Slot(dir, t.id).Some?)
      && (t.id >= |dir| ==> spliced)
  }

  /** How one tag of the log changes the best tag so far. */
  method UpdateBest(best: Best, a: Attr, name: seq<Byte>) returns (r: Best)
    ensures r == NextBest(best, a, name)
  {
    r := best;
    if a.tag.IsSplice() {
      if best.Best? && a.tag == Tag(TYPE_DELETE, best.tag.id, 0) {
        r := Best(false, best.tag);
      } else if best.Best? && a.tag.id <= best.tag.id {
        var id := best.tag.id + Splice(a.tag.typ);
        r := Best(best.valid, Tag(best.tag.typ, if id < 0 then 0 else id, best.tag.size));
      }
    }
    // a name of the kind looked for
    if NAME_QUERY.Matches(a.tag.typ) {
      var res := FindMatch(a.data, name);
      if res == Eq {
        // the name itself
        r := Best(true, a.tag);
      } else if r.Best? && a.tag.typ == r.tag.typ && a.tag.id == r.tag.id {
        // the best tag so far was written over
        r := Nothing;
      } else if res == Gt && a.tag.id <= BestId(r) {
        // the name would go before this one
        r := Best(false, a.tag);
      }
    }
  }

  function AfterSplice(best: Best, t: Tag): Best {
    if best == Nothing || !t.IsSplice() then best
    else if t == Tag(TYPE_DELETE, best.tag.id, 0) then Best(false, best.tag)
    else if t.id <= best.tag.id then
      var id := best.tag.id + Splice(t.typ);
      Best(best.valid, Tag(best.tag.typ, if id < 0 then 0 else id, best.tag.size))
    else best
  }

  function NextBest(best: Best, a: Attr, name: seq<Byte>): Best {
    var b := AfterSplice(best, a.tag);
    if !NAME_QUERY.Matches(a.tag.typ) then b
    else if Compare(a.data, name) == Eq then Best(true, a.tag)
    else if b.Best? && a.tag.typ == b.tag.typ && a.tag.id == b.tag.id then Nothing
    else if Compare(a.data, name) == Gt && a.tag.id <= BestId(b) then Best(false, a.tag)
    else b
  }

  /** Should the best tag's entry be named anew, by another name, the search forgets it. */
  lemma OverwrittenIsForgotten(best: Best, a: Attr, name: seq<Byte>)
    requires NAME_QUERY.Matches(a.tag.typ) && best.Best? && a.tag.typ == best.tag.typ && a.tag.id == best.tag.id
    requires a.data != name
    ensures NextBest(best, a, name) == Nothing
  {
    CompareReverse(a.data, name);
  }

  // ---------------------------------------------------------------- why it works

  lemma SlotBeyond(dir: Directory, i: nat)
    ensures Slot(dir, i).Some? ==> i < |dir|
  {
  }

  /** In a sorted directory an entry with the name cuts it in two. */
  lemma HasNameCuts(dir: Directory, i: nat, name: seq<Byte>)
    requires Sorted(dir) && HasName(dir, i, name)
    ensures forall j | 0 <= j && j != i :: Stands(dir, j, name, Side(j, i))
  {
    forall j | 0 <= j && j != i
      ensures Stands(dir, j, name, Side(j, i))
    {
      if Slot(dir, j).Some? {
        if j < i {
          BeforeAndJudge(Slot(dir, j).value, Slot(dir, i).value, name);
        } else {
          BeforeAndJudge(Slot(dir, i).value, Slot(dir, j).value, name);
        }
      }
    }
  }

  /** dir' is dir with an entry without a name put in at i. */
  ghost predicate Inserted(dir: Directory, dir': Directory, i: nat) {
    && i <= |dir| && |dir'| == |dir| + 1
    && forall j: nat {:trigger Slot(dir', j)} :: Slot(dir', j) == if j < i then Slot(dir, j) else if j == i then None else Slot(dir, j - 1)
  }

  /** dir' is dir without entry i. */
  ghost predicate Removed(dir: Directory, dir': Directory, i: nat) {
    && i < |dir| && |dir'| == |dir| - 1
    && forall j: nat {:trigger Slot(dir', j)} :: Slot(dir', j) == if j < i then Slot(dir, j) else Slot(dir, j + 1)
  }

  lemma SplicedSlots(dir: Directory, a: Attr)
    requires WellFormedTag(a.tag) && a.tag.IsSplice() && a.tag.id <= |dir|
    requires a.tag.typ == TYPE_DELETE ==> a.tag.id < |dir|
    ensures a.tag.typ == TYPE_CREATE ==> Inserted(dir, Apply(dir, a), a.tag.id)
    ensures a.tag.typ == TYPE_DELETE ==> Removed(dir, Apply(dir, a), a.tag.id)
  {
    if a.tag.typ == TYPE_CREATE {
      forall j: nat
        ensures Slot(Apply(dir, a), j) ==
                if j < a.tag.id then Slot(dir, j) else if j == a.tag.id then None else Slot(dir, j - 1)
      {
        ApplyAt(dir, a, j);
      }
    } else {
      forall j: nat
        ensures Slot(Apply(dir, a), j) == if j < a.tag.id then Slot(dir, j) else Slot(dir, j + 1)
      {
        ApplyAt(dir, a, j);
      }
    }
  }

  lemma InsertedCut(dir: Directory, dir': Directory, name: seq<Byte>, id: nat, i: nat)
    requires Inserted(dir, dir', i) && CutAt(dir, id, name)
    ensures CutAt(dir', if i <= id then id + 1 else id, name)
    ensures i == id ==> CutAt(dir', id, name)
  {
    var id' := if i <= id then id + 1 else id;
    forall j | 0 <= j < |dir'|
      ensures Stands(dir', j, name, Side(j, id'))
      ensures i == id ==> Stands(dir', j, name, Side(j, id))
    {
      assert Slot(dir', j) == if j < i then Slot(dir, j) else if j == i then None else Slot(dir, j - 1);
      if j < i {
        assert Stands(dir, j, name, Side(j, id));
      } else if j > i {
        assert Stands(dir, j - 1, name, Side(j - 1, id));
      }
    }
  }

  lemma RemovedCut(dir: Directory, dir': Directory, name: seq<Byte>, id: nat, i: nat)
    requires Removed(dir, dir', i) && id <= |dir|
    requires forall j | 0 <= j < |dir| && j != i :: Stands(dir, j, name, Side(j, id))
    ensures CutAt(dir', if i < id then id - 1 else id, name)
  {
    var id' := if i < id then id - 1 else id;
    forall j | 0 <= j < |dir'|
      ensures Stands(dir', j, name, Side(j, id'))
    {
      var j' := if j < i then j else j + 1;
      assert Slot(dir', j) == Slot(dir, j');
      assert Stands(dir, j', name, Side(j', id));
    }
  }

  lemma CreateStep(dir: Directory, dir': Directory, spliced: bool, a: Attr, best: Best, name: seq<Byte>)
    requires WellFormedTag(a.tag) && a.tag.typ == TYPE_CREATE && AllNamed(dir) && Inserted(dir, dir', a.tag.id)
    requires Invariant(dir, spliced, best, name)
    ensures Invariant(dir', true, NextBest(best, a, name), name)
  {
    var i := a.tag.id;
    if best == Nothing {
      InsertedCut(dir, dir', name, |dir|, i);
    } else {
      var id := best.tag.id;
      SlotBeyond(dir, id);
      assert Slot(dir', if i <= id then id + 1 else id) == Slot(dir, id);
      if !best.valid {
        InsertedCut(dir, dir', name, id, i);
      }
    }
  }

  lemma DeleteStep(dir: Directory, dir': Directory, spliced: bool, a: Attr, best: Best, name: seq<Byte>)
    requires WellFormedTag(a.tag) && a.tag.typ == TYPE_DELETE && AllNamed(dir) && Removed(dir, dir', a.tag.id)
    requires Invariant(dir, spliced, best, name) && Sorted(dir)
    ensures Invariant(dir', true, NextBest(best, a, name), name)
  {
    var i := a.tag.id;
    if best == Nothing {
      RemovedCut(dir, dir', name, |dir|, i);
    } else {
      var id := best.tag.id;
      var id' := if i < id then id - 1 else id;
      SlotBeyond(dir, id);
      assert Slot(dir', id') == if i == id then Slot(dir, id + 1) else Slot(dir, id);
      if best.valid {
        HasNameCuts(dir, id, name);
      }
      if !best.valid || i == id {
        RemovedCut(dir, dir', name, id, i);
      }
    }
  }

  lemma NameStep(dir: Directory, dir': Directory, spliced: bool, a: Attr, best: Best, name: seq<Byte>)
    requires IsName(a.tag) && a.tag.id < NO_ID && Slot(dir, a.tag.id) == None
    requires a.tag.id < |dir| || !spliced
    requires |dir'| == Max(|dir|, a.tag.id + 1)
    requires forall j: nat {:trigger Slot(dir', j)} :: Slot(dir', j) == if j == a.tag.id then Some(ValueOf(a)) else Slot(dir, j)
    requires Invariant(dir, spliced, best, name) && Sorted(dir')
    ensures Invariant(dir', spliced, NextBest(best, a, name), name)
  {
    var i, v := a.tag.id, ValueOf(a);
    assert Slot(dir', i) == Some(v);
    if Judge(v, name) == Eq {
      assert HasName(dir', i, name);
    } else if best.Best? && best.valid {
      assert Slot(dir', best.tag.id) == Slot(dir, best.tag.id);
      HasNameCuts(dir', best.tag.id, name);
      assert Stands(dir', i, name, Side(i, best.tag.id));
    } else {
      var cut := if best == Nothing then |dir| else best.tag.id;
      NameMovesCut(dir, dir', i, v, name, cut, best == Nothing);
      assert cut != i ==> Slot(dir', cut) == Slot(dir, cut);
    }
  }

  /** A name that comes in either falls on its side of the cut or, being greater, becomes the cut. */
  lemma NameMovesCut(dir: Directory, dir': Directory, i: nat, v: Value, name: seq<Byte>, cut: nat, open: bool)
    requires CutAt(dir, cut, name) && Sorted(dir') && Judge(v, name) != Eq && i < |dir'|
    requires |dir'| == Max(|dir|, i + 1)
    requires forall j: nat {:trigger Slot(dir', j)} :: Slot(dir', j) == if j == i then Some(v) else Slot(dir, j)
    requires Slot(dir, i) == None
    requires if open then cut == |dir| else cut < |dir| ==> Slot(dir, cut).Some?
    requires !open && cut >= |dir| ==> i < |dir|
    ensures Judge(v, name) == Gt && (open || i <= cut) ==> CutAt(dir', i, name)
    ensures Judge(v, name) == Gt && !open && i > cut ==> CutAt(dir', cut, name)
    ensures Judge(v, name) == Lt ==> CutAt(dir', if open then |dir'| else cut, name)
  {
    var gt := Judge(v, name) == Gt;
    var cut' := if gt && (open || i <= cut) then i else if open then |dir'| else cut;
    assert Slot(dir', i) == Some(v);
    forall j | 0 <= j < |dir'|
      ensures Stands(dir', j, name, Side(j, cut'))
    {
      if j < |dir| { assert Stands(dir, j, name, Side(j, cut)); }
      if j != i && Slot(dir, j).Some? {
        SlotBeyond(dir, j);
        if i < j { BeforeAndJudge(v, Slot(dir', j).value, name); } else { BeforeAndJudge(Slot(dir', j).value, v, name); }
      }
      if j == i && !gt && !open && i > cut {
        assert Stands(dir, cut, name, Side(cut, cut));
        BeforeAndJudge(Slot(dir', cut).value, v, name);
      }
    }
  }

  lemma OtherStep(dir: Directory, dir': Directory, spliced: bool, best: Best, name: seq<Byte>)
    requires |dir'| == |dir| && forall j: nat {:trigger Slot(dir', j)} :: Slot(dir', j) == Slot(dir, j)
    requires Invariant(dir, spliced, best, name)
    ensures Invariant(dir', spliced, best, name)
  {
    var cut := if best == Nothing then |dir| else best.tag.id;
    assert Slot(dir', cut) == Slot(dir, cut);
    forall j | 0 <= j < |dir| && CutAt(dir, cut, name)
      ensures Stands(dir', j, name, Side(j, cut))
    {
      assert Slot(dir', j) == Slot(dir, j);
      assert Stands(dir, j, name, Side(j, cut));
    }
  }

  /** The names after a tag that is no splice. */
  lemma SetSlots(dir: Directory, a: Attr)
    requires !a.tag.IsSplice()
    requires !IsName(a.tag) && a.tag.typ < TYPE_SPLICE ==> Slot(dir, a.tag.id).Some?
    ensures |Apply(dir, a)| == if IsName(a.tag) then Max(|dir|, a.tag.id + 1) else |dir|
    ensures forall j: nat {:trigger Slot(Apply(dir, a), j)} ::
              Slot(Apply(dir, a), j) == if IsName(a.tag) && j == a.tag.id then Some(ValueOf(a)) else Slot(dir, j)
  {
    SlotBeyond(dir, a.tag.id);
    forall j: nat
      ensures Slot(Apply(dir, a), j) == if IsName(a.tag) && j == a.tag.id then Some(ValueOf(a)) else Slot(dir, j)
    {
      ApplyAt(dir, a, j);
      LatestOfLonger(At(dir, a.tag.id), ValueOf(a), NAMES);
    }
  }

  lemma SpliceStep(dir: Directory, spliced: bool, a: Attr, best: Best, name: seq<Byte>)
    requires TagOk(dir, spliced, a) && a.tag.IsSplice() && Sorted(dir) && Invariant(dir, spliced, best, name)
    ensures Invariant(Apply(dir, a), true, NextBest(best, a, name), name)
  {
    SplicedSlots(dir, a);
    if a.tag.typ == TYPE_CREATE {
      CreateStep(dir, Apply(dir, a), spliced, a, best, name);
    } else {
      DeleteStep(dir, Apply(dir, a), spliced, a, best, name);
    }
  }

  lemma SetStep(dir: Directory, spliced: bool, a: Attr, best: Best, name: seq<Byte>)
    requires TagOk(dir, spliced, a) && !a.tag.IsSplice() && Invariant(dir, spliced, best, name) && Sorted(Apply(dir, a))
    ensures Invariant(Apply(dir, a), spliced, NextBest(best, a, name), name)
  {
    SetSlots(dir, a);
    if IsName(a.tag) {
      NameStep(dir, Apply(dir, a), spliced, a, best, name);
    } else {
      OtherStep(dir, Apply(dir, a), spliced, best, name);
    }
  }

  /** One tag of the log read forwards. */
  lemma SearchStep(dir: Directory, spliced: bool, a: Attr, best: Best, name: seq<Byte>)
    requires TagOk(dir, spliced, a) && Sorted(dir) && Sorted(Apply(dir, a)) && Invariant(dir, spliced, best, name)
    ensures Invariant(Apply(dir, a), spliced || a.tag.IsSplice(), NextBest(best, a, name), name)
  {
    if a.tag.IsSplice() {
      SpliceStep(dir, spliced, a, best, name);
    } else {
      SetStep(dir, spliced, a, best, name);
    }
  }

  lemma OrderlySnoc(front: seq<Attr>, a: Attr)
    ensures Orderly(front + [a]) <==>
            && Orderly(front) && TagOk(Replay(front), HasSplice(front), a)
            && Sorted(Apply(Replay(front), a)) && |Apply(Replay(front), a)| <= NO_ID
    ensures HasSplice(front + [a]) == (HasSplice(front) || a.tag.IsSplice())
  {
    assert (front + [a])[..|front|] == front;
    ReplaySnoc(front, a);
  }

  lemma OrderlyIsSorted(log: seq<Attr>)
    requires Orderly(log)
    ensures Sorted(Replay(log))
  {
    if log == [] {
      forall i: nat
        ensures Slot([], i) == None
      {
      }
    }
  }

  /** The entry count kept in a 16-bit word. */
  function NextCount(count: nat, t: Tag): nat {
    if IsName(t) then (if t.id >= count then t.id + 1 else count)
    else if t.IsSplice() then (count + Splice(t.typ)) % 0x1_0000
    else count
  }

  lemma SplicedCount(count: nat, t: Tag)
    requires count < 0xffff && WellFormedTag(t) && t.IsSplice() && (t.typ == TYPE_DELETE ==> count > 0)
    ensures NextCount(count, t) == if t.typ == TYPE_CREATE then count + 1 else count - 1
  {
  }

  lemma CountStep(dir: Directory, spliced: bool, a: Attr)
    requires TagOk(dir, spliced, a) && |dir| < 0xffff
    ensures |Apply(dir, a)| == NextCount(|dir|, a.tag)
  {
    if a.tag.IsSplice() {
      SplicedSlots(dir, a);
      SplicedCount(|dir|, a.tag);
    } else {
      SetSlots(dir, a);
    }
  }

  // ---------------------------------------------------------------- the fetch

  /** The best tag after a whole log. */
  function BestAfter(log: seq<Attr>, name: seq<Byte>): Best {
    if log == [] then Nothing else NextBest(BestAfter(log[..|log| - 1], name), log[|log| - 1], name)
  }

  function CountAfter(log: seq<Attr>): nat {
    if log == [] then 0 else NextCount(CountAfter(log[..|log| - 1]), log[|log| - 1].tag)
  }

  /** What the fetch makes of the best tag and the entry count. */
  function Conclude(best: Best, count: nat): Result {
    if best.Best? && best.valid then Hit(best.tag)
    else if BestId(best) < count then Miss(BestId(best))
    else Pass(Min(BestId(best), count))
  }

  function ResultAfter(log: seq<Attr>, name: seq<Byte>): Result {
    Conclude(BestAfter(log, name), CountAfter(log))
  }

  lemma AfterSnoc(front: seq<Attr>, a: Attr, name: seq<Byte>)
    ensures BestAfter(front + [a], name) == NextBest(BestAfter(front, name), a, name)
    ensures CountAfter(front + [a]) == NextCount(CountAfter(front), a.tag)
  {
    assert (front + [a])[..|front|] == front;
  }

  /** What the next tag of an orderly log brings. */
  lemma NextTag(front: seq<Attr>, a: Attr)
    requires Orderly(front + [a])
    ensures TagOk(Replay(front), HasSplice(front), a)
    ensures Sorted(Replay(front)) && Sorted(Apply(Replay(front), a))
    ensures Replay(front + [a]) == Apply(Replay(front), a)
    ensures HasSplice(front + [a]) == (HasSplice(front) || a.tag.IsSplice())
  {
    OrderlySnoc(front, a);
    ReplaySnoc(front, a);
    OrderlyIsSorted(front);
  }

  ghost predicate Answers(dir: Directory, name: seq<Byte>, r: Result) {
    // the live entry with the name is found whenever there is one, and only then
    && (r.Hit? ==> HasName(dir, r.tag.id, name))
    && (!r.Hit? ==> forall i: nat :: !HasName(dir, i, name))
    // otherwise the id is the sorted insertion index
    && (!r.Hit? ==> CutAt(dir, r.id, name) && (r.Miss? <==> r.id < |dir|))
  }

  /** On an orderly log the best tag keeps the search invariant and the count is the directory's. */
  lemma {:induction false} SearchInvariant(log: seq<Attr>, name: seq<Byte>)
    requires Orderly(log)
    ensures CountAfter(log) == |Replay(log)|
    ensures Invariant(Replay(log), HasSplice(log), BestAfter(log, name), name)
  {
    if log != [] {
      hide Replay, Orderly, Invariant, TagOk, NextBest, NextCount, HasSplice;
      var front, a := log[..|log| - 1], log[|log| - 1];
      assert log == front + [a];
      OrderlySnoc(front, a);
      SearchInvariant(front, name);
      NextTag(front, a);
      OrderlyIsSmall(front);
      SearchStep(Replay(front), HasSplice(front), a, BestAfter(front, name), name);
      CountStep(Replay(front), HasSplice(front), a);
    }
  }

  /** On an orderly log every name is answered rightly. */
  lemma OrderlyIsAnswered(log: seq<Attr>, name: seq<Byte>)
    requires Orderly(log)
    ensures CountAfter(log) == |Replay(log)| && Answers(Replay(log), name, ResultAfter(log, name))
  {
    SearchInvariant(log, name);
    OrderlyIsSmall(log);
    FinalAnswer(Replay(log), BestAfter(log, name), name);
  }

  /** One round of the fetch loop: the entry count and the best tag. */
  method ReadTag(best: Best, count: nat, a: Attr, name: seq<Byte>) returns (best': Best, count': nat)
    ensures best' == NextBest(best, a, name) && count' == NextCount(count, a.tag)
  {
    count' := count;
    if IsName(a.tag) {
      // an id past the entries known so far
      if a.tag.id >= count {
        count' := a.tag.id + 1;
      }
    } else if a.tag.IsSplice() {
      count' := (count + Splice(a.tag.typ)) % 0x1_0000;
    }
    best' := UpdateBest(best, a, name);
  }

  /** lfs_dir_fetchmatch over the committed tags of a log. */
  method FetchMatch(log: seq<Attr>, name: seq<Byte>) returns (r: Result, count: nat)
    ensures r == ResultAfter(log, name) && count == CountAfter(log)
    ensures Orderly(log) ==> count == |Replay(log)| && Answers(Replay(log), name, r)
    ensures Orderly(log) && r.Hit? ==> IsTagOf(Replay(log), r.tag)
  {
    var best := Nothing;
    count := 0;
    for k := 0 to |log|
      invariant best == BestAfter(log[..k], name) && count == CountAfter(log[..k])
    {
      assert log[..k + 1] == log[..k] + [log[k]];
      AfterSnoc(log[..k], log[k], name);
      best, count := ReadTag(best, count, log[k], name);
    }
    assert log[..|log|] == log;
    if Orderly(log) {
      OrderlyIsAnswered(log, name);
      HitIsItsTag(log, name);
    }
    if best.Best? && best.valid {
      return Hit(best.tag), count;
    }
    r := if BestId(best) < count then Miss(BestId(best)) else Pass(Min(BestId(best), count));
  }

  /** The tag is that of the name that entry has: its type and its size. */
  ghost predicate IsTagOf(dir: Directory, t: Tag) {
    Slot(dir, t.id).Some? && Slot(dir, t.id).value.typ == t.typ && Slot(dir, t.id).value.size == t.size
  }

  /** A splice moves the best tag with its entry and leaves its type and size alone. */
  lemma SpliceKeepsTag(dir: Directory, spliced: bool, a: Attr, best: Best, name: seq<Byte>)
    requires TagOk(dir, spliced, a) && a.tag.IsSplice() && best.Best? && best.valid && IsTagOf(dir, best.tag)
    ensures var next := NextBest(best, a, name); next.Best? && next.valid ==> IsTagOf(Apply(dir, a), next.tag)
  {
    hide Apply, Slot, Compare;
    SplicedSlots(dir, a);
    SlotBeyond(dir, best.tag.id);
    var i, id := a.tag.id, best.tag.id;
    assert Slot(Apply(dir, a), if i > id then id else if a.tag.typ == TYPE_CREATE then id + 1 else if i < id then id - 1 else id)
           == if i == id && a.tag.typ == TYPE_DELETE then Slot(dir, id + 1) else Slot(dir, id);
  }

  lemma BestKeepsTag(dir: Directory, spliced: bool, a: Attr, best: Best, name: seq<Byte>)
    requires TagOk(dir, spliced, a) && (best.Best? && best.valid ==> IsTagOf(dir, best.tag))
    ensures var next := NextBest(best, a, name); next.Best? && next.valid ==> IsTagOf(Apply(dir, a), next.tag)
  {
    if a.tag.IsSplice() {
      if best.Best? && best.valid { SpliceKeepsTag(dir, spliced, a, best, name); }
    } else {
      SetSlots(dir, a);
      assert Slot(Apply(dir, a), a.tag.id) == if IsName(a.tag) then Some(ValueOf(a)) else Slot(dir, a.tag.id);
      if best.Best? {
        assert Slot(Apply(dir, a), best.tag.id) ==
               if IsName(a.tag) && best.tag.id == a.tag.id then Some(ValueOf(a)) else Slot(dir, best.tag.id);
      }
    }
  }

  /** A hit is the tag of the name it found, moved to where its entry now is. */
  lemma {:induction false} HitIsItsTag(log: seq<Attr>, name: seq<Byte>)
    requires Orderly(log)
    ensures var best := BestAfter(log, name); best.Best? && best.valid ==> IsTagOf(Replay(log), best.tag)
  {
    if log != [] {
      var front, a := log[..|log| - 1], log[|log| - 1];
      assert log == front + [a];
      OrderlySnoc(front, a);
      HitIsItsTag(front, name);
      NextTag(front, a);
      BestKeepsTag(Replay(front), HasSplice(front), a, BestAfter(front, name), name);
    }
  }

  lemma OrderlyIsSmall(log: seq<Attr>)
    requires Orderly(log)
    ensures |Replay(log)| <= NO_ID
  {
  }

  /** What the best tag says about the directory once the whole log is read. */
  ghost predicate AtTheEnd(dir: Directory, best: Best, name: seq<Byte>) {
    match best
    case Nothing => CutAt(dir, |dir|, name)
    case Best(true, t) => HasName(dir, t.id, name)
    case Best(false, t) => CutAt(dir, t.id, name)
  }

  lemma FinalAnswer(dir: Directory, best: Best, name: seq<Byte>)
    requires AtTheEnd(dir, best, name) && |dir| <= NO_ID
    ensures Answers(dir, name, Conclude(best, |dir|))
  {
    if best == Nothing || !best.valid {
      var cut := if best == Nothing then |dir| else best.tag.id;
      forall i: nat
        ensures !HasName(dir, i, name)
      {
        SlotBeyond(dir, i);
        if i < |dir| { assert Stands(dir, i, name, Side(i, cut)); }
      }
    }
  }
}
