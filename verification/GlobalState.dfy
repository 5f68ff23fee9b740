/** The global state littlefs spreads over its metadata pairs: each pair may store a delta, and the state is
    the xor of them all. Commits, compactions, relocations, splits and drops must all conserve it. */
module GlobalState {
  import opened Bits
  import opened Wrappers

  datatype Gstate = Gstate(tag: nat, pair0: nat, pair1: nat)

  const ZERO := Gstate(0, 0, 0)

  /** lfs_gstate_xor */
  function Plus(a: Gstate, b: Gstate): Gstate {
    Gstate(Xor(a.tag, b.tag), Xor(a.pair0, b.pair0), Xor(a.pair1, b.pair1))
  }

  /** Without the size field of the tag, which counts orphans in RAM and is never stored. */
  function Mask(a: Gstate): Gstate {
    a.(tag := a.tag / 0x400 * 0x400)
  }

  predicate Clean(a: Gstate) {
    Mask(a) == a
  }

  // ---------------------------------------------------------------- the group laws

  lemma PlusAssoc(a: Gstate, b: Gstate, c: Gstate)
    ensures Plus(Plus(a, b), c) == Plus(a, Plus(b, c))
  {
    XorAssoc(a.tag, b.tag, c.tag);
    XorAssoc(a.pair0, b.pair0, c.pair0);
    XorAssoc(a.pair1, b.pair1, c.pair1);
  }

  lemma PlusCommutes(a: Gstate, b: Gstate)
    ensures Plus(a, b) == Plus(b, a)
  {
    XorCommutes(a.tag, b.tag);
    XorCommutes(a.pair0, b.pair0);
    XorCommutes(a.pair1, b.pair1);
  }

  lemma PlusUnit(a: Gstate)
    ensures Plus(a, a) == ZERO && Plus(a, ZERO) == a == Plus(ZERO, a)
  {
    XorUnit(a.tag);
    XorUnit(a.pair0);
    XorUnit(a.pair1);
    PlusCommutes(a, ZERO);
  }

  /** Adding the same twice changes nothing. */
  lemma PlusTwice(a: Gstate, b: Gstate)
    ensures Plus(Plus(a, b), b) == a && Plus(b, Plus(a, b)) == a
  {
    PlusAssoc(a, b, b);
    PlusUnit(b);
    PlusUnit(a);
    PlusCommutes(b, Plus(a, b));
  }

  lemma PlusCancels(a: Gstate, b: Gstate, c: Gstate)
    requires Plus(a, c) == Plus(b, c)
    ensures a == b
  {
    PlusTwice(a, c);
    PlusTwice(b, c);
  }

  lemma MaskPlus(a: Gstate, b: Gstate)
    ensures Mask(Plus(a, b)) == Plus(Mask(a), Mask(b)) && Clean(Mask(a))
    ensures Clean(a) && Clean(b) ==> Clean(Plus(a, b))
  {
    MaskXor(a.tag, b.tag);
    DivModUnique(a.tag / 0x400 * 0x400, 0x400, a.tag / 0x400, 0);
  }

  lemma MaskXor(a: nat, b: nat)
    ensures Xor(a, b) / 0x400 * 0x400 == Xor(a / 0x400 * 0x400, b / 0x400 * 0x400)
  {
    MaskIsShift(a);
    MaskIsShift(b);
    MaskIsShift(Xor(a, b));
    XorShiftRight(a, b, 10);
    XorShiftLeft(ShiftRight(a, 10), ShiftRight(b, 10), 10);
  }

  lemma MaskIsShift(tag: nat)
    ensures tag / 0x400 * 0x400 == ShiftLeft(ShiftRight(tag, 10), 10)
  {
    assert Pow2(10) == 0x400;
    ShiftIsDivision(tag, 10);
    ShiftLeftIsProduct(ShiftRight(tag, 10), 10);
  }

  // ---------------------------------------------------------------- xor over a list

  function Fold(s: seq<Gstate>): Gstate {
    if s == [] then ZERO else Plus(Fold(s[..|s| - 1]), s[|s| - 1])
  }

  lemma {:induction false} FoldConcat(s: seq<Gstate>, t: seq<Gstate>)
    ensures Fold(s + t) == Plus(Fold(s), Fold(t))
  {
    if t == [] {
      assert s + t == s;
      PlusUnit(Fold(s));
    } else {
      var n := |t| - 1;
      assert (s + t)[..|s + t| - 1] == s + t[..n];
      FoldConcat(s, t[..n]);
      PlusAssoc(Fold(s), Fold(t[..n]), t[n]);
    }
  }

  lemma FoldOne(g: Gstate)
    ensures Fold([g]) == g
  {
    assert [g][..0] == [];
    PlusUnit(g);
  }

  /** Replacing one delta changes the total by just what it changes itself. */
  lemma FoldUpdate(s: seq<Gstate>, i: nat, g: Gstate)
    requires i < |s|
    ensures Fold(s[i := g]) == Plus(Fold(s), Plus(s[i], g))
  {
    var rest := Plus(Fold(s[..i]), Fold(s[i + 1..]));
    FoldSplit(s[..i], s[i], s[i + 1..]);
    FoldSplit(s[..i], g, s[i + 1..]);
    assert s == s[..i] + [s[i]] + s[i + 1..];
    assert s[i := g] == s[..i] + [g] + s[i + 1..];
    PlusTwice(rest, s[i]);
    PlusAssoc(Plus(rest, s[i]), s[i], g);
  }

  lemma FoldSplit(front: seq<Gstate>, g: Gstate, back: seq<Gstate>)
    ensures Fold(front + [g] + back) == Plus(Plus(Fold(front), Fold(back)), g)
    ensures Fold(front + back) == Plus(Fold(front), Fold(back))
  {
    FoldConcat(front + [g], back);
    FoldConcat(front, [g]);
    FoldConcat(front, back);
    FoldOne(g);
    PlusAssoc(Fold(front), g, Fold(back));
    PlusCommutes(g, Fold(back));
    PlusAssoc(Fold(front), Fold(back), g);
  }

  lemma {:induction false} FoldClean(s: seq<Gstate>)
    requires forall i | 0 <= i < |s| :: Clean(s[i])
    ensures Clean(Fold(s))
  {
    if s != [] {
      FoldClean(s[..|s| - 1]);
      MaskPlus(Fold(s[..|s| - 1]), s[|s| - 1]);
    }
  }

  // ---------------------------------------------------------------- the file system

  /** How a commit to a pair goes: in place or by compaction, and where the compaction had to go. */
  datatype Way = InPlace | Compacted | Relocated

  datatype Step =
    | Set(g: Gstate)
    | CommitTo(i: nat, way: Way)
    | SplitAt(i: nat, tailsRelocated: seq<bool>, headRelocated: bool)
    | DropAt(i: nat, way: Way)
    | Remount(older: seq<Option<bool>>)

  class Filesystem {
    var gstate: Gstate
    var gdisk: Gstate
    var gdelta: Gstate
    /** The delta each pair of the tail list stores, in list order; ZERO when it stores none. */
    var deltas: seq<Gstate>

    /** What is stored, and what is still to be stored for pairs no longer in the list, make up what RAM
        takes the disk to say. */
    ghost predicate Valid()
      reads this
    {
      Conserved(deltas, gdelta, gdisk)
    }

    /** lfs_fs_prepmove and its like: any change of the state in RAM. */
    method Prepare(g: Gstate)
      requires Valid()
      modifies this`gstate
      ensures Valid() && gstate == g
    {
      gstate := g;
    }

    /** The delta part of an in-place commit, in lfs_dir_relocatingcommit. */
    method CommitInPlace(i: nat)
      requires Valid() && i < |deltas|
      modifies this`gdisk, this`gdelta, this`deltas
      ensures Valid() && gdisk == gstate && gdelta == ZERO
      ensures |deltas| == |old(deltas)| && Fold(deltas) == Mask(gstate)
      ensures forall j | 0 <= j < |deltas| && j != i :: deltas[j] == old(deltas)[j]
    {
      var delta := ZERO;
      delta := Plus(delta, gstate);
      delta := Plus(delta, gdisk);
      delta := Plus(delta, gdelta);
      delta := Mask(delta);
      PlusUnit(gstate);
      Deposit(deltas, gdelta, gdisk, gstate, i, delta);
      if delta != ZERO {
        delta := Plus(delta, deltas[i]);
        deltas := deltas[i := delta];
      }
      gdisk := gstate;
      gdelta := ZERO;
    }

    /** The delta part of lfs_dir_compact on pair i. */
    method Compact(i: nat, relocated: bool)
      requires Valid() && i < |deltas|
      modifies this`gdisk, this`gdelta, this`deltas
      ensures Valid() && gdelta == ZERO && gdisk == (if relocated then old(gdisk) else gstate)
      ensures |deltas| == |old(deltas)| && Fold(deltas) == Mask(gdisk)
      ensures forall j | 0 <= j < |deltas| && j != i :: deltas[j] == old(deltas)[j]
    {
      var delta := ZERO;
      if !relocated {
        delta := Plus(delta, gdisk);
        delta := Plus(delta, gstate);
      }
      delta := Plus(delta, gdelta);
      delta := Mask(delta);
      PlusUnit(gdisk);
      PlusCommutes(gdisk, gstate);
      Deposit(deltas, gdelta, gdisk, if relocated then gdisk else gstate, i, delta);
      delta := Plus(delta, deltas[i]);
      // the new log has no other delta, so this is what the pair stores even when it is zero
      deltas := deltas[i := delta];
      gdelta := ZERO;
      if !relocated {
        gdisk := gstate;
      }
    }

    method Commit(i: nat, way: Way)
      requires Valid() && i < |deltas|
      modifies this`gdisk, this`gdelta, this`deltas
      ensures Valid() && gdelta == ZERO && gdisk == (if way == Relocated then old(gdisk) else gstate)
      ensures |deltas| == |old(deltas)| && Fold(deltas) == Mask(gdisk)
    {
      match way
      case InPlace => CommitInPlace(i);
      case Compacted => Compact(i, false);
      case Relocated => Compact(i, true);
    }

    /** lfs_dir_split as often as lfs_dir_splittingcompact calls for it, and the compaction of the head: each new pair
        follows pair i in the list, in front of those split off before. */
    method Split(i: nat, tails: seq<bool>, head: bool)
      requires Valid() && i < |deltas|
      modifies this`gdisk, this`gdelta, this`deltas
      ensures Valid() && gdelta == ZERO && |deltas| == |old(deltas)| + |tails|
      ensures gdisk == (if AllOf(tails) && head then old(gdisk) else gstate) && Fold(deltas) == Mask(gdisk)
    {
      for n := 0 to |tails|
        invariant Valid() && |deltas| == |old(deltas)| + n
        invariant gdisk == if AllOf(tails[..n]) then old(gdisk) else gstate
      {
        Inserted(deltas, gdelta, gdisk, i);
        deltas := deltas[..i + 1] + [ZERO] + deltas[i + 1..];
        Compact(i + 1, tails[n]);
        assert tails[..n + 1] == tails[..n] + [tails[n]];
      }
      assert tails[..|tails|] == tails;
      Compact(i, head);
    }

    /** Dropping pair i: its delta is kept in RAM until the commit that unlinks it from its predecessor. */
    method Drop(i: nat, way: Way)
      requires Valid() && 0 < i < |deltas|
      modifies this`gdisk, this`gdelta, this`deltas
      ensures Valid() && gdelta == ZERO && |deltas| == |old(deltas)| - 1
      ensures gdisk == (if way == Relocated then old(gdisk) else gstate) && Fold(deltas) == Mask(gdisk)
      // until a relocated predecessor is itself linked, the disk shows the old list; its total is the same
      ensures way == Relocated ==> Fold(deltas) == Plus(old(Fold(deltas)), old(gdelta))
    {
      Dropped(deltas, gdelta, gdisk, i);
      gdelta := Plus(gdelta, deltas[i]);
      deltas := deltas[..i] + deltas[i + 1..];
      Commit(i - 1, way);
    }

    /** A split whose head compaction fails after its tails were written: the new pairs are in no list. */
    method FailedSplit(tails: seq<bool>)
      requires Valid()
      modifies this`gdisk, this`gdelta
      ensures deltas == old(deltas)
      ensures Valid() <==>
              tails == [] || Mask(old(if AllOf(tails) then gdelta else Plus(Plus(gstate, gdisk), gdelta))) == ZERO
    {
      PlusUnit(gdisk);
      PlusUnit(gdelta);
      Lost(deltas, gdelta, gdisk, if AllOf(tails) then gdisk else gstate);
      for n := 0 to |tails|
        invariant gdelta == (if n == 0 then old(gdelta) else ZERO)
        invariant gdisk == if AllOf(tails[..n]) then old(gdisk) else gstate
      {
        assert tails[..n + 1] == tails[..n] + [tails[n]];
        gdelta := ZERO;
        if !tails[n] {
          gdisk := gstate;
        }
      }
      assert tails[..|tails|] == tails;
    }

    /** A drop whose commit to the predecessor fails: the pair is still in the list, and its delta in RAM too. */
    method FailedDrop(i: nat)
      requires Valid() && i < |deltas|
      modifies this`gdelta
      ensures Valid() <==> deltas[i] == ZERO
    {
      Twice(deltas, gdelta, gdisk, deltas[i]);
      gdelta := Plus(gdelta, deltas[i]);
    }

    /** The part of lfs_mount_ that walks the tail list and puts the state together; older[i] says, if pair i holds a
        superblock, whether that is of an older minor version. */
    method Mount(older: seq<Option<bool>>)
      requires Valid()
      modifies this`gstate, this`gdisk, this`gdelta
      ensures Valid() && gdelta == ZERO && gdisk == gstate
      ensures old(gdelta) == ZERO ==> Mask(gstate) == Mask(old(gdisk))
      // an orphan count of one stands for any number of them, and a bit of its own for the superblock
      ensures gstate.tag % 0x400 == (if gstate.tag % 0x1_0000_0000 >= 0x8000_0000 then 1 else 0) +
                                    (if NeedsSuperblock(older, |deltas|) then 0x200 else 0)
    {
      ghost var all := deltas;
      gstate, gdelta := ZERO, ZERO;
      for i := 0 to |deltas|
        invariant deltas == all && gdelta == ZERO
        invariant gstate == Flagged(Fold(deltas[..i]), NeedsSuperblock(older, i))
      {
        MountStep(deltas, i, older);
        if i < |older| && older[i].Some? {
          gstate := Prepped(gstate, older[i].value);
        }
        gstate := Plus(gstate, deltas[i]);
      }
      assert deltas[..|deltas|] == deltas;
      MountEnds(deltas, NeedsSuperblock(older, |deltas|));
      gstate := gstate.(tag := gstate.tag + if HasTopBit(gstate) then 1 else 0);
      gdisk := gstate;
      PlusUnit(Fold(deltas));
      TopBitIs(gstate);
    }
  }

  /** Any run of such steps, and any number of mounts in between: at every boundary the deltas on disk add up to
      what RAM takes the disk to say, so a mount puts together just that. */
  method Run(fs: Filesystem, steps: seq<Step>)
    requires fs.Valid() && fs.gdelta == ZERO
    modifies fs
    ensures fs.Valid() && fs.gdelta == ZERO && Fold(fs.deltas) == Mask(fs.gdisk)
  {
    for n := 0 to |steps|
      invariant fs.Valid() && fs.gdelta == ZERO
    {
      match steps[n]
      case Set(g) => fs.Prepare(g);
      case CommitTo(i, way) => if i < |fs.deltas| { fs.Commit(i, way); }
      case SplitAt(i, tails, head) => if i < |fs.deltas| { fs.Split(i, tails, head); }
      case DropAt(i, way) => if 0 < i < |fs.deltas| { fs.Drop(i, way); }
      case Remount(older) => fs.Mount(older);
    }
    PlusUnit(Fold(fs.deltas));
  }

  ghost predicate Conserved(deltas: seq<Gstate>, gdelta: Gstate, gdisk: Gstate) {
    && Clean(gdelta) && (forall i | 0 <= i < |deltas| :: Clean(deltas[i]))
    && Plus(Fold(deltas), gdelta) == Mask(gdisk)
  }

  predicate AllOf(s: seq<bool>) {
    forall i | 0 <= i < |s| :: s[i]
  }

  /** A new pair that stores no delta yet changes nothing. */
  lemma {:induction false} Inserted(deltas: seq<Gstate>, gdelta: Gstate, gdisk: Gstate, i: nat)
    requires Conserved(deltas, gdelta, gdisk) && i < |deltas|
    ensures Conserved(deltas[..i + 1] + [ZERO] + deltas[i + 1..], gdelta, gdisk)
  {
    FoldSplit(deltas[..i + 1], ZERO, deltas[i + 1..]);
    assert deltas == deltas[..i + 1] + deltas[i + 1..];
    PlusUnit(Fold(deltas));
  }

  /** Putting the missing difference into one pair's delta makes the stored total say `now`. */
  lemma {:induction false} Deposit(deltas: seq<Gstate>, gdelta: Gstate, gdisk: Gstate, now: Gstate, i: nat,
          delta: Gstate)
    requires Conserved(deltas, gdelta, gdisk) && i < |deltas|
    requires delta == Mask(Plus(Plus(now, gdisk), gdelta))
    ensures Conserved(deltas[i := Plus(delta, deltas[i])], ZERO, now)
    ensures Fold(deltas[i := Plus(delta, deltas[i])]) == Mask(now)
    ensures delta == ZERO ==> deltas[i := Plus(delta, deltas[i])] == deltas
  {
    var now' := Plus(delta, deltas[i]);
    FoldUpdate(deltas, i, now');
    DepositSum(Fold(deltas), gdelta, gdisk, now, delta, deltas[i]);
    PlusUnit(Mask(now));
  }

  lemma DepositSum(total: Gstate, gdelta: Gstate, gdisk: Gstate, now: Gstate, delta: Gstate, had: Gstate)
    requires Clean(gdelta) && Clean(had) && Plus(total, gdelta) == Mask(gdisk)
    requires delta == Mask(Plus(Plus(now, gdisk), gdelta))
    ensures Plus(total, Plus(had, Plus(delta, had))) == Mask(now) && Clean(Plus(delta, had)) && Clean(ZERO)
    ensures delta == ZERO ==> Plus(delta, had) == had
  {
    Missing(total, gdelta, gdisk, now);
    PlusTwice(delta, had);
    MaskPlus(Plus(Plus(now, gdisk), gdelta), ZERO);
    MaskPlus(delta, had);
    PlusUnit(had);
  }

  /** The masked difference between the state and what is stored, added to what is stored, makes the state. */
  lemma Missing(total: Gstate, gdelta: Gstate, gdisk: Gstate, now: Gstate)
    requires Clean(gdelta) && Plus(total, gdelta) == Mask(gdisk)
    ensures Plus(total, Mask(Plus(Plus(now, gdisk), gdelta))) == Mask(now)
  {
    MaskPlus(Plus(now, gdisk), gdelta);
    MaskPlus(now, gdisk);
    var a, k, d := Mask(now), Mask(gdisk), gdelta;
    PlusTwice(total, d);
    PlusCommutes(total, Plus(Plus(a, k), d));
    PlusAssoc(Plus(a, k), d, total);
    PlusCommutes(d, total);
    PlusTwice(a, k);
  }

  lemma {:induction false} Dropped(deltas: seq<Gstate>, gdelta: Gstate, gdisk: Gstate, i: nat)
    requires Conserved(deltas, gdelta, gdisk) && i < |deltas|
    ensures Conserved(deltas[..i] + deltas[i + 1..], Plus(gdelta, deltas[i]), gdisk)
    ensures Mask(gdisk) == Plus(Fold(deltas), gdelta)
  {
    var rest := deltas[..i] + deltas[i + 1..];
    FoldSplit(deltas[..i], deltas[i], deltas[i + 1..]);
    assert deltas == deltas[..i] + [deltas[i]] + deltas[i + 1..];
    MaskPlus(gdelta, deltas[i]);
    PlusCommutes(gdelta, deltas[i]);
    PlusAssoc(Fold(rest), deltas[i], gdelta);
  }

  lemma Lost(deltas: seq<Gstate>, gdelta: Gstate, gdisk: Gstate, now: Gstate)
    requires Conserved(deltas, gdelta, gdisk)
    ensures Conserved(deltas, ZERO, now) <==> Mask(Plus(Plus(now, gdisk), gdelta)) == ZERO
  {
    var total, delta := Fold(deltas), Mask(Plus(Plus(now, gdisk), gdelta));
    Missing(total, gdelta, gdisk, now);
    PlusUnit(total);
    if total == Mask(now) {
      PlusCommutes(total, delta);
      PlusCommutes(total, ZERO);
      PlusCancels(delta, ZERO, total);
    }
  }

  lemma Twice(deltas: seq<Gstate>, gdelta: Gstate, gdisk: Gstate, g: Gstate)
    requires Conserved(deltas, gdelta, gdisk) && Clean(g)
    ensures Conserved(deltas, Plus(gdelta, g), gdisk) <==> g == ZERO
  {
    MaskPlus(gdelta, g);
    PlusUnit(gdelta);
    PlusAssoc(Fold(deltas), gdelta, g);
    var k := Mask(gdisk);
    if Plus(k, g) == k {
      PlusCommutes(k, g);
      PlusUnit(k);
      PlusCancels(g, ZERO, k);
    }
  }

  /** The valid bit of a tag, inverted: set while there are orphans. */
  predicate HasTopBit(g: Gstate) {
    g.tag / 0x8000_0000 % 2 == 1
  }

  lemma TopBitIs(g: Gstate)
    ensures HasTopBit(g) <==> g.tag % 0x1_0000_0000 >= 0x8000_0000
  {
    var q: nat, r: nat := g.tag / 0x1_0000_0000, g.tag % 0x1_0000_0000;
    var high := if r >= 0x8000_0000 then 1 else 0;
    DivModUnique(g.tag, 0x8000_0000, 2 * q + high, r - high * 0x8000_0000);
  }

  /** The bit of the size field that says the superblock must be rewritten before anything else is. */
  function Flag(needed: bool): nat {
    if needed then 0x200 else 0
  }

  function Flagged(g: Gstate, needed: bool): Gstate {
    g.(tag := g.tag + Flag(needed))
  }

  /** What the last superblock among the first n pairs calls for. */
  predicate NeedsSuperblock(older: seq<Option<bool>>, n: nat) {
    if n == 0 then false
    else if n <= |older| && older[n - 1].Some? then older[n - 1].value
    else NeedsSuperblock(older, n - 1)
  }

  /** lfs_fs_prepsuperblock */
  function Prepped(g: Gstate, needed: bool): Gstate {
    g.(tag := g.tag - Flag(g.tag / 0x200 % 2 == 1) + Flag(needed))
  }

  lemma PreppedIsFlagged(g: Gstate, was: bool, needed: bool)
    requires Clean(g)
    ensures Prepped(Flagged(g, was), needed) == Flagged(g, needed)
  {
    DivModUnique(g.tag + Flag(was), 0x200, g.tag / 0x400 * 2 + if was then 1 else 0, 0);
  }

  /** Deltas do not interfere with the bit. */
  lemma FlaggedPlus(g: Gstate, delta: Gstate, needed: bool)
    requires Clean(g) && Clean(delta)
    ensures Plus(Flagged(g, needed), delta) == Flagged(Plus(g, delta), needed)
  {
    var flag := Gstate(Flag(needed), 0, 0);
    MaskPlus(g, delta);
    FlaggedIsPlus(g, needed);
    FlaggedIsPlus(Plus(g, delta), needed);
    PlusAssoc(g, flag, delta);
    PlusCommutes(flag, delta);
    PlusAssoc(g, delta, flag);
  }

  lemma FlaggedIsPlus(g: Gstate, needed: bool)
    requires Clean(g)
    ensures Plus(g, Gstate(Flag(needed), 0, 0)) == Flagged(g, needed)
  {
    hide Xor;
    XorUnit(g.tag);
    XorUnit(g.pair0);
    XorUnit(g.pair1);
    LowBitApart(g.tag / 0x400);
  }

  /** One round of the walk: the pair's superblock first, then its delta. */
  lemma {:induction false} MountStep(deltas: seq<Gstate>, i: nat, older: seq<Option<bool>>)
    requires i < |deltas| && forall j | 0 <= j < |deltas| :: Clean(deltas[j])
    ensures var g := Flagged(Fold(deltas[..i]), NeedsSuperblock(older, i));
      var h := if i < |older| && older[i].Some? then Prepped(g, older[i].value) else g;
      Plus(h, deltas[i]) == Flagged(Fold(deltas[..i + 1]), NeedsSuperblock(older, i + 1))
  {
    hide Mask, Plus, Prepped, Flagged;
    var f := Fold(deltas[..i]);
    FoldClean(deltas[..i]);
    if i < |older| && older[i].Some? {
      PreppedIsFlagged(f, NeedsSuperblock(older, i), older[i].value);
    }
    FlaggedPlus(f, deltas[i], NeedsSuperblock(older, i + 1));
    assert deltas[..i + 1][..i] == deltas[..i];
  }

  lemma {:induction false} MountEnds(deltas: seq<Gstate>, needed: bool)
    requires forall j | 0 <= j < |deltas| :: Clean(deltas[j])
    ensures var h := Flagged(Fold(deltas), needed);
      var done := h.(tag := h.tag + if HasTopBit(h) then 1 else 0);
      && Mask(done) == Fold(deltas)
      && done.tag % 0x400 == (if HasTopBit(done) then 1 else 0) + Flag(needed)
  {
    FoldClean(deltas);
    Counted(Fold(deltas), needed);
  }

  lemma {:induction false} LowBitApart(q: nat)
    ensures Xor(0x400 * q, 0x200) == 0x400 * q + 0x200
  {
    NineUp(2 * q);
    NineUp(1);
    NineUp(2 * q + 1);
    XorShiftLeft(2 * q, 1, 9);
    XorOne(q);
  }

  lemma NineUp(a: nat)
    ensures ShiftLeft(a, 9) == a * 0x200
  {
    assert Pow2(9) == 0x200;
    ShiftLeftIsProduct(a, 9);
  }

  lemma {:induction false} XorOne(q: nat)
    ensures Xor(2 * q, 1) == 2 * q + 1
  {
    hide Xor;
    XorHalf(2 * q, 1);
    XorUnit(q);
  }

  /** The orphan count a mount starts with. */
  lemma Counted(g: Gstate, needed: bool)
    requires Clean(g)
    ensures var h := Flagged(g, needed);
      && (HasTopBit(h) <==> HasTopBit(g))
      && Mask(h) == g && h.tag % 0x400 == Flag(needed)
      && Mask(h.(tag := h.tag + 1)) == g && h.(tag := h.tag + 1).tag % 0x400 == 1 + Flag(needed)
      && (HasTopBit(h.(tag := h.tag + 1)) <==> HasTopBit(g))
  {
    LowBits(g, Flag(needed));
    LowBits(g, Flag(needed) + 1);
  }

  lemma LowBits(g: Gstate, n: nat)
    requires Clean(g) && n < 0x400
    ensures var h := g.(tag := g.tag + n); Mask(h) == g && h.tag % 0x400 == n && (HasTopBit(h) <==> HasTopBit(g))
  {
    var q := g.tag / 0x400;
    DivModUnique(g.tag, 0x400, q, 0);
    DivModUnique(g.tag + n, 0x400, q, n);
    var t, r := q / 0x20_0000, q % 0x20_0000;
    DivModUnique(g.tag, 0x8000_0000, t, 0x400 * r);
    DivModUnique(g.tag + n, 0x8000_0000, t, 0x400 * r + n);
  }
}
