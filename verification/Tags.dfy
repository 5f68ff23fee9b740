/** Metadata tags: the packed 32-bit word and its fields (lfs_tag_*, LFS_MKTAG). */
module Tags {

  const TYPE_NAME: nat := 0x000
  const TYPE_SPLICE: nat := 0x400
  const TYPE_CREATE: nat := 0x401
  const TYPE_DELETE: nat := 0x4ff
  const TYPE_TAIL: nat := 0x600

  /** The size field of a deleted attribute. */
  const DELETED: nat := 0x3ff

  /** The id of tags that belong to no directory entry. */
  const NO_ID: nat := 0x3ff

  datatype Tag = Tag(typ: nat, id: nat, size: nat) {
    predicate IsDelete() {
      size == DELETED
    }

    /** lfs_tag_type1(tag) == LFS_TYPE_SPLICE: the types 0x400 to 0x4ff. */
    predicate IsSplice() {
      TYPE_SPLICE <= typ < TYPE_SPLICE + 0x100
    }

    /** Size of the tag and its data on disk. */
    function Dsize(): nat {
      4 + if IsDelete() then 0 else size
    }
  }

  /** The chunk field as a signed byte: how many entries a splice adds. */
  function Splice(typ: nat): int {
    var chunk := typ % 0x100;
    if chunk < 0x80 then chunk else chunk - 0x100
  }

  /** A type test of the form (mask & typ) == (mask & want), for the masks 0x7ff, 0x780 and 0x700. */
  datatype Query = Exact(typ: nat) | Kind(typ: nat) | Family(typ: nat) {
    predicate Matches(t: nat) {
      match this
      case Exact(want) => t == want
      case Kind(want) => t / 0x80 == want / 0x80
      case Family(want) => t / 0x100 == want / 0x100
    }
  }

  const NAME_QUERY := Kind(TYPE_NAME)

  // ---------------------------------------------------------------- the packed word

  function Pack(t: Tag): (w: nat)
    requires t.typ < 0x800 && t.id < 0x400 && t.size < 0x400
    ensures w < 0x8000_0000
  {
    t.typ * 0x10_0000 + t.id * 0x400 + t.size
  }

  function Unpack(w: nat): Tag {
    Tag(w / 0x10_0000 % 0x800, w / 0x400 % 0x400, w % 0x400)
  }

  lemma PackRoundTrip(t: Tag)
    requires t.typ < 0x800 && t.id < 0x400 && t.size < 0x400
    ensures Unpack(Pack(t)) == t
  {
    var w := Pack(t);
    assert w / 0x400 == t.typ * 0x400 + t.id;
    assert w / 0x10_0000 == t.typ;
  }

  /** Adding LFS_MKTAG(0, d, 0) in 32-bit arithmetic moves the id and nothing else,
      exactly as long as the id stays within its ten bits. */
  lemma PackedShift(t: Tag, d: int)
    requires t.typ < 0x800 && t.id < 0x400 && t.size < 0x400 && -0x400 < d < 0x400
    ensures var shifted := Unpack((Pack(t) + d * 0x400) % 0x1_0000_0000);
      && (0 <= t.id + d < 0x400 <==> shifted.id == t.id + d)
      && (0 <= t.id + d < 0x400 ==> shifted == Tag(t.typ, t.id + d, t.size))
  {
    if 0 <= t.id + d < 0x400 {
      var moved := Tag(t.typ, t.id + d, t.size);
      SmallWord(Pack(t) + d * 0x400, Pack(moved));
      PackRoundTrip(moved);
    }
  }

  lemma SmallWord(a: int, w: nat)
    requires a == w < 0x8000_0000
    ensures a % 0x1_0000_0000 == w
  {
  }
}
