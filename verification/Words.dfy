/** Bytes and the 32-bit little-endian words littlefs stores in its blocks. */
module Words {

  type Byte = b: int | 0 <= b < 0x100

  const WORD_LIMIT: nat := 0x1_0000_0000

  function ToLe32(n: nat): (s: seq<Byte>)
    requires n < WORD_LIMIT
    ensures |s| == 4
  {
    [n % 0x100, n / 0x100 % 0x100, n / 0x1_0000 % 0x100, n / 0x100_0000]
  }

  function FromLe32(s: seq<Byte>): (n: nat)
    requires |s| == 4
    ensures n < WORD_LIMIT
  {
    var a: int, b: int, c: int, d: int := s[0], s[1], s[2], s[3];
    a + 0x100 * b + 0x1_0000 * c + 0x100_0000 * d
  }

  lemma Le32RoundTrip(n: nat)
    requires n < WORD_LIMIT
    ensures FromLe32(ToLe32(n)) == n
  {
    var a, b := n / 0x100, n / 0x1_0000;
    assert b == a / 0x100;
    assert n / 0x100_0000 == b / 0x100;
  }

  /** The block with `data` programmed at off. */
  function Patch(s: seq<Byte>, off: nat, data: seq<Byte>): (r: seq<Byte>)
    requires off + |data| <= |s|
    ensures |r| == |s|
  {
    s[..off] + data + s[off + |data|..]
  }

  lemma PatchKeepsFront(s: seq<Byte>, off: nat, data: seq<Byte>)
    requires off + |data| <= |s|
    ensures Patch(s, off, data)[..off + |data|] == s[..off] + data
  {
  }
}
