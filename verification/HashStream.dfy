/** Hashing a stream in blocks: the buffering of SHA2Builder and SHA3Builder, whose result depends on the bytes
    added and not on how they came in, and the padding both put behind the message. */
module HashStream {
  import opened Bits
  import opened Words

  type Text = seq<Byte>

  // ---------------------------------------------------------------- what a stream of blocks amounts to

  /** The compression function over all full blocks of a message. */
  function Blocks<S>(compress: (S, Text) -> S, blockSize: nat, s: S, msg: Text): S
    requires blockSize > 0
    decreases |msg|
  {
    if |msg| < blockSize then s
    else Blocks(compress, blockSize, compress(s, msg[..blockSize]), msg[blockSize..])
  }

  /** Full blocks first, then the rest. */
  lemma {:induction false} BlocksConcat<S>(compress: (S, Text) -> S, blockSize: nat, s: S, a: Text, b: Text)
    requires blockSize > 0 && |a| % blockSize == 0
    ensures Blocks(compress, blockSize, s, a + b) == Blocks(compress, blockSize, Blocks(compress, blockSize, s, a), b)
    decreases |a|
  {
    if |a| < blockSize {
      DivModUnique(|a|, blockSize, 0, |a|);
      assert a + b == b;
    } else {
      var first, more := a[..blockSize], a[blockSize..];
      assert (a + b)[..blockSize] == first && (a + b)[blockSize..] == more + b;
      LessModulus(|a|, blockSize);
      BlocksConcat(compress, blockSize, compress(s, first), more, b);
    }
  }

  lemma LessModulus(n: nat, d: nat)
    requires d > 0 && n >= d
    ensures (n - d) % d == n % d
  {
    AddModulus(n - d, d);
  }

  /** A hasher that has taken in `msg`: its full blocks are in the state, the rest is pending. */
  ghost predicate Absorbed<S(!new)>(compress: (S, Text) -> S, blockSize: nat, init: S, msg: Text, s: S, pending: Text)
    requires blockSize > 0
  {
    && |pending| == |msg| % blockSize
    && var whole := |msg| - |pending|;
       msg[whole..] == pending && s == Blocks(compress, blockSize, init, msg[..whole])
  }

  lemma {:induction false} AbsorbNothing<S(!new)>(compress: (S, Text) -> S, blockSize: nat, init: S)
    requires blockSize > 0
    ensures Absorbed(compress, blockSize, init, [], init, [])
  {
    DivModUnique(0, blockSize, 0, 0);
  }

  /** Bytes that do not fill the block. */
  lemma {:induction false} AbsorbSome<S(!new)>(compress: (S, Text) -> S, blockSize: nat, init: S, msg: Text,
          s: S, pending: Text, data: Text)
    requires blockSize > 0 && Absorbed(compress, blockSize, init, msg, s, pending) && |pending| + |data| < blockSize
    ensures Absorbed(compress, blockSize, init, msg + data, s, pending + data)
  {
    var whole, q := |msg| - |pending|, |msg| / blockSize;
    DivModUnique(|msg + data|, blockSize, q, |pending| + |data|);
    assert (msg + data)[..whole] == msg[..whole] && (msg + data)[whole..] == msg[whole..] + data;
  }

  /** Bytes that fill the block up. */
  lemma {:induction false} AbsorbFull<S(!new)>(compress: (S, Text) -> S, blockSize: nat, init: S, msg: Text,
          s: S, pending: Text, data: Text)
    requires blockSize > 0 && Absorbed(compress, blockSize, init, msg, s, pending) && |pending| + |data| == blockSize
    ensures Absorbed(compress, blockSize, init, msg + data, compress(s, pending + data), [])
  {
    var whole, q := |msg| - |pending|, |msg| / blockSize;
    var block := pending + data;
    assert |msg| == q * blockSize + |pending|;
    DivModUnique(|msg + data|, blockSize, q + 1, 0);
    DivModUnique(whole, blockSize, q, 0);
    hide Blocks;
    assert msg + data == msg[..whole] + block && (msg + data)[..|msg + data|] == msg + data;
    BlocksConcat(compress, blockSize, init, msg[..whole], block);
    assert block[..blockSize] == block && block[blockSize..] == [];
  }

  // ---------------------------------------------------------------- padding

  function ZeroBytes(n: nat): (z: Text)
    ensures |z| == n && forall i | 0 <= i < n :: z[i] == 0
  {
    seq(n, i => 0)
  }

  /** A 64-bit length, most significant byte first. */
  function Be64(n: nat): (s: Text)
    ensures |s| == 8
  {
    [n / 0x100_0000_0000_0000 % 0x100, n / 0x1_0000_0000_0000 % 0x100, n / 0x100_0000_0000 % 0x100, n / 0x1_0000_0000 % 0x100,
     n / 0x100_0000 % 0x100, n / 0x1_0000 % 0x100, n / 0x100 % 0x100, n % 0x100]
  }

  /** The k of section 5.1 of FIPS 180-4: the zero bytes between the one bit and a length field of `tail` bytes. */
  function ZeroCount(len: nat, blockSize: nat, tail: nat): (k: nat)
    requires blockSize > 0
    ensures k < blockSize
  {
    (blockSize - (len + 1 + tail) % blockSize) % blockSize
  }

  /** It is the least number that completes a block. */
  lemma ZeroCountIs(len: nat, blockSize: nat, tail: nat, k: nat)
    requires blockSize > 0 && k < blockSize
    ensures (len + 1 + k + tail) % blockSize == 0 <==> k == ZeroCount(len, blockSize, tail)
  {
    var n := len + 1 + tail;
    var q, r := n / blockSize, n % blockSize;
    if r == 0 {
      DivModUnique(blockSize, blockSize, 1, 0);
      DivModUnique(n + k, blockSize, q, k);
    } else {
      DivModUnique(blockSize - r, blockSize, 0, blockSize - r);
      if k + r < blockSize {
        DivModUnique(n + k, blockSize, q, k + r);
      } else {
        DivModUnique(n + k, blockSize, q + 1, k + r - blockSize);
      }
    }
  }

  /** The number of bits of the message in a field of 8 or 16 bytes. */
  function LengthField(bits: nat, tail: nat): (s: Text)
    requires tail == 8 || tail == 16
    ensures |s| == tail
  {
    if tail == 8 then Be64(bits % TWO_TO_64) else Be64(bits / TWO_TO_64 % TWO_TO_64) + Be64(bits % TWO_TO_64)
  }

  /** The padded message of sections 5.1.1 (64-byte blocks, 8 bytes of length) and 5.1.2 (128 and 16) of
      FIPS 180-4; a message too long for the standard keeps the low part of its length. */
  function Padded(msg: Text, blockSize: nat, tail: nat): Text
    requires blockSize > 0 && (tail == 8 || tail == 16)
  {
    msg + [0x80] + ZeroBytes(ZeroCount(|msg|, blockSize, tail)) + LengthField(8 * |msg|, tail)
  }

  /** The number a string of bytes stands for, most significant byte first. */
  function BeValue(s: Text): nat {
    if s == [] then 0 else BeValue(s[..|s| - 1]) * 0x100 + s[|s| - 1]
  }

  lemma {:induction false} BeValueConcat(s: Text, t: Text)
    ensures BeValue(s + t) == BeValue(s) * Pow2(8 * |t|) + BeValue(t)
    decreases |t|
  {
    if t == [] {
      assert s + t == s;
    } else {
      var front := t[..|t| - 1];
      assert (s + t)[..|s + t| - 1] == s + front;
      BeValueConcat(s, front);
      Pow2Split(8 * |front|, 8);
      assert Pow2(8) == 0x100;
      MulAssoc(BeValue(s), Pow2(8 * |front|), 0x100);
    }
  }

  /** The top byte first, then the rest of the number. */
  lemma ByteAt(n: nat, d: nat, q: nat, r: nat)
    requires d > 0 && n == q * d + r && r < d
    ensures n / d % 0x100 == q % 0x100 && q == q / 0x100 * 0x100 + q % 0x100
  {
    DivModUnique(n, d, q, r);
  }

  lemma {:induction false} Be64Is(n: nat)
    requires n < TWO_TO_64
    ensures BeValue(Be64(n)) == n
  {
    var high: nat, low: nat := n / WORD_LIMIT, n % WORD_LIMIT;
    var s := Be64(n);
    Be32Of(high);
    Be32Of(low);
    Be64Halves(n, high, low);
    assert s == s[..4] + s[4..];
    BeValueConcat(s[..4], s[4..]);
    WordPowers();
  }

  function Be4(n: nat): (s: Text) {
    [n / 0x100_0000 % 0x100, n / 0x1_0000 % 0x100, n / 0x100 % 0x100, n % 0x100]
  }

  lemma {:induction false} Be32Of(n: nat)
    requires n < WORD_LIMIT
    ensures BeValue(Be4(n)) == n
  {
    var a: nat := n / 0x100;
    var b: nat := a / 0x100;
    var c: nat := b / 0x100;
    ByteAt(n, 0x1_0000, b, a % 0x100 * 0x100 + n % 0x100);
    ByteAt(n, 0x100_0000, c, b % 0x100 * 0x1_0000 + a % 0x100 * 0x100 + n % 0x100);
    FourBytes(c, b % 0x100, a % 0x100, n % 0x100);
  }

  lemma {:induction false} FourBytes(a: nat, b: nat, c: nat, d: nat)
    requires a < 0x100 && b < 0x100 && c < 0x100 && d < 0x100
    ensures BeValue([a, b, c, d]) == a * 0x100_0000 + b * 0x1_0000 + c * 0x100 + d
  {
    OneByteMore([], a);
    OneByteMore([a], b);
    OneByteMore([a, b], c);
    OneByteMore([a, b, c], d);
    assert [] + [a] == [a] && [a] + [b] == [a, b] && [a, b] + [c] == [a, b, c] && [a, b, c] + [d] == [a, b, c, d];
  }

  lemma {:induction false} OneByteMore(s: Text, b: Byte)
    ensures BeValue(s + [b]) == BeValue(s) * 0x100 + b
  {
    assert (s + [b])[..|s|] == s;
  }

  lemma Be64Halves(n: nat, high: nat, low: nat)
    requires n == high * WORD_LIMIT + low && low < WORD_LIMIT && high < WORD_LIMIT
    ensures Be64(n)[..4] == Be4(high) && Be64(n)[4..] == Be4(low)
  {
    var i: nat, j: nat, k: nat := high / 0x100, high / 0x1_0000, high / 0x100_0000;
    DivModUnique(n, 0x1_0000_0000, high, low);
    DivModUnique(n, 0x100_0000_0000, i, high % 0x100 * WORD_LIMIT + low);
    DivModUnique(n, 0x1_0000_0000_0000, j, high % 0x1_0000 * WORD_LIMIT + low);
    DivModUnique(n, 0x100_0000_0000_0000, k, high % 0x100_0000 * WORD_LIMIT + low);
    LowBytes(high, low);
  }

  lemma LowBytes(high: nat, low: nat)
    requires low < WORD_LIMIT
    ensures var n := high * WORD_LIMIT + low;
      && n % 0x100 == low % 0x100 && n / 0x100 % 0x100 == low / 0x100 % 0x100
      && n / 0x1_0000 % 0x100 == low / 0x1_0000 % 0x100 && n / 0x100_0000 % 0x100 == low / 0x100_0000 % 0x100
  {
    var n := high * WORD_LIMIT + low;
    ByteOf(n, 0x100, high * 0x100_0000 + low / 0x100, low % 0x100, high * 0x1_0000, low / 0x100);
    ByteOf(n, 0x1_0000, high * 0x1_0000 + low / 0x1_0000, low % 0x1_0000, high * 0x100, low / 0x1_0000);
    ByteOf(n, 0x100_0000, high * 0x100 + low / 0x100_0000, low % 0x100_0000, high, low / 0x100_0000);
    DivModUnique(n, 0x100, high * 0x100_0000 + low / 0x100, low % 0x100);
  }

  lemma ByteOf(n: nat, d: nat, q: nat, r: nat, high: nat, low: nat)
    requires d > 0 && n == q * d + r && r < d && q == high * 0x100 + low
    ensures n / d % 0x100 == low % 0x100
  {
    DivModUnique(n, d, q, r);
    DivModUnique(q, 0x100, high + low / 0x100, low % 0x100);
  }

  lemma {:induction false} LengthFieldIs(bits: nat, tail: nat)
    requires (tail == 8 && bits < TWO_TO_64) || (tail == 16 && bits < TWO_TO_64 * TWO_TO_64)
    ensures BeValue(LengthField(bits, tail)) == bits
  {
    hide Be64, BeValue;
    var high: nat, low: nat := bits / TWO_TO_64, bits % TWO_TO_64;
    Be64Is(low);
    DivModUnique(low, TWO_TO_64, 0, low);
    if tail == 8 {
      DivModUnique(bits, TWO_TO_64, 0, bits);
    } else {
      Be64Is(high);
      DivModUnique(high, TWO_TO_64, 0, high);
      TwoFields(Be64(high), Be64(low), high, low);
    }
  }

  lemma {:induction false} TwoFields(s: Text, t: Text, high: nat, low: nat)
    requires |t| == 8 && BeValue(s) == high && BeValue(t) == low
    ensures BeValue(s + t) == high * TWO_TO_64 + low
  {
    BeValueConcat(s, t);
    WordPowers();
    Pow2Split(32, 32);
  }

  /** What the standard asks of a padded message: whole blocks, the message, a one bit, zeros, and the length in bits;
      there is only one such text. */
  lemma {:induction false} PaddedIs(msg: Text, blockSize: nat, tail: nat)
    requires blockSize > 0
    requires (tail == 8 && 8 * |msg| < TWO_TO_64) || (tail == 16 && 8 * |msg| < TWO_TO_64 * TWO_TO_64)
    ensures var p := Padded(msg, blockSize, tail);
      && |p| % blockSize == 0 && |msg| + 1 + tail <= |p| < |msg| + 1 + tail + blockSize
      && p[..|msg|] == msg && p[|msg|] == 0x80 && (forall i | |msg| < i < |p| - tail :: p[i] == 0)
      && BeValue(p[|p| - tail..]) == 8 * |msg|
  {
    LastBlock(|msg|, blockSize, tail);
    LengthFieldIs(8 * |msg|, tail);
    var p := Padded(msg, blockSize, tail);
    assert p[|p| - tail..] == LengthField(8 * |msg|, tail);
  }

  /** What SHA2Builder hashes: room is made for 8 bytes of length; the wide variants then clear the 8 before. */
  function PaddedByCode(msg: Text, blockSize: nat, wide: bool): (p: Text)
    requires blockSize >= 16
  {
    var narrow := Padded(msg, blockSize, 8);
    LastBlock(|msg|, blockSize, 8);
    if wide then Patch(narrow, |narrow| - 16, ZeroBytes(8)) else narrow
  }

  lemma LastBlock(len: nat, blockSize: nat, tail: nat)
    requires blockSize > 0
    ensures var n := len + 1 + ZeroCount(len, blockSize, tail) + tail; n % blockSize == 0 && n >= blockSize
  {
    ZeroCountIs(len, blockSize, tail, ZeroCount(len, blockSize, tail));
    var n := len + 1 + ZeroCount(len, blockSize, tail) + tail;
    if n < blockSize { DivModUnique(n, blockSize, 0, n); }
  }

  // ---------------------------------------------------------------- the builders

  /** The part SHA2Builder and SHA3Builder share; `compress` stands for one block through the hash's own
      compression function or permutation. */
  class Builder<S(!new)> {
    const compress: (S, Text) -> S
    const blockSize: nat
    const init: S
    var state: S
    const buffer: array<Byte>
    var bufferSize: nat
    var totalLength: nat
    var finalized: bool

    ghost predicate Valid()
      reads this
    {
      blockSize > 0 && buffer.Length >= blockSize && bufferSize < blockSize
    }

    /** What was added so far is this message. */
    ghost predicate Holds(msg: Text)
      reads this, buffer
    {
      && Valid() && !finalized && totalLength == |msg| % TWO_TO_64
      && Absorbed(compress, blockSize, init, msg, state, buffer[..bufferSize])
    }

    /** The constructor, followed by begin. */
    constructor (compress: (S, Text) -> S, blockSize: nat, init: S)
      requires blockSize > 0
      ensures this.compress == compress && this.blockSize == blockSize && this.init == init && fresh(buffer)
      ensures Holds([])
    {
      this.compress, this.blockSize, this.init, state := compress, blockSize, init, init;
      buffer := new Byte[blockSize](i => 0);
      bufferSize, totalLength, finalized := 0, 0, false;
      AbsorbNothing(compress, blockSize, init);
    }

    /** add: the state afterwards is that of the longer message. */
    method Add(data: Text, ghost msg: Text)
      requires Holds(msg)
      modifies this`state, this`bufferSize, this`totalLength, buffer
      ensures Holds(msg + data)
    {
      if |data| == 0 {
        assert msg + data == msg;
        return;
      }
      TotalOf(|msg|, |data|);
      totalLength := (totalLength + |data|) % TWO_TO_64;
      // complete the block begun earlier
      var offset := 0;
      assert msg + data[..0] == msg;
      if bufferSize > 0 {
        offset := Min(|data|, blockSize - bufferSize);
        FillUp(data[..offset], msg);
      }
      offset := AddBlocks(data, offset, msg);
      // keep what is left for later
      if offset < |data| {
        RestPending(compress, blockSize, init, msg, data, offset, state, buffer[..bufferSize]);
        assert buffer[..0] == [];
        Store(0, data[offset..]);
      }
      assert data[..|data|] == data;
    }

    /** Blocks straight from the data, without the buffer. */
    method AddBlocks(data: Text, from: nat, ghost msg: Text) returns (offset: nat)
      requires Valid() && from <= |data| && (bufferSize == 0 || from == |data|)
      requires Absorbed(compress, blockSize, init, msg + data[..from], state, buffer[..bufferSize])
      modifies this`state
      ensures Valid() && from <= offset <= |data| && |data| - offset < blockSize && (bufferSize == 0 || offset == |data|)
      ensures Absorbed(compress, blockSize, init, msg + data[..offset], state, buffer[..bufferSize])
    {
      offset := from;
      ghost var pending := buffer[..bufferSize];
      while offset + blockSize <= |data|
        invariant from <= offset <= |data| && (bufferSize == 0 || offset == |data|)
        invariant Absorbed(compress, blockSize, init, msg + data[..offset], state, pending)
      {
        NextBlock(compress, blockSize, init, msg, data, offset, state);
        state := compress(state, data[offset..offset + blockSize]);
        offset := offset + blockSize;
      }
    }

    /** memcpy(buffer + at, data), and what is then pending */
    method Store(at: nat, data: Text)
      requires at + |data| <= buffer.Length
      modifies this`bufferSize, buffer
      ensures bufferSize == at + |data| && buffer[..bufferSize] == old(buffer[..at]) + data
    {
      forall i | 0 <= i < |data| { buffer[at + i] := data[i]; }
      bufferSize := at + |data|;
    }

    /** Completes the pending block as far as the data goes. */
    method FillUp(data: Text, ghost msg: Text)
      requires Valid() && Absorbed(compress, blockSize, init, msg, state, buffer[..bufferSize])
      requires bufferSize + |data| <= blockSize
      modifies this`state, this`bufferSize, buffer
      ensures Valid() && Absorbed(compress, blockSize, init, msg + data, state, buffer[..bufferSize])
      ensures bufferSize == if old(bufferSize) + |data| == blockSize then 0 else old(bufferSize) + |data|
    {
      if bufferSize + |data| < blockSize {
        AbsorbSome(compress, blockSize, init, msg, state, buffer[..bufferSize], data);
      } else {
        AbsorbFull(compress, blockSize, init, msg, state, buffer[..bufferSize], data);
      }
      Store(bufferSize, data);
      if bufferSize == blockSize {
        state := compress(state, buffer[..blockSize]);
        bufferSize := 0;
      }
    }

    // -------------------------------------------------------------- finishing

    /** SHA2Builder::pad up to the length: marks the end and makes room for eight bytes. */
    method Mark(ghost msg: Text) returns (ghost z: nat)
      requires Holds(msg) && blockSize > 8
      modifies this`state, this`bufferSize, buffer
      ensures blockSize <= buffer.Length && bufferSize + 8 == blockSize && z < blockSize
      ensures Loaded(compress, blockSize, init, Marked(msg, z), state, buffer[..bufferSize])
    {
      AbsorbedIsLoaded(compress, blockSize, init, msg, state, buffer[..bufferSize]);
      LoadMore(compress, blockSize, init, msg, state, buffer[..bufferSize], [0x80]);
      // the one bit that ends the message
      Store(bufferSize, [0x80]);
      assert Marked(msg, 0) == msg + [0x80];
      z := MakeRoom(msg);
      z := FillZeros(msg, z, blockSize - 8);
    }

    method AppendZero(ghost msg: Text, ghost z: nat)
      requires 0 < blockSize <= buffer.Length && bufferSize < blockSize
      requires Loaded(compress, blockSize, init, Marked(msg, z), state, buffer[..bufferSize])
      modifies this`bufferSize, buffer
      ensures bufferSize == old(bufferSize) + 1
      ensures Loaded(compress, blockSize, init, Marked(msg, z + 1), state, buffer[..bufferSize])
    {
      MarkMore(compress, blockSize, init, msg, z, state, buffer[..bufferSize]);
      Store(bufferSize, [0]);
    }

    /** Pad with zeros up to a size. */
    method FillZeros(ghost msg: Text, ghost z0: nat, size: nat) returns (ghost z: nat)
      requires bufferSize <= size <= blockSize <= buffer.Length && blockSize > 0
      requires Loaded(compress, blockSize, init, Marked(msg, z0), state, buffer[..bufferSize])
      modifies this`bufferSize, buffer
      ensures bufferSize == size && z == z0 + size - old(bufferSize)
      ensures Loaded(compress, blockSize, init, Marked(msg, z), state, buffer[..bufferSize])
    {
      z := z0;
      while bufferSize < size
        invariant bufferSize <= size && z == z0 + bufferSize - old(bufferSize)
        invariant Loaded(compress, blockSize, init, Marked(msg, z), state, buffer[..bufferSize])
        decreases size - bufferSize
      {
        AppendZero(msg, z);
        z := z + 1;
      }
    }

    /** Zeros until eight bytes of the block are left, in the next block if need be. */
    method MakeRoom(ghost msg: Text) returns (ghost z: nat)
      requires 8 < blockSize <= buffer.Length && 0 < bufferSize <= blockSize
      requires Loaded(compress, blockSize, init, Marked(msg, 0), state, buffer[..bufferSize])
      modifies this`state, this`bufferSize, buffer
      ensures bufferSize + 8 <= blockSize && z + blockSize - bufferSize < blockSize + 8
      ensures Loaded(compress, blockSize, init, Marked(msg, z), state, buffer[..bufferSize])
    {
      z := 0;
      while bufferSize + 8 > blockSize
        invariant bufferSize <= blockSize && z < 8 && z + blockSize - bufferSize < blockSize + 8
        invariant bufferSize + 8 > blockSize ==> z + blockSize - bufferSize < 8
        invariant Loaded(compress, blockSize, init, Marked(msg, z), state, buffer[..bufferSize])
        decreases if bufferSize == 0 then 0 else blockSize - bufferSize + 1
      {
        if bufferSize < blockSize {
          AppendZero(msg, z);
          z := z + 1;
        } else {
          // the block is full
          LoadFull(compress, blockSize, init, Marked(msg, z), state, buffer[..bufferSize]);
          state := compress(state, buffer[..bufferSize]);
          bufferSize := 0;
          assert buffer[..0] == [];
        }
      }
    }

    /** Adds the length in bits and processes the final block; `narrow` is the message padded so far, with its length. */
    method Finish(wide: bool, ghost narrow: Text)
      requires 16 <= blockSize <= buffer.Length && bufferSize + 8 == blockSize
      requires Loaded(compress, blockSize, init, narrow, state, buffer[..bufferSize] + Be64(totalLength * 8 % TWO_TO_64))
      modifies this, buffer
      ensures finalized && |narrow| >= 16
      ensures state == Blocks(compress, blockSize, init, if wide then Patch(narrow, |narrow| - 16, ZeroBytes(8)) else narrow)
    {
      var bits := totalLength * 8 % TWO_TO_64;
      Store(blockSize - 8, Be64(bits));
      ghost var msg := narrow;
      if wide {
        ClearUpper(narrow);
        msg := Patch(narrow, |narrow| - 16, ZeroBytes(8));
      }
      // the padded message ends with this block
      LoadFull(compress, blockSize, init, msg, state, buffer[..blockSize]);
      state := compress(state, buffer[..blockSize]);
      finalized := true;
    }

    /** Zeros for the high part of the wide length field. */
    method ClearUpper(ghost narrow: Text)
      requires 16 <= blockSize <= buffer.Length && Loaded(compress, blockSize, init, narrow, state, buffer[..blockSize])
      modifies buffer
      ensures |narrow| >= 16
      ensures Loaded(compress, blockSize, init, Patch(narrow, |narrow| - 16, ZeroBytes(8)), state, buffer[..blockSize])
    {
      PatchLoaded(compress, blockSize, init, narrow, state, buffer[..blockSize], blockSize - 16, ZeroBytes(8));
      ClearBytes(blockSize - 16, 8);
    }

    /** SHA2Builder::pad and the block that calculate processes: the whole of the padded message is in the state. */
    method Calculate(wide: bool, ghost msg: Text)
      requires Holds(msg) && blockSize >= 16
      modifies this, buffer
      ensures finalized && state == Blocks(compress, blockSize, init, PaddedByCode(msg, blockSize, wide))
    {
      MakeReady(msg);
      Finish(wide, Padded(msg, blockSize, 8));
    }

    /** All of the padded message but its length is taken in. */
    method MakeReady(ghost msg: Text)
      requires Holds(msg) && blockSize >= 16
      modifies this`state, this`bufferSize, buffer
      ensures blockSize <= buffer.Length && bufferSize + 8 == blockSize
      ensures Loaded(compress, blockSize, init, Padded(msg, blockSize, 8), state,
                     buffer[..bufferSize] + Be64(totalLength * 8 % TWO_TO_64))
    {
      ghost var z := Mark(msg);
      BitLength(|msg|);
      MarkedIsPadded(compress, blockSize, init, msg, z, state, buffer[..bufferSize]);
    }

    method ClearBytes(at: nat, n: nat)
      requires at + n <= blockSize <= buffer.Length
      modifies buffer
      ensures buffer[..blockSize] == Patch(old(buffer[..blockSize]), at, ZeroBytes(n))
    {
      forall i | 0 <= i < n { buffer[at + i] := 0; }
    }

    /** SHA3Builder::pad and the block that calculate processes. */
    method CalculateSponge(ghost msg: Text)
      requires Holds(msg)
      modifies this, buffer
      ensures finalized && state == Blocks(compress, blockSize, init, Padded3ByCode(msg, blockSize))
    {
      ghost var pending, q := buffer[..bufferSize], blockSize - bufferSize;
      ghost var end := ([0x06] + ZeroBytes(q - 1))[q - 1 := 0x80];
      AbsorbedIsLoaded(compress, blockSize, init, msg, state, pending);
      LoadMore(compress, blockSize, init, msg, state, pending, end);
      // zeros behind the pending bytes
      forall i | bufferSize <= i < blockSize { buffer[i] := 0; }
      // the suffix and first padding bit, then the last padding bit
      buffer[bufferSize] := 0x06;
      buffer[blockSize - 1] := 0x80;
      assert buffer[..blockSize] == pending + end;
      LoadFull(compress, blockSize, init, msg + end, state, pending + end);
      state := compress(state, buffer[..blockSize]);
      finalized := true;
    }
  }

  /** As Absorbed, but the pending block may be full. */
  ghost predicate Loaded<S(!new)>(compress: (S, Text) -> S, blockSize: nat, init: S, msg: Text, s: S, pending: Text)
    requires blockSize > 0
  {
    && |pending| <= blockSize && |pending| <= |msg|
    && var whole := |msg| - |pending|;
       whole % blockSize == 0 && msg[whole..] == pending && s == Blocks(compress, blockSize, init, msg[..whole])
  }

  lemma {:induction false} AbsorbedIsLoaded<S(!new)>(compress: (S, Text) -> S, blockSize: nat, init: S,
          msg: Text, s: S, pending: Text)
    requires blockSize > 0 && Absorbed(compress, blockSize, init, msg, s, pending)
    ensures Loaded(compress, blockSize, init, msg, s, pending)
  {
    DivModUnique(|msg| - |pending|, blockSize, |msg| / blockSize, 0);
  }

  lemma {:induction false} LoadMore<S(!new)>(compress: (S, Text) -> S, blockSize: nat, init: S, msg: Text, s: S,
          pending: Text, data: Text)
    requires blockSize > 0 && Loaded(compress, blockSize, init, msg, s, pending) && |pending| + |data| <= blockSize
    ensures Loaded(compress, blockSize, init, msg + data, s, pending + data)
  {
    var whole := |msg| - |pending|;
    assert (msg + data)[..whole] == msg[..whole] && (msg + data)[whole..] == msg[whole..] + data;
  }

  lemma {:induction false} LoadFull<S(!new)>(compress: (S, Text) -> S, blockSize: nat, init: S, msg: Text, s: S,
          pending: Text)
    requires blockSize > 0 && Loaded(compress, blockSize, init, msg, s, pending) && |pending| == blockSize
    ensures Loaded(compress, blockSize, init, msg, compress(s, pending), [])
    ensures compress(s, pending) == Blocks(compress, blockSize, init, msg)
  {
    var whole := |msg| - |pending|;
    assert msg == msg[..whole] + pending && msg[..|msg|] == msg && msg[|msg|..] == [];
    BlocksConcat(compress, blockSize, init, msg[..whole], pending);
    assert pending[..blockSize] == pending && pending[blockSize..] == [];
    AddModulus(whole, blockSize);
  }

  /** The message with its one bit and z zero bytes. */
  function Marked(msg: Text, z: nat): (t: Text)
    ensures |t| == |msg| + 1 + z
  {
    msg + [0x80] + ZeroBytes(z)
  }

  lemma {:induction false} MarkMore<S(!new)>(compress: (S, Text) -> S, blockSize: nat, init: S, msg: Text,
          z: nat, s: S, pending: Text)
    requires blockSize > 0 && Loaded(compress, blockSize, init, Marked(msg, z), s, pending) && |pending| < blockSize
    ensures Loaded(compress, blockSize, init, Marked(msg, z + 1), s, pending + [0])
  {
    LoadMore(compress, blockSize, init, Marked(msg, z), s, pending, [0]);
    assert ZeroBytes(z) + [0] == ZeroBytes(z + 1);
    assert Marked(msg, z) + [0] == Marked(msg, z + 1);
  }

  /** The marked message with its length, once eight bytes of the block are left. */
  lemma {:induction false} MarkedIsPadded<S(!new)>(compress: (S, Text) -> S, blockSize: nat, init: S, msg: Text,
          z: nat, s: S, pending: Text)
    requires blockSize > 8 && Loaded(compress, blockSize, init, Marked(msg, z), s, pending)
    requires |pending| + 8 == blockSize && z < blockSize
    ensures Loaded(compress, blockSize, init, Padded(msg, blockSize, 8), s, pending + Be64(8 * |msg| % TWO_TO_64))
  {
    var length := Be64(8 * |msg| % TWO_TO_64);
    AddModulus(|Marked(msg, z)| - |pending|, blockSize);
    ZeroCountIs(|msg|, blockSize, 8, z);
    LoadMore(compress, blockSize, init, Marked(msg, z), s, pending, length);
    assert Padded(msg, blockSize, 8) == Marked(msg, z) + length;
  }

  /** Patching the pending block patches the tail of the message. */
  lemma {:induction false} PatchLoaded<S(!new)>(compress: (S, Text) -> S, blockSize: nat, init: S, msg: Text,
          s: S, pending: Text, at: nat, data: Text)
    requires blockSize > 0 && Loaded(compress, blockSize, init, msg, s, pending) && at + |data| <= |pending|
    ensures Loaded(compress, blockSize, init, Patch(msg, |msg| - |pending| + at, data), s, Patch(pending, at, data))
  {
    var whole := |msg| - |pending|;
    var msg' := Patch(msg, whole + at, data);
    assert msg'[..whole] == msg[..whole];
    assert msg == msg[..whole] + pending;
    assert msg'[whole..] == Patch(pending, at, data);
  }

  lemma BitLength(n: nat)
    ensures n % TWO_TO_64 * 8 % TWO_TO_64 == 8 * n % TWO_TO_64
  {
    var q, r := n / TWO_TO_64, n % TWO_TO_64;
    var x := 8 * r;
    DivModUnique(8 * n, TWO_TO_64, 8 * q + x / TWO_TO_64, x % TWO_TO_64);
  }

  const TWO_TO_64: nat := 0x1_0000_0000_0000_0000

  lemma TotalOf(a: nat, b: nat)
    ensures (a % TWO_TO_64 + b) % TWO_TO_64 == (a + b) % TWO_TO_64
  {
    var q, r := a / TWO_TO_64, a % TWO_TO_64;
    var x := r + b;
    DivModUnique(a + b, TWO_TO_64, q + x / TWO_TO_64, x % TWO_TO_64);
  }

  lemma {:induction false} OneBlock<S(!new)>(compress: (S, Text) -> S, blockSize: nat, init: S, msg: Text, s: S,
          block: Text)
    requires blockSize > 0 && Absorbed(compress, blockSize, init, msg, s, []) && |block| == blockSize
    ensures Absorbed(compress, blockSize, init, msg + block, compress(s, block), [])
  {
    AbsorbFull(compress, blockSize, init, msg, s, [], block);
    assert [] + block == block;
  }

  lemma {:induction false} NextBlock<S(!new)>(compress: (S, Text) -> S, blockSize: nat, init: S, msg: Text,
          data: Text, offset: nat, s: S)
    requires blockSize > 0 && offset + blockSize <= |data|
    requires Absorbed(compress, blockSize, init, msg + data[..offset], s, [])
    ensures Absorbed(compress, blockSize, init, msg + data[..offset + blockSize], compress(s, data[offset..offset + blockSize]), [])
  {
    OneBlock(compress, blockSize, init, msg + data[..offset], s, data[offset..offset + blockSize]);
    assert msg + data[..offset] + data[offset..offset + blockSize] == msg + data[..offset + blockSize];
  }

  lemma {:induction false} RestPending<S(!new)>(compress: (S, Text) -> S, blockSize: nat, init: S, msg: Text,
          data: Text, offset: nat, s: S, p: Text)
    requires blockSize > 0 && offset <= |data| && |data| - offset < blockSize && p == []
    requires Absorbed(compress, blockSize, init, msg + data[..offset], s, p)
    ensures Absorbed(compress, blockSize, init, msg + data, s, p + data[offset..])
  {
    JoinedAgain(msg, data, offset);
    AbsorbSome(compress, blockSize, init, msg + data[..offset], s, p, data[offset..]);
  }

  lemma JoinedAgain(msg: Text, data: Text, offset: nat)
    requires offset <= |data|
    ensures msg + data[..offset] + data[offset..] == msg + data
  {
  }

  /** However a message is cut into pieces, adding them leaves the state and the pending bytes of the whole. */
  method AddAll<S(!new)>(b: Builder<S>, parts: seq<Text>)
    requires b.Holds([])
    modifies b, b.buffer
    ensures b.Holds(Concat(parts))
  {
    ghost var msg := [];
    for i := 0 to |parts|
      invariant msg == Concat(parts[..i]) && b.Holds(msg)
    {
      assert parts[..i + 1][..i] == parts[..i];
      b.Add(parts[i], msg);
      msg := msg + parts[i];
    }
    assert parts[..|parts|] == parts;
  }

  function Concat(parts: seq<Text>): Text {
    if parts == [] then [] else Concat(parts[..|parts| - 1]) + parts[|parts| - 1]
  }

  /** Two hashers that hold the same message are in the same state, with the same bytes pending. */
  lemma HoldsIsUnique<S(!new)>(compress: (S, Text) -> S, blockSize: nat, init: S, msg: Text, s: S, p: Text,
          s': S, p': Text)
    requires blockSize > 0
    requires Absorbed(compress, blockSize, init, msg, s, p) && Absorbed(compress, blockSize, init, msg, s', p')
    ensures s == s' && p == p'
  {
  }

  // ---------------------------------------------------------------- right and wrong padding

  lemma {:induction false} ZeroCountOf(r: nat, q: nat, blockSize: nat, tail: nat)
    requires tail < blockSize && r < blockSize
    ensures ZeroCount(q * blockSize + r, blockSize, tail) ==
            if r + 1 + tail <= blockSize then blockSize - r - 1 - tail else 2 * blockSize - r - 1 - tail
  {
    var k := if r + 1 + tail <= blockSize then blockSize - r - 1 - tail else 2 * blockSize - r - 1 - tail;
    var n := q * blockSize + r + 1 + k + tail;
    if r + 1 + tail <= blockSize {
      assert n == (q + 1) * blockSize;
      DivModUnique(n, blockSize, q + 1, 0);
    } else {
      assert n == (q + 2) * blockSize;
      DivModUnique(n, blockSize, q + 2, 0);
    }
    ZeroCountIs(q * blockSize + r, blockSize, tail, k);
  }

  /** The messages section 5.1.2 of FIPS 180-4 speaks of: less than 2^128 bits. */
  const WIDE_LIMIT: nat := 0x2000_0000_0000_0000_0000_0000_0000_0000

  /** SHA-384 and SHA-512 pad as the standard says just when the message does not end 112 to 119 bytes into a block
      and its length in bits fits in 64. */
  lemma {:induction false} WidePadding(msg: Text)
    requires |msg| < WIDE_LIMIT
    ensures PaddedByCode(msg, 128, true) == Padded(msg, 128, 16) <==>
            !(112 <= |msg| % 128 <= 119) && |msg| < 0x2000_0000_0000_0000
  {
    hide Be64, ZeroCount;
    var q, r := |msg| / 128, |msg| % 128;
    ZeroCountOf(r, q, 128, 8);
    ZeroCountOf(r, q, 128, 16);
    var k, k' := ZeroCount(|msg|, 128, 8), ZeroCount(|msg|, 128, 16);
    LastBlock(|msg|, 128, 8);
    if 112 <= r <= 119 {
      assert |PaddedByCode(msg, 128, true)| < |Padded(msg, 128, 16)|;
    } else {
      assert k == k' + 8;
      var high, low := Be64(8 * |msg| / TWO_TO_64 % TWO_TO_64), Be64(8 * |msg| % TWO_TO_64);
      HighPart(msg + [0x80], k', high, low);
      HighWord(|msg|);
    }
  }

  /** Clearing the eight bytes before the length is right just when they had to be zero. */
  lemma HighPart(front: Text, k: nat, high: Text, low: Text)
    requires |high| == |low| == 8
    ensures var narrow := front + ZeroBytes(k + 8) + low;
      Patch(narrow, |narrow| - 16, ZeroBytes(8)) == front + ZeroBytes(k) + (high + low) <==> high == ZeroBytes(8)
  {
    ClearedZeros(front, k, low);
    SameFront(front + ZeroBytes(k), ZeroBytes(8) + low, high + low);
    SameBack(ZeroBytes(8), high, low);
  }

  lemma SameFront(front: Text, a: Text, b: Text)
    ensures front + a == front + b <==> a == b
  {
    if front + a == front + b {
      assert a == (front + a)[|front|..] && b == (front + b)[|front|..];
    }
  }

  lemma SameBack(a: Text, b: Text, back: Text)
    requires |a| == |b|
    ensures a + back == b + back <==> a == b
  {
    if a + back == b + back {
      assert a == (a + back)[..|a|] && b == (b + back)[..|a|];
    }
  }

  /** The high part of the length is zero just for messages of less than 2^61 bytes. */
  lemma HighWord(n: nat)
    requires n < WIDE_LIMIT
    ensures Be64(8 * n / TWO_TO_64 % TWO_TO_64) == ZeroBytes(8) <==> n < 0x2000_0000_0000_0000
  {
    var high := 8 * n / TWO_TO_64;
    DivModUnique(high, TWO_TO_64, 0, high);
    ZeroBe64(high);
  }

  /** Only 0 has no byte set. */
  lemma ZeroBe64(n: nat)
    requires n < TWO_TO_64
    ensures Be64(n) == ZeroBytes(8) <==> n == 0
  {
    if Be64(n) == ZeroBytes(8) {
      assert forall i | 0 <= i < 8 :: Be64(n)[i] == 0;
      HighBytesZero(n / 0x1_0000_0000, n % 0x1_0000_0000, n);
    }
  }

  lemma HighBytesZero(high: nat, low: nat, n: nat)
    requires n == high * 0x1_0000_0000 + low && low < 0x1_0000_0000 && high < 0x1_0000_0000
    requires forall i | 0 <= i < 8 :: Be64(n)[i] == 0
    ensures n == 0
  {
    assert Be64(n)[7] == 0 && Be64(n)[6] == 0 && Be64(n)[5] == 0 && Be64(n)[4] == 0;
    assert Be64(n)[3] == 0 && Be64(n)[2] == 0 && Be64(n)[1] == 0 && Be64(n)[0] == 0;
    assert n / 0x100 == n / 0x1_0000 * 0x100;
    assert n / 0x1_0000 == n / 0x100_0000 * 0x100;
    assert n / 0x100_0000 == n / 0x1_0000_0000 * 0x100;
    assert n / 0x1_0000_0000 == n / 0x100_0000_0000 * 0x100;
    assert n / 0x100_0000_0000 == n / 0x1_0000_0000_0000 * 0x100;
    assert n / 0x1_0000_0000_0000 == n / 0x100_0000_0000_0000 * 0x100;
  }

  lemma ClearedZeros(front: Text, k: nat, length: Text)
    requires |length| == 8
    ensures var narrow := front + ZeroBytes(k + 8) + length;
      Patch(narrow, |narrow| - 16, ZeroBytes(8)) == front + ZeroBytes(k) + (ZeroBytes(8) + length)
  {
  }

  /** SHA-3: the message followed by 01 and pad10*1, in bytes (FIPS 202, sections 6.1 and 5.1). */
  function Padded3(msg: Text, rate: nat): Text
    requires rate > 0
  {
    var q := rate - |msg| % rate;
    if q == 1 then msg + [0x86] else msg + [0x06] + ZeroBytes(q - 2) + [0x80]
  }

  /** The number a string of bytes stands for, least significant byte first: its bits in the order of FIPS 202. */
  function LeValue(s: Text): nat {
    if s == [] then 0 else s[0] + 0x100 * LeValue(s[1..])
  }

  /** What is put behind the message are the bits 01, then a one, zeros and a last one, up to a whole block. */
  lemma {:induction false} Padded3Is(msg: Text, rate: nat)
    requires rate > 0
    ensures var p := Padded3(msg, rate);
      && |p| % rate == 0 && |msg| < |p| <= |msg| + rate && p[..|msg|] == msg
      && LeValue(p[|msg|..]) == 2 + 4 + Pow2(8 * (|p| - |msg|) - 1)
  {
    var p, q := Padded3(msg, rate), rate - |msg| % rate;
    DivModUnique(|msg| + q, rate, |msg| / rate + 1, 0);
    assert Pow2(7) == 0x80;
    if q == 1 {
      assert p[|msg|..] == [0x86] && p[|msg|..][1..] == [];
    } else {
      var end := ZeroBytes(q - 2) + [0x80];
      assert p[|msg|..] == [0x06] + end && ([0x06] + end)[1..] == end;
      ZerosThen(q - 2);
      Pow2Split(8, 8 * (q - 1) - 1);
      assert Pow2(8) == 0x100;
    }
  }

  lemma {:induction false} ZerosThen(n: nat)
    ensures LeValue(ZeroBytes(n) + [0x80]) == Pow2(8 * (n + 1) - 1)
  {
    var s := ZeroBytes(n) + [0x80];
    if n == 0 {
      assert s == [0x80] && s[1..] == [];
      assert Pow2(7) == 0x80;
    } else {
      assert s[1..] == ZeroBytes(n - 1) + [0x80];
      ZerosThen(n - 1);
      Pow2Split(8, 8 * n - 1);
      assert Pow2(8) == 0x100;
    }
  }

  /** What SHA3Builder::pad leaves: where the two marks meet, the second one overwrites the first. */
  function Padded3ByCode(msg: Text, rate: nat): Text
    requires rate > 0
  {
    var q := rate - |msg| % rate;
    msg + (([0x06] + ZeroBytes(q - 1))[q - 1 := 0x80])
  }

  /** SHA-3 pads as the standard says just when more than one byte of the rate is free. */
  lemma SpongePadding(msg: Text, rate: nat)
    requires rate > 0
    ensures Padded3ByCode(msg, rate) == Padded3(msg, rate) <==> |msg| % rate != rate - 1
  {
    var q := rate - |msg| % rate;
    var end := ([0x06] + ZeroBytes(q - 1))[q - 1 := 0x80];
    if q == 1 {
      assert Padded3ByCode(msg, rate)[|msg|] == 0x80 && Padded3(msg, rate)[|msg|] == 0x86;
    } else {
      assert end == [0x06] + ZeroBytes(q - 2) + [0x80];
    }
  }
}
