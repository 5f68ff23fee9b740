/** SHA1Builder around its block function: counting bytes in two words, filling the buffer, and padding. The state
    depends on the bytes added, not on how they came in, and in the end holds the whole padded message. */
module Sha1Stream {
  import opened Bits
  import opened Words
  import opened HashStream
  import opened Sha1
  import opened WordBits

  /** The builder; `compress` stands for process on the state and one block. */
  class SHA1Builder<S(!new)> {
    const compress: (S, Text) -> S
    const init: S
    var total0: nat
    var total1: nat
    var state: S
    const buffer: array<Byte>
    var finalized: bool

    ghost predicate Valid() {
      buffer.Length == 64
    }

    /** What was added so far is this message. */
    ghost predicate Holds(msg: Text)
      reads this, buffer
    {
      && Valid() && !finalized
      && total0 < WORD_LIMIT && total1 < WORD_LIMIT && total1 * WORD_LIMIT + total0 == |msg| % TWO_TO_64
      && Absorbed(compress, 64, init, msg, state, buffer[..|msg| % 64])
    }

    /** The constructor and begin. */
    constructor (compress: (S, Text) -> S, init: S)
      ensures this.compress == compress && this.init == init && fresh(buffer) && Holds([])
    {
      this.compress, this.init, state, total0, total1, finalized := compress, init, init, 0, 0, false;
      buffer := new Byte[64](i => 0);
      AbsorbNothing(compress, 64, init);
    }

    /** Counts len bytes in two 32-bit words, with the carry. */
    method Count(len: nat, ghost msg: Text)
      requires Holds(msg) && len < WORD_LIMIT
      modifies this`total0, this`total1
      ensures total0 < WORD_LIMIT && total1 < WORD_LIMIT
      ensures total1 * WORD_LIMIT + total0 == (|msg| + len) % TWO_TO_64
    {
      CountCarries(total0, total1, len);
      TotalOf(|msg|, len);
      total0 := (total0 + len) % WORD_LIMIT;
      if total0 < len {
        total1 := (total1 + 1) % WORD_LIMIT;
      }
    }

    /** SHA1Builder::add: the state afterwards is that of the longer message. */
    method Add(data: Text, ghost msg: Text)
      requires Holds(msg) && |data| < WORD_LIMIT
      modifies this`total0, this`total1, this`state, buffer
      ensures Holds(msg + data)
    {
      if |data| == 0 {
        assert msg + data == msg;
        return;
      }
      var left := total0 % 64;
      LowBits(total0, total1, |msg|);
      Count(|data|, msg);
      Absorb(left, data, msg);
    }

    method Absorb(left: nat, data: Text, ghost msg: Text)
      requires Valid() && left < 64
      requires Absorbed(compress, 64, init, msg, state, buffer[..left])
      modifies this`state, buffer
      ensures Absorbed(compress, 64, init, msg + data, state, buffer[..|msg + data| % 64])
    {
      if left > 0 && |data| >= 64 - left {
        FillUp(left, data[..64 - left], msg);
        assert buffer[..0] == [];
        AbsorbRest(data, 64 - left, 0, msg);
      } else {
        assert msg + data[..0] == msg;
        AbsorbRest(data, 0, left, msg);
      }
    }

    method AbsorbRest(data: Text, from: nat, left: nat, ghost msg: Text)
      requires Valid() && from <= |data| && left < 64 && (left == 0 || |data| - from < 64 - left)
      requires Absorbed(compress, 64, init, msg + data[..from], state, buffer[..left])
      modifies this`state, buffer
      ensures Absorbed(compress, 64, init, msg + data, state, buffer[..|msg + data| % 64])
    {
      var at := AddBlocks(data, from, left, msg);
      Rejoin(msg, data, at);
      Keep(left, data[at..], msg + data[..at]);
    }

    /** Completes the pending block and processes it. */
    method FillUp(left: nat, data: Text, ghost msg: Text)
      requires Valid() && left + |data| == 64
      requires Absorbed(compress, 64, init, msg, state, buffer[..left])
      modifies this`state, buffer
      ensures Absorbed(compress, 64, init, msg + data, state, [])
    {
      AbsorbFull(compress, 64, init, msg, state, buffer[..left], data);
      forall i | 0 <= i < |data| { buffer[left + i] := data[i]; }
      assert buffer[..] == old(buffer[..left]) + data;
      state := compress(state, buffer[..]);
    }

    /** Full blocks straight from the data. */
    method AddBlocks(data: Text, from: nat, left: nat, ghost msg: Text) returns (at: nat)
      requires Valid() && from <= |data| && left < 64 && (left == 0 || |data| - from < 64 - left)
      requires Absorbed(compress, 64, init, msg + data[..from], state, buffer[..left])
      modifies this`state
      ensures from <= at <= |data| && left + |data| - at < 64
      ensures Absorbed(compress, 64, init, msg + data[..at], state, buffer[..left])
    {
      at := from;
      ghost var pending := buffer[..left];
      while |data| - at >= 64
        invariant from <= at <= |data| && (left == 0 || |data| - at < 64 - left)
        invariant Absorbed(compress, 64, init, msg + data[..at], state, pending)
      {
        NextBlock(compress, 64, init, msg, data, at, state);
        state := compress(state, data[at..at + 64]);
        at := at + 64;
      }
    }

    /** Keeps the rest for later. */
    method Keep(left: nat, data: Text, ghost msg: Text)
      requires Valid() && left + |data| < 64
      requires Absorbed(compress, 64, init, msg, state, buffer[..left])
      modifies buffer
      ensures |msg + data| % 64 == left + |data|
      ensures Absorbed(compress, 64, init, msg + data, state, buffer[..left + |data|])
    {
      AbsorbSome(compress, 64, init, msg, state, buffer[..left], data);
      forall i | 0 <= i < |data| { buffer[left + i] := data[i]; }
      assert buffer[..left + |data|] == old(buffer[..left]) + data;
    }

    /** SHA1Builder::calculate: the state becomes the fold of the block function over the padded message. */
    method Calculate(ghost msg: Text)
      requires Holds(msg)
      modifies this, buffer
      ensures finalized && state == Blocks(compress, 64, init, Padded(msg, 64, 8))
    {
      var high := total0 / 0x2000_0000 + total1 * 8 % WORD_LIMIT;
      var low := total0 * 8 % WORD_LIMIT;
      var last := total0 % 64;
      var padn := if last < 56 then 56 - last else 120 - last;
      LowBits(total0, total1, |msg|);
      LengthWords(total0, total1, |msg|);
      PadCount(|msg|);
      AddPadding(padn, PutBe32(high) + PutBe32(low), msg);
      finalized := true;
    }

    /** The one bit with its zero bytes, then the length. */
    method AddPadding(padn: nat, length: Text, ghost msg: Text)
      requires Holds(msg) && 1 <= padn <= 64 && padn - 1 == ZeroCount(|msg|, 64, 8)
      requires length == Be64(8 * |msg| % TWO_TO_64)
      modifies this`total0, this`total1, this`state, buffer
      ensures state == Blocks(compress, 64, init, Padded(msg, 64, 8))
    {
      var pad := [0x80] + ZeroBytes(padn - 1);
      Add(pad, msg);
      Add(length, msg + pad);
      PaddingComplete(compress, init, msg, padn, length, state, buffer[..|msg + pad + length| % 64]);
    }
  }

  lemma Rejoin(msg: Text, data: Text, at: nat)
    requires at <= |data|
    ensures msg + data[..at] + data[at..] == msg + data
  {
  }

  /** PUT_UINT32_BE */
  function PutBe32(n: nat): (s: Text)
    ensures |s| == 4
  {
    [n / 0x100_0000 % 0x100, n / 0x1_0000 % 0x100, n / 0x100 % 0x100, n % 0x100]
  }

  /** The two words are the length in bits; the parts that `high` puts together do not overlap. */
  lemma LengthWords(total0: nat, total1: nat, n: nat)
    requires total0 < WORD_LIMIT && total1 < WORD_LIMIT && total1 * WORD_LIMIT + total0 == n % TWO_TO_64
    ensures var (high, low) := (total0 / 0x2000_0000 + total1 * 8 % WORD_LIMIT, total0 * 8 % WORD_LIMIT);
      && high < WORD_LIMIT && high * WORD_LIMIT + low == 8 * n % TWO_TO_64
      && PutBe32(high) + PutBe32(low) == Be64(8 * n % TWO_TO_64)
  {
    var high, low := total0 / 0x2000_0000 + total1 * 8 % WORD_LIMIT, total0 * 8 % WORD_LIMIT;
    EightTimes(total0, total1);
    BitLength(n);
    WordBytes(high, low);
  }

  /** Eight times a two-word number, modulo 2^64. */
  lemma EightTimes(total0: nat, total1: nat)
    requires total0 < WORD_LIMIT && total1 < WORD_LIMIT
    ensures var (high, low) := (total0 / 0x2000_0000 + total1 * 8 % WORD_LIMIT, total0 * 8 % WORD_LIMIT);
      high < WORD_LIMIT && high * WORD_LIMIT + low == (total1 * WORD_LIMIT + total0) * 8 % TWO_TO_64
  {
    var a, b := total0 / 0x2000_0000, total0 % 0x2000_0000;
    var c, d := total1 / 0x2000_0000, total1 % 0x2000_0000;
    DivModUnique(total0 * 8, WORD_LIMIT, a, 8 * b);
    DivModUnique(total1 * 8, WORD_LIMIT, c, 8 * d);
    DivModUnique((total1 * WORD_LIMIT + total0) * 8, TWO_TO_64, c, (a + 8 * d) * WORD_LIMIT + 8 * b);
  }

  lemma WordBytes(high: nat, low: nat)
    requires high < WORD_LIMIT && low < WORD_LIMIT
    ensures PutBe32(high) + PutBe32(low) == Be64(high * WORD_LIMIT + low)
  {
    HighBytes(high, low);
    LowBytes(high, low);
  }

  lemma HighBytes(high: nat, low: nat)
    requires high < WORD_LIMIT && low < WORD_LIMIT
    ensures Be64(high * WORD_LIMIT + low)[..4] == PutBe32(high)
  {
    var n := high * WORD_LIMIT + low;
    HighByte(high, low, 0x100_0000);
    HighByte(high, low, 0x1_0000);
    HighByte(high, low, 0x100);
    HighByte(high, low, 1);
  }

  lemma HighByte(high: nat, low: nat, m: nat)
    requires low < WORD_LIMIT && m > 0
    ensures m * WORD_LIMIT > 0 && (high * WORD_LIMIT + low) / (m * WORD_LIMIT) == high / m
  {
    var q, r := high / m, high % m;
    assert high * WORD_LIMIT + low == q * (m * WORD_LIMIT) + (r * WORD_LIMIT + low);
    DivModUnique(high * WORD_LIMIT + low, m * WORD_LIMIT, q, r * WORD_LIMIT + low);
  }

  lemma LowBytes(high: nat, low: nat)
    requires high < WORD_LIMIT && low < WORD_LIMIT
    ensures Be64(high * WORD_LIMIT + low)[4..] == PutBe32(low)
  {
    LowByte(high, low, 0x100_0000, 1);
    LowByte(high, low, 0x1_0000, 0x100);
    LowByte(high, low, 0x100, 0x1_0000);
    LowByte(high, low, 1, 0x100_0000);
  }

  lemma LowByte(high: nat, low: nat, m: nat, k: nat)
    requires m > 0 && m * (k * 0x100) == WORD_LIMIT
    ensures (high * WORD_LIMIT + low) / m % 0x100 == low / m % 0x100
  {
    var q, r := low / m, low % m;
    assert high * WORD_LIMIT + low == (high * (k * 0x100) + q) * m + r;
    DivModUnique(high * WORD_LIMIT + low, m, high * (k * 0x100) + q, r);
    DivModUnique(high * (k * 0x100) + q, 0x100, high * k + q / 0x100, q % 0x100);
  }

  lemma PadCount(n: nat)
    ensures var last := n % 64;
      var padn := if last < 56 then 56 - last else 120 - last;
      1 <= padn <= 64 && ZeroCount(n, 64, 8) == padn - 1
  {
    ZeroCountOf(n % 64, n / 64, 64, 8);
  }

  lemma PaddedIs(msg: Text, padn: nat, length: Text)
    requires padn >= 1 && padn - 1 == ZeroCount(|msg|, 64, 8) && length == Be64(8 * |msg| % TWO_TO_64)
    ensures msg + ([0x80] + ZeroBytes(padn - 1)) + length == Padded(msg, 64, 8)
  {
  }

  /** With the padding and the length added, nothing is left over. */
  lemma {:induction false} PaddingComplete<S(!new)>(compress: (S, Text) -> S, init: S, msg: Text, padn: nat,
          length: Text, s: S, pending: Text)
    requires padn >= 1 && padn - 1 == ZeroCount(|msg|, 64, 8) && length == Be64(8 * |msg| % TWO_TO_64)
    requires Absorbed(compress, 64, init, msg + ([0x80] + ZeroBytes(padn - 1)) + length, s, pending)
    ensures s == Blocks(compress, 64, init, Padded(msg, 64, 8))
  {
    var all := msg + ([0x80] + ZeroBytes(padn - 1)) + length;
    PaddedIs(msg, padn, length);
    LastBlock(|msg|, 64, 8);
    assert all[..|all|] == all;
  }

  /** The carry into the second word is right. */
  lemma CountCarries(total0: nat, total1: nat, len: nat)
    requires total0 < WORD_LIMIT && total1 < WORD_LIMIT && len < WORD_LIMIT
    ensures var low := (total0 + len) % WORD_LIMIT;
      var high := if low < len then (total1 + 1) % WORD_LIMIT else total1;
      high * WORD_LIMIT + low == (total1 * WORD_LIMIT + total0 + len) % TWO_TO_64
  {
    var n := total1 * WORD_LIMIT + total0 + len;
    if total0 + len < WORD_LIMIT {
      DivModUnique(total0 + len, WORD_LIMIT, 0, total0 + len);
      DivModUnique(n, TWO_TO_64, 0, n);
    } else {
      DivModUnique(total0 + len, WORD_LIMIT, 1, total0 + len - WORD_LIMIT);
      if total1 + 1 < WORD_LIMIT {
        DivModUnique(n, TWO_TO_64, 0, n);
      } else {
        DivModUnique(n, TWO_TO_64, 1, n - TWO_TO_64);
      }
    }
  }

  lemma LowBits(total0: nat, total1: nat, n: nat)
    requires total1 * WORD_LIMIT + total0 == n % TWO_TO_64
    ensures total0 % 64 == n % 64
  {
    var q, r := total0 / 64, total0 % 64;
    DivModUnique(n, 64, n / TWO_TO_64 * 0x400_0000_0000_0000 + total1 * 0x400_0000 + q, r);
  }

  /** However a message is cut into pieces, adding them leaves the builder holding the whole. */
  method AddAll<S(!new)>(builder: SHA1Builder<S>, parts: seq<Text>)
    requires builder.Holds([]) && forall i | 0 <= i < |parts| :: |parts[i]| < WORD_LIMIT
    modifies builder, builder.buffer
    ensures builder.Holds(Concat(parts))
  {
    for i := 0 to |parts|
      invariant builder.Holds(Concat(parts[..i]))
    {
      AddPart(builder, parts[i], parts[..i], parts[..i + 1]);
    }
    assert parts[..|parts|] == parts;
  }

  method AddPart<S(!new)>(builder: SHA1Builder<S>, part: Text, ghost before: seq<Text>, ghost after: seq<Text>)
    requires builder.Holds(Concat(before)) && |part| < WORD_LIMIT && after == before + [part]
    modifies builder, builder.buffer
    ensures builder.Holds(Concat(after))
  {
    assert after[..|after| - 1] == before;
    builder.Add(part, Concat(before));
  }

  /** The words of a state, most significant byte first. */
  function DigestOf(v: Vars<Word32>): (hash: Text)
    ensures |hash| == 20
  {
    PutBe32(v.a) + PutBe32(v.b) + PutBe32(v.c) + PutBe32(v.d) + PutBe32(v.e)
  }

  lemma Be32RoundTrip(n: Word32)
    ensures var s := PutBe32(n); LoadBe(s[0], s[1], s[2], s[3]) == n
  {
    var a: nat := n / 0x100;
    var b: nat := a / 0x100;
    DivModUnique(n, 0x1_0000, b, a % 0x100 * 0x100 + n % 0x100);
    DivModUnique(n, 0x100_0000, b / 0x100, b % 0x100 * 0x1_0000 + a % 0x100 * 0x100 + n % 0x100);
  }

  /** The digest loses nothing of the state: its words load back. */
  lemma DigestLoads(v: Vars<Word32>)
    ensures var s := DigestOf(v);
      v == Vars(LoadBe(s[0], s[1], s[2], s[3]), LoadBe(s[4], s[5], s[6], s[7]), LoadBe(s[8], s[9], s[10], s[11]),
                LoadBe(s[12], s[13], s[14], s[15]), LoadBe(s[16], s[17], s[18], s[19]))
  {
    Be32RoundTrip(v.a);
    Be32RoundTrip(v.b);
    Be32RoundTrip(v.c);
    Be32RoundTrip(v.d);
    Be32RoundTrip(v.e);
  }

  /** The words go out in order, */
  lemma DigestWords(v: Vars<Word32>)
    ensures var s := DigestOf(v);
      && s[..4] == PutBe32(v.a) && s[4..8] == PutBe32(v.b) && s[8..12] == PutBe32(v.c)
      && s[12..16] == PutBe32(v.d) && s[16..] == PutBe32(v.e)
  {
    hide PutBe32;
    var ab := PutBe32(v.a) + PutBe32(v.b);
    var abc := ab + PutBe32(v.c);
    var abcd := abc + PutBe32(v.d);
    assert DigestOf(v)[..16] == abcd && abcd[..12] == abc && abc[..8] == ab;
  }

  /** each most significant byte first. */
  lemma WordByte(n: Word32, j: nat)
    requires j < 4
    ensures PutBe32(n)[j] == n / Pow2(24 - 8 * j) % 0x100
  {
    assert Pow2(8) == 0x100 && Pow2(0) == 1;
    Pow2Split(8, 8);
    Pow2Split(16, 8);
  }

  /** PUT_UINT32_BE into hash[at..] */
  method PutWord(hash: array<Byte>, at: nat, n: Word32)
    requires at + 4 <= hash.Length
    modifies hash
    ensures hash[..] == Patch(old(hash[..]), at, PutBe32(n))
  {
    var bytes := PutBe32(n);
    hash[at], hash[at + 1], hash[at + 2], hash[at + 3] := bytes[0], bytes[1], bytes[2], bytes[3];
  }

  /** The end of SHA1Builder::calculate: the five words of the state go into the hash. */
  method WriteDigest(v: Vars<Word32>, hash: array<Byte>)
    requires hash.Length == 20
    modifies hash
    ensures hash[..] == DigestOf(v)
  {
    PutWord(hash, 0, v.a);
    PutWord(hash, 4, v.b);
    assert hash[..8] == PutBe32(v.a) + PutBe32(v.b);
    PutWord(hash, 8, v.c);
    assert hash[..12] == PutBe32(v.a) + PutBe32(v.b) + PutBe32(v.c);
    PutWord(hash, 12, v.d);
    assert hash[..16] == PutBe32(v.a) + PutBe32(v.b) + PutBe32(v.c) + PutBe32(v.d);
    PutWord(hash, 16, v.e);
  }

  /** SHA-1 of a message that arrives in pieces: the bytes of the fold of section 6.1.2 over the message padded as in
      section 5.1.1 of FIPS 180-4, for every way of cutting the message up. */
  method HashParts(parts: seq<Text>) returns (hash: array<Byte>)
    requires forall i | 0 <= i < |parts| :: |parts[i]| < WORD_LIMIT
    ensures fresh(hash)
    ensures hash[..] == DigestOf(Blocks(Block(MACHINE), 64, Initial(MACHINE), Padded(Concat(parts), 64, 8)))
  {
    var builder := new SHA1Builder<Vars<Word32>>(Block(MACHINE), Initial(MACHINE));
    AddAll(builder, parts);
    builder.Calculate(Concat(parts));
    hash := new Byte[20](i => 0);
    WriteDigest(builder.state, hash);
  }
}
