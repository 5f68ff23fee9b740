/** SHA1Builder: eighty rounds over a circular schedule of sixteen words and five variables that swap roles
    instead of values, against the block computation of section 6.1.2 of FIPS 180-4. */
module Sha1 {
  import opened Bits
  import opened Words
  import opened HashStream
  import opened WordBits

  // ---------------------------------------------------------------- words

  /** Operations on 32-bit words; rot1, rot5 and rot30 rotate left. */
  datatype Alu<!W(!new)> = Alu(add: (W, W) -> W, xor: (W, W) -> W, and: (W, W) -> W, or: (W, W) -> W, not: W -> W,
                        rot1: W -> W, rot5: W -> W, rot30: W -> W, load: (Byte, Byte, Byte, Byte) -> W) {
    /** The facts about words that the source's shortcuts rest on. */
    ghost predicate Lawful() {
      && (forall x, y, z {:trigger xor(z, and(x, xor(y, z)))} ::
            xor(z, and(x, xor(y, z))) == Ch(x, y, z))
      && (forall x, y, z {:trigger or(and(x, y), and(z, or(x, y)))} ::
            or(and(x, y), and(z, or(x, y))) == Maj(x, y, z))
      && (forall s, f, k, w, e {:trigger add(e, add(add(add(s, f), k), w))} ::
            add(e, add(add(add(s, f), k), w)) == add(add(add(add(s, f), e), k), w))
    }

    /** Section 4.1.1 of FIPS 180-4 */
    function Ch(x: W, y: W, z: W): W {
      xor(and(x, y), and(not(x), z))
    }

    function Parity(x: W, y: W, z: W): W {
      xor(xor(x, y), z)
    }

    function Maj(x: W, y: W, z: W): W {
      xor(xor(and(x, y), and(x, z)), and(y, z))
    }

    function F(t: nat, x: W, y: W, z: W): W {
      if t < 20 then Ch(x, y, z) else if t < 40 then Parity(x, y, z) else if t < 60 then Maj(x, y, z) else Parity(x, y, z)
    }

    /** Section 4.2.1 of FIPS 180-4 */
    function K(t: nat): W {
      if t < 20 then load(0x5A, 0x82, 0x79, 0x99) else if t < 40 then load(0x6E, 0xD9, 0xEB, 0xA1)
      else if t < 60 then load(0x8F, 0x1B, 0xBC, 0xDC) else load(0xCA, 0x62, 0xC1, 0xD6)
    }

    /** sha1_F as the source writes it */
    function SourceF(t: nat, x: W, y: W, z: W): W {
      if t < 20 then xor(z, and(x, xor(y, z))) else if t < 40 then Parity(x, y, z)
      else if t < 60 then or(and(x, y), and(z, or(x, y))) else Parity(x, y, z)
    }
  }

  // ---------------------------------------------------------------- the standard

  /** The message schedule of section 6.1.2, word by word. */
  function Schedule<W(!new)>(alu: Alu<W>, m: seq<W>, t: nat): W
    requires |m| == 16
  {
    if t < 16 then m[t]
    else
      alu.rot1(alu.xor(alu.xor(alu.xor(Schedule(alu, m, t - 3), Schedule(alu, m, t - 8)),
                               Schedule(alu, m, t - 14)), Schedule(alu, m, t - 16)))
  }

  const ROUNDS: nat := 80

  datatype Vars<W> = Vars(a: W, b: W, c: W, d: W, e: W)

  function Round<W(!new)>(alu: Alu<W>, t: nat, w: W, v: Vars<W>): Vars<W> {
    var temp := alu.add(alu.add(alu.add(alu.add(alu.rot5(v.a), alu.F(t, v.b, v.c, v.d)), v.e), alu.K(t)), w);
    Vars(temp, v.a, alu.rot30(v.b), v.c, v.d)
  }

  /** The first t rounds, each with its number. */
  function Rounds<V>(round: (nat, V) -> V, v: V, t: nat): V {
    if t == 0 then v else round(t - 1, Rounds(round, v, t - 1))
  }

  function RoundOf<W(!new)>(alu: Alu<W>, schedule: nat -> W): (nat, Vars<W>) -> Vars<W> {
    (t: nat, v: Vars<W>) => Round(alu, t, schedule(t), v)
  }

  /** The standard's schedule as a function of the round. */
  function ScheduleOf<W(!new)>(alu: Alu<W>, m: seq<W>): nat -> W
    requires |m| == 16
  {
    (t: nat) => Schedule(alu, m, t)
  }

  function LoadBlock<W(!new)>(alu: Alu<W>, b: Text): (m: seq<W>)
    requires |b| == 64
    ensures |m| == 16
  {
    seq(16, i requires 0 <= i < 16 => alu.load(b[4 * i], b[4 * i + 1], b[4 * i + 2], b[4 * i + 3]))
  }

  /** One block, as in section 6.1.2. */
  function Compress<W(!new)>(alu: Alu<W>, h: Vars<W>, b: Text): Vars<W>
    requires |b| == 64
  {
    var v := Rounds(RoundOf(alu, ScheduleOf(alu, LoadBlock(alu, b))), h, ROUNDS);
    Vars(alu.add(h.a, v.a), alu.add(h.b, v.b), alu.add(h.c, v.c), alu.add(h.d, v.d), alu.add(h.e, v.e))
  }

  // ---------------------------------------------------------------- the source's rounds

  /** sha1_P: what becomes of e and b is what a round puts into a and c. */
  method P<W(!new)>(alu: Alu<W>, t: nat, a: W, b: W, c: W, d: W, e: W, x: W) returns (e': W, b': W)
    requires alu.Lawful()
    ensures Vars(e', a, b', c, d) == Round(alu, t, x, Vars(a, b, c, d, e))
  {
    e' := alu.add(e, alu.add(alu.add(alu.add(alu.rot5(a), alu.SourceF(t, b, c, d)), alu.K(t)), x));
    b' := alu.rot30(b);
  }

  function Slot(j: nat): nat {
    j % 16
  }

  /** The circular buffer holds the sixteen schedule words before t, or the first sixteen. */
  ghost predicate Window<W(!new)>(schedule: nat -> W, w: seq<W>, t: nat) {
    |w| == 16 && forall j: nat | Max(0, t - 16) <= j < Max(16, t) :: w[Slot(j)] == schedule(j)
  }

  function Recurrence<W(!new)>(alu: Alu<W>, schedule: nat -> W, t: nat): W
    requires t >= 16
  {
    alu.rot1(alu.xor(alu.xor(alu.xor(schedule(t - 3), schedule(t - 8)), schedule(t - 14)), schedule(t - 16)))
  }

  /** sha1_R, or simply the next word in the first sixteen rounds. */
  method NextWord<W(!new)>(alu: Alu<W>, w: array<W>, t: nat, ghost schedule: nat -> W) returns (x: W)
    requires w.Length == 16 && Window(schedule, w[..], t)
    requires t >= 16 ==> schedule(t) == Recurrence(alu, schedule, t)
    modifies w
    ensures x == schedule(t) && Window(schedule, w[..], t + 1)
  {
    if t < 16 {
      assert Slot(t) == t;
      x := w[t];
    } else {
      Slots(t);
      ghost var was := w[..];
      var temp := alu.xor(alu.xor(alu.xor(w[Slot(t - 3)], w[Slot(t - 8)]), w[Slot(t - 14)]), w[Slot(t)]);
      w[Slot(t)] := alu.rot1(temp);
      x := w[Slot(t)];
      WindowSlides(schedule, was, w[..], t);
    }
  }

  /** Sixteen words on, a word has its predecessor's slot, and no other before it has. */
  lemma Slots(t: nat)
    requires t >= 16
    ensures Slot(t - 16) == Slot(t) && forall j: nat | t - 16 < j < t :: Slot(j) != Slot(t)
  {
  }

  lemma WindowSlides<W(!new)>(schedule: nat -> W, was: seq<W>, w: seq<W>, t: nat)
    requires t >= 16 && Window(schedule, was, t) && w == was[Slot(t) := schedule(t)]
    ensures Window(schedule, w, t + 1)
  {
    Slots(t);
  }

  /** Words from the sixteenth on follow the recurrence of section 6.1.2. */
  ghost predicate Recurs<W(!new)>(alu: Alu<W>, schedule: nat -> W) {
    forall t: nat {:trigger Recurrence(alu, schedule, t)} | t >= 16 :: schedule(t) == Recurrence(alu, schedule, t)
  }

  lemma {:induction false} ScheduleRecurs<W(!new)>(alu: Alu<W>, m: seq<W>)
    requires |m| == 16
    ensures Recurs(alu, ScheduleOf(alu, m))
  {
  }

  /** `round` is the standard's, with the words of this schedule. */
  ghost predicate Plays<W(!new)>(alu: Alu<W>, schedule: nat -> W, round: (nat, Vars<W>) -> Vars<W>) {
    forall t: nat, v {:trigger Round(alu, t, schedule(t), v)} :: round(t, v) == Round(alu, t, schedule(t), v)
  }

  lemma {:induction false} RoundsNext<V>(round: (nat, V) -> V, h: V, t: nat)
    ensures Rounds(round, h, t + 1) == round(t, Rounds(round, h, t))
  {
  }

  /** One round: the new values, for the roles one step on. */
  method OneRound<W(!new)>(alu: Alu<W>, w: array<W>, t: nat, a: W, b: W, c: W, d: W, e: W,
          ghost schedule: nat -> W, ghost round: (nat, Vars<W>) -> Vars<W>, ghost h: Vars<W>)
      returns (e': W, b': W)
    requires alu.Lawful() && Recurs(alu, schedule) && Plays(alu, schedule, round)
    requires w.Length == 16 && Window(schedule, w[..], t) && Vars(a, b, c, d, e) == Rounds(round, h, t)
    modifies w
    ensures Window(schedule, w[..], t + 1) && Vars(e', a, b', c, d) == Rounds(round, h, t + 1)
  {
    RoundsNext(round, h, t);
    assert t >= 16 ==> schedule(t) == Recurrence(alu, schedule, t);
    var x := NextWord(alu, w, t, schedule);
    e', b' := P(alu, t, a, b, c, d, e, x);
  }

  /** Five rounds bring every role back to its variable. */
  method FiveRounds<W(!new)>(alu: Alu<W>, w: array<W>, t: nat, v: Vars<W>,
          ghost schedule: nat -> W, ghost round: (nat, Vars<W>) -> Vars<W>, ghost h: Vars<W>)
      returns (v': Vars<W>)
    requires alu.Lawful() && Recurs(alu, schedule) && Plays(alu, schedule, round)
    requires w.Length == 16 && Window(schedule, w[..], t) && v == Rounds(round, h, t)
    modifies w
    ensures Window(schedule, w[..], t + 5) && v' == Rounds(round, h, t + 5)
  {
    var A, B, C, D, E := v.a, v.b, v.c, v.d, v.e;
    E, B := OneRound(alu, w, t, A, B, C, D, E, schedule, round, h);
    D, A := OneRound(alu, w, t + 1, E, A, B, C, D, schedule, round, h);
    C, E := OneRound(alu, w, t + 2, D, E, A, B, C, schedule, round, h);
    B, D := OneRound(alu, w, t + 3, C, D, E, A, B, schedule, round, h);
    A, C := OneRound(alu, w, t + 4, B, C, D, E, A, schedule, round, h);
    v' := Vars(A, B, C, D, E);
  }

  /** SHA1Builder::process: the sixteen groups of five sha1_P calls. */
  method Process<W(!new)>(alu: Alu<W>, state: Vars<W>, data: Text) returns (state': Vars<W>)
    requires alu.Lawful() && |data| == 64
    ensures state' == Compress(alu, state, data)
  {
    var w := LoadWords(alu, data);
    ghost var schedule := ScheduleOf(alu, LoadBlock(alu, data));
    ScheduleRecurs(alu, LoadBlock(alu, data));
    var v := AllRounds(alu, w, state, schedule, RoundOf(alu, schedule));
    state' := Vars(alu.add(state.a, v.a), alu.add(state.b, v.b), alu.add(state.c, v.c),
                   alu.add(state.d, v.d), alu.add(state.e, v.e));
  }

  method AllRounds<W(!new)>(alu: Alu<W>, w: array<W>, h: Vars<W>,
          ghost schedule: nat -> W, ghost round: (nat, Vars<W>) -> Vars<W>)
      returns (v: Vars<W>)
    requires alu.Lawful() && Recurs(alu, schedule) && Plays(alu, schedule, round)
    requires w.Length == 16 && Window(schedule, w[..], 0)
    modifies w
    ensures v == Rounds(round, h, ROUNDS)
  {
    v := h;
    var t := 0;
    while t < ROUNDS
      invariant t <= ROUNDS && t % 5 == 0
      invariant Window(schedule, w[..], t) && v == Rounds(round, h, t)
    {
      v := FiveRounds(alu, w, t, v, schedule, round, h);
      t := t + 5;
    }
  }

  method LoadWords<W(!new)>(alu: Alu<W>, data: Text) returns (w: array<W>)
    requires |data| == 64
    ensures fresh(w) && w.Length == 16 && Window(ScheduleOf(alu, LoadBlock(alu, data)), w[..], 0)
  {
    w := new W[16](i requires 0 <= i < 16 => alu.load(data[4 * i], data[4 * i + 1], data[4 * i + 2], data[4 * i + 3]));
    assert w[..] == LoadBlock(alu, data);
  }

  // ---------------------------------------------------------------- the machine's words

  /** GET_UINT32_BE */
  function LoadBe(a: Byte, b: Byte, c: Byte, d: Byte): Word32 {
    var h: int, i: int, j: int, k: int := a, b, c, d;
    h * 0x100_0000 + i * 0x1_0000 + j * 0x100 + k
  }

  const MACHINE: Alu<Word32> := Alu(
    Add32, Xor32, And32, Or32, Not32,
    x => RotateLeft(x, 2, 0x8000_0000), x => RotateLeft(x, 32, 0x800_0000), x => RotateLeft(x, 0x4000_0000, 4), LoadBe)

  /** They meet the laws, so the rounds are right for them. */
  lemma MachineIsLawful()
    ensures MACHINE.Lawful()
  {
    WordPowers();
    forall x: Word32, y: Word32, z: Word32
      ensures MACHINE.xor(z, MACHINE.and(x, MACHINE.xor(y, z))) == MACHINE.Ch(x, y, z)
    {
      ChoiceForm(x, y, z, 32);
    }
    forall x: Word32, y: Word32, z: Word32
      ensures MACHINE.or(MACHINE.and(x, y), MACHINE.and(z, MACHINE.or(x, y))) == MACHINE.Maj(x, y, z)
    {
      MajorityForm(x, y, z);
    }
    forall s: Word32, f: Word32, k: Word32, w: Word32, e: Word32
      ensures MACHINE.add(e, MACHINE.add(MACHINE.add(MACHINE.add(s, f), k), w)) ==
              MACHINE.add(MACHINE.add(MACHINE.add(MACHINE.add(s, f), e), k), w)
    {
      SumForm(s, f, k, w, e);
    }
  }

  // ---------------------------------------------------------------- and they are the standard's

  /** The two halves of a rotation do not overlap. */
  lemma RotateIs(a: Word32, k: nat)
    requires 0 < k < 32
    ensures RotateLeft(a, Pow2(k), Pow2(32 - k)) == a * Pow2(k) % WORD_LIMIT + a / Pow2(32 - k)
  {
    hide Pow2, Or;
    var p, q: nat := Pow2(k), Pow2(32 - k);
    var high, low: nat := a % q, a / q;
    WordPowers();
    Pow2Split(k, 32 - k);
    Halves(a, p, q, low, high);
    OrParts(high, low, k);
  }

  lemma Halves(a: Word32, p: nat, q: nat, low: nat, high: nat)
    requires p > 0 && q > 0 && p * q == WORD_LIMIT && a == low * q + high && high < q
    ensures a * p % WORD_LIMIT == high * p && low < p
  {
    assert a * p == low * (q * p) + high * p;
    assert high * p < q * p by { MulSign(q - high, p); assert (q - high) * p == q * p - high * p; }
    DivModUnique(a * p, WORD_LIMIT, low, high * p);
    if low >= p {
      MulSign(low - p + 1, q);
      assert low * q == (low - p) * q + p * q;
      if low > p { MulSign(low - p, q); }
    }
  }

  /** Section 3.2 of FIPS 180-4: rotations to the left by 1, 5 and 30 bits. */
  lemma RotationsAre(x: Word32)
    ensures MACHINE.rot1(x) == x * 2 % WORD_LIMIT + x / 0x8000_0000
    ensures MACHINE.rot5(x) == x * 32 % WORD_LIMIT + x / 0x800_0000
    ensures MACHINE.rot30(x) == x * 0x4000_0000 % WORD_LIMIT + x / 4
  {
    assert Pow2(1) == 2 && Pow2(2) == 4 && Pow2(5) == 32;
    WordPowers();
    assert Pow2(31) == 2 * Pow2(30);
    Pow2Split(27, 4);
    assert Pow2(4) == 16;
    RotateIs(x, 1);
    RotateIs(x, 5);
    RotateIs(x, 30);
  }

  /** Sums modulo 2^32, and the other operations bit by bit. */
  lemma OperationsAre(x: Word32, y: Word32, k: nat)
    requires k < 32
    ensures MACHINE.add(x, y) == (x + y) % WORD_LIMIT
    ensures HasBit(MACHINE.xor(x, y), k) <==> HasBit(x, k) != HasBit(y, k)
    ensures HasBit(MACHINE.and(x, y), k) <==> HasBit(x, k) && HasBit(y, k)
    ensures HasBit(MACHINE.or(x, y), k) <==> HasBit(x, k) || HasBit(y, k)
    ensures HasBit(MACHINE.not(x), k) <==> !HasBit(x, k)
  {
    hide Xor, And, Or, Not, HasBit;
    XorHasBit(x, y, k);
    AndBit(x, y, k);
    OrBit(x, y, k);
    NotBit(x, 32, k);
  }

  /** Section 4.1.1 of FIPS 180-4, bit by bit: x chooses between y and z, their parity, or what most of them have. */
  lemma FunctionsAre(t: nat, x: Word32, y: Word32, z: Word32, k: nat)
    requires t < 80 && k < 32
    ensures var p, q, r := HasBit(x, k), HasBit(y, k), HasBit(z, k);
      HasBit(MACHINE.F(t, x, y, z), k) <==>
      if t < 20 then if p then q else r
      else if 40 <= t < 60 then (p && q) || (p && r) || (q && r)
      else (p != q) != r
  {
    hide HasBit, Xor32, And32, Not32;
    var alu := MACHINE;
    if t < 20 {
      OperationsAre(alu.and(x, y), alu.and(alu.not(x), z), k);
      OperationsAre(x, y, k);
      OperationsAre(alu.not(x), z, k);
    } else if 40 <= t < 60 {
      OperationsAre(alu.xor(alu.and(x, y), alu.and(x, z)), alu.and(y, z), k);
      OperationsAre(alu.and(x, y), alu.and(x, z), k);
      OperationsAre(x, y, k);
      OperationsAre(x, z, k);
      OperationsAre(y, z, k);
    } else {
      OperationsAre(alu.xor(x, y), z, k);
      OperationsAre(x, y, k);
    }
  }

  /** One round in plain arithmetic. */
  lemma RoundIs(t: nat, w: Word32, v: Vars<Word32>)
    ensures var temp := v.a * 0x20 % WORD_LIMIT + v.a / 0x800_0000 + MACHINE.F(t, v.b, v.c, v.d) + v.e + MACHINE.K(t) + w;
      Round(MACHINE, t, w, v) ==
      Vars(temp % WORD_LIMIT, v.a, v.b * 0x4000_0000 % WORD_LIMIT + v.b / 4, v.c, v.d)
  {
    RotationsAre(v.a);
    RotationsAre(v.b);
    FiveSum(MACHINE.rot5(v.a), MACHINE.F(t, v.b, v.c, v.d), v.e, MACHINE.K(t), w);
  }

  lemma FiveSum(a: Word32, b: Word32, c: Word32, d: Word32, e: Word32)
    ensures Add32(Add32(Add32(Add32(a, b), c), d), e) == (a + b + c + d + e) % WORD_LIMIT
  {
    OneMoreSum(a + b, c);
    OneMoreSum(a + b + c, d);
    OneMoreSum(a + b + c + d, e);
  }

  lemma OneMoreSum(s: nat, e: Word32)
    ensures (s % WORD_LIMIT + e) % WORD_LIMIT == (s + e) % WORD_LIMIT
  {
    var q, r := s / WORD_LIMIT, s % WORD_LIMIT;
    DivModUnique(s + e, WORD_LIMIT, q + (r + e) / WORD_LIMIT, (r + e) % WORD_LIMIT);
  }

  /** The message schedule: the words of the block, most significant byte first, and then from each word 3, 8, 14
      and 16 back the next. */
  lemma ScheduleIs(b: Text, t: nat)
    requires |b| == 64
    ensures var m := LoadBlock(MACHINE, b);
      if t < 16 then Schedule(MACHINE, m, t) == BeValue(b[4 * t..4 * t + 4])
      else
        var x := Xor(Xor(Xor(Schedule(MACHINE, m, t - 3), Schedule(MACHINE, m, t - 8)), Schedule(MACHINE, m, t - 14)),
                     Schedule(MACHINE, m, t - 16));
        x < WORD_LIMIT && Schedule(MACHINE, m, t) == x * 2 % WORD_LIMIT + x / 0x8000_0000
  {
    var m := LoadBlock(MACHINE, b);
    if t < 16 {
      FourBytes(b[4 * t], b[4 * t + 1], b[4 * t + 2], b[4 * t + 3]);
      assert b[4 * t..4 * t + 4] == [b[4 * t], b[4 * t + 1], b[4 * t + 2], b[4 * t + 3]];
    } else {
      var x := MACHINE.xor(MACHINE.xor(MACHINE.xor(Schedule(MACHINE, m, t - 3), Schedule(MACHINE, m, t - 8)),
                                       Schedule(MACHINE, m, t - 14)), Schedule(MACHINE, m, t - 16));
      RotationsAre(x);
    }
  }

  /** The block function: eighty rounds, whose outcome is added to the state modulo 2^32. */
  lemma CompressIs(h: Vars<Word32>, b: Text)
    requires |b| == 64
    ensures var v, r := Rounds(RoundOf(MACHINE, ScheduleOf(MACHINE, LoadBlock(MACHINE, b))), h, 80), Block(MACHINE)(h, b);
      && r.a == (h.a + v.a) % WORD_LIMIT && r.b == (h.b + v.b) % WORD_LIMIT && r.c == (h.c + v.c) % WORD_LIMIT
      && r.d == (h.d + v.d) % WORD_LIMIT && r.e == (h.e + v.e) % WORD_LIMIT
  {
    hide Rounds, RoundOf, ScheduleOf, LoadBlock;
  }

  /** Words are loaded most significant byte first. */
  lemma LoadIs(a: Byte, b: Byte, c: Byte, d: Byte)
    ensures var w := MACHINE.load(a, b, c, d);
      w / 0x100_0000 == a && w / 0x1_0000 % 0x100 == b && w / 0x100 % 0x100 == c && w % 0x100 == d
  {
    var h: nat, i: nat, j: nat, k: nat := a, b, c, d;
    var w: nat := LoadBe(a, b, c, d);
    DivModUnique(w, 0x100, h * 0x1_0000 + i * 0x100 + j, k);
    DivModUnique(h * 0x1_0000 + i * 0x100 + j, 0x100, h * 0x100 + i, j);
    DivModUnique(w, 0x1_0000, h * 0x100 + i, j * 0x100 + k);
    DivModUnique(h * 0x100 + i, 0x100, h, i);
    DivModUnique(w, 0x100_0000, h, i * 0x1_0000 + j * 0x100 + k);
  }

  /** The constants of the rounds are the integral parts of 2^30 times the square roots of 2, 3, 5 and 10. */
  lemma ConstantsAreRoots(t: nat)
    requires t < ROUNDS
    ensures var n, k := if t < 20 then 2 else if t < 40 then 3 else if t < 60 then 5 else 10, MACHINE.K(t);
      k * k <= n * 0x1000_0000_0000_0000 < (k + 1) * (k + 1)
  {
  }

  /** The initial state, least significant byte first: 01, 23, 45 and so on up to ef, the same downwards, and f0, e1,
      d2, c3. */
  lemma InitialIs()
    ensures var h := Initial(MACHINE);
      && (forall i | 0 <= i < 4 :: ToLe32(h.a)[i] == 0x01 + 0x22 * i)
      && (forall i | 0 <= i < 4 :: ToLe32(h.b)[i] == 0x89 + 0x22 * i)
      && (forall i | 0 <= i < 4 :: ToLe32(h.c)[i] == 0xfe - 0x22 * i)
      && (forall i | 0 <= i < 4 :: ToLe32(h.d)[i] == 0x76 - 0x22 * i)
      && (forall i | 0 <= i < 4 :: ToLe32(h.e)[i] == 0xf0 - 0x0f * i)
  {
    LittleEnd(0x67, 0x45, 0x23, 0x01);
    LittleEnd(0xEF, 0xCD, 0xAB, 0x89);
    LittleEnd(0x98, 0xBA, 0xDC, 0xFE);
    LittleEnd(0x10, 0x32, 0x54, 0x76);
    LittleEnd(0xC3, 0xD2, 0xE1, 0xF0);
  }

  lemma LittleEnd(a: Byte, b: Byte, c: Byte, d: Byte)
    ensures ToLe32(LoadBe(a, b, c, d)) == [d, c, b, a]
  {
    LoadIs(a, b, c, d);
  }

  /** The block function, on texts of any length so that blocks can be folded over. */
  function Block<W(!new)>(alu: Alu<W>): (Vars<W>, Text) -> Vars<W> {
    (h, b) => if |b| == 64 then Compress(alu, h, b) else h
  }

  function Initial<W(!new)>(alu: Alu<W>): Vars<W> {
    Vars(alu.load(0x67, 0x45, 0x23, 0x01), alu.load(0xEF, 0xCD, 0xAB, 0x89), alu.load(0x98, 0xBA, 0xDC, 0xFE),
         alu.load(0x10, 0x32, 0x54, 0x76), alu.load(0xC3, 0xD2, 0xE1, 0xF0))
  }
}
