/** IPAddress: its printers and parsers, step by step as they run, against the text forms of AddressText. */
module IPAddresses {
  import opened Words
  import opened Wrappers
  import opened AddressText

  datatype IPType = IPv4 | IPv6

  function Field(h: int, l: int): int {
    h * 0x100 + l
  }

  /** The eight 16-bit fields of sixteen bytes. */
  function FieldsOf(b: seq<Byte>): (f: Fields)
    requires |b| == 16
    ensures forall i | 0 <= i < 8 :: f[i] == Field(b[2 * i], b[2 * i + 1])
  {
    seq(8, i requires 0 <= i < 8 => Field(b[2 * i], b[2 * i + 1]))
  }

  lemma FieldAt(b: seq<Byte>, f: nat)
    requires |b| == 16 && f < 8
    ensures FieldsOf(b)[f] == Field(b[f * 2], b[f * 2 + 1])
  {
  }

  /** Fields tell everything about the bytes. */
  lemma FieldsTellBytes(a: seq<Byte>, b: seq<Byte>)
    requires |a| == 16 && |b| == 16 && FieldsOf(a) == FieldsOf(b)
    ensures a == b
  {
    forall k | 0 <= k < 16 ensures a[k] == b[k] {
      var i := k / 2;
      SameBytes(a[2 * i], a[2 * i + 1], b[2 * i], b[2 * i + 1]);
    }
  }

  lemma SameBytes(h: Byte, l: Byte, h': Byte, l': Byte)
    requires Field(h, l) == Field(h', l')
    ensures h == h' && l == l'
  {
  }

  function OctetsOf(b: seq<Byte>): (o: Octets)
    requires |b| == 16
  {
    [b[12], b[13], b[14], b[15]]
  }

  // ---------------------------------------------------------------- what the printing loop writes

  /** Turn i of the loop. */
  function Piece(f: Fields, i: nat, start: int, len: nat): string
    requires i < 8
  {
    if i < start || i >= start + len then Hex(f[i]) + if i < 7 then ":" else ""
    else if i == start then if start == 0 then "::" else ":"
    else ""
  }

  function Pieces(f: Fields, k: nat, start: int, len: nat): string
    requires k <= 8
  {
    if k == 0 then "" else Pieces(f, k - 1, start, len) + Piece(f, k - 1, start, len)
  }

  lemma {:induction false} PiecesBefore(f: Fields, k: nat, start: int, len: nat)
    requires k <= 7 && (start < 0 || k <= start) && (start < 0 ==> start == -1 && len == 1)
    ensures Pieces(f, k, start, len) == Trailed(f[..k])
  {
    if k > 0 {
      PiecesBefore(f, k - 1, start, len);
      assert f[..k][..k - 1] == f[..k - 1];
    }
  }

  lemma {:induction false} PiecesWithin(f: Fields, k: nat, start: nat, len: nat)
    requires start < k <= start + len <= 8
    ensures Pieces(f, k, start, len) == Joined(f[..start]) + "::"
    decreases k
  {
    if k == start + 1 {
      if start > 0 {
        PiecesBefore(f, start, start, len);
        assert f[..start][..start - 1] == f[..start - 1];
      }
    } else {
      PiecesWithin(f, k - 1, start, len);
    }
  }

  lemma PieceBehind(f: Fields, i: nat, start: nat, len: nat)
    requires start + len <= i < 7
    ensures Piece(f, i, start, len) == Hex(f[i]) + ":"
  {
  }

  lemma {:induction false} PiecesBehind(f: Fields, k: nat, start: nat, len: nat, head: string)
    requires len > 0 && start + len <= k <= 7 && head == Pieces(f, start + len, start, len)
    ensures Pieces(f, k, start, len) == head + Trailed(f[start + len..k])
    decreases k
  {
    if k > start + len {
      hide Hex, Trailed, Piece;
      var front := Trailed(f[start + len..k - 1]);
      PiecesBehind(f, k - 1, start, len, head);
      PieceBehind(f, k - 1, start, len);
      SliceOneMore(f, start + len, k);
      TrailedOneMore(f[start + len..k], f[start + len..k - 1], f[k - 1]);
      ConcatAssoc(head, front, Hex(f[k - 1]) + ":");
    }
  }

  lemma ZeroField(b: seq<Byte>, f: nat)
    requires |b| == 16 && f < 8
    ensures b[f * 2] == 0 && b[f * 2 + 1] == 0 <==> FieldsOf(b)[f] == 0
  {
  }

  lemma TakeAll(f: Fields)
    ensures f[..8] == f
  {
  }

  lemma TakeMore<T>(s: seq<T>, k: nat)
    requires k < |s|
    ensures s[..k + 1] == s[..k] + [s[k]]
  {
  }

  lemma SliceOneMore(f: seq<nat>, a: nat, k: nat)
    requires a < k <= |f|
    ensures f[a..k] == f[a..k - 1] + [f[k - 1]]
    ensures k == |f| ==> f[a..] == f[a..k]
  {
  }

  lemma {:induction false} TrailedOneMore(f: seq<nat>, front: seq<nat>, v: nat)
    requires f == front + [v]
    ensures Trailed(f) == Trailed(front) + (Hex(v) + ":") && Joined(f) == Trailed(front) + Hex(v)
  {
    assert f[..|f| - 1] == front;
  }

  lemma ConcatAssoc(a: string, b: string, c: string)
    ensures (a + b) + c == a + (b + c)
  {
  }

  lemma {:induction false} PiecesAll(f: Fields, start: nat, len: nat)
    requires len > 0 && start + len <= 8
    ensures Pieces(f, 8, start, len) == Joined(f[..start]) + "::" + Joined(f[start + len..])
  {
    if start + len == 8 {
      PiecesWithin(f, 8, start, len);
    } else {
      PiecesWithin(f, start + len, start, len);
      PiecesLast(f, start, len, Joined(f[..start]) + "::");
    }
  }

  lemma {:induction false} PiecesLast(f: Fields, start: nat, len: nat, head: string)
    requires len > 0 && start + len <= 7 && head == Pieces(f, start + len, start, len)
    ensures Pieces(f, 8, start, len) == head + Joined(f[start + len..])
  {
    PiecesBehind(f, 7, start, len, head);
    SliceOneMore(f, start + len, 8);
    TrailedOneMore(f[start + len..], f[start + len..7], f[7]);
    ConcatAssoc(head, Trailed(f[start + len..7]), Hex(f[7]));
  }

  /** The loop writes the address with the given run as "::". */
  lemma {:induction false} PiecesAreShape(f: Fields, start: int, len: nat)
    requires LongestRun(f, start, len)
    ensures Pieces(f, 8, start, len) == Shape(f, start, len)
  {
    if start < 0 {
      PiecesBefore(f, 7, start, len);
      assert f[..|f| - 1] == f[..7];
    } else {
      PiecesAll(f, start, len);
    }
  }

  /** The longest run so far, and the zero run that ends with the last field, if any. */
  ghost predicate Tracks(f: seq<nat>, start: int, len: nat, currentStart: int, currentLength: nat) {
    && LongestRun(f, start, len) && -1 <= currentStart < |f|
    && (currentStart >= 0 ==> currentLength == |f| - currentStart)
    && var c: nat := if currentStart < 0 then |f| else currentStart;
       ZeroRun(f, c, |f| - c) && (c > 0 ==> f[c - 1] != 0)
  }

  lemma {:induction false} WrittenIsCanonical(f: Fields, start: int, len: nat, s: string)
    requires LongestRun(f, start, len) && s == Pieces(f, 8, start, len)
    ensures Canonical(f, s)
  {
    PiecesAreShape(f, start, len);
  }

  /** One more field: the run that ends with it takes over if it is longer. */
  lemma RunStep(f: seq<nat>, v: nat, start: int, len: nat, current: nat)
    requires LongestRun(f, start, len) && current <= |f| + 1
    requires ZeroRun(f + [v], current, |f| + 1 - current) && (current > 0 ==> (f + [v])[current - 1] != 0)
    ensures var t := |f| + 1 - current;
      if t > len then LongestRun(f + [v], current, t) else LongestRun(f + [v], start, len)
  {
    var g, t := f + [v], |f| + 1 - current;
    forall s: nat, n: nat | ZeroRun(g, s, n)
      ensures if s + n <= |f| then ZeroRun(f, s, n) else n <= t && s >= current
    {
      if current > 0 { RunHas(g, s, n, current - 1); }
      assert s + n <= |f| ==> forall i | s <= i < s + n :: f[i] == g[i];
    }
    if start >= 0 {
      assert forall i | start <= i < start + len :: g[i] == f[i];
    }
  }

  lemma RunHas(g: seq<nat>, s: nat, n: nat, i: nat)
    requires ZeroRun(g, s, n) && i < |g|
    ensures s <= i < s + n ==> g[i] == 0
  {
  }

  /** The hexadecimal digits of a field, without leading zeros. */
  lemma NibblesAreHex(h: Byte, l: Byte)
    ensures var (c1, c2, c3, c4) := (h / 16, h % 16, l / 16, l % 16);
      Hex(Field(h, l)) ==
        (if c1 > 0 then [HexDigit(c1)] else "") + (if c1 > 0 || c2 > 0 then [HexDigit(c2)] else "")
        + (if c1 > 0 || c2 > 0 || c3 > 0 then [HexDigit(c3)] else "") + [HexDigit(c4)]
  {
    var c1, c2, c3, c4 := h / 16, h % 16, l / 16, l % 16;
    var n: nat := h;
    HexStep(n * 0x10 + c3, c4);
    HexStep(n, c3);
    HexStep(c1, c2);
    assert Field(h, l) == (n * 0x10 + c3) * 16 + c4;
  }

  lemma HexStep(v: nat, d: nat)
    requires d < 16
    ensures Hex(v * 16 + d) == (if v == 0 then "" else Hex(v)) + [HexDigit(d)]
  {
    assert (v * 16 + d) / 16 == v && (v * 16 + d) % 16 == d;
  }

  // ---------------------------------------------------------------- the class

  class IPAddress {
    const bytes: array<Byte>
    var kind: IPType
    var zone: Byte

    ghost predicate Valid() {
      bytes.Length == 16
    }

    constructor (kind: IPType, address: seq<Byte>, zone: Byte)
      requires |address| == 16
      ensures Valid() && fresh(bytes) && bytes[..] == address && this.kind == kind && this.zone == zone
    {
      bytes := new Byte[16](i requires 0 <= i < 16 => address[i]);
      this.kind, this.zone := kind, zone;
    }

    /** The search for the longest run of zero fields that both printers begin with. */
    method FindRun() returns (start: int, len: nat)
      requires Valid()
      ensures LongestRun(FieldsOf(bytes[..]), start, len)
    {
      ghost var fields := FieldsOf(bytes[..]);
      start, len := -1, 1;
      var currentStart, currentLength := -1, 0;
      assert fields[..0] == [];
      for f := 0 to 8
        invariant Tracks(fields[..f], start, len, currentStart, currentLength)
      {
        var zero := bytes[f * 2] == 0 && bytes[f * 2 + 1] == 0;
        ZeroField(bytes[..], f);
        start, len, currentStart, currentLength :=
          NextField(zero, f, start, len, currentStart, currentLength, fields[..f], fields[f]);
        TakeMore(fields, f);
      }
      TakeAll(fields);
    }

    /** One turn of that search. */
    method NextField(zero: bool, f: nat, start: int, len: nat, currentStart: int, currentLength: nat,
                     ghost before: seq<nat>, ghost field: nat)
        returns (start': int, len': nat, currentStart': int, currentLength': nat)
      requires |before| == f && (zero <==> field == 0) && Tracks(before, start, len, currentStart, currentLength)
      ensures Tracks(before + [field], start', len', currentStart', currentLength')
    {
      start', len', currentStart', currentLength' := start, len, currentStart, currentLength;
      if zero {
        if currentStart == -1 {
          currentStart' := f;
          currentLength' := 1;
        } else {
          currentLength' := currentLength + 1;
        }
        RunStep(before, field, start, len, currentStart');
        if currentLength' > len {
          start' := currentStart';
          len' := currentLength';
        }
      } else {
        currentStart' := -1;
        RunStep(before, field, start, len, f + 1);
      }
    }

    /** One turn of the loop of both printers, given the digits of the field. */
    method Append(s: string, digits: string, f: nat, start: int, len: nat, ghost fields: Fields) returns (t: string)
      requires f < 8 && digits == Hex(fields[f])
      ensures t == s + Piece(fields, f, start, len)
    {
      t := s;
      if f < start || f >= start + len {
        t := t + digits;
        if f < 7 {
          t := t + ":";
        }
      } else if f == start {
        if start == 0 {
          t := t + ":";
        }
        t := t + ":";
      }
    }

    /** IPAddress::toString; the argument makes no difference. */
    method ToString(includeZone: bool) returns (s: string)
      requires Valid()
      ensures kind.IPv6? ==> Canonical(FieldsOf(bytes[..]), s)
      ensures kind.IPv4? ==> s == DottedText(OctetsOf(bytes[..]))
    {
      if kind.IPv4? {
        s := Dec(bytes[12]) + "." + Dec(bytes[13]) + "." + Dec(bytes[14]) + "." + Dec(bytes[15]);
      } else {
        ghost var fields := FieldsOf(bytes[..]);
        var start, len := FindRun();
        s := "";
        for f := 0 to 8
          invariant s == Pieces(fields, f, start, len)
        {
          s := Append(s, Hex(Field(bytes[f * 2], bytes[f * 2 + 1])), f, start, len, fields);
        }
        WrittenIsCanonical(fields, start, len, s);
      }
    }

    /** The four digits of a field as printTo writes them. */
    method PrintField(h: Byte, l: Byte) returns (s: string)
      ensures s == Hex(Field(h, l))
    {
      var c1, c2, c3, c4 := h / 16, h % 16, l / 16, l % 16;
      NibblesAreHex(h, l);
      s := "";
      if c1 > 0 {
        s := s + [HexDigit(c1)];
      }
      if c1 > 0 || c2 > 0 {
        s := s + [HexDigit(c2)];
      }
      if c1 > 0 || c2 > 0 || c3 > 0 {
        s := s + [HexDigit(c3)];
      }
      s := s + [HexDigit(c4)];
    }

    /** The fields as IPAddress::printTo prints them. */
    method PrintFields() returns (s: string)
      requires Valid()
      ensures Canonical(FieldsOf(bytes[..]), s)
    {
      hide Hex, Piece, Canonical, FieldsOf, LongestRun;
      ghost var fields := FieldsOf(bytes[..]);
      var start, len := FindRun();
      s := "";
      for f := 0 to 8
        invariant s == Pieces(fields, f, start, len)
      {
        FieldAt(bytes[..], f);
        var digits := PrintField(bytes[f * 2], bytes[f * 2 + 1]);
        s := Append(s, digits, f, start, len, fields);
      }
      WrittenIsCanonical(fields, start, len, s);
    }

    /** IPAddress::printTo, on a printer that keeps what it is given. */
    method PrintTo(includeZone: bool) returns (s: string, n: nat, ghost text: string)
      requires Valid()
      ensures n == |s|
      ensures kind.IPv4? ==> s == DottedText(OctetsOf(bytes[..]))
      // without a zone, the very text that ToString gives
      ensures kind.IPv6? ==> Canonical(FieldsOf(bytes[..]), text)
      ensures kind.IPv6? ==> s == if zone > 0 && includeZone then text + ZoneText(zone) else text
    {
      if kind.IPv6? {
        s := PrintFields();
        text := s;
        // zone 0 stands for no zone
        if zone > 0 && includeZone {
          s := s + ("%" + Dec(zone - 1));
        }
        return s, |s|, text;
      }
      s, text := "", "";
      for i := 0 to 3
        invariant s == if i == 0 then "" else if i == 1 then Dec(bytes[12]) + "."
                       else if i == 2 then Dec(bytes[12]) + "." + Dec(bytes[13]) + "."
                       else Dec(bytes[12]) + "." + Dec(bytes[13]) + "." + Dec(bytes[14]) + "."
      {
        s := s + Dec(bytes[12 + i]);
        s := s + ".";
      }
      s := s + Dec(bytes[15]);
      n := |s|;
    }

    // -------------------------------------------------------------- parsing

    method StoreField(f: nat, acc: nat)
      requires Valid() && f < 8 && acc < 0x1_0000
      modifies bytes
      ensures FieldsOf(bytes[..]) == FieldsOf(old(bytes[..]))[f := acc]
    {
      bytes[f * 2], bytes[f * 2 + 1] := acc / 0x100, acc % 0x100;
    }

    /** IPAddress::fromString4 */
    method FromString4(address: string) returns (ok: bool)
      requires Valid()
      modifies this`kind, bytes
      ensures ok <==> Parse4(address).Some?
      ensures ok ==> kind.IPv4? && OctetsOf(bytes[..]) == Parse4(address).value
      // even a text it refuses wipes the address
      ensures forall k | 0 <= k < 12 :: bytes[k] == 0
      ensures !ok ==> kind == old(kind)
    {
      forall k | 0 <= k < 16 { bytes[k] := 0; }
      var acc, dots, i := -1, 0, 0;
      while i < |address|
        invariant i <= |address| && -1 <= acc <= 255 && dots <= 3 && kind == old(kind)
        invariant forall k | 0 <= k < 12 :: bytes[k] == 0
        invariant Scan4(address[i..], Dotted(OctetsOf(bytes[..]), acc, dots)) == Scan4(address, Dotted([0, 0, 0, 0], -1, 0))
      {
        ghost var octets, rest := OctetsOf(bytes[..]), address[i..];
        assert rest[1..] == address[i + 1..];
        var c := address[i];
        i := i + 1;
        if IsDigit(c) {
          acc := if acc < 0 then HexValue(c) else acc * 10 + HexValue(c);
          if acc > 255 {
            // more than an octet holds
            return false;
          }
        } else if c == '.' {
          if dots == 3 {
            // a fourth dot
            return false;
          }
          if acc < 0 {
            // a dot with no digits before it
            return false;
          }
          bytes[12 + dots] := acc;
          assert OctetsOf(bytes[..]) == octets[dots := acc];
          dots := dots + 1;
          acc := -1;
        } else {
          // nothing else belongs in an address
          return false;
        }
      }
      if dots != 3 || acc < 0 {
        return false;
      }
      ghost var octets := OctetsOf(bytes[..]);
      bytes[12 + 3] := acc;
      assert OctetsOf(bytes[..]) == octets[3 := acc];
      kind := IPv4;
      ok := true;
    }

    /** The two loops at the end of fromString6: the fields behind the double colon move to the end, zeros between. */
    method MoveApart(gap: nat, n: nat)
      requires Valid() && gap <= n <= 7
      modifies bytes
      ensures FieldsOf(bytes[..]) ==
              var f := FieldsOf(old(bytes[..])); f[..gap] + Zeros(8 - n) + f[gap..n]
    {
      MoveUp(gap * 2, n * 2 - gap * 2, 16 - n * 2);
      Clear(gap * 2, 16 - n * 2);
      MovedApart(old(bytes[..]), bytes[..], gap, n);
    }

    /** Moves the last `count` bytes in use, which begin at `from`, up by `shift`; the highest go first. */
    method MoveUp(from: nat, count: nat, shift: nat)
      requires Valid() && from + count + shift == 16 && shift > 0
      modifies bytes
      ensures forall k | shift + from <= k < 16 :: bytes[k] == old(bytes[k - shift])
      ensures forall k | 0 <= k < shift + from :: bytes[k] == old(bytes[k])
    {
      var i := count;
      while i > 0
        invariant 0 <= i <= count
        invariant forall k | shift + from + i <= k < 16 :: bytes[k] == old(bytes[k - shift])
        invariant forall k | 0 <= k < shift + from + i :: bytes[k] == old(bytes[k])
      {
        i := i - 1;
        bytes[shift + from + i] := bytes[from + i];
      }
    }

    method Clear(from: nat, count: nat)
      requires Valid() && from + count <= 16
      modifies bytes
      ensures forall k | from <= k < from + count :: bytes[k] == 0
      ensures forall k | 0 <= k < 16 && !(from <= k < from + count) :: bytes[k] == old(bytes[k])
    {
      var i := from;
      while i < from + count
        invariant from <= i <= from + count
        invariant forall k | from <= k < i :: bytes[k] == 0
        invariant forall k | 0 <= k < 16 && !(from <= k < i) :: bytes[k] == old(bytes[k])
      {
        bytes[i] := 0;
        i := i + 1;
      }
    }

    /** One character of an IPv6 address, or the whole of its zone. */
    method ReadChar(address: string, i: nat, acc: nat, colons: nat, gap: int)
        returns (ok: bool, i': nat, acc': nat, colons': nat, gap': int)
      requires Valid() && i < |address| && acc <= 0xffff && colons <= 7 && -1 <= gap <= colons
      modifies this`zone, bytes
      ensures !ok ==> Scan6(address[i..], Scan(FieldsOf(old(bytes[..])), acc, colons, gap, old(zone))) == None
      ensures ok ==> i < i' <= |address| && acc' <= 0xffff && colons' <= 7 && -1 <= gap' <= colons'
      ensures ok ==> Scan6(address[i'..], Scan(FieldsOf(bytes[..]), acc', colons', gap', zone)) ==
                     Scan6(address[i..], Scan(FieldsOf(old(bytes[..])), acc, colons, gap, old(zone)))
    {
      ghost var rest := address[i..];
      assert rest[1..] == address[i + 1..] && (|rest| > 1 ==> rest[2..] == address[i + 2..]);
      ok, i', acc', colons', gap' := true, i + 1, acc, colons, gap;
      var c := Lower(address[i]);
      if IsHex(c) {
        acc' := acc * 16 + HexValue(c);
        // more than a field holds
        ok := acc' <= 0xffff;
      } else if c == ':' {
        ok, i', gap' := Separator(address, i + 1, acc, colons, gap);
        if !ok || colons == 7 {
          // misplaced, or one too many
          return false, i', acc, colons, gap';
        }
        StoreField(colons, acc);
        colons' := colons + 1;
        acc' := 0;
      } else if c == '%' {
        // what follows names the zone
        i' := SkipNonDigits(address, i + 1);
        zone := (Number(address[i'..], 0) + 1) % 0x100;
        i' := |address|;
      } else {
        // nothing else belongs in an address
        ok := false;
      }
    }

    /** IPAddress::fromString6. A text without a zone leaves the zone as it was. */
    method FromString6(address: string) returns (ok: bool)
      requires Valid()
      modifies this`kind, this`zone, bytes
      ensures ok <==> Parse6(address, FieldsOf(old(bytes[..])), old(zone)).Some?
      ensures ok ==> kind.IPv6?
                     && Parse6(address, FieldsOf(old(bytes[..])), old(zone)).value == Parsed(FieldsOf(bytes[..]), zone)
      ensures !ok ==> kind == old(kind)
    {
      var acc: nat, colons: nat, gap, i := 0, 0, -1, 0;
      ghost var start := Scan(FieldsOf(bytes[..]), 0, 0, -1, zone);
      while i < |address|
        invariant i <= |address| && acc <= 0xffff && colons <= 7 && -1 <= gap <= colons && kind == old(kind)
        invariant Scan6(address[i..], Scan(FieldsOf(bytes[..]), acc, colons, gap, zone)) == Scan6(address, start)
      {
        ok, i, acc, colons, gap := ReadChar(address, i, acc, colons, gap);
        if !ok {
          return;
        }
      }
      ok := Complete(acc, colons, gap);
      if ok {
        kind := IPv6;
      }
    }

    /** What follows a colon: a second one marks the place of the zeros, the end of the text is refused. */
    method Separator(address: string, i: nat, acc: nat, colons: nat, gap: int) returns (ok: bool, i': nat, gap': int)
      requires i <= |address|
      ensures var twice := i < |address| && address[i] == ':';
        && (ok <==> !(twice && (gap >= 0 || (i + 1 < |address| && address[i + 1] == ':'))) && i < |address|)
        && (ok ==> i' == (if twice then i + 1 else i) <= |address|)
        && (ok ==> gap' == if twice then colons + (if acc != 0 then 1 else 0) else gap)
    {
      ok, i', gap' := true, i, gap;
      if i < |address| && address[i] == ':' {
        // :: allowed once
        if gap >= 0 {
          return false, i, gap;
        }
        // ::: not allowed
        if i + 1 < |address| && address[i + 1] == ':' {
          return false, i, gap;
        }
        // remember location
        gap' := colons + if acc != 0 then 1 else 0;
        i' := i + 1;
      } else if i == |address| {
        // a lone colon at the end
        return false, i, gap;
      }
    }

    /** Anything before the first digit of the zone is passed over. */
    method SkipNonDigits(address: string, from: nat) returns (i: nat)
      requires from <= |address|
      ensures i <= |address| && address[i..] == SkipToDigit(address[from..])
    {
      i := from;
      while i < |address| && !IsDigit(address[i])
        invariant from <= i <= |address| && SkipToDigit(address[i..]) == SkipToDigit(address[from..])
      {
        assert address[i..][1..] == address[i + 1..];
        i := i + 1;
      }
    }

    /** The end of fromString6: counts the fields and puts them where they belong. */
    method Complete(acc: nat, colons: nat, gap: int) returns (ok: bool)
      requires Valid() && acc <= 0xffff && colons <= 7 && -1 <= gap <= colons
      modifies bytes
      ensures var r := Finish6(Scan(FieldsOf(old(bytes[..])), acc, colons, gap, zone));
        && (ok <==> r.Some?) && (ok ==> r.value == Parsed(FieldsOf(bytes[..]), zone))
    {
      if gap == -1 && colons != 7 {
        // without a double colon all eight fields have to be there
        return false;
      }
      if gap > -1 && colons > 6 {
        // a double colon that stands for no field
        return false;
      }
      StoreField(colons, acc);
      if gap != -1 {
        MoveApart(gap, colons + 1);
      }
      ok := true;
    }

    /** IPAddress::fromString */
    method FromString(address: string) returns (ok: bool)
      requires Valid()
      modifies this`kind, this`zone, bytes
      ensures ok && kind.IPv4? ==> Parse4(address) == Some(OctetsOf(bytes[..])) && forall k | 0 <= k < 12 :: bytes[k] == 0
      ensures Parse4(address).Some? ==> ok && kind.IPv4? && zone == old(zone)
      ensures Parse4(address).None? ==>
                var r := Parse6(address, NO_FIELDS, old(zone));
                (ok <==> r.Some?) && (ok ==> kind.IPv6? && r.value == Parsed(FieldsOf(bytes[..]), zone))
    {
      ok := FromString4(address);
      if !ok {
        ParseForgets(address, FieldsOf(bytes[..]), NO_FIELDS, zone);
        ok := FromString6(address);
      }
    }
  }

  lemma MovedApart(a: seq<Byte>, b: seq<Byte>, gap: nat, n: nat)
    requires |a| == 16 && |b| == 16 && gap <= n <= 7
    requires forall k | 0 <= k < 2 * gap :: b[k] == a[k]
    requires forall k | 2 * gap <= k < 16 - 2 * n + 2 * gap :: b[k] == 0
    requires forall k | 16 - 2 * n + 2 * gap <= k < 16 :: b[k] == a[k - (16 - 2 * n)]
    ensures FieldsOf(b) == var f := FieldsOf(a); f[..gap] + Zeros(8 - n) + f[gap..n]
  {
    var f := FieldsOf(a);
    var g := f[..gap] + Zeros(8 - n) + f[gap..n];
    forall i | 0 <= i < 8 ensures FieldsOf(b)[i] == g[i] {
      if 8 - n + gap <= i {
        var j := i - (8 - n);
        assert b[2 * i] == a[2 * j] && b[2 * i + 1] == a[2 * j + 1];
      }
    }
  }

  // ---------------------------------------------------------------- round trips

  /** fromString(toString(a)) restores an IPv6 address, whatever b was; the zone stays b's own. */
  method TextRoundTrip(a: IPAddress, b: IPAddress, includeZone: bool) returns (ok: bool)
    requires a.Valid() && b.Valid() && a.bytes != b.bytes && a != b && a.kind.IPv6?
    modifies b, b.bytes
    ensures ok && b.kind.IPv6? && b.bytes[..] == a.bytes[..] && b.zone == old(b.zone)
  {
    ghost var fields := FieldsOf(a.bytes[..]);
    var text := a.ToString(includeZone);
    assert text + "" == text;
    CanonicalIsNotDotted(fields, text, "");
    CanonicalScans(fields, text, "", NO_FIELDS, b.zone);
    ok := b.FromString(text);
    FieldsTellBytes(a.bytes[..], b.bytes[..]);
  }

  /** Printed with its zone, an IPv6 address comes back with its zone, unless that is 0. */
  method ZoneRoundTrip(a: IPAddress, b: IPAddress) returns (ok: bool)
    requires a.Valid() && b.Valid() && a.bytes != b.bytes && a != b && a.kind.IPv6?
    modifies b, b.bytes
    ensures ok && b.kind.IPv6? && b.bytes[..] == a.bytes[..]
    ensures b.zone == if a.zone > 0 then a.zone else old(b.zone)
  {
    ghost var fields := FieldsOf(a.bytes[..]);
    var s, n;
    ghost var text;
    s, n, text := a.PrintTo(true);
    ghost var end := if a.zone > 0 then ZoneText(a.zone) else "";
    assert s == text + end;
    ghost var zone: nat := if a.zone > 0 then a.zone else b.zone;
    if a.zone > 0 {
      ZoneScans(a.zone);
      DecHasNoDot(a.zone - 1);
    }
    CanonicalIsNotDotted(fields, text, end);
    CanonicalScans(fields, text, end, NO_FIELDS, b.zone);
    ok := b.FromString(s);
    FieldsTellBytes(a.bytes[..], b.bytes[..]);
  }

  /** An IPv4 address comes back too. */
  method DottedRoundTrip(a: IPAddress, b: IPAddress) returns (ok: bool)
    requires a.Valid() && b.Valid() && a.bytes != b.bytes && a != b && a.kind.IPv4?
    modifies b, b.bytes
    ensures ok && b.kind.IPv4? && OctetsOf(b.bytes[..]) == OctetsOf(a.bytes[..])
  {
    var text := a.ToString(false);
    DottedScans(OctetsOf(a.bytes[..]));
    ok := b.FromString(text);
  }
}
