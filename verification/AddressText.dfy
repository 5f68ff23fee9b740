/** The text forms of IP addresses: the canonical form of RFC 5952 as the printers write it, the two scanners of
    IPAddress::fromString, and the law that scanning undoes printing. */
module AddressText {
  import opened Wrappers

  type Fields = f: seq<nat> | |f| == 8 && forall i | 0 <= i < 8 :: f[i] < 0x1_0000 witness [0, 0, 0, 0, 0, 0, 0, 0]

  // ---------------------------------------------------------------- digits

  predicate IsDigit(c: char) {
    '0' <= c <= '9'
  }

  /** isalnum(c) && c <= 'f', for a letter already made small */
  predicate IsHex(c: char) {
    IsDigit(c) || 'a' <= c <= 'f'
  }

  function HexValue(c: char): (v: nat)
    requires IsHex(c)
    ensures v < 16
  {
    if IsDigit(c) then (c - '0') as nat else (c - 'a') as nat + 10
  }

  function HexDigit(v: nat): (c: char)
    requires v < 16
    ensures IsHex(c) && HexValue(c) == v && Lower(c) == c && (v < 10 ==> IsDigit(c))
  {
    if v < 10 then '0' + v as char else 'a' + (v - 10) as char
  }

  function Lower(c: char): char {
    if 'A' <= c <= 'Z' then c - 'A' + 'a' else c
  }

  const DIGITS := "0123456789abcdef"
  const CAPITALS := "0123456789ABCDEF"

  /** The digits and their values, one by one. */
  lemma DigitsAre(v: nat)
    requires v < 16
    ensures HexDigit(v) == DIGITS[v] && HexValue(DIGITS[v]) == v && Lower(CAPITALS[v]) == DIGITS[v]
  {
  }

  lemma DigitCharsAre(c: char)
    ensures IsDigit(c) <==> c in DIGITS[..10]
    ensures IsHex(c) <==> c in DIGITS
    ensures IsHex(Lower(c)) <==> c in DIGITS || c in CAPITALS
  {
    if IsHex(c) {
      DigitsAre(HexValue(c));
      assert c == DIGITS[HexValue(c)];
      if IsDigit(c) { assert c == DIGITS[..10][HexValue(c)]; }
    }
    if c in DIGITS[..10] {
      var i :| 0 <= i < 10 && DIGITS[..10][i] == c;
      DigitsAre(i);
    }
    if IsHex(Lower(c)) {
      DigitsAre(HexValue(Lower(c)));
      assert Lower(c) == DIGITS[HexValue(Lower(c))];
      if c != Lower(c) { assert c == CAPITALS[HexValue(Lower(c))]; }
    }
    if c in CAPITALS {
      var i :| 0 <= i < 16 && CAPITALS[i] == c;
      DigitsAre(i);
    }
  }

  /** %x */
  function Hex(v: nat): (s: string)
    ensures s != "" && s[0] != ':'
  {
    if v < 16 then [HexDigit(v)] else Hex(v / 16) + [HexDigit(v % 16)]
  }

  /** %u */
  function Dec(v: nat): (s: string)
    ensures s != "" && IsDigit(s[0])
  {
    if v < 10 then [HexDigit(v)] else Dec(v / 10) + [HexDigit(v % 10)]
  }

  /** The value of a string of digits. */
  function ValueOf(s: string, base: nat): nat
    requires forall i | 0 <= i < |s| :: IsHex(s[i])
  {
    if s == "" then 0 else ValueOf(s[..|s| - 1], base) * base + HexValue(s[|s| - 1])
  }

  /** What is printed: small hexadecimal digits of that value, without leading zeros. */
  lemma {:induction false} HexIs(v: nat)
    ensures (forall i | 0 <= i < |Hex(v)| :: IsHex(Hex(v)[i])) && ValueOf(Hex(v), 16) == v
    ensures v > 0 ==> Hex(v)[0] != '0'
    ensures v == 0 ==> Hex(v) == "0"
  {
    if v < 16 {
      assert Hex(v)[..0] == "";
    } else {
      HexIs(v / 16);
      assert Hex(v)[..|Hex(v)| - 1] == Hex(v / 16);
    }
  }

  /** Or decimal ones. */
  lemma {:induction false} DecIs(v: nat)
    ensures (forall i | 0 <= i < |Dec(v)| :: IsDigit(Dec(v)[i])) && ValueOf(Dec(v), 10) == v
    ensures v > 0 ==> Dec(v)[0] != '0'
    ensures v == 0 ==> Dec(v) == "0"
  {
    if v < 10 {
      assert Dec(v)[..0] == "";
    } else {
      DecIs(v / 10);
      assert Dec(v)[..|Dec(v)| - 1] == Dec(v / 10);
    }
  }

  // ---------------------------------------------------------------- the canonical text

  /** Every field followed by a colon. */
  function Trailed(f: seq<nat>): string {
    if f == [] then "" else Trailed(f[..|f| - 1]) + Hex(f[|f| - 1]) + ":"
  }

  function Joined(f: seq<nat>): string {
    if f == [] then "" else Trailed(f[..|f| - 1]) + Hex(f[|f| - 1])
  }

  ghost predicate ZeroRun(f: seq<nat>, start: nat, len: nat) {
    start + len <= |f| && forall i | start <= i < start + len :: f[i] == 0
  }

  /** What the printers look for: the leftmost among the longest runs of at least two zero fields,
      or (-1, 1) if there is none (sections 4.2.2 and 4.2.3 of RFC 5952). */
  ghost predicate LongestRun(f: seq<nat>, start: int, len: nat) {
    if start < 0 then start == -1 && len == 1 && forall s: nat, n: nat | n >= 2 :: !ZeroRun(f, s, n)
    else
      && len >= 2 && ZeroRun(f, start, len)
      && forall s: nat, n: nat | ZeroRun(f, s, n) :: n <= len && (s < start ==> n < len)
  }

  /** The address with that run written as "::" (sections 4.1 to 4.3 of RFC 5952). */
  function Shape(f: seq<nat>, start: int, len: nat): string
    requires start < 0 || start + len <= |f|
  {
    if start < 0 then Joined(f) else Joined(f[..start]) + "::" + Joined(f[start + len..])
  }

  ghost predicate Canonical(f: Fields, text: string) {
    exists start: int, len: nat :: LongestRun(f, start, len) && text == Shape(f, start, len)
  }

  /** An address has one canonical text. */
  lemma {:induction false} CanonicalIsUnique(f: Fields, s: string, t: string)
    requires Canonical(f, s) && Canonical(f, t)
    ensures s == t
  {
    var a: int, m: nat :| LongestRun(f, a, m) && s == Shape(f, a, m);
    var b: int, n: nat :| LongestRun(f, b, n) && t == Shape(f, b, n);
    SameRun(f, a, m, b, n);
  }

  lemma SameRun(f: seq<nat>, a: int, m: nat, b: int, n: nat)
    requires LongestRun(f, a, m) && LongestRun(f, b, n)
    ensures a == b && m == n
  {
    if a >= 0 { assert ZeroRun(f, a, m); }
    if b >= 0 { assert ZeroRun(f, b, n); }
  }

  /** The field before a longest run is not zero. */
  lemma RunIsMaximal(f: seq<nat>, start: int, len: nat)
    requires LongestRun(f, start, len) && start > 0
    ensures f[start - 1] != 0
  {
    if f[start - 1] == 0 {
      assert ZeroRun(f, start - 1, len + 1);
    }
  }

  // ---------------------------------------------------------------- scanning IPv6

  /** What fromString6 has gathered; gap is -1 until a double colon was seen. */
  datatype Scan = Scan(fields: seq<nat>, acc: nat, colons: nat, gap: int, zone: nat) {
    predicate Ok() {
      && |fields| == 8 && (forall i | 0 <= i < 8 :: fields[i] < 0x1_0000)
      && acc < 0x1_0000 && colons <= 7 && -1 <= gap <= colons
    }

    /** A field is complete. */
    function Store(twice: bool): Scan
      requires Ok()
    {
      Scan(fields[colons := acc], 0, colons + 1, if twice then colons + (if acc != 0 then 1 else 0) else gap, zone)
    }
  }

  function SkipToDigit(t: string): (r: string)
    ensures |r| <= |t| && (r != "" ==> IsDigit(r[0]))
  {
    if t == "" || IsDigit(t[0]) then t else SkipToDigit(t[1..])
  }

  /** atol on digits, from `acc` on */
  function Number(t: string, acc: nat): nat {
    if t == "" || !IsDigit(t[0]) then acc else Number(t[1..], acc * 10 + HexValue(t[0]))
  }

  /** The byte a zone suffix stands for. */
  function Zone(t: string): nat {
    (Number(SkipToDigit(t), 0) + 1) % 0x100
  }

  function Scan6(t: string, s: Scan): (r: Option<Scan>)
    requires s.Ok()
    ensures r.Some? ==> r.value.Ok()
    decreases |t|
  {
    if t == "" then Some(s)
    else
      var c := Lower(t[0]);
      if IsHex(c) then
        var acc := s.acc * 16 + HexValue(c);
        if acc > 0xffff then None else Scan6(t[1..], s.(acc := acc))
      else if c == ':' then
        var twice := |t| > 1 && t[1] == ':';
        if twice && (s.gap >= 0 || (|t| > 2 && t[2] == ':')) then None
        else if |t| == 1 || s.colons == 7 then None
        else Scan6(t[if twice then 2 else 1..], s.Store(twice))
      else if c == '%' then Some(s.(zone := Zone(t[1..])))
      else None
  }

  function Zeros(n: nat): (z: seq<nat>)
    ensures |z| == n && forall i | 0 <= i < n :: z[i] == 0
  {
    seq(n, i => 0)
  }

  datatype Parsed = Parsed(fields: Fields, zone: nat)

  /** The end of fromString6: the last field, and the fields behind a double colon moved to the end. */
  function Finish6(s: Scan): (r: Option<Parsed>)
    requires s.Ok()
  {
    if s.gap < 0 && s.colons != 7 then None
    else if s.gap >= 0 && s.colons > 6 then None
    else
      var n := s.colons + 1;
      var f := s.fields[s.colons := s.acc];
      if s.gap < 0 then Some(Parsed(f, s.zone))
      else Some(Parsed(f[..s.gap] + Zeros(8 - n) + f[s.gap..n], s.zone))
  }

  function Parse6(t: string, fields: Fields, zone: nat): Option<Parsed> {
    match Scan6(t, Scan(fields, 0, 0, -1, zone))
    case None => None
    case Some(s) => Finish6(s)
  }

  const NO_FIELDS: Fields := [0, 0, 0, 0, 0, 0, 0, 0]

  lemma {:induction false} ScanForgets(t: string, s: Scan, s': Scan)
    requires s.Ok() && s'.Ok() && s' == s.(fields := s'.fields) && s'.fields[..s.colons] == s.fields[..s.colons]
    ensures Scan6(t, s).Some? <==> Scan6(t, s').Some?
    ensures Scan6(t, s).Some? ==>
              var (r, r') := (Scan6(t, s).value, Scan6(t, s').value);
              r' == r.(fields := r'.fields) && r'.fields[..r.colons] == r.fields[..r.colons]
    decreases |t|
  {
    if t != "" {
      var c := Lower(t[0]);
      if IsHex(c) {
        var acc := s.acc * 16 + HexValue(c);
        if acc <= 0xffff { ScanForgets(t[1..], s.(acc := acc), s'.(acc := acc)); }
      } else if c == ':' {
        var twice := |t| > 1 && t[1] == ':';
        if !(twice && (s.gap >= 0 || (|t| > 2 && t[2] == ':'))) && |t| > 1 && s.colons < 7 {
          var n := s.colons;
          assert s.fields[n := s.acc][..n + 1] == s.fields[..n] + [s.acc];
          assert s'.fields[n := s.acc][..n + 1] == s'.fields[..n] + [s.acc];
          ScanForgets(t[if twice then 2 else 1..], s.Store(twice), s'.Store(twice));
        }
      }
    }
  }

  /** What the address held before makes no difference. */
  lemma {:induction false} ParseForgets(t: string, fields: Fields, fields': Fields, zone: nat)
    ensures Parse6(t, fields, zone) == Parse6(t, fields', zone)
  {
    var s, s' := Scan(fields, 0, 0, -1, zone), Scan(fields', 0, 0, -1, zone);
    ScanForgets(t, s, s');
    if Scan6(t, s).Some? {
      var r, r' := Scan6(t, s).value, Scan6(t, s').value;
      var n := r.colons + 1;
      assert r.fields[r.colons := r.acc][..n] == r.fields[..r.colons] + [r.acc];
      assert r'.fields[r.colons := r.acc][..n] == r'.fields[..r.colons] + [r.acc];
      FinishForgets(r, r');
    }
  }

  lemma {:induction false} FinishForgets(s: Scan, s': Scan)
    requires s.Ok() && s'.Ok() && s' == s.(fields := s'.fields)
    requires s.fields[s.colons := s.acc][..s.colons + 1] == s'.fields[s.colons := s.acc][..s.colons + 1]
    ensures Finish6(s) == Finish6(s')
  {
    var n := s.colons + 1;
    var f, f' := s.fields[s.colons := s.acc], s'.fields[s.colons := s.acc];
    if n == 8 {
      assert f[..8] == f && f'[..8] == f';
    } else if s.gap >= 0 {
      assert f[..s.gap] == f[..n][..s.gap] && f'[..s.gap] == f'[..n][..s.gap];
      assert f[s.gap..n] == f[..n][s.gap..] && f'[s.gap..n] == f'[..n][s.gap..];
    }
  }

  // ---------------------------------------------------------------- scanning undoes printing

  lemma {:induction false} ScanHex(v: nat, rest: string, s: Scan)
    requires s.Ok() && s.acc == 0 && v < 0x1_0000
    ensures Scan6(Hex(v) + rest, s) == Scan6(rest, s.(acc := v))
    decreases v
  {
    if v < 16 {
      assert (Hex(v) + rest)[0] == HexDigit(v) && (Hex(v) + rest)[1..] == rest;
    } else {
      var d := HexDigit(v % 16);
      assert Hex(v) + rest == Hex(v / 16) + ([d] + rest);
      ScanHex(v / 16, [d] + rest, s);
      assert ([d] + rest)[1..] == rest;
    }
  }

  /** One field and its colon. */
  lemma {:induction false} ScanField(v: nat, rest: string, s: Scan)
    requires s.Ok() && s.acc == 0 && v < 0x1_0000 && s.colons < 7 && rest != "" && rest[0] != ':'
    ensures Scan6(Hex(v) + ":" + rest, s) == Scan6(rest, s.(acc := v).Store(false))
  {
    var t := ":" + rest;
    assert Hex(v) + ":" + rest == Hex(v) + t;
    ScanHex(v, t, s);
    assert t[0] == ':' && t[1..] == rest && t[1] == rest[0];
  }

  /** The scan after a run of fields has been stored. */
  function Stored(s: Scan, f: seq<nat>): (r: Scan)
    requires s.Ok() && s.acc == 0 && s.colons + |f| <= 7 && forall i | 0 <= i < |f| :: f[i] < 0x1_0000
    ensures r.Ok() && r.acc == 0
  {
    Scan(s.fields[..s.colons] + f + s.fields[s.colons + |f|..], 0, s.colons + |f|, s.gap, s.zone)
  }

  lemma {:induction false} StoredOneMore(s: Scan, f: seq<nat>, v: nat)
    requires s.Ok() && s.acc == 0 && s.colons + |f| < 7 && v < 0x1_0000 && forall i | 0 <= i < |f| :: f[i] < 0x1_0000
    ensures Stored(s, f).(acc := v).Store(false) == Stored(s, f + [v])
  {
    var n := s.colons + |f|;
    assert (s.fields[..s.colons] + f + s.fields[n..])[n := v] == s.fields[..s.colons] + (f + [v]) + s.fields[n + 1..];
  }

  lemma {:induction false} ScanTrailed(f: seq<nat>, rest: string, s: Scan)
    requires s.Ok() && s.acc == 0 && s.colons + |f| <= 7 && (forall i | 0 <= i < |f| :: f[i] < 0x1_0000)
    requires rest != "" && rest[0] != ':'
    ensures Scan6(Trailed(f) + rest, s) == Scan6(rest, Stored(s, f))
    decreases |f|
  {
    if f == [] {
      assert Trailed(f) + rest == rest;
      assert s.fields[..s.colons] + [] + s.fields[s.colons..] == s.fields;
    } else {
      var front, v := f[..|f| - 1], f[|f| - 1];
      assert f == front + [v];
      var more := Hex(v) + ":" + rest;
      assert Trailed(f) + rest == Trailed(front) + more;
      ScanTrailed(front, more, s);
      ScanField(v, rest, Stored(s, front));
      StoredOneMore(s, front, v);
    }
  }

  /** A zone suffix, or nothing. */
  ghost predicate Suffix(end: string) {
    end == "" || end[0] == '%'
  }

  function ZoneAfter(end: string, zone: nat): nat
    requires Suffix(end)
  {
    if end == "" then zone else Zone(end[1..])
  }

  /** The last fields: their last one stays in the accumulator. */
  lemma {:induction false} ScanJoined(f: seq<nat>, end: string, s: Scan)
    requires s.Ok() && s.acc == 0 && s.colons + |f| <= 8 && (forall i | 0 <= i < |f| :: f[i] < 0x1_0000)
    requires Suffix(end)
    ensures Scan6(Joined(f) + end, s) ==
            if f == [] then Some(s.(zone := ZoneAfter(end, s.zone)))
            else Some(Stored(s, f[..|f| - 1]).(acc := f[|f| - 1], zone := ZoneAfter(end, s.zone)))
  {
    if f == [] {
      assert Joined(f) + end == end;
      ScanEnd(end, s);
    } else {
      var front, v := f[..|f| - 1], f[|f| - 1];
      assert Joined(f) + end == Trailed(front) + (Hex(v) + end);
      ScanTrailed(front, Hex(v) + end, s);
      ScanHex(v, end, Stored(s, front));
      ScanEnd(end, Stored(s, front).(acc := v));
    }
  }

  lemma {:induction false} ScanEnd(end: string, s: Scan)
    requires s.Ok() && Suffix(end)
    ensures Scan6(end, s) == Some(s.(zone := ZoneAfter(end, s.zone)))
  {
  }

  /** A double colon behind a field that is not zero, or at the start. */
  lemma {:induction false} ScanGap(f: seq<nat>, rest: string, s: Scan)
    requires s.Ok() && s.acc == 0 && s.colons == 0 && s.gap == -1 && |f| <= 6
    requires (forall i | 0 <= i < |f| :: f[i] < 0x1_0000) && (f != [] ==> f[|f| - 1] != 0)
    requires rest == "" || rest[0] != ':'
    ensures Scan6(Joined(f) + "::" + rest, s) ==
            Scan6(rest, if f == [] then Stored(s, [0]).(gap := 0) else Stored(s, f).(gap := |f|))
  {
    hide Scan6, Hex;
    var t := "::" + rest;
    if f == [] {
      assert Joined(f) + "::" + rest == t;
      assert s.fields[0 := 0] == s.fields[..0] + [0] + s.fields[1..];
      DoubleColon(rest, s);
    } else {
      var front, v := f[..|f| - 1], f[|f| - 1];
      assert f == front + [v];
      assert Joined(f) + "::" + rest == Trailed(front) + (Hex(v) + t);
      ScanTrailed(front, Hex(v) + t, s);
      ScanHex(v, t, Stored(s, front));
      StoredOneMore(s, front, v);
      DoubleColon(rest, Stored(s, front).(acc := v));
    }
  }

  lemma {:induction false} DoubleColon(rest: string, s: Scan)
    requires s.Ok() && s.gap < 0 && s.colons < 7 && (rest == "" || rest[0] != ':')
    ensures Scan6("::" + rest, s) == Scan6(rest, s.Store(true))
  {
    var t := "::" + rest;
    assert t[0] == ':' && t[1] == ':' && t[2..] == rest;
  }

  lemma {:induction false} FinishPlain(f: Fields, s: Scan, acc: nat, zone: nat)
    requires s.Ok() && s.acc == 0 && s.colons == 0 && s.gap == -1 && acc == f[7]
    ensures Finish6(Stored(s, f[..7]).(acc := acc, zone := zone)) == Some(Parsed(f, zone))
  {
    var done := Stored(s, f[..7]).(acc := acc, zone := zone);
    assert done.fields[7 := acc] == f;
  }

  /** Behind a gap: the fields stored so far are `front`, and at a leading gap one zero field. */
  lemma {:induction false} FinishGap(f: Fields, start: nat, len: nat, s: Scan)
    requires start + len <= 8 && len >= 2 && ZeroRun(f, start, len)
    requires s.Ok() && s.gap == start
    requires var back := f[start + len..];
      && s.colons == (if start == 0 then 1 else start) + (if back == [] then 0 else |back| - 1)
      && s.fields[s.colons := s.acc][..s.colons + 1] ==
           (if start == 0 then [0] else f[..start]) + (if back == [] then [0] else back)
    ensures Finish6(s) == Some(Parsed(f, s.zone))
  {
    var n, g := s.colons + 1, s.fields[s.colons := s.acc];
    var back := f[start + len..];
    var head := g[..n];
    assert g[..start] == head[..start] == f[..start];
    assert g[start..n] == head[start..];
    assert g[..start] + Zeros(8 - n) + g[start..n] == f;
  }

  /** Scanning an address's canonical text, with or without a zone behind it, gives the address back. */
  lemma {:induction false} CanonicalScans(f: Fields, text: string, end: string, fields: Fields, zone: nat)
    requires Canonical(f, text) && Suffix(end)
    ensures Parse6(text + end, fields, zone) == Some(Parsed(f, ZoneAfter(end, zone)))
  {
    var start: int, len: nat :| LongestRun(f, start, len) && text == Shape(f, start, len);
    var s := Scan(fields, 0, 0, -1, zone);
    if start < 0 {
      ScanJoined(f, end, s);
      assert f[..|f| - 1] == f[..7];
      FinishPlain(f, s, f[7], ZoneAfter(end, zone));
    } else {
      if start > 0 { RunIsMaximal(f, start, len); }
      assert ZeroRun(f, start, len);
      GapScans(f, start, len, end, s);
    }
  }

  lemma {:induction false} GapScans(f: Fields, start: nat, len: nat, end: string, s: Scan)
    requires ZeroRun(f, start, len) && len >= 2 && (start > 0 ==> f[start - 1] != 0) && Suffix(end)
    requires s.Ok() && s.acc == 0 && s.colons == 0 && s.gap == -1
    ensures Scan6(Shape(f, start, len) + end, s).Some?
    ensures Finish6(Scan6(Shape(f, start, len) + end, s).value) == Some(Parsed(f, ZoneAfter(end, s.zone)))
  {
    var mid := if start == 0 then Stored(s, [0]).(gap := 0) else Stored(s, f[..start]).(gap := start);
    ScanToGap(f, start, len, end, s, mid);
    ScanJoined(f[start + len..], end, mid);
    GapStored(f, start, len, s, mid, ZoneAfter(end, s.zone));
  }

  lemma {:induction false} ScanToGap(f: Fields, start: nat, len: nat, end: string, s: Scan, mid: Scan)
    requires start + len <= 8 && len >= 2 && (start > 0 ==> f[start - 1] != 0) && Suffix(end)
    requires s.Ok() && s.acc == 0 && s.colons == 0 && s.gap == -1
    requires mid == if start == 0 then Stored(s, [0]).(gap := 0) else Stored(s, f[..start]).(gap := start)
    ensures Scan6(Shape(f, start, len) + end, s) == Scan6(Joined(f[start + len..]) + end, mid)
  {
    var front := f[..start];
    var rest := Joined(f[start + len..]) + end;
    NoColonFirst(f[start + len..], end);
    assert Shape(f, start, len) + end == Joined(front) + "::" + rest;
    ScanGap(front, rest, s);
  }

  lemma NoColonFirst(f: seq<nat>, end: string)
    requires Suffix(end)
    ensures Joined(f) + end == "" || (Joined(f) + end)[0] != ':'
  {
    if f != [] {
      TrailedStart(f[..|f| - 1]);
    }
  }

  lemma {:induction false} TrailedStart(f: seq<nat>)
    ensures Trailed(f) == "" || Trailed(f)[0] != ':'
  {
    if f != [] {
      TrailedStart(f[..|f| - 1]);
    }
  }

  lemma {:induction false} GapStored(f: Fields, start: nat, len: nat, s: Scan, mid: Scan, zone: nat)
    requires ZeroRun(f, start, len) && len >= 2
    requires s.Ok() && s.acc == 0 && s.colons == 0 && s.gap == -1
    requires mid == if start == 0 then Stored(s, [0]).(gap := 0) else Stored(s, f[..start]).(gap := start)
    ensures var back := f[start + len..];
      && (back == [] ==> Finish6(mid.(zone := zone)) == Some(Parsed(f, zone)))
      && (back != [] ==>
            Finish6(Stored(mid, back[..|back| - 1]).(acc := back[|back| - 1], zone := zone)) == Some(Parsed(f, zone)))
  {
    var back := f[start + len..];
    var front := if start == 0 then [0] else f[..start];
    assert mid.fields[..mid.colons] == front;
    if back == [] {
      var done := mid.(zone := zone);
      assert done.fields[done.colons := 0][..done.colons + 1] == front + [0];
      FinishGap(f, start, len, done);
    } else {
      var last := |back| - 1;
      var done := Stored(mid, back[..last]).(acc := back[last], zone := zone);
      assert done.fields[done.colons := back[last]][..done.colons + 1] == front + back;
      FinishGap(f, start, len, done);
    }
  }

  // ---------------------------------------------------------------- zones

  /** The suffix printTo writes for a zone that is not 0. */
  function ZoneText(zone: nat): string
    requires zone > 0
  {
    "%" + Dec(zone - 1)
  }

  lemma {:induction false} NumberOfDec(v: nat, rest: string)
    ensures Number(Dec(v) + rest, 0) == Number(rest, v)
    decreases v
  {
    if v < 10 {
      assert (Dec(v) + rest)[1..] == rest;
    } else {
      var d := HexDigit(v % 10);
      assert Dec(v) + rest == Dec(v / 10) + ([d] + rest);
      NumberOfDec(v / 10, [d] + rest);
      assert ([d] + rest)[1..] == rest;
    }
  }

  /** A zone survives being printed and scanned. */
  lemma ZoneScans(zone: nat)
    requires 0 < zone < 0x100
    ensures Suffix(ZoneText(zone)) && forall was :: ZoneAfter(ZoneText(zone), was) == zone
  {
    var t := Dec(zone - 1);
    assert ZoneText(zone)[1..] == t == t + "";
    NumberOfDec(zone - 1, "");
  }

  // ---------------------------------------------------------------- scanning IPv4

  type Octets = b: seq<nat> | |b| == 4 && forall i | 0 <= i < 4 :: b[i] < 0x100 witness [0, 0, 0, 0]

  /** What fromString4 has gathered; acc is -1 where no digit was seen yet. */
  datatype Dotted = Dotted(octets: Octets, acc: int, dots: nat) {
    predicate Ok() {
      -1 <= acc <= 255 && dots <= 3
    }
  }

  function Scan4(t: string, s: Dotted): (r: Option<Dotted>)
    requires s.Ok()
    ensures r.Some? ==> r.value.Ok()
    decreases |t|
  {
    if t == "" then Some(s)
    else if IsDigit(t[0]) then
      var acc := if s.acc < 0 then HexValue(t[0]) else s.acc * 10 + HexValue(t[0]);
      if acc > 255 then None else Scan4(t[1..], s.(acc := acc))
    else if t[0] == '.' then
      if s.dots == 3 || s.acc < 0 then None
      else Scan4(t[1..], Dotted(s.octets[s.dots := s.acc], -1, s.dots + 1))
    else None
  }

  function Parse4(t: string): Option<Octets> {
    match Scan4(t, Dotted([0, 0, 0, 0], -1, 0))
    case None => None
    case Some(s) => if s.dots != 3 || s.acc < 0 then None else var b: Octets := s.octets[3 := s.acc]; Some(b)
  }

  /** %u.%u.%u.%u */
  function DottedText(b: Octets): string {
    Dec(b[0]) + "." + Dec(b[1]) + "." + Dec(b[2]) + "." + Dec(b[3])
  }

  lemma {:induction false} ScanDec(v: nat, rest: string, s: Dotted)
    requires s.Ok() && s.acc == -1 && v < 0x100
    ensures Scan4(Dec(v) + rest, s) == Scan4(rest, s.(acc := v))
    decreases v
  {
    if v < 10 {
      assert (Dec(v) + rest)[1..] == rest;
    } else {
      var d := HexDigit(v % 10);
      assert Dec(v) + rest == Dec(v / 10) + ([d] + rest);
      ScanDec(v / 10, [d] + rest, s);
      assert ([d] + rest)[1..] == rest;
    }
  }

  lemma {:induction false} ScanOctet(v: nat, rest: string, s: Dotted)
    requires s.Ok() && s.acc == -1 && v < 0x100 && s.dots < 3
    ensures Scan4(Dec(v) + ("." + rest), s) == Scan4(rest, Dotted(s.octets[s.dots := v], -1, s.dots + 1))
  {
    var t := "." + rest;
    ScanDec(v, t, s);
    assert t[0] == '.' && t[1..] == rest;
  }

  /** The scan when the first k octets have been stored. */
  function Partial(b: Octets, k: nat): (s: Dotted)
    requires k <= 3
    ensures s.Ok() && s.acc == -1 && s.dots == k
  {
    var octets: Octets := [if k > 0 then b[0] else 0, if k > 1 then b[1] else 0, if k > 2 then b[2] else 0, 0];
    Dotted(octets, -1, k)
  }

  lemma {:induction false} ScanOctetAt(b: Octets, k: nat, rest: string)
    requires k < 3
    ensures Scan4(Dec(b[k]) + ("." + rest), Partial(b, k)) == Scan4(rest, Partial(b, k + 1))
  {
    ScanOctet(b[k], rest, Partial(b, k));
    assert Partial(b, k).octets[k := b[k]] == Partial(b, k + 1).octets;
  }

  /** Scanning an IPv4 address's text gives the address back. */
  lemma {:induction false} DottedScans(b: Octets)
    ensures Parse4(DottedText(b)) == Some(b)
  {
    var t3 := Dec(b[3]) + "";
    var t2 := Dec(b[2]) + ("." + t3);
    var t1 := Dec(b[1]) + ("." + t2);
    assert DottedText(b) == Dec(b[0]) + ("." + t1);
    ScanOctetAt(b, 0, t1);
    ScanOctetAt(b, 1, t2);
    ScanOctetAt(b, 2, t3);
    ScanDec(b[3], "", Partial(b, 3));
    assert Partial(b, 0) == Dotted([0, 0, 0, 0], -1, 0);
    assert Partial(b, 3).octets[3 := b[3]] == b;
  }

  /** No text without a dot is an IPv4 address. */
  lemma {:induction false} NoDotsNoOctets(t: string, s: Dotted)
    requires s.Ok() && '.' !in t
    ensures Scan4(t, s).Some? ==> Scan4(t, s).value.dots == s.dots
    decreases |t|
  {
    if t != "" && IsDigit(t[0]) {
      var acc := if s.acc < 0 then HexValue(t[0]) else s.acc * 10 + HexValue(t[0]);
      if acc <= 255 { NoDotsNoOctets(t[1..], s.(acc := acc)); }
    }
  }

  lemma {:induction false} HexHasNoDot(v: nat)
    ensures '.' !in Hex(v)
  {
    if v >= 16 { HexHasNoDot(v / 16); }
  }

  lemma {:induction false} DecHasNoDot(v: nat)
    ensures '.' !in Dec(v)
  {
    if v >= 10 { DecHasNoDot(v / 10); }
  }

  lemma {:induction false} TrailedHasNoDot(f: seq<nat>)
    ensures '.' !in Trailed(f) && '.' !in Joined(f)
  {
    if f != [] {
      TrailedHasNoDot(f[..|f| - 1]);
      HexHasNoDot(f[|f| - 1]);
    }
  }

  /** So fromString does not take an IPv6 text for an IPv4 one. */
  lemma {:induction false} CanonicalIsNotDotted(f: Fields, text: string, end: string)
    requires Canonical(f, text) && '.' !in end
    ensures Parse4(text + end) == None
  {
    var start: int, len: nat :| LongestRun(f, start, len) && text == Shape(f, start, len);
    if start < 0 {
      TrailedHasNoDot(f);
    } else {
      TrailedHasNoDot(f[..start]);
      TrailedHasNoDot(f[start + len..]);
    }
    NoDotsNoOctets(text + end, Dotted([0, 0, 0, 0], -1, 0));
  }
}
