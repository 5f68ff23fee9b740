/** Exactly which texts IPAddress::fromString accepts, and what they stand for: the scanners against a description of
    the texts by their parts. */
module AddressGrammar {
  import opened Wrappers
  import opened AddressText

  // ---------------------------------------------------------------- IPv6: groups between colons

  predicate IsGroup(s: string) {
    forall i | 0 <= i < |s| :: IsHex(Lower(s[i]))
  }

  /** The value of a group of hexadecimal digits of either case; an empty group stands for 0. */
  function GroupValue(s: string): nat
    requires IsGroup(s)
  {
    if s == "" then 0 else GroupValue(s[..|s| - 1]) * 16 + HexValue(Lower(s[|s| - 1]))
  }

  function Separator(twice: bool): string {
    if twice then "::" else ":"
  }

  /** The groups with colons between them, two behind group `gap`. */
  function Joint(groups: seq<string>, gap: int): string
    decreases |groups|
  {
    if groups == [] then ""
    else if |groups| == 1 then groups[0]
    else groups[0] + Separator(gap == 0) + Joint(groups[1..], gap - 1)
  }

  ghost predicate AllGroups(groups: seq<string>) {
    forall i | 0 <= i < |groups| :: IsGroup(groups[i]) && GroupValue(groups[i]) <= 0xffff
  }

  /** Behind the first, only the last group may be empty: after a double colon, or in front of a zone suffix. */
  predicate FewEmpty(groups: seq<string>, gap: int, end: string) {
    forall i | 0 < i < |groups| && groups[i] == "" :: i == |groups| - 1 && (gap == i - 1 || end != "")
  }

  ghost predicate WellSpelled(groups: seq<string>, gap: int, end: string) {
    && groups != [] && -1 <= gap < |groups| - 1 && AllGroups(groups) && FewEmpty(groups, gap, end) && Suffix(end)
  }

  function Values(groups: seq<string>): (v: seq<nat>)
    requires forall i | 0 <= i < |groups| :: IsGroup(groups[i])
    ensures |v| == |groups|
  {
    seq(|groups|, i requires 0 <= i < |groups| => GroupValue(groups[i]))
  }

  /** The eight fields: a double colon stands for as many zeros as are missing. */
  function FieldsOf(v: seq<nat>, gap: int): seq<nat>
    requires -1 <= gap < |v|
  {
    if gap < 0 || |v| > 8 then v else v[..gap + 1] + Zeros(8 - |v|) + v[gap + 1..]
  }

  /** Eight groups, or up to seven around a double colon. */
  ghost predicate Spells(t: string, groups: seq<string>, gap: int, end: string) {
    WellSpelled(groups, gap, end) && t == Joint(groups, gap) + end && if gap < 0 then |groups| == 8 else |groups| <= 7
  }

  // ---------------------------------------------------------------- one group

  lemma {:induction false} GroupGrows(s: string)
    requires IsGroup(s) && s != ""
    ensures IsGroup(s[..|s| - 1]) && GroupValue(s[..|s| - 1]) <= GroupValue(s)
  {
  }

  /** A group is read into the accumulator if it is small enough, and refused otherwise. */
  lemma {:induction false} ScanGroup(g: string, rest: string, s: Scan)
    requires s.Ok() && s.acc == 0 && IsGroup(g)
    ensures GroupValue(g) <= 0xffff ==> Scan6(g + rest, s) == Scan6(rest, s.(acc := GroupValue(g)))
    ensures GroupValue(g) > 0xffff ==> Scan6(g + rest, s) == None
    decreases |g|
  {
    if g == "" {
      assert g + rest == rest;
    } else {
      var front, c := g[..|g| - 1], g[|g| - 1];
      GroupGrows(g);
      assert g + rest == front + ([c] + rest) && ([c] + rest)[1..] == rest;
      ScanGroup(front, [c] + rest, s);
    }
  }

  /** The longest group a text begins with. */
  lemma {:induction false} FirstGroup(t: string) returns (g: string, rest: string)
    ensures t == g + rest && IsGroup(g) && (rest != "" ==> !IsHex(Lower(rest[0])))
    decreases |t|
  {
    if t == "" || !IsHex(Lower(t[0])) {
      g, rest := "", t;
    } else {
      var g';
      g', rest := FirstGroup(t[1..]);
      g := [t[0]] + g';
    }
  }

  /** The state after a first group and what separates it from the next. */
  lemma {:induction false} ScanSeparator(rest: string, s: Scan, twice: bool)
    requires s.Ok() && s.colons < 7 && (twice ==> s.gap < 0) && (rest == "" ==> twice) && (rest != "" ==> rest[0] != ':')
    ensures Scan6(Separator(twice) + rest, s) == Scan6(rest, s.Store(twice))
  {
    var t := Separator(twice) + rest;
    assert t[if twice then 2 else 1..] == rest;
    if twice {
      DoubleColon(rest, s);
    } else {
      assert t[1] == rest[0];
    }
  }

  // ---------------------------------------------------------------- what is spelled is scanned

  /** The scan after all groups of a well spelled text, begun in state s. */
  ghost predicate Scanned(s: Scan, r: Scan, v: seq<nat>, gap: int, end: string)
    requires v != [] && -1 <= gap < |v| - 1 && Suffix(end) && s.Ok()
  {
    && r.Ok() && r.colons == s.colons + |v| - 1 && r.acc == v[|v| - 1] && r.zone == ZoneAfter(end, s.zone)
    && r.fields[..r.colons] == s.fields[..s.colons] + v[..|v| - 1]
    && r.gap == if gap < 0 then s.gap else s.colons + gap + (if v[gap] != 0 then 1 else 0)
  }

  lemma ScanEnd(end: string, s: Scan)
    requires s.Ok() && Suffix(end)
    ensures Scan6(end, s) == Some(s.(zone := ZoneAfter(end, s.zone)))
  {
    if end != "" {
      assert Lower('%') == '%' && !IsHex('%');
    }
  }

  /** What follows a separator begins with no colon, and is empty only behind a double one. */
  lemma {:induction false} NextGroup(groups: seq<string>, gap: int, end: string)
    requires |groups| > 1 && WellSpelled(groups, gap, end)
    ensures WellSpelled(groups[1..], Max1(gap - 1), end)
    ensures Joint(groups[1..], gap - 1) == Joint(groups[1..], Max1(gap - 1))
    ensures var rest := Joint(groups[1..], gap - 1) + end;
      (rest == "" ==> gap == 0) && (rest != "" ==> rest[0] != ':')
  {
    var more := groups[1..];
    JointSame(more, gap - 1, Max1(gap - 1));
    forall i | 0 < i < |more| && more[i] == ""
      ensures i == |more| - 1 && (Max1(gap - 1) == i - 1 || end != "")
    {
      assert groups[i + 1] == "";
    }
    assert IsGroup(groups[1]);
    if groups[1] != "" {
      var c := groups[1][0];
      assert IsHex(Lower(c));
      assert (Joint(more, gap - 1) + end)[0] == c;
    } else {
      assert more == [groups[1]];
    }
  }

  function Max1(n: int): int {
    if n < -1 then -1 else n
  }

  lemma {:induction false} JointSame(groups: seq<string>, a: int, b: int)
    requires a == b || (a < 0 && b < 0)
    ensures Joint(groups, a) == Joint(groups, b)
    decreases |groups|
  {
    if |groups| > 1 {
      JointSame(groups[1..], a - 1, b - 1);
    }
  }

  lemma {:induction false} SpelledIsScanned(groups: seq<string>, gap: int, end: string, s: Scan) returns (r: Scan)
    requires WellSpelled(groups, gap, end) && s.Ok() && s.acc == 0 && s.colons + |groups| <= 8 && (gap >= 0 ==> s.gap < 0)
    ensures Scan6(Joint(groups, gap) + end, s) == Some(r) && Scanned(s, r, Values(groups), gap, end)
    decreases |groups|
  {
    var v, g := GroupValue(groups[0]), groups[0];
    var s' := s.(acc := v);
    if |groups| == 1 {
      ScanGroup(g, end, s);
      ScanEnd(end, s');
      r := s'.(zone := ZoneAfter(end, s.zone));
      assert s.fields[..s.colons] + [] == s.fields[..s.colons];
    } else {
      hide Scan6, WellSpelled, Scanned, IsGroup, GroupValue, Joint;
      var rest, twice := Joint(groups[1..], gap - 1) + end, gap == 0;
      NextGroup(groups, gap, end);
      JointCons(groups, gap, end);
      FirstIsGroup(groups, gap, end);
      ScanGroup(g, Separator(twice) + rest, s);
      ScanSeparator(rest, s', twice);
      r := SpelledIsScanned(groups[1..], Max1(gap - 1), end, s'.Store(twice));
      ScannedOneMore(s, r, groups, gap, end);
    }
  }

  lemma {:induction false} JointCons(groups: seq<string>, gap: int, end: string)
    requires |groups| > 1
    ensures Joint(groups, gap) + end == groups[0] + (Separator(gap == 0) + (Joint(groups[1..], gap - 1) + end))
  {
  }

  lemma FirstIsGroup(groups: seq<string>, gap: int, end: string)
    requires WellSpelled(groups, gap, end)
    ensures IsGroup(groups[0]) && GroupValue(groups[0]) <= 0xffff
  {
  }

  lemma {:induction false} ScannedOneMore(s: Scan, r: Scan, groups: seq<string>, gap: int, end: string)
    requires |groups| > 1 && WellSpelled(groups, gap, end) && s.Ok() && s.acc == 0 && s.colons + |groups| <= 8
    requires gap >= 0 ==> s.gap < 0
    requires WellSpelled(groups[1..], Max1(gap - 1), end)
    requires var s' := s.(acc := GroupValue(groups[0]));
      Scanned(s'.Store(gap == 0), r, Values(groups[1..]), Max1(gap - 1), end)
    ensures Scanned(s, r, Values(groups), gap, end)
  {
    var v, more := Values(groups), Values(groups[1..]);
    assert v == [v[0]] + more;
    assert v[..|v| - 1] == [v[0]] + more[..|more| - 1];
    assert s.fields[s.colons := v[0]][..s.colons + 1] == s.fields[..s.colons] + [v[0]];
  }

  // ---------------------------------------------------------------- what is scanned is spelled

  lemma {:induction false} ScannedIsSpelled(t: string, s: Scan) returns (groups: seq<string>, gap: int, end: string)
    requires s.Ok() && s.acc == 0 && Scan6(t, s).Some?
    ensures WellSpelled(groups, gap, end) && t == Joint(groups, gap) + end
    ensures s.colons + |groups| <= 8 && (gap >= 0 ==> s.gap < 0)
    decreases |t|
  {
    var g, rest := FirstGroup(t);
    ScanGroup(g, rest, s);
    if rest == "" || rest[0] == '%' {
      groups, gap, end := [g], -1, rest;
    } else {
      var s' := s.(acc := GroupValue(g));
      var twice := |rest| > 1 && rest[1] == ':';
      var tail := rest[if twice then 2 else 1..];
      ColonGoesOn(rest, s');
      var more, gap', end' := ScannedIsSpelled(tail, s'.Store(twice));
      groups, end := [g] + more, end';
      gap := if twice then 0 else if gap' < 0 then -1 else gap' + 1;
      SpelledOneMore(g, more, gap', end, twice, tail);
      assert t == g + (Separator(twice) + tail);
    }
  }

  /** A scan that succeeds goes on behind a colon, or two, in this way only. */
  lemma {:induction false} ColonGoesOn(rest: string, s: Scan)
    requires s.Ok() && rest != "" && !IsHex(Lower(rest[0])) && rest[0] != '%' && Scan6(rest, s).Some?
    ensures var twice := |rest| > 1 && rest[1] == ':'; var tail := rest[if twice then 2 else 1..];
      && rest == Separator(twice) + tail && s.colons < 7 && (twice ==> s.gap < 0)
      && Scan6(rest, s) == Scan6(tail, s.Store(twice))
      && (tail == "" ==> twice) && (tail != "" ==> tail[0] != ':')
  {
    var c := Lower(rest[0]);
    assert c == ':' ==> rest[0] == ':';
    assert c == '%' ==> rest[0] == '%';
  }

  lemma {:induction false} EmptyFirst(groups: seq<string>, gap: int, end: string)
    ensures var t := Joint(groups, gap) + end; |groups| > 1 && groups[0] == "" ==> t != "" && t[0] == ':'
  {
  }

  lemma {:induction false} SpelledOneMore(g: string, more: seq<string>, gap: int, end: string, twice: bool, tail: string)
    requires WellSpelled(more, gap, end) && tail == Joint(more, gap) + end && IsGroup(g) && GroupValue(g) <= 0xffff
    requires (tail == "" ==> twice) && (tail != "" ==> tail[0] != ':') && (twice ==> gap < 0)
    ensures var gap' := if twice then 0 else if gap < 0 then -1 else gap + 1;
      WellSpelled([g] + more, gap', end) && Joint([g] + more, gap') + end == g + (Separator(twice) + tail)
  {
    hide Lower, IsHex, IsGroup, GroupValue;
    var all, gap' := [g] + more, if twice then 0 else if gap < 0 then -1 else gap + 1;
    assert all[1..] == more;
    JointSame(more, gap, gap' - 1);
    JointCons(all, gap', end);
    EmptyFirst(more, gap, end);
    forall i | 0 < i < |all| && all[i] == ""
      ensures i == |all| - 1 && (gap' == i - 1 || end != "")
    {
      assert more[i - 1] == "";
    }
  }

  // ---------------------------------------------------------------- the end of the scan

  /** Moving the fields behind the double colon gives the eight fields; a zero group in front of it is one of the
      zeros anyway. */
  lemma {:induction false} FinishIsFields(r: Scan, v: seq<nat>, gap: int, end: string, s: Scan)
    requires v != [] && -1 <= gap < |v| - 1 && Suffix(end) && s.Ok() && s.colons == 0 && s.gap == -1
    requires Scanned(s, r, v, gap, end)
    ensures Finish6(r).Some? <==> if gap < 0 then |v| == 8 else |v| <= 7
    ensures Finish6(r).Some? ==> Finish6(r).value.fields == FieldsOf(v, gap) && Finish6(r).value.zone == ZoneAfter(end, s.zone)
  {
    hide FieldsOf, Zone;
    var n := |v|;
    var f := r.fields[r.colons := r.acc];
    assert f[..n] == r.fields[..r.colons] + [r.acc] == v;
    if gap < 0 {
      AllFields(v, gap);
      if n == 8 { assert f[..8] == f; }
    } else if n <= 7 {
      MovedFields(f, v, gap, r.gap);
    }
  }

  lemma AllFields(v: seq<nat>, gap: int)
    requires gap == -1 && v != []
    ensures FieldsOf(v, gap) == v
  {
  }

  lemma {:induction false} MovedFields(f: seq<nat>, v: seq<nat>, gap: nat, at: nat)
    requires gap < |v| <= 7 && |f| == 8 && f[..|v|] == v && at == gap + if v[gap] != 0 then 1 else 0
    ensures f[..at] + Zeros(8 - |v|) + f[at..|v|] == FieldsOf(v, gap)
  {
    assert f[..at] == v[..at] && f[at..|v|] == v[at..];
    if v[gap] == 0 {
      ZeroMoves(v, gap, 8 - |v|);
    }
  }

  lemma ZeroMoves(v: seq<nat>, gap: nat, n: nat)
    requires gap < |v| && v[gap] == 0
    ensures v[..gap] + Zeros(n) + v[gap..] == v[..gap + 1] + Zeros(n) + v[gap + 1..]
  {
    assert v[gap..] == [0] + v[gap + 1..] && v[..gap + 1] == v[..gap] + [0];
    assert Zeros(n) + [0] == [0] + Zeros(n);
  }

  /** fromString6 accepts the well spelled texts and no others, and reads them as what they stand for. */
  lemma {:induction false} Parse6Means(t: string, fields: Fields, zone: nat)
    ensures Parse6(t, fields, zone).Some? <==> exists groups, gap, end :: Spells(t, groups, gap, end)
    ensures forall groups, gap, end | Spells(t, groups, gap, end) ::
              Parse6(t, fields, zone).Some? && Parse6(t, fields, zone).value.fields == FieldsOf(Values(groups), gap)
              && Parse6(t, fields, zone).value.zone == ZoneAfter(end, zone)
  {
    var s := Scan(fields, 0, 0, -1, zone);
    if Parse6(t, fields, zone).Some? {
      var groups, gap, end := ScannedIsSpelled(t, s);
      var r := SpelledIsScanned(groups, gap, end, s);
      FinishIsFields(r, Values(groups), gap, end, s);
      assert Spells(t, groups, gap, end);
    }
    forall groups, gap, end | Spells(t, groups, gap, end)
      ensures Parse6(t, fields, zone).Some? && Parse6(t, fields, zone).value.fields == FieldsOf(Values(groups), gap)
      ensures Parse6(t, fields, zone).value.zone == ZoneAfter(end, zone)
    {
      var r := SpelledIsScanned(groups, gap, end, s);
      FinishIsFields(r, Values(groups), gap, end, s);
    }
  }

  // ---------------------------------------------------------------- IPv4: numbers between dots

  predicate IsNumeral(s: string) {
    s != "" && AllDigits(s)
  }

  predicate AllDigits(s: string) {
    forall i | 0 <= i < |s| :: IsDigit(s[i])
  }

  function NumeralValue(s: string): (v: nat)
    requires IsNumeral(s)
    ensures v == ValueOf(s, 10)
  {
    assert forall i | 0 <= i < |s| :: IsDigit(s[i]);
    ValueOf(s, 10)
  }

  ghost predicate AllNumerals(parts: seq<string>) {
    forall i | 0 <= i < |parts| :: IsNumeral(parts[i]) && ValueOf(parts[i], 10) <= 255
  }

  function Dotting(parts: seq<string>): string {
    if parts == [] then "" else if |parts| == 1 then parts[0] else parts[0] + "." + Dotting(parts[1..])
  }

  function Numbers(parts: seq<string>): (v: seq<nat>)
    requires forall i | 0 <= i < |parts| :: IsNumeral(parts[i])
    ensures |v| == |parts|
  {
    seq(|parts|, i requires 0 <= i < |parts| => NumeralValue(parts[i]))
  }

  lemma {:induction false} FrontIsLess(g: string)
    requires AllDigits(g) && g != ""
    ensures AllDigits(g[..|g| - 1]) && ValueOf(g[..|g| - 1], 10) <= ValueOf(g, 10)
  {
  }

  lemma {:induction false} ScanNumeral(g: string, rest: string, s: Dotted)
    requires s.Ok() && s.acc == -1 && IsNumeral(g)
    ensures ValueOf(g, 10) <= 255 ==> Scan4(g + rest, s) == Scan4(rest, s.(acc := ValueOf(g, 10)))
    ensures ValueOf(g, 10) > 255 ==> Scan4(g + rest, s) == None
    decreases |g|
  {
    var front, c := g[..|g| - 1], g[|g| - 1];
    FrontIsLess(g);
    assert g + rest == front + ([c] + rest) && ([c] + rest)[1..] == rest;
    if front == "" {
      assert g + rest == [c] + rest && ValueOf(front, 10) == 0;
    } else {
      ScanNumeral(front, [c] + rest, s);
    }
  }

  lemma {:induction false} FirstDigits(t: string) returns (g: string, rest: string)
    ensures t == g + rest && AllDigits(g) && (rest != "" ==> !IsDigit(rest[0]))
    decreases |t|
  {
    if t == "" || !IsDigit(t[0]) {
      g, rest := "", t;
    } else {
      var g';
      g', rest := FirstDigits(t[1..]);
      g := [t[0]] + g';
    }
  }

  /** The scan after all numbers, begun in state s. */
  ghost predicate Counted(s: Dotted, r: Dotted, v: seq<nat>)
    requires v != [] && s.Ok()
  {
    && r.Ok() && r.dots == s.dots + |v| - 1 && r.acc == v[|v| - 1]
    && r.octets[..r.dots] == s.octets[..s.dots] + v[..|v| - 1]
  }

  lemma {:induction false} NumeralsAreScanned(parts: seq<string>, s: Dotted) returns (r: Dotted)
    requires parts != [] && AllNumerals(parts) && s.Ok() && s.acc == -1 && s.dots + |parts| <= 4
    ensures Scan4(Dotting(parts), s) == Some(r) && Counted(s, r, Numbers(parts))
    decreases |parts|
  {
    var g := parts[0];
    var v := ValueOf(g, 10);
    if |parts| == 1 {
      ScanNumeral(g, "", s);
      assert g + "" == g && s.octets[..s.dots] + [] == s.octets[..s.dots];
      r := s.(acc := v);
    } else {
      var rest := Dotting(parts[1..]);
      var s' := Dotted(s.octets[s.dots := v], -1, s.dots + 1);
      assert Dotting(parts) == g + ("." + rest);
      ScanNumeral(g, "." + rest, s);
      assert ("." + rest)[1..] == rest;
      r := NumeralsAreScanned(parts[1..], s');
      CountedOneMore(s, r, parts, s');
    }
  }

  lemma {:induction false} CountedOneMore(s: Dotted, r: Dotted, parts: seq<string>, s': Dotted)
    requires |parts| > 1 && AllNumerals(parts) && s.Ok() && s.dots + |parts| <= 4
    requires s'.Ok() && s'.dots == s.dots + 1 && s'.octets[..s'.dots] == s.octets[..s.dots] + [ValueOf(parts[0], 10)]
    requires Counted(s', r, Numbers(parts[1..]))
    ensures Counted(s, r, Numbers(parts))
  {
    var v, more := Numbers(parts), Numbers(parts[1..]);
    assert v == [v[0]] + more;
    assert v[..|v| - 1] == [v[0]] + more[..|more| - 1];
  }

  lemma {:induction false} ScannedAreNumerals(t: string, s: Dotted) returns (parts: seq<string>)
    requires s.Ok() && s.acc == -1 && Scan4(t, s).Some? && Scan4(t, s).value.acc >= 0
    ensures parts != [] && AllNumerals(parts) && t == Dotting(parts) && s.dots + |parts| <= 4
    decreases |t|
  {
    var g, rest := FirstDigits(t);
    if g != "" { ScanNumeral(g, rest, s); }
    if rest == "" {
      parts := [g];
    } else {
      var more := ScannedAreNumerals(rest[1..], Dotted(s.octets[s.dots := ValueOf(g, 10)], -1, s.dots + 1));
      parts := [g] + more;
      assert parts[1..] == more && rest == "." + rest[1..];
      NumeralsOneMore(g, more);
    }
  }

  lemma NumeralsOneMore(g: string, more: seq<string>)
    requires IsNumeral(g) && ValueOf(g, 10) <= 255 && AllNumerals(more)
    ensures AllNumerals([g] + more)
  {
  }

  /** fromString4 accepts four decimal numbers up to 255 between dots and nothing else, and reads them as such. */
  lemma {:induction false} Parse4Means(t: string)
    ensures Parse4(t).Some? <==> exists parts :: |parts| == 4 && AllNumerals(parts) && t == Dotting(parts)
    ensures forall parts | |parts| == 4 && AllNumerals(parts) && t == Dotting(parts) ::
              Parse4(t).Some? && Parse4(t).value == Numbers(parts)
  {
    var s := Dotted([0, 0, 0, 0], -1, 0);
    if Parse4(t).Some? {
      var parts := ScannedAreNumerals(t, s);
      var r := NumeralsAreScanned(parts, s);
      assert |parts| == 4;
    }
    forall parts | |parts| == 4 && AllNumerals(parts) && t == Dotting(parts)
      ensures Parse4(t).Some? && Parse4(t).value == Numbers(parts)
    {
      var r := NumeralsAreScanned(parts, s);
      var v := Numbers(parts);
      assert r.octets[3 := r.acc] == r.octets[..3] + [r.acc] == v;
    }
  }

  // ---------------------------------------------------------------- the zone behind an IPv6 address

  lemma {:induction false} NumberIs(front: string, d: string, rest: string)
    requires AllDigits(front) && AllDigits(d) && (rest == "" || !IsDigit(rest[0]))
    ensures Number(d + rest, ValueOf(front, 10)) == ValueOf(front + d, 10)
    decreases |d|
  {
    if d == "" {
      assert d + rest == rest && front + d == front;
    } else {
      assert (d + rest)[1..] == d[1..] + rest && (front + [d[0]])[..|front|] == front;
      NumberIs(front + [d[0]], d[1..], rest);
      assert front + [d[0]] + d[1..] == front + d;
    }
  }

  lemma {:induction false} DigitsAreReached(skipped: string, t: string)
    requires (forall i | 0 <= i < |skipped| :: !IsDigit(skipped[i])) && (t == "" || IsDigit(t[0]))
    ensures SkipToDigit(skipped + t) == t
    decreases |skipped|
  {
    if skipped == "" {
      assert skipped + t == t;
    } else {
      assert (skipped + t)[1..] == skipped[1..] + t;
      DigitsAreReached(skipped[1..], t);
    }
  }

  /** The zone is one more than the first number behind the percent sign, as a byte; without a number it is 1. */
  lemma {:induction false} ZoneMeans(skipped: string, d: string, rest: string)
    requires (forall i | 0 <= i < |skipped| :: !IsDigit(skipped[i])) && AllDigits(d)
    requires if d == "" then rest == "" else rest == "" || !IsDigit(rest[0])
    ensures Zone(skipped + (d + rest)) == (ValueOf(d, 10) + 1) % 0x100
  {
    DigitsAreReached(skipped, d + rest);
    NumberIs("", d, rest);
    assert "" + d == d;
  }
}
