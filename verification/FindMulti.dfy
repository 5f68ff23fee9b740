/** Stream::findMulti: searching a stream for several targets at once, with the hand-written walk back
    on a mismatch. The index kept with a target is always its longest border with what was read. */
module FindMulti {
  import opened Words
  import opened Wrappers

  type Text = seq<Byte>

  class MultiTarget {
    const str: Text
    var index: nat

    constructor (str: Text)
      ensures this.str == str && index == 0
    {
      this.str, index := str, 0;
    }
  }

  /** A stream, as the bytes it still gives before a read times out. */
  class Stream {
    var rest: Text

    constructor (rest: Text)
      ensures this.rest == rest
    {
      this.rest := rest;
    }

    method TimedRead() returns (c: int)
      modifies this
      ensures if old(rest) == [] then c == -1 && rest == [] else c == old(rest)[0] as int && rest == old(rest)[1..]
    {
      if rest == [] {
        return -1;
      }
      c := rest[0];
      rest := rest[1..];
    }
  }

  // ---------------------------------------------------------------- suffixes and borders

  predicate Ends(s: Text, t: Text) {
    |t| <= |s| && s[|s| - |t|..] == t
  }

  /** k is the length of the longest proper prefix of the target that the text ends with. */
  ghost predicate LongestBorder(target: Text, s: Text, k: nat) {
    && k < |target| && Ends(s, target[..k])
    && forall j | k < j < |target| :: !Ends(s, target[..j])
  }

  /** A text ends with one letter more just when it did so before that letter. */
  lemma EndsOneMore(s: Text, c: Byte, target: Text, j: nat)
    requires j < |target|
    ensures Ends(s + [c], target[..j + 1]) <==> Ends(s, target[..j]) && c == target[j]
  {
    var t := target[..j + 1];
    assert t == target[..j] + [target[j]];
    if j < |s| + 1 {
      assert (s + [c])[|s| - j..] == s[|s| - j..] + [c];
    }
  }

  /** Of the prefixes of a matched prefix, those match that are its own suffixes. */
  lemma EndsByBorder(s: Text, target: Text, k: nat, j: nat)
    requires j <= k <= |target| && Ends(s, target[..k])
    ensures Ends(s, target[..j]) <==> target[..j] == target[k - j..k]
  {
    assert s[|s| - j..] == s[|s| - k..][k - j..] == target[..k][k - j..];
  }

  /** A match that goes on. */
  lemma Advance(target: Text, s: Text, k: nat, c: Byte)
    requires LongestBorder(target, s, k) && c == target[k]
    ensures k + 1 == |target| ==> Ends(s + [c], target)
    ensures k + 1 < |target| ==> LongestBorder(target, s + [c], k + 1) && !Ends(s + [c], target)
  {
    EndsOneMore(s, c, target, k);
    assert target[..|target|] == target;
    forall j | k + 1 < j <= |target| ensures !Ends(s + [c], target[..j]) {
      EndsOneMore(s, c, target, j - 1);
    }
  }

  /** A mismatch leaves no longer match than those of a prefix shorter than k. */
  lemma Mismatch(target: Text, s: Text, k: nat, c: Byte)
    requires LongestBorder(target, s, k) && c != target[k]
    ensures !Ends(s + [c], target)
    ensures forall j | k < j < |target| :: !Ends(s + [c], target[..j])
  {
    assert target[..|target|] == target;
    forall j | k < j <= |target| ensures !Ends(s + [c], target[..j]) {
      EndsOneMore(s, c, target, j - 1);
    }
  }

  // ---------------------------------------------------------------- one target

  /** str[..index] == str[diff..diff + index], compared as the source does. */
  method SamePrefix(str: Text, index: nat, diff: nat) returns (i: nat)
    requires index + diff <= |str|
    ensures i <= index && (i == index <==> str[..index] == str[diff..diff + index])
  {
    i := 0;
    while i < index
      invariant i <= index && forall j | 0 <= j < i :: str[j] == str[j + diff]
    {
      if str[i] != str[i + diff] {
        assert str[..index][i] != str[diff..diff + index][i];
        break;
      }
      i := i + 1;
    }
  }

  /** Whether the letter continues the prefix of length index, which has to repeat the end of the one matched. */
  method CanContinue(str: Text, c: Byte, index: nat, origIndex: nat, ghost s: Text) returns (ok: bool)
    requires index < origIndex < |str| && Ends(s, str[..origIndex])
    ensures ok <==> Ends(s + [c], str[..index + 1])
  {
    EndsOneMore(s, c, str, index);
    EndsByBorder(s, str, origIndex, index);
    // the letter itself has to continue the shorter prefix
    if c != str[index] {
      return false;
    }
    // a prefix of one letter needs no comparison
    if index == 0 {
      return true;
    }
    // the letters before it must repeat the start of the target
    var i := SamePrefix(str, index, origIndex - index);
    ok := i == index;
  }

  /** The walk back: the longest shorter prefix that the new letter can continue. */
  method WalkBack(t: MultiTarget, c: Byte, ghost s: Text)
    requires LongestBorder(t.str, s, t.index) && c != t.str[t.index] && t.index > 0
    modifies t
    ensures LongestBorder(t.str, s + [c], t.index)
  {
    var origIndex := t.index;
    Mismatch(t.str, s, origIndex, c);
    while t.index > 0
      invariant t.index <= origIndex
      invariant forall j | t.index < j < |t.str| :: !Ends(s + [c], t.str[..j])
      decreases t.index
    {
      t.index := t.index - 1;
      var ok := CanContinue(t.str, c, t.index, origIndex, s);
      if ok {
        t.index := t.index + 1;
        return;
      }
    }
    assert t.str[..0] == [];
  }

  /** What one letter does to one target. */
  method Feed(t: MultiTarget, c: Byte, ghost s: Text) returns (found: bool)
    requires LongestBorder(t.str, s, t.index)
    modifies t
    ensures found <==> Ends(s + [c], t.str)
    ensures !found ==> LongestBorder(t.str, s + [c], t.index)
  {
    // the letter continues the prefix matched so far
    if c == t.str[t.index] {
      Advance(t.str, s, t.index, c);
      t.index := t.index + 1;
      return t.index == |t.str|;
    }
    Mismatch(t.str, s, t.index, c);
    if t.index > 0 {
      WalkBack(t, c, s);
    } else {
      assert t.str[..0] == [];
    }
    found := false;
  }

  // ---------------------------------------------------------------- all of them

  ghost predicate Ready(targets: seq<MultiTarget>, s: Text)
    reads targets
  {
    forall t | t in targets :: LongestBorder(t.str, s, t.index)
  }

  predicate Distinct(targets: seq<MultiTarget>) {
    forall i, j | 0 <= i < j < |targets| :: targets[i] != targets[j]
  }

  ghost predicate NoneEnds(targets: seq<MultiTarget>, s: Text) {
    forall t | t in targets :: !Ends(s, t.str)
  }

  /** What a search of `input` has to answer: the first position where some target ends, and there the first
      target that does. */
  ghost predicate Answer(targets: seq<MultiTarget>, input: Text, n: nat, r: int) {
    && n <= |input|
    && (forall m | 0 <= m < n :: NoneEnds(targets, input[..m]))
    && if r < 0 then r == -1 && n == |input| && NoneEnds(targets, input)
       else r < |targets| && Ends(input[..n], targets[r].str) && NoneEnds(targets[..r], input[..n])
  }

  /** The index of the first empty target, or -1. */
  method FirstEmpty(targets: seq<MultiTarget>) returns (r: int)
    ensures -1 <= r < |targets|
    ensures r >= 0 ==> targets[r].str == [] && forall t | t in targets[..r] :: t.str != []
    ensures r < 0 ==> forall t | t in targets :: t.str != []
  {
    for i := 0 to |targets|
      invariant forall j | 0 <= j < i :: targets[j].str != []
    {
      if targets[i].str == [] {
        return i;
      }
    }
    r := -1;
  }

  /** One letter for every target in turn, until one is found. */
  method FeedAll(targets: seq<MultiTarget>, c: Byte, ghost s: Text) returns (r: int)
    requires Distinct(targets) && Ready(targets, s)
    modifies targets
    ensures -1 <= r < |targets|
    ensures r >= 0 ==> Ends(s + [c], targets[r].str) && NoneEnds(targets[..r], s + [c])
    ensures r < 0 ==> Ready(targets, s + [c]) && NoneEnds(targets, s + [c])
  {
    for i := 0 to |targets|
      invariant forall j | 0 <= j < i :: LongestBorder(targets[j].str, s + [c], targets[j].index)
      invariant forall j | i <= j < |targets| :: LongestBorder(targets[j].str, s, targets[j].index)
      invariant forall j | 0 <= j < i :: !Ends(s + [c], targets[j].str)
    {
      var found := Feed(targets[i], c, s);
      if found {
        return i;
      }
    }
    r := -1;
  }

  /** What holds between letters: every target stands at its longest border, and none has ended yet. */
  ghost predicate Searching(targets: seq<MultiTarget>, input: Text, n: nat)
    reads targets
  {
    n <= |input| && Ready(targets, input[..n]) && forall m | 0 <= m <= n :: NoneEnds(targets, input[..m])
  }

  lemma NothingRead(targets: seq<MultiTarget>, input: Text)
    requires forall t | t in targets :: t.index == 0 && t.str != []
    ensures Searching(targets, input, 0)
  {
    forall t | t in targets
      ensures LongestBorder(t.str, [], t.index)
    {
      assert t.str[..0] == [];
    }
    assert input[..0] == [];
  }

  /** The whole input read and nothing found. */
  lemma NothingFound(targets: seq<MultiTarget>, input: Text)
    requires Searching(targets, input, |input|)
    ensures Answer(targets, input, |input|, -1)
  {
    assert input[..|input|] == input;
  }

  /** The next letter of the input, or -1 at its end. */
  method ReadNext(stream: Stream, targets: seq<MultiTarget>, ghost input: Text, ghost n: nat) returns (c: int)
    requires Searching(targets, input, n) && stream.rest == input[n..]
    modifies stream
    ensures Searching(targets, input, n)
    ensures if n == |input| then c == -1 && stream.rest == input[n..] else c == input[n] && stream.rest == input[n + 1..]
  {
    c := stream.TimedRead();
  }

  /** The letter just read, for every target. */
  method FeedNext(targets: seq<MultiTarget>, c: Byte, ghost stream: Stream, ghost input: Text, ghost n: nat)
      returns (r: int)
    requires Distinct(targets) && Searching(targets, input, n) && n < |input| && c == input[n]
    modifies targets
    ensures stream.rest == old(stream.rest)
    ensures if r < 0 then r == -1 && Searching(targets, input, n + 1) else Answer(targets, input, n + 1, r)
  {
    assert input[..n] + [c] == input[..n + 1];
    r := FeedAll(targets, c, input[..n]);
  }

  /** Stream::findMulti */
  method FindMulti(stream: Stream, targets: seq<MultiTarget>) returns (r: int, ghost n: nat)
    requires Distinct(targets) && forall t | t in targets :: t.index == 0
    modifies stream, targets
    ensures n <= |old(stream.rest)| && stream.rest == old(stream.rest)[n..]
    ensures Answer(targets, old(stream.rest), n, r)
  {
    ghost var input := stream.rest;
    n := 0;
    assert input[..0] == [] && input[0..] == input;
    // an empty target ends wherever the search begins
    r := FirstEmpty(targets);
    if r >= 0 {
      return;
    }
    NothingRead(targets, input);
    while true
      invariant Searching(targets, input, n) && stream.rest == input[n..]
      decreases |input| - n
    {
      var c := ReadNext(stream, targets, input, n);
      if c < 0 {
        NothingFound(targets, input);
        return -1, n;
      }
      r := FeedNext(targets, c, stream, input, n);
      n := n + 1;
      if r >= 0 {
        return;
      }
    }
  }

  // ---------------------------------------------------------------- the callers

  /** Stream::findUntil */
  method FindUntil(stream: Stream, target: Text, terminator: Option<Text>) returns (found: bool, ghost n: nat)
    modifies stream
    ensures n <= |old(stream.rest)| && stream.rest == old(stream.rest)[n..]
    // found just when the target ends somewhere with no terminator ending before it; on a tie the target wins
    ensures found <==> exists m | 0 <= m <= |old(stream.rest)| :: ReachedFirst(old(stream.rest)[..m], target, terminator)
    ensures found ==> ReachedFirst(old(stream.rest)[..n], target, terminator)
  {
    ghost var input := stream.rest;
    var r;
    match terminator {
      case None =>
        var t := new MultiTarget(target);
        r, n := FindMulti(stream, [t]);
        AnswerForOne(t, input, n, r);
      case Some(end) =>
        var t := new MultiTarget(target);
        var u := new MultiTarget(end);
        r, n := FindMulti(stream, [t, u]);
        AnswerForTwo(t, u, input, n, r);
    }
    found := r == 0;
  }

  /** The text ends with the target and no shorter part of it ends with the terminator. */
  ghost predicate ReachedFirst(s: Text, target: Text, terminator: Option<Text>) {
    && Ends(s, target)
    && (terminator.Some? ==> forall m | 0 <= m < |s| :: !Ends(s[..m], terminator.value))
  }

  lemma AnswerForOne(t: MultiTarget, input: Text, n: nat, r: int)
    requires Answer([t], input, n, r)
    ensures r == 0 <==> exists m | 0 <= m <= |input| :: ReachedFirst(input[..m], t.str, None)
    ensures r == 0 ==> ReachedFirst(input[..n], t.str, None)
  {
    assert t in [t];
    if r != 0 {
      assert input[..|input|] == input;
    }
  }

  lemma AnswerForTwo(t: MultiTarget, u: MultiTarget, input: Text, n: nat, r: int)
    requires Answer([t, u], input, n, r)
    ensures r == 0 <==> exists m | 0 <= m <= |input| :: ReachedFirst(input[..m], t.str, Some(u.str))
    ensures r == 0 ==> ReachedFirst(input[..n], t.str, Some(u.str))
  {
    var targets := [t, u];
    assert t in targets && u in targets;
    if r == 0 {
      forall m | 0 <= m < n ensures !Ends(input[..n][..m], u.str) {
        assert input[..n][..m] == input[..m] && NoneEnds(targets, input[..m]);
      }
    } else {
      forall m | 0 <= m <= |input| ensures !ReachedFirst(input[..m], t.str, Some(u.str)) {
        if m < n {
          assert NoneEnds(targets, input[..m]);
        } else if r == 1 {
          assert targets[..1][0] == t && t in targets[..1];
          if m > n { assert input[..m][..n] == input[..n]; }
        } else {
          assert input[..m] == input;
        }
      }
    }
  }
}
