/** Cycle detection on the tail list, lfs_tortoise_detectcycles: when it reports, when it must not,
    and why every walk of the tail list ends, whatever is on disk. */
module Tortoise {
  import opened Bits

  const BLOCK_NULL: nat := 0xffff_ffff

  datatype Pair = Pair(a: nat, b: nat)

  const NULL_PAIR := Pair(BLOCK_NULL, BLOCK_NULL)

  predicate IsNull(p: Pair) {
    p.a == BLOCK_NULL || p.b == BLOCK_NULL
  }

  predicate IsSync(p: Pair, q: Pair) {
    (p.a == q.a && p.b == q.b) || (p.a == q.b && p.b == q.a)
  }

  /** The same two blocks, named the other way round. */
  function Swapped(p: Pair): (q: Pair)
    ensures IsSync(p, q)
  {
    Pair(p.b, p.a)
  }

  // ---------------------------------------------------------------- the detector

  /** The number of calls at the last of which the tortoise moved: the greatest 2^p - 1 up to n. */
  function LastMove(n: nat): (r: nat)
    ensures r <= n < 2 * r + 1
  {
    Log2Bounds(n + 1);
    Pow2(Log2(n + 1)) - 1
  }

  /** The call for `tail`, after calls for the pairs seen, reports a cycle. */
  predicate Reports(seen: seq<Pair>, tail: Pair) {
    var r := LastMove(|seen|);
    r > 0 && IsSync(tail, seen[r - 1])
  }

  class Detector {
    var pair: Pair
    var i: nat
    var period: nat

    constructor ()
      ensures Watches([])
    {
      pair, i, period := NULL_PAIR, 1, 1;
    }

    /** The tortoise sits on the pair of its last move, and waits twice as long before the next. */
    ghost predicate Watches(seen: seq<Pair>)
      reads this
    {
      var r := LastMove(|seen|);
      && period == r + 1 && i == |seen| - r + 1
      && pair == if r == 0 then NULL_PAIR else seen[r - 1]
    }

    /** lfs_tortoise_detectcycles */
    method DetectCycles(tail: Pair, ghost seen: seq<Pair>) returns (corrupt: bool)
      requires Watches(seen) && !IsNull(tail)
      modifies this
      ensures corrupt <==> Reports(seen, tail)
      ensures !corrupt ==> Watches(seen + [tail])
    {
      if IsSync(tail, pair) {
        return true;
      }
      NextMove(|seen|);
      if i == period {
        pair := tail;
        i := 0;
        period := period * 2;
      }
      i := i + 1;
      corrupt := false;
    }
  }

  lemma {:induction false} NextMove(n: nat)
    ensures LastMove(n + 1) == if n == 2 * LastMove(n) then n + 1 else LastMove(n)
  {
    Log2Bounds(n + 1);
    Log2Bounds(n + 2);
    var p := Log2(n + 1);
    if n == 2 * LastMove(n) {
      LogIs(n + 2, p + 1);
    } else {
      LogIs(n + 2, p);
    }
  }

  lemma {:induction false} LogIs(n: nat, p: nat)
    requires Pow2(p) <= n < 2 * Pow2(p)
    ensures Log2(n) == p
  {
    Log2Bounds(n);
    Log2Below(n, p + 1);
    if Log2(n) < p {
      Pow2Monotone(Log2(n) + 1, p);
    }
  }

  // ---------------------------------------------------------------- when it reports

  /** Never on a list whose pairs are all different. */
  lemma NoFalseAlarm(seen: seq<Pair>, tail: Pair)
    requires forall k | 0 <= k < |seen| :: !IsSync(tail, seen[k])
    ensures !Reports(seen, tail)
  {
  }

  /** From index m on, the pairs repeat with period c. */
  ghost predicate Loops(x: seq<Pair>, m: nat, c: nat) {
    c > 0 && forall k: nat | m <= k && k + c < |x| :: IsSync(x[k + c], x[k])
  }

  /** Behind a lead-in of m pairs, a cycle of c pairs is reported within 2 max(m + 2, c) + c - 2 calls. */
  lemma CycleIsReported(x: seq<Pair>, m: nat, c: nat) returns (n: nat)
    requires Loops(x, m, c) && |x| >= 2 * Max(m + 2, c) + c - 2
    ensures n < |x| && n + 1 <= 2 * Max(m + 2, c) + c - 2
    ensures Reports(x[..n], x[n])
  {
    var far := Max(m + 2, c);
    var p := Npw2(far);
    Npw2IsLeast(far);
    var r := Pow2(p) - 1;
    n := r - 1 + c;
    LogIs(n + 1, p);
    assert IsSync(x[r - 1 + c], x[r - 1]);
  }

  // ---------------------------------------------------------------- walking the tail list

  datatype Ending = Finished | Cycle | Unreadable

  /** The pairs met on the way from `start`, where `tails` says what each pair, fetched with its addresses in this
      order, points on to: between tied revision counts a fetch takes the block named first. */
  ghost predicate Follows(tails: map<Pair, Pair>, start: Pair, path: seq<Pair>, tail: Pair) {
    && (forall k | 0 <= k < |path| :: Leads(tails, path, tail, k))
    && start == if path == [] then tail else path[0]
  }

  ghost predicate Leads(tails: map<Pair, Pair>, path: seq<Pair>, tail: Pair, k: nat)
    requires k < |path|
  {
    && path[k] in tails && !IsNull(path[k])
    && tails[path[k]] == if k + 1 < |path| then path[k + 1] else tail
  }

  lemma FollowsOn(tails: map<Pair, Pair>, start: Pair, path: seq<Pair>, tail: Pair)
    requires Follows(tails, start, path, tail) && tail in tails && !IsNull(tail)
    ensures Follows(tails, start, path + [tail], tails[tail])
  {
    var path', tail' := path + [tail], tails[tail];
    forall k | 0 <= k < |path'| ensures Leads(tails, path', tail', k) {
      if k < |path| { assert Leads(tails, path, tail, k); }
    }
  }

  /** What was met twice, in the same order, is met over and over. */
  lemma RepeatsLoop(tails: map<Pair, Pair>, start: Pair, path: seq<Pair>, tail: Pair, m: nat, c: nat)
    requires Follows(tails, start, path, tail) && c > 0 && m + c < |path| && path[m + c] == path[m]
    ensures Loops(path, m, c)
  {
    forall k: nat | m <= k && k + c < |path| ensures IsSync(path[k + c], path[k]) {
      RepeatsAt(tails, start, path, tail, m, c, k);
    }
  }

  lemma {:induction false} RepeatsAt(tails: map<Pair, Pair>, start: Pair, path: seq<Pair>, tail: Pair, m: nat,
          c: nat, k: nat)
    requires Follows(tails, start, path, tail) && c > 0 && m <= k && k + c < |path| && path[m + c] == path[m]
    ensures path[k + c] == path[k]
    decreases k
  {
    if k > m {
      assert Leads(tails, path, tail, k - 1) && Leads(tails, path, tail, k - 1 + c);
      RepeatsAt(tails, start, path, tail, m, c, k - 1);
    }
  }

  /** More pairs than there are to be met: some pair was met twice. */
  lemma {:induction false} Pigeonhole(path: seq<Pair>, pairs: set<Pair>) returns (i: nat, j: nat)
    requires |path| > |pairs| && forall k | 0 <= k < |path| :: path[k] in pairs
    ensures i < j <= |pairs| && j < |path| && path[i] == path[j]
    decreases |pairs|
  {
    var last := path[|pairs|];
    if k: nat :| k < |pairs| && path[k] == last {
      i, j := k, |pairs|;
    } else {
      i, j := Pigeonhole(path[..|pairs|], pairs - {last});
    }
  }

  /** As long as nothing was reported, the walk is short. */
  lemma WalkIsShort(tails: map<Pair, Pair>, start: Pair, path: seq<Pair>, tail: Pair)
    requires Follows(tails, start, path, tail)
    requires forall n | 0 <= n < |path| :: !Reports(path[..n], path[n])
    ensures |path| <= 3 * |tails| + 2
  {
    if |path| > 3 * |tails| + 2 {
      forall k | 0 <= k < |path| ensures path[k] in tails.Keys {
        assert Leads(tails, path, tail, k);
      }
      var i, j := Pigeonhole(path, tails.Keys);
      RepeatsLoop(tails, start, path, tail, i, j - i);
      var n := CycleIsReported(path, i, j - i);
    }
  }

  /** The shape of every walk of the tail list, as in lfs_mount_: it ends, and it reports a cycle only
      where it meets two blocks a second time. */
  method Walk(tails: map<Pair, Pair>, start: Pair) returns (ending: Ending, ghost path: seq<Pair>, tail: Pair)
    ensures Follows(tails, start, path, tail)
    ensures ending == Finished <==> IsNull(tail)
    ensures ending == Finished <==> tail.a == 0xffff_ffff || tail.b == 0xffff_ffff
    ensures ending == Unreadable ==> tail !in tails
    ensures ending == Cycle <==> !IsNull(tail) && Reports(path, tail)
    ensures ending == Cycle ==> exists k | 0 <= k < |path| :: IsSync(path[k], tail)
    ensures forall n | 0 <= n < |path| :: !Reports(path[..n], path[n])
    // no more calls than about three times the pairs on disk, each counted once for each order that is met
    ensures |path| <= 3 * |tails| + 2
  {
    tail, path := start, [];
    var tortoise := new Detector();
    while !IsNull(tail)
      invariant fresh(tortoise) && tortoise.Watches(path) && Follows(tails, start, path, tail)
      invariant forall n | 0 <= n < |path| :: !Reports(path[..n], path[n])
      invariant |path| <= 3 * |tails| + 2
      decreases 3 * |tails| + 2 - |path|
    {
      var corrupt := tortoise.DetectCycles(tail, path);
      if corrupt {
        return Cycle, path, tail;
      }
      if tail !in tails {
        return Unreadable, path, tail;
      }
      FollowsOn(tails, start, path, tail);
      assert forall n | 0 <= n < |path| :: (path + [tail])[..n] == path[..n];
      assert (path + [tail])[..|path|] == path;
      path, tail := path + [tail], tails[tail];
      WalkIsShort(tails, start, path, tail);
    }
    ending := Finished;
  }

  // ---------------------------------------------------------------- what a walk that ends has met

  /** A list that ends visits no pair twice in the same order. */
  lemma FinishedIsDistinct(tails: map<Pair, Pair>, start: Pair, path: seq<Pair>, tail: Pair, i: nat, j: nat)
    requires Follows(tails, start, path, tail) && IsNull(tail) && i < j < |path|
    ensures path[i] != path[j]
  {
    if path[i] == path[j] {
      var n, k := |path| - 1, |path| - 1 - (j - i);
      assert Leads(tails, path, tail, n) && Leads(tails, path, tail, k) && Leads(tails, path, tail, k + 1);
      RepeatsAt(tails, start, path, tail, i, j - i, k);
    }
  }

  /** If it visits two blocks twice, then once in either order, and the order made a difference. */
  lemma MetTwice(tails: map<Pair, Pair>, start: Pair, path: seq<Pair>, tail: Pair, i: nat, j: nat)
    requires Follows(tails, start, path, tail) && IsNull(tail) && i < j < |path| && IsSync(path[i], path[j])
    ensures path[j] == Swapped(path[i]) != path[i] && path[i] in tails && path[j] in tails
    ensures tails[path[i]] != tails[path[j]]
  {
    FinishedIsDistinct(tails, start, path, tail, i, j);
    assert Leads(tails, path, tail, i) && Leads(tails, path, tail, j) && Leads(tails, path, tail, i + 1);
    if j + 1 < |path| {
      FinishedIsDistinct(tails, start, path, tail, i + 1, j + 1);
    }
  }

  /** The order in which the two addresses of this pair are given makes no difference to its fetch. */
  predicate Blind(tails: map<Pair, Pair>, p: Pair) {
    && (Swapped(p) in tails <==> p in tails)
    && (p in tails && Swapped(p) in tails ==> tails[Swapped(p)] == tails[p])
  }

  /** Where no pair of the walk is tied, a list that ends visits no two blocks twice, in whatever order. */
  lemma FinishedMeetsNoneTwice(tails: map<Pair, Pair>, start: Pair, path: seq<Pair>, tail: Pair, i: nat, j: nat)
    requires Follows(tails, start, path, tail) && IsNull(tail) && i < j < |path|
    requires forall k | 0 <= k < |path| :: Blind(tails, path[k])
    ensures !IsSync(path[i], path[j])
  {
    assert Blind(tails, path[i]);
    if IsSync(path[i], path[j]) {
      MetTwice(tails, start, path, tail, i, j);
    }
  }

  /** A disk on which blocks 0 and 1 are tied: fetched as (0, 1) they lead on, fetched as (1, 0) they end the list. */
  const TIED_TAILS: map<Pair, Pair> :=
    map[Pair(0, 1) := Pair(2, 3), Pair(2, 3) := Pair(4, 5), Pair(4, 5) := Pair(6, 7), Pair(6, 7) := Pair(1, 0),
        Pair(1, 0) := NULL_PAIR]

  const TIED_PATH: seq<Pair> := [Pair(0, 1), Pair(2, 3), Pair(4, 5), Pair(6, 7), Pair(1, 0)]

  /** The walk of that disk ends without a report and has met blocks 0 and 1 twice. */
  lemma TiedBlocksAreMetTwice()
    ensures Follows(TIED_TAILS, Pair(0, 1), TIED_PATH, NULL_PAIR) && IsNull(NULL_PAIR)
    ensures forall n | 0 <= n < 5 :: !Reports(TIED_PATH[..n], TIED_PATH[n])
    ensures IsSync(TIED_PATH[0], TIED_PATH[4])
  {
    TiedFollows();
    forall n | 0 <= n < 5 ensures !Reports(TIED_PATH[..n], TIED_PATH[n]) {
      FirstMoves(n);
    }
  }

  lemma TiedFollows()
    ensures Follows(TIED_TAILS, Pair(0, 1), TIED_PATH, NULL_PAIR)
  {
    forall k | 0 <= k < 5 ensures Leads(TIED_TAILS, TIED_PATH, NULL_PAIR, k) {
      assert k == 0 || k == 1 || k == 2 || k == 3 || k == 4;
    }
  }

  lemma {:induction false} FirstMoves(n: nat)
    requires n < 5
    ensures LastMove(n) == if n == 0 then 0 else if n < 3 then 1 else 3
  {
    assert Pow2(1) == 2 && Pow2(2) == 4 && Pow2(3) == 8;
    LogIs(n + 1, if n == 0 then 0 else if n < 3 then 1 else 2);
  }
}
