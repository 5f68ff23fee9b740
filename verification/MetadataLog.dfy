/** The metadata log of a directory pair: what it means, by replaying it forwards, and what a lookup in it comes to one
    tag further back. */
module MetadataLog {
  import opened Words
  import opened Wrappers
  import opened Tags

  datatype Attr = Attr(tag: Tag, data: seq<Byte>)

  /** An attribute as an entry holds it; the entry's position is its id. */
  datatype Value = Value(typ: nat, size: nat, data: seq<Byte>)

  /** All attributes ever set on an entry since it came to be, oldest first. */
  type Entry = seq<Value>

  /** The entries by id; entries past the end are empty. */
  type Directory = seq<Entry>

  predicate WellFormedTag(t: Tag) {
    t.IsSplice() ==> (t.typ == TYPE_CREATE || t.typ == TYPE_DELETE) && t.size == 0
  }

  ghost predicate WellFormed(log: seq<Attr>) {
    forall k | 0 <= k < |log| :: WellFormedTag(log[k].tag)
  }

  // ---------------------------------------------------------------- forward replay

  function At(dir: Directory, id: nat): Entry {
    if id < |dir| then dir[id] else []
  }

  function Pad(dir: Directory, n: nat): Directory {
    if |dir| >= n then dir else dir + seq(n - |dir|, i => [])
  }

  function ValueOf(a: Attr): Value {
    Value(a.tag.typ, a.tag.size, a.data)
  }

  /** One tag: a create inserts an empty entry, a delete removes one, a name, struct or user
      attribute is set on its entry, and everything else concerns no entry. */
  function Apply(dir: Directory, a: Attr): Directory {
    var i := a.tag.id;
    if a.tag.typ == TYPE_CREATE then
      var d := Pad(dir, i);
      d[..i] + [[]] + d[i..]
    else if a.tag.typ == TYPE_DELETE then
      if i < |dir| then dir[..i] + dir[i + 1..] else dir
    else if a.tag.typ < TYPE_SPLICE then
      var d := Pad(dir, i + 1);
      d[i := d[i] + [ValueOf(a)]]
    else
      dir
  }

  function Replay(log: seq<Attr>): Directory {
    if log == [] then [] else Apply(Replay(log[..|log| - 1]), log[|log| - 1])
  }

  lemma ReplaySnoc(log: seq<Attr>, a: Attr)
    ensures Replay(log + [a]) == Apply(Replay(log), a)
  {
    assert (log + [a])[..|log|] == log;
  }

  /** The last attribute an entry holds that answers the query. */
  function Latest(e: Entry, q: Query): Option<Value> {
    if e == [] then None
    else if q.Matches(e[|e| - 1].typ) then Some(e[|e| - 1])
    else Latest(e[..|e| - 1], q)
  }

  /** It answers the query and none behind it does; without one, none at all does. */
  lemma {:induction false} LatestIsLast(e: Entry, q: Query)
    ensures match Latest(e, q)
      case Some(v) => exists i :: 0 <= i < |e| && e[i] == v && q.Matches(v.typ) && forall j | i < j < |e| :: !q.Matches(e[j].typ)
      case None => forall j | 0 <= j < |e| :: !q.Matches(e[j].typ)
  {
    if e != [] {
      var front, n := e[..|e| - 1], |e| - 1;
      if q.Matches(e[n].typ) {
        assert e[n] == Latest(e, q).value;
      } else {
        LatestIsLast(front, q);
        if Latest(front, q).Some? {
          var i :| 0 <= i < |front| && front[i] == Latest(front, q).value && forall j | i < j < |front| :: !q.Matches(front[j].typ);
          assert e[i] == front[i];
          assert forall j | i < j < |e| :: j < n ==> e[j] == front[j];
        }
      }
    }
  }

  /** Asked for exactly one type, it has that type. */
  lemma {:induction false} LatestHasType(e: Entry, typ: nat)
    ensures Latest(e, Exact(typ)).Some? ==> Latest(e, Exact(typ)).value.typ == typ
  {
    LatestIsLast(e, Exact(typ));
  }

  /** A deleted attribute counts as absent. */
  function Present(v: Option<Value>): Option<Value> {
    if v.Some? && v.value.size == DELETED then None else v
  }

  function Lookup(dir: Directory, id: nat, q: Query): Option<Value> {
    Present(Latest(At(dir, id), q))
  }

  /** Where the entry with id g after a tag was before it. */
  lemma {:induction false} ApplyAt(dir: Directory, a: Attr, g: nat)
    requires WellFormedTag(a.tag)
    ensures
      var i := a.tag.id;
      At(Apply(dir, a), g) ==
        if a.tag.typ == TYPE_CREATE then
          if g < i then At(dir, g) else if g == i then [] else At(dir, g - 1)
        else if a.tag.typ == TYPE_DELETE then
          if g < i then At(dir, g) else At(dir, g + 1)
        else if a.tag.typ < TYPE_SPLICE && g == i then At(dir, g) + [ValueOf(a)]
        else At(dir, g)
  {
  }

  lemma {:induction false} LatestOfLonger(e: Entry, v: Value, q: Query)
    ensures Latest(e + [v], q) == if q.Matches(v.typ) then Some(v) else Latest(e, q)
  {
    assert (e + [v])[..|e|] == e;
  }

  /** The id an entry had before the tag, given its id after it. */
  function Earlier(t: Tag, g: nat): int {
    if t.IsSplice() && t.id <= g then g - Splice(t.typ) else g
  }

  /** The entry with id g after a tag, by the id it had before. */
  lemma {:induction false} EntryStep(dir: Directory, a: Attr, g: nat)
    requires WellFormedTag(a.tag)
    ensures a.tag != Tag(TYPE_CREATE, g, 0) ==> Earlier(a.tag, g) >= 0
    ensures At(Apply(dir, a), g) ==
            if a.tag == Tag(TYPE_CREATE, g, 0) then []
            else if a.tag.typ < TYPE_SPLICE && a.tag.id == g then At(dir, g) + [ValueOf(a)]
            else At(dir, Earlier(a.tag, g))
  {
    ApplyAt(dir, a, g);
  }

  lemma {:induction false} LookupLonger(e: Entry, v: Value, q: Query)
    ensures Present(Latest(e + [v], q)) == if q.Matches(v.typ) then Present(Some(v)) else Present(Latest(e, q))
  {
    LatestOfLonger(e, v, q);
  }

  /** What a lookup after one more tag comes to before it. */
  lemma {:induction false} LookupStep(dir: Directory, a: Attr, g: nat, q: Query)
    requires WellFormedTag(a.tag) && IdQuery(q)
    ensures a.tag != Tag(TYPE_CREATE, g, 0) ==> Earlier(a.tag, g) >= 0
    ensures Lookup(Apply(dir, a), g, q) ==
            if a.tag == Tag(TYPE_CREATE, g, 0) then None
            else if q.Matches(a.tag.typ) && a.tag.id == g then Present(Some(ValueOf(a)))
            else Lookup(dir, Earlier(a.tag, g), q)
  {
    NoSpliceMatches(q, a.tag);
    EntryStep(dir, a, g);
    if a.tag.typ < TYPE_SPLICE {
      LookupLonger(At(dir, g), ValueOf(a), q);
    }
  }

  lemma NoSpliceMatches(q: Query, t: Tag)
    requires IdQuery(q)
    ensures t.typ >= TYPE_SPLICE ==> !q.Matches(t.typ)
  {
  }

  /** The same step, on the first k tags of a log. */
  lemma StepBack(log: seq<Attr>, k: nat, g: nat, q: Query)
    requires 0 < k <= |log| && WellFormedTag(log[k - 1].tag) && IdQuery(q)
    ensures log[k - 1].tag != Tag(TYPE_CREATE, g, 0) ==> Earlier(log[k - 1].tag, g) >= 0
    ensures Lookup(Replay(log[..k]), g, q) ==
            if log[k - 1].tag == Tag(TYPE_CREATE, g, 0) then None
            else if q.Matches(log[k - 1].tag.typ) && log[k - 1].tag.id == g then Present(Some(ValueOf(log[k - 1])))
            else Lookup(Replay(log[..k - 1]), Earlier(log[k - 1].tag, g), q)
  {
    assert log[..k] == log[..k - 1] + [log[k - 1]];
    ReplaySnoc(log[..k - 1], log[k - 1]);
    LookupStep(Replay(log[..k - 1]), log[k - 1], g, q);
  }

  /** The queries littlefs asks by id: a name, a struct or a user attribute. */
  predicate IdQuery(q: Query) {
    q.typ < TYPE_SPLICE
  }

  // ---------------------------------------------------------------- what a lookup hands out

  datatype Found = NoEntry | Found(tag: Tag, data: seq<Byte>)

  function AsFound(v: Option<Value>, id: nat): Found {
    match v
    case None => NoEntry
    case Some(x) => Found(Tag(x.typ, id, x.size), x.data)
  }

  /** Against a log with the moved entry really deleted, the pending-move rule is exact at every id
      but the moved one, and there only if the entry that follows has nothing to answer with. */
  lemma PendingMoveExact(log: seq<Attr>, moved: nat, id: nat, q: Query)
    requires WellFormed(log)
    ensures
      var answered := if moved == id then None else Lookup(Replay(log), if moved < id then id + 1 else id, q);
      var deleted := Lookup(Replay(log + [Attr(Tag(TYPE_DELETE, moved, 0), [])]), id, q);
      answered == deleted <==> (id == moved ==> Lookup(Replay(log), moved + 1, q) == None)
  {
    var del := Attr(Tag(TYPE_DELETE, moved, 0), []);
    ReplaySnoc(log, del);
    ApplyAt(Replay(log), del, id);
  }
}
