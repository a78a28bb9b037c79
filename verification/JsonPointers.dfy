/** Why the pointers that Semantic_actions keeps stay good (utils/json_spirit/json_spirit_reader_template.h): a value lies in
    the storage of the containers above it, a vector moves its elements only when its length changes, and while a value is
    being read no container above it changes its length. */
module JsonPointers {
  import opened JsonTree
  import opened JsonBuilder

  /** Same kind, same length, same names: nothing is added to or removed from the container itself. */
  ghost predicate SameShape(v: Value, w: Value) {
    match v
    case Leaf(_) => w == v
    case Arr(items) => w.Arr? && |w.items| == |items|
    case Pairs(members) =>
      w.Pairs? && |w.members| == |members| && forall i :: 0 <= i < |members| ==> w.members[i].name == members[i].name
    case Table(entries) => w.Table? && w.entries.Keys == entries.Keys
  }

  lemma ShapeTransitive(u: Value, v: Value, w: Value)
    requires SameShape(u, v) && SameShape(v, w)
    ensures SameShape(u, w)
  {
  }

  lemma ChildChanged(v: Value, s: Step, c: Value)
    requires HasChild(v, s)
    ensures SameShape(v, WithChild(v, s, c))
  {
    if s.Key? {
      assert v.entries[s.name := c].Keys == v.entries.Keys;
    }
  }

  lemma {:induction false} PrefixIsThere(v: Value, p: Path, i: nat)
    requires HasPath(v, p) && i <= |p|
    ensures HasPath(v, p[..i])
    decreases |p|
  {
    hide HasChild, Child;
    if i > 0 {
      PrefixIsThere(Child(v, p[0]), p[1..], i - 1);
      assert p[..i][0] == p[0] && p[..i][1..] == p[1..][..i - 1];
    }
  }

  /** The containers above `p` have the shapes in `w` that they have in `v`. */
  ghost predicate KeptAbove(v: Value, w: Value, p: Path) {
    forall i :: 0 <= i < |p| ==> HasPath(v, p[..i]) && HasPath(w, p[..i]) && SameShape(Get(v, p[..i]), Get(w, p[..i]))
  }

  lemma {:induction false} PutKeepsAbove(v: Value, p: Path, x: Value, i: nat)
    requires HasPath(v, p) && i < |p|
    ensures var q := p[..i]; var w := Put(v, p, x);
            HasPath(v, q) && HasPath(w, q) && SameShape(Get(v, q), Get(w, q))
    decreases |p|
  {
    hide HasChild, Child, WithChild, SameShape;
    var inner := Put(Child(v, p[0]), p[1..], x);
    if i == 0 {
      ChildChanged(v, p[0], inner);
    } else {
      PutKeepsAbove(Child(v, p[0]), p[1..], x, i - 1);
      assert p[..i][0] == p[0] && p[..i][1..] == p[1..][..i - 1];
      ChildOfWith(v, p[0], inner);
    }
  }

  lemma KeptReflexive(v: Value, p: Path)
    requires HasPath(v, p)
    ensures KeptAbove(v, v, p)
  {
    hide HasPath, Get;
    forall i | 0 <= i < |p| ensures HasPath(v, p[..i]) && SameShape(Get(v, p[..i]), Get(v, p[..i])) {
      PrefixIsThere(v, p, i);
    }
  }

  lemma KeptTransitive(u: Value, v: Value, w: Value, p: Path)
    requires KeptAbove(u, v, p) && KeptAbove(v, w, p)
    ensures KeptAbove(u, w, p)
  {
    hide HasPath, Get, SameShape;
    forall i | 0 <= i < |p| ensures HasPath(u, p[..i]) && HasPath(w, p[..i]) && SameShape(Get(u, p[..i]), Get(w, p[..i])) {
      ShapeTransitive(Get(u, p[..i]), Get(v, p[..i]), Get(w, p[..i]));
    }
  }

  lemma KeptAboveLess(v: Value, w: Value, p: Path, q: Path)
    requires KeptAbove(v, w, p) && q <= p
    ensures KeptAbove(v, w, q)
  {
    hide HasPath, Get, SameShape;
    forall i | 0 <= i < |q| ensures HasPath(v, q[..i]) && HasPath(w, q[..i]) && SameShape(Get(v, q[..i]), Get(w, q[..i])) {
      assert q[..i] == p[..i];
    }
  }

  lemma PutKeeps(v: Value, p: Path, x: Value)
    requires HasPath(v, p)
    ensures KeptAbove(v, Put(v, p, x), p)
  {
    hide HasPath, Get, Put, SameShape;
    forall i | 0 <= i < |p|
      ensures HasPath(v, p[..i]) && HasPath(Put(v, p, x), p[..i]) && SameShape(Get(v, p[..i]), Get(Put(v, p, x), p[..i]))
    {
      PutKeepsAbove(v, p, x, i);
    }
  }

  // ----------------------------------------------------------------------- one event

  /** No event, in any state, changes the shape of a container above the current value; only the current value may grow. */
  lemma EventKeepsAbove(st: State, e: Event, unique: bool)
    requires StackIsPath(st) && st.current.To? && Do(st, e, unique).Ok?
    ensures KeptAbove(st.root, Do(st, e, unique).state.root, st.current.path)
  {
    hide HasPath, Get, Put, KeptAbove, Add, Place;
    var p := st.current.path;
    KeptReflexive(st.root, p);
    if Compound(Get(st.root, p)) {
      PutKeeps(st.root, p, Add(Get(st.root, p), st.name, EmptyObject(unique)));
      PutKeeps(st.root, p, Add(Get(st.root, p), st.name, Arr([])));
      if e.NewScalar? {
        PutKeeps(st.root, p, Add(Get(st.root, p), st.name, Leaf(e.scalar)));
      }
    }
  }

  // -------------------------------------------------------------------------- a run

  /** Through all these events nothing breaks and the current value is the one at `q` or inside it. */
  ghost predicate Within(st: State, q: Path, es: seq<Event>, unique: bool)
    decreases |es|
  {
    && StackIsPath(st) && st.current.To? && q <= st.current.path
    && (es == [] || (Do(st, es[0], unique).Ok? && Within(Do(st, es[0], unique).state, q, es[1..], unique)))
  }

  /** While the current value is at `q` or inside it, the containers above `q` keep their shapes. */
  lemma {:induction false} RunKeepsAbove(st: State, q: Path, es: seq<Event>, unique: bool)
    requires Within(st, q, es, unique)
    ensures StackIsPath(st) && Run(st, es, unique).Ok?
    ensures KeptAbove(st.root, Run(st, es, unique).state.root, q)
    decreases |es|
  {
    hide HasPath, KeptAbove, Do, StackIsPath;
    if es == [] {
      CurrentIsThere(st);
      KeptReflexive(st.root, st.current.path);
      KeptAboveLess(st.root, st.root, st.current.path, q);
    } else {
      var next := Do(st, es[0], unique).state;
      EventKeepsAbove(st, es[0], unique);
      KeptAboveLess(st.root, next.root, st.current.path, q);
      RunKeepsAbove(next, q, es[1..], unique);
      KeptTransitive(st.root, next.root, Run(next, es[1..], unique).state.root, q);
    }
  }

  lemma CurrentIsThere(st: State)
    requires StackIsPath(st) && st.current.To?
    ensures HasPath(st.root, st.current.path)
  {
  }

  lemma {:induction false} WithinPart(st: State, q: Path, es: seq<Event>, k: nat, unique: bool)
    requires Within(st, q, es, unique) && k <= |es|
    ensures Within(st, q, es[..k], unique)
    decreases |es|
  {
    hide Do, StackIsPath;
    if k > 0 {
      assert es[..k][0] == es[0] && es[..k][1..] == es[1..][..k - 1];
      WithinPart(Do(st, es[0], unique).state, q, es[1..], k - 1, unique);
    }
  }

  lemma {:induction false} WithinLess(st: State, p: Path, q: Path, es: seq<Event>, unique: bool)
    requires Within(st, q, es, unique) && p <= q
    ensures Within(st, p, es, unique)
    decreases |es|
  {
    hide Do, StackIsPath;
    if es != [] {
      WithinLess(Do(st, es[0], unique).state, p, q, es[1..], unique);
    }
  }

  lemma {:induction false} WithinConcat(st: State, q: Path, a: seq<Event>, b: seq<Event>, unique: bool)
    requires Within(st, q, a, unique) && StackIsPath(st) && Run(st, a, unique).Ok?
    requires Within(Run(st, a, unique).state, q, b, unique)
    ensures Within(st, q, a + b, unique)
    decreases |a|
  {
    hide Do, StackIsPath;
    if a == [] {
      assert a + b == b;
    } else {
      assert (a + b)[0] == a[0] && (a + b)[1..] == a[1..] + b;
      WithinConcat(Do(st, a[0], unique).state, q, a[1..], b, unique);
    }
  }

  // ------------------------------------------------------------------ a value's events

  lemma WithinOne(st: State, q: Path, e: Event, es: seq<Event>, unique: bool)
    requires StackIsPath(st) && st.current.To? && q <= st.current.path && Do(st, e, unique).Ok?
    requires Within(Do(st, e, unique).state, q, es, unique)
    ensures Within(st, q, [e] + es, unique)
  {
    hide Do, StackIsPath;
    assert ([e] + es)[1..] == es;
  }

  lemma WithinNone(st: State, p: Path, unique: bool)
    requires StackIsPath(st) && st.current == To(p)
    ensures Within(st, p, [], unique)
  {
  }

  lemma {:induction false} ItemsWithin(st: State, p: Path, js: seq<Json>, unique: bool)
    requires Open(st, p, unique) && Get(st.root, p).Arr?
    ensures Within(st, p, ItemEvents(js), unique)
    decreases js, 0
  {
    hide HasPath, Get, Put, Meaning, Do, Events, StackIsPath, Within, Run, Add;
    PathIsThere(st, p, unique);
    if js == [] {
      WithinNone(st, p, unique);
    } else {
      ValueWithin(st, p, js[0], unique);
      AfterValue(st, p, js[0], unique);
      ItemsWithin(Run(st, Events(js[0]), unique).state, p, js[1..], unique);
      WithinConcat(st, p, Events(js[0]), ItemEvents(js[1..]), unique);
    }
  }

  /** After a value the place is open again, for a container of the same kind. */
  lemma AfterValue(st: State, p: Path, j: Json, unique: bool)
    requires Open(st, p, unique)
    ensures var r := Run(st, Events(j), unique);
            && r.Ok? && Open(r.state, p, unique) && (Get(r.state.root, p).Arr? <==> Get(st.root, p).Arr?)
  {
    hide HasPath, Get, Put, Meaning, Do, Events, StackIsPath, Run;
    ValueReplays(st, p, j, unique);
    StillOpen(st, p, Add(Get(st.root, p), st.name, Meaning(j, unique)), Run(st, Events(j), unique), unique);
  }

  lemma {:induction false} PairsWithin(st: State, p: Path, ps: seq<Pair>, unique: bool)
    requires Open(st, p, unique) && !Get(st.root, p).Arr?
    ensures Within(st, p, PairEvents(ps), unique)
    decreases ps, 0
  {
    hide HasPath, Get, Put, Meaning, Do, Events, StackIsPath, Within, Run, Add;
    PathIsThere(st, p, unique);
    if ps == [] {
      WithinNone(st, p, unique);
    } else {
      var named := st.(name := ps[0].name);
      NameIsSet(st, p, ps[0].name, unique);
      ValueWithin(named, p, ps[0].json, unique);
      AfterValue(named, p, ps[0].json, unique);
      PairsWithin(Run(named, Events(ps[0].json), unique).state, p, ps[1..], unique);
      WithinConcat(named, p, Events(ps[0].json), PairEvents(ps[1..]), unique);
      WithinOne(st, p, NewName(ps[0].name), Events(ps[0].json) + PairEvents(ps[1..]), unique);
    }
  }

  /** The events of a value inside an open container never lead above it. */
  lemma {:induction false} ValueWithin(st: State, p: Path, j: Json, unique: bool)
    requires Open(st, p, unique)
    ensures Within(st, p, Events(j), unique)
    decreases j, 1
  {
    hide HasPath, Get, Put, Add, Do, StackIsPath, Place, Within, Run, BeginCompound;
    PathIsThere(st, p, unique);
    match j
    case Atom(s) =>
      ScalarIsAdded(st, p, s, unique);
      EveryEventKeepsPath(st, NewScalar(s), unique);
      WithinNone(Do(st, NewScalar(s), unique).state, p, unique);
      WithinOne(st, p, NewScalar(s), [], unique);
      assert [NewScalar(s)] + [] == [NewScalar(s)];
    case List(items) =>
      InsideBegun(st, p, j, unique);
      EndsWithin(st, p, j, BeginArray, ItemEvents(items), EndArray, unique);
    case Object(pairs) =>
      InsideBegun(st, p, j, unique);
      EndsWithin(st, p, j, BeginObj, PairEvents(pairs), EndObj, unique);
  }

  /** The events between the first and the last of a compound value. */
  function Inner(j: Json): seq<Event> {
    match j
    case Atom(_) => []
    case List(items) => ItemEvents(items)
    case Object(pairs) => PairEvents(pairs)
  }

  function First(j: Json): Event {
    match j
    case Atom(s) => NewScalar(s)
    case List(_) => BeginArray
    case Object(_) => BeginObj
  }

  /** A compound value that has begun: its events stay with it until it ends. */
  lemma {:induction false} InsideBegun(st: State, p: Path, j: Json, unique: bool)
    requires Open(st, p, unique) && !j.Atom?
    ensures StackIsPath(st) && Do(st, First(j), unique).Ok?
    ensures var begun := Do(st, First(j), unique).state; var q := p + [Place(Get(st.root, p), st.name)];
            begun.current == To(q) && begun.stack == st.stack + [p] && Within(begun, q, Inner(j), unique)
    decreases j, 0
  {
    hide HasPath, Get, Put, Add, Do, StackIsPath, Place, Within, Run, BeginCompound;
    PathIsThere(st, p, unique);
    var q := p + [Place(Get(st.root, p), st.name)];
    DoBegin(st, unique);
    match j
    case List(items) =>
      Begins(st, p, Arr([]), unique);
      ItemsWithin(BeginCompound(st, Arr([])).state, q, items, unique);
    case Object(pairs) =>
      Begins(st, p, EmptyObject(unique), unique);
      PairsWithin(BeginCompound(st, EmptyObject(unique)).state, q, pairs, unique);
  }

  lemma EndsWithin(st: State, p: Path, j: Json, first: Event, inner: seq<Event>, end: Event, unique: bool)
    requires Open(st, p, unique) && Events(j) == [first] + (inner + [end]) && StackIsPath(st) && Do(st, first, unique).Ok?
    requires end == EndArray || end == EndObj
    requires var begun := Do(st, first, unique).state; Within(begun, p + [Place(Get(st.root, p), st.name)], inner, unique)
    ensures Within(st, p, Events(j), unique)
  {
    hide HasPath, Get, Put, Add, Do, StackIsPath, Place, Within, Run, Events, Meaning;
    PathIsThere(st, p, unique);
    var begun := Do(st, first, unique).state;
    WithinLess(begun, p, p + [Place(Get(st.root, p), st.name)], inner, unique);
    EveryEventKeepsPath(st, first, unique);
    RunKeepsAbove(begun, p, inner, unique);
    var last := Run(begun, inner, unique).state;
    StaysPath(begun, inner, unique);
    ValueReplays(st, p, j, unique);
    RunOne(st, first, inner + [end], unique);
    RunConcat(begun, inner, [end], unique);
    RunOfOne(last, end, unique);
    var r := Do(last, end, unique);
    EveryEventKeepsPath(last, end, unique);
    WithinNone(r.state, p, unique);
    LastWithin(begun, p, inner, unique);
    WithinOne(last, p, end, [], unique);
    assert [end] + [] == [end];
    WithinConcat(begun, p, inner, [end], unique);
    WithinOne(st, p, first, inner + [end], unique);
  }

  lemma StaysPath(st: State, es: seq<Event>, unique: bool)
    requires StackIsPath(st) && Run(st, es, unique).Ok?
    ensures StackIsPath(Run(st, es, unique).state)
  {
  }

  lemma RunOfOne(st: State, e: Event, unique: bool)
    requires StackIsPath(st)
    ensures Run(st, [e], unique) == Do(st, e, unique)
  {
    hide StackIsPath, Do;
    assert [e][1..] == [];
    if Do(st, e, unique).Ok? {
      EveryEventKeepsPath(st, e, unique);
    }
  }

  lemma {:induction false} LastWithin(st: State, q: Path, es: seq<Event>, unique: bool)
    requires Within(st, q, es, unique)
    ensures StackIsPath(st) && Run(st, es, unique).Ok?
    ensures var last := Run(st, es, unique).state; last.current.To? && q <= last.current.path
    decreases |es|
  {
    hide Do, StackIsPath;
    if es != [] {
      LastWithin(Do(st, es[0], unique).state, q, es[1..], unique);
    }
  }

  /** While an array or an object is being read, however far, every container above it has the size and the names that it had when
      the array or object began. So the pointers on the stack, and the one that comes back at the end, still point where they
      did. */
  lemma SizesStay(st: State, p: Path, j: Json, k: nat, unique: bool)
    requires Open(st, p, unique) && !j.Atom? && k <= |Inner(j)|
    ensures Events(j)[..k + 1] == [First(j)] + Inner(j)[..k]
    ensures StackIsPath(st) && Do(st, First(j), unique).Ok? && Run(st, Events(j)[..k + 1], unique).Ok?
    ensures var begun, now := Do(st, First(j), unique).state, Run(st, Events(j)[..k + 1], unique).state;
            && begun.stack == st.stack + [p] && begun.current == To(p + [Place(Get(st.root, p), st.name)])
            && KeptAbove(begun.root, now.root, begun.current.path)
            && StackIsPath(now) && begun.stack <= now.stack
  {
    hide HasPath, Get, Do, StackIsPath, Place, Within, KeptAbove, Run;
    InsideBegun(st, p, j, unique);
    var begun := Do(st, First(j), unique).state;
    var q := begun.current.path;
    var part := Inner(j)[..k];
    WithinPart(begun, q, Inner(j), k, unique);
    RunKeepsAbove(begun, q, part, unique);
    PartOfEvents(j, k);
    RunOne(st, First(j), part, unique);
    StaysPath(begun, part, unique);
    LastWithin(begun, q, part, unique);
    StacksAgree(begun, Run(begun, part, unique).state);
  }

  lemma PartOfEvents(j: Json, k: nat)
    requires !j.Atom? && k <= |Inner(j)|
    ensures k + 1 <= |Events(j)| && Events(j)[..k + 1] == [First(j)] + Inner(j)[..k]
  {
  }

  lemma StacksAgree(st: State, now: State)
    requires StackIsPath(st) && StackIsPath(now) && st.current.To? && now.current.To? && st.current.path <= now.current.path
    ensures st.stack <= now.stack
  {
    hide HasPath;
    var p, q := st.current.path, now.current.path;
    forall i | 0 <= i < |st.stack| ensures now.stack[i] == st.stack[i] {
      assert q[..i] == p[..i];
    }
  }
}
