/** The machine of Semantic_actions: what its stack and current pointer are at every moment, and that replaying the events of a
    text builds the value of the text. */
module JsonBuilder {
  import opened JsonTree

  /** The fields of Semantic_actions: value_, current_p_, stack_ and name_. */
  datatype State = State(root: Value, current: Pointer, stack: seq<Path>, name: Name)

  /** Broken: an assertion fails, or back() is called on an empty stack. */
  datatype Outcome = Broken | Ok(state: State)

  /** The stack is the path from the root to the parent of the current value. */
  ghost predicate StackIsPath(st: State) {
    match st.current
    case NullPointer => st.stack == []
    case To(p) => HasPath(st.root, p) && |st.stack| == |p| && forall i :: 0 <= i < |p| ==> st.stack[i] == p[..i]
  }

  predicate Compound(v: Value) {
    !v.Leaf?
  }

  function EmptyObject(unique: bool): Value {
    if unique then Table(map[]) else Pairs([])
  }

  /** Adding to an array, or Config_type::add. */
  function Add(node: Value, name: Name, v: Value): Value
    requires Compound(node)
  {
    match node
    case Arr(items) => Arr(items + [v])
    case Pairs(members) => Pairs(members + [Member(name, v)])
    case Table(entries) => Table(entries[name := v])
  }

  /** Where `Add` puts it. */
  function Place(node: Value, name: Name): Step
    requires Compound(node)
  {
    match node
    case Arr(items) => At(|items|)
    case Pairs(members) => At(|members|)
    case Table(_) => Key(name)
  }

  function AddToCurrent(st: State, v: Value): Outcome
    requires StackIsPath(st)
  {
    match st.current
    case NullPointer => Ok(st.(root := v, current := To([])))
    case To(p) =>
      var node := Get(st.root, p);
      if Compound(node) then Ok(st.(root := Put(st.root, p, Add(node, st.name, v)))) else Broken
  }

  function BeginCompound(st: State, v: Value): Outcome
    requires StackIsPath(st)
  {
    match (st.current, AddToCurrent(st, v))
    case (NullPointer, next) => next
    case (To(_), Broken) => Broken
    case (To(p), Ok(next)) =>
      Ok(next.(stack := st.stack + [p], current := To(p + [Place(Get(st.root, p), st.name)])))
  }

  function EndCompound(st: State): Outcome {
    if st.current == To([]) then Ok(st)
    else if st.stack == [] then Broken
    else Ok(st.(current := To(st.stack[|st.stack| - 1]), stack := st.stack[..|st.stack| - 1]))
  }

  function SetName(st: State, name: Name): Outcome
    requires StackIsPath(st)
  {
    match st.current
    case NullPointer => Broken
    case To(p) => if Get(st.root, p).Pairs? || Get(st.root, p).Table? then Ok(st.(name := name)) else Broken
  }

  function Do(st: State, e: Event, unique: bool): Outcome
    requires StackIsPath(st)
  {
    match e
    case BeginObj => BeginCompound(st, EmptyObject(unique))
    case BeginArray => BeginCompound(st, Arr([]))
    case EndObj => EndCompound(st)
    case EndArray => EndCompound(st)
    case NewName(n) => SetName(st, n)
    case NewScalar(s) => AddToCurrent(st, Leaf(s))
  }

  // -------------------------------------------------------------- every run

  lemma AddedIsThere(node: Value, name: Name, v: Value)
    requires Compound(node)
    ensures var s, w := Place(node, name), Add(node, name, v); HasChild(w, s) && Child(w, s) == v
  {
  }

  lemma ChangeAdded(node: Value, name: Name, v: Value, w: Value)
    requires Compound(node)
    ensures HasChild(Add(node, name, v), Place(node, name))
    ensures WithChild(Add(node, name, v), Place(node, name), w) == Add(node, name, w)
  {
    AddedIsThere(node, name, v);
  }

  lemma AddKeepsPath(st: State, v: Value)
    requires StackIsPath(st) && AddToCurrent(st, v).Ok?
    ensures StackIsPath(AddToCurrent(st, v).state)
  {
    hide HasPath, Get, Put;
    match st.current
    case NullPointer => RootIsThere(v);
    case To(p) => GetOfPut(st.root, p, Add(Get(st.root, p), st.name, v));
  }

  lemma RootIsThere(v: Value)
    ensures HasPath(v, []) && Get(v, []) == v
  {
  }

  lemma BeginKeepsPath(st: State, v: Value)
    requires StackIsPath(st) && BeginCompound(st, v).Ok?
    ensures StackIsPath(BeginCompound(st, v).state)
  {
    hide HasPath, Get, Put, Add, Place, HasChild;
    AddKeepsPath(st, v);
    match st.current
    case NullPointer =>
    case To(p) =>
      var node := Get(st.root, p);
      var s := Place(node, st.name);
      GetOfPut(st.root, p, Add(node, st.name, v));
      AddedIsThere(node, st.name, v);
      OneStepDown(AddToCurrent(st, v).state.root, p, s);
      assert forall i :: 0 <= i < |p| ==> (p + [s])[..i] == p[..i];
      assert (p + [s])[..|p|] == p;
  }

  lemma EndKeepsPath(st: State)
    requires StackIsPath(st) && EndCompound(st).Ok?
    ensures StackIsPath(EndCompound(st).state)
  {
    hide HasPath, Get;
    match st.current
    case NullPointer =>
    case To(p) =>
      if p != [] {
        var q := p[..|p| - 1];
        assert p == q + [p[|p| - 1]];
        PathAbove(st.root, q, p[|p| - 1]);
        assert forall i :: 0 <= i < |q| ==> p[..i] == q[..i];
      }
  }

  /** What breaks: a value where the current one holds a scalar, an end without a begin, a name where the current one is no
      object. */
  lemma BreaksWhen(st: State, e: Event, unique: bool)
    requires StackIsPath(st)
    ensures Do(st, e, unique).Broken? <==>
            match e
            case EndObj => st.current != To([]) && st.stack == []
            case EndArray => st.current != To([]) && st.stack == []
            case NewName(_) => st.current == NullPointer || Get(st.root, st.current.path).Leaf? ||
                               Get(st.root, st.current.path).Arr?
            case _ => st.current != NullPointer && Get(st.root, st.current.path).Leaf?
  {
    hide HasPath, Get, Put;
  }

  /** In any order of events, as long as nothing breaks, the stack stays the path to the current value. */
  lemma EveryEventKeepsPath(st: State, e: Event, unique: bool)
    requires StackIsPath(st) && Do(st, e, unique).Ok?
    ensures StackIsPath(Do(st, e, unique).state)
  {
    hide HasPath, Get, Put, AddToCurrent, BeginCompound, EndCompound;
    match e
    case BeginObj => BeginKeepsPath(st, EmptyObject(unique));
    case BeginArray => BeginKeepsPath(st, Arr([]));
    case EndObj => EndKeepsPath(st);
    case EndArray => EndKeepsPath(st);
    case NewName(n) =>
    case NewScalar(s) => AddKeepsPath(st, Leaf(s));
  }

  function Run(st: State, es: seq<Event>, unique: bool): (r: Outcome)
    requires StackIsPath(st)
    ensures r.Ok? ==> StackIsPath(r.state)
    decreases |es|
  {
    if es == [] then Ok(st)
    else
      match Do(st, es[0], unique)
      case Broken => Broken
      case Ok(next) => EveryEventKeepsPath(st, es[0], unique); Run(next, es[1..], unique)
  }

  lemma {:induction false} RunConcat(st: State, a: seq<Event>, b: seq<Event>, unique: bool)
    requires StackIsPath(st)
    ensures Run(st, a + b, unique) ==
            match Run(st, a, unique) case Broken => Broken case Ok(next) => Run(next, b, unique)
    decreases |a|
  {
    hide Do, StackIsPath;
    if a == [] {
      assert a + b == b;
    } else {
      assert (a + b)[0] == a[0] && (a + b)[1..] == a[1..] + b;
      if Do(st, a[0], unique).Ok? {
        EveryEventKeepsPath(st, a[0], unique);
        RunConcat(Do(st, a[0], unique).state, a[1..], b, unique);
      }
    }
  }

  lemma RunOne(st: State, e: Event, es: seq<Event>, unique: bool)
    requires StackIsPath(st) && Do(st, e, unique).Ok?
    ensures StackIsPath(Do(st, e, unique).state)
    ensures Run(st, [e] + es, unique) == Run(Do(st, e, unique).state, es, unique)
  {
    hide Do, StackIsPath;
    EveryEventKeepsPath(st, e, unique);
    assert ([e] + es)[1..] == es;
  }

  // ------------------------------------------------------------ replaying a text

  /** The place where the next value goes is an array, or an object of the configuration. */
  ghost predicate Open(st: State, p: Path, unique: bool) {
    && StackIsPath(st) && st.current == To(p)
    && var node := Get(st.root, p); Compound(node) && (node.Table? ==> unique) && (node.Pairs? ==> !unique)
  }

  /** Between `st` and the outcome, the value at `p` has become `node` and nothing else; only the pending name may differ. */
  ghost predicate Became(st: State, p: Path, node: Value, r: Outcome) {
    && st.current == To(p) && HasPath(st.root, p)
    && r.Ok? && r.state.root == Put(st.root, p, node) && r.state.current == To(p) && r.state.stack == st.stack
  }

  function WithItems(node: Value, js: seq<Json>, unique: bool): Value
    requires node.Arr?
  {
    Arr(node.items + Meanings(js, unique))
  }

  function WithPairs(node: Value, ps: seq<Pair>): Value
    requires node.Table? || node.Pairs?
  {
    match node
    case Table(entries) => Table(entries + LastOf(ps))
    case Pairs(members) => Pairs(members + All(ps))
  }

  lemma PutSame(v: Value, p: Path)
    requires HasPath(v, p)
    ensures Put(v, p, Get(v, p)) == v
    decreases |p|
  {
    hide HasChild;
    if p != [] {
      PutSame(Child(v, p[0]), p[1..]);
      SameChild(v, p[0]);
    }
  }

  lemma SameChild(v: Value, s: Step)
    requires HasChild(v, s)
    ensures WithChild(v, s, Child(v, s)) == v
  {
    match s
    case At(i) =>
      if v.Arr? {
        assert v.items[i := v.items[i]] == v.items;
      } else {
        assert v.members[i := v.members[i].(value := v.members[i].value)] == v.members;
      }
    case Key(n) =>
      assert v.entries[n := v.entries[n]] == v.entries;
  }

  /** After `Became`, the place is open again with the new node. */
  lemma StillOpen(st: State, p: Path, node: Value, r: Outcome, unique: bool)
    requires Open(st, p, unique) && Became(st, p, node, r)
    requires Compound(node) && (node.Table? ==> unique) && (node.Pairs? ==> !unique)
    ensures StackIsPath(r.state) && Open(r.state, p, unique) && Get(r.state.root, p) == node
    ensures forall w: Value :: Put(r.state.root, p, w) == Put(st.root, p, w)
  {
    hide HasPath, Get, Put;
    GetOfPut(st.root, p, node);
    forall w: Value ensures Put(r.state.root, p, w) == Put(st.root, p, w) {
      PutTwice(st.root, p, node, w);
    }
  }

  /** Beginning a compound value: it is there, empty and open, one step below. */
  lemma Begins(st: State, p: Path, v: Value, unique: bool)
    requires Open(st, p, unique) && Compound(v) && (v.Table? ==> unique) && (v.Pairs? ==> !unique)
    ensures var node := Get(st.root, p); var q := p + [Place(node, st.name)]; var r := BeginCompound(st, v);
            && r.Ok? && Open(r.state, q, unique) && Get(r.state.root, q) == v
            && r.state.stack == st.stack + [p]
            && forall w: Value :: Put(r.state.root, q, w) == Put(st.root, p, Add(node, st.name, w))
  {
    hide HasPath, Get, Put, Add, Place, HasChild, Child, WithChild;
    var node := Get(st.root, p);
    var added, s := Add(node, st.name, v), Place(node, st.name);
    BeginKeepsPath(st, v);
    GetOfPut(st.root, p, added);
    AddedIsThere(node, st.name, v);
    var root := Put(st.root, p, added);
    OneStepDown(root, p, s);
    forall w: Value ensures Put(root, p + [s], w) == Put(st.root, p, Add(node, st.name, w)) {
      ChangeAdded(node, st.name, v, w);
      PutTwice(st.root, p, added, WithChild(added, s, w));
    }
  }

  /** Ending it: the parent is current again, and holds the value. */
  lemma Ends(st: State, p: Path, begun: State, q: Path, v: Value, r: Outcome)
    requires StackIsPath(st) && st.current == To(p) && Compound(Get(st.root, p))
    requires q == p + [Place(Get(st.root, p), st.name)] && Became(begun, q, v, r) && begun.stack == st.stack + [p]
    requires Put(begun.root, q, v) == Put(st.root, p, Add(Get(st.root, p), st.name, v))
    ensures Became(st, p, Add(Get(st.root, p), st.name, v), EndCompound(r.state))
  {
    hide HasPath, Get, Put, Add, Place;
    assert r.state.stack[..|r.state.stack| - 1] == st.stack;
  }

  lemma {:induction false} ItemsReplay(st: State, p: Path, js: seq<Json>, unique: bool)
    requires Open(st, p, unique) && Get(st.root, p).Arr?
    ensures Became(st, p, WithItems(Get(st.root, p), js, unique), Run(st, ItemEvents(js), unique))
    decreases js, 0
  {
    hide HasPath, Get, Put, Meaning, Do, Events, StackIsPath;
    PathIsThere(st, p, unique);
    var node := Get(st.root, p);
    if js == [] {
      assert WithItems(node, js, unique) == node;
      PutSame(st.root, p);
    } else {
      var v := Meaning(js[0], unique);
      ValueReplays(st, p, js[0], unique);
      RunConcat(st, Events(js[0]), ItemEvents(js[1..]), unique);
      var r := Run(st, Events(js[0]), unique);
      StillOpen(st, p, Add(node, st.name, v), r, unique);
      ItemsReplay(r.state, p, js[1..], unique);
      assert WithItems(node, js, unique) == WithItems(Add(node, st.name, v), js[1..], unique);
    }
  }

  lemma PathIsThere(st: State, p: Path, unique: bool)
    requires Open(st, p, unique)
    ensures StackIsPath(st) && HasPath(st.root, p)
  {
  }

  lemma WithFirstPair(node: Value, ps: seq<Pair>, unique: bool)
    requires ps != [] && (node.Table? || node.Pairs?) && (node.Table? <==> unique)
    ensures WithPairs(node, ps) == WithPairs(Add(node, ps[0].name, Meaning(ps[0].json, unique)), ps[1..])
  {
    hide Meaning;
    var v := Meaning(ps[0].json, unique);
    match node
    case Table(entries) =>
      assert entries + (map[ps[0].name := v] + LastOf(ps[1..])) == entries[ps[0].name := v] + LastOf(ps[1..]);
    case Pairs(members) =>
      assert members + ([Member(ps[0].name, v)] + All(ps[1..])) == (members + [Member(ps[0].name, v)]) + All(ps[1..]);
  }

  lemma WithNoPairs(node: Value)
    requires node.Table? || node.Pairs?
    ensures WithPairs(node, []) == node
  {
    match node
    case Table(entries) => assert entries + map[] == entries;
    case Pairs(members) => assert members + [] == members;
  }

  lemma {:induction false} PairsReplay(st: State, p: Path, ps: seq<Pair>, unique: bool)
    requires Open(st, p, unique) && !Get(st.root, p).Arr?
    ensures Became(st, p, WithPairs(Get(st.root, p), ps), Run(st, PairEvents(ps), unique))
    decreases ps, 0
  {
    hide HasPath, Get, Put, Meaning, Do, Events, StackIsPath, WithPairs;
    PathIsThere(st, p, unique);
    var node := Get(st.root, p);
    if ps == [] {
      WithNoPairs(node);
      PutSame(st.root, p);
    } else {
      var name, v := ps[0].name, Meaning(ps[0].json, unique);
      var named := st.(name := name);
      NameIsSet(st, p, name, unique);
      RunOne(st, NewName(name), Events(ps[0].json) + PairEvents(ps[1..]), unique);
      ValueReplays(named, p, ps[0].json, unique);
      RunConcat(named, Events(ps[0].json), PairEvents(ps[1..]), unique);
      var r := Run(named, Events(ps[0].json), unique);
      StillOpen(named, p, Add(node, name, v), r, unique);
      PairsReplay(r.state, p, ps[1..], unique);
      WithFirstPair(node, ps, unique);
    }
  }

  lemma NameIsSet(st: State, p: Path, name: Name, unique: bool)
    requires Open(st, p, unique) && !Get(st.root, p).Arr?
    ensures Do(st, NewName(name), unique) == Ok(st.(name := name)) && Open(st.(name := name), p, unique)
  {
    hide HasPath, Get, Put;
  }

  /** A value inside an open array or object is added to it, under the name that was pending when it began; the pointer and
      the stack are back where they were. */
  lemma {:induction false} ValueReplays(st: State, p: Path, j: Json, unique: bool)
    requires Open(st, p, unique)
    ensures StackIsPath(st) && Became(st, p, Add(Get(st.root, p), st.name, Meaning(j, unique)), Run(st, Events(j), unique))
    decreases j, 1
  {
    hide HasPath, Get, Put, Add, Do, StackIsPath, Place;
    PathIsThere(st, p, unique);
    match j
    case Atom(s) =>
      ScalarIsAdded(st, p, s, unique);
      RunOne(st, NewScalar(s), [], unique);
      assert [NewScalar(s)] + [] == [NewScalar(s)];
    case List(items) =>
      var q := p + [Place(Get(st.root, p), st.name)];
      Begins(st, p, Arr([]), unique);
      var begun := BeginCompound(st, Arr([])).state;
      DoBegin(st, unique);
      RunOne(st, BeginArray, ItemEvents(items) + [EndArray], unique);
      ItemsReplay(begun, q, items, unique);
      FirstItems(items, unique);
      Closes(st, p, begun, q, Meaning(j, unique), ItemEvents(items), EndArray, unique);
    case Object(pairs) =>
      var q := p + [Place(Get(st.root, p), st.name)];
      var empty := EmptyObject(unique);
      Begins(st, p, empty, unique);
      var begun := BeginCompound(st, empty).state;
      DoBegin(st, unique);
      RunOne(st, BeginObj, PairEvents(pairs) + [EndObj], unique);
      PairsReplay(begun, q, pairs, unique);
      FirstPairs(pairs, unique);
      Closes(st, p, begun, q, Meaning(j, unique), PairEvents(pairs), EndObj, unique);
  }

  lemma FirstItems(js: seq<Json>, unique: bool)
    ensures WithItems(Arr([]), js, unique) == Meaning(List(js), unique)
  {
    assert [] + Meanings(js, unique) == Meanings(js, unique);
  }

  lemma FirstPairs(ps: seq<Pair>, unique: bool)
    ensures WithPairs(EmptyObject(unique), ps) == Meaning(Object(ps), unique)
  {
    assert [] + All(ps) == All(ps);
    assert map[] + LastOf(ps) == LastOf(ps);
  }

  lemma DoBegin(st: State, unique: bool)
    requires StackIsPath(st)
    ensures Do(st, BeginArray, unique) == BeginCompound(st, Arr([]))
    ensures Do(st, BeginObj, unique) == BeginCompound(st, EmptyObject(unique))
  {
  }

  lemma ScalarIsAdded(st: State, p: Path, s: Scalar, unique: bool)
    requires Open(st, p, unique)
    ensures StackIsPath(st) && Became(st, p, Add(Get(st.root, p), st.name, Leaf(s)), Do(st, NewScalar(s), unique))
  {
    hide HasPath, Get, Put, Add;
  }

  /** The event that ends a compound value, after the events of its members. */
  lemma Closes(st: State, p: Path, begun: State, q: Path, v: Value, es: seq<Event>, end: Event, unique: bool)
    requires StackIsPath(st) && st.current == To(p) && Compound(Get(st.root, p)) && (end == EndArray || end == EndObj)
    requires q == p + [Place(Get(st.root, p), st.name)] && begun.stack == st.stack + [p]
    requires StackIsPath(begun) && Became(begun, q, v, Run(begun, es, unique))
    requires Put(begun.root, q, v) == Put(st.root, p, Add(Get(st.root, p), st.name, v))
    ensures Became(st, p, Add(Get(st.root, p), st.name, v), Run(begun, es + [end], unique))
  {
    hide HasPath, Get, Put, Add, Place, EndCompound, StackIsPath;
    var r := Run(begun, es, unique);
    RunConcat(begun, es, [end], unique);
    Ends(st, p, begun, q, v, r);
    RunOne(r.state, end, [], unique);
    assert [end] + [] == [end];
  }

  /** At the start: no value, no stack. */
  function Initial(root: Value): State {
    State(root, NullPointer, [], "")
  }

  /** Replaying the events of a text builds its value, whatever was there before; the pointer ends at the root and the stack
      empty. */
  lemma TextIsRebuilt(j: Json, before: Value, unique: bool)
    ensures var r := Run(Initial(before), Events(j), unique);
            r.Ok? && r.state.root == Meaning(j, unique) && r.state.current == To([]) && r.state.stack == []
  {
    hide Run, Meaning, WithItems, WithPairs;
    var st := Initial(before);
    match j
    case Atom(s) =>
      RunOne(st, NewScalar(s), [], unique);
      assert [NewScalar(s)] + [] == [NewScalar(s)];
      NothingMore(Do(st, NewScalar(s), unique).state, unique);
      LeafMeans(s, unique);
    case List(items) =>
      var begun := st.(root := Arr([]), current := To([]));
      RunOne(st, BeginArray, ItemEvents(items) + [EndArray], unique);
      ItemsReplay(begun, [], items, unique);
      FirstItems(items, unique);
      ClosesRoot(begun, ItemEvents(items), EndArray, Meaning(j, unique), unique);
    case Object(pairs) =>
      var begun := st.(root := EmptyObject(unique), current := To([]));
      RunOne(st, BeginObj, PairEvents(pairs) + [EndObj], unique);
      PairsReplay(begun, [], pairs, unique);
      FirstPairs(pairs, unique);
      ClosesRoot(begun, PairEvents(pairs), EndObj, Meaning(j, unique), unique);
  }

  lemma LeafMeans(s: Scalar, unique: bool)
    ensures Meaning(Atom(s), unique) == Leaf(s)
  {
  }

  lemma NothingMore(st: State, unique: bool)
    requires StackIsPath(st)
    ensures Run(st, [], unique) == Ok(st)
  {
  }

  lemma ClosesRoot(begun: State, es: seq<Event>, end: Event, v: Value, unique: bool)
    requires StackIsPath(begun) && begun.stack == [] && (end == EndArray || end == EndObj)
    requires Became(begun, [], v, Run(begun, es, unique))
    ensures var r := Run(begun, es + [end], unique);
            r.Ok? && r.state.root == v && r.state.current == To([]) && r.state.stack == []
  {
    hide Run;
    var r := Run(begun, es, unique);
    RunConcat(begun, es, [end], unique);
    RunOne(r.state, end, [], unique);
    assert [end] + [] == [end];
    NothingMore(r.state, unique);
  }

  // -------------------------------------------------------------------- the class

  class SemanticActions {
    var value: Value
    var current: Pointer
    var stack: seq<Path>
    var name: Name
    /** Config_map rather than Config_vector. */
    const unique: bool

    constructor (target: Value, unique: bool)
      ensures View() == Initial(target) && this.unique == unique && Valid()
    {
      value := target;
      current := NullPointer;
      stack := [];
      name := "";
      this.unique := unique;
    }

    function View(): State
      reads this
    {
      State(value, current, stack, name)
    }

    ghost predicate Valid()
      reads this
    {
      StackIsPath(View())
    }

    /** add_first and add_to_current, with the pointer that they return. */
    method AddToCurrentValue(v: Value) returns (added: Path)
      requires Valid() && AddToCurrent(View(), v).Ok?
      modifies `value, `current
      ensures Valid() && View() == AddToCurrent(old(View()), v).state
      ensures added == if old(current).NullPointer? then [] else old(current.path + [Place(Get(value, current.path), name)])
    {
      hide HasPath, Get, Put, Add, Place;
      AddKeepsPath(View(), v);
      if current == NullPointer {
        value := v;
        current := To([]);
        added := [];
      } else {
        var p := current.path;
        var node := Get(value, p);
        added := p + [Place(node, name)];
        value := Put(value, p, Add(node, name, v));
      }
    }

    method BeginCompoundValue(v: Value)
      requires Valid() && BeginCompound(View(), v).Ok?
      modifies `value, `current, `stack
      ensures Valid() && View() == BeginCompound(old(View()), v).state
    {
      hide HasPath, Get, Put, Add, Place;
      BeginKeepsPath(View(), v);
      if current == NullPointer {
        var _ := AddToCurrentValue(v);
      } else {
        var parent := current.path;
        var added := AddToCurrentValue(v);
        stack := stack + [parent];
        current := To(added);
      }
    }

    method EndCompoundValue()
      requires Valid() && EndCompound(View()).Ok?
      modifies `current, `stack
      ensures Valid() && View() == EndCompound(old(View())).state
    {
      hide HasPath;
      EndKeepsPath(View());
      if current != To([]) {
        current := To(stack[|stack| - 1]);
        stack := stack[..|stack| - 1];
      }
    }

    method NewNameOf(n: Name)
      requires Valid() && SetName(View(), n).Ok?
      modifies `name
      ensures Valid() && View() == SetName(old(View()), n).state
    {
      name := n;
    }

    /** One action of the grammar. */
    method Act(e: Event)
      requires Valid() && Do(View(), e, unique).Ok?
      modifies this
      ensures Valid() && View() == Do(old(View()), e, unique).state
    {
      hide HasPath, Get, Put, AddToCurrent, BeginCompound, EndCompound, SetName, StackIsPath;
      match e
      case BeginObj => BeginCompoundValue(EmptyObject(unique));
      case BeginArray => BeginCompoundValue(Arr([]));
      case EndObj => EndCompoundValue();
      case EndArray => EndCompoundValue();
      case NewName(n) => NewNameOf(n);
      case NewScalar(s) => var _ := AddToCurrentValue(Leaf(s));
    }
  }

  /** The actions of a whole text, one after another. */
  method Replay(actions: SemanticActions, ghost j: Json, events: seq<Event>)
    requires events == Events(j) && actions.Valid() && exists v :: actions.View() == Initial(v)
    modifies actions
    ensures actions.value == Meaning(j, actions.unique) && actions.current == To([]) && actions.stack == []
  {
    hide StackIsPath, Do, Events, Meaning;
    ghost var start := actions.View();
    TextIsRebuilt(j, start.root, actions.unique);
    for i := 0 to |events|
      invariant actions.Valid() && Run(start, events, actions.unique) == Run(actions.View(), events[i..], actions.unique)
    {
      assert events[i..] == [events[i]] + events[i + 1..];
      NextEvent(actions.View(), events[i], events[i + 1..], actions.unique);
      actions.Act(events[i]);
    }
    NothingMore(actions.View(), actions.unique);
  }

  /** A run that does not break does not break at its first event. */
  lemma NextEvent(st: State, e: Event, es: seq<Event>, unique: bool)
    requires StackIsPath(st) && Run(st, [e] + es, unique).Ok?
    ensures Do(st, e, unique).Ok? && StackIsPath(Do(st, e, unique).state)
    ensures Run(st, [e] + es, unique) == Run(Do(st, e, unique).state, es, unique)
  {
    hide StackIsPath, Do;
    assert ([e] + es)[0] == e && ([e] + es)[1..] == es;
    EveryEventKeepsPath(st, e, unique);
  }
}
