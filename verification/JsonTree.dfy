/** Semantic_actions (utils/json_spirit/json_spirit_reader_template.h): the actions of the JSON grammar build the value piece by
    piece. A pointer into the value is a path from its root. */
module JsonTree {
  type Name = seq<char>

  datatype Scalar = Str(text: string) | True | False | Null | Int(i: int) | Uint64(n: nat) | Real(r: real)

  // ------------------------------------------------- the text's tree and its events

  datatype Json = Atom(scalar: Scalar) | List(items: seq<Json>) | Object(pairs: seq<Pair>)

  datatype Pair = Pair(name: Name, json: Json)

  datatype Event = BeginObj | EndObj | BeginArray | EndArray | NewName(name: Name) | NewScalar(scalar: Scalar)

  /** The actions that the grammar calls for a text, in order. */
  function Events(j: Json): seq<Event>
    decreases j, 1
  {
    match j
    case Atom(s) => [NewScalar(s)]
    case List(items) => [BeginArray] + (ItemEvents(items) + [EndArray])
    case Object(pairs) => [BeginObj] + (PairEvents(pairs) + [EndObj])
  }

  function ItemEvents(js: seq<Json>): seq<Event>
    decreases js, 0
  {
    if js == [] then [] else Events(js[0]) + ItemEvents(js[1..])
  }

  function PairEvents(ps: seq<Pair>): seq<Event>
    decreases ps, 0
  {
    if ps == [] then [] else [NewName(ps[0].name)] + (Events(ps[0].json) + PairEvents(ps[1..]))
  }

  // ------------------------------------------------------------- the value it means

  /** A value; objects are vectors of pairs under Config_vector and maps under Config_map. */
  datatype Value = Leaf(scalar: Scalar) | Arr(items: seq<Value>) | Pairs(members: seq<Member>) | Table(entries: map<Name, Value>)

  datatype Member = Member(name: Name, value: Value)

  /** The value of a text. With `unique` the last pair of a name counts, otherwise all pairs are kept, in order. */
  function Meaning(j: Json, unique: bool): Value
    decreases j, 1
  {
    match j
    case Atom(s) => Leaf(s)
    case List(items) => Arr(Meanings(items, unique))
    case Object(pairs) => if unique then Table(LastOf(pairs)) else Pairs(All(pairs))
  }

  function Meanings(js: seq<Json>, unique: bool): (r: seq<Value>)
    ensures |r| == |js|
    decreases js, 0
  {
    if js == [] then [] else [Meaning(js[0], unique)] + Meanings(js[1..], unique)
  }

  function All(ps: seq<Pair>): (r: seq<Member>)
    ensures |r| == |ps|
    decreases ps, 0
  {
    if ps == [] then [] else [Member(ps[0].name, Meaning(ps[0].json, false))] + All(ps[1..])
  }

  /** Element `i` of an array is the value of its `i`-th item. */
  lemma {:induction false} ItemsInOrder(js: seq<Json>, unique: bool, i: nat)
    requires i < |js|
    ensures var v := Meaning(List(js), unique); v.Arr? && |v.items| == |js| && v.items[i] == Meaning(js[i], unique)
    decreases |js|
  {
    if i > 0 {
      ItemsInOrder(js[1..], unique, i - 1);
    }
  }

  /** Without `unique`, pair `i` of an object is its `i`-th pair, name and value. */
  lemma {:induction false} PairsInOrder(ps: seq<Pair>, i: nat)
    requires i < |ps|
    ensures var v := Meaning(Object(ps), false);
            v.Pairs? && |v.members| == |ps| && v.members[i] == Member(ps[i].name, Meaning(ps[i].json, false))
    decreases |ps|
  {
    if i > 0 {
      PairsInOrder(ps[1..], i - 1);
    }
  }

  /** A name's first pair counts only where none follows. */
  function LastOf(ps: seq<Pair>): map<Name, Value>
    decreases ps, 0
  {
    if ps == [] then map[] else map[ps[0].name := Meaning(ps[0].json, true)] + LastOf(ps[1..])
  }

  /** A name means what its last pair says. */
  lemma {:induction false} LastPairWins(ps: seq<Pair>, k: nat)
    requires k < |ps| && forall i :: k < i < |ps| ==> ps[i].name != ps[k].name
    ensures ps[k].name in LastOf(ps) && LastOf(ps)[ps[k].name] == Meaning(ps[k].json, true)
    decreases |ps|
  {
    hide Meaning;
    if k > 0 {
      LastPairWins(ps[1..], k - 1);
    } else {
      NamesOnly(ps[1..]);
      assert forall i :: 0 <= i < |ps| - 1 ==> ps[1..][i] == ps[i + 1];
    }
  }

  /** Under Config_map an object has the names of its pairs, and no others. */
  lemma NamesOfObject(ps: seq<Pair>, n: Name)
    ensures var v := Meaning(Object(ps), true); v.Table? && (n in v.entries <==> exists i :: 0 <= i < |ps| && ps[i].name == n)
  {
    hide LastOf;
    NamesOnly(ps);
  }

  lemma {:induction false} NamesOnly(ps: seq<Pair>)
    ensures forall n :: n in LastOf(ps) <==> exists i :: 0 <= i < |ps| && ps[i].name == n
    decreases |ps|
  {
    hide Meaning;
    if ps != [] {
      NamesOnly(ps[1..]);
      forall n ensures n in LastOf(ps) <==> exists i :: 0 <= i < |ps| && ps[i].name == n {
        if n in LastOf(ps[1..]) {
          var i :| 0 <= i < |ps| - 1 && ps[1..][i].name == n;
          assert ps[i + 1].name == n;
        }
        if i :| 0 <= i < |ps| && ps[i].name == n && n != ps[0].name {
          assert ps[1..][i - 1].name == n;
        }
      }
    }
  }

  // ------------------------------------------------------------------------- paths

  datatype Step = At(i: nat) | Key(name: Name)

  type Path = seq<Step>

  datatype Pointer = NullPointer | To(path: Path)

  predicate HasChild(v: Value, s: Step) {
    match s
    case At(i) => (v.Arr? && i < |v.items|) || (v.Pairs? && i < |v.members|)
    case Key(n) => v.Table? && n in v.entries
  }

  function Child(v: Value, s: Step): (c: Value)
    requires HasChild(v, s)
  {
    match s
    case At(i) => if v.Arr? then v.items[i] else v.members[i].value
    case Key(n) => v.entries[n]
  }

  function WithChild(v: Value, s: Step, c: Value): Value
    requires HasChild(v, s)
  {
    match s
    case At(i) => if v.Arr? then Arr(v.items[i := c]) else Pairs(v.members[i := v.members[i].(value := c)])
    case Key(n) => Table(v.entries[n := c])
  }

  predicate HasPath(v: Value, p: Path)
    decreases |p|
  {
    p == [] || (HasChild(v, p[0]) && HasPath(Child(v, p[0]), p[1..]))
  }

  /** What the pointer points at. */
  function Get(v: Value, p: Path): Value
    requires HasPath(v, p)
    decreases |p|
  {
    if p == [] then v else Get(Child(v, p[0]), p[1..])
  }

  /** Assigning through the pointer. */
  function Put(v: Value, p: Path, w: Value): Value
    requires HasPath(v, p)
    decreases |p|
  {
    if p == [] then w else WithChild(v, p[0], Put(Child(v, p[0]), p[1..], w))
  }

  lemma ChildOfWith(v: Value, s: Step, c: Value)
    requires HasChild(v, s)
    ensures HasChild(WithChild(v, s, c), s) && Child(WithChild(v, s, c), s) == c
  {
  }

  lemma WithTwice(v: Value, s: Step, c: Value, d: Value)
    requires HasChild(v, s)
    ensures HasChild(WithChild(v, s, c), s) && WithChild(WithChild(v, s, c), s, d) == WithChild(v, s, d)
  {
  }

  lemma {:induction false} GetOfPut(v: Value, p: Path, w: Value)
    requires HasPath(v, p)
    ensures HasPath(Put(v, p, w), p) && Get(Put(v, p, w), p) == w
    decreases |p|
  {
    hide HasChild, Child, WithChild;
    if p != [] {
      var inner := Put(Child(v, p[0]), p[1..], w);
      GetOfPut(Child(v, p[0]), p[1..], w);
      ChildOfWith(v, p[0], inner);
    }
  }

  lemma {:induction false} PutTwice(v: Value, p: Path, w: Value, x: Value)
    requires HasPath(v, p)
    ensures HasPath(Put(v, p, w), p) && Put(Put(v, p, w), p, x) == Put(v, p, x)
    decreases |p|
  {
    hide HasChild, Child, WithChild;
    GetOfPut(v, p, w);
    if p != [] {
      var c := Child(v, p[0]);
      var inner := Put(c, p[1..], w);
      PutTwice(c, p[1..], w, x);
      ChildOfWith(v, p[0], inner);
      WithTwice(v, p[0], inner, Put(c, p[1..], x));
    }
  }

  /** One step further down. */
  lemma {:induction false} OneStepDown(v: Value, p: Path, s: Step)
    requires HasPath(v, p) && HasChild(Get(v, p), s)
    ensures HasPath(v, p + [s]) && Get(v, p + [s]) == Child(Get(v, p), s)
    ensures forall c: Value :: Put(v, p + [s], c) == Put(v, p, WithChild(Get(v, p), s, c))
    decreases |p|
  {
    hide HasChild, Child, WithChild;
    if p == [] {
      assert (p + [s])[0] == s && (p + [s])[1..] == [];
      assert HasPath(Child(v, s), []);
      forall c: Value ensures Put(v, p + [s], c) == Put(v, p, WithChild(Get(v, p), s, c)) {
        assert Put(Child(v, s), [], c) == c;
      }
    } else {
      assert (p + [s])[0] == p[0] && (p + [s])[1..] == p[1..] + [s];
      OneStepDown(Child(v, p[0]), p[1..], s);
    }
  }

  lemma {:induction false} PathAbove(v: Value, p: Path, s: Step)
    requires HasPath(v, p + [s])
    ensures HasPath(v, p) && HasChild(Get(v, p), s)
    decreases |p|
  {
    hide HasChild, Child;
    var q := p + [s];
    if p == [] {
      assert q[0] == s;
    } else {
      assert q[0] == p[0] && q[1..] == p[1..] + [s];
      PathAbove(Child(v, p[0]), p[1..], s);
    }
  }
}
