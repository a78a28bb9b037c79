/** What runs of an RLPStream write: the byte machine refines a machine that builds trees. */
module RlpBuilder {
  import opened Numbers
  import opened RlpTree
  import opened RlpWriter

  // ------------------------------------------------ runs of arbitrary calls

  datatype Call =
    | DataCall(data: seq<byte>)
    | OpenCall(count: nat)
    | ListCall(payload: seq<byte>)
    | RawCall(bytes: seq<byte>, itemCount: nat)

  /** One call on the stream, as the methods of RLPStream specify it. */
  ghost function Called(s: Stream, c: Call): Result<Stream>
    requires WellFormed(s)
  {
    match c
    case DataCall(d) => DataAppended(s, d)
    case OpenCall(n) => ListOpened(s, n)
    case ListCall(p) => ListAppended(s, p)
    case RawCall(b, n) => RawAppended(s, b, n)
  }

  ghost function Run(s: Stream, cs: seq<Call>): (r: Result<Stream>)
    requires WellFormed(s)
    ensures r.Success? ==> WellFormed(r.value)
    decreases |cs|
  {
    if cs == [] then Success(s)
    else
      var next := Called(s, cs[0]);
      if next.Failure? then next else CalledKeepsWellFormed(s, cs[0]); Run(next.value, cs[1..])
  }

  /** Nothing before the payload of the outermost list that closed has changed, and the lists around it stay where they were. */
  ghost predicate Extends(s: Stream, s': Stream) {
    && |s'.stack| <= |s.stack|
    && (forall i :: 0 <= i < |s'.stack| ==> s'.stack[i].start == s.stack[i].start)
    && |s'.out| >= |s.out|
    && (|s'.stack| == |s.stack| ==> s'.out == s.out)
    && (|s'.stack| < |s.stack| ==>
          var p := s.stack[|s'.stack|].start;
          p <= |s.out| && s'.out[..p] == s.out[..p])
  }

  /** Counting items keeps the invariant and closes lists without touching what lies before them. */
  lemma {:induction false} NotedKeeps(s: Stream, itemCount: nat)
    requires WellFormed(s) && Noted(s, itemCount).Success?
    ensures WellFormed(Noted(s, itemCount).value) && Extends(s, Noted(s, itemCount).value)
    decreases |s.stack|
  {
    hide EncodeList, Extends;
    if itemCount > 0 && s.stack != [] {
      var last := |s.stack| - 1;
      var top := s.stack[last];
      if top.remaining == itemCount {
        var closed := Stream(s.out[..top.start] + EncodeList(s.out[top.start..]), s.stack[..last]);
        NotedKeeps(closed, 1);
        ClosedExtends(s, closed, Noted(closed, 1).value);
      } else {
        CountedExtends(s, s.stack[last := Frame(top.remaining - itemCount, top.start)]);
      }
    } else {
      CountedExtends(s, s.stack);
    }
  }

  lemma CountedExtends(s: Stream, stack: seq<Frame>)
    requires |stack| == |s.stack| && forall i :: 0 <= i < |stack| ==> stack[i].start == s.stack[i].start
    ensures Extends(s, Stream(s.out, stack))
  {
  }

  /** What extends the stream after its innermost list was closed extends the stream before. */
  lemma ClosedExtends(s: Stream, closed: Stream, end: Stream)
    requires WellFormed(s) && s.stack != []
    requires var last := |s.stack| - 1; var start := s.stack[last].start;
             closed == Stream(s.out[..start] + EncodeList(s.out[start..]), s.stack[..last])
    requires Extends(closed, end)
    ensures Extends(s, end)
  {
    hide EncodeList;
    var k := |end.stack|;
    var start := s.stack[|s.stack| - 1].start;
    if k < |closed.stack| {
      var p := closed.stack[k].start;
      assert p <= start;
      assert end.out[..p] == closed.out[..p] == s.out[..p];
    } else {
      assert end.out[..start] == s.out[..start];
    }
  }

  lemma CalledKeepsWellFormed(s: Stream, c: Call)
    requires WellFormed(s) && Called(s, c).Success?
    ensures WellFormed(Called(s, c).value)
  {
    hide Noted, EncodeData, EncodeList;
    match c
    case DataCall(d) => NotedKeeps(Written(s, EncodeData(d)), 1);
    case OpenCall(n) => if n == 0 { NotedKeeps(Written(s, EncodeList([])), 1); }
    case ListCall(p) => NotedKeeps(Written(s, EncodeList(p)), 1);
    case RawCall(b, n) => NotedKeeps(Written(s, b), n);
  }

  /** Counting a single item never overruns an open list: it can fail only for want of address space. */
  lemma {:induction false} UnitAppendFits(s: Stream)
    requires WellFormed(s)
    ensures Noted(s, 1) != Failure(ItemCountTooLarge)
    ensures |s.out| + 9 * |s.stack| < SIZE_T_COUNT ==> Noted(s, 1).Success?
    decreases |s.stack|
  {
    if s.stack != [] {
      var last := |s.stack| - 1;
      var top := s.stack[last];
      if top.remaining == 1 && |s.out| - top.start < SIZE_T_COUNT {
        EightBytes(|s.out| - top.start);
        UnitAppendFits(Stream(s.out[..top.start] + EncodeList(s.out[top.start..]), s.stack[..last]));
      }
    }
  }

  // ------------------------------------------------------ the abstract machine

  datatype OpenList = OpenList(remaining: nat, items: seq<Tree>)

  /** The finished items, and the lists that are open, outermost first. */
  datatype Builder = Builder(done: seq<Tree>, open: seq<OpenList>)

  predicate Waiting(b: Builder) {
    forall i :: 0 <= i < |b.open| ==> b.open[i].remaining > 0
  }

  function Outer(b: Builder): Builder
    requires b.open != []
  {
    b.(open := b.open[..|b.open| - 1])
  }

  /** Add finished items to the innermost open list; a list this completes becomes an item of the next. */
  function Added(b: Builder, ts: seq<Tree>): (r: Result<Builder>)
    requires Waiting(b)
    ensures r.Success? ==> Waiting(r.value)
    decreases |b.open|
  {
    if ts == [] then Success(b)
    else if b.open == [] then Success(b.(done := b.done + ts))
    else
      var last := |b.open| - 1;
      var top := b.open[last];
      if top.remaining < |ts| then Failure(ItemCountTooLarge)
      else if top.remaining > |ts| then
        Success(b.(open := b.open[last := OpenList(top.remaining - |ts|, top.items + ts)]))
      else if |EncodeAll(top.items + ts)| >= SIZE_T_COUNT then Failure(TooLargeForRLP)
      else Added(Outer(b), [Node(top.items + ts)])
  }

  /** The bytes of a builder: its items serialised, without the headers of the lists still open. */
  ghost function Bytes(b: Builder): seq<byte>
    decreases |b.open|
  {
    if b.open == [] then EncodeAll(b.done) else Bytes(Outer(b)) + EncodeAll(b.open[|b.open| - 1].items)
  }

  ghost function Frames(b: Builder): (r: seq<Frame>)
    requires Waiting(b)
    ensures |r| == |b.open|
    ensures forall i :: 0 <= i < |r| ==> r[i].remaining > 0 && r[i].start <= |Bytes(b)|
    ensures forall i, j :: 0 <= i < j < |r| ==> r[i].start <= r[j].start
    decreases |b.open|
  {
    if b.open == [] then []
    else Frames(Outer(b)) + [Frame(b.open[|b.open| - 1].remaining, |Bytes(Outer(b))|)]
  }

  /** The stream a builder stands for. */
  ghost function Concrete(b: Builder): (s: Stream)
    requires Waiting(b)
    ensures WellFormed(s)
  {
    Stream(Bytes(b), Frames(b))
  }

  ghost function ConcreteResult(r: Result<Builder>): Result<Stream>
    requires r.Success? ==> Waiting(r.value)
  {
    if r.Success? then Success(Concrete(r.value)) else Failure(r.error)
  }

  lemma ConcreteOpen(b: Builder)
    requires Waiting(b) && b.open != []
    ensures var top, outer := b.open[|b.open| - 1], Outer(b);
            Concrete(b) == Stream(Bytes(outer) + EncodeAll(top.items), Frames(outer) + [Frame(top.remaining, |Bytes(outer)|)])
  {
    hide EncodeAll;
  }

  /** The stream with finished items written into the innermost open list. */
  lemma WrittenInto(b: Builder, ts: seq<Tree>)
    requires Waiting(b) && b.open != []
    ensures var top, outer := b.open[|b.open| - 1], Outer(b);
            Written(Concrete(b), EncodeAll(ts)) ==
            Stream(Bytes(outer) + EncodeAll(top.items + ts), Frames(outer) + [Frame(top.remaining, |Bytes(outer)|)])
  {
    hide EncodeAll, Bytes, Frames, Concrete;
    var top, outer := b.open[|b.open| - 1], Outer(b);
    ConcreteOpen(b);
    EncodeAllConcat(top.items, ts);
    Associative(Bytes(outer), EncodeAll(top.items), EncodeAll(ts));
  }

  lemma NothingNoted(s: Stream, n: nat)
    requires WellFormed(s) && (n == 0 || s.stack == [])
    ensures Noted(s, n) == Success(s)
  {
  }

  /** Counting the items just written is adding them to the tree: late header insertion loses nothing. */
  lemma {:induction false} NotedRefines(b: Builder, ts: seq<Tree>)
    requires Waiting(b)
    ensures Noted(Written(Concrete(b), EncodeAll(ts)), |ts|) == ConcreteResult(Added(b, ts))
    decreases |b.open|, 1
  {
    hide EncodeList, Noted;
    var s := Written(Concrete(b), EncodeAll(ts));
    if ts == [] {
      NothingNoted(s, 0);
      assert s == Concrete(b);
    } else if b.open == [] {
      NothingNoted(s, |ts|);
      EncodeAllConcat(b.done, ts);
    } else {
      hide EncodeAll, Concrete, Bytes, Frames, Waiting;
      OpenRefines(b, ts);
    }
  }

  lemma {:induction false} OpenRefines(b: Builder, ts: seq<Tree>)
    requires Waiting(b) && b.open != [] && ts != []
    ensures Noted(Written(Concrete(b), EncodeAll(ts)), |ts|) == ConcreteResult(Added(b, ts))
    decreases |b.open|, 0
  {
    hide EncodeList, EncodeAll, Noted, Bytes, Frames;
    var top, outer := b.open[|b.open| - 1], Outer(b);
    var payload := EncodeAll(top.items + ts);
    WrittenInto(b, ts);
    NotedTop(Bytes(outer), payload, Frames(outer), top.remaining, |ts|);
    if top.remaining > |ts| {
      var last := |b.open| - 1;
      var b' := b.(open := b.open[last := OpenList(top.remaining - |ts|, top.items + ts)]);
      assert Outer(b') == outer && b'.open[last].items == top.items + ts;
      ConcreteOpen(b');
    } else if top.remaining == |ts| && |payload| < SIZE_T_COUNT {
      EncodeAllOne(Node(top.items + ts));
      EncodeNode(top.items + ts);
      NotedRefines(outer, [Node(top.items + ts)]);
    }
  }

  // ------------------------------------------------------- runs that describe trees

  /** A call whose raw bytes, if any, are the serialised items they are said to be. */
  datatype Request =
    | Item(data: seq<byte>)
    | Begin(count: nat)
    | Wrapped(items: seq<Tree>)
    | Raw(items: seq<Tree>)

  ghost function CallOf(q: Request): Call {
    match q
    case Item(d) => DataCall(d)
    case Begin(n) => OpenCall(n)
    case Wrapped(ts) => ListCall(EncodeAll(ts))
    case Raw(ts) => RawCall(EncodeAll(ts), |ts|)
  }

  function Requested(b: Builder, q: Request): (r: Result<Builder>)
    requires Waiting(b)
    ensures r.Success? ==> Waiting(r.value)
  {
    match q
    case Item(d) => if ByteLength(|d|) > 72 then Failure(TooLargeForRLP) else Added(b, [Leaf(d)])
    case Begin(n) => if n == 0 then Added(b, [Node([])]) else Success(b.(open := b.open + [OpenList(n, [])]))
    case Wrapped(ts) => if |EncodeAll(ts)| >= SIZE_T_COUNT then Failure(TooLargeForRLP) else Added(b, [Node(ts)])
    case Raw(ts) => Added(b, ts)
  }

  function RunRequests(b: Builder, qs: seq<Request>): (r: Result<Builder>)
    requires Waiting(b)
    ensures r.Success? ==> Waiting(r.value)
    decreases |qs|
  {
    if qs == [] then Success(b)
    else
      var next := Requested(b, qs[0]);
      if next.Failure? then next else RunRequests(next.value, qs[1..])
  }

  ghost function CallsOf(qs: seq<Request>): seq<Call> {
    if qs == [] then [] else [CallOf(qs[0])] + CallsOf(qs[1..])
  }

  lemma BeginRefines(b: Builder, n: nat)
    requires Waiting(b)
    ensures Called(Concrete(b), OpenCall(n)) == ConcreteResult(Requested(b, Begin(n)))
  {
    hide Noted, Added, EncodeList, Bytes, Frames;
    if n == 0 {
      hide Concrete;
      EncodeAllOne(Node([]));
      NotedRefines(b, [Node([])]);
    } else {
      var b' := b.(open := b.open + [OpenList(n, [])]);
      Snoc(b.open, OpenList(n, []), OpenList(n, []));
      assert Outer(b') == b;
      ConcreteOpen(b');
      assert Bytes(b) + [] == Bytes(b);
    }
  }

  lemma CallRefines(b: Builder, q: Request)
    requires Waiting(b)
    ensures Called(Concrete(b), CallOf(q)) == ConcreteResult(Requested(b, q))
  {
    hide Noted, Added, Concrete, EncodeList, EncodeData;
    match q
    case Item(d) =>
      EncodeAllOne(Leaf(d));
      NotedRefines(b, [Leaf(d)]);
    case Begin(n) =>
      BeginRefines(b, n);
    case Wrapped(ts) =>
      EncodeAllOne(Node(ts));
      NotedRefines(b, [Node(ts)]);
    case Raw(ts) =>
      NotedRefines(b, ts);
  }

  /** Every run of the byte machine is, step by step and failure by failure, the run of the tree machine. */
  lemma {:induction false} RunRefines(b: Builder, qs: seq<Request>)
    requires Waiting(b)
    ensures Run(Concrete(b), CallsOf(qs)) == ConcreteResult(RunRequests(b, qs))
    decreases |qs|
  {
    if qs != [] {
      CallRefines(b, qs[0]);
      var next := Requested(b, qs[0]);
      assert CallsOf(qs)[1..] == CallsOf(qs[1..]);
      if next.Success? {
        RunRefines(next.value, qs[1..]);
      }
    }
  }

  /** A run that ends with no open list has written exactly the encodings of the items it described. */
  lemma CompleteRunEncodes(qs: seq<Request>)
    requires var r := Run(EMPTY, CallsOf(qs)); r.Success? && r.value.stack == []
    ensures RunRequests(Builder([], []), qs).Success?
    ensures Run(EMPTY, CallsOf(qs)).value.out == EncodeAll(RunRequests(Builder([], []), qs).value.done)
  {
    var b := Builder([], []);
    assert Concrete(b) == EMPTY;
    RunRefines(b, qs);
  }

  // ------------------------------------------------------------- replaying a tree

  /** Every size in the tree is a size_t, which is all `append` and `appendList` ask for. */
  predicate Writable(t: Tree)
    decreases t, 1
  {
    match t
    case Leaf(d) => |d| < SIZE_T_COUNT
    case Node(items) => |EncodeAll(items)| < SIZE_T_COUNT && AllWritable(items)
  }

  predicate AllWritable(ts: seq<Tree>)
    decreases ts, 0
  {
    ts == [] || (Writable(ts[0]) && AllWritable(ts[1..]))
  }

  /** The calls that serialise a tree: announce each list, then its items. */
  function Replay(t: Tree): seq<Request>
    decreases t, 1
  {
    match t
    case Leaf(d) => [Item(d)]
    case Node(items) => [Begin(|items|)] + ReplayAll(items)
  }

  function ReplayAll(ts: seq<Tree>): seq<Request>
    decreases ts, 0
  {
    if ts == [] then [] else Replay(ts[0]) + ReplayAll(ts[1..])
  }

  lemma {:induction false} RunConcat(b: Builder, xs: seq<Request>, ys: seq<Request>)
    requires Waiting(b)
    ensures RunRequests(b, xs + ys) ==
            var r := RunRequests(b, xs); if r.Success? then RunRequests(r.value, ys) else r
    decreases |xs|
  {
    if xs == [] {
      assert xs + ys == ys;
    } else {
      assert (xs + ys)[1..] == xs[1..] + ys;
      var next := Requested(b, xs[0]);
      if next.Success? {
        RunConcat(next.value, xs[1..], ys);
      }
    }
  }

  lemma {:induction false} ReplayAdds(b: Builder, t: Tree)
    requires Waiting(b) && Writable(t)
    ensures RunRequests(b, Replay(t)) == Added(b, [t])
    decreases t, 1
  {
    match t
    case Leaf(d) =>
      EightBytes(|d|);
      assert Replay(t)[1..] == [];
    case Node(items) =>
      assert Replay(t)[1..] == ReplayAll(items);
      if items == [] {
        assert t == Node([]);
      } else {
        var b' := b.(open := b.open + [OpenList(|items|, [])]);
        assert [] + items == items;
        ReplayAllAdds(b, [], items);
      }
  }

  /** The items of an open list that are still due, replayed one by one, complete the list. */
  lemma {:induction false} ReplayAllAdds(b: Builder, before: seq<Tree>, ts: seq<Tree>)
    requires Waiting(b) && AllWritable(ts) && ts != []
    requires |EncodeAll(before + ts)| < SIZE_T_COUNT
    ensures RunRequests(b.(open := b.open + [OpenList(|ts|, before)]), ReplayAll(ts)) == Added(b, [Node(before + ts)])
    decreases ts, 0
  {
    hide Added, EncodeAll, Replay, Writable;
    var b' := b.(open := b.open + [OpenList(|ts|, before)]);
    ReplayAdds(b', ts[0]);
    RunConcat(b', Replay(ts[0]), ReplayAll(ts[1..]));
    assert before + [ts[0]] + ts[1..] == before + ts;
    if |ts| == 1 {
      assert ts[1..] == [] && before + [ts[0]] == before + ts;
    }
    AddedOne(b, before, |ts|, ts[0]);
    if |ts| > 1 {
      ReplayAllAdds(b, before + [ts[0]], ts[1..]);
    }
  }

  /** One more item of the innermost list. */
  lemma AddedOne(b: Builder, before: seq<Tree>, n: nat, t: Tree)
    requires Waiting(b) && n > 0 && (n == 1 ==> |EncodeAll(before + [t])| < SIZE_T_COUNT)
    ensures Added(b.(open := b.open + [OpenList(n, before)]), [t]) ==
            if n > 1 then Success(b.(open := b.open + [OpenList(n - 1, before + [t])])) else Added(b, [Node(before + [t])])
  {
    hide EncodeAll, Waiting;
    Snoc(b.open, OpenList(n, before), OpenList(n - 1, before + [t]));
  }

  lemma Snoc<T>(s: seq<T>, x: T, y: T)
    ensures (s + [x])[..|s|] == s && (s + [x])[|s| := y] == s + [y]
  {
  }

  /** Replaying a tree on a fresh stream writes its Yellow Paper encoding and leaves no list open. */
  lemma ReplayEncodes(t: Tree)
    requires Writable(t)
    ensures Run(EMPTY, CallsOf(Replay(t))) == Success(Stream(Encode(t), []))
  {
    var b := Builder([], []);
    assert Concrete(b) == EMPTY;
    RunRefines(b, Replay(t));
    ReplayAdds(b, t);
    assert [] + [t] == [t];
    EncodeAllOne(t);
  }

  // -------------------------------------------------------- serialising a nested vector

  lemma {:induction false} AllWritableAt(ts: seq<Tree>, i: nat)
    requires AllWritable(ts) && i < |ts|
    ensures Writable(ts[i])
  {
    if i > 0 {
      AllWritableAt(ts[1..], i - 1);
    }
  }

  /** The stream `s` with a list of `items` open after it, the first `k` of them written. */
  ghost function Midway(s: Stream, items: seq<Tree>, k: nat): Stream
    requires k <= |items|
  {
    Stream(s.out + EncodeAll(items[..k]), s.stack + [Frame(|items| - k, |s.out|)])
  }

  lemma NextItem(s: Stream, items: seq<Tree>, k: nat)
    requires WellFormed(s) && k < |items| && |EncodeAll(items)| < SIZE_T_COUNT
    ensures WellFormed(Midway(s, items, k))
    ensures Noted(Written(Midway(s, items, k), Encode(items[k])), 1) ==
            if k + 1 < |items| then Success(Midway(s, items, k + 1)) else Noted(Written(s, Encode(Node(items))), 1)
  {
    hide EncodeList, Encode, EncodeAll, Noted;
    var payload := EncodeAll(items[..k + 1]);
    assert items[..k + 1] == items[..k] + [items[k]];
    EncodeAllConcat(items[..k], [items[k]]);
    EncodeAllOne(items[k]);
    EncodeNode(items);
    Associative(s.out, EncodeAll(items[..k]), Encode(items[k]));
    MidwayWellFormed(s, items, k);
    NotedTop(s.out, payload, s.stack, |items| - k, 1);
    if k + 1 == |items| {
      assert items[..k + 1] == items;
    }
  }

  lemma MidwayWellFormed(s: Stream, items: seq<Tree>, k: nat)
    requires WellFormed(s) && k < |items|
    ensures WellFormed(Midway(s, items, k))
  {
  }

  /** `appendVector` on nested vectors: announce the list, then append its elements in order. */
  method AppendVector(stream: RLPStream, t: Tree) returns (r: Outcome)
    requires stream.Valid() && Writable(t)
    modifies stream
    ensures stream.Valid()
    ensures Agrees(r, old(stream.State()), stream.State(), Noted(Written(old(stream.State()), Encode(t)), 1))
    decreases t
  {
    match t
    case Leaf(d) =>
      EightBytes(|d|);
      r := stream.Append(d, false);
    case Node(items) =>
      ghost var s := stream.State();
      r := stream.AppendList(|items|);
      assert items == [] ==> EncodeAll(items) == [];
      if items != [] {
        assert items[..0] == [];
        assert stream.State() == Midway(s, items, 0);
      }
      for i := 0 to |items|
        invariant stream.Valid()
        invariant i < |items| ==> r.Pass? && stream.State() == Midway(s, items, i)
        invariant i == |items| ==> Agrees(r, s, stream.State(), Noted(Written(s, Encode(t)), 1))
      {
        AllWritableAt(items, i);
        NextItem(s, items, i);
        r := AppendVector(stream, items[i]);
      }
  }
}
