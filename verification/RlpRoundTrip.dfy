/** Reading a whole tree, and why the strict reader and the encoder are inverse to each other. */
module RlpRoundTrip {
  import opened Numbers
  import opened RlpTree
  import opened RlpReader

  /** What a client gets that opens every item strictly: `isData`, `isList`, and the items one after the other. */
  function ParseItem(d: seq<byte>): Result<Tree>
    decreases |d|, 1
  {
    var kept :- Construct(d, VERY_STRICT);
    if IsData(kept) then
      var p :- Payload(kept);
      Success(Leaf(p))
    else if IsList(kept) then
      var p :- Payload(kept);
      var items :- ParseAll(p);
      Success(Node(items))
    else Failure(BadCast)
  }

  function ParseAll(p: seq<byte>): Result<seq<Tree>>
    decreases |p|, 2
  {
    if p == [] then Success([])
    else
      var size :- SizeAsEncoded(p);
      var first :- ParseItem(p[..size]);
      var rest :- ParseAll(p[size..]);
      Success([first] + rest)
  }

  /** Every payload is short enough for the reader. */
  predicate Readable(t: Tree)
    decreases t, 1
  {
    match t
    case Leaf(d) => |d| < LENGTH_LIMIT
    case Node(items) => |EncodeAll(items)| < LENGTH_LIMIT && AllReadable(items)
  }

  predicate AllReadable(ts: seq<Tree>)
    decreases ts, 0
  {
    ts == [] || (Readable(ts[0]) && AllReadable(ts[1..]))
  }

  /** The first item of a sequence is sized exactly. */
  lemma FirstItem(t: Tree, rest: seq<byte>)
    requires Readable(t)
    ensures Encode(t) != [] && SizeAsEncoded(Encode(t) + rest) == Success(|Encode(t)|)
  {
    match t
    case Leaf(d) => DataIsAccepted(d, rest);
    case Node(items) => ListIsAccepted(EncodeAll(items), rest);
  }

  /** Reading an encoding gives the tree back. */
  lemma {:induction false} ParseOfEncode(t: Tree)
    requires Readable(t)
    ensures ParseItem(Encode(t)) == Success(t)
    decreases t, 1
  {
    assert Encode(t) + [] == Encode(t);
    match t
    case Leaf(d) => DataIsAccepted(d, []);
    case Node(items) =>
      ListIsAccepted(EncodeAll(items), []);
      ParseAllOfEncodeAll(items);
  }

  lemma {:induction false} ParseAllOfEncodeAll(ts: seq<Tree>)
    requires AllReadable(ts)
    ensures ParseAll(EncodeAll(ts)) == Success(ts)
    decreases ts, 0
  {
    if ts != [] {
      var first, rest := Encode(ts[0]), EncodeAll(ts[1..]);
      FirstItem(ts[0], rest);
      ParseOfEncode(ts[0]);
      ParseAllOfEncodeAll(ts[1..]);
      var d := first + rest;
      assert d[..|first|] == first && d[|first|..] == rest;
      assert [ts[0]] + ts[1..] == ts;
    }
  }

  /** Whatever the strict reader accepts is the encoding of what it returns, byte for byte. */
  lemma {:induction false} EncodeOfParse(d: seq<byte>)
    requires ParseItem(d).Success?
    ensures Readable(ParseItem(d).value) && Encode(ParseItem(d).value) == d
    decreases |d|, 1
  {
    AcceptedIsCanonical(d);
    assert d[..|d|] == d;
    if IsList(d) {
      EncodeAllOfParseAll(Payload(d).value);
    }
  }

  lemma {:induction false} EncodeAllOfParseAll(p: seq<byte>)
    requires ParseAll(p).Success?
    ensures AllReadable(ParseAll(p).value) && EncodeAll(ParseAll(p).value) == p
    decreases |p|, 2
  {
    hide SizeAsEncoded, ParseItem, Encode, Readable;
    if p != [] {
      var size := SizeAsEncoded(p).value;
      var first, rest := ParseItem(p[..size]).value, ParseAll(p[size..]).value;
      EncodeOfParse(p[..size]);
      EncodeAllOfParseAll(p[size..]);
      var ts := ParseAll(p).value;
      assert ts[0] == first && ts[1..] == rest;
      assert p == p[..size] + p[size..];
    }
  }

  /** Two-sided inverse: `d` is read as `t` exactly when `d` is the encoding of `t`. */
  lemma ReadsExactlyEncodings(d: seq<byte>, t: Tree)
    ensures ParseItem(d) == Success(t) <==> Readable(t) && d == Encode(t)
  {
    if ParseItem(d).Success? {
      EncodeOfParse(d);
    }
    if Readable(t) {
      ParseOfEncode(t);
    }
  }

  /** No two trees have the same encoding. */
  lemma EncodeInjective(t: Tree, u: Tree)
    requires Readable(t) && Readable(u) && Encode(t) == Encode(u)
    ensures t == u
  {
    ParseOfEncode(t);
    ParseOfEncode(u);
  }
}
