/** Windows into memory, and RLP::iterator, which walks a list window by window (libdevcore/RLP.cpp, libdevcore/vector_ref.h). */
module RlpCursor {
  import opened Numbers
  import opened RlpTree
  import opened RlpReader
  import opened RlpRoundTrip

  /** A vector_ref<byte const> into one block of memory: a null reference, or an offset and a length. */
  datatype View = NullView | Window(offset: nat, length: nat) {
    function Size(): nat {
      if NullView? then 0 else length
    }

    /** `cropped(begin, count)`: out of bounds gives the null reference. */
    function Crop(begin: nat, count: nat): View {
      if Window? && begin + count <= length then Window(offset + begin, count) else NullView
    }

    /** `cropped(begin)`: everything from `begin` on. */
    function CropFrom(begin: nat): View {
      if Window? && begin <= length then Window(offset + begin, length - begin) else NullView
    }
  }

  predicate Inside(mem: seq<byte>, v: View) {
    v.Window? ==> v.offset + v.length <= |mem|
  }

  /** The bytes a window shows. */
  function Content(mem: seq<byte>, v: View): (d: seq<byte>)
    requires Inside(mem, v)
    ensures |d| == v.Size()
  {
    if v.NullView? then [] else mem[v.offset..v.offset + v.length]
  }

  /** Part of a part. */
  lemma PartOfPart<T>(s: seq<T>, lo: nat, hi: nat, begin: nat, count: nat)
    requires lo <= hi <= |s| && begin + count <= hi - lo
    ensures s[lo..hi][begin..begin + count] == s[lo + begin..lo + begin + count]
  {
    var x, y := s[lo..hi][begin..begin + count], s[lo + begin..lo + begin + count];
    forall k | 0 <= k < count ensures x[k] == y[k] {
      assert s[lo..hi][begin + k] == s[lo + begin + k];
    }
    assert x == y;
  }

  /** A cropped window shows the cropped bytes. */
  lemma CropShows(mem: seq<byte>, v: View, begin: nat, count: nat)
    requires Inside(mem, v)
    ensures Inside(mem, v.Crop(begin, count))
    ensures Content(mem, v.Crop(begin, count)) == Cropped(Content(mem, v), begin, count)
  {
    if v.Window? && begin + count <= v.length {
      PartOfPart(mem, v.offset, v.offset + v.length, begin, count);
      var w := v.Crop(begin, count);
      assert w.Window? && w.offset == v.offset + begin && w.length == count;
      assert Content(mem, w) == mem[v.offset + begin..v.offset + begin + count];
    }
  }

  /** `payload()` as a window. */
  function PayloadView(mem: seq<byte>, v: View): (r: Result<View>)
    requires Inside(mem, v)
    ensures r.Success? ==> Inside(mem, r.value)
    ensures r.Success? == Payload(Content(mem, v)).Success?
    ensures r.Success? ==> Content(mem, r.value) == Payload(Content(mem, v)).value
    ensures r.Failure? ==> r.error == Payload(Content(mem, v)).error
  {
    var d := Content(mem, v);
    var length :- LengthOf(d);
    CropShows(mem, v, PayloadOffset(d), length);
    if length > |d| then Failure(BadRLP) else Success(v.Crop(PayloadOffset(d), length))
  }

  /** The two fields of an iterator. */
  datatype Place = Place(item: View, remaining: nat)

  predicate PlaceInside(mem: seq<byte>, c: Place) {
    && Inside(mem, c.item)
    && (c.remaining > 0 ==> c.item.Window? && c.item.offset + c.item.length + c.remaining <= |mem|)
  }

  /** What lies between the current item and the end of the payload. */
  function Ahead(mem: seq<byte>, c: Place): seq<byte>
    requires PlaceInside(mem, c)
  {
    if c.remaining == 0 then []
    else mem[c.item.offset + c.item.length..c.item.offset + c.item.length + c.remaining]
  }

  /** `operator++`: the next window is the next item of what is left; at the end it is empty and stays where it is. */
  function Moved(mem: seq<byte>, c: Place): (r: Result<Place>)
    requires PlaceInside(mem, c)
    ensures r.Success? ==> PlaceInside(mem, r.value)
  {
    var size :- SizeAsEncoded(Ahead(mem, c));
    if c.item.NullView? then Success(c)
    else Success(Place(Window(c.item.offset + c.item.length, size), c.remaining - size))
  }

  /** The constructor of `begin()`. */
  function First(mem: seq<byte>, data: View): (r: Result<Place>)
    requires Inside(mem, data)
    ensures r.Success? ==> PlaceInside(mem, r.value)
  {
    if !IsList(Content(mem, data)) then Success(Place(End(data), 0))
    else
      var payload :- PayloadView(mem, data);
      var size :- SizeAsEncoded(Content(mem, payload));
      Success(Place(payload.Crop(0, size), payload.Size() - size))
  }

  /** The current item of `end()`. */
  function End(data: View): View {
    data.CropFrom(data.Size())
  }

  class RlpIterator {
    const mem: seq<byte>
    var m_currentItem: View
    var m_remaining: nat

    ghost function State(): Place
      reads this
    {
      Place(m_currentItem, m_remaining)
    }

    ghost predicate Valid()
      reads this
    {
      PlaceInside(mem, State())
    }

    /** The iterator at the end of any RLP. */
    constructor AtEnd(mem: seq<byte>, data: View)
      requires Inside(mem, data)
      ensures Valid() && this.mem == mem
      ensures State() == Place(End(data), 0)
    {
      this.mem := mem;
      m_currentItem, m_remaining := data.CropFrom(data.Size()), 0;
    }

    /** The iterator at the first item, once the payload and the size of that item are known. */
    constructor AtFirst(mem: seq<byte>, payload: View, size: nat)
      requires Inside(mem, payload) && size <= payload.Size()
      ensures Valid() && this.mem == mem
      ensures State() == Place(payload.Crop(0, size), payload.Size() - size)
    {
      this.mem := mem;
      m_currentItem, m_remaining := payload.Crop(0, size), payload.Size() - size;
    }

    method Next() returns (r: Outcome)
      requires Valid()
      modifies this
      ensures match Moved(mem, old(State()))
              case Failure(e) => r == Fail(e)
              case Success(c) => r == Pass && Valid() && State() == c
    {
      if m_currentItem.NullView? {
        return Pass;
      }
      var next := m_currentItem.offset + m_currentItem.length;
      ghost var ahead := Ahead(mem, State());
      if m_remaining != 0 {
        m_currentItem := Window(next, m_remaining);
        assert Content(mem, m_currentItem) == ahead;
        var encoded := SizeAsEncoded(Content(mem, m_currentItem));
        if encoded.Failure? {
          return Fail(encoded.error);
        }
        var size := encoded.value;
        m_currentItem := m_currentItem.Crop(0, size);
        m_remaining := m_remaining - (if m_remaining < size then m_remaining else size);
      } else {
        m_currentItem := Window(next, 0);
      }
      return Pass;
    }
  }

  /** `begin()`. */
  method Begin(mem: seq<byte>, data: View) returns (r: Result<RlpIterator>)
    requires Inside(mem, data)
    ensures r.Success? ==> fresh(r.value) && r.value.Valid() && r.value.mem == mem
    ensures match First(mem, data)
            case Failure(e) => r == Failure(e)
            case Success(c) => r.Success? && r.value.State() == c
  {
    if !IsList(Content(mem, data)) {
      var end := new RlpIterator.AtEnd(mem, data);
      return Success(end);
    }
    var payload :- PayloadView(mem, data);
    var size :- SizeAsEncoded(Content(mem, payload));
    var first := new RlpIterator.AtFirst(mem, payload, size);
    return Success(first);
  }

  // ----------------------------------------------------------- reading a whole tree

  ghost function Prepend(ts: seq<Tree>, r: Result<seq<Tree>>): Result<seq<Tree>> {
    if r.Success? then Success(ts + r.value) else r
  }

  lemma PrependNone(r: Result<seq<Tree>>)
    ensures Prepend([], r) == r
  {
    if r.Success? {
      assert [] + r.value == r.value;
    }
  }

  lemma ParseStep(p: seq<byte>, done: seq<Tree>, tail: seq<byte>, size: nat)
    requires tail != [] && SizeAsEncoded(tail) == Success(size)
    requires ParseAll(p) == Prepend(done, ParseAll(tail))
    ensures match ParseItem(tail[..size])
            case Failure(e) => ParseAll(p) == Failure(e)
            case Success(t) => ParseAll(p) == Prepend(done + [t], ParseAll(tail[size..]))
  {
    var first := ParseItem(tail[..size]);
    if first.Success? && ParseAll(tail[size..]).Success? {
      Associative(done, [first.value], ParseAll(tail[size..]).value);
    }
  }

  /** The recursive reading loop (`for (auto i: _d)`), on any bytes: it returns the tree or fails as `ParseItem` does. */
  method ReadTree(mem: seq<byte>, v: View) returns (r: Result<Tree>)
    requires Inside(mem, v)
    ensures r == ParseItem(Content(mem, v))
    decreases v.Size(), 2
  {
    var d := Content(mem, v);
    var kept :- Construct(d, VERY_STRICT);
    if IsData(kept) {
      var p :- Payload(kept);
      return Success(Leaf(p));
    } else if !IsList(kept) {
      return Failure(BadCast);
    }
    AcceptedIsCanonical(d);
    var items :- ReadItems(mem, v);
    return Success(Node(items));
  }

  /** `v` is a list that fills its window. */
  ghost predicate ExactList(mem: seq<byte>, v: View) {
    && Inside(mem, v) && v.Window? && IsList(Content(mem, v))
    && ActualSize(Content(mem, v)) == Success(v.length)
  }

  method ReadItems(mem: seq<byte>, v: View) returns (r: Result<seq<Tree>>)
    requires ExactList(mem, v) && Payload(Content(mem, v)).Success?
    ensures r == ParseAll(Payload(Content(mem, v)).value)
    decreases v.Size(), 1
  {
    ghost var p := Payload(Content(mem, v)).value;
    ExactPayload(mem, v);
    ParseFails(p);
    var it :- Begin(mem, v);
    var endIterator := new RlpIterator.AtEnd(mem, v);
    var end := endIterator.m_currentItem;
    var items: seq<Tree> := [];
    ghost var tail := p;
    PrependNone(ParseAll(p));
    while it.m_currentItem != end
      invariant fresh(it) && it.Valid() && it.mem == mem
      invariant Cursor(mem, v, it.m_currentItem, it.m_remaining, tail)
      invariant ParseAll(p) == Prepend(items, ParseAll(tail))
      decreases |tail|
    {
      ghost var size := it.m_currentItem.length;
      var item :- ReadAndAdvance(v, it, p, items, tail);
      items := items + [item];
      tail := tail[size..];
    }
    assert tail == [] && items + [] == items;
    return Success(items);
  }

  /** One turn of the loop: read the item under the iterator and move on. */
  method ReadAndAdvance(v: View, it: RlpIterator, ghost p: seq<byte>, ghost done: seq<Tree>, ghost tail: seq<byte>)
      returns (r: Result<Tree>)
    requires it.Valid() && Cursor(it.mem, v, it.m_currentItem, it.m_remaining, tail)
    requires it.m_currentItem != Window(v.offset + v.length, 0)
    requires ParseAll(p) == Prepend(done, ParseAll(tail))
    modifies it
    ensures old(it.m_currentItem.Window? && 0 < it.m_currentItem.length <= |tail|)
    ensures r.Failure? ==> ParseAll(p) == Failure(r.error)
    ensures r.Success? ==>
              var rest := tail[old(it.m_currentItem.length)..];
              && it.Valid() && Cursor(it.mem, v, it.m_currentItem, it.m_remaining, rest)
              && ParseAll(p) == Prepend(done + [r.value], ParseAll(rest))
    decreases v.Size(), 0
  {
    hide SizeAsEncoded, ParseAll, ParseItem;
    var current := it.m_currentItem;
    ghost var remaining := it.m_remaining;
    CursorAtItem(it.mem, v, current, remaining, tail);
    ghost var rest := tail[current.length..];
    ParseStep(p, done, tail, current.length);
    var item :- ReadTree(it.mem, current);
    assert Ahead(it.mem, it.State()) == rest;
    ParseFails(rest);
    var moved := it.Next();
    if moved.Fail? {
      return Failure(moved.error);
    }
    CursorMoves(it.mem, v, current, remaining, tail, it.m_currentItem.length);
    return Success(item);
  }

  /** The iterator is at the first item of `tail`, which is what is left of the window `v`. */
  ghost predicate Cursor(mem: seq<byte>, v: View, item: View, remaining: nat, tail: seq<byte>) {
    && Inside(mem, v) && v.Window?
    && item.Window? && v.offset < item.offset && item.offset + item.length + remaining == v.offset + v.length
    && tail == mem[item.offset..v.offset + v.length]
    && SizeAsEncoded(tail) == Success(item.length)
  }

  lemma CursorAtItem(mem: seq<byte>, v: View, item: View, remaining: nat, tail: seq<byte>)
    requires Cursor(mem, v, item, remaining, tail) && item != Window(v.offset + v.length, 0)
    ensures tail != [] && 0 < item.length < v.length && item.length <= |tail|
    ensures tail[..item.length] == Content(mem, item)
    ensures tail[item.length..] == mem[item.offset + item.length..item.offset + item.length + remaining]
  {
  }

  lemma CursorMoves(mem: seq<byte>, v: View, item: View, remaining: nat, tail: seq<byte>, size: nat)
    requires Cursor(mem, v, item, remaining, tail) && item.length <= |tail|
    requires SizeAsEncoded(tail[item.length..]) == Success(size)
    ensures size <= remaining
    ensures Cursor(mem, v, Window(item.offset + item.length, size), remaining - size, tail[item.length..])
  {
    assert tail[item.length..] == mem[item.offset + item.length..v.offset + v.length];
  }

  lemma ParseFails(tail: seq<byte>)
    ensures SizeAsEncoded(tail).Failure? ==> ParseAll(tail) == Failure(SizeAsEncoded(tail).error)
  {
  }

  /** The payload of an exact list is the rest of its window. */
  lemma ExactPayload(mem: seq<byte>, v: View)
    requires ExactList(mem, v)
    ensures var d := Content(mem, v); var offset := PayloadOffset(d);
            && 0 < offset <= v.length
            && PayloadView(mem, v) == Success(Window(v.offset + offset, v.length - offset))
            && Payload(d) == Success(mem[v.offset + offset..v.offset + v.length])
  {
    hide EncodeData, EncodeList, RequireGood, LongLength;
    AcceptedIsCanonical(Content(mem, v));
  }
}
