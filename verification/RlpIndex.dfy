/** Where the items of a payload lie: `items()`, the cached `operator[]`, and the orbit of the iterator. */
module RlpIndex {
  import opened Numbers
  import opened RlpTree
  import opened RlpReader
  import opened RlpRoundTrip
  import opened RlpCursor

  /** The offsets at which items begin, from `start` on, and the end: each is one item's size after the one before. */
  function Boundaries(p: seq<byte>, start: nat): Result<seq<nat>>
    requires start <= |p|
    decreases |p| - start
  {
    if start == |p| then Success([start])
    else
      var size :- SizeAsEncoded(p[start..]);
      var rest :- Boundaries(p, start + size);
      Success([start] + rest)
  }

  ghost predicate ItemAt(p: seq<byte>, b: seq<nat>, k: nat)
    requires k + 1 < |b|
  {
    b[k] < b[k + 1] <= |p| && SizeAsEncoded(p[b[k]..]) == Success(b[k + 1] - b[k])
  }

  /** `b` cuts `p` from `b[0]` on into consecutive items that leave no gap. */
  ghost predicate Tiles(p: seq<byte>, b: seq<nat>) {
    && |b| > 0 && b[|b| - 1] == |p|
    && (forall k: nat :: k + 1 < |b| ==> ItemAt(p, b, k))
  }

  lemma {:induction false} BoundariesTile(p: seq<byte>, start: nat)
    requires start <= |p| && Boundaries(p, start).Success?
    ensures var b := Boundaries(p, start).value; Tiles(p, b) && b[0] == start && |b| <= |p| - start + 1
    decreases |p| - start
  {
    hide SizeAsEncoded;
    if start < |p| {
      var size := SizeAsEncoded(p[start..]).value;
      BoundariesTile(p, start + size);
      var b, rest := Boundaries(p, start).value, Boundaries(p, start + size).value;
      assert b == [start] + rest;
      forall k: nat | k + 1 < |b|
        ensures ItemAt(p, b, k)
      {
        if k > 0 {
          assert ItemAt(p, rest, k - 1);
        }
      }
    }
  }

  /** `items()`: the loop that drops one item after the other; it fails just where the boundaries do. */
  method CountItems(d: seq<byte>) returns (r: Result<nat>)
    ensures !IsList(d) ==> r == Success(0)
    ensures IsList(d) ==>
              match Payload(d)
              case Failure(e) => r == Failure(e)
              case Success(p) =>
                match Boundaries(p, 0)
                case Failure(e) => r == Failure(e)
                case Success(b) => r == Success(|b| - 1)
  {
    hide SizeAsEncoded, Payload;
    if !IsList(d) {
      return Success(0);
    }
    var p :- Payload(d);
    var left := p;
    var i := 0;
    while left != []
      invariant |left| <= |p| && left == p[|p| - |left|..]
      invariant match Boundaries(p, |p| - |left|)
                case Failure(e) => Boundaries(p, 0) == Failure(e)
                case Success(b) => Boundaries(p, 0).Success? && |Boundaries(p, 0).value| == i + |b|
      decreases |left|
    {
      var size :- SizeAsEncoded(left);
      left := left[size..];
      i := i + 1;
    }
    return Success(i);
  }

  // ------------------------------------------------------------ the iterator's orbit

  /** The place of an iterator after `begin()` and `k` increments. */
  ghost function Orbit(mem: seq<byte>, v: View, k: nat): (r: Result<Place>)
    requires Inside(mem, v)
    ensures r.Success? ==> PlaceInside(mem, r.value)
  {
    if k == 0 then First(mem, v)
    else
      var before :- Orbit(mem, v, k - 1);
      Moved(mem, before)
  }

  /** `v` holds a list whose payload `payload` is all there and is cut into items at `b`. */
  ghost predicate Listing(mem: seq<byte>, v: View, payload: View, b: seq<nat>) {
    && Inside(mem, v) && IsList(Content(mem, v))
    && PayloadView(mem, v) == Success(payload) && payload.Window?
    && Boundaries(Content(mem, payload), 0) == Success(b)
  }

  /** The `k`-th window of the tiling, and from the last one on the empty window at the end. */
  ghost function PlaceAt(payload: View, b: seq<nat>, k: nat): Place
    requires payload.Window?
  {
    if k + 1 < |b| && b[k] <= b[k + 1] <= payload.length then
      Place(Window(payload.offset + b[k], b[k + 1] - b[k]), payload.length - b[k + 1])
    else Place(Window(payload.offset + payload.length, 0), 0)
  }

  /** Where the item at cut `k` ends. */
  function NextCut(b: seq<nat>, k: nat, length: nat): nat {
    if k + 1 < |b| then b[k + 1] else length
  }

  /** At every cut, the size the bytes announce is the distance to the next cut. */
  lemma ItemAtCut(mem: seq<byte>, payload: View, b: seq<nat>, k: nat)
    requires Inside(mem, payload) && payload.Window? && Tiles(Content(mem, payload), b) && k < |b|
    ensures b[k] <= NextCut(b, k, payload.length) <= payload.length
    ensures k + 1 < |b| ==> b[k] < b[k + 1]
    ensures k + 1 == |b| ==> b[k] == payload.length
    ensures var here := Window(payload.offset + b[k], payload.length - b[k]);
            && payload.CropFrom(b[k]) == here && Inside(mem, here)
            && SizeAsEncoded(Content(mem, here)) == Success(NextCut(b, k, payload.length) - b[k])
  {
    hide SizeAsEncoded;
    NothingHasSizeZero();
    var p := Content(mem, payload);
    if k + 1 < |b| {
      assert ItemAt(p, b, k);
    }
    assert p[b[k]..] == Content(mem, Window(payload.offset + b[k], payload.length - b[k]));
  }

  /** One increment moves from the `k`-th place to the next. */
  lemma IncrementMoves(mem: seq<byte>, payload: View, b: seq<nat>, k: nat)
    requires Inside(mem, payload) && payload.Window? && Tiles(Content(mem, payload), b)
    ensures PlaceInside(mem, PlaceAt(payload, b, k))
    ensures Moved(mem, PlaceAt(payload, b, k)) == Success(PlaceAt(payload, b, k + 1))
  {
    hide SizeAsEncoded, Tiles, Content, Ahead;
    var here := PlaceAt(payload, b, k);
    if k + 1 < |b| {
      ItemAtCut(mem, payload, b, k);
      ItemAtCut(mem, payload, b, k + 1);
      AheadIs(mem, here, Window(payload.offset + b[k + 1], payload.length - b[k + 1]));
    } else {
      AheadIs(mem, here, Window(payload.offset + payload.length, 0));
      NothingHasSizeZero();
    }
  }

  lemma AheadIs(mem: seq<byte>, c: Place, rest: View)
    requires Inside(mem, rest) && rest.Window? && c.item.Window?
    requires c.item.offset + c.item.length == rest.offset && c.remaining == rest.length
    ensures PlaceInside(mem, c) && Ahead(mem, c) == Content(mem, rest)
  {
  }

  lemma FirstItemIsFirst(mem: seq<byte>, v: View, payload: View, b: seq<nat>)
    requires Listing(mem, v, payload, b)
    ensures First(mem, v) == Success(PlaceAt(payload, b, 0))
  {
    hide SizeAsEncoded, Boundaries, PayloadView, Content;
    BoundariesTile(Content(mem, payload), 0);
    ItemAtCut(mem, payload, b, 0);
    assert payload.CropFrom(0) == payload;
  }

  /** Iterating visits the items in order, each window starting where the one before ends, and then stands still. */
  lemma {:induction false} OrbitVisits(mem: seq<byte>, v: View, payload: View, b: seq<nat>, k: nat)
    requires Listing(mem, v, payload, b)
    ensures Tiles(Content(mem, payload), b) && b[0] == 0
    ensures Orbit(mem, v, k) == Success(PlaceAt(payload, b, k))
    decreases k
  {
    hide SizeAsEncoded, PayloadView, Boundaries, Moved, First, Content, PlaceAt;
    BoundariesTile(Content(mem, payload), 0);
    if k == 0 {
      FirstItemIsFirst(mem, v, payload, b);
    } else {
      OrbitVisits(mem, v, payload, b, k - 1);
      IncrementMoves(mem, payload, b, k - 1);
    }
  }

  /** The comparison with `end()` succeeds from the increment after the last item on, provided the payload ends where the data
      does; on data with bytes to spare it never succeeds. */
  lemma EndIsReached(mem: seq<byte>, v: View, payload: View, b: seq<nat>, k: nat)
    requires Listing(mem, v, payload, b)
    ensures Orbit(mem, v, k).Success?
    ensures Orbit(mem, v, k).value.item == End(v) <==>
            k >= |b| - 1 && payload.offset + payload.length == v.offset + v.length
  {
    OrbitVisits(mem, v, payload, b, k);
    if k + 1 < |b| {
      ItemAtCut(mem, payload, b, k);
    }
  }

  // --------------------------------------------------------------- operator[]

  /** The offsets that are reached from `start` item by item: up to the end, or up to a place where no item begins. */
  function Reach(p: seq<byte>, start: nat): seq<nat>
    requires start <= |p|
    decreases |p| - start
  {
    if start == |p| then [start]
    else
      match SizeAsEncoded(p[start..])
      case Failure(_) => [start]
      case Success(size) => [start] + Reach(p, start + size)
  }

  /** `b` leads through `p` from item to item, and no further item begins at its last place. */
  ghost predicate Chain(p: seq<byte>, b: seq<nat>) {
    && 0 < |b| <= |p| + 1 && b[|b| - 1] <= |p|
    && (forall k: nat :: k + 1 < |b| ==> ItemAt(p, b, k))
    && (b[|b| - 1] < |p| ==> SizeAsEncoded(p[b[|b| - 1]..]).Failure?)
  }

  lemma {:induction false} ReachIsChain(p: seq<byte>, start: nat)
    requires start <= |p|
    ensures var b := Reach(p, start); Chain(p, b) && b[0] == start && |b| <= |p| - start + 1
    decreases |p| - start
  {
    hide SizeAsEncoded;
    var b := Reach(p, start);
    if start < |p| && SizeAsEncoded(p[start..]).Success? {
      var size := SizeAsEncoded(p[start..]).value;
      ReachIsChain(p, start + size);
      var rest := Reach(p, start + size);
      assert b == [start] + rest;
      forall k: nat | k + 1 < |b|
        ensures ItemAt(p, b, k)
      {
        if k > 0 {
          assert ItemAt(p, rest, k - 1);
        }
      }
    }
  }

  /** What `items()` goes through, and fails at, is what can be reached. */
  lemma {:induction false} BoundariesAreReach(p: seq<byte>, start: nat)
    requires start <= |p|
    ensures var b := Reach(p, start);
            && |b| > 0 && b[|b| - 1] <= |p|
            && if b[|b| - 1] == |p| then Boundaries(p, start) == Success(b)
               else SizeAsEncoded(p[b[|b| - 1]..]).Failure?
                    && Boundaries(p, start) == Failure(SizeAsEncoded(p[b[|b| - 1]..]).error)
    decreases |p| - start
  {
    hide SizeAsEncoded;
    if start < |p| && SizeAsEncoded(p[start..]).Success? {
      BoundariesAreReach(p, start + SizeAsEncoded(p[start..]).value);
    }
  }

  /** The first item of any bytes stands by itself. */
  lemma ItemStandsAlone(d: seq<byte>, size: nat)
    requires SizeAsEncoded(d) == Success(size)
    ensures size <= |d| && ActualSize(d[..size]) == Success(size)
    ensures Construct(d[..size], THROW_IF_TOO_SMALL) == Success(d[..size])
  {
    hide EncodeData, EncodeList;
    if d != [] {
      AcceptedIsCanonical(d);
      var e, p := d[..size], Payload(d).value;
      assert e + [] == e;
      hide ActualSize, Payload;
      if IsData(d) {
        DataIsAccepted(p, []);
      } else {
        ListIsAccepted(p, []);
      }
    } else {
      assert d[..size] == [];
    }
  }

  /** Where an item cannot be sized, it cannot be opened either. */
  lemma NotOpened(d: seq<byte>)
    requires SizeAsEncoded(d).Failure?
    ensures Construct(d, THROW_IF_TOO_SMALL) == Failure(SizeAsEncoded(d).error)
  {
    hide ActualSize;
  }

  class RLP {
    const mem: seq<byte>
    const m_data: View
    var m_lastIndex: nat
    var m_lastEnd: nat
    var m_lastItem: View

    /** The payload is all there. */
    ghost predicate HasPayload() {
      Inside(mem, m_data) && PayloadView(mem, m_data).Success?
    }

    ghost function PayloadWindow(): (w: View)
      requires HasPayload()
      ensures Inside(mem, w)
    {
      PayloadView(mem, m_data).value
    }

    ghost function PayloadBytes(): seq<byte>
      requires HasPayload()
    {
      Content(mem, PayloadWindow())
    }

    ghost function Cuts(): (b: seq<nat>)
      requires HasPayload()
      ensures Chain(PayloadBytes(), b) && b[0] == 0
    {
      ReachIsChain(PayloadBytes(), 0);
      Reach(PayloadBytes(), 0)
    }

    /** The payload consists of items to its end. */
    ghost predicate Complete()
      requires HasPayload()
    {
      Cuts()[|Cuts()| - 1] == |PayloadBytes()|
    }

    ghost predicate Readable() {
      HasPayload() && Complete()
    }

    /** The window of item `i`, and the empty one at the end for every index past the last. */
    ghost function ItemView(i: nat): View
      requires HasPayload()
    {
      var w, b := PayloadWindow(), Cuts();
      if i + 1 < |b| && b[i] <= b[i + 1] then w.CropFrom(b[i]).Crop(0, b[i + 1] - b[i]) else w.CropFrom(w.Size())
    }

    /** Why the last place reached is not an item. */
    ghost function Break(): Error
      requires HasPayload() && !Complete()
    {
      SizeAsEncoded(PayloadBytes()[Cuts()[|Cuts()| - 1]..]).error
    }

    /** What index `i` shows: the item, nothing at all behind the last one, or the exception of the item that is broken. */
    ghost function Served(i: nat): Result<View>
      requires Inside(mem, m_data)
    {
      if !HasPayload() then Failure(PayloadView(mem, m_data).error)
      else if i + 1 < |Cuts()| || Complete() then Success(ItemView(i))
      else Failure(Break())
    }

    ghost predicate Unused()
      reads this
    {
      m_lastIndex == SIZE_T_COUNT - 1 && m_lastEnd == 0 && m_lastItem == NullView
    }

    /** The cache holds an item, or the place one past the last, with the offset right behind it. */
    ghost predicate OnItem()
      reads this
    {
      && HasPayload() && m_lastIndex < |Cuts()| && (m_lastIndex + 1 < |Cuts()| || Complete())
      && m_lastItem == ItemView(m_lastIndex)
      && m_lastEnd == if m_lastIndex + 1 < |Cuts()| then Cuts()[m_lastIndex + 1] else |PayloadBytes()|
    }

    /** After an access that failed: the index of the last good item, but the bytes behind it. */
    ghost predicate Spoiled()
      reads this
    {
      && HasPayload() && !Complete() && m_lastIndex + 2 == |Cuts()|
      && m_lastEnd == Cuts()[m_lastIndex + 1] && m_lastItem == PayloadWindow().CropFrom(m_lastEnd)
    }

    ghost predicate Valid()
      reads this
    {
      |mem| <= MAX_VECTOR && Inside(mem, m_data) && (Unused() || OnItem() || Spoiled())
    }

    constructor (mem: seq<byte>, data: View)
      requires |mem| <= MAX_VECTOR && Inside(mem, data)
      ensures this.mem == mem && m_data == data && Unused() && Valid()
    {
      this.mem, m_data := mem, data;
      m_lastIndex, m_lastEnd, m_lastItem := SIZE_T_COUNT - 1, 0, NullView;
    }

    /** What `operator[]` answers in the present state: `Served`, but for two quirks. The largest size_t is what an unused cache
        holds for its index; and the index before a broken item, once that one was asked for, throws as well. */
    ghost function Answer(i: nat): Result<View>
      requires Inside(mem, m_data)
      reads this
    {
      if Unused() && i == m_lastIndex then Success(NullView)
      else if Spoiled() && i == m_lastIndex then Failure(Break())
      else Served(i)
    }

    /** Every item found is a window of its own size, and the place behind it is found again. */
    lemma ItemFound(k: nat)
      requires HasPayload() && k < |Cuts()|
      ensures var b, w := Cuts(), PayloadWindow();
              var here := w.CropFrom(b[k]);
              && b[k] <= w.Size() && Inside(mem, here) && Content(mem, here) == PayloadBytes()[b[k]..]
              && (k + 1 < |b| || Complete() ==>
                    && SizeAsEncoded(Content(mem, here)).Success?
                    && var size := SizeAsEncoded(Content(mem, here)).value;
                       && here.Crop(0, size) == ItemView(k) && ItemView(k).Size() == size
                       && b[k] + size == (if k + 1 < |b| then b[k + 1] else w.Size())
                       && Inside(mem, ItemView(k)) && Content(mem, ItemView(k)) == Content(mem, here)[..size]
                       && (size == 0 <==> k + 1 == |b|))
              && (k + 1 == |b| && !Complete() ==> SizeAsEncoded(Content(mem, here)) == Failure(Break()) && here.Size() > 0)
    {
      hide SizeAsEncoded, PayloadView, Reach;
      var b, w := Cuts(), PayloadWindow();
      NothingHasSizeZero();
      if k + 1 < |b| {
        assert ItemAt(PayloadBytes(), b, k);
      }
      Cropping(mem, w, b[k]);
    }

    /** Start over at item 0. */
    method Rewind() returns (r: Outcome)
      requires Valid()
      modifies this
      ensures Valid()
      ensures match Served(0)
              case Success(_) => r == Pass && OnItem() && m_lastIndex == 0
              case Failure(e) => r == Fail(e) && m_lastIndex == old(m_lastIndex) && m_lastEnd == old(m_lastEnd)
                                 && m_lastItem == old(m_lastItem)
    {
      hide SizeAsEncoded, PayloadView, Content;
      var payload := PayloadView(mem, m_data);
      if payload.Failure? {
        return Fail(payload.error);
      }
      ItemFound(0);
      CropNothing(mem, payload.value);
      var first := SizeAsEncoded(Content(mem, payload.value));
      if first.Failure? {
        return Fail(first.error);
      }
      m_lastEnd := first.value;
      m_lastItem := payload.value.Crop(0, m_lastEnd);
      m_lastIndex := 0;
      return Pass;
    }

    /** One turn of the loop, from an item on. */
    method Advance() returns (r: Outcome)
      requires Valid() && !Unused() && m_lastItem.Size() != 0
      modifies this
      ensures Valid() && !Unused()
      ensures old(m_lastIndex) + 1 < |Cuts()|
      ensures if old(m_lastIndex) + 2 < |Cuts()| || Complete()
              then r == Pass && OnItem() && m_lastIndex == old(m_lastIndex) + 1
              else r == Fail(Break()) && Spoiled() && m_lastIndex == old(m_lastIndex)
    {
      hide SizeAsEncoded, PayloadView, Content, ItemView, Cuts, Chain;
      ItemFound(m_lastIndex);
      ItemFound(m_lastIndex + 1);
      var payload := PayloadView(mem, m_data).value;
      m_lastItem := payload.CropFrom(m_lastEnd);
      var size := SizeAsEncoded(Content(mem, m_lastItem));
      if size.Failure? {
        return Fail(size.error);
      }
      m_lastItem := m_lastItem.Crop(0, size.value);
      m_lastEnd := m_lastEnd + m_lastItem.Size();
      m_lastIndex := m_lastIndex + 1;
      return Pass;
    }

    /** `operator[]`, after any accesses before, whether they failed or not. */
    method At(i: nat) returns (r: Result<View>)
      requires Valid() && i < SIZE_T_COUNT
      modifies this
      ensures Valid() && r == old(Answer(i))
      ensures r.Success? ==> OnItem() || (old(Unused()) && i == SIZE_T_COUNT - 1 && Unused())
      ensures r.Failure? && HasPayload() && |Cuts()| > 1 ==> Spoiled()
    {
      hide SizeAsEncoded, PayloadView, Content, ItemView, Cuts, Construct;
      ghost var answer := Answer(i);
      OneState();
      if i < m_lastIndex {
        var o := Rewind();
        if o.Fail? {
          return Failure(o.error);
        }
        OneState();
      }
      while m_lastIndex < i && m_lastItem.Size() != 0
        invariant Valid() && m_lastIndex <= i && Answer(i) == answer && (Unused() ==> old(Unused()))
        decreases i - m_lastIndex
      {
        var o := Advance();
        if o.Fail? {
          return Failure(o.error);
        }
        OneState();
      }
      LastItemInside();
      Opened(i);
      var kept := Construct(Content(mem, m_lastItem), THROW_IF_TOO_SMALL);
      if kept.Failure? {
        return Failure(kept.error);
      }
      return Success(m_lastItem);
    }

    /** The three states exclude each other. */
    lemma OneState()
      requires Valid()
      ensures !(Unused() && (OnItem() || Spoiled())) && !(OnItem() && Spoiled())
    {
      hide SizeAsEncoded, PayloadView, Content, ItemView, Cuts;
      if HasPayload() && m_lastIndex + 2 == |Cuts()| {
        ItemFound(m_lastIndex);
        ItemFound(m_lastIndex + 1);
        if Spoiled() && OnItem() {
          CropsDiffer(PayloadWindow(), Cuts()[m_lastIndex], Cuts()[m_lastIndex + 1]);
        }
      }
      if HasPayload() {
        FewCuts();
      }
    }

    lemma CropsDiffer(w: View, from: nat, next: nat)
      requires from < next < w.Size()
      ensures w.CropFrom(from).Crop(0, next - from) != w.CropFrom(next)
    {
    }

    lemma FewCuts()
      requires |mem| <= MAX_VECTOR && HasPayload()
      ensures |Cuts()| < SIZE_T_COUNT
    {
      hide PayloadView, Reach;
    }

    lemma LastItemInside()
      requires Valid()
      ensures Inside(mem, m_lastItem)
    {
      hide SizeAsEncoded, PayloadView, Content, ItemView, Cuts, Construct;
      if !Unused() {
        ItemFound(m_lastIndex);
        if Spoiled() {
          ItemFound(m_lastIndex + 1);
        }
      }
    }

    /** What the loop leaves is opened as `Answer` says. */
    lemma Opened(i: nat)
      requires Valid() && m_lastIndex <= i < SIZE_T_COUNT && (m_lastIndex == i || m_lastItem.Size() == 0)
      requires Inside(mem, m_lastItem)
      ensures match Construct(Content(mem, m_lastItem), THROW_IF_TOO_SMALL)
              case Failure(e) => Answer(i) == Failure(e) && Spoiled()
              case Success(_) => Answer(i) == Success(m_lastItem) && (OnItem() || (Unused() && i == m_lastIndex))
    {
      hide SizeAsEncoded, PayloadView, Content, Construct, ItemView, Cuts;
      if Unused() {
        NothingIsOpened(m_lastItem);
      } else {
        ItemFound(m_lastIndex);
        if Spoiled() {
          ItemFound(m_lastIndex + 1);
          NotOpened(Content(mem, m_lastItem));
        } else {
          var here := Content(mem, PayloadWindow().CropFrom(Cuts()[m_lastIndex]));
          ItemStandsAlone(here, SizeAsEncoded(here).value);
          if m_lastIndex + 1 == |Cuts()| {
            PastTheEnd(i);
          }
        }
      }
    }

    /** Behind the last item every index shows the same empty window. */
    lemma PastTheEnd(i: nat)
      requires HasPayload() && Complete() && i + 1 >= |Cuts()|
      ensures ItemView(i) == ItemView(|Cuts()| - 1)
    {
    }
  }

  lemma NothingIsOpened(w: View)
    requires w == NullView
    ensures Construct(Content([], w), THROW_IF_TOO_SMALL) == Success([])
  {
  }

  lemma Cropping(mem: seq<byte>, w: View, from: nat)
    requires Inside(mem, w) && from <= w.Size()
    ensures Inside(mem, w.CropFrom(from)) && Content(mem, w.CropFrom(from)) == Content(mem, w)[from..]
    ensures forall n: nat | from + n <= w.Size() ::
              && Inside(mem, w.CropFrom(from).Crop(0, n)) && w.CropFrom(from).Crop(0, n).Size() == n
              && Content(mem, w.CropFrom(from).Crop(0, n)) == Content(mem, w)[from..][..n]
  {
  }

  lemma CropNothing(mem: seq<byte>, w: View)
    ensures w.CropFrom(0) == w
  {
  }

  // ------------------------------------------- strings, broken lists, bytes to spare

  /** What an index shows: the bytes between two cuts, or nothing. */
  lemma Shown(r: RLP, i: nat)
    requires Inside(r.mem, r.m_data) && r.Served(i).Success?
    ensures var v, b := r.Served(i).value, r.Cuts();
            && Inside(r.mem, v)
            && (i + 1 < |b| ==> b[i] <= b[i + 1] <= |r.PayloadBytes()|
                                && Content(r.mem, v) == r.PayloadBytes()[b[i]..b[i + 1]])
            && (i + 1 >= |b| ==> Content(r.mem, v) == [])
  {
    hide SizeAsEncoded, PayloadView, Content, r.Cuts;
    if i < |r.Cuts()| {
      r.ItemFound(i);
    } else {
      r.ItemFound(|r.Cuts()| - 1);
      r.PastTheEnd(i);
    }
    EmptyContent(r.mem, r.Served(i).value);
  }

  lemma EmptyContent(mem: seq<byte>, v: View)
    requires Inside(mem, v)
    ensures |Content(mem, v)| == v.Size()
  {
  }

  /** What an index shows depends on nothing but the payload. */
  lemma SamePayloadServesSame(s: RLP, l: RLP, i: nat)
    requires s.HasPayload() && l.HasPayload() && s.PayloadBytes() == l.PayloadBytes()
    ensures match (s.Served(i), l.Served(i))
            case (Failure(e), Failure(f)) => e == f
            case (Success(v), Success(w)) => Inside(s.mem, v) && Inside(l.mem, w) && Content(s.mem, v) == Content(l.mem, w)
            case _ => false
  {
    hide SizeAsEncoded, PayloadView, Reach, Content, Chain;
    SameCuts(s, l);
    if s.Served(i).Success? {
      Shown(s, i);
      Shown(l, i);
    }
  }

  lemma SameCuts(s: RLP, l: RLP)
    requires s.HasPayload() && l.HasPayload() && s.PayloadBytes() == l.PayloadBytes()
    ensures s.Cuts() == l.Cuts() && s.Complete() == l.Complete()
    ensures !s.Complete() ==> s.Break() == l.Break()
  {
    hide SizeAsEncoded, PayloadView, Content, Chain;
  }

  lemma StringPayload(payload: seq<byte>, s: RLP)
    requires |payload| < LENGTH_LIMIT && s.mem == EncodeData(payload) && s.m_data == Window(0, |s.mem|)
    ensures IsData(s.mem) && s.HasPayload() && s.PayloadBytes() == payload
  {
    hide PayloadView, EncodeData, Payload;
    assert s.mem + [] == s.mem;
    DataIsAccepted(payload, []);
    WholeContent(s.mem);
  }

  lemma ListPayload(payload: seq<byte>, l: RLP)
    requires |payload| < LENGTH_LIMIT && l.mem == EncodeList(payload) && l.m_data == Window(0, |l.mem|)
    ensures IsList(l.mem) && l.HasPayload() && l.PayloadBytes() == payload
  {
    hide PayloadView, EncodeList, Payload;
    assert l.mem + [] == l.mem;
    ListIsAccepted(payload, []);
    WholeContent(l.mem);
  }

  /** The comment on `operator[]` promises a null RLP for anything but a list. The code does not look at the kind: a string and a
      list with the same payload show the same bytes, or throw the same, at every index. */
  lemma StringsAreIndexedToo(payload: seq<byte>, s: RLP, l: RLP, i: nat)
    requires |payload| < LENGTH_LIMIT
    requires s.mem == EncodeData(payload) && s.m_data == Window(0, |s.mem|)
    requires l.mem == EncodeList(payload) && l.m_data == Window(0, |l.mem|)
    ensures IsData(s.mem) && s.HasPayload() && IsList(l.mem) && l.HasPayload()
    ensures match (s.Served(i), l.Served(i))
            case (Failure(e), Failure(f)) => e == f
            case (Success(v), Success(w)) => Inside(s.mem, v) && Inside(l.mem, w) && Content(s.mem, v) == Content(l.mem, w)
            case _ => false
  {
    StringPayload(payload, s);
    ListPayload(payload, l);
    SamePayloadServesSame(s, l, i);
  }

  ghost predicate ShowsNothing(r: RLP, i: nat)
    requires Inside(r.mem, r.m_data)
  {
    r.Served(i).Success? && Inside(r.mem, r.Served(i).value) && Content(r.mem, r.Served(i).value) == []
  }

  /** The promised null RLP is what every index gives exactly when the payload is empty, and otherwise index 0 already is not. */
  lemma NullExactlyWhenEmpty(r: RLP)
    requires r.HasPayload()
    ensures (forall i: nat :: ShowsNothing(r, i)) <==> r.PayloadBytes() == []
    ensures ShowsNothing(r, 0) <==> r.PayloadBytes() == []
  {
    hide SizeAsEncoded, PayloadView, Content, Reach;
    if r.PayloadBytes() == [] {
      forall i: nat ensures ShowsNothing(r, i) {
        Shown(r, i);
      }
    } else if |r.Cuts()| > 1 {
      r.ItemFound(0);
      Shown(r, 0);
      assert !ShowsNothing(r, 0);
    } else {
      assert !ShowsNothing(r, 0);
    }
  }

  lemma WholeContent(mem: seq<byte>)
    ensures Inside(mem, Window(0, |mem|)) && Content(mem, Window(0, |mem|)) == mem
  {
  }

  lemma SmallItems(x: byte, y: byte)
    requires x < 0x80 && y < 0x80
    ensures Reach([x], 0) == [0, 1] && Reach([x, y], 0) == [0, 1, 2]
  {
    assert [x, y][0..] == [x, y] && [x][0..] == [x];
    assert [x, y][1..] == [y];
    assert Reach([x, y], 2) == [2] && Reach([x], 1) == [1];
    assert Reach([x, y], 1) == [1, 2];
  }

  /** A string of two bytes: index 0 shows the first, index 1 the second, and there is nothing behind. */
  lemma TwoBytesAreTwoItems(r: RLP)
    requires r.mem == [0x82, 0x05, 0x06] && r.m_data == Window(0, 3)
    ensures IsData(r.mem) && r.HasPayload() && r.Cuts() == [0, 1, 2]
    ensures r.Served(0) == Success(Window(1, 1)) && r.Served(1) == Success(Window(2, 1)) && r.Served(2) == Success(Window(3, 0))
  {
    hide Reach, SizeAsEncoded;
    WholeContent(r.mem);
    assert PayloadView(r.mem, r.m_data) == Success(Window(1, 2));
    assert r.PayloadBytes() == [0x05, 0x06];
    SmallItems(0x05, 0x06);
  }

  /** A list with a byte to spare behind it: its one item is found, and `end()` is never reached. */
  lemma SpareByteHidesTheEnd(k: nat)
    ensures var mem, v := [0xc1, 0x05, 0x00], Window(0, 3);
            && Listing(mem, v, Window(1, 1), [0, 1])
            && Orbit(mem, v, k).Success? && Orbit(mem, v, k).value.item != End(v)
  {
    var mem: seq<byte>, v := [0xc1, 0x05, 0x00], Window(0, 3);
    SpareByteListing();
    EndIsReached(mem, v, Window(1, 1), [0, 1], k);
  }

  lemma SpareByteListing()
    ensures Listing([0xc1, 0x05, 0x00], Window(0, 3), Window(1, 1), [0, 1])
  {
    hide Reach, SizeAsEncoded;
    var mem: seq<byte> := [0xc1, 0x05, 0x00];
    WholeContent(mem);
    assert PayloadView(mem, Window(0, 3)) == Success(Window(1, 1));
    assert Content(mem, Window(1, 1)) == [0x05];
    SmallItems(0x05, 0x05);
    BoundariesAreReach([0x05], 0);
  }

  lemma BrokenReach()
    ensures Reach([0x05, 0x81], 0) == [0, 1] && SizeAsEncoded([0x81]) == Failure(BadRLP)
  {
    assert [0x05, 0x81][0..] == [0x05, 0x81] && [0x05, 0x81][1..] == [0x81];
    assert SizeAsEncoded([0x05, 0x81]) == Success(1);
  }

  /** A good item in front of a broken one is served, until the broken one is asked for; then it throws. */
  method GoodItemIsLost() returns (first: Result<View>, second: Result<View>, again: Result<View>)
    ensures first == Success(Window(1, 1)) && second == Failure(BadRLP) && again == Failure(BadRLP)
  {
    var mem: seq<byte> := [0xc2, 0x05, 0x81];
    var r := new RLP(mem, Window(0, 3));
    BrokenList(r);
    first := r.At(0);
    second := r.At(1);
    again := r.At(0);
  }

  lemma BrokenList(r: RLP)
    requires r.mem == [0xc2, 0x05, 0x81] && r.m_data == Window(0, 3)
    ensures r.HasPayload() && r.Cuts() == [0, 1] && !r.Complete() && r.Break() == BadRLP && r.PayloadWindow() == Window(1, 2)
  {
    hide Reach, SizeAsEncoded;
    WholeContent(r.mem);
    assert PayloadView(r.mem, r.m_data) == Success(Window(1, 2));
    assert r.PayloadBytes() == [0x05, 0x81];
    BrokenReach();
  }

  // ------------------------------------------------------- indexing what the encoder wrote

  /** The offsets of the items of a list in its payload. */
  ghost function Offsets(items: seq<Tree>, start: nat): seq<nat> {
    if items == [] then [start] else [start] + Offsets(items[1..], start + |Encode(items[0])|)
  }

  lemma {:induction false} OffsetsAreSums(items: seq<Tree>, start: nat, k: nat)
    requires k <= |items|
    ensures |Offsets(items, start)| == |items| + 1
    ensures Offsets(items, start)[k] == start + |EncodeAll(items[..k])|
  {
    if items != [] {
      if k > 0 {
        OffsetsAreSums(items[1..], start + |Encode(items[0])|, k - 1);
        assert items[..k][0] == items[0] && items[..k][1..] == items[1..][..k - 1];
      } else {
        OffsetsAreSums(items[1..], start + |Encode(items[0])|, 0);
      }
    }
  }

  /** The reader cuts the payload of an encoded list exactly between the encodings of its items. */
  lemma {:induction false} BoundariesOfEncoding(before: seq<byte>, items: seq<Tree>)
    requires AllReadable(items)
    ensures Boundaries(before + EncodeAll(items), |before|) == Success(Offsets(items, |before|))
    decreases |items|
  {
    hide SizeAsEncoded, Encode;
    var p := before + EncodeAll(items);
    if items != [] {
      var first, rest := Encode(items[0]), EncodeAll(items[1..]);
      FirstItem(items[0], rest);
      assert p[|before|..] == first + rest;
      assert p == (before + first) + rest;
      BoundariesOfEncoding(before + first, items[1..]);
    }
  }

  /** `r` refers to the whole encoding of a list of `items`. */
  ghost predicate Holds(r: RLP, items: seq<Tree>) {
    && r.m_data == Window(0, |r.mem|) && r.mem == EncodeList(EncodeAll(items)) && |r.mem| <= MAX_VECTOR
    && AllReadable(items)
  }

  lemma CutsOfEncoding(r: RLP, items: seq<Tree>)
    requires Holds(r, items)
    ensures r.Readable() && r.Cuts() == Offsets(items, 0)
    ensures Content(r.mem, r.PayloadWindow()) == EncodeAll(items)
  {
    hide Boundaries, PayloadView, Content, Offsets, EncodeList, EncodeAll, Reach, SizeAsEncoded, Chain;
    var p := EncodeAll(items);
    PayloadIsWindow(r.mem, p);
    BoundariesOfEncoding([], items);
    assert [] + p == p;
    BoundariesAreReach(p, 0);
  }

  /** `operator[]` on an encoded list: item `k` is the encoding of the `k`-th element. */
  lemma IndexOfEncoding(r: RLP, items: seq<Tree>, k: nat)
    requires Holds(r, items) && k < |items|
    ensures r.Readable() && |r.Cuts()| == |items| + 1
    ensures Inside(r.mem, r.ItemView(k)) && Content(r.mem, r.ItemView(k)) == Encode(items[k])
  {
    hide Boundaries, PayloadView, Offsets, EncodeList, EncodeAll, Encode, SizeAsEncoded;
    CutsOfEncoding(r, items);
    OffsetsAreSums(items, 0, k);
    OffsetsAreSums(items, 0, k + 1);
    ItemSlice(items, k);
    SubWindow(r.mem, r.PayloadWindow(), |EncodeAll(items[..k])|, |Encode(items[k])|);
  }

  lemma SubWindow(mem: seq<byte>, v: View, begin: nat, length: nat)
    requires Inside(mem, v) && v.Window? && begin + length <= v.length
    ensures Inside(mem, Window(v.offset + begin, length))
    ensures Content(mem, Window(v.offset + begin, length)) == Content(mem, v)[begin..begin + length]
  {
    PartOfPart(mem, v.offset, v.offset + v.length, begin, length);
  }

  lemma PayloadIsWindow(mem: seq<byte>, p: seq<byte>)
    requires mem == EncodeList(p) && |p| < LENGTH_LIMIT
    ensures var offset := PayloadOffset(mem);
            && offset + |p| == |mem| && mem[offset..] == p
            && PayloadView(mem, Window(0, |mem|)) == Success(Window(offset, |p|))
            && Content(mem, Window(offset, |p|)) == p
  {
    hide LongLength, RequireGood;
    ListIsAccepted(p, []);
    assert mem + [] == mem;
    assert Content(mem, Window(0, |mem|)) == mem;
    AcceptedIsCanonical(mem);
  }

  lemma ItemSlice(items: seq<Tree>, k: nat)
    requires k < |items|
    ensures |EncodeAll(items[..k])| + |Encode(items[k])| == |EncodeAll(items[..k + 1])| <= |EncodeAll(items)|
    ensures EncodeAll(items)[|EncodeAll(items[..k])|..|EncodeAll(items[..k + 1])|] == Encode(items[k])
  {
    hide Encode, EncodeAll;
    assert items[..k + 1] == items[..k] + [items[k]];
    assert items == items[..k + 1] + items[k + 1..];
    EncodeAllConcat(items[..k], [items[k]]);
    EncodeAllOne(items[k]);
    EncodeAllConcat(items[..k + 1], items[k + 1..]);
  }

  // ---------------------------------------------------------- items without an object

  /** The bytes that index `i` of a list shows, or none past the last. */
  function Item(d: seq<byte>, i: nat): Option<seq<byte>> {
    match Payload(d)
    case Failure(_) => None
    case Success(p) =>
      var b := Reach(p, 0);
      ReachIsChain(p, 0);
      if i + 1 < |b| && b[i] <= b[i + 1] <= |p| then Some(p[b[i]..b[i + 1]]) else None
  }

  /** It is what `operator[]` serves. */
  lemma ItemIsServed(r: RLP, i: nat)
    requires r.m_data == Window(0, |r.mem|) && Item(r.mem, i).Some?
    ensures r.HasPayload() && r.Served(i).Success? && Inside(r.mem, r.Served(i).value)
    ensures Content(r.mem, r.Served(i).value) == Item(r.mem, i).value
  {
    hide PayloadView, Content, Reach;
    WholeContent(r.mem);
    Shown(r, i);
  }

  /** Item `k` of an encoded list is the encoding of its `k`-th element. */
  lemma ItemOfEncoding(items: seq<Tree>, k: nat)
    requires AllReadable(items) && |EncodeAll(items)| < LENGTH_LIMIT
    ensures var d := Encode(Node(items)); Item(d, k) == if k < |items| then Some(Encode(items[k])) else None
  {
    hide Payload, Reach, Offsets, EncodeList, EncodeAll, Encode, SizeAsEncoded, Boundaries;
    var p := EncodeAll(items);
    EncodeNode(items);
    ListIsAccepted(p, []);
    assert EncodeList(p) + [] == EncodeList(p);
    BoundariesOfEncoding([], items);
    assert [] + p == p;
    BoundariesAreReach(p, 0);
    OffsetsAreSums(items, 0, 0);
    if k < |items| {
      OffsetsAreSums(items, 0, k);
      OffsetsAreSums(items, 0, k + 1);
      ItemSlice(items, k);
    }
  }
}
