/** The layout of encoded parameter sets, and by how much `getSize`, `getHeadSize` and the offset words miss it. */
module AbiLayout {
  import opened AbiParam
  import opened AbiEncoder

  /** What `getSize` counts too much: an offset word for every static fixed array that is wider than a word and a member of a
      set. */
  function Gap(p: Param): nat
    decreases p, 1
  {
    if HasElems(p) then SetGap(p.elems) else 0
  }

  function SetGap(ps: seq<Param>): nat
    decreases ps, 0
  {
    if ps == [] then 0 else MemberGap(ps[0]) + Gap(ps[0]) + SetGap(ps[1..])
  }

  function MemberGap(p: Param): nat {
    if !IsDynamic(p) && p.FixedArray? && Size(p) > WORD then 32 else 0
  }

  /** No set inside `p` has a static fixed array wider than a word as a member. */
  predicate Tight(p: Param)
    decreases p, 1
  {
    HasElems(p) ==> AllTight(p.elems)
  }

  predicate AllTight(ps: seq<Param>)
    decreases ps, 0
  {
    ps == [] || (MemberGap(ps[0]) == 0 && Tight(ps[0]) && AllTight(ps[1..]))
  }

  lemma {:induction false} TightMeansNoGap(p: Param)
    ensures Tight(p) <==> Gap(p) == 0
    decreases p, 1
  {
    if HasElems(p) {
      AllTightMeansNoGap(p.elems);
    }
  }

  lemma {:induction false} AllTightMeansNoGap(ps: seq<Param>)
    ensures AllTight(ps) <==> SetGap(ps) == 0
    decreases ps, 0
  {
    if ps != [] {
      TightMeansNoGap(ps[0]);
      AllTightMeansNoGap(ps[1..]);
    }
  }

  /** The reported size is the encoded length plus the gap, for every parameter. */
  lemma {:induction false} SizeIsLengthPlusGap(p: Param)
    ensures Size(p) == |Encoded(p)| + Gap(p)
    decreases p, 1
  {
    hide Heads, Tails, SetSize, HeadSize;
    if HasElems(p) {
      SetSizeIsLengthPlusGap(p.elems, HeadSize(p.elems));
    }
  }

  lemma {:induction false} SetSizeIsLengthPlusGap(ps: seq<Param>, offset: nat)
    ensures SetSize(ps) == |Heads(ps, offset)| + |Tails(ps)| + SetGap(ps)
    decreases ps, 0
  {
    hide Encoded, Size, Gap;
    if ps != [] {
      SizeIsLengthPlusGap(ps[0]);
      SetSizeIsLengthPlusGap(ps[1..], if InHead(ps[0]) then offset else offset + Size(ps[0]));
    }
  }

  /** `getSize` is exact, and the encoding whole words long, exactly when no set inside has such a member. */
  lemma SizeIsExactWhenTight(p: Param)
    ensures |Encoded(p)| == Size(p) <==> Tight(p)
    ensures |Encoded(p)| <= Size(p)
    ensures Whole(|Encoded(p)|)
  {
    hide Encoded, Size, Gap, Tight, Whole;
    SizeIsLengthPlusGap(p);
    TightMeansNoGap(p);
    GapWhole(p);
    SizeWhole(p);
    WholeSum(Gap(p), |Encoded(p)|);
  }

  lemma {:induction false} GapWhole(p: Param)
    ensures Whole(Gap(p))
    decreases p, 1
  {
    hide SetGap, Whole;
    OneWhole();
    if HasElems(p) {
      SetGapWhole(p.elems);
    }
  }

  lemma {:induction false} SetGapWhole(ps: seq<Param>)
    ensures Whole(SetGap(ps))
    decreases ps, 0
  {
    hide Gap, Whole, Size, IsDynamic;
    OneWhole();
    if ps != [] {
      GapWhole(ps[0]);
      SetGapWhole(ps[1..]);
      WholeSum(Gap(ps[0]), SetGap(ps[1..]));
      WholeSum(32, Gap(ps[0]) + SetGap(ps[1..]));
    }
  }

  // ------------------------------------------------------------ offset words

  /** What `getHeadSize` counts too much. */
  function HeadGap(ps: seq<Param>): nat {
    if ps == [] then 0
    else (if InHead(ps[0]) then Gap(ps[0]) else if IsDynamic(ps[0]) then 0 else Size(ps[0]) - 32) + HeadGap(ps[1..])
  }

  /** The sizes, as reported, of the members that go to the second pass. */
  function TailSize(ps: seq<Param>): nat {
    if ps == [] then 0 else (if InHead(ps[0]) then 0 else Size(ps[0])) + TailSize(ps[1..])
  }

  function TailGap(ps: seq<Param>): nat {
    if ps == [] then 0 else (if InHead(ps[0]) then 0 else Gap(ps[0])) + TailGap(ps[1..])
  }

  lemma {:induction false} HeadSizeIsLengthPlusGap(ps: seq<Param>, offset: nat)
    ensures HeadSize(ps) == |Heads(ps, offset)| + HeadGap(ps)
    decreases |ps|
  {
    hide Encoded, Size, Gap;
    if ps != [] {
      SizeIsLengthPlusGap(ps[0]);
      HeadSizeIsLengthPlusGap(ps[1..], if InHead(ps[0]) then offset else offset + Size(ps[0]));
    }
  }

  lemma {:induction false} TailSizeIsLengthPlusGap(ps: seq<Param>)
    ensures TailSize(ps) == |Tails(ps)| + TailGap(ps)
    decreases |ps|
  {
    hide Encoded, Size, Gap;
    if ps != [] {
      SizeIsLengthPlusGap(ps[0]);
      TailSizeIsLengthPlusGap(ps[1..]);
    }
  }

  lemma {:induction false} HeadsConcat(xs: seq<Param>, ys: seq<Param>, offset: nat)
    ensures Heads(xs + ys, offset) == Heads(xs, offset) + Heads(ys, offset + TailSize(xs))
    decreases |xs|
  {
    hide Encoded, Size, WordBytes;
    if xs == [] {
      assert xs + ys == ys;
    } else {
      assert (xs + ys)[0] == xs[0] && (xs + ys)[1..] == xs[1..] + ys;
      HeadsConcat(xs[1..], ys, if InHead(xs[0]) then offset else offset + Size(xs[0]));
    }
  }

  lemma {:induction false} TailsConcat(xs: seq<Param>, ys: seq<Param>)
    ensures Tails(xs + ys) == Tails(xs) + Tails(ys)
    decreases |xs|
  {
    hide Encoded, Size;
    if xs == [] {
      assert xs + ys == ys;
    } else {
      assert (xs + ys)[0] == xs[0] && (xs + ys)[1..] == xs[1..] + ys;
      TailsConcat(xs[1..], ys);
    }
  }

  /** Where member `k` of a set has its head, and where its tail starts. */
  function HeadStart(ps: seq<Param>, k: nat): nat
    requires k <= |ps|
  {
    |Heads(ps[..k], HeadSize(ps))|
  }

  function TailStart(ps: seq<Param>, k: nat): nat
    requires k <= |ps|
  {
    |Heads(ps, HeadSize(ps))| + |Tails(ps[..k])|
  }

  /** The number the first pass writes for member `k`. */
  function OffsetWritten(ps: seq<Param>, k: nat): nat
    requires k <= |ps|
  {
    HeadSize(ps) + TailSize(ps[..k])
  }

  /** The offset word of a member, its tail, and the exact error of the first against the second. */
  lemma OffsetWords(ps: seq<Param>, k: nat)
    requires k < |ps| && !InHead(ps[k])
    ensures var e, h, t := EncodedSet(ps), HeadStart(ps, k), TailStart(ps, k);
            && h + 32 <= |e| && e[h..h + 32] == WordBytes(OffsetWritten(ps, k))
            && t + |Encoded(ps[k])| <= |e| && e[t..t + |Encoded(ps[k])|] == Encoded(ps[k])
            && OffsetWritten(ps, k) == t + HeadGap(ps) + TailGap(ps[..k])
  {
    hide Heads, Tails, Encoded, HeadSize, WordBytes, TailSize, TailGap, HeadGap;
    var xs, ys := ps[..k], ps[k + 1..];
    var offset := HeadSize(ps);
    MemberSplit(ps, k, offset);
    var heads, tails := Heads(ps, offset), Tails(ps);
    HeadSizeIsLengthPlusGap(ps, offset);
    TailSizeIsLengthPlusGap(xs);
    var rest := Heads(ys, OffsetWritten(ps, k) + Size(ps[k]));
    assert heads + tails == Heads(xs, offset) + (WordBytes(OffsetWritten(ps, k)) + (rest + tails));
    assert heads + tails == (heads + Tails(xs)) + (Encoded(ps[k]) + Tails(ys));
  }

  lemma MemberSplit(ps: seq<Param>, k: nat, offset: nat)
    requires k < |ps| && !InHead(ps[k])
    ensures var xs, ys, w := ps[..k], ps[k + 1..], offset + TailSize(ps[..k]);
            && Heads(ps, offset) == Heads(xs, offset) + (WordBytes(w) + Heads(ys, w + Size(ps[k])))
            && Tails(ps) == Tails(xs) + (Encoded(ps[k]) + Tails(ys))
  {
    hide Encoded, Size, WordBytes, TailSize;
    var xs, ys, rest := ps[..k], ps[k + 1..], ps[k..];
    assert ps == xs + rest && rest[0] == ps[k] && rest[1..] == ys;
    HeadsConcat(xs, rest, offset);
    TailsConcat(xs, rest);
  }

  lemma One(a: Param)
    ensures SetSize([a]) == (if IsDynamic(a) || Size(a) > WORD then 32 else 0) + Size(a)
    ensures SetGap([a]) == MemberGap(a) + Gap(a)
    ensures HeadSize([a]) == if IsDynamic(a) then 32 else Size(a)
    ensures HeadGap([a]) == if InHead(a) then Gap(a) else if IsDynamic(a) then 0 else Size(a) - 32
    ensures InHead(a) ==> Tails([a]) == [] && TailSize([a]) == 0
  {
    hide Size, Gap, IsDynamic, InHead, MemberGap;
    assert [a][1..] == [];
  }

  lemma Pair(a: Param, b: Param)
    ensures SetSize([a, b]) == SetSize([a]) + SetSize([b])
    ensures SetGap([a, b]) == SetGap([a]) + SetGap([b])
    ensures HeadSize([a, b]) == HeadSize([a]) + HeadSize([b])
    ensures HeadGap([a, b]) == HeadGap([a]) + HeadGap([b])
  {
    hide Size, Gap, IsDynamic, InHead, MemberGap;
    One(a);
    assert [a, b][1..] == [b];
  }

  /** `uint256[2][2]` before a string: the tail of the string starts after 160 bytes, the offset word says 224. */
  lemma NestedStaticArrayMisplacesOffsets()
    ensures var row := FixedArray([Word(UInt(256), 1), Word(UInt(256), 2)]);
            var ps := [FixedArray([row, row]), String([])];
            && TailStart(ps, 1) == 160 && OffsetWritten(ps, 1) == 224
  {
    hide Heads, Encoded;
    var w, w' := Word(UInt(256), 1), Word(UInt(256), 2);
    var row := FixedArray([w, w']);
    var grid := FixedArray([row, row]);
    var text := String([]);
    var ps := [grid, text];
    One(w);
    One(w');
    Pair(w, w');
    assert Size(row) == 64 && Gap(row) == 0;
    One(row);
    Pair(row, row);
    assert Size(grid) == 192 && Gap(grid) == 64;
    One(grid);
    One(text);
    Pair(grid, text);
    HeadSizeIsLengthPlusGap(ps, 224);
    assert ps[..1] == [grid];
  }
}
