/** What decoding cannot do: values that no template restores, wherever decoding stops, and when it throws
    (libcfxcore/abi/Array.cpp, Bytes.cpp, ParamFactory.cpp). */
module AbiLost {
  import opened Numbers
  import opened AbiParam
  import opened AbiEncoder
  import opened AbiDecoder
  import AbiRoundTrip

  /** No bytes decode to a value with an empty array in it. */
  lemma EmptyArraysAreLost(t: Param, p: Param, enc: seq<byte>, off: nat, end: nat)
    requires !AbiRoundTrip.NoEmptyArrays(p)
    ensures Decoded(t, enc, off) != Got((p, end))
  {
    hide Decoded, AbiRoundTrip.NoEmptyArrays;
    if Decoded(t, enc, off) == Got((p, end)) {
      AbiRoundTrip.DecodedUses(t, enc, off);
    }
  }

  /** An empty array encodes as a length word of zero, which no template decodes as one. */
  lemma EmptyArrayIsLost(t: Param, end: nat)
    ensures Encoded(Array([])) == WordBytes(0) && Decoded(t, WordBytes(0), 0) != Got((Array([]), end))
  {
    hide Decoded, WordBytes;
    assert Encoded(Array([])) == WordBytes(0) + [];
    EmptyArraysAreLost(t, Array([]), WordBytes(0), 0, end);
  }

  // ------------------------------------------ a value has the type of its template

  /** The same for `make`. */
  ghost predicate SameSort(a: Param, b: Param) {
    match a
    case Word(k, _) => b.Word? && b.kind == k
    case FixedBytes(n, _) => b.FixedBytes? && b.n == n
    case Bytes(_) => b.Bytes?
    case String(_) => b.String?
    case _ => HasElems(b)
  }

  /** The first member of a decoded set was decoded from the first of the template. */
  lemma FirstDecoded(ts: seq<Param>, enc: seq<byte>, off: nat) returns (o: nat)
    requires ts != [] && DecodedSet(ts, enc, off).Got?
    ensures Decoded(ts[0], enc, o).Got? && Decoded(ts[0], enc, o).value.0 == DecodedSet(ts, enc, off).value.0[0]
  {
    hide Decoded, IsDynamic, ReadWord;
    var small := DecodedHeads(ts, enc, off).value;
    o := if IsDynamic(ts[0]) then small.1 else off;
  }

  /** `make` asks an array about its first element only. */
  lemma FirstDecides(t: Param, p: Param)
    requires (t.Array? && p.Array?) || (t.FixedArray? && p.FixedArray?)
    requires t.elems != [] && p.elems != [] && Made(p.elems[0]) == Made(t.elems[0])
    requires SameSort(Innermost(t.elems[0]), Innermost(p.elems[0]))
    ensures Made(p) == Made(t) && SameSort(Innermost(t), Innermost(p))
  {
  }

  lemma LeavesMade(t: Param, p: Param)
    requires SameSort(t, p) && !HasElems(t) && !HasElems(p)
    ensures Made(p) == Made(t) && SameSort(Innermost(t), Innermost(p))
  {
  }

  lemma NothingMade(t: Param, p: Param)
    requires (t.Tuple? && p.Tuple?) || (t == p == FixedArray([]))
    ensures Made(p) == Made(t) && SameSort(Innermost(t), Innermost(p))
  {
  }

  /** `make` makes of a decoded value what it makes of the template. */
  lemma {:induction false} DecodedMade(t: Param, enc: seq<byte>, off: nat)
    requires Decoded(t, enc, off).Got?
    ensures var p := Decoded(t, enc, off).value.0;
            Made(p) == Made(t) && SameSort(Innermost(t), Innermost(p))
    decreases Depth(t), 1
  {
    hide ReadWord, Cast, DecodedSet, DecodedCounted, DecodedBytes, Padded, Made, Innermost;
    var p := Decoded(t, enc, off).value.0;
    match t
    case Tuple(_) => NothingMade(t, p);
    case Array(es) =>
      ElementsMade(es, enc, off);
      FirstDecides(t, p);
    case FixedArray(es) =>
      if IsDynamic(t) {
        ElementsMade(es, enc, off);
        FirstDecides(t, p);
      } else if es != [] {
        FirstMade(es, enc, off);
        FirstDecides(t, p);
      } else {
        NothingMade(t, p);
      }
    case _ => LeavesMade(t, p);
  }

  lemma {:induction false} ElementsMade(es: seq<Param>, enc: seq<byte>, off: nat)
    requires DecodedCounted(es, enc, off).Got?
    ensures var ps := DecodedCounted(es, enc, off).value.0;
            && es != [] && ps != [] && Made(ps[0]) == Made(es[0]) && SameSort(Innermost(es[0]), Innermost(ps[0]))
    decreases 1 + MaxDepth(es), 0
  {
    hide DecodedSet, Grown, Made, Innermost, ReadWord;
    var count := ReadWord(enc, off).value;
    GrownDepth(es, count);
    AbiRoundTrip.GrownFirst(es, count);
    FirstMade(Grown(es, count), enc, off + 32);
  }

  lemma {:induction false} FirstMade(ts: seq<Param>, enc: seq<byte>, off: nat)
    requires ts != [] && DecodedSet(ts, enc, off).Got?
    ensures var ps := DecodedSet(ts, enc, off).value.0;
            ps != [] && Made(ps[0]) == Made(ts[0]) && SameSort(Innermost(ts[0]), Innermost(ps[0]))
    decreases MaxDepth(ts), 2
  {
    hide DecodedSet, Decoded, Made, Innermost;
    var o := FirstDecoded(ts, enc, off);
    MemberDepth(ts, 0);
    DecodedMade(ts[0], enc, o);
  }

  // ------------------------------------------------------------ dynamic fixed arrays

  lemma {:induction false} DynamicHeadSize(es: seq<Param>)
    requires forall i :: 0 <= i < |es| ==> IsDynamic(es[i])
    ensures HeadSize(es) == 32 * |es|
    decreases |es|
  {
    hide IsDynamic;
    if es != [] {
      DynamicHeadSize(es[1..]);
    }
  }

  /** A set that begins with a dynamic member is written as its offset and something else. */
  lemma OffsetFirst(es: seq<Param>, offset: nat, tails: seq<byte>) returns (rest: seq<byte>)
    requires es != [] && IsDynamic(es[0])
    ensures Heads(es, offset) + tails == WordBytes(offset) + rest
  {
    hide WordBytes, IsDynamic, Encoded, Size;
    rest := Heads(es[1..], offset + Size(es[0])) + tails;
    Associative(WordBytes(offset), Heads(es[1..], offset + Size(es[0])), tails);
  }

  /** The offset word of the first element stands where the decoder looks for a count. */
  lemma OffsetReadAsCount(es: seq<Param>, enc: seq<byte>, off: nat)
    requires 0 < |es| < SIZE_T_COUNT && (forall i :: 0 <= i < |es| ==> IsDynamic(es[i]))
    requires AbiRoundTrip.Lies(EncodedSet(es), enc, off)
    ensures ReadWord(enc, off) == Some(32 * |es|)
  {
    hide Pow, WordBytes, IsDynamic, Heads, Tails, HeadSize, AbiRoundTrip.Lies, ReadWord;
    DynamicHeadSize(es);
    var rest := OffsetFirst(es, HeadSize(es), Tails(es));
    AbiRoundTrip.LiesApart(WordBytes(HeadSize(es)), rest, enc, off);
    OffsetFits(|es|);
    AbiRoundTrip.WordRead(HeadSize(es), enc, off);
  }

  lemma OffsetFits(n: nat)
    requires n < SIZE_T_COUNT
    ensures 32 * n < Pow(256, 32)
  {
    PowEight();
    PowMonotone(256, 9, 32);
  }

  /** A template for so many elements never has as few as there are. */
  lemma NeverSoFew(ts: seq<Param>, n: nat, enc: seq<byte>, off: nat)
    requires n > 0 && ReadWord(enc, off) == Some(32 * n) && Counted(ts, enc, off).Got? && Made(ts[0]) != Nothing
    ensures |Counted(ts, enc, off).value| == 32 * n
  {
    hide Made, ReadWord;
  }

  /** A dynamic fixed array, encoded, is restored by no template at any end offset, unless `make` knows nothing of its
      elements: the decoder takes the first offset word for a count, and grows the template to 32 times as many elements. */
  lemma DynamicFixedArraysAreLost(t: Param, es: seq<Param>, enc: seq<byte>, off: nat, end: nat)
    requires 0 < |es| < SIZE_T_COUNT && (forall i :: 0 <= i < |es| ==> IsDynamic(es[i])) && Made(es[0]) != Nothing
    requires AbiRoundTrip.Lies(Encoded(FixedArray(es)), enc, off)
    ensures Decoded(t, enc, off) != Got((FixedArray(es), end))
  {
    hide EncodedSet, DecodedSet, Counted, Made, AbiRoundTrip.Lies, ReadWord, Innermost, Padded;
    if Decoded(t, enc, off) == Got((FixedArray(es), end)) {
      assert IsDynamic(es[0]);
      AbiRoundTrip.DecodedUses(t, enc, off);
      assert t.FixedArray? && IsDynamic(t) && DecodedCounted(t.elems, enc, off).value.0 == es;
      ElementsMade(t.elems, enc, off);
      OffsetReadAsCount(es, enc, off);
      NeverSoFew(t.elems, |es|, enc, off);
    }
  }

  /** `string[1]` with an empty string, offset word and length word, is restored by no template. */
  lemma DynamicFixedArrayIsLost(t: Param, end: nat)
    ensures var p := FixedArray([String([])]);
            |Encoded(p)| == 64 && Decoded(t, Encoded(p), 0) != Got((p, end))
  {
    hide Decoded, WordBytes;
    var s := String([]);
    var p := FixedArray([s]);
    OneHead(s, 32);
    assert [s][1..] == [] && HeadSize([s]) == 32;
    DynamicFixedArraysAreLost(t, [s], Encoded(p), 0, end);
  }

  /** A fixed array of one empty struct, which `make` knows nothing of, comes back, but with the offset one word too far. */
  lemma StructArrayEndsTooFar(enc: seq<byte>)
    requires |enc| >= 64 && AbiRoundTrip.Lies(WordBytes(32), enc, 0)
    ensures var p := FixedArray([Tuple([])]);
            Encoded(p) == WordBytes(32) && Decoded(p, enc, 0) == Got((p, 64))
  {
    hide WordBytes, Pow, ReadWord;
    var s := Tuple([]);
    var p := FixedArray([s]);
    OneHead(s, 32);
    assert [s][1..] == [] && HeadSize([s]) == 32 && Heads([], 0) + Tails([]) == [];
    assert Encoded(p) == WordBytes(32) + [];
    OffsetFits(1);
    AbiRoundTrip.WordRead(32, enc, 0);
    AnotherWord(enc);
    assert DecodedSet([], enc, 64) == Got(([], 64));
    OneStruct(enc);
  }

  lemma AnotherWord(enc: seq<byte>)
    requires |enc| >= 64
    ensures ReadWord(enc, 32).Some?
  {
  }

  lemma OneStruct(enc: seq<byte>)
    requires ReadWord(enc, 32).Some?
    ensures DecodedSet([Tuple([])], enc, 32) == Got(([Tuple([])], 64))
  {
    hide ReadWord;
    var s := Tuple([]);
    assert [s][1..] == [];
    assert DecodedSet([], enc, 64) == Got(([], 64));
    assert DecodedHeads([], enc, 64) == Got(([], 64)) && [s] + [] == [s];
    assert DecodedHeads([s], enc, 32) == Got(([s], 64));
    assert Decoded(s, enc, 64) == Got((s, 64));
    assert DecodedTails([], [], enc, 64) == Got(([], 64));
  }

  // --------------------------------------------------------------- when decoding breaks

  /** Some word in the data is a size_t that has no sum with its place. */
  ghost predicate HasHugeLength(enc: seq<byte>) {
    exists off: nat :: ReadWord(enc, off).Some? && SIZE_T_COUNT - off - 32 <= ReadWord(enc, off).value < SIZE_T_COUNT
  }

  /** No array in the template asks `make` for something it throws at. */
  predicate MakesNoThrow(t: Param)
    decreases t, 1
  {
    (t.Array? || t.FixedArray? ==> t.elems == [] || !Made(t.elems[0]).Broken?) && (HasElems(t) ==> AllMakeNoThrow(t.elems))
  }

  predicate AllMakeNoThrow(ts: seq<Param>)
    decreases ts, 0
  {
    ts == [] || (MakesNoThrow(ts[0]) && AllMakeNoThrow(ts[1..]))
  }

  /** What `make` made it makes again. */
  lemma {:induction false} MadeAgain(p: Param)
    requires Made(p).Got?
    ensures Made(Made(p).value) == Made(p) && MakesNoThrow(Made(p).value)
    decreases p
  {
    if p.Array? {
      MadeAgain(p.elems[0]);
      assert AllMakeNoThrow([]);
      assert AllMakeNoThrow([Made(p.elems[0]).value]);
    }
  }

  lemma {:induction false} GrownMakesNoThrow(es: seq<Param>, p: Param, n: nat)
    requires AllMakeNoThrow(es) && MakesNoThrow(p)
    ensures AllMakeNoThrow(es + seq(n, _ => p))
    decreases |es| + n
  {
    hide MakesNoThrow;
    var all := es + seq(n, _ => p);
    if es != [] {
      assert all[1..] == es[1..] + seq(n, _ => p);
      GrownMakesNoThrow(es[1..], p, n);
    } else if n > 0 {
      assert all[1..] == [] + seq(n - 1, _ => p);
      GrownMakesNoThrow([], p, n - 1);
    }
  }

  lemma CountedMakesNoThrow(es: seq<Param>, enc: seq<byte>, off: nat)
    requires AllMakeNoThrow(es) && (es == [] || !Made(es[0]).Broken?)
    ensures !Counted(es, enc, off).Broken?
    ensures Counted(es, enc, off).Got? ==> AllMakeNoThrow(Counted(es, enc, off).value)
  {
    hide Made, ReadWord, AllMakeNoThrow;
    if Counted(es, enc, off).Got? && Made(es[0]).Got? {
      var count := ReadWord(enc, off).value;
      MadeAgain(es[0]);
      if count > |es| {
        GrownMakesNoThrow(es, Made(es[0]).value, count - |es|);
      }
    }
  }

  /** Decoding throws, or uses an invalid range, for no other reason than a huge length in the data, or a template with an array
      that `make` throws at. */
  lemma {:induction false} BreaksForCause(t: Param, enc: seq<byte>, off: nat)
    requires |enc| < SIZE_T_COUNT && MakesNoThrow(t) && Decoded(t, enc, off).Broken?
    ensures HasHugeLength(enc)
    decreases Depth(t), 0, 0
  {
    hide ReadWord, DecodedSet, DecodedCounted, DecodedBytes, Padded, Made, HasHugeLength, AllMakeNoThrow;
    match t
    case Word(_, _) =>
    case FixedBytes(_, _) =>
    case Bytes(_) => HugeLengthFound(enc, off);
    case String(_) => HugeLengthFound(enc, off);
    case Tuple(es) => SetBreaks(es, enc, off);
    case Array(es) => CountedBreaks(es, enc, off);
    case FixedArray(es) =>
      if IsDynamic(t) {
        CountedBreaks(es, enc, off);
      } else {
        SetBreaks(es, enc, off);
      }
  }

  lemma HugeLengthFound(enc: seq<byte>, off: nat)
    requires |enc| < SIZE_T_COUNT && DecodedBytes(enc, off).Broken?
    ensures HasHugeLength(enc)
  {
    hide ReadWord;
    BytesBreak(enc, off);
  }

  lemma {:induction false} CountedBreaks(es: seq<Param>, enc: seq<byte>, off: nat)
    requires |enc| < SIZE_T_COUNT && AllMakeNoThrow(es) && (es == [] || !Made(es[0]).Broken?)
    requires DecodedCounted(es, enc, off).Broken?
    ensures HasHugeLength(enc)
    decreases MaxDepth(es), 3, |es|
  {
    hide ReadWord, Counted, DecodedSet, Made, HasHugeLength, AllMakeNoThrow;
    CountedMakesNoThrow(es, enc, off);
    CountedDepth(es, enc, off);
    SetBreaks(Counted(es, enc, off).value, enc, off + 32);
  }

  lemma {:induction false} SetBreaks(ts: seq<Param>, enc: seq<byte>, off: nat)
    requires |enc| < SIZE_T_COUNT && AllMakeNoThrow(ts) && DecodedSet(ts, enc, off).Broken?
    ensures HasHugeLength(enc)
    decreases MaxDepth(ts), 2, |ts|
  {
    hide DecodedHeads, DecodedTails, HasHugeLength, AllMakeNoThrow;
    var small := DecodedHeads(ts, enc, off);
    if small.Broken? {
      HeadsBreak(ts, enc, off);
    } else {
      TailsBreak(ts, small.value.0, enc, small.value.1);
    }
  }

  lemma {:induction false} HeadsBreak(ts: seq<Param>, enc: seq<byte>, off: nat)
    requires |enc| < SIZE_T_COUNT && AllMakeNoThrow(ts) && DecodedHeads(ts, enc, off).Broken?
    ensures HasHugeLength(enc)
    decreases MaxDepth(ts), 1, |ts|
  {
    hide Decoded, IsDynamic, ReadWord, HasHugeLength, MakesNoThrow;
    if IsDynamic(ts[0]) {
      HeadsBreak(ts[1..], enc, off + 32);
    } else if Decoded(ts[0], enc, off).Broken? {
      BreaksForCause(ts[0], enc, off);
    } else {
      HeadsBreak(ts[1..], enc, Decoded(ts[0], enc, off).value.1);
    }
  }

  lemma {:induction false} TailsBreak(ts: seq<Param>, filled: seq<Param>, enc: seq<byte>, off: nat)
    requires |filled| == |ts| && |enc| < SIZE_T_COUNT && AllMakeNoThrow(ts) && DecodedTails(ts, filled, enc, off).Broken?
    ensures HasHugeLength(enc)
    decreases MaxDepth(ts), 1, |ts|
  {
    hide Decoded, IsDynamic, HasHugeLength, MakesNoThrow;
    if !IsDynamic(ts[0]) {
      TailsBreak(ts[1..], filled[1..], enc, off);
    } else if Decoded(ts[0], enc, off).Broken? {
      BreaksForCause(ts[0], enc, off);
    } else {
      TailsBreak(ts[1..], filled[1..], enc, Decoded(ts[0], enc, off).value.1);
    }
  }
}
